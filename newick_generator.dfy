/**
 * The Newick formula generator (src/include/quetzal/io/newick/generator.hpp):
 * bracket balance checks, the comment filters of depth 0, 1 and 2, the
 * PAUP / TreeAlign / PHYLIP flavours, and the generator whose pre-, in- and
 * post-order hooks build the formula while a depth-first search walks a tree.
 */
module NewickGenerator {
  import opened Common
  import opened Trees

  // ------------------------------------------------------------ bracket balance

  /** Change of the balance counter when reading `ch`. */
  function Delta(ch: char, open: char, close: char): int
  {
    (if ch == open then 1 else 0) - (if ch == close then 1 else 0)
  }

  /** Openings minus closings in `s`: the counter after reading `s`. */
  function Surplus(s: string, open: char, close: char): int
  {
    if open == close then 0 else (multiset(s)[open] as int) - (multiset(s)[close] as int)
  }

  /** The counter never goes negative on any prefix and ends at zero. */
  predicate Balanced(s: string, open: char, close: char)
  {
    (forall i :: 0 <= i <= |s| ==> Surplus(s[..i], open, close) >= 0) && Surplus(s, open, close) == 0
  }

  lemma SurplusConcat(a: string, b: string, open: char, close: char)
    ensures Surplus(a + b, open, close) == Surplus(a, open, close) + Surplus(b, open, close)
  {
    assert multiset(a + b) == multiset(a) + multiset(b);
  }

  lemma SurplusSingle(ch: char, open: char, close: char)
    ensures Surplus([ch], open, close) == Delta(ch, open, close)
  {
  }

  /** One more character read: the counter moves by its `Delta`. */
  lemma SurplusPrefixStep(s: string, i: nat, open: char, close: char)
    requires i < |s|
    ensures Surplus(s[..i + 1], open, close) == Surplus(s[..i], open, close) + Delta(s[i], open, close)
  {
    assert s[..i + 1] == s[..i] + [s[i]];
    SurplusConcat(s[..i], [s[i]], open, close);
    SurplusSingle(s[i], open, close);
  }

  /** `check_if_balanced`: one pass with a counter, failing as soon as it goes negative. */
  method CheckIfBalanced(input: string, open: char, close: char) returns (b: bool)
    ensures b == Balanced(input, open, close)
  {
    var count := 0;
    for i := 0 to |input|
      invariant count == Surplus(input[..i], open, close)
      invariant forall j :: 0 <= j <= i ==> Surplus(input[..j], open, close) >= 0
    {
      if input[i] == open {
        count := count + 1;
      }
      if input[i] == close {
        count := count - 1;
      }
      SurplusPrefixStep(input, i, open, close);
      if count < 0 {
        assert Surplus(input[..i + 1], open, close) < 0;
        return false;
      }
    }
    assert input[..|input|] == input;
    return count == 0;
  }

  /** The counter after reading `s` from `c`, one character at a time. */
  function Final(s: string, open: char, close: char, c: int): int
  {
    if s == [] then c else Final(s[1..], open, close, c + Delta(s[0], open, close))
  }

  /** Reading `s` from `c` never takes the counter below zero. */
  predicate NeverBelow(s: string, open: char, close: char, c: int)
  {
    s == [] || (c + Delta(s[0], open, close) >= 0 && NeverBelow(s[1..], open, close, c + Delta(s[0], open, close)))
  }

  /** `s` contains neither `open` nor `close`. */
  predicate Avoids(s: string, open: char, close: char)
  {
    forall i :: 0 <= i < |s| ==> s[i] != open && s[i] != close
  }

  lemma CounterIsSurplus(s: string, open: char, close: char, c: int)
    requires c >= 0
    ensures Final(s, open, close, c) == c + Surplus(s, open, close)
    ensures NeverBelow(s, open, close, c) <==> forall i :: 0 <= i <= |s| ==> c + Surplus(s[..i], open, close) >= 0
  {
    FinalShift(s, open, close, c);
    NeverBelowIsPrefixSurplus(s, open, close, c);
  }

  /** The surplus of a non-empty prefix is the first character's step plus the surplus of the rest's prefix. */
  lemma PrefixSurplusCons(s: string, open: char, close: char, i: nat)
    requires 1 <= i <= |s|
    ensures Surplus(s[..i], open, close) == Delta(s[0], open, close) + Surplus(s[1..][..i - 1], open, close)
  {
    SurplusSingle(s[0], open, close);
    assert s[..i] == [s[0]] + s[1..][..i - 1];
    SurplusConcat([s[0]], s[1..][..i - 1], open, close);
  }

  /** Every prefix of `s` keeps the counter, started at `c`, at or above zero. */
  predicate PrefixesNonNegative(s: string, open: char, close: char, c: int)
  {
    forall i :: 0 <= i <= |s| ==> c + Surplus(s[..i], open, close) >= 0
  }

  lemma NeverBelowIsPrefixSurplus(s: string, open: char, close: char, c: int)
    requires c >= 0
    ensures NeverBelow(s, open, close, c) <==> forall i :: 0 <= i <= |s| ==> c + Surplus(s[..i], open, close) >= 0
  {
    if NeverBelow(s, open, close, c) {
      NeverBelowGivesPrefixes(s, open, close, c);
    }
    if PrefixesNonNegative(s, open, close, c) {
      PrefixesGiveNeverBelow(s, open, close, c);
    }
  }

  lemma {:induction false} NeverBelowGivesPrefixes(s: string, open: char, close: char, c: int)
    requires c >= 0 && NeverBelow(s, open, close, c)
    ensures PrefixesNonNegative(s, open, close, c)
  {
    assert s[..0] == [];
    if s != [] {
      var d := Delta(s[0], open, close);
      NeverBelowGivesPrefixes(s[1..], open, close, c + d);
      forall i | 1 <= i <= |s|
        ensures c + Surplus(s[..i], open, close) >= 0
      {
        PrefixSurplusCons(s, open, close, i);
        assert c + d + Surplus(s[1..][..i - 1], open, close) >= 0;
      }
    }
  }

  lemma {:induction false} PrefixesGiveNeverBelow(s: string, open: char, close: char, c: int)
    requires c >= 0 && PrefixesNonNegative(s, open, close, c)
    ensures NeverBelow(s, open, close, c)
  {
    if s != [] {
      var d := Delta(s[0], open, close);
      PrefixSurplusCons(s, open, close, 1);
      assert s[1..][..0] == [];
      assert c + Surplus(s[..1], open, close) >= 0;
      forall i | 0 <= i <= |s[1..]|
        ensures c + d + Surplus(s[1..][..i], open, close) >= 0
      {
        PrefixSurplusCons(s, open, close, i + 1);
        assert c + Surplus(s[..i + 1], open, close) >= 0;
      }
      PrefixesGiveNeverBelow(s[1..], open, close, c + d);
    }
  }

  lemma {:induction false} FinalShift(s: string, open: char, close: char, c: int)
    ensures Final(s, open, close, c) == c + Surplus(s, open, close)
  {
    if s != [] {
      assert s == [s[0]] + s[1..];
      SurplusConcat([s[0]], s[1..], open, close);
      FinalShift(s[1..], open, close, c + Delta(s[0], open, close));
    }
  }

  /** The recursive reading of the counter agrees with `Balanced`. */
  lemma BalancedByCounter(s: string, open: char, close: char)
    ensures Balanced(s, open, close) <==> NeverBelow(s, open, close, 0) && Final(s, open, close, 0) == 0
  {
    CounterIsSurplus(s, open, close, 0);
  }

  lemma {:induction false} FinalConcat(a: string, b: string, open: char, close: char, c: int)
    ensures Final(a + b, open, close, c) == Final(b, open, close, Final(a, open, close, c))
    ensures NeverBelow(a + b, open, close, c) <==>
              NeverBelow(a, open, close, c) && NeverBelow(b, open, close, Final(a, open, close, c))
  {
    if a == [] {
      assert a + b == b;
    } else {
      assert (a + b)[1..] == a[1..] + b;
      FinalConcat(a[1..], b, open, close, c + Delta(a[0], open, close));
    }
  }

  lemma {:induction false} AvoidsKeepsCounter(s: string, open: char, close: char, c: int)
    requires Avoids(s, open, close)
    ensures Final(s, open, close, c) == c
    ensures c >= 0 ==> NeverBelow(s, open, close, c)
  {
    if s != [] {
      AvoidsKeepsCounter(s[1..], open, close, c);
    }
  }

  // ------------------------------------------------------------ comment filters

  /** Whether `remove_comments_of_depth<2>` keeps `ch`, given the counter just after it. */
  predicate KeptAtDepth2(ch: char, c: int)
  {
    c < 2 && !(ch == ']' && c == 1)
  }

  /** The output of the depth-2 filter on `s` when the counter starts at `c`. */
  function StripFrom(s: string, c: int): string
  {
    if s == [] then []
    else
      var c' := c + Delta(s[0], '[', ']');
      (if KeptAtDepth2(s[0], c') then [s[0]] else []) + StripFrom(s[1..], c')
  }

  /** One character of the filter: what it keeps of `s[i]` and the counter it continues with. */
  lemma StripStep(s: string, i: nat, c: int)
    requires i < |s|
    ensures StripFrom(s[i..], c)
            == (if KeptAtDepth2(s[i], c + Delta(s[i], '[', ']')) then [s[i]] else []) + StripFrom(s[i + 1..], c + Delta(s[i], '[', ']'))
  {
    assert s[i..][1..] == s[i + 1..];
  }

  /** The filter's state after one more character: the text kept so far and the counter. */
  lemma StripAdvance(s: string, i: nat, c: int, buffer: string, next: string)
    requires i < |s|
    requires buffer + StripFrom(s[i..], c) == StripFrom(s, 0)
    requires next == buffer + (if KeptAtDepth2(s[i], c + Delta(s[i], '[', ']')) then [s[i]] else [])
    ensures next + StripFrom(s[i + 1..], c + Delta(s[i], '[', ']')) == StripFrom(s, 0)
  {
    StripStep(s, i, c);
    SeqAssoc(buffer, (if KeptAtDepth2(s[i], c + Delta(s[i], '[', ']')) then [s[i]] else []),
             StripFrom(s[i + 1..], c + Delta(s[i], '[', ']')));
  }

  /** `remove_comments_of_depth<2>::edit`: drops the nested comments and their brackets. */
  method RemoveCommentsOfDepth2(s: string) returns (buffer: string)
    ensures buffer == StripFrom(s, 0)
  {
    buffer := "";
    var counter := 0;
    for i := 0 to |s|
      invariant buffer + StripFrom(s[i..], counter) == StripFrom(s, 0)
    {
      var ch := s[i];
      ghost var before, start := counter, buffer;
      if ch == '[' {
        counter := counter + 1;
      }
      if ch == ']' {
        counter := counter - 1;
      }
      assert counter == before + Delta(ch, '[', ']');
      var skip := (ch == '[' && counter == 2) || (ch == ']' && counter == 1);
      if !skip && !(counter >= 2 || (counter == 1 && ch == ']')) {
        buffer := buffer + [ch];
      }
      assert buffer == start + (if KeptAtDepth2(ch, counter) then [ch] else []);
      StripAdvance(s, i, before, start, buffer);
    }
    assert s[|s|..] == [];
  }

  function RemoveCommentsOfDepth0(s: string): (r: string)
    ensures r == s
  {
    s
  }

  function Min(a: int, b: int): int
  {
    if a < b then a else b
  }

  /** Reading `s` from `d` keeps the counter at 0 or 1 throughout. */
  predicate ShallowFrom(s: string, d: int)
  {
    s == [] || (0 <= d + Delta(s[0], '[', ']') <= 1 && ShallowFrom(s[1..], d + Delta(s[0], '[', ']')))
  }

  /** On input that never closes an unopened bracket, the filtered text nests at most
      one level deep, and its counter follows the input's counter capped at 1. */
  lemma {:induction false} StripOutputShallow(s: string, c: int)
    requires c >= 0 && NeverBelow(s, '[', ']', c)
    ensures ShallowFrom(StripFrom(s, c), Min(c, 1))
    ensures Final(StripFrom(s, c), '[', ']', Min(c, 1)) == Min(Final(s, '[', ']', c), 1)
  {
    if s != [] {
      var c' := c + Delta(s[0], '[', ']');
      var rest := StripFrom(s[1..], c');
      StripOutputShallow(s[1..], c');
      if KeptAtDepth2(s[0], c') {
        assert ([s[0]] + rest)[1..] == rest;
        assert Min(c, 1) + Delta(s[0], '[', ']') == Min(c', 1);
      } else {
        assert Min(c, 1) == Min(c', 1);
        assert StripFrom(s, c) == rest;
      }
    }
  }

  /** Text that already nests at most one level deep passes the filter unchanged. */
  lemma {:induction false} ShallowUnchanged(s: string, d: int)
    requires d == 0 || d == 1
    requires ShallowFrom(s, d)
    ensures StripFrom(s, d) == s
  {
    if s != [] {
      ShallowUnchanged(s[1..], d + Delta(s[0], '[', ']'));
      assert s == [s[0]] + s[1..];
    }
  }

  lemma {:induction false} ShallowNeverBelow(s: string, d: int)
    requires d >= 0 && ShallowFrom(s, d)
    ensures NeverBelow(s, '[', ']', d)
  {
    if s != [] {
      ShallowNeverBelow(s[1..], d + Delta(s[0], '[', ']'));
    }
  }

  /** Filtering twice is filtering once. */
  lemma StripIdempotent(s: string)
    requires NeverBelow(s, '[', ']', 0)
    ensures StripFrom(StripFrom(s, 0), 0) == StripFrom(s, 0)
  {
    StripOutputShallow(s, 0);
    ShallowUnchanged(StripFrom(s, 0), 0);
  }

  /** Balanced square brackets stay balanced through the filter. */
  lemma StripKeepsBalance(s: string)
    requires Balanced(s, '[', ']')
    ensures Balanced(StripFrom(s, 0), '[', ']')
  {
    BalancedByCounter(s, '[', ']');
    StripOutputShallow(s, 0);
    ShallowNeverBelow(StripFrom(s, 0), 0);
    BalancedByCounter(StripFrom(s, 0), '[', ']');
  }

  /** Text without square brackets passes the filter unchanged. */
  lemma {:induction false} StripWithoutBrackets(s: string, d: int)
    requires d == 0 || d == 1
    requires Avoids(s, '[', ']')
    ensures StripFrom(s, d) == s
  {
    if s != [] {
      StripWithoutBrackets(s[1..], d);
      assert s == [s[0]] + s[1..];
    }
  }

  lemma {:induction false} StripConcat(a: string, b: string, c: int)
    ensures StripFrom(a + b, c) == StripFrom(a, c) + StripFrom(b, Final(a, '[', ']', c))
  {
    if a == [] {
      assert a + b == b;
    } else {
      var c' := c + Delta(a[0], '[', ']');
      var head: string := if KeptAtDepth2(a[0], c') then [a[0]] else [];
      StripCons(a[0], a[1..] + b, c);
      assert [a[0]] + (a[1..] + b) == a + b;
      StripConcat(a[1..], b, c');
      StripCons(a[0], a[1..], c);
      assert [a[0]] + a[1..] == a;
      assert Final(a, '[', ']', c) == Final(a[1..], '[', ']', c');
      SeqAssoc(head, StripFrom(a[1..], c'), StripFrom(b, Final(a[1..], '[', ']', c')));
    }
  }

  /** Text without square brackets read at depth 2 or more is dropped entirely. */
  lemma {:induction false} StripDeepWithoutBrackets(s: string, d: int)
    requires d >= 2
    requires Avoids(s, '[', ']')
    ensures StripFrom(s, d) == []
  {
    if s != [] {
      StripDeepWithoutBrackets(s[1..], d);
    }
  }

  lemma StripCons(ch: char, x: string, c: int)
    ensures StripFrom([ch] + x, c) ==
              (if KeptAtDepth2(ch, c + Delta(ch, '[', ']')) then [ch] else []) + StripFrom(x, c + Delta(ch, '[', ']'))
  {
    assert ([ch] + x)[1..] == x;
  }

  /** Reading `]` then plain text from depth 1: the bracket closes the comment and is kept. */
  lemma StripCloseOuter(d: string)
    requires Avoids(d, '[', ']')
    ensures StripFrom([']'] + d, 1) == [']'] + d
  {
    StripWithoutBrackets(d, 0);
    StripCons(']', d, 1);
  }

  /** An inner comment `[c]` read at depth 1 is dropped together with its brackets. */
  lemma StripInnerComment(c: string, rest: string)
    requires Avoids(c, '[', ']')
    ensures StripFrom(['['] + (c + ([']'] + rest)), 1) == StripFrom(rest, 1)
  {
    StripCons('[', c + ([']'] + rest), 1);
    StripConcat(c, [']'] + rest, 2);
    AvoidsKeepsCounter(c, '[', ']', 2);
    StripDeepWithoutBrackets(c, 2);
    StripCons(']', rest, 2);
  }

  /** A comment nested inside a comment is dropped, the outer comment is kept. */
  lemma StripNestedComment(a: string, b: string, c: string, d: string)
    requires Avoids(a, '[', ']') && Avoids(b, '[', ']') && Avoids(c, '[', ']') && Avoids(d, '[', ']')
    ensures StripFrom(a + (['['] + (b + (['['] + (c + ([']'] + ([']'] + d)))))), 0) == a + (['['] + (b + ([']'] + d)))
  {
    var tail := ['['] + (c + ([']'] + ([']'] + d)));
    StripInnerComment(c, [']'] + d);
    StripCloseOuter(d);
    StripConcat(b, tail, 1);
    AvoidsKeepsCounter(b, '[', ']', 1);
    StripWithoutBrackets(b, 1);
    StripCons('[', b + tail, 0);
    StripConcat(a, ['['] + (b + tail), 0);
    AvoidsKeepsCounter(a, '[', ']', 0);
    StripWithoutBrackets(a, 0);
  }

  lemma NestedExamplePieces()
    ensures "(A:5,B" + (['['] + ("Comment" + (['['] + ("Nested" + ([']'] + ([']'] + ":5)r;"))))))
            == "(A:5,B[Comment[Nested]]:5)r;"
  {
    NestedTail();
    NestedInner();
    NestedOuter();
    NestedWhole();
  }

  lemma NestedTail()
    ensures [']'] + ([']'] + ":5)r;") == "]]:5)r;"
  {
  }

  lemma NestedInner()
    ensures ['['] + ("Nested" + "]]:5)r;") == "[Nested]]:5)r;"
  {
  }

  lemma NestedOuter()
    ensures ['['] + ("Comment" + "[Nested]]:5)r;") == "[Comment[Nested]]:5)r;"
  {
  }

  lemma NestedWhole()
    ensures "(A:5,B" + "[Comment[Nested]]:5)r;" == "(A:5,B[Comment[Nested]]:5)r;"
  {
  }

  lemma StrippedExamplePieces()
    ensures "(A:5,B" + (['['] + ("Comment" + ([']'] + ":5)r;"))) == "(A:5,B[Comment]:5)r;"
  {
    var y2 := ['['] + ("Comment" + ([']'] + ":5)r;"));
    assert y2 == "[Comment]:5)r;";
  }

  /** The unit-test example: the nested comment goes, the outer one stays. */
  lemma StripExample()
    ensures StripFrom("(A:5,B[Comment[Nested]]:5)r;", 0) == "(A:5,B[Comment]:5)r;"
  {
    NestedExamplePieces();
    StrippedExamplePieces();
    StripNestedComment("(A:5,B", "Comment", "Nested", ":5)r;");
  }

  function IsParen(ch: char): bool
  {
    ch == '(' || ch == ')'
  }

  /** The first index from `i` holding a parenthesis, or `|s|`. */
  function ParenFreeEnd(s: string, i: nat): (j: nat)
    requires i <= |s|
    ensures i <= j <= |s|
    ensures forall k :: i <= k < j ==> !IsParen(s[k])
    ensures j < |s| ==> IsParen(s[j])
    decreases |s| - i
  {
    if i == |s| || IsParen(s[i]) then i else ParenFreeEnd(s, i + 1)
  }

  /** The last index in [lo, hi) holding `]`, or -1. */
  function LastClose(s: string, lo: nat, hi: nat): (j: int)
    requires lo <= hi <= |s|
    ensures j == -1 || (lo <= j < hi && s[j] == ']')
    ensures j == -1 ==> forall k :: lo <= k < hi ==> s[k] != ']'
    ensures j >= 0 ==> forall k :: j < k < hi ==> s[k] != ']'
    decreases hi - lo
  {
    if hi == lo then -1 else if s[hi - 1] == ']' then hi - 1 else LastClose(s, lo, hi - 1)
  }

  /** `std::regex_replace` with `\[[^()]*\]` from index `i`: the leftmost `[` that has a
      `]` before the next parenthesis starts a match, which runs to the last such `]`. */
  function RemoveDepth1From(s: string, i: nat): (r: string)
    requires i <= |s|
    ensures |r| <= |s| - i
    decreases |s| - i
  {
    if i == |s| then []
    else
      var e := if s[i] == '[' then LastClose(s, i + 1, ParenFreeEnd(s, i + 1)) else -1;
      if e >= 0 then RemoveDepth1From(s, e + 1) else [s[i]] + RemoveDepth1From(s, i + 1)
  }

  /** `remove_comments_of_depth<1>::edit`: it never lengthens the text, and text without `[` is left alone. */
  function RemoveCommentsOfDepth1(s: string): (r: string)
    ensures |r| <= |s|
    ensures (forall k :: 0 <= k < |s| ==> s[k] != '[') ==> r == s
  {
    Depth1WithoutBrackets(s, 0);
    RemoveDepth1From(s, 0)
  }

  /** No match of the pattern contains a parenthesis, so every parenthesis survives. */
  lemma {:induction false} ParenSurvivesDepth1(s: string, i: nat, k: nat)
    requires i <= k < |s| && IsParen(s[k])
    ensures s[k] in RemoveDepth1From(s, i)
    decreases |s| - i
  {
    var e := if s[i] == '[' then LastClose(s, i + 1, ParenFreeEnd(s, i + 1)) else -1;
    if e >= 0 {
      assert e < k;
      ParenSurvivesDepth1(s, e + 1, k);
    } else if k > i {
      ParenSurvivesDepth1(s, i + 1, k);
    }
  }

  lemma Depth1Plain(s: string, i: nat)
    requires i < |s| && s[i] != '['
    ensures RemoveDepth1From(s, i) == [s[i]] + RemoveDepth1From(s, i + 1)
  {
  }

  lemma {:induction false} Depth1WithoutBrackets(s: string, i: nat)
    requires i <= |s|
    ensures (forall k :: i <= k < |s| ==> s[k] != '[') ==> RemoveDepth1From(s, i) == s[i..]
    decreases |s| - i
  {
    if i < |s| && forall k :: i <= k < |s| ==> s[k] != '[' {
      Depth1WithoutBrackets(s, i + 1);
      Depth1Plain(s, i);
      assert s[i..] == [s[i]] + s[i + 1..];
    }
  }

  lemma {:induction false} Depth1KeepsPlainPrefix(s: string, i: nat, n: nat)
    requires i <= n <= |s|
    requires forall k :: i <= k < n ==> s[k] != '['
    ensures RemoveDepth1From(s, i) == s[i..n] + RemoveDepth1From(s, n)
    decreases n - i
  {
    if i < n {
      Depth1KeepsPlainPrefix(s, i + 1, n);
      Depth1Plain(s, i);
      assert s[i..n] == [s[i]] + s[i + 1..n];
      assert [s[i]] + (s[i + 1..n] + RemoveDepth1From(s, n)) == ([s[i]] + s[i + 1..n]) + RemoveDepth1From(s, n);
    }
  }

  /** A comment whose closing bracket is the last one before the next parenthesis is
      removed whole, however it nests inside. */
  lemma Depth1RemovesComment(p: string, body: string, q: string)
    requires forall k :: 0 <= k < |p| ==> p[k] != '['
    requires Avoids(body, '(', ')')
    requires Avoids(q, '[', ']')
    ensures RemoveCommentsOfDepth1(p + "[" + body + "]" + q) == p + q
  {
    var s := p + "[" + body + "]" + q;
    var n := |p|;
    var e := n + |body| + 1;
    Depth1KeepsPlainPrefix(s, 0, n);
    assert s[0..n] == p;
    var j := ParenFreeEnd(s, n + 1);
    assert j > e;
    var r := LastClose(s, n + 1, j);
    assert s[e] == ']';
    assert r == e;
    Depth1WithoutBrackets(s, e + 1);
    assert s[e + 1..] == q;
  }

  /** The unit-test example: the whole comment, nested part included, goes. */
  lemma Depth1Example()
    ensures RemoveCommentsOfDepth1("(A:5,B[Comment[Nested]]:5)r;") == "(A:5,B:5)r;"
  {
    Depth1RemovesComment("(A:5,B", "Comment[Nested]", ":5)r;");
    assert "(A:5,B" + "[" + "Comment[Nested]" + "]" + ":5)r;" == "(A:5,B[Comment[Nested]]:5)r;";
  }

  // ------------------------------------------------------------ labels

  predicate IsForbidden(ch: char)
  {
    ch in {' ', ',', ';', '(', ')', '[', ']'}
  }

  /** `has_forbidden_characters`: the regex class ` ,;()[]` matches somewhere in `s`. */
  predicate HasForbiddenCharacters(s: string)
  {
    exists i :: 0 <= i < |s| && IsForbidden(s[i])
  }

  /** A label the post-order hook accepts for a node with a parent. */
  predicate LegalLabel(l: string)
  {
    !HasForbiddenCharacters(RemoveCommentsOfDepth1(l))
  }

  /** A parenthesis anywhere in a label, inside a comment or not, makes it illegal. */
  lemma ParenMakesLabelIllegal(l: string, k: nat)
    requires k < |l|
    ensures IsParen(l[k]) ==> !LegalLabel(l)
  {
    if IsParen(l[k]) {
      ParenSurvivesDepth1(l, 0, k);
      var r := RemoveCommentsOfDepth1(l);
      var j :| 0 <= j < |r| && r[j] == l[k];
      assert IsForbidden(r[j]);
    }
  }

  /** An accepted label holds no parenthesis at all. */
  lemma LegalLabelHasNoParens(l: string)
    requires LegalLabel(l)
    ensures Avoids(l, '(', ')')
  {
    forall k | 0 <= k < |l|
      ensures l[k] != '(' && l[k] != ')'
    {
      ParenMakesLabelIllegal(l, k);
    }
  }

  /** The colon is not in the forbidden class, a comment with nesting may follow a
      name, and a blank is refused. */
  lemma AcceptedLabels()
    ensures LegalLabel("a:b")
    ensures LegalLabel("b[my[comment]]")
    ensures !LegalLabel("a b")
  {
    ColonLabelLegal();
    CommentLabelLegal();
    SpaceLabelIllegal();
  }

  lemma ColonLabelLegal()
    ensures LegalLabel("a:b")
  {
    Depth1WithoutBrackets("a:b", 0);
    assert "a:b"[0..] == "a:b";
  }

  lemma CommentLabelLegal()
    ensures LegalLabel("b[my[comment]]")
  {
    Depth1RemovesComment("b", "my[comment]", "");
    assert "b" + "[" + "my[comment]" + "]" + "" == "b[my[comment]]";
    assert !IsForbidden("b"[0]);
  }

  lemma SpaceLabelIllegal()
    ensures !LegalLabel("a b")
  {
    Depth1WithoutBrackets("a b", 0);
    assert "a b"[0..] == "a b";
    assert IsForbidden("a b"[1]);
  }

  // ------------------------------------------------------------ flavours

  /** The Newick flavours and their two customisation points. */
  datatype Policy = PAUP | TreeAlign | PHYLIP

  /** `root_branch_length`: `:0.0` for TreeAlign only, and never a character the grammar reserves. */
  function RootBranchLength(p: Policy): (r: string)
    ensures r != "" <==> p.TreeAlign?
    ensures forall k :: 0 <= k < |r| ==> !IsForbidden(r[k])
  {
    if p.TreeAlign? then ":0.0" else ""
  }

  /** The depth-2 filter from the start: text without square brackets is left alone, and well-opened comments come out at most one level deep. */
  lemma StripFromStart(s: string)
    ensures Avoids(s, '[', ']') ==> StripFrom(s, 0) == s
    ensures NeverBelow(s, '[', ']', 0) ==> ShallowFrom(StripFrom(s, 0), 0)
  {
    if Avoids(s, '[', ']') {
      StripWithoutBrackets(s, 0);
    }
    if NeverBelow(s, '[', ']', 0) {
      StripOutputShallow(s, 0);
    }
  }

  /**
   * `treat_comments`: PAUP keeps every comment, the other two drop nested ones,
   * so their comments nest at most one level; without square brackets every
   * flavour leaves the text as it is.
   */
  function TreatComments(p: Policy, s: string): (r: string)
    ensures p.PAUP? ==> r == s
    ensures Avoids(s, '[', ']') ==> r == s
    ensures !p.PAUP? && NeverBelow(s, '[', ']', 0) ==> ShallowFrom(r, 0)
  {
    StripFromStart(s);
    if p.PAUP? then RemoveCommentsOfDepth0(s) else StripFrom(s, 0)
  }

  // ------------------------------------------------------------ Newick grammar

  /** What the post-order hook writes after the closing parenthesis of `t`. */
  function NodeSuffix<C>(labelOf: Tree<C> -> string, branch: Tree<C> -> string, p: Policy, t: Tree<C>): string
  {
    if t.hasParent then labelOf(t) + (if branch(t) != "" then ":" + branch(t) else "")
    else labelOf(t) + RootBranchLength(p)
  }

  /** The Newick text of a subtree: a leaf is its name; an inner node is the
      comma-separated list of its children in parentheses, then its name, so it opens
      with `(` and holds at least its two parentheses and the commas between its children. */
  function Newick<C>(labelOf: Tree<C> -> string, branch: Tree<C> -> string, p: Policy, t: Tree<C>): (r: string)
    ensures HasChildren(t) ==> |r| >= |t.children| + 1 && r[0] == '('
    decreases t, |t.children| + 1
  {
    (if HasChildren(t) then "(" + BranchSet(labelOf, branch, p, t, |t.children|) + ")" else "")
    + NodeSuffix(labelOf, branch, p, t)
  }

  /** The first `n` children of `t`, separated by commas. */
  function BranchSet<C>(labelOf: Tree<C> -> string, branch: Tree<C> -> string, p: Policy, t: Tree<C>, n: nat): (r: string)
    requires 1 <= n <= |t.children|
    ensures |r| >= n - 1
    decreases t, n
  {
    if n == 1 then Newick(labelOf, branch, p, t.children[0])
    else BranchSet(labelOf, branch, p, t, n - 1) + "," + Newick(labelOf, branch, p, t.children[n - 1])
  }

  /** The first `i` children of `t`, each followed by a comma, as the hooks write them. */
  function Trailing<C>(labelOf: Tree<C> -> string, branch: Tree<C> -> string, p: Policy, t: Tree<C>, i: nat): string
    requires i <= |t.children|
  {
    if i == 0 then "" else Trailing(labelOf, branch, p, t, i - 1) + Newick(labelOf, branch, p, t.children[i - 1]) + ","
  }

  lemma {:induction false} TrailingIsBranchSet<C>(labelOf: Tree<C> -> string, branch: Tree<C> -> string, p: Policy, t: Tree<C>, i: nat)
    requires 1 <= i <= |t.children|
    ensures Trailing(labelOf, branch, p, t, i) == BranchSet(labelOf, branch, p, t, i) + ","
  {
    if i > 1 {
      TrailingIsBranchSet(labelOf, branch, p, t, i - 1);
    }
  }

  /** Every node with a parent carries a label the post-order hook accepts. */
  predicate LabelsLegal<C>(labelOf: Tree<C> -> string, t: Tree<C>)
  {
    (t.hasParent ==> LegalLabel(labelOf(t)))
    && forall i :: 0 <= i < |t.children| ==> LabelsLegal(labelOf, t.children[i])
  }

  /** Every node's suffix avoids both characters. */
  predicate SuffixesAvoid<C>(labelOf: Tree<C> -> string, branch: Tree<C> -> string, p: Policy, t: Tree<C>, open: char, close: char)
  {
    Avoids(NodeSuffix(labelOf, branch, p, t), open, close)
    && forall i :: 0 <= i < |t.children| ==> SuffixesAvoid(labelOf, branch, p, t.children[i], open, close)
  }

  /** Legal labels, a root label and branch lengths without parentheses leave every
      suffix without parentheses. */
  lemma {:induction false} LegalSuffixesAvoidParens<C>(labelOf: Tree<C> -> string, branch: Tree<C> -> string, p: Policy, t: Tree<C>)
    requires LabelsLegal(labelOf, t)
    requires !t.hasParent ==> Avoids(labelOf(t), '(', ')')
    requires forall n: Tree<C> :: Avoids(branch(n), '(', ')')
    requires WellParented(t)
    ensures SuffixesAvoid(labelOf, branch, p, t, '(', ')')
  {
    if t.hasParent {
      LegalLabelHasNoParens(labelOf(t));
      var b := branch(t);
      assert Avoids(":" + b, '(', ')') by {
        assert forall k :: 1 <= k < |":" + b| ==> (":" + b)[k] == b[k - 1];
      }
    }
    forall i | 0 <= i < |t.children|
      ensures SuffixesAvoid(labelOf, branch, p, t.children[i], '(', ')')
    {
      LegalSuffixesAvoidParens(labelOf, branch, p, t.children[i]);
    }
  }

  lemma AvoidsConcat(a: string, b: string, open: char, close: char)
    requires Avoids(a, open, close) && Avoids(b, open, close)
    ensures Avoids(a + b, open, close)
  {
    assert forall k :: |a| <= k < |a + b| ==> (a + b)[k] == b[k - |a|];
  }

  lemma NewickUnfold<C>(labelOf: Tree<C> -> string, branch: Tree<C> -> string, p: Policy, t: Tree<C>)
    requires HasChildren(t)
    ensures Newick(labelOf, branch, p, t)
            == "(" + BranchSet(labelOf, branch, p, t, |t.children|) + ")" + NodeSuffix(labelOf, branch, p, t)
  {
  }

  lemma BranchSetUnfold<C>(labelOf: Tree<C> -> string, branch: Tree<C> -> string, p: Policy, t: Tree<C>, n: nat)
    requires 1 < n <= |t.children|
    ensures BranchSet(labelOf, branch, p, t, n)
            == BranchSet(labelOf, branch, p, t, n - 1) + "," + Newick(labelOf, branch, p, t.children[n - 1])
  {
  }

  /** Reading one character moves the counter by its step. */
  lemma CounterOne(ch: char, open: char, close: char, c: int)
    ensures Final([ch], open, close, c) == c + Delta(ch, open, close)
    ensures NeverBelow([ch], open, close, c) <==> c + Delta(ch, open, close) >= 0
  {
    assert [ch][1..] == [];
  }

  /** Reading `s` from `c` never goes below zero and comes back to `c`. */
  predicate Neutral(s: string, open: char, close: char, c: int)
  {
    NeverBelow(s, open, close, c) && Final(s, open, close, c) == c
  }

  lemma NeutralConcat(a: string, b: string, open: char, close: char, c: int)
    requires Neutral(a, open, close, c) && Neutral(b, open, close, c)
    ensures Neutral(a + b, open, close, c)
  {
    FinalConcat(a, b, open, close, c);
  }

  /** A text neutral one level deeper, wrapped in parentheses, is neutral. */
  lemma NeutralWrap(b: string, c: int)
    requires c >= 0 && Neutral(b, '(', ')', c + 1)
    ensures Neutral("(" + b + ")", '(', ')', c)
  {
    CounterOne('(', '(', ')', c);
    CounterOne(')', '(', ')', c + 1);
    FinalConcat("(", b, '(', ')', c);
    FinalConcat("(" + b, ")", '(', ')', c);
  }

  /** Parentheses in the generated text are balanced from any starting depth. */
  lemma {:induction false} NewickParensBalanced<C>(labelOf: Tree<C> -> string, branch: Tree<C> -> string, p: Policy, t: Tree<C>, c: int)
    requires c >= 0
    requires SuffixesAvoid(labelOf, branch, p, t, '(', ')')
    ensures NeverBelow(Newick(labelOf, branch, p, t), '(', ')', c)
    ensures Final(Newick(labelOf, branch, p, t), '(', ')', c) == c
    decreases t, |t.children| + 1
  {
    var suffix := NodeSuffix(labelOf, branch, p, t);
    AvoidsKeepsCounter(suffix, '(', ')', c);
    if HasChildren(t) {
      var body := BranchSet(labelOf, branch, p, t, |t.children|);
      NewickUnfold(labelOf, branch, p, t);
      BranchSetParensBalanced(labelOf, branch, p, t, |t.children|, c + 1);
      NeutralWrap(body, c);
      NeutralConcat("(" + body + ")", suffix, '(', ')', c);
    } else {
      assert Newick(labelOf, branch, p, t) == suffix;
    }
  }

  lemma {:induction false} BranchSetParensBalanced<C>(labelOf: Tree<C> -> string, branch: Tree<C> -> string, p: Policy, t: Tree<C>, n: nat, c: int)
    requires c >= 0 && 1 <= n <= |t.children|
    requires forall i :: 0 <= i < |t.children| ==> SuffixesAvoid(labelOf, branch, p, t.children[i], '(', ')')
    ensures Neutral(BranchSet(labelOf, branch, p, t, n), '(', ')', c)
    decreases t, n
  {
    NewickParensBalanced(labelOf, branch, p, t.children[n - 1], c);
    if n > 1 {
      var left := BranchSet(labelOf, branch, p, t, n - 1);
      BranchSetUnfold(labelOf, branch, p, t, n);
      BranchSetParensBalanced(labelOf, branch, p, t, n - 1, c);
      CounterOne(',', '(', ')', c);
      NeutralConcat(left, ",", '(', ')', c);
      NeutralConcat(left + ",", Newick(labelOf, branch, p, t.children[n - 1]), '(', ')', c);
    }
  }

  /** With suffixes free of a pair of brackets other than parentheses and the comma,
      the whole text is free of them. */
  lemma {:induction false} NewickAvoids<C>(labelOf: Tree<C> -> string, branch: Tree<C> -> string, p: Policy, t: Tree<C>, open: char, close: char)
    requires open !in "(),"  && close !in "(),"
    requires SuffixesAvoid(labelOf, branch, p, t, open, close)
    ensures Avoids(Newick(labelOf, branch, p, t), open, close)
    decreases t, |t.children| + 1
  {
    if HasChildren(t) {
      BranchSetAvoids(labelOf, branch, p, t, |t.children|, open, close);
      var body := BranchSet(labelOf, branch, p, t, |t.children|);
      AvoidsConcat("(", body, open, close);
      AvoidsConcat("(" + body, ")", open, close);
      AvoidsConcat("(" + body + ")", NodeSuffix(labelOf, branch, p, t), open, close);
    }
  }

  lemma {:induction false} BranchSetAvoids<C>(labelOf: Tree<C> -> string, branch: Tree<C> -> string, p: Policy, t: Tree<C>, n: nat, open: char, close: char)
    requires open !in "(),"  && close !in "(),"
    requires 1 <= n <= |t.children|
    requires forall i :: 0 <= i < |t.children| ==> SuffixesAvoid(labelOf, branch, p, t.children[i], open, close)
    ensures Avoids(BranchSet(labelOf, branch, p, t, n), open, close)
    decreases t, n
  {
    NewickAvoids(labelOf, branch, p, t.children[n - 1], open, close);
    if n > 1 {
      BranchSetAvoids(labelOf, branch, p, t, n - 1, open, close);
      AvoidsConcat(BranchSet(labelOf, branch, p, t, n - 1), ",", open, close);
      AvoidsConcat(BranchSet(labelOf, branch, p, t, n - 1) + ",", Newick(labelOf, branch, p, t.children[n - 1]), open, close);
    }
  }

  // ------------------------------------------------------------ take_result

  /** What `take_result` returns for a formula buffer holding `formula`. */
  function TakeResultOf(p: Policy, formula: string): Result<string>
  {
    var treated := TreatComments(p, formula + ";");
    if !Balanced(treated, '(', ')') then Failure(RuntimeError)
    else if !Balanced(treated, '[', ']') then Failure(RuntimeError)
    else Success(treated)
  }

  /** A tree with legal labels, whose suffixes hold neither parentheses nor square
      brackets, yields its Newick text followed by `;` in every flavour. */
  lemma GeneratedFormulaAccepted<C>(labelOf: Tree<C> -> string, branch: Tree<C> -> string, p: Policy, t: Tree<C>)
    requires SuffixesAvoid(labelOf, branch, p, t, '(', ')')
    requires SuffixesAvoid(labelOf, branch, p, t, '[', ']')
    ensures TakeResultOf(p, Newick(labelOf, branch, p, t)) == Success(Newick(labelOf, branch, p, t) + ";")
  {
    var s := Newick(labelOf, branch, p, t);
    NewickAvoids(labelOf, branch, p, t, '[', ']');
    TerminatedWithoutBrackets(p, s);
    NewickParensBalanced(labelOf, branch, p, t, 0);
    TerminatedParensBalanced(s);
  }

  /** A formula without square brackets keeps them balanced, and its comment treatment
      leaves it alone, once `;` is appended. */
  lemma TerminatedWithoutBrackets(p: Policy, s: string)
    requires Avoids(s, '[', ']')
    ensures TreatComments(p, s + ";") == s + ";"
    ensures Balanced(s + ";", '[', ']')
  {
    AvoidsConcat(s, ";", '[', ']');
    AvoidsKeepsCounter(s + ";", '[', ']', 0);
    BalancedByCounter(s + ";", '[', ']');
  }

  /** Appending `;` keeps a formula's parentheses balanced. */
  lemma TerminatedParensBalanced(s: string)
    requires NeverBelow(s, '(', ')', 0) && Final(s, '(', ')', 0) == 0
    ensures Balanced(s + ";", '(', ')')
  {
    AvoidsKeepsCounter(";", '(', ')', 0);
    FinalConcat(s, ";", '(', ')', 0);
    BalancedByCounter(s + ";", '(', ')');
  }

  // ------------------------------------------------------------ the generator

  /** The buffer once a node with children has had its trailing comma replaced by `)`. */
  function Closed<C>(formula: string, node: Tree<C>): string
    requires HasChildren(node) ==> formula != ""
  {
    if HasChildren(node) then formula[..|formula| - 1] + ")" else formula
  }

  /** The formula generator: a string buffer written by the three order hooks. */
  class Generator<C> {
    var formula: string
    const policy: Policy
    const labelOf: Tree<C> -> string
    const branchLengthOf: Tree<C> -> string

    constructor(policy: Policy, labelOf: Tree<C> -> string, branchLengthOf: Tree<C> -> string)
      ensures formula == ""
      ensures this.policy == policy && this.labelOf == labelOf && this.branchLengthOf == branchLengthOf
    {
      formula := "";
      this.policy := policy;
      this.labelOf := labelOf;
      this.branchLengthOf := branchLengthOf;
    }

    /** `_pre_order`: opens a parenthesis on a node with children. */
    method PreOrder(node: Tree<C>)
      modifies this
      ensures formula == old(formula) + (if HasChildren(node) then "(" else "")
    {
      if HasChildren(node) {
        formula := formula + "(";
      }
    }

    /** `_in_order`: a comma after each child. */
    method InOrder(node: Tree<C>)
      modifies this
      ensures formula == old(formula) + ","
    {
      formula := formula + ",";
    }

    /** `_post_order`: replaces the trailing comma by `)` on a node with children, then
        writes the label and branch length, refusing an illegal label below the root. */
    method PostOrder(node: Tree<C>) returns (r: Outcome)
      requires HasChildren(node) ==> formula != ""
      modifies this
      ensures r == (if node.hasParent && !LegalLabel(labelOf(node)) then Fail(InvalidArgument) else Pass)
      ensures r.Fail? ==> formula == Closed(old(formula), node)
      ensures r.Pass? ==> formula == Closed(old(formula), node) + NodeSuffix(labelOf, branchLengthOf, policy, node)
    {
      if HasChildren(node) {
        formula := formula[..|formula| - 1];
        formula := formula + ")";
      }
      if node.hasParent {
        var l := labelOf(node);
        if HasForbiddenCharacters(RemoveCommentsOfDepth1(l)) {
          return Fail(InvalidArgument);
        }
        formula := formula + l;
        var branch := branchLengthOf(node);
        if branch != "" {
          formula := formula + ":";
          formula := formula + branch;
        }
      } else {
        formula := formula + labelOf(node);
        formula := formula + RootBranchLength(policy);
      }
      r := Pass;
    }

    /** `clear`. */
    method Clear()
      modifies this
      ensures formula == ""
    {
      formula := "";
    }

    /** `take_result`: terminates the formula, treats comments, checks both bracket kinds. */
    method TakeResult() returns (r: Result<string>)
      modifies this
      ensures formula == TreatComments(policy, old(formula) + ";")
      ensures r == TakeResultOf(policy, old(formula))
    {
      formula := formula + ";";
      if !policy.PAUP? {
        formula := RemoveCommentsOfDepth2(formula);
      }
      var parens := CheckIfBalanced(formula, '(', ')');
      if !parens {
        return Failure(RuntimeError);
      }
      var brackets := CheckIfBalanced(formula, '[', ']');
      if !brackets {
        return Failure(RuntimeError);
      }
      r := Success(formula);
    }

    /** The generic depth-first search of include/quetzal/coalescence/containers/Tree.h
        driving the three hooks; an exception from a hook ends the search. */
    method VisitGenericDfs(t: Tree<C>) returns (r: Outcome)
      modifies this
      ensures r == Pass || r == Fail(InvalidArgument)
      ensures r.Pass? <==> LabelsLegal(labelOf, t)
      ensures r.Pass? ==> formula == old(formula) + Newick(labelOf, branchLengthOf, policy, t)
      decreases t, 1
    {
      ghost var start := formula;
      PreOrder(t);
      ghost var afterPre := formula;
      r := VisitChildren(t);
      if r.Fail? {
        return;
      }
      ClosingFormula(labelOf, branchLengthOf, policy, t, start, afterPre);
      r := PostOrder(t);
    }

    /** The loop of the traversal over the children of `t`, each followed by the in-order hook. */
    method VisitChildren(t: Tree<C>) returns (r: Outcome)
      modifies this
      ensures r == Pass || r == Fail(InvalidArgument)
      ensures r.Pass? <==> forall j :: 0 <= j < |t.children| ==> LabelsLegal(labelOf, t.children[j])
      ensures r.Pass? ==> formula == old(formula) + Trailing(labelOf, branchLengthOf, policy, t, |t.children|)
      decreases t, 0
    {
      ghost var start := formula;
      r := Pass;
      var i := 0;
      while i < |t.children| && r.Pass?
        invariant 0 <= i <= |t.children|
        invariant r == Pass || r == Fail(InvalidArgument)
        invariant forall j :: 0 <= j < i ==> LabelsLegal(labelOf, t.children[j])
        invariant r.Pass? ==> formula == start + Trailing(labelOf, branchLengthOf, policy, t, i)
        invariant !r.Pass? ==> i < |t.children| && !LabelsLegal(labelOf, t.children[i])
        decreases |t.children| - i, if r.Pass? then 1 else 0
      {
        ghost var before := formula;
        var child := t.children[i];
        r := VisitGenericDfs(child);
        if r.Pass? {
          assert LabelsLegal(labelOf, t.children[i]);
          InOrder(t);
          TrailingStep(labelOf, branchLengthOf, policy, t, i, start, before, formula);
          LegalChildrenStep(labelOf, t, i);
          i := i + 1;
        }
      }
      if r.Pass? {
        assert i == |t.children|;
      } else {
        assert !LabelsLegal(labelOf, t.children[i]);
      }
    }
  }

  /** One more child with legal labels extends the legal prefix of the children. */
  lemma LegalChildrenStep<C>(labelOf: Tree<C> -> string, t: Tree<C>, i: nat)
    requires i < |t.children|
    requires forall j :: 0 <= j < i ==> LabelsLegal(labelOf, t.children[j])
    requires LabelsLegal(labelOf, t.children[i])
    ensures forall j :: 0 <= j < i + 1 ==> LabelsLegal(labelOf, t.children[j])
  {
  }

  lemma TrailingStep<C>(labelOf: Tree<C> -> string, branchLengthOf: Tree<C> -> string, p: Policy, t: Tree<C>, i: nat,
                        start: string, before: string, after: string)
    requires i < |t.children|
    requires before == start + Trailing(labelOf, branchLengthOf, p, t, i)
    requires after == before + Newick(labelOf, branchLengthOf, p, t.children[i]) + ","
    ensures after == start + Trailing(labelOf, branchLengthOf, p, t, i + 1)
  {
    var prefix, n := Trailing(labelOf, branchLengthOf, p, t, i), Newick(labelOf, branchLengthOf, p, t.children[i]);
    assert Trailing(labelOf, branchLengthOf, p, t, i + 1) == prefix + n + ",";
    SeqAssoc(start, prefix, n);
    SeqAssoc(start, prefix + n, ",");
  }

  /** What the post-order hook sees and leaves once every child has been visited. */
  lemma ClosingFormula<C>(labelOf: Tree<C> -> string, branchLengthOf: Tree<C> -> string, p: Policy, t: Tree<C>, start: string, afterPre: string)
    requires afterPre == start + (if HasChildren(t) then "(" else "")
    ensures var f := afterPre + Trailing(labelOf, branchLengthOf, p, t, |t.children|);
            (HasChildren(t) ==> f != "")
            && Closed(f, t) + NodeSuffix(labelOf, branchLengthOf, p, t) == start + Newick(labelOf, branchLengthOf, p, t)
  {
    if HasChildren(t) {
      ClosingParenthesis(labelOf, branchLengthOf, p, t, start + "(");
    }
  }

  /** Once every child of an inner node is written, its last comma becomes the closing parenthesis. */
  lemma ClosingParenthesis<C>(labelOf: Tree<C> -> string, branchLengthOf: Tree<C> -> string, p: Policy, t: Tree<C>, head: string)
    requires HasChildren(t) && head != "" && head[|head| - 1] == '('
    ensures var f := head + Trailing(labelOf, branchLengthOf, p, t, |t.children|);
            f != "" && f[..|f| - 1] + ")" + NodeSuffix(labelOf, branchLengthOf, p, t)
                       == head[..|head| - 1] + Newick(labelOf, branchLengthOf, p, t)
  {
    var n := |t.children|;
    var body := BranchSet(labelOf, branchLengthOf, p, t, n);
    var suffix := NodeSuffix(labelOf, branchLengthOf, p, t);
    TrailingIsBranchSet(labelOf, branchLengthOf, p, t, n);
    assert Newick(labelOf, branchLengthOf, p, t) == "(" + body + ")" + suffix;
    Splice(head, body, suffix);
  }

  /** Dropping the comma after the last child and writing `)` splices the parenthesised list after the prefix. */
  lemma Splice(head: string, body: string, suffix: string)
    requires head != "" && head[|head| - 1] == '('
    ensures var f := head + (body + ",");
            f[..|f| - 1] + ")" + suffix == head[..|head| - 1] + ("(" + body + ")" + suffix)
  {
    var f := head + (body + ",");
    assert f[..|f| - 1] == head + body;
    assert head == head[..|head| - 1] + "(";
  }

  // ------------------------------------------------------------ unit-test trees

  /** a(b, c(d, e)), the fixture tree of the generator tests. */
  function FixtureTree(): Tree<char>
  {
    Tree(false, 'a', [Tree(true, 'b', []), Tree(true, 'c', [Tree(true, 'd', []), Tree(true, 'e', [])])])
  }

  /** The label and branch length the tests leave empty. */
  function NoText(n: Tree<char>): string
  {
    ""
  }

  /** An unlabelled tip below the root is written as nothing. */
  lemma NoTextTip(p: Policy, n: Tree<char>)
    requires n.hasParent && n.children == []
    ensures Newick(NoText, NoText, p, n) == ""
  {
  }

  /** An unlabelled inner node below the root with two tips is written `(,)`. */
  lemma NoTextPair(p: Policy, n: Tree<char>)
    requires n.hasParent && |n.children| == 2
    requires n.children[0].hasParent && n.children[0].children == []
    requires n.children[1].hasParent && n.children[1].children == []
    ensures Newick(NoText, NoText, p, n) == "(,)"
  {
    NoTextTip(p, n.children[0]);
    NoTextTip(p, n.children[1]);
    assert BranchSet(NoText, NoText, p, n, 2) == ",";
  }

  /** An unlabelled root over a tip and a pair of tips is written `(,(,))`, then the root length of `p`. */
  lemma NoTextTipAndPair(p: Policy, t: Tree<char>)
    requires !t.hasParent && |t.children| == 2
    requires t.children[0].hasParent && t.children[0].children == []
    requires t.children[1].hasParent && |t.children[1].children| == 2
    requires t.children[1].children[0].hasParent && t.children[1].children[0].children == []
    requires t.children[1].children[1].hasParent && t.children[1].children[1].children == []
    ensures Newick(NoText, NoText, p, t) == "(,(,))" + RootBranchLength(p)
  {
    NoTextTipAndPairChildren(p, t);
    var suffix := NodeSuffix(NoText, NoText, p, t);
    assert suffix == RootBranchLength(p);
    assert Newick(NoText, NoText, p, t) == "(" + ",(,)" + ")" + suffix;
    assert "(" + ",(,)" + ")" == "(,(,))";
  }

  /** The children of that root, a tip and a pair of tips, are written `,(,)`. */
  lemma NoTextTipAndPairChildren(p: Policy, t: Tree<char>)
    requires |t.children| == 2
    requires t.children[0].hasParent && t.children[0].children == []
    requires t.children[1].hasParent && |t.children[1].children| == 2
    requires t.children[1].children[0].hasParent && t.children[1].children[0].children == []
    requires t.children[1].children[1].hasParent && t.children[1].children[1].children == []
    ensures BranchSet(NoText, NoText, p, t, 2) == ",(,)"
  {
    var b, c := t.children[0], t.children[1];
    NoTextTip(p, b);
    NoTextPair(p, c);
    var one := BranchSet(NoText, NoText, p, t, 1);
    assert one == "";
    assert BranchSet(NoText, NoText, p, t, 2) == one + "," + Newick(NoText, NoText, p, c);
  }

  /** The unlabelled fixture in flavour `p`: its shape, then the root length of `p`. */
  lemma FixtureShape(p: Policy)
    ensures Newick(NoText, NoText, p, FixtureTree()) == "(,(,))" + RootBranchLength(p)
  {
    NoTextTipAndPair(p, FixtureTree());
  }

  /** Without labels and branch lengths PAUP gives `(,(,));` and TreeAlign `(,(,)):0.0;`. */
  lemma FixtureWithoutLabels()
    ensures Newick(NoText, NoText, PAUP, FixtureTree()) + ";" == "(,(,));"
    ensures Newick(NoText, NoText, TreeAlign, FixtureTree()) + ";" == "(,(,)):0.0;"
  {
    FixtureShape(PAUP);
    FixtureShape(TreeAlign);
  }

  /** The cell as label. */
  function CellText(n: Tree<char>): string
  {
    [n.cell]
  }

  /** With the cell as label PAUP gives `(b,(d,e)c)a;`. */
  lemma FixtureWithLabels()
    ensures Newick(CellText, NoText, PAUP, FixtureTree()) + ";" == "(b,(d,e)c)a;"
  {
    var t := FixtureTree();
    var c := t.children[1];
    assert Newick(CellText, NoText, PAUP, c.children[0]) == "d";
    assert Newick(CellText, NoText, PAUP, c.children[1]) == "e";
    assert BranchSet(CellText, NoText, PAUP, c, 2) == "d,e";
    assert Newick(CellText, NoText, PAUP, c) == "(d,e)c";
    assert Newick(CellText, NoText, PAUP, t.children[0]) == "b";
    assert BranchSet(CellText, NoText, PAUP, t, 2) == "b,(d,e)c";
  }

  /** Without labels or lengths a suffix is empty or the root length `:0.0`, so it
      avoids any pair of brackets other than these characters. */
  lemma {:induction false} NoTextSuffixesAvoid(p: Policy, t: Tree<char>, open: char, close: char)
    requires open != ':' && open != '0' && open != '.'
    requires close != ':' && close != '0' && close != '.'
    ensures SuffixesAvoid(NoText, NoText, p, t, open, close)
  {
    forall i | 0 <= i < |t.children|
      ensures SuffixesAvoid(NoText, NoText, p, t.children[i], open, close)
    {
      NoTextSuffixesAvoid(p, t.children[i], open, close);
    }
  }

  /** `take_result` accepts the fixture formula in both flavours the tests use. */
  lemma FixtureTakeResult(t: Tree<char>)
    requires t == FixtureTree()
    ensures TakeResultOf(PAUP, Newick(NoText, NoText, PAUP, t)) == Success("(,(,));")
    ensures TakeResultOf(TreeAlign, Newick(NoText, NoText, TreeAlign, t)) == Success("(,(,)):0.0;")
  {
    NoTextSuffixesAvoid(PAUP, t, '(', ')');
    NoTextSuffixesAvoid(PAUP, t, '[', ']');
    NoTextSuffixesAvoid(TreeAlign, t, '(', ')');
    NoTextSuffixesAvoid(TreeAlign, t, '[', ']');
    GeneratedFormulaAccepted(NoText, NoText, PAUP, t);
    GeneratedFormulaAccepted(NoText, NoText, TreeAlign, t);
    FixtureWithoutLabels();
  }
}
