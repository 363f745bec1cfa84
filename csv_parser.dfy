// The character-driven CSV parser: a state machine fed one character at a
// time, which calls a field handler at the end of every field, an end-of-line
// handler at the end of every line and a comment handler at the end of every
// comment line.  Quoted fields may hold separators, new lines and doubled
// quotes, as in section 2, rules 5 to 7, of RFC 4180.
//
// The character classes come from the parser's traits, modelled by the four
// characters they recognise.  The handlers are the functions installed at the
// time of a call; what a handler does besides returning its verdict is left
// to the caller, and the parser's observable output is the sequence of
// handler calls it makes, kept in `events`.

module CsvParsing {
  import opened Common

  datatype State =
    | Initial
    | Comment
    | Record
    | QuotedRecord
    | QuoteQuotedRecord
    | NewLine
    | BetweenRecords

  /** `csv_error`. */
  datatype CsvError =
    | NoError
    | UserAborted
    | MalformedQuotedString
    | UnterminatedQuotedString
    | EmptyFile

  /** A call the parser makes to one of its handlers. */
  datatype Event =
    | FieldCall(value: string)
    | EndLineCall
    | CommentCall(text: string)
    | ErrorCall(error: CsvError, line: int, pos: int)
    | EndFileCall

  /** The characters the traits classify as separator, double quote, start of comment and new line. */
  datatype Traits = Traits(separator: char, quote: char, comment: char, newLine: char)
  {
    predicate Distinct()
    {
      separator != quote && separator != comment && separator != newLine &&
      quote != comment && quote != newLine && comment != newLine
    }
  }

  /**
   * The handlers installed: the field and comment handlers return `false` to
   * abort, the end-of-file handler's verdict is given when it is installed;
   * the end-of-line and error handlers' results are ignored.
   */
  datatype Handlers = Handlers(field: Option<string -> bool>, comment: Option<string -> bool>,
                               endLine: bool, endFile: Option<bool>, onError: bool)

  /** The parser's state, its position, its pending field, its error and the calls made so far. */
  datatype Snapshot = Snapshot(state: State, line: int, pos: int, value: string, error: CsvError, events: seq<Event>)

  /** The snapshot of a new or reset parser. */
  function Start(events: seq<Event>): Snapshot
  {
    Snapshot(Initial, 1, 1, [], NoError, events)
  }

  /** `call_error_handler(err)`: records the error, then reports it with the current position. */
  function RaiseError(s: Snapshot, h: Handlers, err: CsvError): Snapshot
  {
    s.(error := err, events := s.events + (if h.onError then [ErrorCall(err, s.line, s.pos)] else []))
  }

  /** `call_field_handler()`: delivers the field unless an error is set, then clears it. */
  function EmitField(s: Snapshot, h: Handlers): Snapshot
  {
    if h.field.Some? && s.error == NoError then
      var s1 := s.(events := s.events + [FieldCall(s.value)]);
      (if h.field.value(s.value) then s1 else RaiseError(s1, h, UserAborted)).(value := [])
    else
      s.(value := [])
  }

  /** `call_comment_handler()`: delivers the comment unless an error is set, then clears it. */
  function EmitComment(s: Snapshot, h: Handlers): Snapshot
  {
    if h.comment.Some? && s.error == NoError then
      var s1 := s.(events := s.events + [CommentCall(s.value)]);
      (if h.comment.value(s.value) then s1 else RaiseError(s1, h, UserAborted)).(value := [])
    else
      s.(value := [])
  }

  /** `update_line_counter()`. */
  function NextLine(s: Snapshot): Snapshot
  {
    s.(line := s.line + 1, pos := 1)
  }

  /** `call_end_line_handler()`: calls the handler whatever the error, then moves to the next line. */
  function EndLine(s: Snapshot, h: Handlers): Snapshot
  {
    NextLine(s.(events := s.events + (if h.endLine then [EndLineCall] else [])))
  }

  /** `consume(c)`: one transition of the state machine, after moving one position right. */
  function Consumed(s: Snapshot, c: char, t: Traits, h: Handlers): Snapshot
  {
    Transition(s.(pos := s.pos + 1), c, t, h)
  }

  /** The `switch` of `consume(c)` on the current state. */
  function Transition(s: Snapshot, c: char, t: Traits, h: Handlers): Snapshot
  {
    match s.state
    case Initial | NewLine =>
      if c == t.separator then EmitField(s, h).(state := BetweenRecords)
      else if c == t.quote then s.(state := QuotedRecord)
      else if c == t.comment then s.(state := Comment)
      else if c == t.newLine then EndLine(s, h).(state := NewLine)
      else s.(value := s.value + [c], state := Record)
    case Record =>
      if c == t.separator then EmitField(s, h).(state := BetweenRecords)
      else if c == t.newLine then EndLine(EmitField(s, h), h).(state := NewLine)
      else s.(value := s.value + [c])
    case QuoteQuotedRecord =>
      if c == t.separator then EmitField(s, h).(state := BetweenRecords)
      else if c == t.quote then s.(value := s.value + [c], state := QuotedRecord)
      else if c == t.newLine then EndLine(EmitField(s, h), h).(state := NewLine)
      else RaiseError(s, h, MalformedQuotedString)
    case BetweenRecords =>
      if c == t.separator then EmitField(s, h).(state := BetweenRecords)
      else if c == t.quote then s.(state := QuotedRecord)
      else if c == t.newLine then EndLine(EmitField(s, h), h).(state := NewLine)
      else s.(value := s.value + [c], state := Record)
    case Comment =>
      if c == t.newLine then NextLine(EmitComment(s, h).(state := NewLine))
      else s.(value := s.value + [c])
    case QuotedRecord =>
      if c == t.quote then s.(state := QuoteQuotedRecord)
      else if c == t.newLine then NextLine(s).(value := s.value + [c])
      else s.(value := s.value + [c])
  }

  /** The parser after consuming every character of `cs` in order. */
  function Fed(s: Snapshot, cs: string, t: Traits, h: Handlers): Snapshot
    decreases |cs|
  {
    if cs == [] then s else Fed(Consumed(s, cs[0], t, h), cs[1..], t, h)
  }

  /** `end_of_data()`: closes the pending field, comment or error, then calls the end-of-file handler. */
  function EndedData(s: Snapshot, h: Handlers): Snapshot
  {
    var s1 :=
      match s.state
      case QuoteQuotedRecord | Record | BetweenRecords => EndLine(EmitField(s, h), h)
      case QuotedRecord => RaiseError(s, h, UnterminatedQuotedString)
      case NewLine => s
      case Comment => EmitComment(s, h)
      case Initial => RaiseError(s, h, EmptyFile);
    if h.endFile.Some? && s1.error == NoError then
      var s2 := s1.(events := s1.events + [EndFileCall]);
      if h.endFile.value then s2 else s2.(error := UserAborted)
    else
      s1
  }

  /** A whole input, from a fresh parser to the end of the data. */
  function Parse(cs: string, t: Traits, h: Handlers): Snapshot
  {
    EndedData(Fed(Start([]), cs, t, h), h)
  }

  // ----- what one character does -----

  /** Every character moves one position right, except a new line, which moves to the start of the next line. */
  lemma ConsumeAdvancesPosition(s: Snapshot, c: char, t: Traits, h: Handlers)
    requires t.Distinct()
    ensures var r := Consumed(s, c, t, h);
      if c == t.newLine then r.line == s.line + 1 && r.pos == 1
      else r.line == s.line && r.pos == s.pos + 1
  {
  }

  /** A separator outside quotes delivers the pending field, clears it and waits for the next field. */
  lemma SeparatorEmitsField(s: Snapshot, c: char, t: Traits, h: Handlers)
    requires s.state != Comment && s.state != QuotedRecord && c == t.separator
    ensures var r := Consumed(s, c, t, h);
      r.state == BetweenRecords && r.value == [] && r.line == s.line &&
      (h.field.Some? && s.error == NoError ==> |r.events| > |s.events| && r.events[|s.events|] == FieldCall(s.value)) &&
      (h.field.None? || s.error != NoError ==> r.events == s.events && r.error == s.error)
  {
  }

  /** A new line ending an unquoted field delivers it, then ends the line. */
  lemma NewLineEndsRecord(s: Snapshot, c: char, t: Traits, h: Handlers)
    requires t.Distinct() && s.state == Record && c == t.newLine
    ensures var r := Consumed(s, c, t, h);
      r.state == NewLine && r.value == [] && r.line == s.line + 1 && r.pos == 1 &&
      (h.field.Some? && s.error == NoError ==> |r.events| > |s.events| && r.events[|s.events|] == FieldCall(s.value)) &&
      (h.endLine ==> |r.events| > |s.events| && r.events[|r.events| - 1] == EndLineCall)
  {
  }

  /** A quote right after a quote inside a quoted field stands for one quote, and the field goes on. */
  lemma DoubledQuote(s: Snapshot, t: Traits, h: Handlers)
    requires t.Distinct() && s.state == QuotedRecord
    ensures var r := Fed(s, [t.quote, t.quote], t, h);
      r.state == QuotedRecord && r.value == s.value + [t.quote] && r.events == s.events && r.error == s.error
  {
    FedCons(s, [t.quote, t.quote], t, h);
    FedCons(Consumed(s, t.quote, t, h), [t.quote], t, h);
  }

  /** Inside quotes, separators and new lines are part of the field, and nothing is delivered. */
  lemma QuotedKeepsCharacter(s: Snapshot, c: char, t: Traits, h: Handlers)
    requires s.state == QuotedRecord && c != t.quote
    ensures var r := Consumed(s, c, t, h);
      r.state == QuotedRecord && r.value == s.value + [c] && r.events == s.events && r.error == s.error
  {
  }

  /** After a closing quote, anything but a separator, a quote or a new line is a malformed quoted string. */
  lemma MalformedAfterClosingQuote(s: Snapshot, c: char, t: Traits, h: Handlers)
    requires s.state == QuoteQuotedRecord && c != t.separator && c != t.quote && c != t.newLine
    ensures var r := Consumed(s, c, t, h);
      r.error == MalformedQuotedString && r.state == QuoteQuotedRecord && r.value == s.value &&
      r.events == s.events + (if h.onError then [ErrorCall(MalformedQuotedString, s.line, s.pos + 1)] else [])
  {
  }

  // ----- the end of the data -----

  /** Data ending inside quotes is an unterminated quoted string, and the end-of-file handler is not called. */
  lemma EndInsideQuotes(s: Snapshot, h: Handlers)
    requires s.state == QuotedRecord
    ensures var r := EndedData(s, h);
      r.error == UnterminatedQuotedString &&
      r.events == s.events + (if h.onError then [ErrorCall(UnterminatedQuotedString, s.line, s.pos)] else [])
  {
  }

  /** Data ending before any character is an empty file. */
  lemma EmptyInput(t: Traits, h: Handlers)
    ensures var r := Parse([], t, h);
      r.error == EmptyFile && r.events == (if h.onError then [ErrorCall(EmptyFile, 1, 1)] else [])
  {
  }

  /** Data ending in a field delivers it and ends its line. */
  lemma EndClosesField(s: Snapshot, h: Handlers)
    requires s.state in {Record, BetweenRecords, QuoteQuotedRecord}
    ensures var r := EndedData(s, h);
      r.line == s.line + 1 && r.value == [] &&
      (h.field.Some? && s.error == NoError ==> |r.events| > |s.events| && r.events[|s.events|] == FieldCall(s.value))
  {
  }

  // ----- errors silence the handlers -----

  /** Calls an erroneous parser may still make: error reports and line ends. */
  predicate Silent(evs: seq<Event>)
  {
    forall i :: 0 <= i < |evs| ==> evs[i].ErrorCall? || evs[i].EndLineCall?
  }

  /** `r` extends `s`'s calls by silent ones and is still in error. */
  predicate StaysSilent(s: Snapshot, r: Snapshot)
  {
    r.error != NoError && |s.events| <= |r.events| && r.events[..|s.events|] == s.events &&
    Silent(r.events[|s.events|..])
  }

  lemma StaysSilentTrans(s: Snapshot, m: Snapshot, r: Snapshot)
    requires StaysSilent(s, m) && StaysSilent(m, r)
    ensures StaysSilent(s, r)
  {
    var a, b := m.events[|s.events|..], r.events[|m.events|..];
    assert r.events[..|m.events|] == m.events;
    assert r.events[..|s.events|] == m.events[..|s.events|];
    assert r.events[|s.events|..] == a + b;
    var ab: seq<Event> := a + b;
    forall i | 0 <= i < |ab|
      ensures ab[i].ErrorCall? || ab[i].EndLineCall?
    {
      if i < |a| {
        assert ab[i] == a[i];
      } else {
        assert ab[i] == b[i - |a|];
      }
    }
  }

  /** Once an error is set, a character never calls the field or comment handler, and the error stays. */
  lemma ConsumeSilent(s: Snapshot, c: char, t: Traits, h: Handlers)
    requires s.error != NoError
    ensures StaysSilent(s, Consumed(s, c, t, h))
  {
    var r := Consumed(s, c, t, h);
    var e := r.events[|s.events|..];
    assert r.events == s.events + e;
  }

  /** Once an error is set, no later character calls the field or comment handler. */
  lemma {:induction false} ErrorSilencesHandlers(s: Snapshot, cs: string, t: Traits, h: Handlers)
    requires s.error != NoError
    ensures StaysSilent(s, Fed(s, cs, t, h))
    decreases |cs|
  {
    if cs == [] {
      assert s.events[|s.events|..] == [];
    } else {
      var m := Consumed(s, cs[0], t, h);
      ConsumeSilent(s, cs[0], t, h);
      ErrorSilencesHandlers(m, cs[1..], t, h);
      StaysSilentTrans(s, m, Fed(m, cs[1..], t, h));
    }
  }

  /** Nor does the end of the data, which then skips the end-of-file handler too. */
  lemma EndSilent(s: Snapshot, h: Handlers)
    requires s.error != NoError
    ensures StaysSilent(s, EndedData(s, h))
  {
    var r := EndedData(s, h);
    var e := r.events[|s.events|..];
    assert r.events == s.events + e;
  }

  // ----- whole inputs -----

  /** The traits of a comma-separated file with `#` comments. */
  function Comma(): Traits
  {
    Traits(',', '"', '#', '\n')
  }

  /** Handlers that accept everything. */
  function Accepting(): Handlers
  {
    Handlers(Some((s: string) => true), Some((s: string) => true), true, Some(true), true)
  }

  lemma FedCons(s: Snapshot, cs: string, t: Traits, h: Handlers)
    requires cs != []
    ensures Fed(s, cs, t, h) == Fed(Consumed(s, cs[0], t, h), cs[1..], t, h)
  {
  }

  /** A line of two fields, whatever the end-of-file handler, when the field handler accepts both. */
  lemma OneLine(t: Traits, h: Handlers)
    requires t == Comma() && h.field.Some? && h.field.value("a") && h.field.value("b") && h.endLine
    requires h.endFile != Some(false)
    ensures Parse("a,b", t, h).events ==
      [FieldCall("a"), FieldCall("b"), EndLineCall] + (if h.endFile.Some? then [EndFileCall] else [])
    ensures Parse("a,b", t, h).error == NoError
  {
    var s0 := Start([]);
    var s1 := Consumed(s0, 'a', t, h);
    assert s1 == Snapshot(Record, 1, 2, "a", NoError, []);
    var s2 := Consumed(s1, ',', t, h);
    assert s2 == Snapshot(BetweenRecords, 1, 3, "", NoError, [FieldCall("a")]);
    var s3 := Consumed(s2, 'b', t, h);
    assert s3 == Snapshot(Record, 1, 4, "b", NoError, [FieldCall("a")]);
    FedCons(s0, "a,b", t, h);
    FedCons(s1, ",b", t, h);
    FedCons(s2, "b", t, h);
    assert Fed(s0, "a,b", t, h) == s3;
  }

  /** The opening of `QuotedLine`: a quote, then a character and a separator inside the quotes. */
  lemma QuotedOpening(t: Traits, h: Handlers)
    requires t == Comma() && h == Accepting()
    ensures Fed(Start([]), "\"x,\"\"\"", t, h) == Fed(Snapshot(QuotedRecord, 1, 4, "x,", NoError, []), "\"\"\"", t, h)
  {
    var s0 := Start([]);
    var s1 := Consumed(s0, '"', t, h);
    assert s1 == Snapshot(QuotedRecord, 1, 2, "", NoError, []);
    var s2 := Consumed(s1, 'x', t, h);
    assert s2 == Snapshot(QuotedRecord, 1, 3, "x", NoError, []);
    var s3 := Consumed(s2, ',', t, h);
    assert s3 == Snapshot(QuotedRecord, 1, 4, "x,", NoError, []);
    FedCons(s0, "\"x,\"\"\"", t, h);
    FedCons(s1, "x,\"\"\"", t, h);
    FedCons(s2, ",\"\"\"", t, h);
  }

  /** A quoted field holding a separator and a doubled quote. */
  lemma QuotedLine(t: Traits, h: Handlers)
    requires t == Comma() && h == Accepting()
    ensures Parse("\"x,\"\"\"", t, h).events == [FieldCall("x,\""), EndLineCall, EndFileCall]
  {
    var s3 := Snapshot(QuotedRecord, 1, 4, "x,", NoError, []);
    QuotedOpening(t, h);
    var s4 := Consumed(s3, '"', t, h);
    assert s4 == Snapshot(QuoteQuotedRecord, 1, 5, "x,", NoError, []);
    var s5 := Consumed(s4, '"', t, h);
    assert s5 == Snapshot(QuotedRecord, 1, 6, "x,\"", NoError, []);
    var s6 := Consumed(s5, '"', t, h);
    assert s6 == Snapshot(QuoteQuotedRecord, 1, 7, "x,\"", NoError, []);
    FedCons(s3, "\"\"\"", t, h);
    FedCons(s4, "\"\"", t, h);
    FedCons(s5, "\"", t, h);
    assert Fed(Start([]), "\"x,\"\"\"", t, h) == s6;
  }

  /** A comment line goes to the comment handler, the line after it to the field handler. */
  lemma CommentLine(t: Traits, h: Handlers)
    requires t == Comma() && h == Accepting()
    ensures Parse("#c\nv", t, h).events == [CommentCall("c"), FieldCall("v"), EndLineCall, EndFileCall]
  {
    var s0 := Start([]);
    var s1 := Consumed(s0, '#', t, h);
    assert s1 == Snapshot(Comment, 1, 2, "", NoError, []);
    var s2 := Consumed(s1, 'c', t, h);
    assert s2 == Snapshot(Comment, 1, 3, "c", NoError, []);
    var s3 := Consumed(s2, '\n', t, h);
    assert s3 == Snapshot(NewLine, 2, 1, "", NoError, [CommentCall("c")]);
    var s4 := Consumed(s3, 'v', t, h);
    assert s4 == Snapshot(Record, 2, 2, "v", NoError, [CommentCall("c")]);
    FedCons(s0, "#c\nv", t, h);
    FedCons(s1, "c\nv", t, h);
    FedCons(s2, "\nv", t, h);
    FedCons(s3, "v", t, h);
    assert Fed(s0, "#c\nv", t, h) == s4;
  }

  /** `csv_parser`: the parser's state, positions, pending field and error. */
  class CsvParser {
    const traits: Traits
    var state: State
    var currentLine: int
    var currentPos: int
    var lastValue: string
    var complete: bool
    var error: CsvError
    /** The handler calls made so far. */
    var events: seq<Event>

    function Snap(): Snapshot
      reads this
    {
      Snapshot(state, currentLine, currentPos, lastValue, error, events)
    }

    /** No member sets `complete_`. */
    ghost predicate Valid()
      reads this
    {
      !complete
    }

    constructor (traits: Traits)
      ensures this.traits == traits && Snap() == Start([]) && Valid()
    {
      this.traits := traits;
      state := Initial;
      currentLine, currentPos := 1, 1;
      lastValue := [];
      complete := false;
      error := NoError;
      events := [];
    }

    /** `complete()`: whether the parser has completed, which it never records. */
    function Complete(): (b: bool)
      requires Valid()
      reads this
      ensures !b
    {
      complete
    }

    method CallErrorHandler(h: Handlers, err: CsvError)
      modifies this
      ensures Snap() == RaiseError(old(Snap()), h, err) && complete == old(complete)
    {
      error := err;
      if h.onError {
        events := events + [ErrorCall(error, currentLine, currentPos)];
      }
    }

    method CallFieldHandler(h: Handlers)
      modifies this
      ensures Snap() == EmitField(old(Snap()), h) && complete == old(complete)
    {
      if h.field.Some? && error == NoError {
        events := events + [FieldCall(lastValue)];
        if !h.field.value(lastValue) {
          CallErrorHandler(h, UserAborted);
        }
      }
      lastValue := [];
    }

    method CallCommentHandler(h: Handlers)
      modifies this
      ensures Snap() == EmitComment(old(Snap()), h) && complete == old(complete)
    {
      if h.comment.Some? && error == NoError {
        events := events + [CommentCall(lastValue)];
        if !h.comment.value(lastValue) {
          CallErrorHandler(h, UserAborted);
        }
      }
      lastValue := [];
    }

    method UpdateLineCounter()
      modifies this
      ensures Snap() == NextLine(old(Snap())) && complete == old(complete)
    {
      currentLine := currentLine + 1;
      currentPos := 1;
    }

    method CallEndLineHandler(h: Handlers)
      modifies this
      ensures Snap() == EndLine(old(Snap()), h) && complete == old(complete)
    {
      if h.endLine {
        events := events + [EndLineCall];
      }
      UpdateLineCounter();
    }

    /** `consume(c)`. */
    method Consume(c: char, h: Handlers)
      modifies this
      ensures Snap() == Consumed(old(Snap()), c, traits, h) && complete == old(complete)
    {
      currentPos := currentPos + 1;
      ghost var moved := Snap();
      assert moved == old(Snap()).(pos := old(Snap()).pos + 1);
      Switch(c, h);
      assert Snap() == Transition(moved, c, traits, h);
    }

    /** The `switch` on the state. */
    method Switch(c: char, h: Handlers)
      modifies this
      ensures Snap() == Transition(old(Snap()), c, traits, h) && complete == old(complete)
    {
      match state
      case Initial | NewLine => ConsumeAtLineStart(c, h);
      case Record => ConsumeInRecord(c, h);
      case QuoteQuotedRecord => ConsumeAfterQuote(c, h);
      case BetweenRecords => ConsumeBetweenRecords(c, h);
      case Comment => ConsumeInComment(c, h);
      case QuotedRecord => ConsumeInQuotes(c, h);
    }

    method ConsumeAtLineStart(c: char, h: Handlers)
      requires state == Initial || state == NewLine
      modifies this
      ensures Snap() == Transition(old(Snap()), c, traits, h) && complete == old(complete)
    {
      if c == traits.separator {
        CallFieldHandler(h);
        state := BetweenRecords;
      } else if c == traits.quote {
        state := QuotedRecord;
      } else if c == traits.comment {
        state := Comment;
      } else if c == traits.newLine {
        CallEndLineHandler(h);
        state := NewLine;
      } else {
        lastValue := lastValue + [c];
        state := Record;
      }
    }

    method ConsumeInRecord(c: char, h: Handlers)
      requires state == Record
      modifies this
      ensures Snap() == Transition(old(Snap()), c, traits, h) && complete == old(complete)
    {
      if c == traits.separator {
        CallFieldHandler(h);
        state := BetweenRecords;
      } else if c == traits.newLine {
        CallFieldHandler(h);
        CallEndLineHandler(h);
        state := NewLine;
      } else {
        lastValue := lastValue + [c];
      }
    }

    method ConsumeAfterQuote(c: char, h: Handlers)
      requires state == QuoteQuotedRecord
      modifies this
      ensures Snap() == Transition(old(Snap()), c, traits, h) && complete == old(complete)
    {
      if c == traits.separator {
        CallFieldHandler(h);
        state := BetweenRecords;
      } else if c == traits.quote {
        lastValue := lastValue + [c];
        state := QuotedRecord;
      } else if c == traits.newLine {
        CallFieldHandler(h);
        CallEndLineHandler(h);
        state := NewLine;
      } else {
        CallErrorHandler(h, MalformedQuotedString);
      }
    }

    method ConsumeBetweenRecords(c: char, h: Handlers)
      requires state == BetweenRecords
      modifies this
      ensures Snap() == Transition(old(Snap()), c, traits, h) && complete == old(complete)
    {
      if c == traits.separator {
        CallFieldHandler(h);
        state := BetweenRecords;
      } else if c == traits.quote {
        state := QuotedRecord;
      } else if c == traits.newLine {
        CallFieldHandler(h);
        CallEndLineHandler(h);
        state := NewLine;
      } else {
        lastValue := lastValue + [c];
        state := Record;
      }
    }

    method ConsumeInComment(c: char, h: Handlers)
      requires state == Comment
      modifies this
      ensures Snap() == Transition(old(Snap()), c, traits, h) && complete == old(complete)
    {
      if c == traits.newLine {
        CallCommentHandler(h);
        state := NewLine;
        UpdateLineCounter();
      } else {
        lastValue := lastValue + [c];
      }
    }

    method ConsumeInQuotes(c: char, h: Handlers)
      requires state == QuotedRecord
      modifies this
      ensures Snap() == Transition(old(Snap()), c, traits, h) && complete == old(complete)
    {
      if c == traits.quote {
        state := QuoteQuotedRecord;
      } else {
        if c == traits.newLine {
          UpdateLineCounter();
        }
        lastValue := lastValue + [c];
      }
    }

    /** `end_of_data()`. */
    method EndOfData(h: Handlers)
      modifies this
      ensures Snap() == EndedData(old(Snap()), h) && complete == old(complete)
    {
      match state {
        case QuoteQuotedRecord | Record | BetweenRecords =>
          CallFieldHandler(h);
          CallEndLineHandler(h);
        case QuotedRecord =>
          CallErrorHandler(h, UnterminatedQuotedString);
        case NewLine =>
        case Comment =>
          CallCommentHandler(h);
        case Initial =>
          CallErrorHandler(h, EmptyFile);
      }
      if h.endFile.Some? && error == NoError {
        events := events + [EndFileCall];
        if !h.endFile.value {
          error := UserAborted;
        }
      }
    }

    /** `reset()`: back to the initial state at line 1, position 1, with no error and no pending field. */
    method Reset()
      modifies this
      ensures Snap() == Start(old(events)) && !complete && Valid()
    {
      complete := false;
      error := NoError;
      state := Initial;
      currentPos := 1;
      currentLine := 1;
      lastValue := [];
    }
  }
}
