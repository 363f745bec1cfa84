// The table a CSV file is read into: its headers, and one record per line of
// fields.  The data handler receives the parser's field and end-of-line calls;
// the first line gives the headers, read from it when the file has a header
// line and generated as `header0`, `header1`, … otherwise, in which case the
// first line is also a record.  A record's field is looked up by header name.

module CsvData {
  import opened Common
  import opened CsvParsing

  /** The headers and records built so far, with the handler's two flags. */
  datatype Table = Table(headers: seq<string>, records: seq<seq<string>>, atBeginningOfLine: bool, atFirstLine: bool)

  /** Within a line, a record has been opened. */
  predicate WellFormed(st: Table)
  {
    !st.atBeginningOfLine ==> |st.records| > 0
  }

  /** The handler's state before any call. */
  function Fresh(): Table
  {
    Table([], [], true, true)
  }

  /** The name given to the header at index `n` of a file without a header line. */
  function HeaderName(n: nat): string
  {
    "header" + NatToString(n)
  }

  /** `add_field(s)` on the last record. */
  function WithField(records: seq<seq<string>>, s: string): (r: seq<seq<string>>)
    requires |records| > 0
    ensures |r| == |records| && r[..|r| - 1] == records[..|records| - 1] && r[|r| - 1] == records[|records| - 1] + [s]
  {
    records[|records| - 1 := records[|records| - 1] + [s]]
  }

  /** `field_handler(s)`. */
  function FieldStep(st: Table, hasHeaders: bool, s: string): (r: Table)
    requires WellFormed(st)
    ensures WellFormed(r)
  {
    if st.atFirstLine && hasHeaders then
      st.(headers := st.headers + [s])
    else
      var headers := if st.atFirstLine then st.headers + [HeaderName(|st.headers|)] else st.headers;
      var records := if st.atBeginningOfLine then st.records + [[]] else st.records;
      st.(headers := headers, records := WithField(records, s), atBeginningOfLine := false)
  }

  /** `end_line_handler()`. */
  function EndLineStep(st: Table): (r: Table)
    ensures WellFormed(r)
  {
    st.(atBeginningOfLine := true, atFirstLine := false)
  }

  /** The table after the handler has received the calls `events`; it handles no other call. */
  function Tabulated(st: Table, hasHeaders: bool, events: seq<Event>): (r: Table)
    requires WellFormed(st)
    ensures WellFormed(r)
    decreases |events|
  {
    if events == [] then st
    else Handled(Tabulated(st, hasHeaders, events[..|events| - 1]), hasHeaders, events[|events| - 1])
  }

  /** The handler receiving one call: it is installed as field and end-of-line handler only. */
  function Handled(st: Table, hasHeaders: bool, e: Event): (r: Table)
    requires WellFormed(st)
    ensures WellFormed(r)
  {
    match e
    case FieldCall(s) => FieldStep(st, hasHeaders, s)
    case EndLineCall => EndLineStep(st)
    case _ => st
  }

  /** The field calls of a line's fields. */
  function Fields(fs: seq<string>): (r: seq<Event>)
    ensures |r| == |fs| && forall i :: 0 <= i < |fs| ==> r[i] == FieldCall(fs[i])
  {
    seq(|fs|, i requires 0 <= i < |fs| => FieldCall(fs[i]))
  }

  /** The generated names of the headers `from`, `from + 1`, … of `n` of them. */
  function GeneratedNames(from: nat, n: nat): (r: seq<string>)
    ensures |r| == n && forall i :: 0 <= i < n ==> r[i] == HeaderName(from + i)
  {
    seq(n, i requires 0 <= i < n => HeaderName(from + i))
  }

  lemma FieldsSnoc(fs: seq<string>)
    requires |fs| > 0
    ensures Fields(fs) == Fields(fs[..|fs| - 1]) + [FieldCall(fs[|fs| - 1])]
  {
    assert Fields(fs)[..|fs| - 1] == Fields(fs[..|fs| - 1]);
  }

  lemma TabulatedSnoc(st: Table, hasHeaders: bool, events: seq<Event>, e: Event)
    requires WellFormed(st)
    ensures Tabulated(st, hasHeaders, events + [e]) == Handled(Tabulated(st, hasHeaders, events), hasHeaders, e)
  {
    assert (events + [e])[..|events|] == events;
  }

  /** With a header line, the fields of the first line are appended to the headers, and no record is made. */
  lemma {:induction false} HeaderLineFields(st: Table, fs: seq<string>)
    requires WellFormed(st) && st.atFirstLine
    ensures Tabulated(st, true, Fields(fs)) == st.(headers := st.headers + fs)
    decreases |fs|
  {
    if fs == [] {
      assert st.headers + fs == st.headers;
    } else {
      var init := fs[..|fs| - 1];
      FieldsSnoc(fs);
      TabulatedSnoc(st, true, Fields(init), FieldCall(fs[|fs| - 1]));
      HeaderLineFields(st, init);
      assert st.headers + fs == st.headers + init + [fs[|fs| - 1]];
    }
  }

  /** Adding a field to a record just appended extends that record. */
  lemma WithFieldLast(records: seq<seq<string>>, fs: seq<string>, s: string)
    ensures WithField(records + [fs], s) == records + [fs + [s]]
  {
    var r, q := WithField(records + [fs], s), records + [fs + [s]];
    assert |r| == |q|;
    forall i | 0 <= i < |r| ensures r[i] == q[i] {
      if i < |records| {
        assert r[i] == r[..|r| - 1][i];
      }
    }
  }

  /** The last of a line's field calls. */
  lemma LastField(st: Table, hasHeaders: bool, fs: seq<string>)
    requires WellFormed(st) && |fs| > 0
    ensures Tabulated(st, hasHeaders, Fields(fs)) ==
      FieldStep(Tabulated(st, hasHeaders, Fields(fs[..|fs| - 1])), hasHeaders, fs[|fs| - 1])
  {
    FieldsSnoc(fs);
    TabulatedSnoc(st, hasHeaders, Fields(fs[..|fs| - 1]), FieldCall(fs[|fs| - 1]));
  }

  lemma NoFields(st: Table, hasHeaders: bool, fs: seq<string>)
    requires WellFormed(st) && fs == []
    ensures Tabulated(st, hasHeaders, Fields(fs)) == st
  {
    assert Fields(fs) == [];
  }

  /** The table `GeneratedHeaderFields` states. */
  function FirstRecord(st: Table, fs: seq<string>): Table
  {
    Table(st.headers + GeneratedNames(|st.headers|, |fs|), st.records + [fs], false, true)
  }

  lemma GeneratedFirst(st: Table, fs: seq<string>)
    requires WellFormed(st) && st.atFirstLine && st.atBeginningOfLine && |fs| == 1
    ensures Tabulated(st, false, Fields(fs)) == FirstRecord(st, fs)
  {
    var n := |st.headers|;
    LastField(st, false, fs);
    NoFields(st, false, fs[..0]);
    WithFieldLast(st.records, [], fs[0]);
    assert [] + [fs[0]] == fs;
    assert GeneratedNames(n, 1) == [HeaderName(n)];
  }

  lemma GeneratedNamesSnoc(from: nat, n: nat)
    ensures GeneratedNames(from, n + 1) == GeneratedNames(from, n) + [HeaderName(from + n)]
  {
  }

  /** One more field on the first line. */
  lemma FirstRecordStep(st: Table, init: seq<string>, last: string)
    requires WellFormed(st) && |init| > 0
    ensures FieldStep(FirstRecord(st, init), false, last) == FirstRecord(st, init + [last])
  {
    var n := |st.headers|;
    WithFieldLast(st.records, init, last);
    GeneratedNamesSnoc(n, |init|);
    SeqAssoc(st.headers, GeneratedNames(n, |init|), [HeaderName(n + |init|)]);
  }

  lemma GeneratedNext(st: Table, fs: seq<string>)
    requires WellFormed(st) && st.atFirstLine && st.atBeginningOfLine && |fs| > 1
    requires Tabulated(st, false, Fields(fs[..|fs| - 1])) == FirstRecord(st, fs[..|fs| - 1])
    ensures Tabulated(st, false, Fields(fs)) == FirstRecord(st, fs)
  {
    LastField(st, false, fs);
    FirstRecordStep(st, fs[..|fs| - 1], fs[|fs| - 1]);
    assert fs[..|fs| - 1] + [fs[|fs| - 1]] == fs;
  }

  /** Without a header line, each field of the first line adds a generated header and goes to the first record. */
  lemma {:induction false} GeneratedHeaderFields(st: Table, fs: seq<string>)
    requires WellFormed(st) && st.atFirstLine && st.atBeginningOfLine && |fs| > 0
    ensures Tabulated(st, false, Fields(fs)) == FirstRecord(st, fs)
    decreases |fs|
  {
    if |fs| == 1 {
      GeneratedFirst(st, fs);
    } else {
      GeneratedHeaderFields(st, fs[..|fs| - 1]);
      GeneratedNext(st, fs);
    }
  }

  /** The table `RecordFields` states. */
  function NextRecord(st: Table, fs: seq<string>): Table
  {
    st.(records := st.records + [fs], atBeginningOfLine := false)
  }

  lemma RecordFirst(st: Table, hasHeaders: bool, fs: seq<string>)
    requires WellFormed(st) && !st.atFirstLine && st.atBeginningOfLine && |fs| == 1
    ensures Tabulated(st, hasHeaders, Fields(fs)) == NextRecord(st, fs)
  {
    LastField(st, hasHeaders, fs);
    NoFields(st, hasHeaders, fs[..0]);
    WithFieldLast(st.records, [], fs[0]);
    assert [] + [fs[0]] == fs;
  }

  lemma RecordNext(st: Table, hasHeaders: bool, fs: seq<string>)
    requires WellFormed(st) && !st.atFirstLine && st.atBeginningOfLine && |fs| > 1
    requires Tabulated(st, hasHeaders, Fields(fs[..|fs| - 1])) == NextRecord(st, fs[..|fs| - 1])
    ensures Tabulated(st, hasHeaders, Fields(fs)) == NextRecord(st, fs)
  {
    LastField(st, hasHeaders, fs);
    WithFieldLast(st.records, fs[..|fs| - 1], fs[|fs| - 1]);
    assert fs[..|fs| - 1] + [fs[|fs| - 1]] == fs;
  }

  /** After the first line, a line's first field opens a new record and the later ones append to it. */
  lemma {:induction false} RecordFields(st: Table, hasHeaders: bool, fs: seq<string>)
    requires WellFormed(st) && !st.atFirstLine && st.atBeginningOfLine && |fs| > 0
    ensures Tabulated(st, hasHeaders, Fields(fs)) == NextRecord(st, fs)
    decreases |fs|
  {
    if |fs| == 1 {
      RecordFirst(st, hasHeaders, fs);
    } else {
      RecordFields(st, hasHeaders, fs[..|fs| - 1]);
      RecordNext(st, hasHeaders, fs);
    }
  }

  /** The first line of a file, fields then end of line, from a fresh handler. */
  lemma FirstLine(hasHeaders: bool, fs: seq<string>)
    requires |fs| > 0
    ensures var r := Tabulated(Fresh(), hasHeaders, Fields(fs) + [EndLineCall]);
      r.atBeginningOfLine && !r.atFirstLine &&
      (hasHeaders ==> r.headers == fs && r.records == []) &&
      (!hasHeaders ==> r.headers == GeneratedNames(0, |fs|) && r.records == [fs])
  {
    TabulatedSnoc(Fresh(), hasHeaders, Fields(fs), EndLineCall);
    if hasHeaders {
      HeaderLineFields(Fresh(), fs);
    } else {
      GeneratedHeaderFields(Fresh(), fs);
    }
  }

  /** Generated header names are distinct. */
  lemma HeaderNamesDistinct(i: nat, j: nat)
    requires HeaderName(i) == HeaderName(j)
    ensures i == j
  {
    assert NatToString(i) == HeaderName(i)[6..] == HeaderName(j)[6..] == NatToString(j);
    NatToStringValue(i);
    NatToStringValue(j);
  }

  /** The parser's calls for the line `a,b` build, without a header line, one record under `header0` and `header1`. */
  lemma ParsedLine(t: Traits, h: Handlers)
    requires t == Comma() && h == Handlers(Some((s: string) => true), None, true, None, false)
    ensures var r := Tabulated(Fresh(), false, Parse("a,b", t, h).events);
      r.headers == ["header0", "header1"] && r.records == [["a", "b"]]
  {
    OneLine(t, h);
    var evs := Parse("a,b", t, h).events;
    assert evs == [FieldCall("a"), FieldCall("b"), EndLineCall];
    assert Fields(["a", "b"]) == [FieldCall("a"), FieldCall("b")];
    assert evs == Fields(["a", "b"]) + [EndLineCall];
    FirstLine(false, ["a", "b"]);
    assert HeaderName(0) == "header0" by {
      assert NatToString(0) == "0";
    }
    assert HeaderName(1) == "header1" by {
      assert NatToString(1) == "1";
    }
    assert GeneratedNames(0, 2) == [HeaderName(0), HeaderName(1)];
  }

  // ----- looking a field up by header -----

  /** The index of the first header equal to `header`, if any. */
  function FirstIndex(headers: seq<string>, header: string): (r: Option<nat>)
    ensures r.Some? ==> r.value < |headers| && headers[r.value] == header &&
                        forall j :: 0 <= j < r.value ==> headers[j] != header
    ensures r.None? ==> header !in headers
    decreases |headers|
  {
    if headers == [] then None
    else if headers[0] == header then Some(0)
    else match FirstIndex(headers[1..], header)
      case None => None
      case Some(i) => Some(i + 1)
  }

  /**
   * `csv_record::operator[](header)` as written: the field at the first
   * matching header; it reads past the record's fields when the record is
   * shorter than that header's index, which it must be excluded.
   */
  method LookupAsWritten(fields: seq<string>, headers: seq<string>, header: string) returns (r: Option<string>)
    requires FirstIndex(headers, header).Some? ==> FirstIndex(headers, header).value < |fields|
    ensures r.Some? <==> header in headers
    ensures r.Some? ==> r.value == fields[FirstIndex(headers, header).value]
  {
    var i := 0;
    while i < |headers|
      invariant 0 <= i <= |headers|
      invariant forall j :: 0 <= j < i ==> headers[j] != header
    {
      if headers[i] == header {
        FirstIndexIs(headers, header, i);
        return Some(fields[i]);
      }
      i := i + 1;
    }
    return None;
  }

  /** A line shorter than the header line: the lookup of its last header reads past its fields. */
  lemma ShortRecordReadsPastFields()
    ensures var headers, fields := ["a", "b"], ["1"];
      FirstIndex(headers, "b") == Some(1) && |fields| <= 1
  {
    assert ["a", "b"][1..] == ["b"];
  }

  /** The same lookup, with an empty result for a header the record has no field for. */
  method Lookup(fields: seq<string>, headers: seq<string>, header: string) returns (r: Option<string>)
    ensures r.Some? <==> FirstIndex(headers, header).Some? && FirstIndex(headers, header).value < |fields|
    ensures r.Some? ==> r.value == fields[FirstIndex(headers, header).value]
    ensures header !in headers ==> r.None?
  {
    var i := 0;
    while i < |headers|
      invariant 0 <= i <= |headers|
      invariant forall j :: 0 <= j < i ==> headers[j] != header
    {
      if headers[i] == header {
        FirstIndexIs(headers, header, i);
        if i < |fields| {
          return Some(fields[i]);
        }
        return None;
      }
      i := i + 1;
    }
    return None;
  }

  lemma {:induction false} FirstIndexIs(headers: seq<string>, header: string, i: nat)
    requires i < |headers| && headers[i] == header && forall j :: 0 <= j < i ==> headers[j] != header
    ensures FirstIndex(headers, header) == Some(i)
    decreases i
  {
    if i > 0 {
      FirstIndexIs(headers[1..], header, i - 1);
    }
  }

  /** `csv_data`: the records and the headers. */
  class CsvTable {
    var records: seq<seq<string>>
    var headers: seq<string>

    constructor ()
      ensures records == [] && headers == []
    {
      records := [];
      headers := [];
    }

    /** `new_record()`. */
    method NewRecord()
      modifies this
      ensures records == old(records) + [[]] && headers == old(headers)
    {
      records := records + [[]];
    }

    /** `add_field(field)`: appends to the last record. */
    method AddField(field: string)
      requires |records| > 0
      modifies this
      ensures records == WithField(old(records), field) && headers == old(headers)
    {
      records := records[|records| - 1 := records[|records| - 1] + [field]];
    }
  }

  /** `csv_data_handler`: the flags and the table it fills. */
  class CsvDataHandler {
    const hasHeaders: bool
    const data: CsvTable
    var atBeginningOfLine: bool
    var atFirstLine: bool

    function State(): Table
      reads this, data
    {
      Table(data.headers, data.records, atBeginningOfLine, atFirstLine)
    }

    ghost predicate Valid()
      reads this, data
    {
      WellFormed(State())
    }

    constructor (data: CsvTable, hasHeaderLine: bool)
      ensures this.data == data && hasHeaders == hasHeaderLine
      ensures atBeginningOfLine && atFirstLine && Valid()
    {
      this.data := data;
      hasHeaders := hasHeaderLine;
      atBeginningOfLine := true;
      atFirstLine := true;
    }

    /** `field_handler(s)`: always accepts. */
    method FieldHandler(s: string) returns (accepted: bool)
      requires Valid()
      modifies this, data
      ensures accepted && State() == FieldStep(old(State()), hasHeaders, s) && Valid()
    {
      if atFirstLine && hasHeaders {
        data.headers := data.headers + [s];
      } else {
        if atFirstLine {
          data.headers := data.headers + [HeaderName(|data.headers|)];
        }
        if atBeginningOfLine {
          data.NewRecord();
          atBeginningOfLine := false;
        }
        data.AddField(s);
      }
      accepted := true;
    }

    /** `end_line_handler()`: always accepts. */
    method EndLineHandler() returns (accepted: bool)
      modifies this
      ensures accepted && State() == EndLineStep(old(State())) && Valid()
    {
      atBeginningOfLine := true;
      atFirstLine := false;
      accepted := true;
    }
  }
}
