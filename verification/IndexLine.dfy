/** The text of the calendar index: one line a record, one cell a field (src/pcp/pcpdir.c). */
module IndexLine {
  import opened Text
  import opened EventTimes
  import opened CalendarIndex

  // ----- reading, as the lb_ functions do -----

  /** lb_is_field: does the field that begins here have this name? */
  predicate IsField(p: string, name: string) {
    && |name| <= |p| && p[..|name|] == name
    && (|p| == |name| || p[|name|] == '=' || p[|name|] == '\t')
  }

  /** lb_field_value: the text behind the '=' of the field that begins here. */
  function FieldValue(p: string): Option<string> {
    if p == "" || p[0] == '\t' then None
    else if p[0] == '=' then Some(p[1..])
    else FieldValue(p[1..])
  }

  /** lb_field_value_buf: the value as a string of its own, empty when there is none. */
  function FieldText(p: string): string {
    match FieldValue(p)
    case None => ""
    case Some(v) => Until(v, '\t')
  }

  /** parse_time_field */
  function ParseTimes(v: string): Option<Interval> {
    var (start, rest) := ScanNumber(0, v);
    if rest == "" || rest[0] != ',' then None
    else Some(Interval(start, ScanNumber(0, rest[1..]).0))
  }

  /** sscanf with %lu, for text without a sign. */
  function ScanUnsigned(v: string): Option<nat> {
    if v == "" then None
    else if IsSpace(v[0]) then ScanUnsigned(v[1..])
    else if IsDigit(v[0]) then Some(ScanNumber(0, v).0)
    else None
  }

  function ParseParticipant(v: string): Field {
    Participant(Until(v, ' '), After(v, ' '))
  }

  /** The field that begins here, if it is one. */
  function ReadField(p: string): Option<Field> {
    if IsField(p, TIME_FIELD) then
      match FieldValue(p)
      case None => None
      case Some(v) => if ParseTimes(v).Some? then Some(Time(ParseTimes(v).value)) else None
    else if IsField(p, CANCELLED_FIELD) then Some(Cancelled)
    else if IsField(p, BOOKED_FIELD) then
      match FieldValue(p)
      case None => None
      case Some(v) => if ScanUnsigned(v).Some? then Some(BookedAt(ScanUnsigned(v).value)) else None
    else if IsField(p, PENDEL_FIELD) then Some(Pending(FieldText(p)))
    else if IsField(p, PROXY_FIELD) then Some(Proxy)
    else if IsField(p, PARTICIPANT_FIELD) then Some(ParseParticipant(FieldText(p)))
    else None
  }

  /** lb_event_id, empty in a line without a tab. */
  function EventId(line: string): string {
    if '\t' in line then Until(line, '\t') else ""
  }

  /** lb_filename_nodir */
  function FileName(line: string): string {
    match After(line, '\t')
    case None => ""
    case Some(rest) => Until(rest, '\t')
  }

  /** lb_first_field: the text from the first field on. */
  function FirstField(line: string): Option<string> {
    match After(line, '\t')
    case None => None
    case Some(rest) => After(rest, '\t')
  }

  function FieldsFrom(p: Option<string>): seq<Field>
    decreases if p.Some? then |p.value| + 1 else 0
  {
    if p == None then [] else
      var f := ReadField(p.value);
      (if f.Some? then [f.value] else []) + FieldsFrom(After(p.value, '\t'))
  }

  function ReadRecord(line: string): Record {
    Record(EventId(line), FileName(line), FieldsFrom(FirstField(line)))
  }

  // ----- writing -----

  function PrintValue(f: Field): Option<string> {
    match f
    case Time(span) => Some(Decimal(span.start) + "," + Decimal(span.end))
    case BookedAt(when) => Some(Decimal(when))
    case Pending(rival) => Some(rival)
    case Participant(address, eventid) =>
      Some(address + (if eventid.Some? then " " + eventid.value else ""))
    case _ => None
  }

  function PrintField(f: Field): string {
    Name(f) + (if PrintValue(f).Some? then "=" + PrintValue(f).value else "")
  }

  /** What may follow a cell: nothing, or a tab and more. */
  predicate CellEnd(s: string) {
    s == "" || s[0] == '\t'
  }

  /** A cell behind its tab, and the rest of the line. */
  function Cell(cell: string, rest: string): (line: string)
    ensures CellEnd(line)
  {
    "\t" + cell + rest
  }

  function PrintFields(fs: seq<Field>): (line: string)
    ensures CellEnd(line)
  {
    if fs == [] then "" else Cell(PrintField(fs[0]), PrintFields(fs[1..]))
  }

  function PrintRecord(r: Record): string {
    r.id + "\t" + r.file + PrintFields(r.fields)
  }

  lemma FieldExamples()
    ensures PrintField(Cancelled) == "c" && PrintField(Proxy) == "P"
    ensures PrintField(BookedAt(7)) == "b=7" && PrintField(Time(Interval(2, 5))) == "t=2,5"
    ensures PrintField(Pending("3@u")) == "d=3@u"
    ensures PrintField(Participant("a@b", Some("4"))) == "p=a@b 4" && PrintField(Participant("c@d", None)) == "p=c@d"
  {
    assert Decimal(7) == "7" && Decimal(2) == "2" && Decimal(5) == "5";
    hide Decimal;
    assert "=" + "2,5" == "=2,5" && "2" + "," + "5" == "2,5" && "a@b" + " 4" == "a@b 4" && "c@d" + "" == "c@d";
  }

  /** A line of the index in full. */
  lemma PrintedLine()
    ensures PrintRecord(Record("1@u", "1", [Cancelled, Time(Interval(2, 5)), Pending("3@u")]))
      == "1@u\t1" + ("\tc" + ("\tt=2,5" + "\td=3@u"))
  {
    var c, t, d := Cancelled, Time(Interval(2, 5)), Pending("3@u");
    FieldExamples();
    assert PrintFields([]) == "";
    hide PrintField, PrintFields;
    PrintedNext(d, []);
    PrintedNext(t, [d]);
    PrintedNext(c, [t, d]);
    assert [d] + [] == [d] && [t] + [d] == [t, d] && [c] + [t, d] == [c, t, d];
    assert "\td=3@u" + "" == "\td=3@u" && "1@u" + "\t" + "1" == "1@u\t1";
  }

  lemma PrintedNext(f: Field, rest: seq<Field>)
    ensures PrintFields([f] + rest) == "\t" + PrintField(f) + PrintFields(rest)
  {
    assert ([f] + rest)[1..] == rest;
  }

  // ----- one field, whatever follows it on the line -----

  lemma {:induction false} FieldValueLocal(cell: string, rest: string)
    requires '\t' !in cell && CellEnd(rest)
    ensures FieldValue(cell + rest) ==
      if FieldValue(cell).Some? then Some(FieldValue(cell).value + rest) else None
    ensures FieldValue(cell).Some? ==> '\t' !in FieldValue(cell).value
  {
    if cell == "" {
      assert cell + rest == rest;
    } else {
      assert cell == [cell[0]] + cell[1..];
      FieldValueLocal(cell[1..], rest);
      assert (cell + rest)[1..] == cell[1..] + rest;
    }
  }

  lemma {:induction false} ScanNumberLocal(v: nat, s: string, rest: string)
    requires rest == "" || !IsDigit(rest[0])
    ensures ScanNumber(v, s + rest) == (ScanNumber(v, s).0, ScanNumber(v, s).1 + rest)
    ensures forall c :: c in ScanNumber(v, s).1 ==> c in s
    decreases |s|
  {
    if s == "" {
      assert s + rest == rest;
    } else {
      assert (s + rest)[1..] == s[1..] + rest;
      if IsDigit(s[0]) { ScanNumberLocal(v * 10 + (s[0] as int - '0' as int), s[1..], rest); }
    }
  }

  lemma ParseTimesLocal(v: string, rest: string)
    requires CellEnd(rest)
    ensures ParseTimes(v + rest) == ParseTimes(v)
  {
    ScanNumberLocal(0, v, rest);
    var after := ScanNumber(0, v).1;
    if after != "" {
      assert (after + rest)[1..] == after[1..] + rest;
      ScanNumberLocal(0, after[1..], rest);
    }
  }

  predicate Blank(v: string) {
    forall i :: 0 <= i < |v| ==> IsSpace(v[i])
  }

  lemma {:induction false} ScanUnsignedLocal(v: string, rest: string)
    requires !Blank(v) && CellEnd(rest)
    ensures ScanUnsigned(v + rest) == ScanUnsigned(v)
  {
    assert (v + rest)[1..] == v[1..] + rest;
    if IsSpace(v[0]) {
      ScanUnsignedLocal(v[1..], rest);
    } else if IsDigit(v[0]) {
      ScanNumberLocal(0, v, rest);
    }
  }

  /** A booking time that is not blank. sscanf skips a tab like any other space, so a blank one would
      be read from the next cell. */
  predicate Steady(cell: string) {
    IsField(cell, BOOKED_FIELD) && FieldValue(cell).Some? ==> !Blank(FieldValue(cell).value)
  }

  lemma IsFieldLocal(cell: string, rest: string, name: string)
    requires '\t' !in cell && '\t' !in name && CellEnd(rest)
    ensures IsField(cell + rest, name) <==> IsField(cell, name)
  {
    if |name| <= |cell| {
      assert (cell + rest)[..|name|] == cell[..|name|];
    } else if |name| <= |cell + rest| {
      assert (cell + rest)[|cell|] == '\t';
    }
  }

  lemma UntilEnd(cell: string, rest: string)
    requires '\t' !in cell && CellEnd(rest)
    ensures Until(cell + rest, '\t') == cell
    ensures After(cell + rest, '\t') == if rest == "" then None else Some(rest[1..])
  {
    if rest != "" { assert cell + rest == cell + ['\t'] + rest[1..]; } else { assert cell + rest == cell; }
    UntilOf(cell, '\t', if rest == "" then "" else rest[1..]);
  }

  /** A cell is read the same whatever follows it. */
  lemma ReadFieldLocal(cell: string, rest: string)
    requires '\t' !in cell && CellEnd(rest) && Steady(cell)
    ensures ReadField(cell + rest) == ReadField(cell)
  {
    hide IsField, FieldValue, ParseTimes, ScanUnsigned, CellEnd;
    IsFieldLocal(cell, rest, TIME_FIELD);
    IsFieldLocal(cell, rest, CANCELLED_FIELD);
    IsFieldLocal(cell, rest, BOOKED_FIELD);
    IsFieldLocal(cell, rest, PENDEL_FIELD);
    IsFieldLocal(cell, rest, PROXY_FIELD);
    IsFieldLocal(cell, rest, PARTICIPANT_FIELD);
    FieldValueLocal(cell, rest);
    if FieldValue(cell).Some? {
      var v := FieldValue(cell).value;
      ParseTimesLocal(v, rest);
      UntilEnd(v, rest);
      if !Blank(v) { ScanUnsignedLocal(v, rest); }
    }
  }

  // ----- reading back what was written -----

  /** The texts in a field are free of the separators they are written between. */
  predicate CleanField(f: Field) {
    match f
    case Pending(rival) => '\t' !in rival
    case Participant(address, eventid) =>
      '\t' !in address && ' ' !in address && (eventid.Some? ==> '\t' !in eventid.value)
    case _ => true
  }

  predicate CleanRecord(r: Record) {
    '\t' !in r.id && '\t' !in r.file && forall f :: f in r.fields ==> CleanField(f)
  }

  /** A field with a one-letter name and a value. */
  lemma NamedValue(name: string, v: string)
    requires |name| == 1 && name[0] != '\t' && name[0] != '='
    ensures FieldValue(name + "=" + v) == Some(v)
    ensures forall n :: |n| == 1 ==> (IsField(name + "=" + v, n) <==> n == name)
  {
    var p := name + "=" + v;
    assert p[1..] == "=" + v && ("=" + v)[1..] == v;
    assert FieldValue(p) == FieldValue("=" + v);
    assert p[..1] == name;
  }

  lemma PrintedTimes(span: Interval)
    ensures ParseTimes(Decimal(span.start) + "," + Decimal(span.end)) == Some(span)
  {
    var start, end := Decimal(span.start), Decimal(span.end);
    assert start + "," + end == start + ("," + end);
    ScanDecimal(span.start, "," + end);
    assert ("," + end)[1..] == end && end + "" == end;
    ScanDecimal(span.end, "");
  }

  lemma PrintedNumber(n: nat)
    ensures ScanUnsigned(Decimal(n)) == Some(n) && !Blank(Decimal(n))
  {
    assert Decimal(n)[0] in Decimal(n);
    assert Decimal(n) + "" == Decimal(n);
    ScanDecimal(n, "");
  }

  lemma PrintedParticipant(address: string, eventid: Option<string>)
    requires ' ' !in address
    ensures ParseParticipant(address + (if eventid.Some? then " " + eventid.value else "")) == Participant(address, eventid)
  {
    match eventid
    case None =>
      UntilOf(address, ' ', "");
      assert address + "" == address;
    case Some(id) =>
      UntilOf(address, ' ', id);
      assert address + (" " + id) == address + [' '] + id;
  }

  lemma PrintedValue(f: Field)
    requires CleanField(f) && PrintValue(f).Some?
    ensures var v := PrintValue(f).value;
      && '\t' !in v
      && (f.Time? ==> ParseTimes(v) == Some(f.span))
      && (f.BookedAt? ==> !Blank(v) && ScanUnsigned(v) == Some(f.when))
      && (f.Participant? ==> ParseParticipant(v) == f)
  {
    hide ParseTimes, ScanUnsigned, Blank, ParseParticipant, Decimal;
    match f
    case Time(span) => PrintedTimes(span);
    case BookedAt(when) => PrintedNumber(when);
    case Participant(address, eventid) => PrintedParticipant(address, eventid);
    case _ =>
  }

  lemma ReadNamed(name: string, v: string)
    requires |name| == 1 && name[0] != '\t' && name[0] != '=' && '\t' !in v
    requires name == BOOKED_FIELD ==> !Blank(v)
    ensures var p := name + "=" + v;
      && '\t' !in p && Steady(p) && (forall n :: |n| == 1 ==> (IsField(p, n) <==> n == name))
      && (name == TIME_FIELD && ParseTimes(v).Some? ==> ReadField(p) == Some(Time(ParseTimes(v).value)))
      && (name == BOOKED_FIELD && ScanUnsigned(v).Some? ==> ReadField(p) == Some(BookedAt(ScanUnsigned(v).value)))
      && (name == PENDEL_FIELD ==> ReadField(p) == Some(Pending(v)))
      && (name == PARTICIPANT_FIELD ==> ReadField(p) == Some(ParseParticipant(v)))
  {
    NamedValue(name, v);
    hide IsField, FieldValue, ParseTimes, ScanUnsigned, Blank, Until;
    UntilEnd(v, "");
    assert v + "" == v;
  }

  lemma PrintedFlag(f: Field)
    requires f.Cancelled? || f.Proxy?
    ensures '\t' !in PrintField(f) && Steady(PrintField(f)) && ReadField(PrintField(f)) == Some(f)
    ensures forall n :: |n| == 1 ==> (IsField(PrintField(f), n) <==> n == Name(f))
  {
    assert PrintField(f) == Name(f);
  }

  /** Each clean field is printed in one cell that reads back. */
  lemma PrintedField(f: Field)
    requires CleanField(f)
    ensures '\t' !in PrintField(f) && Steady(PrintField(f)) && ReadField(PrintField(f)) == Some(f)
    ensures forall n :: |n| == 1 ==> (IsField(PrintField(f), n) <==> n == Name(f))
  {
    hide IsField, FieldValue, ParseTimes, ScanUnsigned, Blank, ReadField, ParseParticipant, Steady;
    if f.Cancelled? || f.Proxy? {
      PrintedFlag(f);
    } else {
      PrintedValue(f);
      var v := PrintValue(f).value;
      hide PrintValue, CleanField;
      assert PrintField(f) == Name(f) + "=" + v;
      ReadNamed(Name(f), v);
    }
  }

  lemma {:induction false} PrintedFields(fs: seq<Field>)
    requires forall f :: f in fs ==> CleanField(f)
    ensures FieldsFrom(After(PrintFields(fs), '\t')) == fs
  {
    if fs != [] {
      var cell, rest := PrintField(fs[0]), PrintFields(fs[1..]);
      PrintedFields(fs[1..]);
      PrintedField(fs[0]);
      hide Cell, ReadField, Steady, PrintField;
      OneCell(cell, rest);
    }
  }

  /** One cell in front of the rest of the line. */
  lemma OneCell(cell: string, rest: string)
    requires '\t' !in cell && CellEnd(rest) && Steady(cell)
    ensures FieldsFrom(After(Cell(cell, rest), '\t'))
      == (if ReadField(cell).Some? then [ReadField(cell).value] else []) + FieldsFrom(After(rest, '\t'))
  {
    hide ReadField, Steady, Cell, After, Until, CellEnd;
    AfterCell(cell, rest);
    ReadFieldLocal(cell, rest);
  }

  /** The id and the file name in front of the cells. */
  lemma LineParts(id: string, file: string, cells: string)
    requires '\t' !in id && '\t' !in file && CellEnd(cells)
    ensures var line := id + "\t" + file + cells;
      EventId(line) == id && FileName(line) == file && FirstField(line) == After(cells, '\t')
  {
    hide Until, After;
    var line, rest := id + "\t" + file + cells, file + cells;
    assert line == id + ['\t'] + rest by { Regroup(id, file, cells); }
    UntilOf(id, '\t', rest);
    UntilEnd(file, cells);
    AfterLead(cells);
  }

  lemma Regroup(a: string, b: string, c: string)
    ensures a + "\t" + b + c == a + ['\t'] + (b + c)
    ensures '\t' in a + "\t" + b + c
  {
    assert (a + "\t" + b + c)[|a|] == '\t';
  }

  lemma AfterLead(rest: string)
    requires CellEnd(rest)
    ensures After(rest, '\t') == if rest == "" then None else Some(rest[1..])
  {
    if rest != "" {
      assert rest == "" + ['\t'] + rest[1..];
      UntilOf("", '\t', rest[1..]);
    }
  }

  lemma ParticipantIsClean(v: string)
    requires '\t' !in v
    ensures CleanField(ParseParticipant(v))
  {
    assert forall c :: c in Until(v, ' ') ==> c in v;
  }

  lemma ReadFieldIsClean(p: string)
    ensures ReadField(p).Some? ==> CleanField(ReadField(p).value)
  {
    hide IsField, FieldValue, ParseTimes, ScanUnsigned, ParseParticipant, FieldText;
    FieldTextIsClean(p);
    ParticipantIsClean(FieldText(p));
  }

  lemma FieldTextIsClean(p: string)
    ensures '\t' !in FieldText(p)
  {
  }

  lemma {:induction false} FieldsAreClean(p: Option<string>)
    ensures forall f :: f in FieldsFrom(p) ==> CleanField(f)
    decreases if p.Some? then |p.value| + 1 else 0
  {
    if p.Some? {
      ReadFieldIsClean(p.value);
      FieldsAreClean(After(p.value, '\t'));
    }
  }

  /** A record survives being written and read exactly when no text in it holds a separator. */
  lemma RecordRoundTripIff(r: Record)
    ensures ReadRecord(PrintRecord(r)) == r <==> CleanRecord(r)
  {
    if CleanRecord(r) {
      PrintedFields(r.fields);
      LineParts(r.id, r.file, PrintFields(r.fields));
    }
    FieldsAreClean(FirstField(PrintRecord(r)));
  }

  // ----- rewriting a line -----

  lemma CellAppend(cell: string, rest: string, tail: string)
    ensures Cell(cell, rest) + tail == Cell(cell, rest + tail)
  {
  }

  /** The cells that stay, each behind its tab. */
  function KeptCells(p: Option<string>, name: string): (line: string)
    ensures CellEnd(line)
    decreases if p.Some? then |p.value| + 1 else 0
  {
    if p == None then ""
    else
      var rest := KeptCells(After(p.value, '\t'), name);
      if IsField(p.value, name) then rest else Cell(Until(p.value, '\t'), rest)
  }

  function PrintExtra(extra: Option<Field>): (line: string)
    ensures CellEnd(line)
  {
    match extra
    case None => ""
    case Some(f) => Cell(PrintField(f), "")
  }

  function Extra(extra: Option<Field>): seq<Field> {
    if extra.Some? then [extra.value] else []
  }

  /** What lb_remove_field writes, up to the line end. */
  function Rewritten(line: string, name: string, extra: Option<Field>): string {
    EventId(line) + "\t" + FileName(line) + (KeptCells(FirstField(line), name) + PrintExtra(extra))
  }

  predicate SteadyFrom(p: Option<string>)
    decreases if p.Some? then |p.value| + 1 else 0
  {
    p.Some? ==> Steady(Until(p.value, '\t')) && SteadyFrom(After(p.value, '\t'))
  }

  lemma FieldNames(cell: string, name: string)
    requires |name| == 1
    ensures ReadField(cell).Some? ==> (IsField(cell, name) <==> Name(ReadField(cell).value) == name)
  {
    hide FieldValue, ParseTimes, ScanUnsigned, FieldText;
    if ReadField(cell).Some? { OneName(cell, Name(ReadField(cell).value), name); }
  }

  lemma OneName(p: string, m: string, n: string)
    requires |m| == |n| == 1 && IsField(p, m)
    ensures IsField(p, n) <==> m == n
  {
  }

  lemma CellSplits(p: string) returns (cell: string, rest: string)
    ensures cell == Until(p, '\t') && CellEnd(rest) && p == cell + rest
    ensures After(p, '\t') == if rest == "" then None else Some(rest[1..])
  {
    cell, rest := Until(p, '\t'), p[|Until(p, '\t')|..];
    UntilEnd(cell, rest);
  }

  lemma CellEndAppend(a: string, b: string)
    requires CellEnd(a) && CellEnd(b)
    ensures CellEnd(a + b)
  {
    assert a == "" ==> a + b == b;
  }

  /** How the first field is read, and its name known. */
  lemma FirstCell(p: string, name: string)
    requires |name| == 1 && name != "\t"
    ensures var cell := Until(p, '\t');
      && (Steady(cell) ==> ReadField(p) == ReadField(cell)) && (IsField(p, name) <==> IsField(cell, name))
      && (ReadField(p).Some? ==> (IsField(p, name) <==> Name(ReadField(p).value) == name))
  {
    hide ReadField, IsField, Steady;
    var cell, rest := CellSplits(p);
    if Steady(cell) { ReadFieldLocal(cell, rest); }
    IsFieldLocal(cell, rest, name);
    FieldNames(p, name);
  }

  // ----- a blank booking time -----

  lemma {:induction false} ScanSkipsBlank(v: string, rest: string)
    requires Blank(v)
    ensures ScanUnsigned(v + rest) == ScanUnsigned(rest) && ScanUnsigned(v) == None
  {
    if v == "" {
      assert v + rest == rest;
    } else {
      assert (v + rest)[1..] == v[1..] + rest;
      ScanSkipsBlank(v[1..], rest);
    }
  }

  function BookingOf(when: Option<nat>): Option<Field> {
    if when.Some? then Some(BookedAt(when.value)) else None
  }

  /** A blank booking time is whatever number comes next on the line. */
  lemma BlankCellReads(cell: string, rest: string)
    requires '\t' !in cell && CellEnd(rest) && !Steady(cell)
    ensures ReadField(cell + rest) == BookingOf(ScanUnsigned(rest))
  {
    hide ScanUnsigned, Blank, ParseTimes;
    FieldValueLocal(cell, rest);
    ScanSkipsBlank(FieldValue(cell).value, rest);
    IsFieldLocal(cell, rest, TIME_FIELD);
    IsFieldLocal(cell, rest, CANCELLED_FIELD);
    IsFieldLocal(cell, rest, BOOKED_FIELD);
  }

  /** The number that a blank booking time in front of p is read as, in the old line and in the new. */
  function NumberAhead(p: Option<string>): Option<nat> {
    if p == None then None else ScanUnsigned(p.value)
  }

  function NumberKept(p: Option<string>, name: string): Option<nat> {
    ScanUnsigned(KeptCells(p, name))
  }

  /** Somewhere a blank booking time stays, and the removal brings it a number that it did not have. */
  predicate Confuses(p: Option<string>, name: string)
    decreases if p.Some? then |p.value| + 1 else 0
  {
    p.Some? &&
    var next := After(p.value, '\t');
    ((!IsField(p.value, name) && !Steady(Until(p.value, '\t')) && NumberAhead(next) == None && NumberKept(next, name).Some?)
     || Confuses(next, name))
  }

  /** A name that no number begins with, as all field names are. */
  predicate LetterName(name: string) {
    |name| == 1 && !IsSpace(name[0]) && !IsDigit(name[0])
  }

  lemma ScanCell(cell: string, rest: string)
    requires '\t' !in cell && CellEnd(rest)
    ensures ScanUnsigned(Cell(cell, rest)) == if Blank(cell) then ScanUnsigned(rest) else ScanUnsigned(cell)
    ensures ScanUnsigned(cell + rest) == if Blank(cell) then ScanUnsigned(rest) else ScanUnsigned(cell)
  {
    var all := Cell(cell, rest);
    assert all[0] == '\t' && all[1..] == cell + rest;
    assert ScanUnsigned(all) == ScanUnsigned(cell + rest);
    if Blank(cell) { ScanSkipsBlank(cell, rest); } else { ScanUnsignedLocal(cell, rest); }
  }

  lemma ScanTab(rest: string)
    requires CellEnd(rest)
    ensures ScanUnsigned(rest) == if rest == "" then None else ScanUnsigned(rest[1..])
  {
  }

  lemma AheadSteps(p: string)
    ensures var cell := Until(p, '\t');
      NumberAhead(Some(p)) == if Blank(cell) then NumberAhead(After(p, '\t')) else ScanUnsigned(cell)
  {
    var cell, rest := CellSplits(p);
    ScanCell(cell, rest);
    ScanTab(rest);
    hide ScanUnsigned, Blank, CellEnd, Until, After;
  }

  lemma KeptSteps(p: string, name: string)
    ensures var cell, next := Until(p, '\t'), After(p, '\t');
      NumberKept(Some(p), name) ==
        if IsField(p, name) || Blank(cell) then NumberKept(next, name) else ScanUnsigned(cell)
  {
    ScanCell(Until(p, '\t'), KeptCells(After(p, '\t'), name));
    hide ScanUnsigned, Blank, CellEnd, Until, After, Cell, IsField;
  }

  /** A number that was there stays the same. */
  lemma {:induction false} NumbersStay(p: Option<string>, name: string)
    requires LetterName(name)
    ensures NumberAhead(p).Some? ==> NumberKept(p, name) == NumberAhead(p)
    decreases if p.Some? then |p.value| + 1 else 0
  {
    if p.Some? {
      AheadSteps(p.value);
      KeptSteps(p.value, name);
      NumbersStay(After(p.value, '\t'), name);
      var cell, rest := CellSplits(p.value);
      IsFieldLocal(cell, rest, name);
      NumberIsNoField(cell, name);
      hide *;
    }
  }

  lemma NumberIsNoField(cell: string, name: string)
    requires LetterName(name)
    ensures Blank(cell) || ScanUnsigned(cell).Some? ==> !IsField(cell, name)
  {
    assert cell != "" ==> cell[..1] == [cell[0]];
  }

  /** The new field at the end never looks like a number. */
  lemma NumberKeptTail(p: Option<string>, name: string, tail: string)
    requires CellEnd(tail) && ScanUnsigned(tail) == None
    ensures ScanUnsigned(KeptCells(p, name) + tail) == NumberKept(p, name)
  {
    var kept := KeptCells(p, name);
    if Blank(kept) { ScanSkipsBlank(kept, tail); } else { ScanUnsignedLocal(kept, tail); }
  }

  /** The cells that stay read back as the fields that stay, exactly when no blank booking time is
      confused; otherwise there are more of them. */
  lemma {:induction false} KeptCellsRead(p: Option<string>, name: string, tail: string)
    requires LetterName(name) && CellEnd(tail) && ScanUnsigned(tail) == None
    ensures var l, r := FieldsFrom(After(KeptCells(p, name) + tail, '\t')), RemoveField(FieldsFrom(p), name) + FieldsFrom(After(tail, '\t'));
      if Confuses(p, name) then |l| > |r| else l == r
    decreases if p.Some? then |p.value| + 1 else 0
  {
    hide Cell, ReadField, IsField, Steady, Until, After, CellEnd, ScanUnsigned;
    if p == None {
      assert "" + tail == tail;
    } else {
      var next, cell := After(p.value, '\t'), Until(p.value, '\t');
      var kept := KeptCells(next, name);
      KeptCellsRead(next, name, tail);
      CellEndAppend(kept, tail);
      FirstCell(p.value, name);
      CellAppend(cell, kept, tail);
      RemoveFieldOne(ReadField(p.value), FieldsFrom(next), name, FieldsFrom(After(tail, '\t')));
      if Steady(cell) {
        OneCell(cell, kept + tail);
      } else {
        OneBlankCell(p.value, name, kept + tail);
        NumberKeptTail(next, name, tail);
        NumbersStay(next, name);
      }
    }
  }

  /** A blank booking time in the old line, and in the new one. */
  lemma OneBlankCell(p: string, name: string, rest: string)
    requires CellEnd(rest) && !Steady(Until(p, '\t'))
    ensures ReadField(p) == BookingOf(NumberAhead(After(p, '\t')))
    ensures FieldsFrom(After(Cell(Until(p, '\t'), rest), '\t')) ==
      (if ScanUnsigned(rest).Some? then [BookedAt(ScanUnsigned(rest).value)] else []) + FieldsFrom(After(rest, '\t'))
  {
    hide ReadField, Steady, Cell, ScanUnsigned;
    var cell, was := CellSplits(p);
    BlankCellReads(cell, was);
    ScanTab(was);
    AfterCell(cell, rest);
    BlankCellReads(cell, rest);
  }

  lemma RemoveFieldOne(f: Option<Field>, fs: seq<Field>, name: string, tail: seq<Field>)
    ensures RemoveField((if f.Some? then [f.value] else []) + fs, name) + tail
      == (if f.Some? && Name(f.value) != name then [f.value] else []) + (RemoveField(fs, name) + tail)
  {
    if f.Some? {
      assert ([f.value] + fs)[1..] == fs;
    } else {
      assert [] + fs == fs;
    }
  }

  /** For every line: the rewritten line reads as the record without the named fields and with the new one
      behind them, if and only if the removal confuses no blank booking time. */
  lemma RewrittenReadsIff(line: string, name: string, extra: Option<Field>)
    requires LetterName(name) && (extra.Some? ==> CleanField(extra.value))
    ensures var r := Record(EventId(line), FileName(line), RemoveField(ReadRecord(line).fields, name) + Extra(extra));
      ReadRecord(Rewritten(line, name, extra)) == r <==> !Confuses(FirstField(line), name)
  {
    hide KeptCells, PrintExtra, RemoveField, EventId, FileName, FirstField, ScanUnsigned, Confuses;
    var tail, first := PrintExtra(extra), FirstField(line);
    PartsAreClean(line);
    ExtraReads(extra);
    ExtraIsNoNumber(extra);
    KeptCellsRead(first, name, tail);
    CellEndAppend(KeptCells(first, name), tail);
    LineParts(EventId(line), FileName(line), KeptCells(first, name) + tail);
  }

  lemma ExtraIsNoNumber(extra: Option<Field>)
    ensures ScanUnsigned(PrintExtra(extra)) == None
  {
    if extra.Some? {
      var all := PrintExtra(extra);
      assert all[0] == '\t' && all[1..] == PrintField(extra.value) + "" && all[1..][0] == Name(extra.value)[0];
    }
  }

  /** Removing bookings never confuses, and no line does whose booking times are all there. */
  lemma {:induction false} SteadyNeverConfuses(p: Option<string>, name: string)
    requires |name| == 1 && name != "\t" && (name == BOOKED_FIELD || SteadyFrom(p))
    ensures !Confuses(p, name)
    decreases if p.Some? then |p.value| + 1 else 0
  {
    if p.Some? {
      hide IsField;
      SteadyNeverConfuses(After(p.value, '\t'), name);
      FirstCell(p.value, name);
    }
  }

  lemma PartsAreClean(line: string)
    ensures '\t' !in EventId(line) && '\t' !in FileName(line)
  {
  }

  lemma ExtraReads(extra: Option<Field>)
    requires extra.Some? ==> CleanField(extra.value)
    ensures FieldsFrom(After(PrintExtra(extra), '\t')) == Extra(extra)
  {
    if extra.Some? {
      hide Cell, ReadField, Steady, PrintField;
      PrintedField(extra.value);
      OneCell(PrintField(extra.value), "");
    }
  }

  /** The condition matters: without the cell between them, a blank booking takes the digits of
      another cell for its time. */
  lemma BlankBookingReadsOn()
    ensures var line := "b=" + Cell("c", Cell("7", ""));
      && ReadField(line) == None
      && KeptCells(Some(line), CANCELLED_FIELD) == Cell("b=", Cell("7", ""))
      && ReadField("b=" + Cell("7", "")) == Some(BookedAt(7))
  {
    var inner := "c" + Cell("7", "");
    assert Cell("7", "") == "\t" + "7" && Cell("c", Cell("7", "")) == "\t" + inner;
    assert ScanUnsigned(inner) == None && ScanUnsigned("7") == Some(7);
    ScanBlank(inner);
    ScanBlank("7");
    BlankIsKept();
    hide *;
  }

  lemma BlankIsKept()
    ensures KeptCells(Some("b=" + Cell("c", Cell("7", ""))), CANCELLED_FIELD) == Cell("b=", Cell("7", ""))
  {
    hide Cell, After, Until;
    AfterCell("b=", Cell("c", Cell("7", "")));
    AfterCell("c", Cell("7", ""));
    AfterCell("7", "");
    IsFieldLocal("b=", Cell("c", Cell("7", "")), CANCELLED_FIELD);
    IsFieldLocal("c", Cell("7", ""), CANCELLED_FIELD);
    IsFieldLocal("7", "", CANCELLED_FIELD);
    assert "b="[..1] == "b" && "c"[..1] == "c" && "7"[..1] == "7";
    assert After("", '\t') == None;
    assert KeptCells(Some("7" + ""), CANCELLED_FIELD) == Cell("7", "");
    assert KeptCells(Some("c" + Cell("7", "")), CANCELLED_FIELD) == Cell("7", "");
  }

  lemma ScanBlank(rest: string)
    ensures ReadField("b=" + ("\t" + rest)) == if ScanUnsigned(rest).Some? then Some(BookedAt(ScanUnsigned(rest).value)) else None
  {
    var p := "b=" + ("\t" + rest);
    assert p[..1] == "b" && p[1..] == "=" + ("\t" + rest);
    assert p[1..][1..] == "\t" + rest && ("\t" + rest)[1..] == rest;
    assert FieldValue(p) == FieldValue(p[1..]) == Some("\t" + rest);
    assert ScanUnsigned("\t" + rest) == ScanUnsigned(rest);
  }

  lemma AfterCell(cell: string, rest: string)
    requires '\t' !in cell && CellEnd(rest)
    ensures After(Cell(cell, rest), '\t') == Some(cell + rest)
    ensures Until(cell + rest, '\t') == cell && After(cell + rest, '\t') == After(rest, '\t')
  {
    hide Until, After;
    assert Cell(cell, rest) == "" + ['\t'] + (cell + rest);
    UntilOf("", '\t', cell + rest);
    UntilEnd(cell, rest);
    AfterLead(rest);
  }

  lemma KeptOne(cell: string, rest: string, name: string)
    requires '\t' !in cell && CellEnd(rest) && |name| == 1 && name != "\t" && Steady(cell)
    ensures var p, next := After(Cell(cell, rest), '\t'), After(rest, '\t');
      && KeptCells(p, name) == (if IsField(cell, name) then KeptCells(next, name) else Cell(cell, KeptCells(next, name)))
      && (SteadyFrom(next) ==> SteadyFrom(p))
  {
    hide Cell, ReadField, IsField, Steady, After, Until, CellEnd;
    AfterCell(cell, rest);
    IsFieldLocal(cell, rest, name);
  }

  lemma {:induction false} KeptPrintedCells(fs: seq<Field>, name: string)
    requires |name| == 1 && name != "\t" && forall f :: f in fs ==> CleanField(f)
    ensures KeptCells(After(PrintFields(fs), '\t'), name) == PrintFields(RemoveField(fs, name))
    ensures SteadyFrom(After(PrintFields(fs), '\t'))
  {
    if fs != [] {
      var cell, rest := PrintField(fs[0]), PrintFields(fs[1..]);
      PrintedField(fs[0]);
      KeptPrintedCells(fs[1..], name);
      hide Cell, ReadField, IsField, Steady, PrintField, After, CellEnd, SteadyFrom, KeptCells, CleanField;
      KeptOne(cell, rest, name);
      PrintRemoved(fs, name);
    }
  }

  lemma PrintRemoved(fs: seq<Field>, name: string)
    requires fs != []
    ensures PrintFields(RemoveField(fs, name)) == var rest := PrintFields(RemoveField(fs[1..], name));
      if Name(fs[0]) == name then rest else Cell(PrintField(fs[0]), rest)
  {
    var kept := RemoveField(fs[1..], name);
    assert ([fs[0]] + kept)[1..] == kept;
  }

  /** On the line of a record, rewriting is exactly printing the rewritten record. */
  lemma RewrittenIsPrinted(r: Record, name: string, extra: Option<Field>)
    requires |name| == 1 && name != "\t" && CleanRecord(r)
    ensures Rewritten(PrintRecord(r), name, extra) == PrintRecord(r.(fields := RemoveField(r.fields, name) + Extra(extra)))
  {
    hide KeptCells, PrintFields, PrintExtra, RemoveField, EventId, FileName, FirstField, Extra;
    KeptPrintedCells(r.fields, name);
    LineParts(r.id, r.file, PrintFields(r.fields));
    PrintFieldsAppend(RemoveField(r.fields, name), extra);
  }

  lemma {:induction false} PrintFieldsAppend(fs: seq<Field>, extra: Option<Field>)
    ensures PrintFields(fs + Extra(extra)) == PrintFields(fs) + PrintExtra(extra)
  {
    hide Cell, PrintField;
    if fs == [] {
      assert [] + Extra(extra) == Extra(extra) && "" + PrintExtra(extra) == PrintExtra(extra);
    } else {
      PrintFieldsAppend(fs[1..], extra);
      assert (fs + Extra(extra))[1..] == fs[1..] + Extra(extra);
      CellAppend(PrintField(fs[0]), PrintFields(fs[1..]), PrintExtra(extra));
    }
  }
}
