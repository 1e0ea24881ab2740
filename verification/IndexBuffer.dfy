/** The line buffer through which src/pcp/pcpdir.c reads and writes the text of the index. */
module IndexBuffer {
  import opened Text
  import opened EventTimes
  import opened CalendarIndex
  import opened IndexLine

  // ----- the whole file -----

  /** Every complete line is a record; what follows the last line end is not read. */
  function ReadIndex(text: string): seq<Record>
    decreases |text|
  {
    match After(text, '\n')
    case None => []
    case Some(rest) => [ReadRecord(Until(text, '\n'))] + ReadIndex(rest)
  }

  function PrintIndex(rs: seq<Record>): string {
    if rs == [] then "" else PrintRecord(rs[0]) + ['\n'] + PrintIndex(rs[1..])
  }

  /** A record that a line of the index can hold. */
  predicate FitsLine(r: Record) {
    CleanRecord(r) && '\n' !in PrintRecord(r)
  }

  lemma ReadOneLine(r: Record, rest: string)
    requires FitsLine(r)
    ensures ReadIndex(PrintRecord(r) + ['\n'] + rest) == [r] + ReadIndex(rest)
  {
    hide ReadRecord, PrintRecord, CleanRecord, Until, After;
    UntilOf(PrintRecord(r), '\n', rest);
    RecordRoundTripIff(r);
  }

  lemma {:induction false} IndexComesBack(rs: seq<Record>)
    requires forall r :: r in rs ==> FitsLine(r)
    ensures ReadIndex(PrintIndex(rs)) == rs
  {
    if rs != [] {
      hide FitsLine, PrintRecord;
      IndexComesBack(rs[1..]);
      ReadOneLine(rs[0], PrintIndex(rs[1..]));
    }
  }

  lemma {:induction false} FieldValuePart(p: string)
    ensures FieldValue(p).Some? ==> forall c :: c in FieldValue(p).value ==> c in p
  {
    if p != "" && p[0] != '\t' && p[0] != '=' { FieldValuePart(p[1..]); }
  }

  lemma FieldTextPart(p: string)
    ensures forall c :: c in FieldText(p) ==> c in p
  {
    FieldValuePart(p);
  }

  lemma ParticipantHasNoNewline(v: string)
    requires '\n' !in v
    ensures '\n' !in PrintField(ParseParticipant(v))
  {
    assert forall c :: c in Until(v, ' ') ==> c in v;
    if After(v, ' ').Some? { assert forall c :: c in After(v, ' ').value ==> c in v; }
    hide Until, After;
  }

  lemma OthersHaveNoNewline(f: Field)
    requires !f.Participant? && (f.Pending? ==> '\n' !in f.rival)
    ensures '\n' !in PrintField(f)
  {
  }

  /** A field read from text without a line end is printed without one. */
  lemma FieldHasNoNewline(p: string)
    requires '\n' !in p && ReadField(p).Some?
    ensures '\n' !in PrintField(ReadField(p).value)
  {
    hide IsField, FieldValue, FieldText, ParseTimes, ScanUnsigned, ParseParticipant, PrintField;
    FieldTextPart(p);
    ParticipantHasNoNewline(FieldText(p));
    ParsesParticipant(FieldText(p));
    if !ReadField(p).value.Participant? { OthersHaveNoNewline(ReadField(p).value); }
  }

  lemma ParsesParticipant(v: string)
    ensures ParseParticipant(v).Participant?
  {
  }

  lemma {:induction false} FieldsHaveNoNewline(p: Option<string>)
    requires p.Some? ==> '\n' !in p.value
    ensures '\n' !in PrintFields(FieldsFrom(p))
    decreases if p.Some? then |p.value| + 1 else 0
  {
    if p.Some? {
      var next := After(p.value, '\t');
      if next.Some? { assert forall c :: c in next.value ==> c in p.value; }
      FieldsHaveNoNewline(next);
      FieldSplit(p.value);
      if ReadField(p.value).Some? {
        FieldHasNoNewline(p.value);
        var f, fs := ReadField(p.value).value, FieldsFrom(next);
        assert ([f] + fs)[1..] == fs;
        hide ReadField, PrintField, FieldsFrom;
      }
    }
  }

  /** What is read from one line fits one line. */
  lemma ReadRecordFits(line: string)
    requires '\n' !in line
    ensures FitsLine(ReadRecord(line))
  {
    PartsAreClean(line);
    FieldsAreClean(FirstField(line));
    var rest := After(line, '\t');
    if rest.Some? {
      assert forall c :: c in rest.value ==> c in line;
      var first := After(rest.value, '\t');
      if first.Some? { assert forall c :: c in first.value ==> c in rest.value; }
    }
    FieldsHaveNoNewline(FirstField(line));
    assert forall c :: c in EventId(line) ==> c in line;
    assert forall c :: c in FileName(line) ==> c in line;
  }

  lemma {:induction false} ReadIndexFits(text: string)
    ensures forall r :: r in ReadIndex(text) ==> FitsLine(r)
    decreases |text|
  {
    var rest := After(text, '\n');
    if rest.Some? {
      hide ReadRecord, FitsLine;
      ReadRecordFits(Until(text, '\n'));
      ReadIndexFits(rest.value);
    }
  }

  /** A whole index survives being written and read if and only if each record fits its line. */
  lemma IndexRoundTripIff(rs: seq<Record>)
    ensures ReadIndex(PrintIndex(rs)) == rs <==> forall r :: r in rs ==> FitsLine(r)
  {
    ReadIndexFits(PrintIndex(rs));
    if forall r :: r in rs ==> FitsLine(r) { IndexComesBack(rs); }
  }

  /** lb_is_eventid */
  predicate IsEventId(line: string, id: string) {
    |id| < |line| && line[..|id|] == id && line[|id|] == '\t'
  }

  lemma IsEventIdIff(line: string, id: string)
    requires '\t' !in id
    ensures IsEventId(line, id) <==> '\t' in line && EventId(line) == id
  {
    if IsEventId(line, id) {
      assert line == id + ['\t'] + line[|id| + 1..];
      UntilOf(id, '\t', line[|id| + 1..]);
    }
  }

  // ----- one field -----

  /** lb_field_value */
  method FindValue(p: string) returns (v: Option<string>)
    ensures v == FieldValue(p)
  {
    var i := 0;
    while i < |p| && p[i] != '\t'
      invariant i <= |p| && FieldValue(p) == FieldValue(p[i..])
    {
      i := i + 1;
      if p[i - 1] == '=' { return Some(p[i..]); }
    }
    return None;
  }

  /** One of the digit loops of parse_time_field. */
  method ScanDigits(p: string, at: nat) returns (v: nat, i: nat)
    requires at <= |p|
    ensures at <= i <= |p| && ScanNumber(0, p[at..]) == (v, p[i..])
  {
    v, i := 0, at;
    while i < |p| && IsDigit(p[i])
      invariant at <= i <= |p| && ScanNumber(0, p[at..]) == ScanNumber(v, p[i..])
    {
      assert p[i..][1..] == p[i + 1..];
      v := v * 10 + (p[i] as int - '0' as int);
      i := i + 1;
    }
  }

  /** parse_time_field */
  method ParseTimeField(p: Option<string>) returns (t: Option<Interval>)
    ensures t == if p.Some? then ParseTimes(p.value) else None
  {
    if p == None { return None; }
    var start, i := ScanDigits(p.value, 0);
    assert p.value[0..] == p.value;
    if i == |p.value| || p.value[i] != ',' { return None; }
    assert p.value[i..][1..] == p.value[i + 1..];
    var end, j := ScanDigits(p.value, i + 1);
    return Some(Interval(start, end));
  }

  lemma ReadsOne(f: Field, fs: seq<Field>)
    ensures BookTime([f] + fs) == if f.BookedAt? then Some(f.when) else BookTime(fs)
    ensures PendingBy([f] + fs) == if f.Pending? then Some(f.rival) else PendingBy(fs)
    ensures Times([f] + fs) == (if f.Time? then [f.span] else []) + Times(fs)
  {
    assert ([f] + fs)[1..] == fs;
  }

  /** The inner loop of pcp_is_conflict. */
  method AnyConflict(t: Interval, times: seq<Interval>) returns (b: bool)
    ensures b <==> exists j :: 0 <= j < |times| && Conflict(t, times[j])
  {
    b := false;
    var i := 0;
    while i < |times|
      invariant i <= |times| && (b <==> exists j :: 0 <= j < i && Conflict(t, times[j]))
    {
      if !(t.start >= times[i].end) && !(times[i].start >= t.end) { b := true; }
      i := i + 1;
    }
  }

  lemma SeqAssoc<T>(a: seq<T>, x: T, b: seq<T>)
    ensures a + ([x] + b) == (a + [x]) + b
  {
  }

  // ----- one line -----

  lemma OneCellOff(p: string)
    ensures var cell, next := Until(p, '\t'), After(p, '\t');
      p == if next.Some? then cell + ['\t'] + next.value else cell
    ensures FieldsFrom(Some(p)) == ReadHere(p) + FieldsFrom(After(p, '\t'))
  {
    hide ReadField;
  }

  function ReadHere(p: string): seq<Field> {
    if ReadField(p).Some? then [ReadField(p).value] else []
  }

  lemma LineEnds(file: string, at: nat, n: nat)
    requires at <= n <= |file| && (forall i :: at <= i < n ==> file[i] != '\n')
    requires n < |file| ==> file[n] == '\n'
    ensures '\n' in file[at..] <==> n < |file|
    ensures n < |file| ==> Until(file[at..], '\n') == file[at..n] && After(file[at..], '\n') == Some(file[n + 1..])
  {
    var line := file[at..n];
    if n < |file| {
      assert file[at..] == line + ['\n'] + file[n + 1..];
      UntilOf(line, '\n', file[n + 1..]);
    } else {
      assert file[at..] == line;
    }
  }

  class LineBuffer {
    var buffer: string
    var nextField: Option<string>     // the text from the next field on

    constructor ()
      ensures buffer == "" && nextField == None
    {
      buffer, nextField := "", None;
    }

    /** lb_read: one line from the rest of the file. */
    method Read(file: string, at: nat) returns (ok: bool, next: nat)
      requires at <= |file|
      modifies this
      ensures ok <==> '\n' in file[at..]
      ensures ok ==> buffer == Until(file[at..], '\n') && next <= |file| && Some(file[next..]) == After(file[at..], '\n')
      ensures ok ==> at < next
    {
      hide Until, After;
      var n := at;
      while n < |file| && file[n] != '\n'
        invariant at <= n <= |file| && forall i :: at <= i < n ==> file[i] != '\n'
      {
        n := n + 1;
      }
      LineEnds(file, at, n);
      if n == |file| { return false, n; }
      buffer := file[at..n];
      return true, n + 1;
    }

    /** lb_first_field */
    method First() returns (p: Option<string>)
      modifies this`nextField
      ensures p == nextField == FirstField(buffer)
    {
      p := After(buffer, '\t');
      if p.Some? { p := After(p.value, '\t'); }
      nextField := p;
    }

    /** lb_next_field: past exactly one cell and its tab, and one field of those still to be read. */
    method Next() returns (p: Option<string>, ghost cell: string)
      modifies this`nextField
      ensures p == nextField && '\t' !in cell
      ensures old(nextField).Some? ==> old(nextField).value == if p.Some? then cell + ['\t'] + p.value else cell
      ensures old(nextField).None? ==> p == None
      ensures old(nextField).Some? ==> p == After(old(nextField).value, '\t')
      ensures old(nextField).Some? ==> FieldsFrom(old(nextField)) == ReadHere(old(nextField).value) + FieldsFrom(p)
    {
      cell := if nextField.Some? then Until(nextField.value, '\t') else "";
      p := if nextField.Some? then After(nextField.value, '\t') else None;
      if nextField.Some? { OneCellOff(nextField.value); }
      hide *;
      nextField := p;
    }

    /** lb_is_cancelled */
    method HasCancelled() returns (b: bool)
      modifies this`nextField
      ensures b <==> IsCancelled(ReadRecord(buffer))
    {
      hide IsField, ReadField, FieldsFrom, FirstField, After;
      CancelledEnd();
      var p := First();
      while p.Some?
        invariant p == nextField
        invariant Cancelled in FieldsFrom(FirstField(buffer)) <==> Cancelled in FieldsFrom(p)
        decreases if p.Some? then |p.value| + 1 else 0
      {
        CancelledNext(p.value);
        if IsField(p.value, CANCELLED_FIELD) { return true; }
        ghost var passed;
        p, passed := Next();
      }
      return false;
    }

    /** lb_is_booked */
    method BookedSince() returns (t: Option<nat>)
      modifies this`nextField
      ensures t == BookTime(ReadRecord(buffer).fields)
    {
      hide IsField, ReadField, FieldValue, FieldsFrom, BookTime, ScanUnsigned, FirstField, After;
      BookedEnd();
      var p := First();
      while p.Some?
        invariant p == nextField
        invariant BookTime(FieldsFrom(FirstField(buffer))) == BookTime(FieldsFrom(p))
        decreases if p.Some? then |p.value| + 1 else 0
      {
        BookedNext(p.value);
        if IsField(p.value, BOOKED_FIELD) {
          var q := FindValue(p.value);
          if q.Some? && ScanUnsigned(q.value).Some? { return ScanUnsigned(q.value); }
        }
        ghost var passed;
        p, passed := Next();
      }
      return None;
    }

    /** lb_is_pendel, and lb_field_value_buf of what it finds. */
    method PendingFor() returns (rival: Option<string>)
      modifies this`nextField
      ensures rival == PendingBy(ReadRecord(buffer).fields)
    {
      hide IsField, ReadField, FieldText, FieldsFrom, PendingBy, FirstField, After;
      PendingEnd();
      var p := First();
      while p.Some?
        invariant p == nextField
        invariant PendingBy(FieldsFrom(FirstField(buffer))) == PendingBy(FieldsFrom(p))
        decreases if p.Some? then |p.value| + 1 else 0
      {
        PendingNext(p.value);
        if IsField(p.value, PENDEL_FIELD) { return Some(FieldText(p.value)); }
        ghost var passed;
        p, passed := Next();
      }
      return None;
    }

    /** pcp_is_conflict, without a callback. */
    method Conflicts(times: seq<Interval>) returns (b: bool)
      modifies this`nextField
      ensures b <==> SomeConflict(Times(ReadRecord(buffer).fields), times)
    {
      hide IsField, ReadField, FieldValue, FieldsFrom, Times, ParseTimes, SomeConflict, FirstField, After;
      TimesEnd(times);
      ghost var seen: seq<Interval> := [];
      b := false;
      var p := First();
      while p.Some?
        invariant p == nextField
        invariant Times(FieldsFrom(FirstField(buffer))) == seen + Times(FieldsFrom(p))
        invariant b <==> SomeConflict(seen, times)
        decreases if p.Some? then |p.value| + 1 else 0
      {
        TimesNext(p.value);
        ghost var rest := Times(FieldsFrom(After(p.value, '\t')));
        if IsField(p.value, TIME_FIELD) {
          var q := FindValue(p.value);
          var t := ParseTimeField(q);
          if t.Some? {
            var found := AnyConflict(t.value, times);
            b := b || found;
            OneMoreTime(seen, t.value, times);
            SeqAssoc(seen, t.value, rest);
            seen := seen + [t.value];
          }
        }
        ghost var passed;
        p, passed := Next();
      }
      assert seen + [] == seen;
    }

    /** lb_remove_field: what it writes. */
    method RemoveField(name: string, extra: Option<Field>) returns (out: string)
      modifies this`nextField
      ensures out == Rewritten(buffer, name, extra) + "\n"
    {
      hide IsField, Until, After, Cell;
      var head := EventId(buffer) + "\t" + FileName(buffer);
      out := "";
      var p := First();
      while p.Some?
        invariant p == nextField
        invariant KeptCells(FirstField(buffer), name) == out + KeptCells(p, name)
        decreases if p.Some? then |p.value| + 1 else 0
      {
        ghost var rest := KeptCells(After(p.value, '\t'), name);
        if !IsField(p.value, name) {
          CellOnto(out, Until(p.value, '\t'), rest);
          out := out + "\t" + Until(p.value, '\t');
        }
        ghost var passed;
        p, passed := Next();
      }
      assert out + "" == out;
      out := head + (out + PrintExtra(extra)) + "\n";
    }
  }

  lemma CellOnto(out: string, cell: string, rest: string)
    ensures out + Cell(cell, rest) == (out + "\t" + cell) + rest
  {
  }

  // ----- what one field adds to each reading -----

  lemma FieldSplit(p: string)
    ensures var rest := FieldsFrom(After(p, '\t'));
      FieldsFrom(Some(p)) == if ReadField(p).Some? then [ReadField(p).value] + rest else rest
  {
    hide ReadField, After;
  }

  lemma CancelledName(p: string)
    ensures IsField(p, CANCELLED_FIELD) <==> ReadField(p) == Some(Cancelled)
  {
  }

  lemma CancelledNext(p: string)
    ensures Cancelled in FieldsFrom(Some(p)) <==> IsField(p, CANCELLED_FIELD) || Cancelled in FieldsFrom(After(p, '\t'))
  {
    FieldSplit(p);
    CancelledName(p);
    hide *;
  }

  lemma CancelledEnd()
    ensures Cancelled !in FieldsFrom(None)
  {
  }

  lemma BookedName(p: string)
    ensures IsField(p, BOOKED_FIELD) && FieldValue(p).Some? && ScanUnsigned(FieldValue(p).value).Some?
      <==> ReadField(p).Some? && ReadField(p).value.BookedAt?
    ensures ReadField(p).Some? && ReadField(p).value.BookedAt? ==>
      ScanUnsigned(FieldValue(p).value) == Some(ReadField(p).value.when)
  {
  }

  lemma BookedNext(p: string)
    ensures BookTime(FieldsFrom(Some(p))) ==
      if IsField(p, BOOKED_FIELD) && FieldValue(p).Some? && ScanUnsigned(FieldValue(p).value).Some?
      then ScanUnsigned(FieldValue(p).value) else BookTime(FieldsFrom(After(p, '\t')))
  {
    FieldSplit(p);
    BookedName(p);
    if ReadField(p).Some? { ReadsOne(ReadField(p).value, FieldsFrom(After(p, '\t'))); }
    hide *;
  }

  lemma BookedEnd()
    ensures BookTime(FieldsFrom(None)) == None
  {
  }

  lemma PendingName(p: string)
    ensures IsField(p, PENDEL_FIELD) <==> ReadField(p).Some? && ReadField(p).value.Pending?
    ensures IsField(p, PENDEL_FIELD) ==> ReadField(p) == Some(Pending(FieldText(p)))
  {
  }

  lemma PendingNext(p: string)
    ensures PendingBy(FieldsFrom(Some(p))) ==
      if IsField(p, PENDEL_FIELD) then Some(FieldText(p)) else PendingBy(FieldsFrom(After(p, '\t')))
  {
    FieldSplit(p);
    PendingName(p);
    if ReadField(p).Some? { ReadsOne(ReadField(p).value, FieldsFrom(After(p, '\t'))); }
    hide *;
  }

  lemma PendingEnd()
    ensures PendingBy(FieldsFrom(None)) == None
  {
  }

  lemma TimeName(p: string)
    ensures IsField(p, TIME_FIELD) && FieldValue(p).Some? && ParseTimes(FieldValue(p).value).Some?
      <==> ReadField(p).Some? && ReadField(p).value.Time?
    ensures ReadField(p).Some? && ReadField(p).value.Time? ==>
      ParseTimes(FieldValue(p).value) == Some(ReadField(p).value.span)
  {
  }

  lemma TimesNext(p: string)
    ensures var rest := Times(FieldsFrom(After(p, '\t')));
      Times(FieldsFrom(Some(p))) ==
        if IsField(p, TIME_FIELD) && FieldValue(p).Some? && ParseTimes(FieldValue(p).value).Some?
        then [ParseTimes(FieldValue(p).value).value] + rest else rest
  {
    FieldSplit(p);
    TimeName(p);
    if ReadField(p).Some? { ReadsOne(ReadField(p).value, FieldsFrom(After(p, '\t'))); }
    hide *;
    assert [] + Times(FieldsFrom(After(p, '\t'))) == Times(FieldsFrom(After(p, '\t')));
  }

  lemma TimesEnd(times: seq<Interval>)
    ensures Times(FieldsFrom(None)) == [] && !SomeConflict([], times)
  {
  }

  lemma OneMoreTime(seen: seq<Interval>, t: Interval, times: seq<Interval>)
    ensures SomeConflict(seen + [t], times) <==>
      SomeConflict(seen, times) || exists j :: 0 <= j < |times| && Conflict(t, times[j])
  {
  }

  // ----- the line of a new event -----

  lemma PrintsNext(fs: seq<Field>, f: Field)
    ensures PrintFields(fs + [f]) == PrintFields(fs) + "\t" + PrintField(f)
  {
    PrintFieldsAppend(fs, Some(f));
  }

  lemma {:induction false} TimeFieldsNext(times: seq<Interval>, t: Interval)
    ensures TimeFields(times + [t]) == TimeFields(times) + [Time(t)]
  {
    if times == [] {
      assert [] + [t] == [t] && TimeFields([]) == [];
    } else {
      TimeFieldsNext(times[1..], t);
      assert (times + [t])[1..] == times[1..] + [t];
    }
  }

  lemma MarksAre(cancelled: bool, byProxy: bool, booking: bool, now: nat)
    ensures Marks(cancelled, byProxy, booking, now) == (if cancelled then [Cancelled] else [])
      + (if byProxy then [Proxy] else []) + (if booking then [BookedAt(now)] else [])
  {
  }

  lemma PrintsNone()
    ensures PrintFields([]) == "" && TimeFields([]) == [] && Invited([]) == []
  {
  }

  /** The sanity check of an address. */
  method IsFit(address: string) returns (fit: bool)
    ensures fit <==> forall i :: 0 <= i < |address| ==> address[i] > ' '
  {
    fit := true;
    var k := 0;
    while k < |address|
      invariant k <= |address|
      invariant fit <==> forall i :: 0 <= i < k ==> address[i] > ' '
    {
      if address[k] <= ' ' { fit := false; }
      k := k + 1;
    }
  }

  method PrintMarks(cancelled: bool, byProxy: bool, booking: bool, now: nat) returns (cells: string)
    ensures cells == PrintFields(Marks(cancelled, byProxy, booking, now))
  {
    hide PrintFields, PrintField, Marks;
    MarksAre(cancelled, byProxy, booking, now);
    PrintsNone();
    ghost var fs: seq<Field> := [];
    cells := "";
    if cancelled {
      PrintsNext(fs, Cancelled);
      fs := fs + [Cancelled];
      cells := cells + "\t" + PrintField(Cancelled);
    }
    if byProxy {
      PrintsNext(fs, Proxy);
      fs := fs + [Proxy];
      cells := cells + "\t" + PrintField(Proxy);
    }
    if booking {
      PrintsNext(fs, BookedAt(now));
      fs := fs + [BookedAt(now)];
      cells := cells + "\t" + PrintField(BookedAt(now));
    }
    assert fs == Marks(cancelled, byProxy, booking, now);
  }

  method PrintTimes(before: string, ghost head: seq<Field>, times: seq<Interval>) returns (cells: string)
    requires before == PrintFields(head)
    ensures cells == PrintFields(head + TimeFields(times))
  {
    hide PrintFields, PrintField, TimeFields;
    PrintsNone();
    cells := before;
    ghost var fs := head;
    assert times[..0] == [] && fs == head + [];
    var i := 0;
    while i < |times|
      invariant i <= |times| && fs == head + TimeFields(times[..i]) && cells == PrintFields(fs)
    {
      PrintsNext(fs, Time(times[i]));
      assert times[..i + 1] == times[..i] + [times[i]];
      TimeFieldsNext(times[..i], times[i]);
      fs := fs + [Time(times[i])];
      cells := cells + "\t" + PrintField(Time(times[i]));
      i := i + 1;
    }
    assert times[..|times|] == times;
  }

  method PrintParticipants(before: string, ghost head: seq<Field>, participants: seq<Guest>)
    returns (cells: string, good: bool)
    requires before == PrintFields(head)
    ensures cells == PrintFields(head + Invited(participants))
    ensures good <==> forall f :: f in Invited(participants) ==> GoodAddress(f)
  {
    hide PrintFields, PrintField, Invited;
    PrintsNone();
    cells, good := before, true;
    ghost var fs := head;
    assert participants[..0] == [] && fs == head + [];
    var i := 0;
    while i < |participants|
      invariant i <= |participants| && fs == head + Invited(participants[..i]) && cells == PrintFields(fs)
      invariant good <==> forall f :: f in Invited(participants[..i]) ==> GoodAddress(f)
    {
      var who := participants[i];
      assert participants[..i + 1] == participants[..i] + [who];
      InvitedNext(participants[..i], who);
      i := i + 1;
      if who.address == None { continue; }
      var f := Participant(who.address.value, who.eventid);
      PrintsNext(fs, f);
      fs := fs + [f];
      cells := cells + "\t" + PrintField(f);
      var fit := IsFit(who.address.value);
      assert fit <==> GoodAddress(f);
      good := good && fit;
    }
    assert participants[..|participants|] == participants;
  }

  /** What docommitevent writes for the new event; good says whether it finds every address fit. */
  method PrintNew(id: string, file: string, cancelled: bool, byProxy: bool, booking: bool, now: nat,
      times: seq<Interval>, participants: seq<Guest>) returns (out: string, good: bool)
    ensures out == PrintRecord(NewRecord(id, file, Invited(participants), booking, times, byProxy, cancelled, now)) + "\n"
    ensures good <==> forall f :: f in Invited(participants) ==> GoodAddress(f)
  {
    var marks := PrintMarks(cancelled, byProxy, booking, now);
    var timed := PrintTimes(marks, Marks(cancelled, byProxy, booking, now), times);
    var cells, fit := PrintParticipants(timed, Marks(cancelled, byProxy, booking, now) + TimeFields(times), participants);
    return id + "\t" + file + cells + "\n", fit;
  }

  /** Every line written for a new event whose addresses are fit reads back as that event, provided
      its names hold no tab. */
  lemma NewLineReadsBack(id: string, file: string, cancelled: bool, byProxy: bool, booking: bool, now: nat,
      times: seq<Interval>, participants: seq<Guest>)
    requires '\t' !in id && '\t' !in file && (forall f :: f in Invited(participants) ==> GoodAddress(f))
    requires forall p :: p in participants && p.address.Some? && p.eventid.Some? ==> '\t' !in p.eventid.value
    ensures var r := NewRecord(id, file, Invited(participants), booking, times, byProxy, cancelled, now);
      ReadRecord(PrintRecord(r)) == r
  {
    var fs := Invited(participants);
    var r := NewRecord(id, file, fs, booking, times, byProxy, cancelled, now);
    forall f | f in Marks(cancelled, byProxy, booking, now)
      ensures CleanField(f)
    {}
    TimeFieldsAreTimes(times);
    forall f | f in fs
      ensures CleanField(f)
    {
      InvitedFrom(participants, f);
    }
    RecordRoundTripIff(r);
  }

  lemma {:induction false} TimeFieldsAreTimes(times: seq<Interval>)
    ensures forall f :: f in TimeFields(times) ==> f.Time?
  {
    if times != [] { TimeFieldsAreTimes(times[1..]); }
  }
}
