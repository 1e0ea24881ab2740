/** The pass of docommitevent over the text of the index: what module Calendar does with records, done line
    by line through the line buffer (src/pcp/pcpdir.c). */
module IndexPass {
  import opened Text
  import opened EventTimes
  import opened CalendarIndex
  import opened IndexLine
  import opened IndexBuffer

  // ----- lines and the records they hold -----

  function Lines(text: string): seq<string>
    decreases |text|
  {
    match After(text, '\n')
    case None => []
    case Some(rest) => [Until(text, '\n')] + Lines(rest)
  }

  function Records(ls: seq<string>): (rs: seq<Record>)
    ensures |rs| == |ls|
  {
    if ls == [] then [] else Records(ls[..|ls| - 1]) + [ReadRecord(ls[|ls| - 1])]
  }

  lemma {:induction false} RecordsAt(ls: seq<string>, i: nat)
    requires i < |ls|
    ensures Records(ls)[i] == ReadRecord(ls[i])
  {
    hide ReadRecord;
    if i < |ls| - 1 { RecordsAt(ls[..|ls| - 1], i); }
  }

  lemma {:induction false} RecordsFront(l: string, ls: seq<string>)
    ensures Records([l] + ls) == [ReadRecord(l)] + Records(ls)
  {
    hide ReadRecord;
    var all := [l] + ls;
    if ls == [] {
      assert all[..0] == [] && all == [l];
    } else {
      RecordsFront(l, ls[..|ls| - 1]);
      assert all[..|all| - 1] == [l] + ls[..|ls| - 1];
    }
  }

  /** The index is the records of its lines. */
  lemma {:induction false} IndexOfLines(text: string)
    ensures ReadIndex(text) == Records(Lines(text))
    decreases |text|
  {
    hide ReadRecord, Records;
    var rest := After(text, '\n');
    if rest.Some? {
      IndexOfLines(rest.value);
      RecordsFront(Until(text, '\n'), Lines(rest.value));
    } else {
      NoRecords();
    }
  }

  lemma NoRecords()
    ensures Records([]) == []
  {
  }

  lemma {:induction false} LinesAreLines(text: string)
    ensures forall l :: l in Lines(text) ==> '\n' !in l
    decreases |text|
  {
    var rest := After(text, '\n');
    if rest.Some? { LinesAreLines(rest.value); }
  }

  /** A complete line behind complete lines. */
  lemma {:induction false} ReadOneMore(text: string, line: string)
    requires (text == "" || text[|text| - 1] == '\n') && '\n' !in line
    ensures ReadIndex(text + (line + ['\n'])) == ReadIndex(text) + [ReadRecord(line)]
    decreases |text|
  {
    hide ReadRecord, Until, After;
    if text == "" {
      assert text + (line + ['\n']) == line + ['\n'] + "";
      UntilOf(line, '\n', "");
      UntilOf("", '\n', "");
      assert After("", '\n') == None;
    } else {
      var first, rest := SplitLine(text);
      assert text + (line + ['\n']) == first + ['\n'] + (rest + (line + ['\n']));
      UntilOf(first, '\n', rest);
      UntilOf(first, '\n', rest + (line + ['\n']));
      ReadOneMore(rest, line);
    }
  }

  lemma SplitLine(text: string) returns (first: string, rest: string)
    requires text != "" && text[|text| - 1] == '\n'
    ensures text == first + ['\n'] + rest && '\n' !in first
    ensures rest == "" || rest[|rest| - 1] == '\n'
  {
    assert '\n' in text;
    first, rest := Until(text, '\n'), After(text, '\n').value;
  }

  // ----- what the pass writes -----

  /** The text that is written in place of a line, without its line end. */
  function KeptLine(c: Scan, line: string): Option<string> {
    var r := ReadRecord(line);
    if Own(c, r) then (if c.booking then None else Some(Rewritten(line, BOOKED_FIELD, None)))
    else if Replaced(c, r) then
      if !c.booking then None
      else if PendingBy(r.fields).Some? then Some(line)
      else Some(Rewritten(line, PENDEL_FIELD, Some(Pending(c.h.id))))
    else Some(line)
  }

  /** No blank booking time is confused when the line gets its mark. */
  predicate Calm(c: Scan, line: string) {
    var r := ReadRecord(line);
    !Own(c, r) && Replaced(c, r) && c.booking && PendingBy(r.fields).None? ==> !Confuses(FirstField(line), PENDEL_FIELD)
  }

  /** The ids of the handle hold no separators. */
  predicate CleanIds(c: Scan) {
    '\t' !in c.h.id && '\n' !in c.h.id && (c.h.oldId.Some? ==> '\t' !in c.h.oldId.value)
  }

  lemma KeptLineReadsIff(c: Scan, line: string)
    requires CleanIds(c)
    ensures KeptLine(c, line).Some? <==> Kept(c, ReadRecord(line)).Some?
    ensures KeptLine(c, line).Some? ==>
      (ReadRecord(KeptLine(c, line).value) == Kept(c, ReadRecord(line)).value <==> Calm(c, line))
  {
    hide Confuses, Rewritten, FieldsFrom, RemoveField, PendingBy;
    RewrittenReadsIff(line, BOOKED_FIELD, None);
    SteadyNeverConfuses(FirstField(line), BOOKED_FIELD);
    RewrittenReadsIff(line, PENDEL_FIELD, Some(Pending(c.h.id)));
    var fs := ReadRecord(line).fields;
    assert RemoveField(fs, BOOKED_FIELD) + Extra(None) == RemoveField(fs, BOOKED_FIELD);
  }

  function PassLines(c: Scan, ls: seq<string>): string {
    if ls == [] then "" else
      var last := KeptLine(c, ls[|ls| - 1]);
      if last.Some? then PassLines(c, ls[..|ls| - 1]) + (last.value + ['\n']) else PassLines(c, ls[..|ls| - 1])
  }

  lemma {:induction false} KeptCellsFit(p: Option<string>, name: string)
    requires p.Some? ==> '\n' !in p.value
    ensures '\n' !in KeptCells(p, name)
    decreases if p.Some? then |p.value| + 1 else 0
  {
    if p.Some? {
      var next := After(p.value, '\t');
      if next.Some? { assert forall c :: c in next.value ==> c in p.value; }
      KeptCellsFit(next, name);
      assert forall c :: c in Until(p.value, '\t') ==> c in p.value;
    }
  }

  lemma RewrittenFits(line: string, name: string, extra: Option<Field>)
    requires '\n' !in line && (extra.Some? ==> '\n' !in PrintField(extra.value))
    ensures '\n' !in Rewritten(line, name, extra)
  {
    var rest := After(line, '\t');
    if rest.Some? {
      assert forall c :: c in rest.value ==> c in line;
      var first := After(rest.value, '\t');
      if first.Some? { assert forall c :: c in first.value ==> c in rest.value; }
    }
    KeptCellsFit(FirstField(line), name);
    assert forall c :: c in EventId(line) ==> c in line;
    assert forall c :: c in FileName(line) ==> c in line;
    hide EventId, FileName, FirstField, KeptCells, PrintField;
  }

  lemma KeptLineFits(c: Scan, line: string)
    requires CleanIds(c) && '\n' !in line
    ensures KeptLine(c, line).Some? ==> '\n' !in KeptLine(c, line).value
  {
    hide Rewritten, ReadRecord;
    RewrittenFits(line, BOOKED_FIELD, None);
    assert PrintField(Pending(c.h.id)) == "d" + ("=" + c.h.id);
    RewrittenFits(line, PENDEL_FIELD, Some(Pending(c.h.id)));
  }

  lemma {:induction false} PassEndsLine(c: Scan, ls: seq<string>)
    ensures var t := PassLines(c, ls); t == "" || t[|t| - 1] == '\n'
  {
    hide KeptLine;
    if ls != [] { PassEndsLine(c, ls[..|ls| - 1]); }
  }

  /** The text that one pass writes reads back as the rewritten index, if and only if no line it marks has a
      blank booking time that the mark confuses. */
  lemma {:induction false} PassReadsIff(c: Scan, ls: seq<string>)
    requires CleanIds(c) && forall l :: l in ls ==> '\n' !in l
    ensures |ReadIndex(PassLines(c, ls))| == |Rewrite(c, Records(ls))|
    ensures ReadIndex(PassLines(c, ls)) == Rewrite(c, Records(ls)) <==> forall l :: l in ls ==> Calm(c, l)
  {
    if ls == [] {
      NothingRead();
    } else {
      var init, line := ls[..|ls| - 1], ls[|ls| - 1];
      assert ls == init + [line];
      PassReadsIff(c, init);
      PassStep(c, init, line);
      hide *;
    }
  }

  lemma PassStep(c: Scan, init: seq<string>, line: string)
    requires CleanIds(c) && '\n' !in line
    requires |ReadIndex(PassLines(c, init))| == |Rewrite(c, Records(init))|
    ensures var l, r := ReadIndex(PassLines(c, init + [line])), Rewrite(c, Records(init + [line]));
      && |l| == |r| && (l == r <==> ReadIndex(PassLines(c, init)) == Rewrite(c, Records(init)) && Calm(c, line))
  {
    hide KeptLine, Kept, ReadRecord, Calm, CleanIds, ReadIndex, Rewrite;
    assert (init + [line])[..|init|] == init;
    KeptLineReadsIff(c, line);
    KeptLineFits(c, line);
    PassEndsLine(c, init);
    ScanOne(c, Records(init), ReadRecord(line));
    CalmStays(c, line);
    if KeptLine(c, line).Some? {
      ReadOneMore(PassLines(c, init), KeptLine(c, line).value);
      SameWithLast(ReadIndex(PassLines(c, init)), ReadRecord(KeptLine(c, line).value),
        Rewrite(c, Records(init)), Kept(c, ReadRecord(line)).value);
    }
  }

  lemma NothingRead()
    ensures ReadIndex("") == []
  {
  }

  lemma CalmStays(c: Scan, line: string)
    ensures Kept(c, ReadRecord(line)).None? ==> Calm(c, line)
  {
  }

  lemma SameWithLast<T>(a: seq<T>, x: T, b: seq<T>, y: T)
    requires |a| == |b|
    ensures a + [x] == b + [y] <==> a == b && x == y
  {
    assert (a + [x])[..|a|] == a && (b + [y])[..|a|] == b;
    assert (a + [x])[|a|] == x && (b + [y])[|a|] == y;
  }

  // ----- the loop -----

  /** Every line has a tab behind its id; without one there is no id to compare. */
  predicate Readable(text: string) {
    forall l :: l in Lines(text) ==> '\t' in l
  }

  lemma ExistsOneMore(ls: seq<string>, line: string, id: string)
    ensures Exists(Records(ls + [line]), id) <==> Exists(Records(ls), id) || ReadRecord(line).id == id
    ensures Records(ls + [line]) == Records(ls) + [ReadRecord(line)]
  {
    hide ReadRecord;
    assert (ls + [line])[..|ls|] == ls;
    assert ReadRecord(line) in Records(ls + [line]);
  }

  /** How far the lines of a text have been read. */
  ghost predicate ReadUpTo(text: string, ls: seq<string>, at: nat) {
    at <= |text| && Lines(text) == ls + Lines(text[at..])
  }

  lemma ReadStarts(text: string)
    ensures ReadUpTo(text, [], 0) && Records([]) == []
  {
    assert text[0..] == text && [] + Lines(text) == Lines(text);
  }

  lemma ReadGoesOn(text: string, ls: seq<string>, at: nat, line: string, next: nat)
    requires ReadUpTo(text, ls, at) && '\n' in text[at..] && line == Until(text[at..], '\n')
    requires next <= |text| && Some(text[next..]) == After(text[at..], '\n')
    ensures ReadUpTo(text, ls + [line], next) && line in Lines(text)
  {
    assert ls + ([line] + Lines(text[next..])) == (ls + [line]) + Lines(text[next..]);
    assert line in [line] + Lines(text[next..]);
  }

  lemma ReadEnds(text: string, ls: seq<string>, at: nat)
    requires ReadUpTo(text, ls, at) && '\n' !in text[at..]
    ensures ls == Lines(text)
  {
    assert ls + [] == ls;
  }

  /** eventexists */
  method EventExists(text: string, id: string) returns (flag: bool)
    requires Readable(text) && '\t' !in id
    ensures flag <==> Exists(ReadIndex(text), id)
  {
    IndexOfLines(text);
    ReadStarts(text);
    hide Lines, Records, ReadRecord, ReadUpTo, ReadIndex;
    var pi := new LineBuffer();
    var at: nat, ok := 0, true;
    ghost var ls: seq<string> := [];
    flag := false;
    while ok
      invariant at <= |text| && ReadUpTo(text, ls, at) && (flag <==> Exists(Records(ls), id))
      invariant ok || '\n' !in text[at..]
      decreases ok, |text| - at
    {
      var next;
      ok, next := pi.Read(text, at);
      if ok {
        ReadGoesOn(text, ls, at, pi.buffer, next);
        IsEventIdIff(pi.buffer, id);
        RecordId(pi.buffer);
        ExistsOneMore(ls, pi.buffer, id);
        flag := flag || IsEventId(pi.buffer, id);
        ls, at := ls + [pi.buffer], next;
      }
    }
    ReadEnds(text, ls, at);
  }

  lemma RecordId(line: string)
    ensures ReadRecord(line).id == EventId(line) && ReadRecord(line).file == FileName(line)
  {
  }

  lemma PendingIsClean(line: string)
    ensures var p := PendingBy(ReadRecord(line).fields); p.Some? ==> '\t' !in p.value
  {
    FieldsAreClean(FirstField(line));
    PendingIsHeld(ReadRecord(line).fields);
  }

  lemma {:induction false} PendingIsHeld(fs: seq<Field>)
    ensures PendingBy(fs).Some? ==> Pending(PendingBy(fs).value) in fs
  {
    if fs != [] && !fs[0].Pending? { PendingIsHeld(fs[1..]); }
  }

  /** One line of the pass: the text it leaves in the new index, and what is wrong with it. */
  method ScanLine(pi: LineBuffer, text: string, h: Handle, booking: bool, okConflict: bool, times: seq<Interval>)
    returns (out: string, fault: Option<ErrCode>)
    requires Readable(text) && '\t' in pi.buffer && CleanIds(Scan(h, booking, okConflict, times, ReadIndex(text)))
    modifies pi`nextField
    ensures var c := Scan(h, booking, okConflict, times, ReadIndex(text));
      && out == Written(c, pi.buffer) && fault == Fault(c, ReadRecord(pi.buffer))
  {
    hide ReadRecord, Rewritten, ReadIndex, Readable, PendingBy, Times;
    RecordId(pi.buffer);
    IsEventIdIff(pi.buffer, h.id);
    if h.oldId.Some? { IsEventIdIff(pi.buffer, h.oldId.value); }
    out, fault := "", None;
    if h.booked && IsEventId(pi.buffer, h.id) {
      if !booking { out := pi.RemoveField(BOOKED_FIELD, None); }
    } else if h.oldId.Some? && IsEventId(pi.buffer, h.oldId.value) {
      if booking {
        var pendel := pi.PendingFor();
        if pendel.Some? {
          PendingIsClean(pi.buffer);
          if pendel.value != h.id {
            var flag := EventExists(text, pendel.value);
            fault := if flag then Some(EventLocked) else None;
          }
          out := pi.buffer + "\n";
        } else {
          out := pi.RemoveField(PENDEL_FIELD, Some(Pending(h.id)));
        }
      }
    } else {
      out := pi.buffer + "\n";
      if !okConflict && (!h.booked || booking) {
        var cancelled := pi.HasCancelled();
        if !cancelled {
          var conflict := pi.Conflicts(times);
          fault := if conflict then Some(ConflictErr) else None;
        }
      }
    }
  }

  function Written(c: Scan, line: string): string {
    match KeptLine(c, line)
    case None => ""
    case Some(l) => l + "\n"
  }

  lemma PassStarts(c: Scan)
    ensures PassLines(c, []) == "" && !OwnFound(c, []) && !CancelledFound(c, [])
  {
  }

  lemma PassOneMore(c: Scan, ls: seq<string>, line: string)
    ensures PassLines(c, ls + [line]) == PassLines(c, ls) + Written(c, line)
  {
    hide KeptLine;
    assert (ls + [line])[..|ls|] == ls;
    assert PassLines(c, ls) + "" == PassLines(c, ls);
  }

  /** The line loop of docommitevent on the text of the index: what it writes, and the same verdicts as the
      pass over the records. */
  method ScanText(text: string, h: Handle, booking: bool, okConflict: bool, times: seq<Interval>)
    returns (out: string, fault: Option<ErrCode>, deleted: Option<string>, isCancelled: bool, wasBooked: bool)
    requires Readable(text) && CleanIds(Scan(h, booking, okConflict, times, ReadIndex(text)))
    ensures var c := Scan(h, booking, okConflict, times, ReadIndex(text));
      && out == PassLines(c, Lines(text))
      && fault == LastFault(c, c.index)
      && deleted == DeletedFile(c, c.index)
      && (isCancelled <==> CancelledFound(c, c.index))
      && (wasBooked <==> OwnFound(c, c.index))
  {
    ghost var c := Scan(h, booking, okConflict, times, ReadIndex(text));
    IndexOfLines(text);
    ReadStarts(text);
    ScanNone(c);
    PassStarts(c);
    hide Lines, Records, ReadRecord, ReadUpTo, ReadIndex, Fault, LastFault, DeletedFile, Written, Kept, Rewrite,
      CancelledFound, OwnFound, PassLines, FileName, IsCancelled, Until, After;
    var pi := new LineBuffer();
    var at: nat, ok := 0, true;
    ghost var ls: seq<string> := [];
    out, fault, deleted, isCancelled, wasBooked := "", None, None, false, false;
    while ok
      invariant at <= |text| && ReadUpTo(text, ls, at)
      invariant out == PassLines(c, ls) && fault == LastFault(c, Records(ls)) && deleted == DeletedFile(c, Records(ls))
      invariant isCancelled <==> CancelledFound(c, Records(ls))
      invariant wasBooked <==> OwnFound(c, Records(ls))
      invariant ok || '\n' !in text[at..]
      decreases ok, |text| - at
    {
      var next;
      ok, next := pi.Read(text, at);
      if ok {
        ReadGoesOn(text, ls, at, pi.buffer, next);
        ExistsOneMore(ls, pi.buffer, h.id);
        ScanOne(c, Records(ls), ReadRecord(pi.buffer));
        PassOneMore(c, ls, pi.buffer);
        RecordId(pi.buffer);
        IsEventIdIff(pi.buffer, h.id);
        if h.oldId.Some? { IsEventIdIff(pi.buffer, h.oldId.value); }
        var kept, wrong := ScanLine(pi, text, h, booking, okConflict, times);
        out := out + kept;
        fault := if wrong.Some? then wrong else fault;
        if h.booked && IsEventId(pi.buffer, h.id) {
          wasBooked := true;
        } else if h.oldId.Some? && IsEventId(pi.buffer, h.oldId.value) {
          var cancelled := pi.HasCancelled();
          isCancelled := isCancelled || cancelled;
          deleted := Some(FileName(pi.buffer));
        }
        ls, at := ls + [pi.buffer], next;
      }
    }
    ReadEnds(text, ls, at);
  }

  /** The new index that docommitevent writes: the pass, and the line of the new event unless the own booking
      was turned into it. */
  method WriteIndex(text: string, h: Handle, guests: seq<Guest>, booking: bool, req: Request, times: seq<Interval>, now: nat)
    returns (out: string, fault: Option<ErrCode>, good: bool)
    requires h.participants == Invited(guests)
    requires Readable(text) && CleanIds(Scan(h, booking, req.okConflict, times, ReadIndex(text)))
    ensures var c := Scan(h, booking, req.okConflict, times, ReadIndex(text));
      var added := NewRecord(h.id, h.file, h.participants, booking, times, req.byProxy, CancelledFound(c, c.index), now);
      && fault == LastFault(c, c.index)
      && (good <==> (OwnFound(c, c.index) && !booking) || forall f :: f in h.participants ==> GoodAddress(f))
      && (FitsLine(added) ==>
            (ReadIndex(out) == (if OwnFound(c, c.index) && !booking then Rewrite(c, c.index) else Rewrite(c, c.index) + [added])
             <==> forall l :: l in Lines(text) ==> Calm(c, l)))
  {
    ghost var c := Scan(h, booking, req.okConflict, times, ReadIndex(text));
    var deleted, isCancelled, wasBooked;
    out, fault, deleted, isCancelled, wasBooked := ScanText(text, h, booking, req.okConflict, times);
    IndexOfLines(text);
    LinesAreLines(text);
    PassReadsIff(c, Lines(text));
    PassEndsLine(c, Lines(text));
    good := true;
    if !(wasBooked && !booking) {
      ghost var added := NewRecord(h.id, h.file, h.participants, booking, times, req.byProxy, isCancelled, now);
      var line;
      line, good := PrintNew(h.id, h.file, isCancelled, req.byProxy, booking, now, times, guests);
      hide *;
      if FitsLine(added) { NewLineIsRead(out, added); }
      SameWithLast(ReadIndex(out), added, Rewrite(c, c.index), added);
      out := out + line;
    }
  }

  lemma NewLineIsRead(text: string, r: Record)
    requires (text == "" || text[|text| - 1] == '\n') && FitsLine(r)
    ensures ReadIndex(text + (PrintRecord(r) + "\n")) == ReadIndex(text) + [r]
  {
    RecordRoundTripIff(r);
    ReadOneMore(text, PrintRecord(r));
    hide *;
    assert PrintRecord(r) + ['\n'] == PrintRecord(r) + "\n";
  }
}
