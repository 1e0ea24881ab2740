/** Where src/pcp/pcpdir.c promises less than its comments suggest, and exactly when it keeps the promise. */
module CalendarGaps {
  import opened Text
  import opened EventTimes
  import opened CalendarIndex
  import opened CalendarPromises
  import opened CalendarRuns

  // ----- restoring a cancelled event -----

  function Meeting(name: string, start: nat, end: nat, fields: seq<Field>): Record {
    Record(name, name, [Time(Interval(start, end))] + fields)
  }

  lemma MeetingReads(name: string, start: nat, end: nat, fields: seq<Field>)
    requires forall f :: f in fields ==> !f.Time? && !f.BookedAt?
    ensures var m := Meeting(name, start, end, fields);
      Times(m.fields) == [Interval(start, end)] && !IsBooked(m) && (IsCancelled(m) <==> Cancelled in fields)
  {
    ReadsOfOthers(fields);
    TimesOfAppend([Time(Interval(start, end))], fields);
    BookTimeOfAppend([Time(Interval(start, end))], fields);
  }

  lemma OneTimeIsBookable(t: Interval)
    requires t.start <= t.end
    ensures Bookable([t]) && SortedTimes([t]) == Some([t])
  {
    assert Qsort([t]) == Insert(t, []);
  }

  lemma MeetingFits(s: State, name: string, start: nat, end: nat, fields: seq<Field>)
    requires forall f :: f in fields ==> !f.Time? && !f.BookedAt?
    requires s.owner == "" && name in s.files && name !in s.handles && start <= end
    ensures RecordFits(s, Meeting(name, start, end, fields))
  {
    MeetingReads(name, start, end, fields);
    OneTimeIsBookable(Interval(start, end));
  }

  function ThreeMeetings(): State {
    State("", [Meeting("3", 0, 10, [Cancelled]), Meeting("1", 0, 10, []), Meeting("2", 20, 30, [])], {"1", "2", "3"}, map[])
  }

  /** Three meetings that nobody is rebooking: the first cancelled, the others committed. */
  lemma ThreeMeetingsFit()
    ensures WellKept(ThreeMeetings())
  {
    var s := ThreeMeetings();
    hide Meeting, RecordFits;
    MeetingFits(s, "1", 0, 10, []);
    MeetingFits(s, "2", 20, 30, []);
    MeetingFits(s, "3", 0, 10, [Cancelled]);
    MeetingIds();
  }

  lemma MeetingIds()
    ensures Meeting("1", 0, 10, []).id == "1" && Meeting("2", 20, 30, []).id == "2" && Meeting("3", 0, 10, [Cancelled]).id == "3"
  {
  }

  lemma ThreeMeetingsApart()
    ensures NoOverlap(ThreeMeetings())
  {
    hide Meeting, Times, IsCancelled, BookTime;
    MeetingReads("1", 0, 10, []);
    MeetingReads("2", 20, 30, []);
    MeetingReads("3", 0, 10, [Cancelled]);
    var a, b := Meeting("1", 0, 10, []), Meeting("2", 20, 30, []);
    assert !SomeConflict(Times(a.fields), Times(b.fields)) && !SomeConflict(Times(b.fields), Times(a.fields));
  }

  lemma ThreeMeetingsCompared()
    ensures var s := ThreeMeetings();
      && FirstWith(s.index, "3") == s.index[0]
      && SomeVerdict(s.index, "3", [Interval(0, 10)]) && !LastVerdict(s.index, "3", [Interval(0, 10)])
  {
    hide Meeting, Times, BookTime, IsCancelled;
    MeetingReads("1", 0, 10, []);
    MeetingReads("2", 20, 30, []);
    MeetingIds();
    assert Compared(ThreeMeetings().index[1], "3") && Compared(ThreeMeetings().index[2], "3");
    assert Conflict(Interval(0, 10), Interval(0, 10)) && !Conflict(Interval(20, 30), Interval(0, 10));
  }

  lemma ThirdHarmsFirst(s: State, op: Op)
    requires s == ThreeMeetings() && Uncancels(s, op) && op.id == "3"
    ensures !RespectsConflicts(s, op)
  {
    var a, e := s.index[1], s.index[0];
    MeetingReads("1", 0, 10, []);
    MeetingReads("3", 0, 10, [Cancelled]);
    MeetingIds();
    hide Meeting, Times, Uncancels, BookTime, IsCancelled;
    assert Conflict(Interval(0, 10), Interval(0, 10));
    assert a in s.index && e in s.index && Compared(a, "3") && !Harmless(s, e, a);
  }

  lemma ThirdIsRestored(io: Io)
    requires io.lock && io.write && io.moveIndex
    ensures var u := UncancelStep(ThreeMeetings().index, "3", false, io); u.1 && u.2 == ConflictErr
  {
    var s := ThreeMeetings();
    assert s.index[0] == Meeting("3", 0, 10, [Cancelled]);
    ThreeMeetingsCompared();
    MeetingReads("3", 0, 10, [Cancelled]);
    MeetingIds();
    OneTimeIsBookable(Interval(0, 10));
    hide ThreeMeetings, Meeting, Times, RestoreAll, LastVerdict, SomeVerdict, BookTime, IsCancelled, Bookable, FirstWith;
    assert s.index[0] in s.index;
  }

  /** The overwritten result code at work: the conflict with the first event is forgotten once
      the second has been compared, and two committed events end up at the same time. */
  lemma UncancelCanOverlap() returns (s: State, op: Op)
    ensures WellKept(s) && NoOverlap(s) && op.Uncancel? && !op.okConflict && Possible(s, op)
    ensures UncancelStep(s.index, op.id, false, op.io).2 == ConflictErr && Uncancels(s, op)
    ensures !NoOverlap(Next(s, op))
  {
    op := Op.Uncancel("3", false, Io(true, true, true, true));
    s := ThreeMeetings();
    hide ThreeMeetings, UncancelStep, WellKept, NoOverlap, RespectsConflicts, Next;
    ThreeMeetingsFit();
    ThreeMeetingsApart();
    ThirdIsRestored(op.io);
    ThirdHarmsFirst(s, op);
    UncancelNoOverlapIff(s, op);
  }

  // ----- the mark that locks an event against two replacements -----

  /** A handle that wants to replace e and has booked nothing yet. */
  ghost predicate Wants(h: Handle, e: Record) {
    h.pending && !h.booked && h.oldId == Some(e.id) && h.id != e.id
  }

  /** The record that a successful booking by h leaves in place of the event it is to replace. */
  function Marked(h: Handle, e: Record): Record {
    if PendingBy(e.fields).Some? then e else e.(fields := RemoveField(e.fields, PENDEL_FIELD) + [Pending(h.id)])
  }

  lemma MarkedReads(h: Handle, e: Record)
    ensures PendingBy(Marked(h, e).fields) == if PendingBy(e.fields).Some? then PendingBy(e.fields) else Some(h.id)
  {
    RemoveFieldPendingBy(e.fields, PENDEL_FIELD);
    PendingByOfAppend(RemoveField(e.fields, PENDEL_FIELD), [Pending(h.id)]);
  }

  /** A booking changes no ids but adds its own, and marks the event it is to replace. */
  lemma BookingIds(s: State, op: Op)
    requires WellKept(s) && Committing(s, op) && op.booking && !s.handles[op.id].booked
    ensures forall x :: Exists(Next(s, op).index, x) <==> Exists(s.index, x) || x == op.id
    ensures forall e :: e in s.index && s.handles[op.id].oldId == Some(e.id) ==> Marked(s.handles[op.id], e) in Next(s, op).index
  {
    hide CommitStep, Rewrite, LastFault, DeletedFile, NewRecord, PendingBy, RemoveField, Bookable, Times, BookTime;
    CommitEffects(s, op);
    CommitMembers(s, op);
    AddedId(s, op);
    var c := ScanOf(s, op.id, op.booking, op.req);
    forall r | r in s.index
      ensures Kept(c, r).Some? && Kept(c, r).value in Next(s, op).index
    {
    }
    assert Added(s, op) in Next(s, op).index;
  }

  /** After h has booked a replacement for e, the next handle is kept out if and only if e bore no
      mark of an earlier booking: such a mark is never renewed, even when that booking is gone. */
  lemma MarkKeepsOthersOutIff(s: State, op: Op, e: Record, other: Scan)
    requires WellKept(s) && Committing(s, op) && op.booking
    requires e in s.index && Wants(s.handles[op.id], e)
    requires other.booking && other.index == Next(s, op).index
    requires Wants(other.h, e) && other.h.id != op.id
    ensures Marked(s.handles[op.id], e) in Next(s, op).index
    ensures Fault(other, Marked(s.handles[op.id], e)) == Some(EventLocked)
       <==> PendingBy(e.fields) in {None, Some(op.id)}
  {
    hide CommitStep, Rewrite, DeletedFile, PendingBy, RemoveField, Times, BookTime, Bookable;
    CommitEffects(s, op);
    BookingIds(s, op);
    MarkedReads(s.handles[op.id], e);
    assert HandleFits(s, op.id);
    assert Fault(ScanOf(s, op.id, op.booking, op.req), e).None?;
  }

  /** A booking goes through when no line of the index stops it. */
  lemma BookingGoesThrough(s: State, op: Op, t: Interval)
    requires Possible(s, op) && op.Commit? && op.booking && op.io == Io(true, true, true, true)
    requires op.req == Request(false, false, [t]) && t.start <= t.end
    requires var h := s.handles[op.id]; h.pending && !h.booked && h.participants == []
    requires forall r :: r in s.index ==> Fault(Scan(s.handles[op.id], true, false, [t], s.index), r).None?
    ensures Committing(s, op)
  {
    hide Rewrite, DeletedFile, NewRecord, Bookable;
    OneTimeIsBookable(t);
    assert op.req.times != [];
  }

  /** The index after the first booking, when it held only the event to replace. */
  lemma TwoRecordsAfter(s: State, op: Op, e: Record)
    requires WellKept(s) && Committing(s, op) && op.booking && s.index == [e] && Wants(s.handles[op.id], e)
    requires SortedTimes(op.req.times).Some?
    ensures forall r :: r in Next(s, op).index ==>
      r == Marked(s.handles[op.id], e) || (r.id == op.id && Times(r.fields) == SortedTimes(op.req.times).value)
    ensures Next(s, op).handles == s.handles[op.id := Next(s, op).handles[op.id]]
  {
    hide CommitStep, Rewrite, DeletedFile, LastFault, Bookable, RemoveField;
    CommitEffects(s, op);
    CommitMembers(s, op);
    AddedId(s, op);
    var c := ScanOf(s, op.id, op.booking, op.req);
    NewRecordReads(c.h.id, c.h.file, c.h.participants, op.booking, c.times, op.req.byProxy, CancelledFound(c, s.index), op.now);
    assert HandleFits(s, op.id);
  }

  ghost predicate PlainBooking(op: Op, t: Interval) {
    op.Commit? && op.booking && op.io == Io(true, true, true, true) && op.req == Request(false, false, [t]) && t.start <= t.end
  }

  /** With a stale mark on e, a second handle books its replacement right after the first. */
  lemma SecondBookingGoesThrough(s: State, first: Op, second: Op, e: Record, t: Interval, u: Interval)
    requires WellKept(s) && s.index == [e] && PlainBooking(first, t) && PlainBooking(second, u) && !Conflict(t, u)
    requires Committing(s, first) && Possible(s, second) && first.id != second.id
    requires Wants(s.handles[first.id], e) && Wants(s.handles[second.id], e) && s.handles[second.id].participants == []
    requires PendingBy(e.fields).Some? && PendingBy(e.fields).value !in {first.id, e.id}
    ensures Committing(Next(s, first), second)
  {
    hide CommitStep, Rewrite, DeletedFile, LastFault, Bookable, RemoveField, NewRecord, Times, BookTime, PendingBy, Qsort;
    OneTimeIsBookable(t);
    TwoRecordsAfter(s, first, e);
    BookingIds(s, first);
    BookingGoesThrough(Next(s, first), second, u);
  }

  /** One event with a mark that nobody will take away, and two handles that want to replace it. */
  function StaleMark(): State {
    State("", [Meeting("1", 0, 10, [Pending("gone")])], {"1"}, map["2" := Handle("2", "2", Some("1"), [], false, true, []),
                                                                   "3" := Handle("3", "3", Some("1"), [], false, true, [])])
  }

  lemma StaleMarkFits()
    ensures WellKept(StaleMark())
    ensures var e := Meeting("1", 0, 10, [Pending("gone")]); e.id == "1" && PendingBy(e.fields) == Some("gone")
  {
    PendingByOfAppend([Time(Interval(0, 10))], [Pending("gone")]);
    MeetingFits(StaleMark(), "1", 0, 10, [Pending("gone")]);
    hide PendingBy, RecordFits;
  }

  /** A mark left by a booking that is gone: two handles book replacements for the same event. */
  lemma StaleMarkLetsTwoIn() returns (s: State, first: Op, second: Op)
    ensures WellKept(s) && Committing(s, first) && Committing(Next(s, first), second)
    ensures first.booking && second.booking && first.id != second.id
    ensures s.handles[first.id].oldId == s.handles[second.id].oldId == Some("1")
  {
    var ok := Io(true, true, true, true);
    s := StaleMark();
    StaleMarkFits();
    hide CommitStep, Times, BookTime, PendingBy, RecordFits, Meeting, RemoveField, LastFault, WellKept;
    first := Commit("2", true, Request(false, false, [Interval(20, 30)]), 0, ok);
    second := Commit("3", true, Request(false, false, [Interval(40, 50)]), 0, ok);
    BookingGoesThrough(s, first, Interval(20, 30));
    SecondBookingGoesThrough(s, first, second, s.index[0], Interval(20, 30), Interval(40, 50));
  }

  // ----- cleaning up -----

  /** An event that cleaning up has no reason to drop. */
  ghost predicate Live(s: State, op: Op, r: Record)
    requires op.Cleanup?
  {
    if IsBooked(r) then BookTime(r.fields).value >= op.now - BOOKING_LIFETIME
    else !Expired(r.fields, op.now - op.purge)
  }

  ghost predicate CleanupStopsAt(s: State, op: Op, i: nat)
    requires op.Cleanup? && i < |s.index|
  {
    !IsBooked(s.index[i]) && s.index[i].file in op.unreadable
  }

  /** The lines that the pass of cleaning up writes. */
  ghost function SweptBy(s: State, op: Op): seq<Record>
    requires op.Cleanup?
  {
    Swept(Sweep(s.files, op.unreadable, op.now, op.purge), s.index)
  }

  lemma SweptIsLive(s: State, op: Op)
    requires WellKept(s) && op.Cleanup?
    ensures DistinctIds(SweptBy(s, op))
    ensures forall r :: r in SweptBy(s, op) ==> r in s.index && Live(s, op, r)
    ensures (forall r :: r in s.index && Live(s, op, r) ==> r in SweptBy(s, op))
       <==> forall i, j :: 0 <= i <= j < |s.index| && CleanupStopsAt(s, op, i) ==> !Live(s, op, s.index[j])
  {
    var w := Sweep(s.files, op.unreadable, op.now, op.purge);
    SweptDistinct(w, s.index);
    SweptMembers(w, s.index);
    forall i | 0 <= i < |s.index|
      ensures Survives(w, s.index[i]) <==> Live(s, op, s.index[i])
      ensures Stops(w, s.index[i]) <==> CleanupStopsAt(s, op, i)
      ensures s.index[i] in SweptBy(s, op) <==> Live(s, op, s.index[i]) && NoStopUpTo(w, s.index, i)
    {
      assert RecordFits(s, s.index[i]);
      SweptAt(w, s.index, i);
    }
  }

  /** On a calendar reached by any run, a clean-up that installs its new index keeps every live event
      if and only if no live event stands at or after a file it could not examine and every line reached
      the disk. Nothing else is kept. */
  lemma CleanupKeepsLiveIff(s: State, op: Op)
    requires WellKept(s) && op.Cleanup? && op.io.lock && op.io.moveIndex
    ensures forall r :: r in Next(s, op).index ==> r in s.index && Live(s, op, r)
    ensures (forall r :: r in s.index && Live(s, op, r) ==> r in Next(s, op).index)
       <==> && (forall i, j :: 0 <= i <= j < |s.index| && CleanupStopsAt(s, op, i) ==> !Live(s, op, s.index[j]))
            && (op.io.write || |SweptBy(s, op)| <= op.cut)
  {
    SweptIsLive(s, op);
    hide Swept, Live, CleanupStopsAt, WellKept;
    var lines := SweptBy(s, op);
    assert Next(s, op).index == OnDisk(lines, op.cut, op.io);
    if !op.io.write && op.cut < |lines| {
      assert lines[op.cut] in lines && lines[op.cut] !in lines[..op.cut];
    }
  }

  function TwoMeetings(): State {
    State("", [Meeting("1", 0, 10, []), Meeting("2", 20, 30, [])], {"1", "2"}, map[])
  }

  lemma TwoMeetingsFit()
    ensures WellKept(TwoMeetings())
    ensures Meeting("1", 0, 10, []).id == Meeting("1", 0, 10, []).file == "1"
    ensures !IsBooked(Meeting("1", 0, 10, [])) && !IsBooked(Meeting("2", 20, 30, []))
    ensures Times(Meeting("2", 20, 30, []).fields) == [Interval(20, 30)]
  {
    MeetingFits(TwoMeetings(), "1", 0, 10, []);
    MeetingFits(TwoMeetings(), "2", 20, 30, []);
    MeetingReads("1", 0, 10, []);
    MeetingReads("2", 20, 30, []);
    hide Times, BookTime, RecordFits;
  }

  /** The truncated index at work: the file of the first meeting cannot be examined, and the second, whose
      time is still to come, is lost with it. */
  lemma CleanupLosesMeeting() returns (s: State, op: Op, r: Record)
    ensures WellKept(s) && op.Cleanup? && Possible(s, op)
    ensures r in s.index && Live(s, op, r) && r.file !in op.unreadable
    ensures Next(s, op).index == []
  {
    s, r := TwoMeetings(), Meeting("2", 20, 30, []);
    op := Op.Cleanup({"1"}, 0, 5, 0, Io(true, true, true, true));
    TwoMeetingsFit();
    assert s.index[0].file == "1" && s.index[1] == r;
    hide Meeting, Times, BookTime, WellKept;
    assert CleanupStopsAt(s, op, 0);
    assert Stops(Sweep(s.files, op.unreadable, op.now, op.purge), s.index[0]);
  }

  /** A write error at work: the index on disk is empty, and then it takes the place of the old one. */
  lemma CleanupLosesUnwritten() returns (s: State, op: Op)
    ensures WellKept(s) && op.Cleanup? && op.unreadable == {} && Possible(s, op)
    ensures |s.index| == 2 && forall r :: r in s.index ==> Live(s, op, r)
    ensures Next(s, op).index == []
  {
    s, op := TwoMeetings(), Op.Cleanup({}, 0, 5, 0, Io(true, false, true, true));
    TwoMeetingsFit();
    MeetingReads("1", 0, 10, []);
    hide Meeting, Times, BookTime, WellKept;
  }
}
