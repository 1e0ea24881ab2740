/** What each operation of src/pcp/pcpdir.c promises its caller, said of records, fields and moments alone. */
module CalendarPromises {
  import opened Text
  import opened EventTimes
  import opened CalendarIndex
  import opened CalendarRuns

  // ----- what a record says -----

  lemma {:induction false} TimesAre(fs: seq<Field>)
    ensures forall x :: x in Times(fs) <==> Time(x) in fs
  {
    if fs != [] {
      TimesAre(fs[1..]);
      assert fs == [fs[0]] + fs[1..];
    }
  }

  /** The first field that marks the event as about to be replaced. */
  predicate MarkedAt(fs: seq<Field>, i: nat, rival: string) {
    i < |fs| && fs[i] == Pending(rival) && forall k :: 0 <= k < i ==> !fs[k].Pending?
  }

  lemma {:induction false} PendingByIs(fs: seq<Field>)
    ensures forall m :: PendingBy(fs) == Some(m) <==> exists i: nat :: MarkedAt(fs, i, m)
    ensures PendingBy(fs).None? <==> forall f :: f in fs ==> !f.Pending?
  {
    if fs != [] {
      var rest := fs[1..];
      PendingByIs(rest);
      assert fs == [fs[0]] + rest;
      forall m
        ensures PendingBy(fs) == Some(m) <==> exists i: nat :: MarkedAt(fs, i, m)
      {
        if fs[0].Pending? {
          assert MarkedAt(fs, 0, fs[0].rival);
        } else {
          if i: nat :| MarkedAt(rest, i, m) { assert MarkedAt(fs, i + 1, m); }
          if i: nat :| MarkedAt(fs, i, m) { assert MarkedAt(rest, i - 1, m); }
        }
      }
    }
  }

  lemma {:induction false} BookedIs(fs: seq<Field>)
    ensures BookTime(fs).Some? <==> exists f :: f in fs && f.BookedAt?
  {
    if fs != [] {
      BookedIs(fs[1..]);
      assert fs == [fs[0]] + fs[1..];
    }
  }

  /** A record that is not cancelled holds a time that shares a moment with one of the given times. */
  ghost predicate Meets(r: Record, times: seq<Interval>) {
    Cancelled !in r.fields &&
    exists x, y :: Time(x) in r.fields && y in times && x.start < y.end && y.start < x.end
  }

  lemma MeetsIs(r: Record, times: seq<Interval>, others: seq<Interval>)
    requires forall x :: x in times <==> x in others
    ensures Meets(r, times) <==> !IsCancelled(r) && SomeConflict(Times(r.fields), others)
  {
    TimesAre(r.fields);
    if Meets(r, times) {
      var x, y :| Time(x) in r.fields && y in times && x.start < y.end && y.start < x.end;
      assert x in Times(r.fields) && y in others && Conflict(x, y);
    }
    if !IsCancelled(r) && SomeConflict(Times(r.fields), others) {
      var x, y :| x in Times(r.fields) && y in others && Conflict(x, y);
      assert Time(x) in r.fields && y in times;
    }
  }

  // ----- booking and committing -----

  /** The handle's own booking. */
  predicate Mine(h: Handle, r: Record) {
    h.booked && r.id == h.id
  }

  /** The event that the handle is to replace. */
  predicate Theirs(h: Handle, r: Record) {
    h.oldId == Some(r.id) && !(h.booked && r.id == h.id)
  }

  /** r is another event at one of the times asked for, and conflicts are looked at. */
  ghost predicate Hinders(h: Handle, booking: bool, req: Request, r: Record) {
    !Mine(h, r) && !Theirs(h, r) && !req.okConflict && (!h.booked || booking) && Meets(r, req.times)
  }

  /** r is the event to replace, and the booking that has marked it is still there. */
  ghost predicate Locks(index: seq<Record>, h: Handle, booking: bool, r: Record) {
    Theirs(h, r) && booking &&
    exists i: nat, m :: MarkedAt(r.fields, i, m) && m != h.id && exists q :: q in index && q.id == m
  }

  predicate PlainAddress(f: Field) {
    f.Participant? ==> forall i :: 0 <= i < |f.address| ==> f.address[i] > ' '
  }

  /** Whether a booking or commit may go through, as the caller can tell beforehand. */
  ghost predicate MayGoThrough(index: seq<Record>, h: Handle, booking: bool, req: Request) {
    && (h.booked ==> exists r :: r in index && r.id == h.id)
    && (forall r :: r in index ==> !Hinders(h, booking, req, r) && !Locks(index, h, booking, r))
    && (!h.booked || booking ==> forall f :: f in h.participants ==> PlainAddress(f))
  }

  lemma FaultIs(c: Scan, req: Request, r: Record)
    requires c.okConflict == req.okConflict && forall x :: x in c.times <==> x in req.times
    ensures Hinders(c.h, c.booking, req, r) <==> Fault(c, r) == Some(ConflictErr)
    ensures Locks(c.index, c.h, c.booking, r) <==> Fault(c, r) == Some(EventLocked)
    ensures Fault(c, r) in {None, Some(ConflictErr), Some(EventLocked)}
  {
    MeetsIs(r, req.times, c.times);
    PendingByIs(r.fields);
    hide PendingBy, Times, SomeConflict, Meets;
  }

  ghost predicate FaultLast(c: Scan, rs: seq<Record>, i: nat) {
    i < |rs| && Fault(c, rs[i]).Some? && forall k :: i < k < |rs| ==> Fault(c, rs[k]).None?
  }

  lemma {:induction false} LastFaultIs(c: Scan, rs: seq<Record>)
    ensures LastFault(c, rs).Some? ==> exists i: nat :: FaultLast(c, rs, i) && LastFault(c, rs) == Fault(c, rs[i])
  {
    hide Fault;
    if rs != [] {
      var init, last := rs[..|rs| - 1], |rs| - 1;
      if Fault(c, rs[last]).Some? {
        assert FaultLast(c, rs, last);
      } else if LastFault(c, init).Some? {
        LastFaultIs(c, init);
        var i: nat :| FaultLast(c, init, i) && LastFault(c, init) == Fault(c, init[i]);
        assert forall k :: 0 <= k < last ==> init[k] == rs[k];
        assert FaultLast(c, rs, i);
      }
    }
  }

  /** Something in r stands against the booking or commit. */
  ghost predicate Stands(index: seq<Record>, h: Handle, booking: bool, req: Request, r: Record) {
    Hinders(h, booking, req, r) || Locks(index, h, booking, r)
  }

  ghost predicate StandsLast(index: seq<Record>, h: Handle, booking: bool, req: Request, i: nat) {
    && i < |index| && Stands(index, h, booking, req, index[i])
    && forall k :: i < k < |index| ==> !Stands(index, h, booking, req, index[k])
  }

  lemma ScanPassesIff(c: Scan, req: Request)
    requires c.okConflict == req.okConflict && forall x :: x in c.times <==> x in req.times
    ensures ScanPasses(c) <==> MayGoThrough(c.index, c.h, c.booking, req)
    ensures OwnFound(c, c.index) <==> exists r :: r in c.index && Mine(c.h, r)
    ensures LastFault(c, c.index).None? <==> forall r :: r in c.index ==> !Stands(c.index, c.h, c.booking, req, r)
  {
    forall r | r in c.index
      ensures Fault(c, r).None? <==> !Stands(c.index, c.h, c.booking, req, r)
    {
      FaultIs(c, req, r);
    }
    assert forall f :: GoodAddress(f) <==> PlainAddress(f);
    hide Fault, Hinders, Locks, GoodAddress, PlainAddress;
  }

  ghost predicate GoesThrough(index: seq<Record>, h: Handle, booking: bool, req: Request, io: Io) {
    && h.pending && Bookable(req.times)
    && io.lock && io.write && (booking || io.moveEvent) && io.moveIndex
    && MayGoThrough(index, h, booking, req)
  }

  /** A booking or commit succeeds if and only if the handle still has its file, the times are bookable, no
      system call fails, and nothing that the caller can look up in the index stands against it. */
  lemma CommitSucceedsIff(index: seq<Record>, files: set<string>, h: Handle, booking: bool, req: Request, now: nat, io: Io)
    ensures CommitStep(index, files, h, booking, req, now, io).ok <==> GoesThrough(index, h, booking, req, io)
  {
    BookableIsNotEmpty(req.times);
    if h.pending && Bookable(req.times) && io.lock {
      var c := Scan(h, booking, req.okConflict, SortedTimes(req.times).value, index);
      SortedConflicts(req.times);
      ScanPassesIff(c, req);
      hide ScanPasses, Hinders, Locks, Stands, Rewrite, LastFault, DeletedFile, NewRecord, Bookable, SortedTimes;
    }
  }

  lemma LastFaultStands(c: Scan, req: Request)
    requires c.okConflict == req.okConflict && forall x :: x in c.times <==> x in req.times
    requires LastFault(c, c.index).Some?
    ensures exists i: nat ::
      StandsLast(c.index, c.h, c.booking, req, i)
      && LastFault(c, c.index).value == if Theirs(c.h, c.index[i]) then EventLocked else ConflictErr
  {
    LastFaultIs(c, c.index);
    forall r | r in c.index
      ensures Fault(c, r).None? <==> !Stands(c.index, c.h, c.booking, req, r)
      ensures Fault(c, r).Some? ==> Fault(c, r) == Some(if Theirs(c.h, r) then EventLocked else ConflictErr)
    {
      FaultIs(c, req, r);
    }
    hide Fault, LastFault, Stands, Theirs;
    var i: nat :| FaultLast(c, c.index, i) && LastFault(c, c.index) == Fault(c, c.index[i]);
    assert StandsLast(c.index, c.h, c.booking, req, i);
  }

  /** The error code of a booking or commit that fails: of all records that stand against it, the last decides. */
  lemma CommitErrorIs(index: seq<Record>, files: set<string>, h: Handle, booking: bool, req: Request, now: nat, io: Io)
    requires !CommitStep(index, files, h, booking, req, now, io).ok
    ensures var err := CommitStep(index, files, h, booking, req, now, io).err;
      if !h.pending then err == EventNotFound
      else if req.times == [] then err == ConflictErr
      else if !Bookable(req.times) then err == SysErr
      else if !io.lock then err == LockErr
      else if h.booked && forall r :: r in index ==> r.id != h.id then err == EventNotFound
      else if forall r :: r in index ==> !Stands(index, h, booking, req, r) then err == SysErr
      else exists i: nat :: StandsLast(index, h, booking, req, i) && err == if Theirs(h, index[i]) then EventLocked else ConflictErr
  {
    BookableIsNotEmpty(req.times);
    if h.pending && Bookable(req.times) && io.lock {
      var c := Scan(h, booking, req.okConflict, SortedTimes(req.times).value, index);
      SortedConflicts(req.times);
      ScanPassesIff(c, req);
      if LastFault(c, index).Some? { LastFaultStands(c, req); }
      hide ScanPasses, StandsLast, Stands, Rewrite, LastFault, DeletedFile, NewRecord, Bookable, SortedTimes, Theirs,
        MayGoThrough;
    }
  }

  // ----- what a booking or commit leaves -----

  predicate Drops(h: Handle, booking: bool, r: Record) {
    (Mine(h, r) && booking) || (Theirs(h, r) && !booking)
  }

  /** The same fields less the booking times. */
  function Unbooked(fs: seq<Field>): seq<Field> {
    if fs == [] then [] else (if fs[0].BookedAt? then [] else [fs[0]]) + Unbooked(fs[1..])
  }

  /** The same fields less the cancellation. */
  function Uncancelled(fs: seq<Field>): seq<Field> {
    if fs == [] then [] else (if fs[0] == Cancelled then [] else [fs[0]]) + Uncancelled(fs[1..])
  }

  /** The participants among the fields. */
  function Guests(fs: seq<Field>): seq<Field> {
    if fs == [] then [] else (if fs[0].Participant? then [fs[0]] else []) + Guests(fs[1..])
  }

  /** x stands in the new index in place of r: a commit takes the booking off its own record, and a booking
      leaves a mark on the event it is to replace, unless there is one. */
  ghost predicate Leaves(h: Handle, booking: bool, r: Record, x: Record) {
    if Mine(h, r) then x == r.(fields := Unbooked(r.fields))
    else if Theirs(h, r) && forall f :: f in r.fields ==> !f.Pending? then x == r.(fields := r.fields + [Pending(h.id)])
    else x == r
  }

  /** Record by record, in the same order. */
  ghost predicate LeavesAll(h: Handle, booking: bool, rs: seq<Record>, xs: seq<Record>) {
    if rs == [] then xs == []
    else
      var init, last := rs[..|rs| - 1], rs[|rs| - 1];
      if Drops(h, booking, last) then LeavesAll(h, booking, init, xs)
      else xs != [] && Leaves(h, booking, last, xs[|xs| - 1]) && LeavesAll(h, booking, init, xs[..|xs| - 1])
  }

  lemma {:induction false} UnbookedIs(fs: seq<Field>)
    ensures RemoveField(fs, BOOKED_FIELD) == Unbooked(fs)
  {
    if fs != [] {
      UnbookedIs(fs[1..]);
      assert [] + Unbooked(fs[1..]) == Unbooked(fs[1..]);
    }
  }

  lemma {:induction false} UncancelledIs(fs: seq<Field>)
    ensures RemoveField(fs, CANCELLED_FIELD) == Uncancelled(fs)
  {
    if fs != [] {
      UncancelledIs(fs[1..]);
      assert [] + Uncancelled(fs[1..]) == Uncancelled(fs[1..]);
    }
  }

  lemma {:induction false} UnmarkedIs(fs: seq<Field>)
    ensures PendingBy(fs).None? <==> forall f :: f in fs ==> !f.Pending?
    ensures PendingBy(fs).None? ==> RemoveField(fs, PENDEL_FIELD) == fs
  {
    if fs != [] {
      UnmarkedIs(fs[1..]);
      assert fs == [fs[0]] + fs[1..];
    }
  }

  lemma KeptLeaves(c: Scan, r: Record)
    ensures Kept(c, r).None? <==> Drops(c.h, c.booking, r)
    ensures Kept(c, r).Some? ==> Leaves(c.h, c.booking, r, Kept(c, r).value)
  {
    hide RemoveField, PendingBy, Unbooked, Times, BookTime, IsCancelled, IsBooked;
    UnbookedIs(r.fields);
    UnmarkedIs(r.fields);
  }

  lemma {:induction false} RewriteLeaves(c: Scan, rs: seq<Record>)
    ensures LeavesAll(c.h, c.booking, rs, Rewrite(c, rs))
  {
    if rs != [] {
      var init, last := rs[..|rs| - 1], rs[|rs| - 1];
      RewriteLeaves(c, init);
      KeptLeaves(c, last);
      hide Kept, Leaves, Drops;
      if Kept(c, last).Some? {
        assert Rewrite(c, rs)[..|Rewrite(c, rs)| - 1] == Rewrite(c, init);
      } else {
        assert Rewrite(c, rs) == Rewrite(c, init);
      }
    }
  }

  /** The marks and participants among the fields of a new record. */
  ghost predicate NewFields(fs: seq<Field>, h: Handle, cancelled: bool, byProxy: bool, booking: bool, now: nat) {
    && (Cancelled in fs <==> cancelled) && (Proxy in fs <==> byProxy)
    && (forall t :: BookedAt(t) in fs <==> booking && t == now)
    && (forall f :: f in fs ==> !f.Pending?)
    && Guests(fs) == h.participants
  }

  ghost predicate CancelledThere(index: seq<Record>, h: Handle) {
    exists r :: r in index && Theirs(h, r) && Cancelled in r.fields
  }

  /** The record of a new event. It is cancelled if the event that it replaces is. */
  ghost predicate IsNew(index: seq<Record>, h: Handle, booking: bool, req: Request, now: nat, n: Record) {
    && n.id == h.id && n.file == h.file
    && Sorted(Times(n.fields)) && multiset(Times(n.fields)) == multiset(req.times)
    && NewFields(n.fields, h, CancelledThere(index, h), req.byProxy, booking, now)
  }

  lemma {:induction false} TimeFieldsAre(times: seq<Interval>)
    ensures forall f :: f in TimeFields(times) <==> f.Time? && f.span in times
  {
    if times != [] {
      TimeFieldsAre(times[1..]);
      assert times == [times[0]] + times[1..];
    }
  }

  lemma MarksAre(cancelled: bool, byProxy: bool, booking: bool, now: nat)
    ensures forall f :: f in Marks(cancelled, byProxy, booking, now) <==>
      (f == Cancelled && cancelled) || (f == Proxy && byProxy) || (f == BookedAt(now) && booking)
  {
  }

  lemma {:induction false} GuestsOfAppend(fs: seq<Field>, gs: seq<Field>)
    ensures Guests(fs + gs) == Guests(fs) + Guests(gs)
  {
    if fs == [] {
      assert fs + gs == gs;
    } else {
      GuestsOfAppend(fs[1..], gs);
      assert (fs + gs)[1..] == fs[1..] + gs && (fs + gs)[0] == fs[0];
      var head := if fs[0].Participant? then [fs[0]] else [];
      assert head + (Guests(fs[1..]) + Guests(gs)) == head + Guests(fs[1..]) + Guests(gs);
    }
  }

  lemma {:induction false} GuestsOnly(fs: seq<Field>)
    ensures OnlyParticipants(fs) ==> Guests(fs) == fs
    ensures (forall f :: f in fs ==> !f.Participant?) ==> Guests(fs) == []
  {
    if fs != [] {
      GuestsOnly(fs[1..]);
      assert fs == [fs[0]] + fs[1..];
    }
  }

  lemma NewRecordFields(h: Handle, booking: bool, times: seq<Interval>, byProxy: bool, cancelled: bool, now: nat)
    requires OnlyParticipants(h.participants)
    ensures NewFields(NewRecord(h.id, h.file, h.participants, booking, times, byProxy, cancelled, now).fields,
      h, cancelled, byProxy, booking, now)
  {
    var marks, ts := Marks(cancelled, byProxy, booking, now), TimeFields(times);
    TimeFieldsAre(times);
    MarksAre(cancelled, byProxy, booking, now);
    hide Marks, TimeFields, Guests;
    GuestsOfAppend(marks + ts, h.participants);
    GuestsOnly(marks + ts);
    GuestsOnly(h.participants);
  }

  lemma NewRecordIsNew(c: Scan, req: Request, now: nat)
    requires OnlyParticipants(c.h.participants) && Sorted(c.times) && multiset(c.times) == multiset(req.times)
    ensures IsNew(c.index, c.h, c.booking, req, now,
      NewRecord(c.h.id, c.h.file, c.h.participants, c.booking, c.times, req.byProxy, CancelledFound(c, c.index), now))
  {
    var cancelled := CancelledFound(c, c.index);
    NewRecordReads(c.h.id, c.h.file, c.h.participants, c.booking, c.times, req.byProxy, cancelled, now);
    NewRecordFields(c.h, c.booking, c.times, req.byProxy, cancelled, now);
    assert cancelled == CancelledThere(c.index, c.h);
    hide NewRecord, Times, BookTime, IsBooked, IsCancelled, OnlyParticipants, Sorted, NewFields, CancelledFound, CancelledThere;
  }

  lemma DroppedFileIs(c: Scan, f: string)
    requires DistinctIds(c.index)
    ensures DeletedFile(c, c.index) != Some(f) <==> forall r :: r in c.index && Theirs(c.h, r) ==> r.file != f
  {
    hide DeletedFile;
  }

  lemma CommitParts(index: seq<Record>, files: set<string>, h: Handle, booking: bool, req: Request, now: nat, io: Io)
    requires CommitStep(index, files, h, booking, req, now, io).ok
    ensures Bookable(req.times)
    ensures var o := CommitStep(index, files, h, booking, req, now, io);
      var c := Scan(h, booking, req.okConflict, Qsort(req.times), index);
      && o.index == (if h.booked && !booking then Rewrite(c, index)
                     else Rewrite(c, index) + [NewRecord(h.id, h.file, h.participants, booking, c.times, req.byProxy,
                                                         CancelledFound(c, index), now)])
      && o.handle.(times := h.times) == h.(booked := booking, pending := booking)
      && o.files == (if booking then files
                     else files + {h.file} - (if DeletedFile(c, index).Some? then {DeletedFile(c, index).value} else {}))
  {
    hide Rewrite, LastFault, NewRecord, Bookable, Qsort, GoodAddress, DeletedFile;
  }

  /** The records that stay, and the new one behind them. */
  ghost predicate EndsNew(index: seq<Record>, h: Handle, booking: bool, req: Request, now: nat, index': seq<Record>) {
    && index' != [] && LeavesAll(h, booking, index, index'[..|index'| - 1])
    && IsNew(index, h, booking, req, now, index'[|index'| - 1])
  }

  lemma EndsNewIs(index: seq<Record>, h: Handle, booking: bool, req: Request, now: nat, kept: seq<Record>, n: Record)
    requires LeavesAll(h, booking, index, kept) && IsNew(index, h, booking, req, now, n)
    ensures EndsNew(index, h, booking, req, now, kept + [n])
  {
    hide LeavesAll, IsNew;
    assert (kept + [n])[..|kept|] == kept;
  }

  lemma IndexLeaves(c: Scan, req: Request, now: nat)
    requires OnlyParticipants(c.h.participants) && Sorted(c.times) && multiset(c.times) == multiset(req.times)
    ensures LeavesAll(c.h, c.booking, c.index, Rewrite(c, c.index))
    ensures EndsNew(c.index, c.h, c.booking, req, now, Rewrite(c, c.index) +
      [NewRecord(c.h.id, c.h.file, c.h.participants, c.booking, c.times, req.byProxy, CancelledFound(c, c.index), now)])
  {
    RewriteLeaves(c, c.index);
    NewRecordIsNew(c, req, now);
    hide *;
    var n := NewRecord(c.h.id, c.h.file, c.h.participants, c.booking, c.times, req.byProxy, CancelledFound(c, c.index), now);
    EndsNewIs(c.index, c.h, c.booking, req, now, Rewrite(c, c.index), n);
  }

  /** What a successful booking or commit leaves: every record that it does not drop, in place of its own or
      marked as the case may be, and behind them the new record, unless it commits a booking. */
  lemma CommitLeaves(index: seq<Record>, files: set<string>, h: Handle, booking: bool, req: Request, now: nat, io: Io)
    requires OnlyParticipants(h.participants) && CommitStep(index, files, h, booking, req, now, io).ok
    ensures var o := CommitStep(index, files, h, booking, req, now, io);
      && (h.booked && !booking ==> LeavesAll(h, booking, index, o.index))
      && (!h.booked || booking ==> EndsNew(index, h, booking, req, now, o.index))
      && o.handle.(times := h.times) == h.(booked := booking, pending := booking)
      && (booking ==> o.files == files)
      && (!booking && DistinctIds(index) ==> forall f :: f in o.files <==>
            (f in files || f == h.file) && forall r :: r in index && Theirs(h, r) ==> r.file != f)
  {
    hide CommitStep, Rewrite, DeletedFile, NewRecord, EndsNew, LeavesAll, Bookable, OnlyParticipants, DistinctIds, Theirs,
      CancelledFound, Sorted;
    var c := Scan(h, booking, req.okConflict, Qsort(req.times), index);
    CommitParts(index, files, h, booking, req, now, io);
    IndexLeaves(c, req, now);
    hide Qsort;
    if !booking && DistinctIds(index) {
      var o := CommitStep(index, files, h, booking, req, now, io);
      forall f
        ensures f in o.files <==> (f in files || f == h.file) && forall r :: r in index && Theirs(h, r) ==> r.file != f
      {
        DroppedFileIs(c, f);
      }
    }
  }

  /** What a booking or commit that fails leaves: the index as it was. */
  lemma FailureLeaves(index: seq<Record>, files: set<string>, h: Handle, booking: bool, req: Request, now: nat, io: Io)
    requires !CommitStep(index, files, h, booking, req, now, io).ok
    ensures var o := CommitStep(index, files, h, booking, req, now, io);
      var passed := h.pending && Bookable(req.times) && io.lock;
      && o.index == index
      && o.files == (if passed && MayGoThrough(index, h, booking, req) && io.write && !booking && io.moveEvent
                     then files + {h.file} else files)
      && o.handle == (if passed && h.booked && forall r :: r in index ==> r.id != h.id then h.(booked := false) else h)
  {
    BookableIsNotEmpty(req.times);
    if h.pending && Bookable(req.times) && io.lock {
      var c := Scan(h, booking, req.okConflict, SortedTimes(req.times).value, index);
      SortedConflicts(req.times);
      ScanPassesIff(c, req);
      hide ScanPasses, Hinders, Locks, Stands, Rewrite, LastFault, DeletedFile, NewRecord, Bookable, SortedTimes;
    }
  }

  // ----- cancelling, restoring and deleting -----

  /** Cancelling succeeds exactly when there is the event and no system call fails; then it adds the
      cancellation to every record of that event that has none, and touches no other. */
  lemma CancelIs(index: seq<Record>, id: string, io: Io)
    ensures var (index', ok, err) := CancelStep(index, id, io);
      && (ok <==> io.lock && io.write && io.moveIndex && exists r :: r in index && r.id == id)
      && (!ok ==> index' == index && (err == EventNotFound <==> io.lock && forall r :: r in index ==> r.id != id))
      && (!ok ==> err in {EventNotFound, SysErr})
      && (ok ==> |index'| == |index| && forall i :: 0 <= i < |index| ==>
            index'[i] == if index[i].id == id && Cancelled !in index[i].fields
                         then index[i].(fields := index[i].fields + [Cancelled]) else index[i])
  {
    CancelAllMembers(index, id);
    hide CancelAll;
  }

  /** The last event that an uncancelled one is compared with. */
  ghost predicate ComparedLast(index: seq<Record>, id: string, i: nat) {
    && i < |index| && index[i].id != id && Cancelled !in index[i].fields
    && forall k :: i < k < |index| ==> index[k].id == id || Cancelled in index[k].fields
  }

  lemma {:induction false} LastVerdictIs(index: seq<Record>, id: string, times: seq<Interval>)
    ensures LastVerdict(index, id, times) <==> exists i: nat :: ComparedLast(index, id, i) && Meets(index[i], times)
  {
    if index != [] {
      var init, last := index[..|index| - 1], index[|index| - 1];
      LastVerdictIs(init, id, times);
      MeetsIs(last, times, times);
      hide Meets, SomeConflict, Times;
      if Compared(last, id) {
        assert ComparedLast(index, id, |index| - 1);
        assert forall i: nat :: ComparedLast(index, id, i) ==> i == |index| - 1;
      } else {
        assert forall i: nat :: i < |init| ==> init[i] == index[i];
        assert forall i: nat :: ComparedLast(index, id, i) <==> ComparedLast(init, id, i);
      }
    }
  }

  /** The first record with the id. */
  ghost predicate FirstAt(index: seq<Record>, id: string, i: nat) {
    i < |index| && index[i].id == id && forall k :: 0 <= k < i ==> index[k].id != id
  }

  lemma {:induction false} FirstWithIs(index: seq<Record>, id: string)
    requires Exists(index, id)
    ensures exists i: nat :: FirstAt(index, id, i) && FirstWith(index, id) == index[i]
  {
    if index[0].id == id {
      assert FirstAt(index, id, 0);
    } else {
      var rest := index[1..];
      assert index == [index[0]] + rest;
      FirstWithIs(rest, id);
      var i: nat :| FirstAt(rest, id, i) && FirstWith(rest, id) == rest[i];
      forall k | 0 <= k < i + 1 ensures index[k].id != id { assert k > 0 ==> rest[k - 1] == index[k]; }
      assert FirstAt(index, id, i + 1);
    }
  }

  /** The event could come back with the times of r. */
  ghost predicate FitsAgain(index: seq<Record>, id: string, okConflict: bool, r: Record) {
    && (Times(r.fields) == [] || Bookable(Times(r.fields)))
    && (okConflict || forall i: nat :: ComparedLast(index, id, i) ==> !Meets(index[i], Times(r.fields)))
  }

  ghost predicate Restorable(index: seq<Record>, id: string, okConflict: bool) {
    exists i: nat :: FirstAt(index, id, i) && FitsAgain(index, id, okConflict, index[i])
  }

  lemma {:induction false} NothingToRestore(fs: seq<Field>)
    requires Cancelled !in fs
    ensures Uncancelled(fs) == fs
  {
    if fs != [] { NothingToRestore(fs[1..]); }
  }

  lemma RestoreAllIs(index: seq<Record>, id: string)
    ensures var index' := RestoreAll(index, id);
      && |index'| == |index|
      && forall i :: 0 <= i < |index| ==>
           index'[i] == if index[i].id == id then index[i].(fields := Uncancelled(index[i].fields)) else index[i]
  {
    RestoreAllMembers(index, id);
    hide RestoreAll, RemoveField, Uncancelled;
    forall i | 0 <= i < |index| && index[i].id == id
      ensures RestoreOne(index[i], id) == index[i].(fields := Uncancelled(index[i].fields))
    {
      UncancelledIs(index[i].fields);
      if Cancelled !in index[i].fields { NothingToRestore(index[i].fields); }
    }
  }

  /** Some other event that is not cancelled shares a moment with the times that the event would come back with. */
  ghost predicate MetAgain(index: seq<Record>, id: string) {
    exists i: nat, r ::
      FirstAt(index, id, i) && (Times(index[i].fields) == [] || Bookable(Times(index[i].fields)))
      && r in index && r.id != id && Meets(r, Times(index[i].fields))
  }

  lemma SomeVerdictIs(index: seq<Record>, id: string, times: seq<Interval>)
    ensures SomeVerdict(index, id, times) <==> exists r :: r in index && r.id != id && Meets(r, times)
  {
    forall r: Record
      ensures Meets(r, times) <==> !IsCancelled(r) && SomeConflict(Times(r.fields), times)
    {
      MeetsIs(r, times, times);
    }
    hide Meets, SomeConflict, Times;
  }

  /** The error code of a restoring that fails tells of any conflict met. */
  lemma UncancelErrorIs(index: seq<Record>, id: string, okConflict: bool, io: Io)
    ensures var err := UncancelStep(index, id, okConflict, io).2;
      && (err == EventNotFound <==> io.lock && forall r :: r in index ==> r.id != id)
      && (err == ConflictErr <==> io.lock && !okConflict && MetAgain(index, id))
      && err in {SysErr, EventNotFound, ConflictErr}
  {
    if Exists(index, id) {
      FirstWithIs(index, id);
      var at: nat :| FirstAt(index, id, at) && FirstWith(index, id) == index[at];
      assert forall i: nat :: FirstAt(index, id, i) ==> i == at;
      SomeVerdictIs(index, id, Times(index[at].fields));
    }
    hide RestoreAll, LastVerdict, SomeVerdict, FirstWith, Meets, Bookable, Times;
  }

  /** Restoring succeeds exactly when the first record of the event has times that may be booked, the last other
      event that is not cancelled shares no moment with them or conflicts are allowed, and no system call
      fails; then it takes every cancellation off that event's records, and touches no other. */
  lemma UncancelIs(index: seq<Record>, id: string, okConflict: bool, io: Io)
    ensures var (index', ok, err) := UncancelStep(index, id, okConflict, io);
      && (ok <==> io.lock && io.write && io.moveIndex && Restorable(index, id, okConflict))
      && (!ok ==> index' == index)
      && (ok ==> |index'| == |index| && forall i :: 0 <= i < |index| ==>
            index'[i] == if index[i].id == id then index[i].(fields := Uncancelled(index[i].fields)) else index[i])
  {
    RestoreAllIs(index, id);
    if Exists(index, id) {
      FirstWithIs(index, id);
      var at: nat :| FirstAt(index, id, at) && FirstWith(index, id) == index[at];
      assert forall i: nat :: FirstAt(index, id, i) ==> i == at;
      LastVerdictIs(index, id, Times(index[at].fields));
    }
    hide RestoreAll, LastVerdict, SomeVerdict, FirstWith, Meets, Bookable, Times, ComparedLast, Uncancelled;
  }

  /** xs are some of rs, in the same order. */
  predicate Among(xs: seq<Record>, rs: seq<Record>) {
    xs == [] || (rs != [] && Among(if xs[0] == rs[0] then xs[1..] else xs, rs[1..]))
  }

  lemma {:induction false} DeleteAllFront(rs: seq<Record>, id: string)
    requires rs != []
    ensures DeleteAll(rs, id) == (if rs[0].id == id then [] else [rs[0]]) + DeleteAll(rs[1..], id)
  {
    if |rs| > 1 {
      var init := rs[..|rs| - 1];
      DeleteAllFront(init, id);
      assert init[1..] == rs[1..][..|rs| - 2] && rs[1..][|rs| - 2] == rs[|rs| - 1] && init[0] == rs[0];
      var head, middle := if rs[0].id == id then [] else [rs[0]], DeleteAll(init[1..], id);
      var tail := if rs[|rs| - 1].id == id then [] else [rs[|rs| - 1]];
      assert head + middle + tail == head + (middle + tail);
    }
  }

  lemma {:induction false} DeleteAllKeepsOrder(rs: seq<Record>, id: string)
    ensures forall x :: x in DeleteAll(rs, id) <==> x in rs && x.id != id
    ensures Among(DeleteAll(rs, id), rs)
  {
    if rs != [] {
      DeleteAllFront(rs, id);
      DeleteAllKeepsOrder(rs[1..], id);
      assert rs == [rs[0]] + rs[1..];
      var rest := DeleteAll(rs[1..], id);
      if rs[0].id == id {
        assert [] + rest == rest && forall x :: x in rest ==> x != rs[0];
      } else {
        assert ([rs[0]] + rest)[1..] == rest;
      }
    }
  }

  /** Deleting succeeds exactly when there is the event and no system call fails; then its records and its
      event file are gone, and every other record and file is still there. */
  lemma DeleteIs(index: seq<Record>, files: set<string>, id: string, io: Io)
    ensures var (index', files', ok, err) := DeleteStep(index, files, id, io);
      && (ok <==> io.lock && io.write && io.moveIndex && exists r :: r in index && r.id == id)
      && (!ok ==> index' == index && files' == files)
      && (!ok ==> err == if io.lock && forall r :: r in index ==> r.id != id then EventNotFound else SysErr)
      && (ok ==> Among(index', index) && forall r :: r in index' <==> r in index && r.id != id)
      && (ok && DistinctIds(index) ==>
            forall f :: f in files' <==> f in files && forall r :: r in index && r.id == id ==> r.file != f)
  {
    DeleteAllKeepsOrder(index, id);
    hide DeleteAll, FileOf, Among;
  }

  // ----- cleaning up -----

  /** The first booking time of the fields. */
  predicate BookedFirst(fs: seq<Field>, i: nat, when: nat) {
    i < |fs| && fs[i] == BookedAt(when) && forall k :: 0 <= k < i ==> !fs[k].BookedAt?
  }

  lemma {:induction false} BookTimeIs(fs: seq<Field>)
    ensures BookTime(fs).None? <==> forall f :: f in fs ==> !f.BookedAt?
    ensures BookTime(fs).Some? ==> exists i: nat :: BookedFirst(fs, i, BookTime(fs).value)
  {
    if fs != [] {
      var rest := fs[1..];
      BookTimeIs(rest);
      assert fs == [fs[0]] + rest;
      if fs[0].BookedAt? {
        assert BookedFirst(fs, 0, fs[0].when);
      } else if BookTime(rest).Some? {
        var i: nat :| BookedFirst(rest, i, BookTime(rest).value);
        assert BookedFirst(fs, i + 1, BookTime(rest).value);
      }
    }
  }

  /** A booking is worth keeping for an hour, a committed event while its file is there and one of its times
      ends after the moment from which on events are kept. */
  ghost predicate WorthKeeping(w: Sweep, r: Record) {
    if exists f :: f in r.fields && f.BookedAt? then
      exists i: nat, when: nat :: BookedFirst(r.fields, i, when) && w.now <= when + 3600
    else r.file in w.files && exists t :: Time(t) in r.fields && t.end > w.now - w.purge
  }

  /** Cleaning up cannot tell whether the event is still there. */
  ghost predicate Unknown(w: Sweep, r: Record) {
    r.file in w.unreadable && forall f :: f in r.fields ==> !f.BookedAt?
  }

  lemma SurvivesIs(w: Sweep, r: Record)
    ensures Survives(w, r) <==> WorthKeeping(w, r)
    ensures Stops(w, r) <==> Unknown(w, r)
  {
    BookTimeIs(r.fields);
    TimesAre(r.fields);
    hide BookTime, Times;
    assert forall i: nat, j: nat, t: nat, u: nat :: BookedFirst(r.fields, i, t) && BookedFirst(r.fields, j, u) ==> i == j;
  }

  ghost predicate NoStopUpTo(w: Sweep, rs: seq<Record>, n: nat) {
    forall k :: 0 <= k <= n && k < |rs| ==> !Stops(w, rs[k])
  }

  lemma {:induction false} SweptAt(w: Sweep, rs: seq<Record>, n: nat)
    requires DistinctIds(rs) && n < |rs|
    ensures rs[n] in Swept(w, rs) <==> Survives(w, rs[n]) && NoStopUpTo(w, rs, n)
  {
    SweptMembers(w, rs[1..]);
    if n > 0 {
      SweptAt(w, rs[1..], n - 1);
      assert NoStopUpTo(w, rs, n) <==> !Stops(w, rs[0]) && NoStopUpTo(w, rs[1..], n - 1) by {
        assert forall k :: 1 <= k < |rs| ==> rs[k] == rs[1..][k - 1];
        assert forall k :: 0 <= k < |rs[1..]| ==> rs[1..][k] == rs[k + 1];
      }
    }
  }

  lemma {:induction false} SweptAmong(w: Sweep, rs: seq<Record>)
    requires DistinctIds(rs)
    ensures Among(Swept(w, rs), rs)
  {
    if rs != [] {
      SweptAmong(w, rs[1..]);
      SweptMembers(w, rs[1..]);
      var rest := Swept(w, rs[1..]);
      assert forall x :: x in rest ==> x.id != rs[0].id;
      assert [] + rest == rest && ([rs[0]] + rest)[1..] == rest;
    }
  }

  lemma {:induction false} AmongPrefix(xs: seq<Record>, n: nat, rs: seq<Record>)
    requires Among(xs, rs) && n <= |xs|
    ensures Among(xs[..n], rs)
  {
    if n > 0 {
      if xs[0] == rs[0] {
        AmongPrefix(xs[1..], n - 1, rs[1..]);
        assert xs[..n][1..] == xs[1..][..n - 1];
      } else {
        AmongPrefix(xs, n, rs[1..]);
      }
    }
  }

  /** Cleaning up installs an index, unless a system call fails, that holds in their order exactly the records
      worth keeping up to the first that it knows nothing of, as far as they could be written. Only if none was
      unknown and all were written it succeeds, and leaves the event files of the records kept and no others. */
  lemma CleanupIs(index: seq<Record>, w: Sweep, cut: nat, io: Io)
    requires DistinctIds(index)
    ensures var (index', files', ok) := CleanupStep(index, w, cut, io);
      var full := CleanupStep(index, w, cut, io.(write := true)).0;
      && (ok <==> io.lock && io.moveIndex && io.write && forall r :: r in index ==> !Unknown(w, r))
      && (!io.lock || !io.moveIndex ==> index' == index)
      && (io.lock && io.moveIndex ==> Among(index', index))
      && (io.lock && io.moveIndex ==> index' == if io.write || |full| <= cut then full else full[..cut])
      && (io.lock && io.moveIndex && (io.write || |index| <= cut) ==> forall n :: 0 <= n < |index| ==>
            (index[n] in index' <==> WorthKeeping(w, index[n]) && forall k :: 0 <= k <= n ==> !Unknown(w, index[k])))
      && (!ok ==> files' == w.files)
      && (ok ==> forall f :: f in files' <==> f in w.files && exists r :: r in index' && r.file == f)
  {
    var swept := Swept(w, index);
    SweptAmong(w, index);
    SweptIsShorter(w, index);
    if cut < |swept| { AmongPrefix(swept, cut, index); }
    forall r | r in index
      ensures (Survives(w, r) <==> WorthKeeping(w, r)) && (Stops(w, r) <==> Unknown(w, r))
    {
      SurvivesIs(w, r);
    }
    forall n | 0 <= n < |index|
      ensures index[n] in swept <==> WorthKeeping(w, index[n]) && forall k :: 0 <= k <= n ==> !Unknown(w, index[k])
    {
      SweptAt(w, index, n);
    }
    hide Swept, Survives, Stops, WorthKeeping, Unknown, DistinctIds, Among;
  }

  lemma {:induction false} SweptIsShorter(w: Sweep, rs: seq<Record>)
    ensures |Swept(w, rs)| <= |rs|
  {
    if rs != [] { SweptIsShorter(w, rs[1..]); }
  }
}
