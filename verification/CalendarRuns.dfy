/** What every run of calendar operations keeps: src/pcp/pcpdir.c, each operation one step under the lock. */
module CalendarRuns {
  import opened Text
  import opened EventTimes
  import opened CalendarIndex

  /** The calendar directory and every handle ever handed out. owner is "@" and the user's name. */
  datatype State = State(owner: string, index: seq<Record>, files: set<string>, handles: map<string, Handle>)

  datatype Op =
    | New(unique: string, oldId: Option<string>, participants: seq<Field>)
    | Commit(id: string, booking: bool, req: Request, now: nat, io: Io)
    | Cancel(id: string, io: Io)
    | Delete(id: string, io: Io)
    | Destroy(id: string, io: Io)
    | Uncancel(id: string, okConflict: bool, io: Io)
    | Cleanup(unreadable: set<string>, cut: nat, now: nat, purge: nat, io: Io)

  /** New ids are unique, and only handles that were handed out can be used. */
  ghost predicate Possible(s: State, op: Op) {
    match op
    case New(unique, _, participants) =>
      unique + s.owner !in s.handles && !Exists(s.index, unique + s.owner) && OnlyParticipants(participants)
    case Commit(id, _, _, _, _) => id in s.handles
    case Destroy(id, _) => id in s.handles
    case _ => true
  }

  ghost function Next(s: State, op: Op): State
    requires Possible(s, op)
  {
    match op
    case New(unique, oldId, participants) =>
      var id := unique + s.owner;
      s.(handles := s.handles[id := Handle(id, unique, oldId, participants, false, true, [])])
    case Commit(id, booking, req, now, io) =>
      var c := CommitStep(s.index, s.files, s.handles[id], booking, req, now, io);
      s.(index := c.index, files := c.files, handles := s.handles[id := c.handle])
    case Cancel(id, io) =>
      s.(index := CancelStep(s.index, id, io).0)
    case Delete(id, io) =>
      var d := DeleteStep(s.index, s.files, id, io);
      s.(index := d.0, files := d.1)
    case Destroy(id, io) =>
      var h := s.handles[id];
      var d := if h.booked then DeleteStep(s.index, s.files, id, io) else (s.index, s.files, true, SysErr);
      s.(index := d.0, files := d.1, handles := s.handles[id := h.(pending := false)])
    case Uncancel(id, okConflict, io) =>
      s.(index := UncancelStep(s.index, id, okConflict, io).0)
    case Cleanup(unreadable, cut, now, purge, io) =>
      var c := CleanupStep(s.index, Sweep(s.files, unreadable, now, purge), cut, io);
      s.(index := c.0, files := c.1)
  }

  ghost predicate PossibleRun(s: State, ops: seq<Op>)
    decreases |ops|
  {
    ops == [] || (Possible(s, ops[0]) && PossibleRun(Next(s, ops[0]), ops[1..]))
  }

  ghost function Run(s: State, ops: seq<Op>): State
    requires PossibleRun(s, ops)
    decreases |ops|
  {
    if ops == [] then s else Run(Next(s, ops[0]), ops[1..])
  }

  // ----- invariants -----

  ghost predicate RecordFits(s: State, r: Record) {
    && r.id == r.file + s.owner
    && Bookable(Times(r.fields))
    && (!IsBooked(r) ==> r.file in s.files)
    && if r.id in s.handles then
         if IsBooked(r) then s.handles[r.id].booked && Times(r.fields) == s.handles[r.id].times
         else !s.handles[r.id].pending
       else !IsBooked(r)
  }

  ghost predicate HandleFits(s: State, id: string)
    requires id in s.handles
  {
    var h := s.handles[id];
    h.id == id && id == h.file + s.owner && OnlyParticipants(h.participants)
  }

  /** One record for each id; its booking, times and file agree with its handle and the directory. */
  ghost predicate WellKept(s: State) {
    && DistinctIds(s.index)
    && (forall r :: r in s.index ==> RecordFits(s, r))
    && (forall id :: id in s.handles ==> HandleFits(s, id))
  }

  /** a is booked by a handle that will drop b when it commits. */
  ghost predicate WillReplace(s: State, a: Record, b: Record) {
    IsBooked(a) && a.id in s.handles && s.handles[a.id].oldId == Some(b.id)
  }

  ghost predicate Clash(a: Record, b: Record) {
    !IsCancelled(a) && !IsCancelled(b) && SomeConflict(Times(a.fields), Times(b.fields))
  }

  /** Events that are not cancelled overlap only where one is booked to replace the other. */
  ghost predicate NoOverlap(s: State) {
    forall a, b :: a in s.index && b in s.index && a.id != b.id && Clash(a, b)
      ==> WillReplace(s, a, b) || WillReplace(s, b, a)
  }

  /** Restoring e is harmless to r: they do not overlap, or one is booked to replace the other. */
  ghost predicate Harmless(s: State, e: Record, r: Record) {
    SomeConflict(Times(r.fields), Times(e.fields)) ==> WillReplace(s, e, r) || WillReplace(s, r, e)
  }

  ghost predicate Uncancels(s: State, op: Op) {
    op.Uncancel? && UncancelStep(s.index, op.id, op.okConflict, op.io).1
  }

  /** The operation does not ask for conflicts to be ignored, and restores no event to the harm of another. */
  ghost predicate RespectsConflicts(s: State, op: Op) {
    && (op.Commit? ==> !op.req.okConflict)
    && (Uncancels(s, op) ==> forall e, r | e in s.index && r in s.index ::
          e.id == op.id && IsCancelled(e) && Compared(r, op.id) ==> Harmless(s, e, r))
  }

  ghost predicate RespectfulRun(s: State, ops: seq<Op>)
    requires PossibleRun(s, ops)
    decreases |ops|
  {
    ops == [] || (RespectsConflicts(s, ops[0]) && RespectfulRun(Next(s, ops[0]), ops[1..]))
  }

  lemma ClashIsSymmetric(a: Record, b: Record)
    ensures Clash(a, b) <==> Clash(b, a)
  {
    forall x, y | Conflict(x, y) ensures Conflict(y, x) {}
  }

  // ----- the passes over the index -----

  lemma {:induction false} RewriteMembers(c: Scan, rs: seq<Record>)
    ensures forall x :: x in Rewrite(c, rs) <==> exists r :: r in rs && Kept(c, r) == Some(x)
  {
    if rs != [] {
      var init, last := rs[..|rs| - 1], rs[|rs| - 1];
      RewriteMembers(c, init);
      assert rs == init + [last];
    }
  }

  lemma {:induction false} RewriteDistinct(c: Scan, rs: seq<Record>)
    requires DistinctIds(rs)
    ensures DistinctIds(Rewrite(c, rs))
  {
    if rs != [] {
      var init, last := rs[..|rs| - 1], rs[|rs| - 1];
      RewriteDistinct(c, init);
      RewriteMembers(c, init);
      assert forall x :: x in Rewrite(c, init) ==> x.id != last.id;
    }
  }

  lemma {:induction false} CancelAllMembers(rs: seq<Record>, id: string)
    ensures |CancelAll(rs, id)| == |rs|
    ensures forall i :: 0 <= i < |rs| ==> CancelAll(rs, id)[i] == CancelOne(rs[i], id)
  {
    if rs != [] { CancelAllMembers(rs[..|rs| - 1], id); }
  }

  lemma {:induction false} DeleteAllMembers(rs: seq<Record>, id: string)
    ensures forall x :: x in DeleteAll(rs, id) <==> x in rs && x.id != id
    ensures DistinctIds(rs) ==> DistinctIds(DeleteAll(rs, id))
  {
    if rs != [] {
      DeleteAllMembers(rs[..|rs| - 1], id);
      assert rs == rs[..|rs| - 1] + [rs[|rs| - 1]];
    }
  }

  lemma {:induction false} SweptMembers(w: Sweep, rs: seq<Record>)
    ensures forall x :: x in Swept(w, rs) ==> x in rs && Survives(w, x)
    ensures SweepCompletes(w, rs) ==> forall x :: x in rs && Survives(w, x) ==> x in Swept(w, rs)
  {
    if rs != [] {
      SweptMembers(w, rs[1..]);
      assert rs == [rs[0]] + rs[1..];
    }
  }

  lemma {:induction false} SweptDistinct(w: Sweep, rs: seq<Record>)
    requires DistinctIds(rs)
    ensures DistinctIds(Swept(w, rs))
  {
    if rs != [] {
      SweptDistinct(w, rs[1..]);
      SweptMembers(w, rs[1..]);
      assert forall x :: x in Swept(w, rs[1..]) ==> x.id != rs[0].id;
    }
  }

  // ----- one step -----

  lemma SameFileSameId(f: string, g: string, owner: string)
    requires f + owner == g + owner
    ensures f == g
  {
    assert f == (f + owner)[..|f|];
    assert g == (g + owner)[..|g|];
  }

  lemma BookableSorted(times: seq<Interval>)
    requires Bookable(times)
    ensures Bookable(SortedTimes(times).value)
  {
    BookableIgnoresOrder(times, Qsort(times));
  }

  /** The scan that a successful commit or booking has made. */
  ghost function ScanOf(s: State, id: string, booking: bool, req: Request): Scan
    requires id in s.handles && Bookable(req.times)
  {
    Scan(s.handles[id], booking, req.okConflict, SortedTimes(req.times).value, s.index)
  }

  ghost predicate AddsRecord(c: Scan) {
    c.booking || !OwnFound(c, c.index)
  }

  ghost predicate Committing(s: State, op: Op) {
    && op.Commit? && Possible(s, op)
    && CommitStep(s.index, s.files, s.handles[op.id], op.booking, op.req, op.now, op.io).ok
  }

  /** The new record of a successful commit or booking, if it makes one. */
  ghost function Added(s: State, op: Op): Record
    requires Committing(s, op)
  {
    var c := ScanOf(s, op.id, op.booking, op.req);
    NewRecord(c.h.id, c.h.file, c.h.participants, op.booking, c.times, op.req.byProxy, CancelledFound(c, s.index), op.now)
  }

  /** A successful commit or booking, read off the step. */
  lemma CommitEffects(s: State, op: Op)
    requires Committing(s, op)
    ensures var c := ScanOf(s, op.id, op.booking, op.req);
      var h := s.handles[op.id];
      var s' := Next(s, op);
      && h.pending && Bookable(op.req.times) && ScanPasses(c)
      && s'.owner == s.owner
      && s'.index == (if AddsRecord(c) then Rewrite(c, s.index) + [Added(s, op)] else Rewrite(c, s.index))
      && s'.files == (if op.booking then s.files
                      else if DeletedFile(c, s.index).Some? then s.files + {h.file} - {DeletedFile(c, s.index).value}
                      else s.files + {h.file})
      && s'.handles == s.handles[op.id :=
           if op.booking then h.(booked := true, times := c.times)
           else h.(booked := false, pending := false, times := if h.booked then h.times else c.times)]
  {
    hide Rewrite, LastFault, DeletedFile, NewRecord;
  }

  lemma AddedId(s: State, op: Op)
    requires WellKept(s) && Committing(s, op)
    ensures Added(s, op).id == op.id
  {
    assert HandleFits(s, op.id);
  }

  /** Which records a successful commit or booking leaves. */
  lemma CommitMembers(s: State, op: Op)
    requires WellKept(s) && Committing(s, op)
    ensures var c := ScanOf(s, op.id, op.booking, op.req);
      && ScanPasses(c) && s.handles[op.id].pending
      && (forall x :: x in Next(s, op).index <==>
            (exists r :: r in s.index && Kept(c, r) == Some(x)) || (AddsRecord(c) && x == Added(s, op)))
      && DistinctIds(Next(s, op).index)
  {
    hide CommitStep, Rewrite, LastFault, DeletedFile, Kept, NewRecord, Times, BookTime, Bookable;
    CommitEffects(s, op);
    var c := ScanOf(s, op.id, op.booking, op.req);
    RewriteMembers(c, s.index);
    RewriteDistinct(c, s.index);
    assert Added(s, op).id == op.id by { AddedId(s, op); }
    if AddsRecord(c) {
      forall x | x in Rewrite(c, s.index)
        ensures x.id != op.id
      {
        var r :| r in s.index && Kept(c, r) == Some(x);
        assert RecordFits(s, r);
      }
    }
  }

  /** The file that a successful commit removes belongs to no record that stays. */
  lemma DroppedFileIsUnused(s: State, op: Op, r: Record)
    requires WellKept(s) && Committing(s, op) && r in s.index
    requires var c := ScanOf(s, op.id, op.booking, op.req);
      DeletedFile(c, s.index) == Some(r.file) && !op.booking
    ensures Kept(ScanOf(s, op.id, op.booking, op.req), r) == None
    ensures r.file != s.handles[op.id].file
  {
    var c := ScanOf(s, op.id, op.booking, op.req);
    var e :| e in s.index && Replaced(c, e) && r.file == e.file;
    assert RecordFits(s, e) && RecordFits(s, r) && HandleFits(s, op.id);
  }

  lemma KeptRecordFits(s: State, op: Op, r: Record, x: Record)
    requires WellKept(s) && Committing(s, op) && r in s.index
    requires Kept(ScanOf(s, op.id, op.booking, op.req), r) == Some(x)
    ensures RecordFits(Next(s, op), x)
  {
    hide CommitStep, Rewrite, LastFault, DeletedFile, Kept, Times, BookTime, Bookable;
    CommitEffects(s, op);
    var c := ScanOf(s, op.id, op.booking, op.req);
    var h := s.handles[op.id];
    CommitMembers(s, op);
    assert RecordFits(s, r) && HandleFits(s, op.id);
    if x.id == op.id {
      SameFileSameId(r.file, h.file, s.owner);
    }
    if !op.booking && DeletedFile(c, s.index) == Some(x.file) {
      DroppedFileIsUnused(s, op, r);
    }
  }

  lemma AddedRecordFits(s: State, op: Op)
    requires WellKept(s) && Committing(s, op)
    requires AddsRecord(ScanOf(s, op.id, op.booking, op.req))
    ensures RecordFits(Next(s, op), Added(s, op))
  {
    hide CommitStep, Rewrite, LastFault, DeletedFile, Kept, Times, BookTime, Bookable;
    CommitEffects(s, op);
    var c := ScanOf(s, op.id, op.booking, op.req);
    CommitMembers(s, op);
    assert HandleFits(s, op.id);
    NewRecordReads(c.h.id, c.h.file, c.h.participants, op.booking, c.times, op.req.byProxy, CancelledFound(c, s.index), op.now);
    BookableSorted(op.req.times);
    forall e | e in s.index && Replaced(c, e)
      ensures e.file != c.h.file
    {
      assert RecordFits(s, e);
    }
  }

  lemma CommitWellKept(s: State, op: Op)
    requires WellKept(s) && Committing(s, op)
    ensures WellKept(Next(s, op))
  {
    hide CommitStep, Rewrite, LastFault, DeletedFile;
    CommitEffects(s, op);
    var c := ScanOf(s, op.id, op.booking, op.req);
    var s' := Next(s, op);
    CommitMembers(s, op);
    forall x | x in s'.index
      ensures RecordFits(s', x)
    {
      if r :| r in s.index && Kept(c, r) == Some(x) {
        KeptRecordFits(s, op, r, x);
      } else {
        AddedRecordFits(s, op);
      }
    }
    forall id | id in s'.handles
      ensures HandleFits(s', id)
    {
      assert HandleFits(s, id);
    }
  }

  /** A record that the operation adds overlaps only the event it replaces. */
  lemma AddedClash(s: State, op: Op, r: Record, x: Record)
    requires WellKept(s) && Committing(s, op) && RespectsConflicts(s, op) && r in s.index
    requires Kept(ScanOf(s, op.id, op.booking, op.req), r) == Some(x)
    requires AddsRecord(ScanOf(s, op.id, op.booking, op.req)) && Clash(x, Added(s, op))
    ensures WillReplace(Next(s, op), Added(s, op), x)
  {
    hide CommitStep, Rewrite, DeletedFile, Times, BookTime, NewRecord, Kept, Bookable;
    CommitEffects(s, op);
    var c := ScanOf(s, op.id, op.booking, op.req);
    CommitMembers(s, op);
    assert HandleFits(s, op.id);
    NewRecordReads(c.h.id, c.h.file, c.h.participants, op.booking, c.times, op.req.byProxy, CancelledFound(c, s.index), op.now);
    assert Fault(c, r).None?;
  }

  /** Losing its booking never turns an overlap into one that is not allowed. */
  lemma KeptClash(s: State, op: Op, r: Record, t: Record, x: Record, y: Record)
    requires WellKept(s) && Committing(s, op) && r in s.index && t in s.index
    requires Kept(ScanOf(s, op.id, op.booking, op.req), r) == Some(x)
    requires Kept(ScanOf(s, op.id, op.booking, op.req), t) == Some(y)
    requires WillReplace(s, r, t) && x.id != y.id
    ensures WillReplace(Next(s, op), x, y)
  {
    hide CommitStep, Rewrite, LastFault, DeletedFile, Kept, Times, BookTime, Bookable;
    CommitEffects(s, op);
    assert HandleFits(s, op.id) && HandleFits(s, r.id);
  }

  lemma CommitNoOverlap(s: State, op: Op)
    requires WellKept(s) && NoOverlap(s) && Committing(s, op) && RespectsConflicts(s, op)
    ensures NoOverlap(Next(s, op))
  {
    hide CommitStep, Rewrite, LastFault, DeletedFile, Kept, Times, BookTime, Bookable;
    CommitEffects(s, op);
    var c := ScanOf(s, op.id, op.booking, op.req);
    var s' := Next(s, op);
    CommitMembers(s, op);
    forall x, y | x in s'.index && y in s'.index && x.id != y.id && Clash(x, y)
      ensures WillReplace(s', x, y) || WillReplace(s', y, x)
    {
      ClashIsSymmetric(x, y);
      if r :| r in s.index && Kept(c, r) == Some(x) {
        if t :| t in s.index && Kept(c, t) == Some(y) {
          assert Clash(r, t);
          if WillReplace(s, r, t) { KeptClash(s, op, r, t, x, y); } else { KeptClash(s, op, t, r, y, x); }
        } else {
          AddedClash(s, op, r, x);
        }
      } else {
        var t :| t in s.index && Kept(c, t) == Some(y);
        AddedClash(s, op, t, y);
      }
    }
  }

  // ----- the other operations -----

  lemma NewKeeps(s: State, op: Op)
    requires WellKept(s) && op.New? && Possible(s, op)
    ensures WellKept(Next(s, op))
    ensures NoOverlap(s) ==> NoOverlap(Next(s, op))
  {
    var s' := Next(s, op);
    forall r | r in s.index ensures RecordFits(s', r) { assert RecordFits(s, r); }
    forall id | id in s'.handles ensures HandleFits(s', id) {
      if id in s.handles { assert HandleFits(s, id); }
    }
    forall a, b | a in s.index && b in s.index && WillReplace(s, a, b) ensures WillReplace(s', a, b) {}
  }

  lemma FailedCommitEffects(s: State, op: Op)
    requires op.Commit? && Possible(s, op) && !Committing(s, op)
    ensures var h := s.handles[op.id];
      var s' := Next(s, op);
      && s'.owner == s.owner && s'.index == s.index
      && (s'.files == s.files || s'.files == s.files + {h.file})
      && (s'.handles == s.handles ||
           ((forall r :: r in s.index && h.booked ==> r.id != h.id) && s'.handles == s.handles[op.id := h.(booked := false)]))
  {
    hide Rewrite, LastFault, DeletedFile, NewRecord, Bookable, ScanPasses;
    assert s.handles[op.id := s.handles[op.id]] == s.handles;
  }

  /** A booking or commit that fails leaves the index as it was. */
  lemma FailedCommitKeeps(s: State, op: Op)
    requires WellKept(s) && op.Commit? && Possible(s, op) && !Committing(s, op)
    ensures Next(s, op).index == s.index
    ensures WellKept(Next(s, op))
    ensures NoOverlap(s) ==> NoOverlap(Next(s, op))
  {
    hide CommitStep;
    FailedCommitEffects(s, op);
    var s' := Next(s, op);
    forall r | r in s.index ensures RecordFits(s', r) { assert RecordFits(s, r) && HandleFits(s, op.id); }
    forall id | id in s'.handles ensures HandleFits(s', id) { assert HandleFits(s, id); }
    forall a, b | a in s.index && b in s.index && WillReplace(s, a, b) ensures WillReplace(s', a, b) {}
  }

  lemma CancelOneReads(r: Record, id: string)
    ensures var x := CancelOne(r, id);
      && x.id == r.id && x.file == r.file && Times(x.fields) == Times(r.fields)
      && (IsBooked(x) <==> IsBooked(r)) && (IsCancelled(r) ==> IsCancelled(x))
      && (r.id == id ==> IsCancelled(x))
  {
    ReadsOfExtra(r.fields, Cancelled);
  }

  lemma CancelWellKept(s: State, op: Op)
    requires WellKept(s) && op.Cancel?
    ensures WellKept(Next(s, op))
  {
    var s' := Next(s, op);
    CancelAllMembers(s.index, op.id);
    forall i | 0 <= i < |s'.index|
      ensures RecordFits(s', s'.index[i]) && s'.index[i].id == s.index[i].id
    {
      CancelOneReads(s.index[i], op.id);
      assert RecordFits(s, s.index[i]);
    }
    forall id | id in s'.handles ensures HandleFits(s', id) { assert HandleFits(s, id); }
  }

  lemma CancelNoOverlap(s: State, op: Op)
    requires NoOverlap(s) && op.Cancel?
    ensures NoOverlap(Next(s, op))
  {
    var s' := Next(s, op);
    CancelAllMembers(s.index, op.id);
    if s'.index != s.index {
      forall i, j | 0 <= i < |s.index| && 0 <= j < |s.index|
        && s'.index[i].id != s'.index[j].id && Clash(s'.index[i], s'.index[j])
        ensures WillReplace(s', s'.index[i], s'.index[j]) || WillReplace(s', s'.index[j], s'.index[i])
      {
        CancelOneReads(s.index[i], op.id);
        CancelOneReads(s.index[j], op.id);
        assert Clash(s.index[i], s.index[j]);
      }
    }
  }

  lemma {:induction false} RestoreAllMembers(rs: seq<Record>, id: string)
    ensures |RestoreAll(rs, id)| == |rs|
    ensures forall i :: 0 <= i < |rs| ==> RestoreAll(rs, id)[i] == RestoreOne(rs[i], id)
  {
    if rs != [] { RestoreAllMembers(rs[..|rs| - 1], id); }
  }

  lemma RestoreOneReads(r: Record, id: string)
    ensures var x := RestoreOne(r, id);
      && x.id == r.id && x.file == r.file && Times(x.fields) == Times(r.fields)
      && (IsBooked(x) <==> IsBooked(r))
      && (IsCancelled(x) <==> IsCancelled(r) && r.id != id)
  {
    RemoveFieldMembers(r.fields, CANCELLED_FIELD);
    RemoveFieldTimes(r.fields, CANCELLED_FIELD);
    RemoveFieldBookTime(r.fields, CANCELLED_FIELD);
  }

  /** Restoring an event keeps the index consistent. */
  lemma UncancelWellKept(s: State, op: Op)
    requires WellKept(s) && op.Uncancel?
    ensures WellKept(Next(s, op))
  {
    hide LastVerdict, SomeVerdict, RestoreOne, Bookable, Times, IsBooked, IsCancelled;
    var s' := Next(s, op);
    RestoreAllMembers(s.index, op.id);
    if Uncancels(s, op) {
      forall i | 0 <= i < |s'.index|
        ensures RecordFits(s', s'.index[i]) && s'.index[i].id == s.index[i].id
      {
        RestoreOneReads(s.index[i], op.id);
        assert RecordFits(s, s.index[i]);
      }
      forall id | id in s'.handles ensures HandleFits(s', id) { assert HandleFits(s, id); }
    } else {
      assert s' == s;
    }
  }

  lemma PairAfterUncancel(s: State, op: Op, a: Record, b: Record)
    requires Uncancels(s, op) && a in s.index && b in s.index
    ensures var s' := Next(s, op);
      && RestoreOne(a, op.id) in s'.index
      && (WillReplace(s', RestoreOne(a, op.id), RestoreOne(b, op.id)) <==> WillReplace(s, a, b))
      && (Clash(RestoreOne(a, op.id), RestoreOne(b, op.id)) <==>
            (!IsCancelled(a) || a.id == op.id) && (!IsCancelled(b) || b.id == op.id)
            && SomeConflict(Times(a.fields), Times(b.fields)))
  {
    RestoreAllMembers(s.index, op.id);
    RestoreOneReads(a, op.id);
    RestoreOneReads(b, op.id);
    var i :| 0 <= i < |s.index| && s.index[i] == a;
    assert RestoreAll(s.index, op.id)[i] == RestoreOne(a, op.id);
  }

  lemma RestoredPair(s: State, op: Op, a: Record, b: Record)
    requires WellKept(s) && NoOverlap(s) && Uncancels(s, op) && RespectsConflicts(s, op)
    requires a in s.index && b in s.index && a.id != b.id && Clash(RestoreOne(a, op.id), RestoreOne(b, op.id))
    ensures var s', x, y := Next(s, op), RestoreOne(a, op.id), RestoreOne(b, op.id);
      WillReplace(s', x, y) || WillReplace(s', y, x)
  {
    hide LastVerdict, SomeVerdict, RestoreAll, RestoreOne, Times;
    PairAfterUncancel(s, op, a, b);
    PairAfterUncancel(s, op, b, a);
    RestoreOneReads(a, op.id);
    RestoreOneReads(b, op.id);
    ClashIsSymmetric(RestoreOne(a, op.id), RestoreOne(b, op.id));
    if a.id == op.id && IsCancelled(a) {
      assert Compared(b, op.id) && Harmless(s, a, b);
    } else if b.id == op.id && IsCancelled(b) {
      assert Compared(a, op.id) && Harmless(s, b, a);
    } else {
      assert Clash(a, b);
    }
  }

  /** An uncancel keeps the calendar free of overlaps if and only if it is refused or the event that
      it restores is harmless to every event it was compared with. */
  lemma UncancelNoOverlapIff(s: State, op: Op)
    requires WellKept(s) && NoOverlap(s) && op.Uncancel?
    ensures NoOverlap(Next(s, op)) <==> RespectsConflicts(s, op)
  {
    hide LastVerdict, SomeVerdict, RestoreAll, RestoreOne, Times;
    var s' := Next(s, op);
    if !Uncancels(s, op) {
      assert s' == s;
    } else {
      if NoOverlap(s') {
        forall e, r | e in s.index && e.id == op.id && IsCancelled(e) && r in s.index && Compared(r, op.id)
          ensures Harmless(s, e, r)
        {
          PairAfterUncancel(s, op, r, e);
          PairAfterUncancel(s, op, e, r);
          RestoreOneReads(r, op.id);
          RestoreOneReads(e, op.id);
        }
      }
      if RespectsConflicts(s, op) {
        RestoreAllMembers(s.index, op.id);
        forall i, j | 0 <= i < |s.index| && 0 <= j < |s.index|
          && s'.index[i].id != s'.index[j].id && Clash(s'.index[i], s'.index[j])
          ensures WillReplace(s', s'.index[i], s'.index[j]) || WillReplace(s', s'.index[j], s'.index[i])
        {
          RestoreOneReads(s.index[i], op.id);
          RestoreOneReads(s.index[j], op.id);
          RestoredPair(s, op, s.index[i], s.index[j]);
        }
      }
    }
  }

  /** Taking records away, without their files or with them, keeps the invariants. */
  lemma FewerRecords(s: State, s': State)
    requires WellKept(s) && s'.owner == s.owner && DistinctIds(s'.index)
    requires forall x :: x in s'.index ==> x in s.index
    requires forall x :: x in s'.index && !IsBooked(x) ==> x.file in s'.files
    requires s'.handles.Keys == s.handles.Keys
    requires forall id :: id in s.handles ==>
      s'.handles[id] == s.handles[id] || s'.handles[id] == s.handles[id].(pending := false)
    ensures WellKept(s')
    ensures NoOverlap(s) ==> NoOverlap(s')
  {
    forall r | r in s'.index ensures RecordFits(s', r) { assert RecordFits(s, r); }
    forall id | id in s'.handles ensures HandleFits(s', id) { assert HandleFits(s, id); }
    forall a, b | a in s'.index && b in s'.index && WillReplace(s, a, b) ensures WillReplace(s', a, b) {}
  }

  lemma CleanupKeeps(s: State, op: Op, w: Sweep)
    requires WellKept(s) && op.Cleanup? && w == Sweep(s.files, op.unreadable, op.now, op.purge)
    ensures WellKept(Next(s, op))
    ensures NoOverlap(s) ==> NoOverlap(Next(s, op))
  {
    SweptMembers(w, s.index);
    SweptDistinct(w, s.index);
    forall x | x in s.index && !IsBooked(x) ensures x.file in s.files { assert RecordFits(s, x); }
    FewerRecords(s, Next(s, op));
  }

  lemma DeleteStepMembers(s: State, id: string, io: Io)
    requires WellKept(s)
    ensures var d := DeleteStep(s.index, s.files, id, io);
      && DistinctIds(d.0)
      && (forall x :: x in d.0 ==> x in s.index)
      && (forall x :: x in d.0 && !IsBooked(x) ==> x.file in d.1)
      && (d.2 ==> forall x :: x in d.0 <==> x in s.index && x.id != id)
  {
    DeleteAllMembers(s.index, id);
    var d := DeleteStep(s.index, s.files, id, io);
    forall x | x in d.0 && !IsBooked(x)
      ensures x.file in d.1
    {
      assert RecordFits(s, x);
      if d.2 {
        var e :| e in s.index && e.id == id && FileOf(s.index, id).value == e.file;
        assert RecordFits(s, e);
      }
    }
  }

  lemma StepKeeps(s: State, op: Op)
    requires WellKept(s) && Possible(s, op)
    ensures WellKept(Next(s, op))
    ensures NoOverlap(s) && RespectsConflicts(s, op) ==> NoOverlap(Next(s, op))
  {
    match op
    case New(_, _, _) => NewKeeps(s, op);
    case Commit(_, _, _, _, _) =>
      if Committing(s, op) {
        CommitWellKept(s, op);
        if NoOverlap(s) && RespectsConflicts(s, op) { CommitNoOverlap(s, op); }
      } else {
        FailedCommitKeeps(s, op);
      }
    case Cancel(_, _) =>
      CancelWellKept(s, op);
      if NoOverlap(s) { CancelNoOverlap(s, op); }
    case Delete(id, io) =>
      DeleteStepMembers(s, id, io);
      FewerRecords(s, Next(s, op));
    case Destroy(id, io) =>
      DeleteStepMembers(s, id, io);
      forall x | x in s.index && !IsBooked(x) ensures x.file in s.files { assert RecordFits(s, x); }
      FewerRecords(s, Next(s, op));
    case Uncancel(_, _, _) =>
      UncancelWellKept(s, op);
      if NoOverlap(s) { UncancelNoOverlapIff(s, op); }
    case Cleanup(unreadable, _, now, purge, _) =>
      CleanupKeeps(s, op, Sweep(s.files, unreadable, now, purge));
  }

  // ----- runs -----

  /** Over every run: one record for each id, consistent with its handle, its file in the directory. */
  lemma {:induction false} RunWellKept(s: State, ops: seq<Op>)
    requires WellKept(s) && PossibleRun(s, ops)
    ensures WellKept(Run(s, ops))
    decreases |ops|
  {
    if ops != [] {
      StepKeeps(s, ops[0]);
      RunWellKept(Next(s, ops[0]), ops[1..]);
    }
  }

  /** Over every run that asks for no conflict to be ignored: events overlap only while one of
      them is merely booked, and booked to replace the other. */
  lemma {:induction false} RunNoOverlap(s: State, ops: seq<Op>)
    requires WellKept(s) && NoOverlap(s) && PossibleRun(s, ops)
    requires RespectfulRun(s, ops)
    ensures NoOverlap(Run(s, ops))
    decreases |ops|
  {
    if ops != [] {
      StepKeeps(s, ops[0]);
      RunNoOverlap(Next(s, ops[0]), ops[1..]);
    }
  }

  /** In particular no two committed events that are not cancelled share a moment. */
  lemma CommittedNeverOverlap(s: State, ops: seq<Op>, a: Record, b: Record, x: Interval, y: Interval)
    requires s.index == [] && s.handles == map[] && PossibleRun(s, ops)
    requires RespectfulRun(s, ops)
    requires a in Run(s, ops).index && b in Run(s, ops).index && a.id != b.id
    requires !IsBooked(a) && !IsBooked(b) && !IsCancelled(a) && !IsCancelled(b)
    requires x in Times(a.fields) && y in Times(b.fields)
    ensures !Conflict(x, y)
  {
    RunNoOverlap(s, ops);
    assert !Clash(a, b);
  }

  lemma {:induction false} SettledStays(s: State, ops: seq<Op>, id: string)
    requires PossibleRun(s, ops) && id in s.handles && !s.handles[id].pending
    ensures id in Run(s, ops).handles && !Run(s, ops).handles[id].pending
    decreases |ops|
  {
    if ops != [] { SettledStays(Next(s, ops[0]), ops[1..], id); }
  }

  /** After a handle has committed, no later attempt to book or commit with it does anything. */
  lemma CommittedHandleIsSpent(s: State, op: Op, ops: seq<Op>, again: Op)
    requires Committing(s, op) && !op.booking && PossibleRun(Next(s, op), ops)
    requires again.Commit? && again.id == op.id
    ensures var later := Run(Next(s, op), ops);
      Possible(later, again) && !Committing(later, again) && Next(later, again) == later
  {
    SettledStays(Next(s, op), ops, op.id);
    var later := Run(Next(s, op), ops);
    assert Next(later, again).handles == later.handles;
  }

  /** Committing a booked handle keeps the times last booked, drops the replaced event, and
      leaves every other record alone. */
  lemma CommitKeepsBooking(s: State, op: Op) returns (r: Record)
    requires WellKept(s) && Committing(s, op) && !op.booking && s.handles[op.id].booked
    ensures r in s.index && r.id == op.id && IsBooked(r) && Times(r.fields) == s.handles[op.id].times
    ensures forall x: Record :: x.id == op.id ==>
      (x in Next(s, op).index <==> x == r.(fields := RemoveField(r.fields, BOOKED_FIELD)))
    ensures forall x: Record :: x.id != op.id ==>
      (x in Next(s, op).index <==> x in s.index && Some(x.id) != s.handles[op.id].oldId)
    ensures Next(s, op).handles[op.id].times == s.handles[op.id].times
  {
    hide CommitStep, Rewrite, LastFault, DeletedFile;
    CommitEffects(s, op);
    var c := ScanOf(s, op.id, op.booking, op.req);
    CommitMembers(s, op);
    r :| r in s.index && Own(c, r);
    assert RecordFits(s, r);
    assert Kept(c, r) == Some(r.(fields := RemoveField(r.fields, BOOKED_FIELD)));
    forall x: Record | x.id != op.id && x in s.index && Some(x.id) != s.handles[op.id].oldId
      ensures x in Next(s, op).index
    {
      assert Kept(c, x) == Some(x);
    }
  }
}
