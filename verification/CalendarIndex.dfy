/** The calendar index as records, and what each operation of src/pcp/pcpdir.c does to it.
    The text of a record is the subject of module IndexLine. */
module CalendarIndex {
  import opened Text
  import opened EventTimes

  datatype Field =
    | Time(span: Interval)
    | Cancelled
    | BookedAt(when: nat)
    | Pending(rival: string)        // about to be replaced by the event with this id
    | Proxy
    | Participant(address: string, eventid: Option<string>)

  const TIME_FIELD := "t"
  const CANCELLED_FIELD := "c"
  const BOOKED_FIELD := "b"
  const PENDEL_FIELD := "d"
  const PROXY_FIELD := "P"
  const PARTICIPANT_FIELD := "p"

  function Name(f: Field): string {
    match f
    case Time(_) => TIME_FIELD
    case Cancelled => CANCELLED_FIELD
    case BookedAt(_) => BOOKED_FIELD
    case Pending(_) => PENDEL_FIELD
    case Proxy => PROXY_FIELD
    case Participant(_, _) => PARTICIPANT_FIELD
  }

  datatype Record = Record(id: string, file: string, fields: seq<Field>)

  predicate IsCancelled(r: Record) {
    Cancelled in r.fields
  }

  /** The first booking time among the fields. */
  function BookTime(fs: seq<Field>): Option<nat> {
    if fs == [] then None
    else if fs[0].BookedAt? then Some(fs[0].when)
    else BookTime(fs[1..])
  }

  predicate IsBooked(r: Record) {
    BookTime(r.fields).Some?
  }

  /** The first pending-deletion field's value. */
  function PendingBy(fs: seq<Field>): Option<string> {
    if fs == [] then None
    else if fs[0].Pending? then Some(fs[0].rival)
    else PendingBy(fs[1..])
  }

  function Times(fs: seq<Field>): seq<Interval> {
    if fs == [] then []
    else (if fs[0].Time? then [fs[0].span] else []) + Times(fs[1..])
  }

  function RemoveField(fs: seq<Field>, name: string): seq<Field> {
    if fs == [] then []
    else if Name(fs[0]) == name then RemoveField(fs[1..], name)
    else [fs[0]] + RemoveField(fs[1..], name)
  }

  lemma {:induction false} RemoveFieldMembers(fs: seq<Field>, name: string)
    ensures forall f :: f in RemoveField(fs, name) <==> f in fs && Name(f) != name
  {
    if fs != [] { RemoveFieldMembers(fs[1..], name); }
  }

  lemma {:induction false} RemoveFieldTimes(fs: seq<Field>, name: string)
    ensures Times(RemoveField(fs, name)) == if name == TIME_FIELD then [] else Times(fs)
  {
    if fs != [] {
      RemoveFieldTimes(fs[1..], name);
      assert ([fs[0]] + RemoveField(fs[1..], name))[1..] == RemoveField(fs[1..], name);
    }
  }

  lemma {:induction false} RemoveFieldBookTime(fs: seq<Field>, name: string)
    ensures BookTime(RemoveField(fs, name)) == if name == BOOKED_FIELD then None else BookTime(fs)
  {
    if fs != [] {
      RemoveFieldBookTime(fs[1..], name);
      assert ([fs[0]] + RemoveField(fs[1..], name))[1..] == RemoveField(fs[1..], name);
    }
  }

  lemma {:induction false} RemoveFieldPendingBy(fs: seq<Field>, name: string)
    ensures PendingBy(RemoveField(fs, name)) == if name == PENDEL_FIELD then None else PendingBy(fs)
  {
    if fs != [] {
      RemoveFieldPendingBy(fs[1..], name);
      assert ([fs[0]] + RemoveField(fs[1..], name))[1..] == RemoveField(fs[1..], name);
    }
  }

  lemma {:induction false} TimesOfAppend(fs: seq<Field>, gs: seq<Field>)
    ensures Times(fs + gs) == Times(fs) + Times(gs)
  {
    if fs == [] {
      assert fs + gs == gs;
    } else {
      TimesOfAppend(fs[1..], gs);
      assert (fs + gs)[1..] == fs[1..] + gs;
    }
  }

  lemma {:induction false} BookTimeOfAppend(fs: seq<Field>, gs: seq<Field>)
    ensures BookTime(fs + gs) == if BookTime(fs).Some? then BookTime(fs) else BookTime(gs)
  {
    if fs == [] {
      assert fs + gs == gs;
    } else {
      BookTimeOfAppend(fs[1..], gs);
      assert (fs + gs)[1..] == fs[1..] + gs;
    }
  }

  lemma {:induction false} PendingByOfAppend(fs: seq<Field>, gs: seq<Field>)
    ensures PendingBy(fs + gs) == if PendingBy(fs).Some? then PendingBy(fs) else PendingBy(gs)
  {
    if fs == [] {
      assert fs + gs == gs;
    } else {
      PendingByOfAppend(fs[1..], gs);
      assert (fs + gs)[1..] == fs[1..] + gs;
    }
  }

  /** Adding a field that is neither a time nor a booking changes neither. */
  lemma ReadsOfExtra(fs: seq<Field>, f: Field)
    requires !f.Time? && !f.BookedAt?
    ensures Times(fs + [f]) == Times(fs) && BookTime(fs + [f]) == BookTime(fs)
  {
    TimesOfAppend(fs, [f]);
    BookTimeOfAppend(fs, [f]);
  }

  ghost predicate SomeConflict(a: seq<Interval>, b: seq<Interval>) {
    exists x, y :: x in a && y in b && Conflict(x, y)
  }

  predicate Exists(index: seq<Record>, id: string) {
    exists r :: r in index && r.id == id
  }

  predicate DistinctIds(index: seq<Record>) {
    forall i, j :: 0 <= i < j < |index| ==> index[i].id != index[j].id
  }

  // ----- participants -----

  /** A participant as the caller names it; the index passes over one without an address. */
  datatype Guest = Guest(address: Option<string>, eventid: Option<string>)

  predicate OnlyParticipants(fs: seq<Field>) {
    forall f :: f in fs ==> f.Participant?
  }

  function Invited(ps: seq<Guest>): (fs: seq<Field>)
    ensures OnlyParticipants(fs)
  {
    if ps == [] then []
    else (if ps[0].address.Some? then [Participant(ps[0].address.value, ps[0].eventid)] else []) + Invited(ps[1..])
  }

  lemma {:induction false} InvitedNext(ps: seq<Guest>, p: Guest)
    ensures Invited(ps + [p]) ==
      Invited(ps) + (if p.address.Some? then [Participant(p.address.value, p.eventid)] else [])
  {
    var last := if p.address.Some? then [Participant(p.address.value, p.eventid)] else [];
    if ps == [] {
      assert [] + [p] == [p] && Invited([]) == [] && last + [] == last;
    } else {
      var first := if ps[0].address.Some? then [Participant(ps[0].address.value, ps[0].eventid)] else [];
      InvitedNext(ps[1..], p);
      assert (ps + [p])[1..] == ps[1..] + [p];
      assert first + (Invited(ps[1..]) + last) == (first + Invited(ps[1..])) + last;
    }
  }

  lemma {:induction false} InvitedFrom(ps: seq<Guest>, f: Field)
    requires f in Invited(ps)
    ensures f.Participant? && Guest(Some(f.address), f.eventid) in ps
  {
    if ps[0].address == None || f != Participant(ps[0].address.value, ps[0].eventid) {
      InvitedFrom(ps[1..], f);
    }
  }

  // ----- requests, outcomes and the environment -----

  datatype ErrCode = SysErr | LockErr | ConflictErr | EventNotFound | EventLocked

  /** A handle for a new event. times is history only: what the handle last booked or committed. */
  datatype Handle = Handle(id: string, file: string, oldId: Option<string>, participants: seq<Field>,
                           booked: bool, pending: bool, times: seq<Interval>)

  datatype Request = Request(okConflict: bool, byProxy: bool, times: seq<Interval>)

  /** Which system calls of one operation succeed: taking the lock, writing the new index,
      moving the event file into place, moving the new index into place. */
  datatype Io = Io(lock: bool, write: bool, moveEvent: bool, moveIndex: bool)

  // ----- booking and committing: one pass over the old index -----

  datatype Scan = Scan(h: Handle, booking: bool, okConflict: bool, times: seq<Interval>, index: seq<Record>)

  predicate Own(c: Scan, r: Record) {
    c.h.booked && r.id == c.h.id
  }

  predicate Replaced(c: Scan, r: Record) {
    !Own(c, r) && c.h.oldId == Some(r.id)
  }

  /** The line that the new index holds in place of r. */
  function Kept(c: Scan, r: Record): (k: Option<Record>)
    ensures k.Some? ==> k.value.id == r.id && k.value.file == r.file
    ensures k.Some? ==> Times(k.value.fields) == Times(r.fields)
    ensures k.Some? ==> (IsCancelled(k.value) <==> IsCancelled(r))
    ensures k.Some? ==> (IsBooked(k.value) <==> IsBooked(r) && !Own(c, r))
    ensures k.None? <==> (Own(c, r) && c.booking) || (Replaced(c, r) && !c.booking)
  {
    if Own(c, r) then
      RemoveFieldMembers(r.fields, BOOKED_FIELD);
      RemoveFieldTimes(r.fields, BOOKED_FIELD);
      RemoveFieldBookTime(r.fields, BOOKED_FIELD);
      if c.booking then None else Some(r.(fields := RemoveField(r.fields, BOOKED_FIELD)))
    else if Replaced(c, r) then
      if !c.booking then None
      else if PendingBy(r.fields).Some? then Some(r)
      else
        RemoveFieldMembers(r.fields, PENDEL_FIELD);
        RemoveFieldTimes(r.fields, PENDEL_FIELD);
        RemoveFieldBookTime(r.fields, PENDEL_FIELD);
        ReadsOfExtra(RemoveField(r.fields, PENDEL_FIELD), Pending(c.h.id));
        Some(r.(fields := RemoveField(r.fields, PENDEL_FIELD) + [Pending(c.h.id)]))
    else Some(r)
  }

  /** Why r stops the operation, if it does. */
  ghost function Fault(c: Scan, r: Record): Option<ErrCode> {
    if Own(c, r) then None
    else if Replaced(c, r) then
      if c.booking && PendingBy(r.fields).Some? && PendingBy(r.fields) != Some(c.h.id)
         && Exists(c.index, PendingBy(r.fields).value)
      then Some(EventLocked) else None
    else if !c.okConflict && (!c.h.booked || c.booking) && !IsCancelled(r) && SomeConflict(Times(r.fields), c.times)
      then Some(ConflictErr) else None
  }

  function Rewrite(c: Scan, rs: seq<Record>): seq<Record> {
    if rs == [] then [] else
      var last := Kept(c, rs[|rs| - 1]);
      Rewrite(c, rs[..|rs| - 1]) + (if last.Some? then [last.value] else [])
  }

  /** The error code left behind by the last line that stopped the operation. */
  ghost function LastFault(c: Scan, rs: seq<Record>): (f: Option<ErrCode>)
    ensures f.None? <==> forall r :: r in rs ==> Fault(c, r).None?
  {
    if rs == [] then None else
      assert rs == rs[..|rs| - 1] + [rs[|rs| - 1]];
      var last := Fault(c, rs[|rs| - 1]);
      if last.Some? then last else LastFault(c, rs[..|rs| - 1])
  }

  predicate OwnFound(c: Scan, rs: seq<Record>) {
    exists r :: r in rs && Own(c, r)
  }

  predicate CancelledFound(c: Scan, rs: seq<Record>) {
    exists r :: r in rs && Replaced(c, r) && IsCancelled(r)
  }

  /** The event file of the last replaced record. */
  function DeletedFile(c: Scan, rs: seq<Record>): (f: Option<string>)
    ensures f.Some? ==> exists r :: r in rs && Replaced(c, r) && f.value == r.file
    ensures f.None? ==> forall r :: r in rs ==> !Replaced(c, r)
  {
    if rs == [] then None else
      assert rs == rs[..|rs| - 1] + [rs[|rs| - 1]];
      if Replaced(c, rs[|rs| - 1]) then Some(rs[|rs| - 1].file) else DeletedFile(c, rs[..|rs| - 1])
  }

  lemma ScanNone(c: Scan)
    ensures Rewrite(c, []) == [] && LastFault(c, []) == None && DeletedFile(c, []) == None
  {
  }

  /** One more line of the pass. */
  lemma ScanOne(c: Scan, rs: seq<Record>, r: Record)
    ensures Rewrite(c, rs + [r]) == Rewrite(c, rs) + (if Kept(c, r).Some? then [Kept(c, r).value] else [])
    ensures LastFault(c, rs + [r]) == if Fault(c, r).Some? then Fault(c, r) else LastFault(c, rs)
    ensures OwnFound(c, rs + [r]) <==> OwnFound(c, rs) || Own(c, r)
    ensures CancelledFound(c, rs + [r]) <==> CancelledFound(c, rs) || (Replaced(c, r) && IsCancelled(r))
    ensures DeletedFile(c, rs + [r]) == if Replaced(c, r) then Some(r.file) else DeletedFile(c, rs)
  {
    assert (rs + [r])[..|rs|] == rs;
  }

  function TimeFields(times: seq<Interval>): (fs: seq<Field>)
    ensures Times(fs) == times && BookTime(fs) == None && Cancelled !in fs
  {
    if times == [] then [] else
      var rest := TimeFields(times[1..]);
      assert ([Time(times[0])] + rest)[1..] == rest;
      [Time(times[0])] + rest
  }

  lemma {:induction false} ReadsOfOthers(fs: seq<Field>)
    requires forall f :: f in fs ==> !f.Time? && !f.BookedAt?
    ensures Times(fs) == [] && BookTime(fs) == None
  {
    if fs != [] {
      assert fs[0] in fs;
      ReadsOfOthers(fs[1..]);
    }
  }

  /** A control character or a space makes an address unfit for the index. */
  predicate GoodAddress(f: Field) {
    f.Participant? ==> forall i :: 0 <= i < |f.address| ==> f.address[i] > ' '
  }

  function Marks(cancelled: bool, byProxy: bool, booking: bool, now: nat): (fs: seq<Field>)
    ensures Times(fs) == []
    ensures BookTime(fs) == if booking then Some(now) else None
    ensures Cancelled in fs <==> cancelled
  {
    var flags := (if cancelled then [Cancelled] else []) + (if byProxy then [Proxy] else []);
    ReadsOfOthers(flags);
    TimesOfAppend(flags, [BookedAt(now)]);
    BookTimeOfAppend(flags, [BookedAt(now)]);
    if booking then flags + [BookedAt(now)] else flags
  }

  /** The line written for a new event. */
  function NewRecord(id: string, file: string, participants: seq<Field>, booking: bool, times: seq<Interval>,
                     byProxy: bool, cancelled: bool, now: nat): Record
  {
    Record(id, file, Marks(cancelled, byProxy, booking, now) + TimeFields(times) + participants)
  }

  lemma NewRecordReads(id: string, file: string, participants: seq<Field>, booking: bool, times: seq<Interval>,
                       byProxy: bool, cancelled: bool, now: nat)
    requires OnlyParticipants(participants)
    ensures var n := NewRecord(id, file, participants, booking, times, byProxy, cancelled, now);
      && n.id == id && n.file == file && Times(n.fields) == times
      && (IsCancelled(n) <==> cancelled)
      && (IsBooked(n) <==> booking)
  {
    hide Marks, TimeFields;
    var marks := Marks(cancelled, byProxy, booking, now);
    ReadsOfOthers(participants);
    TimesOfAppend(marks, TimeFields(times));
    TimesOfAppend(marks + TimeFields(times), participants);
    BookTimeOfAppend(marks, TimeFields(times));
    BookTimeOfAppend(marks + TimeFields(times), participants);
  }

  datatype Outcome = Outcome(index: seq<Record>, files: set<string>, handle: Handle, ok: bool, err: ErrCode)

  ghost predicate ScanPasses(c: Scan) {
    && LastFault(c, c.index).None?
    && (c.h.booked ==> OwnFound(c, c.index))
    && ((OwnFound(c, c.index) && !c.booking) || forall f :: f in c.h.participants ==> GoodAddress(f))
  }

  /** The last part of docommitevent: nothing changes hands unless every step before succeeded. */
  ghost function Install(index: seq<Record>, files: set<string>, h: Handle, booking: bool, times: seq<Interval>,
                         nindex: seq<Record>, deleted: Option<string>, err: ErrCode, io: Io): Outcome
  {
    if !io.write || (!booking && !io.moveEvent) then Outcome(index, files, h, false, err)
    else
      var moved := if booking then files else files + {h.file};
      if !io.moveIndex then Outcome(index, moved, h, false, err)
      else if booking then Outcome(nindex, moved, h.(booked := true, times := times), true, err)
      else Outcome(nindex, if deleted.Some? then moved - {deleted.value} else moved,
                   h.(booked := false, pending := false, times := if h.booked then h.times else times), true, err)
  }

  /** docommitevent */
  ghost function CommitStep(index: seq<Record>, files: set<string>, h: Handle, booking: bool,
                            req: Request, now: nat, io: Io): Outcome
  {
    if !h.pending then Outcome(index, files, h, false, EventNotFound)
    else if req.times == [] then Outcome(index, files, h, false, ConflictErr)
    else if !Bookable(req.times) then Outcome(index, files, h, false, SysErr)
    else if !io.lock then Outcome(index, files, h, false, LockErr)
    else
      var times := SortedTimes(req.times).value;
      var c := Scan(h, booking, req.okConflict, times, index);
      if h.booked && !OwnFound(c, index) then
        Outcome(index, files, h.(booked := false), false, EventNotFound)
      else if !ScanPasses(c) then
        Outcome(index, files, h, false, if LastFault(c, index).Some? then LastFault(c, index).value else SysErr)
      else
        var nindex := if OwnFound(c, index) && !booking then Rewrite(c, index)
                      else Rewrite(c, index) + [NewRecord(h.id, h.file, h.participants, booking, times, req.byProxy,
                                                          CancelledFound(c, index), now)];
        Install(index, files, h, booking, times, nindex, DeletedFile(c, index), SysErr, io)
  }

  // ----- cancelling, restoring and deleting -----

  function CancelOne(r: Record, id: string): Record {
    if r.id == id && !IsCancelled(r) then r.(fields := r.fields + [Cancelled]) else r
  }

  function CancelAll(index: seq<Record>, id: string): seq<Record> {
    if index == [] then [] else
      CancelAll(index[..|index| - 1], id) + [CancelOne(index[|index| - 1], id)]
  }

  function CancelStep(index: seq<Record>, id: string, io: Io): (seq<Record>, bool, ErrCode) {
    if !io.lock then (index, false, SysErr)
    else if !Exists(index, id) then (index, false, EventNotFound)
    else if !io.write || !io.moveIndex then (index, false, SysErr)
    else (CancelAll(index, id), true, SysErr)
  }

  function DeleteAll(index: seq<Record>, id: string): seq<Record> {
    if index == [] then [] else
      var r := index[|index| - 1];
      DeleteAll(index[..|index| - 1], id) + (if r.id == id then [] else [r])
  }

  /** The event file of the last record with the given id. */
  function FileOf(index: seq<Record>, id: string): (f: Option<string>)
    ensures f.Some? ==> exists r :: r in index && r.id == id && f.value == r.file
    ensures f.Some? <==> Exists(index, id)
  {
    if index == [] then None else
      assert index == index[..|index| - 1] + [index[|index| - 1]];
      if index[|index| - 1].id == id then Some(index[|index| - 1].file) else FileOf(index[..|index| - 1], id)
  }

  function DeleteStep(index: seq<Record>, files: set<string>, id: string, io: Io)
    : (seq<Record>, set<string>, bool, ErrCode)
  {
    if !io.lock then (index, files, false, SysErr)
    else if !Exists(index, id) then (index, files, false, EventNotFound)
    else if !io.write || !io.moveIndex then (index, files, false, SysErr)
    else (DeleteAll(index, id), files - {FileOf(index, id).value}, true, SysErr)
  }

  /** The first record with the given id. */
  function FirstWith(index: seq<Record>, id: string): (r: Record)
    requires Exists(index, id)
    ensures r in index && r.id == id
  {
    if index[0].id == id then index[0] else FirstWith(index[1..], id)
  }

  predicate Compared(r: Record, id: string) {
    r.id != id && !IsCancelled(r)
  }

  /** What uncancelevent remembers of its comparisons: the outcome of the last one only. */
  ghost predicate LastVerdict(index: seq<Record>, id: string, times: seq<Interval>) {
    if index == [] then false
    else if Compared(index[|index| - 1], id) then SomeConflict(Times(index[|index| - 1].fields), times)
    else LastVerdict(index[..|index| - 1], id, times)
  }

  /** Some event that the restored one is compared with conflicts with it. */
  ghost predicate SomeVerdict(index: seq<Record>, id: string, times: seq<Interval>) {
    exists r :: r in index && Compared(r, id) && SomeConflict(Times(r.fields), times)
  }

  /** Conflicts do not depend on the order of the times. */
  lemma SortedConflicts(times: seq<Interval>)
    ensures forall x :: x in Qsort(times) <==> x in times
  {
    assert forall x :: x in Qsort(times) <==> x in multiset(Qsort(times));
    assert forall x :: x in times <==> x in multiset(times);
  }

  lemma {:induction false} SameVerdict(index: seq<Record>, id: string, times: seq<Interval>, others: seq<Interval>)
    requires forall x :: x in times <==> x in others
    ensures LastVerdict(index, id, times) <==> LastVerdict(index, id, others)
    ensures SomeVerdict(index, id, times) <==> SomeVerdict(index, id, others)
  {
    if index != [] { SameVerdict(index[..|index| - 1], id, times, others); }
  }

  function RestoreOne(r: Record, id: string): Record {
    if r.id == id && IsCancelled(r) then r.(fields := RemoveField(r.fields, CANCELLED_FIELD)) else r
  }

  function RestoreAll(index: seq<Record>, id: string): seq<Record> {
    if index == [] then []
    else RestoreAll(index[..|index| - 1], id) + [RestoreOne(index[|index| - 1], id)]
  }

  lemma RestoreNone(id: string, times: seq<Interval>)
    ensures RestoreAll([], id) == [] && !LastVerdict([], id, times) && !SomeVerdict([], id, times)
  {
  }

  lemma RestoreNext(rs: seq<Record>, r: Record, id: string, times: seq<Interval>)
    ensures RestoreAll(rs + [r], id) == RestoreAll(rs, id) + [RestoreOne(r, id)]
    ensures LastVerdict(rs + [r], id, times)
       <==> if Compared(r, id) then SomeConflict(Times(r.fields), times) else LastVerdict(rs, id, times)
    ensures SomeVerdict(rs + [r], id, times)
       <==> SomeVerdict(rs, id, times) || (Compared(r, id) && SomeConflict(Times(r.fields), times))
  {
    assert (rs + [r])[..|rs|] == rs;
  }

  /** uncancelevent: whether it fails is up to the last comparison, the error code to all of them. */
  ghost function UncancelStep(index: seq<Record>, id: string, okConflict: bool, io: Io): (seq<Record>, bool, ErrCode) {
    if !io.lock then (index, false, SysErr)
    else if !Exists(index, id) then (index, false, EventNotFound)
    else
      var times := Times(FirstWith(index, id).fields);
      var err := if !okConflict && SomeVerdict(index, id, times) then ConflictErr else SysErr;
      if times != [] && !Bookable(times) then (index, false, SysErr)
      else if !okConflict && LastVerdict(index, id, times) then (index, false, err)
      else if !io.write || !io.moveIndex then (index, false, err)
      else (RestoreAll(index, id), true, err)
  }

  // ----- spring cleaning -----

  const BOOKING_LIFETIME := 60 * 60

  /** No time of the event ends after the given moment. */
  predicate Expired(fs: seq<Field>, when: int) {
    forall t :: t in Times(fs) ==> t.end <= when
  }

  datatype Sweep = Sweep(files: set<string>, unreadable: set<string>, now: int, purge: int)

  /** The file cannot be examined, and not because it is missing. */
  predicate Stops(w: Sweep, r: Record) {
    !IsBooked(r) && r.file in w.unreadable
  }

  predicate Survives(w: Sweep, r: Record) {
    if IsBooked(r) then BookTime(r.fields).value >= w.now - BOOKING_LIFETIME
    else r.file in w.files && !Expired(r.fields, w.now - w.purge)
  }

  function Swept(w: Sweep, index: seq<Record>): seq<Record> {
    if index == [] || Stops(w, index[0]) then []
    else (if Survives(w, index[0]) then [index[0]] else []) + Swept(w, index[1..])
  }

  predicate SweepCompletes(w: Sweep, index: seq<Record>) {
    forall r :: r in index ==> !Stops(w, r)
  }

  /** What is in the new index of cleanup: every line, or those before the first that could not be written. */
  function OnDisk(rs: seq<Record>, cut: nat, io: Io): seq<Record> {
    if io.write || |rs| <= cut then rs else rs[..cut]
  }

  /** cleanup: note that the new index is installed even when the pass stopped early or a write failed. */
  function CleanupStep(index: seq<Record>, w: Sweep, cut: nat, io: Io): (seq<Record>, set<string>, bool) {
    var nindex := OnDisk(Swept(w, index), cut, io);
    if !io.lock || !io.moveIndex then (index, w.files, false)
    else if !SweepCompletes(w, index) || !io.write then (nindex, w.files, false)
    else (nindex, set r | r in nindex && r.file in w.files :: r.file, true)
  }
}
