/** The calendar driver of src/pcp/pcpdir.c as it runs: line loops that copy and edit the index. */
module Calendar {
  import opened Text
  import opened EventTimes
  import opened CalendarIndex
  import opened CalendarPromises

  predicate HasSpace(s: string) {
    exists i :: 0 <= i < |s| && IsSpace(s[i])
  }

  predicate BadGuest(g: Guest) {
    (g.address.Some? && HasSpace(g.address.value)) || (g.eventid.Some? && HasSpace(g.eventid.value))
  }

  /** struct PCPdir_new_eventid; pending means that tmpfile is still there. */
  class EventHandle {
    const id: string
    const file: string
    const oldId: Option<string>
    const participants: seq<Field>
    var booked: bool
    var pending: bool
    ghost var times: seq<Interval>

    constructor (id: string, file: string, oldId: Option<string>, participants: seq<Field>)
      ensures Snapshot() == Handle(id, file, oldId, participants, false, true, [])
    {
      this.id, this.file, this.oldId, this.participants := id, file, oldId, participants;
      booked, pending, times := false, true, [];
    }

    ghost function Snapshot(): Handle
      reads this
    {
      Handle(id, file, oldId, participants, booked, pending, times)
    }
  }

  class Driver {
    const owner: string          // "@" and the user's name
    var index: seq<Record>
    var files: set<string>       // the event files in the calendar directory

    constructor (owner: string)
      ensures this.owner == owner && index == [] && files == {}
    {
      this.owner, index, files := owner, [], {};
    }

    /** neweventid; unique is the name that mkunique made, saved says whether saveevent could write the
        event. Each guest has an address. */
    method NewEventId(unique: string, oldId: Option<string>, guests: seq<Guest>, saved: bool) returns (h: EventHandle?)
      requires forall g :: g in guests ==> g.address.Some?
      ensures h == null <==> !saved || exists g :: g in guests && BadGuest(g)
      ensures h != null ==> fresh(h)
      ensures h != null ==> h.Snapshot() == Handle(unique + owner, unique, oldId, Invited(guests), false, true, [])
    {
      for ut := 0 to |guests|
        invariant forall k :: 0 <= k < ut ==> !BadGuest(guests[k])
      {
        var address := guests[ut].address.value;
        for q := 0 to |address|
          invariant forall k :: 0 <= k < q ==> !IsSpace(address[k])
        {
          if IsSpace(address[q]) {
            assert BadGuest(guests[ut]);
            return null;
          }
        }
        if guests[ut].eventid.Some? {
          var e := guests[ut].eventid.value;
          for q := 0 to |e|
            invariant forall k :: 0 <= k < q ==> !IsSpace(e[k])
          {
            if IsSpace(e[q]) {
              assert BadGuest(guests[ut]);
              return null;
            }
          }
        }
      }
      if !saved {
        return null;
      }
      var participants: seq<Field> := [];
      for n := 0 to |guests|
        invariant participants == Invited(guests[..n])
      {
        assert guests[..n + 1] == guests[..n] + [guests[n]];
        InvitedNext(guests[..n], guests[n]);
        participants := participants + [Participant(guests[n].address.value, guests[n].eventid)];
      }
      assert guests[..|guests|] == guests;
      h := new EventHandle(unique + owner, unique, oldId, participants);
    }

    /** eventexists: a second pass over the old index. */
    method EventExists(id: string) returns (flag: bool)
      ensures flag <==> Exists(index, id)
    {
      flag := false;
      var i := 0;
      while i < |index|
        invariant i <= |index| && forall k :: 0 <= k < i ==> index[k].id != id
      {
        if index[i].id == id {
          flag := true;
          return;
        }
        i := i + 1;
      }
    }

    /** pcp_is_conflict without a callback. */
    method IsConflict(pi: Record, t: seq<Interval>) returns (conflict: bool)
      ensures conflict <==> SomeConflict(Times(pi.fields), t)
    {
      conflict := false;
      var stored := Times(pi.fields);
      for p := 0 to |stored|
        invariant conflict <==> SomeConflict(stored[..p], t)
      {
        assert stored[..p + 1] == stored[..p] + [stored[p]];
        var before := conflict;
        for i := 0 to |t|
          invariant conflict <==> before || exists k :: 0 <= k < i && Conflict(stored[p], t[k])
        {
          if stored[p].start >= t[i].end || t[i].start >= stored[p].end {
            continue;
          }
          conflict := true;
        }
        assert conflict <==> before || exists y :: y in t && Conflict(stored[p], y);
      }
      assert stored[..|stored|] == stored;
    }

    /** One line of the pass that docommitevent makes: what to write for it, and what is wrong with it. */
    method ScanLine(ae: EventHandle, booking: bool, req: Request, times: seq<Interval>, pi: Record)
      returns (keep: Option<Record>, fault: Option<ErrCode>)
      ensures keep == Kept(Scan(ae.Snapshot(), booking, req.okConflict, times, index), pi)
      ensures fault == Fault(Scan(ae.Snapshot(), booking, req.okConflict, times, index), pi)
    {
      fault := None;
      if ae.booked && pi.id == ae.id {
        keep := if booking then None else Some(pi.(fields := RemoveField(pi.fields, BOOKED_FIELD)));
      } else if ae.oldId == Some(pi.id) {
        if !booking {
          return None, None;
        }
        var pendel := PendingBy(pi.fields);
        if pendel.Some? {
          if pendel.value != ae.id {
            var flag := EventExists(pendel.value);
            fault := if flag then Some(EventLocked) else None;
          }
          keep := Some(pi);
        } else {
          keep := Some(pi.(fields := RemoveField(pi.fields, PENDEL_FIELD) + [Pending(ae.id)]));
        }
      } else {
        keep := Some(pi);
        if !req.okConflict && (!ae.booked || booking) && !IsCancelled(pi) {
          var conflict := IsConflict(pi, times);
          fault := if conflict then Some(ConflictErr) else None;
        }
      }
    }

    /** The line loop of docommitevent. */
    method ScanIndex(ae: EventHandle, booking: bool, req: Request, times: seq<Interval>)
      returns (nindex: seq<Record>, fault: Option<ErrCode>, deleted: Option<string>,
               isCancelled: bool, isBooked: bool, wasBooked: bool)
      ensures var c := Scan(ae.Snapshot(), booking, req.okConflict, times, index);
        && nindex == Rewrite(c, index)
        && fault == LastFault(c, index)
        && deleted == DeletedFile(c, index)
        && (isCancelled <==> CancelledFound(c, index))
        && (wasBooked <==> OwnFound(c, index))
        && (isBooked <==> wasBooked && !booking)
    {
      hide Kept, Fault, Rewrite, LastFault, DeletedFile;
      ghost var c := Scan(ae.Snapshot(), booking, req.okConflict, times, index);
      ScanNone(c);
      nindex, fault, deleted := [], None, None;
      isCancelled, isBooked, wasBooked := false, false, false;
      var i := 0;
      while i < |index|
        invariant i <= |index|
        invariant nindex == Rewrite(c, index[..i])
        invariant fault == LastFault(c, index[..i])
        invariant deleted == DeletedFile(c, index[..i])
        invariant isCancelled <==> CancelledFound(c, index[..i])
        invariant wasBooked <==> OwnFound(c, index[..i])
        invariant isBooked <==> wasBooked && !booking
      {
        var pi := index[i];
        assert index[..i + 1] == index[..i] + [pi];
        ScanOne(c, index[..i], pi);
        var keep, wrong := ScanLine(ae, booking, req, times, pi);
        if keep.Some? {
          nindex := nindex + [keep.value];
        }
        if wrong.Some? {
          fault := wrong;
        }
        if ae.booked && pi.id == ae.id {
          wasBooked, isBooked := true, !booking;
        } else if ae.oldId == Some(pi.id) {
          isCancelled := isCancelled || IsCancelled(pi);
          deleted := Some(pi.file);
        }
        i := i + 1;
      }
      assert index[..|index|] == index;
    }

    /** The last part of docommitevent: move the event file, then the new index, into place. */
    method InstallIndex(ae: EventHandle, booking: bool, times: seq<Interval>, nindex: seq<Record>,
                        deleted: Option<string>, io: Io) returns (rc: bool)
      modifies this, ae
      ensures Outcome(index, files, ae.Snapshot(), rc, SysErr)
           == Install(old(index), old(files), old(ae.Snapshot()), booking, times, nindex, deleted, SysErr, io)
    {
      rc := io.write;
      if rc && !booking {
        if io.moveEvent {
          files := files + {ae.file};
        } else {
          rc := false;
        }
      }
      if rc {
        if io.moveIndex {
          index := nindex;
        } else {
          rc := false;
        }
      }
      if rc && !booking {
        if deleted.Some? {
          files := files - {deleted.value};
        }
        ae.times := if ae.booked then ae.times else times;
        ae.pending := false;
        ae.booked := false;
      }
      if rc && booking {
        ae.booked := true;
        ae.times := times;
      }
    }

    /** docommitevent */
    method DoCommitEvent(ae: EventHandle, booking: bool, req: Request, now: nat, io: Io) returns (ok: bool, err: ErrCode)
      modifies this, ae
      ensures Outcome(index, files, ae.Snapshot(), ok, err)
           == CommitStep(old(index), old(files), old(ae.Snapshot()), booking, req, now, io)
    {
      hide Kept, Fault, Rewrite, LastFault, DeletedFile, NewRecord, Install, Bookable, Qsort;
      if !ae.pending {
        return false, EventNotFound;
      }
      if |req.times| == 0 {
        return false, ConflictErr;
      }
      var sorted := SortTimes(req.times);
      if sorted.None? {
        return false, SysErr;
      }
      if !io.lock {
        return false, LockErr;
      }
      var nindex, fault, deleted, isCancelled, isBooked, wasBooked := ScanIndex(ae, booking, req, sorted.value);
      ok, err := fault.None?, if fault.Some? then fault.value else SysErr;
      if ok && !isBooked {
        nindex := nindex + [NewRecord(ae.id, ae.file, ae.participants, booking, sorted.value, req.byProxy, isCancelled, now)];
        ok := AddressesGood(ae);
      }
      if ae.booked && !wasBooked {
        ae.booked := false;
        return false, EventNotFound;
      }
      if ok {
        ok := InstallIndex(ae, booking, sorted.value, nindex, deleted, io);
      }
    }

    /** commitevent */
    method CommitEvent(ae: EventHandle, req: Request, now: nat, io: Io) returns (ok: bool, err: ErrCode)
      requires OnlyParticipants(ae.participants)
      modifies this, ae
      ensures ok <==> GoesThrough(old(index), old(ae.Snapshot()), false, req, io)
      ensures !ok ==> index == old(index)
      ensures ok && old(ae.booked) ==> LeavesAll(old(ae.Snapshot()), false, old(index), index)
      ensures ok && !old(ae.booked) ==> EndsNew(old(index), old(ae.Snapshot()), false, req, now, index)
      ensures ok ==> !ae.booked && !ae.pending
      ensures ok && DistinctIds(old(index)) ==>
        forall f :: f in files <==>
          (f in old(files) || f == ae.file) && forall r :: r in old(index) && Theirs(old(ae.Snapshot()), r) ==> r.file != f
    {
      ghost var h, was, had := ae.Snapshot(), index, files;
      hide CommitStep, GoesThrough, LeavesAll, EndsNew, DistinctIds, OnlyParticipants, Theirs;
      ok, err := DoCommitEvent(ae, false, req, now, io);
      CommitSucceedsIff(was, had, h, false, req, now, io);
      if ok {
        CommitLeaves(was, had, h, false, req, now, io);
        assert ae.Snapshot().(times := h.times) == h.(booked := false, pending := false);
      } else {
        FailureLeaves(was, had, h, false, req, now, io);
      }
    }

    /** bookevent */
    method BookEvent(ae: EventHandle, req: Request, now: nat, io: Io) returns (ok: bool, err: ErrCode)
      requires OnlyParticipants(ae.participants)
      modifies this, ae
      ensures ok <==> GoesThrough(old(index), old(ae.Snapshot()), true, req, io)
      ensures !ok ==> index == old(index)
      ensures ok ==> EndsNew(old(index), old(ae.Snapshot()), true, req, now, index)
      ensures ok ==> ae.booked && ae.pending
      ensures files == old(files)
    {
      ghost var h, was, had := ae.Snapshot(), index, files;
      hide CommitStep, GoesThrough, LeavesAll, EndsNew, DistinctIds, OnlyParticipants, Theirs;
      ok, err := DoCommitEvent(ae, true, req, now, io);
      CommitSucceedsIff(was, had, h, true, req, now, io);
      if ok {
        CommitLeaves(was, had, h, true, req, now, io);
        assert ae.Snapshot().(times := h.times) == h.(booked := true, pending := true);
      } else {
        FailureLeaves(was, had, h, true, req, now, io);
      }
    }

    method AddressesGood(ae: EventHandle) returns (good: bool)
      ensures good <==> forall f :: f in ae.participants ==> GoodAddress(f)
    {
      good := true;
      for ut := 0 to |ae.participants|
        invariant good <==> forall k :: 0 <= k < ut ==> GoodAddress(ae.participants[k])
      {
        if !GoodAddress(ae.participants[ut]) {
          good := false;
        }
      }
    }

    method CancelEvent(id: string, io: Io) returns (ok: bool, err: ErrCode)
      modifies this`index
      ensures (index, ok, err) == CancelStep(old(index), id, io)
      ensures ok <==> io.lock && io.write && io.moveIndex && exists r :: r in old(index) && r.id == id
      ensures ok ==> |index| == |old(index)| && forall i :: 0 <= i < |index| ==>
        index[i] == var r := old(index)[i];
          if r.id == id && Cancelled !in r.fields then r.(fields := r.fields + [Cancelled]) else r
      ensures !ok ==> index == old(index)
    {
      CancelIs(index, id, io);
      ok, err := false, SysErr;
      if !io.lock {
        return;
      }
      var nindex, found, i := [], false, 0;
      while i < |index|
        invariant i <= |index| && nindex == CancelAll(index[..i], id)
        invariant found <==> exists k :: 0 <= k < i && index[k].id == id
      {
        var pi := index[i];
        assert index[..i + 1][..i] == index[..i];
        i := i + 1;
        if pi.id != id {
          nindex := nindex + [pi];
          continue;
        }
        found := true;
        if IsCancelled(pi) {
          nindex := nindex + [pi];
          continue;
        }
        nindex := nindex + [pi.(fields := pi.fields + [Cancelled])];
      }
      assert index[..|index|] == index;
      if !found {
        return false, EventNotFound;
      }
      if io.write && io.moveIndex {
        index, ok := nindex, true;
      }
    }

    /** The first loop of uncancelevent. */
    method FindEvent(id: string) returns (r: Option<Record>)
      ensures r.Some? <==> Exists(index, id)
      ensures r.Some? ==> r.value == FirstWith(index, id)
    {
      hide FirstWith;
      var i := 0;
      while i < |index|
        invariant i <= |index| && forall k :: 0 <= k < i ==> index[k].id != id
      {
        if index[i].id == id {
          FirstIs(index, id, i);
          return Some(index[i]);
        }
        i := i + 1;
      }
      return None;
    }

    /** The second loop of uncancelevent: rc is assigned, not accumulated, at every comparison. */
    method RestoreIndex(id: string, okConflict: bool, times: seq<Interval>)
      returns (nindex: seq<Record>, rc: bool, err: ErrCode)
      ensures nindex == RestoreAll(index, id)
      ensures !rc <==> !okConflict && LastVerdict(index, id, times)
      ensures err == if !okConflict && SomeVerdict(index, id, times) then ConflictErr else SysErr
    {
      hide LastVerdict, SomeVerdict, RestoreAll;
      nindex, rc, err := [], true, SysErr;
      RestoreNone(id, times);
      for i := 0 to |index|
        invariant nindex == RestoreAll(index[..i], id)
        invariant !rc <==> !okConflict && LastVerdict(index[..i], id, times)
        invariant err == if !okConflict && SomeVerdict(index[..i], id, times) then ConflictErr else SysErr
      {
        var pi := index[i];
        assert index[..i + 1] == index[..i] + [pi];
        RestoreNext(index[..i], pi, id, times);
        if pi.id != id {
          if !okConflict && !IsCancelled(pi) {
            var conflict := IsConflict(pi, times);
            rc := !conflict;
            if conflict {
              err := ConflictErr;
            }
          }
          nindex := nindex + [pi];
          continue;
        }
        nindex := nindex + [if IsCancelled(pi) then pi.(fields := RemoveField(pi.fields, CANCELLED_FIELD)) else pi];
      }
      assert index[..|index|] == index;
    }

    /** uncancelevent */
    method UncancelEvent(id: string, okConflict: bool, io: Io) returns (ok: bool, err: ErrCode)
      modifies this`index
      ensures (index, ok, err) == UncancelStep(old(index), id, okConflict, io)
      ensures ok <==> io.lock && io.write && io.moveIndex && Restorable(old(index), id, okConflict)
      ensures ok ==> |index| == |old(index)| && forall i :: 0 <= i < |index| ==>
        index[i] == var r := old(index)[i]; if r.id == id then r.(fields := Uncancelled(r.fields)) else r
    {
      UncancelIs(index, id, okConflict, io);
      hide Restorable, Uncancelled;
      hide LastVerdict, SomeVerdict, Qsort, Bookable, RestoreAll;
      ok, err := false, SysErr;
      if !io.lock {
        return;
      }
      var found := FindEvent(id);
      if found.None? {
        return false, EventNotFound;
      }
      var times := Times(found.value.fields);
      if |times| > 0 {
        var sorted := SortTimes(times);
        if sorted.None? {
          return;
        }
        SortedConflicts(times);
        times := sorted.value;
      }
      var nindex, rc, conflict := RestoreIndex(id, okConflict, times);
      err := conflict;
      SameVerdict(index, id, times, Times(found.value.fields));
      if rc && io.write && io.moveIndex {
        index, ok := nindex, true;
      }
    }

    method DeleteEvent(id: string, io: Io) returns (ok: bool, err: ErrCode)
      modifies this
      ensures (index, files, ok, err) == DeleteStep(old(index), old(files), id, io)
      ensures ok <==> io.lock && io.write && io.moveIndex && exists r :: r in old(index) && r.id == id
      ensures ok ==> Among(index, old(index)) && forall r :: r in index <==> r in old(index) && r.id != id
      ensures ok && DistinctIds(old(index)) ==>
        forall f :: f in files <==> f in old(files) && forall r :: r in old(index) && r.id == id ==> r.file != f
    {
      DeleteIs(index, files, id, io);
      hide Among, DistinctIds;
      ok, err := false, SysErr;
      if !io.lock {
        return;
      }
      var nindex, deleted: Option<string>, i := [], None, 0;
      while i < |index|
        invariant i <= |index| && nindex == DeleteAll(index[..i], id)
        invariant deleted == FileOf(index[..i], id)
      {
        var pi := index[i];
        assert index[..i + 1][..i] == index[..i];
        i := i + 1;
        if pi.id != id {
          nindex := nindex + [pi];
          continue;
        }
        deleted := Some(pi.file);
      }
      assert index[..|index|] == index;
      if deleted.None? {
        return false, EventNotFound;
      }
      if io.write && io.moveIndex {
        index, ok := nindex, true;
        files := files - {deleted.value};
      }
    }

    /** destroyeventid: a booking goes with its handle. */
    method DestroyEventId(p: EventHandle, io: Io)
      modifies this, p
      ensures old(p.booked) ==>
        index == DeleteStep(old(index), old(files), p.id, io).0 && files == DeleteStep(old(index), old(files), p.id, io).1
      ensures !old(p.booked) ==> index == old(index) && files == old(files)
      ensures p.Snapshot() == old(p.Snapshot()).(pending := false)
      ensures old(p.booked) && io.lock && io.write && io.moveIndex ==> forall r :: r in index <==> r in old(index) && r.id != p.id
    {
      DeleteIs(index, files, p.id, io);
      if p.booked {
        var _, _ := DeleteEvent(p.id, io);
      }
      p.pending := false;
    }

    method Cleanup(unreadable: set<string>, cut: nat, now: nat, purge: nat, io: Io) returns (ok: bool)
      modifies this
      ensures (index, files, ok) == CleanupStep(old(index), Sweep(old(files), unreadable, now, purge), cut, io)
    {
      ok := false;
      if !io.lock {
        return;
      }
      var nindex, list, rc := SweepIndex(unreadable, now, purge);
      if !io.write {
        nindex, rc := if |nindex| <= cut then nindex else nindex[..cut], false;
      }
      if !io.moveIndex {
        return;
      }
      index := nindex;
      if rc {
        files := set f | f in files && f in list;
        assert files == set r | r in nindex && r.file in old(files) :: r.file;
        ok := true;
      }
    }

    /** The line loop of cleanup: the lines that stay, their files, and whether it got to the end. */
    method SweepIndex(unreadable: set<string>, now: nat, purge: nat)
      returns (nindex: seq<Record>, list: set<string>, rc: bool)
      ensures var w := Sweep(files, unreadable, now, purge);
        nindex == Swept(w, index) && (rc <==> SweepCompletes(w, index))
      ensures list == set r | r in nindex :: r.file
    {
      ghost var w := Sweep(files, unreadable, now, purge);
      nindex, list, rc := [], {}, true;
      var i := 0;
      SweepStarts(w, index);
      hide Swept;
      while i < |index|
        invariant i <= |index| && Swept(w, index) == nindex + Swept(w, index[i..])
        invariant forall k :: 0 <= k < i ==> !Stops(w, index[k])
        invariant list == set r | r in nindex :: r.file
      {
        var pi := index[i];
        SweepOne(w, index, i, nindex);
        i := i + 1;
        if IsBooked(pi) {
          if BookTime(pi.fields).value < now - BOOKING_LIFETIME {
            continue;
          }
        } else if pi.file in unreadable {
          return nindex, list, false;
        } else if pi.file !in files {
          continue;
        } else if Expired(pi.fields, now - purge) {
          continue;
        }
        list := list + {pi.file};
        nindex := nindex + [pi];
      }
      SweepEnds(w, index, nindex);
    }
  }

  lemma {:induction false} FirstIs(index: seq<Record>, id: string, i: nat)
    requires i < |index| && index[i].id == id && forall k :: 0 <= k < i ==> index[k].id != id
    ensures Exists(index, id) && FirstWith(index, id) == index[i]
  {
    assert index[i] in index;
    if i > 0 { FirstIs(index[1..], id, i - 1); }
  }

  lemma SweepStarts(w: Sweep, index: seq<Record>)
    ensures Swept(w, index) == [] + Swept(w, index[0..])
  {
    assert index[0..] == index;
  }

  lemma SweepOne(w: Sweep, index: seq<Record>, i: nat, nindex: seq<Record>)
    requires i < |index|
    ensures nindex + Swept(w, index[i..]) ==
      if Stops(w, index[i]) then nindex
      else (if Survives(w, index[i]) then nindex + [index[i]] else nindex) + Swept(w, index[i + 1..])
  {
    var rest := Swept(w, index[i + 1..]);
    assert index[i..][0] == index[i] && index[i..][1..] == index[i + 1..];
    assert nindex + ([index[i]] + rest) == (nindex + [index[i]]) + rest && nindex + ([] + rest) == nindex + rest;
    assert nindex + [] == nindex;
  }

  lemma SweepEnds(w: Sweep, index: seq<Record>, nindex: seq<Record>)
    ensures nindex + Swept(w, index[|index|..]) == nindex
  {
  }
}
