/** The timer list of src/pcp/pcpdtimer.c. */
module Timers {

  // ----- what the list holds, as a value -----

  datatype Entry<T> = Entry(timer: T, alarm: int)

  function Removed<T(==)>(s: seq<Entry<T>>, t: T): seq<Entry<T>> {
    if s == [] then []
    else if s[0].timer == t then Removed(s[1..], t)
    else [s[0]] + Removed(s[1..], t)
  }

  /** A new entry goes after every alarm that is not later. */
  function Inserted<T>(s: seq<Entry<T>>, e: Entry<T>): seq<Entry<T>> {
    if s == [] || s[0].alarm > e.alarm then [e] + s else [s[0]] + Inserted(s[1..], e)
  }

  function Installed<T(==)>(s: seq<Entry<T>>, t: T, alarm: int): seq<Entry<T>> {
    Inserted(Removed(s, t), Entry(t, alarm))
  }

  lemma {:induction false} RemovedHolds<T>(s: seq<Entry<T>>, t: T, e: Entry<T>)
    ensures e in Removed(s, t) <==> e in s && e.timer != t
  {
    if s != [] { RemovedHolds(s[1..], t, e); }
  }

  lemma {:induction false} InsertedMembers<T>(s: seq<Entry<T>>, n: Entry<T>)
    ensures forall e :: e in Inserted(s, n) <==> e in s || e == n
  {
    if s != [] && s[0].alarm <= n.alarm { InsertedMembers(s[1..], n); }
  }

  // ----- every run of installs and triggers -----

  datatype Op<T> = Install(timer: T, alarm: int) | Trigger(timer: T)

  function Run<T(==)>(ops: seq<Op<T>>): seq<Entry<T>> {
    if ops == [] then [] else Apply(Run(ops[..|ops| - 1]), ops[|ops| - 1])
  }

  /** The position of the last operation on a timer, or -1. */
  function LastOn<T(==)>(ops: seq<Op<T>>, t: T): (n: int)
    ensures -1 <= n < |ops|
    ensures n >= 0 ==> ops[n].timer == t
  {
    if ops == [] then -1
    else if ops[|ops| - 1].timer == t then |ops| - 1
    else LastOn(ops[..|ops| - 1], t)
  }

  /** Earlier alarms first, and first in, first out among equal ones. */
  predicate InOrder<T(==)>(ops: seq<Op<T>>, a: Entry<T>, b: Entry<T>) {
    a.alarm < b.alarm || (a.alarm == b.alarm && LastOn(ops, a.timer) < LastOn(ops, b.timer))
  }

  predicate Ascending<T(==)>(ops: seq<Op<T>>, s: seq<Entry<T>>) {
    s == [] || ((forall e :: e in s[1..] ==> InOrder(ops, s[0], e)) && Ascending(ops, s[1..]))
  }

  /** The entry e belongs on the list: the last operation on its timer was to install it so. */
  predicate Due<T(==)>(ops: seq<Op<T>>, e: Entry<T>) {
    var k := LastOn(ops, e.timer);
    k >= 0 && ops[k] == Install(e.timer, e.alarm)
  }

  ghost predicate Scheduled<T>(ops: seq<Op<T>>, s: seq<Entry<T>>) {
    && (forall e :: e in s ==> Due(ops, e))
    && (forall k :: 0 <= k < |ops| && ops[k].Install? && Due(ops, Entry(ops[k].timer, ops[k].alarm))
          ==> Entry(ops[k].timer, ops[k].alarm) in s)
    && Ascending(ops, s)
  }

  lemma {:induction false} AscendingPairs<T>(ops: seq<Op<T>>, s: seq<Entry<T>>, i: nat, j: nat)
    requires Ascending(ops, s) && i < j < |s|
    ensures InOrder(ops, s[i], s[j])
  {
    if i > 0 {
      AscendingPairs(ops, s[1..], i - 1, j - 1);
    } else {
      assert s[1..][j - 1] == s[j];
    }
  }

  lemma LastOnNext<T>(ops: seq<Op<T>>, op: Op<T>, t: T)
    ensures LastOn(ops + [op], t) == if op.timer == t then |ops| else LastOn(ops, t)
  {
    assert (ops + [op])[..|ops|] == ops;
  }

  lemma SameOrder<T>(ops: seq<Op<T>>, op: Op<T>, a: Entry<T>, b: Entry<T>)
    requires a.timer != op.timer && b.timer != op.timer && InOrder(ops, a, b)
    ensures InOrder(ops + [op], a, b)
  {
    LastOnNext(ops, op, a.timer);
    LastOnNext(ops, op, b.timer);
  }

  /** Whatever happens to one timer, the others stay in order. */
  lemma {:induction false} RemovedAscends<T>(ops: seq<Op<T>>, op: Op<T>, s: seq<Entry<T>>)
    requires Ascending(ops, s)
    ensures Ascending(ops + [op], Removed(s, op.timer))
  {
    if s != [] {
      RemovedAscends(ops, op, s[1..]);
      if s[0].timer != op.timer {
        var rest := Removed(s[1..], op.timer);
        forall e | e in rest
          ensures InOrder(ops + [op], s[0], e)
        {
          RemovedHolds(s[1..], op.timer, e);
          assert e in s[1..];
          SameOrder(ops, op, s[0], e);
        }
        AscendingCons(ops + [op], s[0], rest);
      }
    }
  }

  lemma AscendingCons<T>(ops: seq<Op<T>>, a: Entry<T>, s: seq<Entry<T>>)
    ensures Ascending(ops, [a] + s) <==> (forall e :: e in s ==> InOrder(ops, a, e)) && Ascending(ops, s)
  {
    assert ([a] + s)[1..] == s;
  }

  /** The newest install goes behind every other entry with the same alarm. */
  lemma {:induction false} InsertedAscends<T>(ops: seq<Op<T>>, s: seq<Entry<T>>, n: Entry<T>)
    requires Ascending(ops, s)
    requires forall e :: e in s ==> LastOn(ops, e.timer) < LastOn(ops, n.timer)
    ensures Ascending(ops, Inserted(s, n))
  {
    if s != [] && s[0].alarm <= n.alarm {
      InsertedAscends(ops, s[1..], n);
      InsertedMembers(s[1..], n);
      assert InOrder(ops, s[0], n);
      AscendingCons(ops, s[0], Inserted(s[1..], n));
      assert Ascending(ops, [s[0]] + Inserted(s[1..], n));
    } else {
      if s != [] { AscendsFrom(ops, s, n); }
      AscendingCons(ops, n, s);
      assert Ascending(ops, [n] + s);
    }
  }

  lemma AscendsFrom<T>(ops: seq<Op<T>>, s: seq<Entry<T>>, n: Entry<T>)
    requires s != [] && Ascending(ops, s) && n.alarm < s[0].alarm
    ensures forall e :: e in s ==> InOrder(ops, n, e)
  {
    forall e | e in s
      ensures InOrder(ops, n, e)
    {
      assert e == s[0] || e in s[1..];
    }
  }

  lemma LastOnIsFirstBefore<T>(ops: seq<Op<T>>, op: Op<T>, t: T)
    ensures t != op.timer ==> LastOn(ops + [op], t) < LastOn(ops + [op], op.timer)
  {
    LastOnNext(ops, op, t);
    LastOnNext(ops, op, op.timer);
  }

  lemma DueNext<T>(ops: seq<Op<T>>, op: Op<T>, e: Entry<T>)
    ensures Due(ops + [op], e) <==> if e.timer == op.timer then op == Install(e.timer, e.alarm) else Due(ops, e)
  {
    LastOnNext(ops, op, e.timer);
  }

  lemma ScheduledHolds<T>(ops: seq<Op<T>>, s: seq<Entry<T>>, e: Entry<T>)
    requires Scheduled(ops, s)
    ensures e in s <==> Due(ops, e)
  {
    if Due(ops, e) {
      var k := LastOn(ops, e.timer);
      assert Entry(ops[k].timer, ops[k].alarm) == e;
    }
  }

  function Apply<T(==)>(s: seq<Entry<T>>, op: Op<T>): seq<Entry<T>> {
    match op
    case Install(t, alarm) => Installed(s, t, alarm)
    case Trigger(t) => Removed(s, t)
  }

  lemma AppliedMembers<T>(ops: seq<Op<T>>, op: Op<T>, s: seq<Entry<T>>, e: Entry<T>)
    requires Scheduled(ops, s)
    ensures e in Apply(s, op) <==> Due(ops + [op], e)
  {
    RemovedHolds(s, op.timer, e);
    DueNext(ops, op, e);
    ScheduledHolds(ops, s, e);
    if op.Install? { InsertedMembers(Removed(s, op.timer), Entry(op.timer, op.alarm)); }
  }

  lemma AppliedAscends<T>(ops: seq<Op<T>>, op: Op<T>, s: seq<Entry<T>>)
    requires Ascending(ops, s)
    ensures Ascending(ops + [op], Apply(s, op))
  {
    RemovedAscends(ops, op, s);
    if op.Install? {
      var rest, n := Removed(s, op.timer), Entry(op.timer, op.alarm);
      forall e | e in rest
        ensures LastOn(ops + [op], e.timer) < LastOn(ops + [op], n.timer)
      {
        RemovedHolds(s, op.timer, e);
        LastOnIsFirstBefore(ops, op, e.timer);
      }
      InsertedAscends(ops + [op], rest, n);
    }
  }

  lemma StepIsScheduled<T>(ops: seq<Op<T>>, op: Op<T>, s: seq<Entry<T>>)
    requires Scheduled(ops, s)
    ensures Scheduled(ops + [op], Apply(s, op))
  {
    AppliedAscends(ops, op, s);
    var after, next := ops + [op], Apply(s, op);
    forall e | e in next
      ensures Due(after, e)
    {
      AppliedMembers(ops, op, s, e);
    }
    forall k | 0 <= k < |after| && after[k].Install? && Due(after, Entry(after[k].timer, after[k].alarm))
      ensures Entry(after[k].timer, after[k].alarm) in next
    {
      AppliedMembers(ops, op, s, Entry(after[k].timer, after[k].alarm));
    }
  }

  /** After any run the list holds exactly the timers whose last operation was an install, each with
      the alarm it was last given, by alarm and, among equal alarms, in the order of installation. */
  lemma {:induction false} RunIsScheduled<T>(ops: seq<Op<T>>)
    ensures Scheduled(ops, Run(ops))
  {
    if ops != [] {
      var init, op := ops[..|ops| - 1], ops[|ops| - 1];
      assert ops == init + [op];
      RunIsScheduled(init);
      StepIsScheduled(init, op, Run(init));
    }
  }

  // ----- the linked list -----

  class Timer {
    var next: Timer?
    var prev: Timer?
    var alarm: int

    /** pcpdtimer_init */
    constructor ()
      ensures alarm == 0 && next == null && prev == null
    {
      next, prev, alarm := null, null, 0;
    }
  }

  /** The chain without its k-th timer, and with a timer put before the k-th. */
  function Without<T>(s: seq<T>, k: nat): seq<T>
    requires k < |s|
  {
    s[..k] + s[k + 1..]
  }

  function With<T>(s: seq<T>, k: nat, x: T): seq<T>
    requires k <= |s|
  {
    s[..k] + [x] + s[k..]
  }

  ghost predicate Distinct<T>(s: seq<T>) {
    forall i, j :: 0 <= i < j < |s| ==> s[i] != s[j]
  }

  lemma WithoutDistinct<T>(s: seq<T>, k: nat)
    requires k < |s| && Distinct(s)
    ensures Distinct(Without(s, k)) && s[k] !in Without(s, k)
    ensures forall x :: x in s <==> x in Without(s, k) || x == s[k]
  {
    var w := Without(s, k);
    forall i: nat | i < |w|
      ensures w[i] == s[if i < k then i else i + 1]
    {}
    forall x | x in s && x != s[k]
      ensures x in w
    {
      var i: nat :| i < |s| && s[i] == x;
      assert w[if i < k then i else i - 1] == x;
    }
  }

  lemma WithDistinct<T>(s: seq<T>, k: nat, x: T)
    requires k <= |s| && x !in s && Distinct(s)
    ensures Distinct(With(s, k, x))
    ensures forall y :: y in With(s, k, x) <==> y in s || y == x
  {
    var w := With(s, k, x);
    assert w[k] == x;
    forall i: nat | i < |w|
      ensures w[i] == if i < k then s[i] else if i == k then x else s[i - 1]
    {}
    forall y | y in s
      ensures y in w
    {
      var i: nat :| i < |s| && s[i] == y;
      assert w[if i < k then i else i + 1] == y;
    }
  }

  /** On a list without repeated timers, removing a timer takes out its one entry. */
  lemma {:induction false} RemovedAt<T>(s: seq<Entry<T>>, k: nat)
    requires k < |s|
    requires forall i, j :: 0 <= i < j < |s| ==> s[i].timer != s[j].timer
    ensures Removed(s, s[k].timer) == Without(s, k)
  {
    if k == 0 {
      RemovedNone(s[1..], s[0].timer);
    } else {
      RemovedAt(s[1..], k - 1);
    }
  }

  lemma {:induction false} RemovedNone<T>(s: seq<Entry<T>>, t: T)
    requires forall i :: 0 <= i < |s| ==> s[i].timer != t
    ensures Removed(s, t) == s
  {
    if s != [] { RemovedNone(s[1..], t); }
  }

  lemma {:induction false} InsertedAt<T>(s: seq<Entry<T>>, n: Entry<T>, k: nat)
    requires k <= |s|
    requires forall i :: 0 <= i < k ==> s[i].alarm <= n.alarm
    requires k < |s| ==> s[k].alarm > n.alarm
    ensures Inserted(s, n) == With(s, k, n)
  {
    if k > 0 { InsertedAt(s[1..], n, k - 1); }
  }

  lemma RunNext<T>(ops: seq<Op<T>>, op: Op<T>)
    ensures Run(ops + [op]) == Apply(Run(ops), op)
  {
    assert (ops + [op])[..|ops|] == ops;
  }

  class TimerList {
    var first: Timer?
    var last: Timer?
    ghost var chain: seq<Timer>     // the timers from first to last
    ghost var all: set<Timer>       // every timer that may ever be installed here
    ghost var ops: seq<Op<Timer>>   // what has been done so far

    /** The next chain from first and the prev chain from last are one chain, read both ways. */
    ghost predicate Linked()
      reads this, all
    {
      && (forall i :: 0 <= i < |chain| ==> chain[i] in all)
      && Distinct(chain)
      && (chain == [] ==> first == null && last == null)
      && (chain != [] ==> first == chain[0] && last == chain[|chain| - 1] && first.prev == null && last.next == null)
      && (forall i, j :: 0 <= i && j == i + 1 && j < |chain| ==> chain[i].next == chain[j] && chain[j].prev == chain[i])
    }

    ghost predicate Valid()
      reads this, all
    {
      && Linked()
      && (forall t :: t in all ==> (t.alarm != 0 <==> t in chain))
      && Entries() == Run(ops)
    }

    ghost function Entries(): (s: seq<Entry<Timer>>)
      requires forall i :: 0 <= i < |chain| ==> chain[i] in all
      reads this, all
      ensures |s| == |chain|
      ensures forall i :: 0 <= i < |s| ==> s[i] == Entry(chain[i], chain[i].alarm)
    {
      seq(|chain|, i requires 0 <= i < |chain| && chain[i] in all reads this, all => Entry(chain[i], chain[i].alarm))
    }

    constructor ()
      ensures Valid() && all == {} && ops == []
    {
      first, last, chain, all, ops := null, null, [], {}, [];
    }

    /** A timer that pcpdtimer_init has prepared. */
    ghost method Register(t: Timer)
      requires Valid() && t !in all && t.alarm == 0
      modifies this
      ensures Valid() && all == old(all) + {t} && ops == old(ops)
    {
      all := all + {t};
    }

    /** The unlinking that both operations begin with. */
    method Unlink(p: Timer, ghost k: nat)
      requires Linked() && k < |chain| && chain[k] == p
      modifies this, all
      ensures Linked() && all == old(all) && ops == old(ops) && chain == old(Without(chain, k))
      ensures forall t :: t in all ==> t.alarm == old(t.alarm)
    {
      assert k > 0 ==> p.prev == chain[k - 1] && chain[k - 1].next == p;
      assert k + 1 < |chain| ==> p.next == chain[k + 1] && chain[k + 1].prev == p;
      ghost var was := chain;
      if p.prev != null {
        p.prev.next := p.next;
      } else {
        first := p.next;
      }
      if p.next != null {
        p.next.prev := p.prev;
      } else {
        last := p.prev;
      }
      WithoutDistinct(chain, k);
      chain := Without(chain, k);
      forall i, j | 0 <= i && j == i + 1 && j < |chain|
        ensures chain[i].next == chain[j] && chain[j].prev == chain[i]
      {
        if j < k {
          assert chain[i] == was[i] && chain[j] == was[j];
        } else if i < k {
          assert chain[i] == was[i] && chain[j] == was[j + 1];
        } else {
          assert chain[i] == was[i + 1] && chain[j] == was[j + 1];
        }
      }
    }

    /** The linking that pcpdtimer_install ends with: before q, or at the end. */
    method Link(p: Timer, q: Timer?, ghost k: nat)
      requires Linked() && p in all && p !in chain && k <= |chain|
      requires q == if k < |chain| then chain[k] else null
      modifies this, all
      ensures Linked() && all == old(all) && ops == old(ops) && chain == old(With(chain, k, p))
      ensures forall t :: t in all ==> t.alarm == old(t.alarm)
    {
      ghost var was := chain;
      assert 0 < k < |chain| ==> chain[k - 1].next == chain[k] && chain[k].prev == chain[k - 1];
      if q == null {
        p.prev := last;
        if p.prev != null {
          p.prev.next := p;
        } else {
          first := p;
        }
        p.next := null;
        last := p;
      } else {
        p.prev := q.prev;
        if p.prev != null {
          p.prev.next := p;
        } else {
          first := p;
        }
        p.next := q;
        q.prev := p;
      }
      WithDistinct(chain, k, p);
      chain := With(chain, k, p);
      forall i, j | 0 <= i && j == i + 1 && j < |chain|
        ensures chain[i].next == chain[j] && chain[j].prev == chain[i]
      {
        if j < k {
          assert chain[i] == was[i] && chain[j] == was[j];
        } else if k < i {
          assert chain[i] == was[i - 1] && chain[j] == was[j - 1];
        }
      }
    }

    /** After any sequence of installs and triggers the list is in order. */
    lemma ListIsScheduled()
      requires Valid()
      ensures Scheduled(ops, Entries())
    {
      RunIsScheduled(ops);
    }

    lemma LinkedLists()
      requires Linked()
      ensures |Entries()| == |chain|
      ensures forall i, j :: 0 <= i < j < |chain| ==> Entries()[i].timer != Entries()[j].timer
      ensures first == if chain == [] then null else chain[0]
      ensures forall i :: 0 <= i < |chain| ==> chain[i] in all
    {
    }

    lemma LinkedNext(k: nat)
      requires Linked() && k < |chain|
      ensures chain[k].next == if k + 1 < |chain| then chain[k + 1] else null
    {
    }

    /** The beginning of both operations. */
    method Detach(p: Timer)
      requires Linked() && p in all && (p.alarm != 0 <==> p in chain)
      modifies this, all
      ensures Linked() && all == old(all) && ops == old(ops)
      ensures Entries() == Removed(old(Entries()), p)
      ensures forall t :: t in chain <==> t in old(chain) && t != p
      ensures forall t :: t in all ==> t.alarm == old(t.alarm)
    {
      ghost var was := Entries();
      LinkedLists();
      if p.alarm != 0 {
        ghost var i: nat :| i < |chain| && chain[i] == p;
        WithoutDistinct(chain, i);
        hide Linked;
        Unlink(p, i);
        RemovedAt(was, i);
        LinkedLists();
        assert Entries() == Without(was, i);
      } else {
        RemovedNone(was, p);
      }
    }

    /** The walk to the first timer with a later alarm. */
    method Find(alarm: int) returns (q: Timer?, ghost k: nat)
      requires Linked()
      ensures k <= |chain| && q == if k < |chain| then chain[k] else null
      ensures forall i :: 0 <= i < k ==> chain[i].alarm <= alarm
      ensures k < |chain| ==> chain[k].alarm > alarm
    {
      hide Linked;
      LinkedLists();
      q := first;
      k := 0;
      while q != null && q.alarm <= alarm
        invariant k <= |chain| && q == if k < |chain| then chain[k] else null
        invariant forall i :: 0 <= i < k ==> chain[i].alarm <= alarm
        decreases |chain| - k
      {
        LinkedNext(k);
        k := k + 1;
        q := q.next;
      }
    }

    lemma EntriesWith(rest: seq<Entry<Timer>>, before: seq<Timer>, k: nat, p: Timer)
      requires k <= |before| == |rest| && Linked() && chain == With(before, k, p)
      requires forall i :: 0 <= i < |rest| ==> rest[i] == Entry(before[i], before[i].alarm)
      ensures Entries() == With(rest, k, Entry(p, p.alarm))
    {
    }

    /** A timer off the list gets its alarm. */
    method SetAlarm(p: Timer, alarm: int, ghost op: Op<Timer>)
      requires Linked() && p in all && p !in chain
      modifies this`ops, p`alarm
      ensures Linked() && Entries() == old(Entries())
      ensures p.alarm == alarm && ops == old(ops) + [op]
    {
      p.alarm := alarm;
      ops := ops + [op];
      assert Entries() == old(Entries());
    }

    /** A timer that is off the list goes to its place. */
    method Place(p: Timer, q: Timer?, ghost k: nat)
      requires Linked() && p in all && p !in chain && k <= |chain|
      requires q == if k < |chain| then chain[k] else null
      modifies this, all
      ensures Linked() && all == old(all) && ops == old(ops)
      ensures Entries() == With(old(Entries()), k, Entry(p, p.alarm))
      ensures forall t :: t in chain <==> t in old(chain) || t == p
      ensures forall t :: t in all ==> t.alarm == old(t.alarm)
    {
      LinkedLists();
      ghost var rest, before := Entries(), chain;
      WithDistinct(chain, k, p);
      hide Linked, With;
      Link(p, q, k);
      LinkedLists();
      EntriesWith(rest, before, k, p);
    }

    /** The list is right after every install; whether a timer is on it can be told from its alarm exactly
        when that is not 0, the mark of a timer that is off the list. */
    method Install(p: Timer, nseconds: int, now: int)
      requires Valid() && p in all
      modifies this, all
      ensures Linked() && Entries() == Run(ops) && all == old(all) && ops == old(ops) + [Op.Install(p, now + nseconds)]
      ensures Valid() <==> now + nseconds != 0
      ensures forall t :: t in all ==> t.alarm == if t == p then now + nseconds else old(t.alarm)
    {
      hide Linked, With, Inserted, Removed, Run;
      LinkedLists();
      Detach(p);
      SetAlarm(p, now + nseconds, Op.Install(p, now + nseconds));
      LinkedLists();
      ghost var rest := Entries();
      var q, k := Find(p.alarm);
      InsertedAt(rest, Entry(p, p.alarm), k);
      Place(p, q, k);
      RunNext(old(ops), Op.Install(p, p.alarm));
    }

    method Triggered(p: Timer)
      requires Valid() && p in all
      modifies this, all
      ensures Valid() && all == old(all) && ops == old(ops) + [Op.Trigger(p)]
      ensures forall t :: t in all ==> t.alarm == if t == p then 0 else old(t.alarm)
    {
      hide Linked, Removed, Run;
      RunNext(ops, Op.Trigger(p));
      LinkedLists();
      if p.alarm == 0 {
        RemovedNone(Entries(), p);
        SetAlarm(p, 0, Op.Trigger(p));
        return;
      }
      Detach(p);
      SetAlarm(p, 0, Op.Trigger(p));
    }
  }
}
