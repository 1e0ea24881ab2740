/** Event time lists: src/pcp/pcpaddcommon.c. */
module EventTimes {
  import opened Text

  datatype Interval = Interval(start: nat, end: nat)

  /** The overlap test that the calendar index applies to two stored intervals. */
  predicate Conflict(a: Interval, b: Interval) {
    a.start < b.end && b.start < a.end
  }

  /** compar_times(a, b) <= 0 */
  predicate Leq(a: Interval, b: Interval) {
    a.start < b.start || (a.start == b.start && a.end <= b.end)
  }

  ghost predicate Sorted(s: seq<Interval>) {
    forall i, j :: 0 <= i < j < |s| ==> Leq(s[i], s[j])
  }

  /** A list of times that one event may hold. */
  ghost predicate Bookable(t: seq<Interval>) {
    && t != []
    && (forall i :: 0 <= i < |t| ==> t[i].start <= t[i].end)
    && (forall i, j :: 0 <= i < j < |t| ==> !Conflict(t[i], t[j]))
  }

  lemma SmallestFirst(least: Interval, rest: seq<Interval>, others: seq<Interval>, x: Interval)
    requires Sorted(rest) && multiset(rest) == multiset(others) + multiset{x}
    requires Leq(least, x) && forall y :: y in others ==> Leq(least, y)
    ensures Sorted([least] + rest)
  {
    forall y | y in rest
      ensures Leq(least, y)
    {
      assert y in multiset(rest);
    }
  }

  function Insert(x: Interval, s: seq<Interval>): (r: seq<Interval>)
    requires Sorted(s)
    ensures Sorted(r) && multiset(r) == multiset(s) + multiset{x}
  {
    if s == [] then [x]
    else if Leq(x, s[0]) then [x] + s
    else
      assert s == [s[0]] + s[1..];
      var rest := Insert(x, s[1..]);
      SmallestFirst(s[0], rest, s[1..], x);
      [s[0]] + rest
  }

  /** Stands for the C library's qsort called with compar_times. */
  function Qsort(s: seq<Interval>): (r: seq<Interval>)
    ensures Sorted(r) && multiset(r) == multiset(s)
  {
    if s == [] then [] else
      assert s == [s[0]] + s[1..];
      Insert(s[0], Qsort(s[1..]))
  }

  /** The check of the sorting routine: no element is reversed, and neighbours do not overlap. */
  ghost predicate NeighboursFit(s: seq<Interval>, n: nat)
    requires n <= |s|
  {
    && (forall i :: 0 <= i < n ==> s[i].start <= s[i].end)
    && (forall i :: 0 < i < n ==> s[i - 1].end <= s[i].start)
  }

  lemma {:induction false} NeighboursFitApart(s: seq<Interval>, i: nat, j: nat)
    requires NeighboursFit(s, |s|) && i < j < |s|
    ensures s[i].end <= s[j].start
    decreases j
  {
    if i + 1 < j { NeighboursFitApart(s, i, j - 1); }
  }

  /** Looking at neighbours only decides whether any two intervals conflict. */
  lemma NeighboursDecide(s: seq<Interval>)
    requires Sorted(s) && s != []
    ensures NeighboursFit(s, |s|) <==> Bookable(s)
  {
    if NeighboursFit(s, |s|) {
      forall i, j | 0 <= i < j < |s|
        ensures !Conflict(s[i], s[j])
      {
        NeighboursFitApart(s, i, j);
      }
    }
    if Bookable(s) {
      forall i | 0 < i < |s|
        ensures s[i - 1].end <= s[i].start
      {
        assert !Conflict(s[i - 1], s[i]) && Leq(s[i - 1], s[i]);
      }
    }
  }

  lemma BookableIsNotEmpty(t: seq<Interval>)
    ensures Bookable(t) ==> t != []
  {
  }

  function Without(s: seq<Interval>, k: nat): (r: seq<Interval>)
    requires k < |s|
    ensures multiset(r) == multiset(s) - multiset{s[k]}
  {
    assert s == s[..k] + [s[k]] + s[k + 1..];
    s[..k] + s[k + 1..]
  }

  /** A pair of positions in one list is matched by a pair of positions in every rearrangement of it. */
  lemma PairMoves(s: seq<Interval>, t: seq<Interval>, i: nat, j: nat) returns (k: nat, l: nat)
    requires multiset(s) == multiset(t) && i < j < |s|
    ensures k < |t| && l < |t| && k != l && t[k] == s[i] && t[l] == s[j]
  {
    assert s[i] in multiset(t);
    k :| 0 <= k < |t| && t[k] == s[i];
    var t' := Without(t, k);
    assert Without(s, i)[j - 1] == s[j];
    assert s[j] in multiset(t');
    var l' :| 0 <= l' < |t'| && t'[l'] == s[j];
    l := if l' < k then l' else l' + 1;
  }

  lemma BookableIgnoresOrder(s: seq<Interval>, t: seq<Interval>)
    requires multiset(s) == multiset(t) && Bookable(s)
    ensures Bookable(t)
  {
    assert |multiset(s)| == |s| && |multiset(t)| == |t|;
    forall i | 0 <= i < |t|
      ensures t[i].start <= t[i].end
    {
      assert t[i] in multiset(s);
    }
    forall i, j | 0 <= i < j < |t|
      ensures !Conflict(t[i], t[j])
    {
      var k, l := PairMoves(t, s, i, j);
    }
  }

  lemma SortedDecides(t: seq<Interval>)
    requires t != []
    ensures |Qsort(t)| == |t|
    ensures NeighboursFit(Qsort(t), |t|) <==> Bookable(t)
    ensures Bookable(t) ==> Bookable(Qsort(t))
  {
    var sorted := Qsort(t);
    assert |multiset(sorted)| == |multiset(t)|;
    NeighboursDecide(sorted);
    if Bookable(sorted) { BookableIgnoresOrder(sorted, t); }
    if Bookable(t) { BookableIgnoresOrder(t, sorted); }
  }

  /** pcp_add_sort_times */
  method SortTimes(t: seq<Interval>) returns (r: Option<seq<Interval>>)
    ensures r.Some? <==> Bookable(t)
    ensures r.Some? ==> Sorted(r.value) && multiset(r.value) == multiset(t) && Bookable(r.value)
    ensures r == SortedTimes(t)
  {
    hide Qsort, Bookable;
    assert Bookable(t) ==> t != [] by { BookableIsNotEmpty(t); }
    if |t| == 0 {
      return None;
    }
    var ptr := new Interval[|t|](_ => Interval(0, 0));
    var i := 0;
    while i < |t|
      invariant i <= |t| && ptr[..i] == t[..i]
    {
      ptr[i] := t[i];
      i := i + 1;
    }
    assert ptr[..] == t;
    var sorted := Qsort(ptr[..]);
    SortedDecides(t);
    i := 0;
    while i < |t|
      invariant i <= |t| && NeighboursFit(sorted, i)
    {
      if sorted[i].start > sorted[i].end {
        return None;
      }
      if i > 0 && sorted[i - 1].end > sorted[i].start {
        return None;
      }
      i := i + 1;
    }
    return Some(sorted);
  }

  /** The value of pcp_add_sort_times, for use in specifications. */
  ghost function SortedTimes(t: seq<Interval>): Option<seq<Interval>> {
    if Bookable(t) then Some(Qsort(t)) else None
  }
}
