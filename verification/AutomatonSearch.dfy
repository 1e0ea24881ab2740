/** String search by a retry automaton: src/maildir/maildirsearch.c and .h. */
module AutomatonSearch {

  /** The first k characters of p are also the last k of its first m. */
  ghost predicate Border(p: string, k: nat, m: nat) {
    k <= m <= |p| && p[..k] == p[m - k..m]
  }

  /** A proper border whose next character differs from p[m]: worth retrying when p[m] has just failed. */
  ghost predicate Retry(p: string, k: nat, m: nat) {
    k < m < |p| && Border(p, k, m) && p[k] != p[m]
  }

  /** r[m] is the longest length worth retrying at m, or 0. */
  ghost predicate IsRetryEntry(p: string, m: nat, v: nat) {
    (v == 0 || Retry(p, v, m)) && forall k: nat :: Retry(p, k, m) ==> k <= v
  }

  ghost predicate IsRetryTable(p: string, r: seq<nat>) {
    |r| == |p| && forall m :: 0 <= m < |p| ==> IsRetryEntry(p, m, r[m])
  }

  /** The text t ends with the first k characters of p. */
  ghost predicate Ends(p: string, k: nat, t: string) {
    k <= |p| && k <= |t| && p[..k] == t[|t| - k..]
  }

  ghost predicate OccursAt(p: string, t: string, i: nat) {
    i + |p| <= |t| && t[i..i + |p|] == p
  }

  ghost predicate Occurs(p: string, t: string) {
    exists i: nat :: OccursAt(p, t, i)
  }

  /** What the automaton's state i says about the text read so far. */
  ghost predicate Tracks(p: string, t: string, i: nat) {
    if i == |p| then Occurs(p, t)
    else i < |p| && !Occurs(p, t) && Ends(p, i, t) && forall k: nat :: Ends(p, k, t) ==> k <= i
  }

  /** The state is a function of the pattern and the text: the specification leaves no choice. */
  lemma TracksIsUnique(p: string, t: string, i: nat, j: nat)
    requires Tracks(p, t, i) && Tracks(p, t, j)
    ensures i == j
  {
  }

  lemma TracksStart(p: string)
    ensures Tracks(p, "", 0)
  {
    assert |p| == 0 ==> OccursAt(p, "", 0);
    assert forall n: nat :: OccursAt(p, "", n) ==> |p| == 0;
  }

  lemma OccursAppend(p: string, t: string, ch: char)
    ensures Occurs(p, t + [ch]) <==> Occurs(p, t) || Ends(p, |p|, t + [ch])
  {
    var u := t + [ch];
    if Occurs(p, u) {
      var i: nat :| OccursAt(p, u, i);
      if i + |p| <= |t| {
        assert u[i..i + |p|] == t[i..i + |p|];
        assert OccursAt(p, t, i);
      } else {
        assert u[|u| - |p|..] == u[i..i + |p|];
      }
    }
    if Occurs(p, t) {
      var i: nat :| OccursAt(p, t, i);
      assert u[i..i + |p|] == t[i..i + |p|];
      assert OccursAt(p, u, i);
    }
    if Ends(p, |p|, u) {
      assert u[|u| - |p|..] == u[|u| - |p|..|u| - |p| + |p|];
      assert OccursAt(p, u, |u| - |p|);
    }
  }

  /** Every non-empty prefix that ends t + [ch] extends one that ends t. */
  lemma EndsAppend(p: string, t: string, ch: char, k: nat)
    requires k < |p|
    ensures Ends(p, k + 1, t + [ch]) <==> Ends(p, k, t) && p[k] == ch
  {
    var u := t + [ch];
    assert p[..k + 1] == p[..k] + [p[k]];
    if k <= |t| {
      assert u[|u| - (k + 1)..] == t[|t| - k..] + [ch];
      if Ends(p, k + 1, u) {
        assert p[..k + 1][k] == u[|u| - (k + 1)..][k];
        assert p[..k] == p[..k + 1][..k] == (t[|t| - k..] + [ch])[..k] == t[|t| - k..];
      }
    }
  }

  /** Two prefixes that end the same text: the shorter is a border of the longer. */
  lemma EndsNested(p: string, k: nat, i: nat, t: string)
    requires k <= i && Ends(p, i, t)
    ensures Ends(p, k, t) <==> Border(p, k, i)
  {
    assert p[i - k..i] == p[..i][i - k..];
    assert t[|t| - k..] == t[|t| - i..][i - k..];
  }

  /** Falling back from i to its retry entry loses no prefix that ch could extend. */
  lemma RetryKeepsCandidates(p: string, t: string, ch: char, i: nat, v: nat, k: nat)
    requires 0 < i < |p| && Ends(p, i, t) && p[i] != ch && IsRetryEntry(p, i, v)
    requires k <= i && Ends(p, k, t) && p[k] == ch
    ensures k <= v
  {
    EndsNested(p, k, i, t);
    assert Retry(p, k, i);
  }

  lemma RetryStillEnds(p: string, t: string, i: nat, v: nat)
    requires 0 < i < |p| && Ends(p, i, t) && IsRetryEntry(p, i, v)
    ensures v < i && Ends(p, v, t)
  {
    EndsNested(p, v, i, t);
  }

  /** Once no shorter prefix is left to retry, the state after ch is known. */
  lemma StepEstablishes(p: string, t: string, ch: char, i: nat, next: nat)
    requires i < |p| && Ends(p, i, t) && !Occurs(p, t)
    requires forall k: nat :: k < |p| && Ends(p, k, t) && p[k] == ch ==> k <= i
    requires next == if p[i] == ch then i + 1 else 0
    requires p[i] == ch || i == 0
    ensures Tracks(p, t + [ch], next)
  {
    var u := t + [ch];
    OccursAppend(p, t, ch);
    EndsAppend(p, t, ch, i);
    forall k: nat | Ends(p, k, u)
      ensures k <= next
    {
      if k > 0 { EndsAppend(p, t, ch, k - 1); }
    }
    EndsAppend(p, t, ch, |p| - 1);
    assert Ends(p, 0, u);
  }

  class SearchEngine {
    var pattern: string
    var started: bool            // the source's ptr is not null
    var r: array<nat>
    var i: nat
    ghost var text: string       // what has been fed since the last reset
    ghost var comparisons: nat   // character comparisons made since the last reset

    ghost predicate Valid()
      reads this, r
    {
      started ==>
        && IsRetryTable(pattern, r[..])
        && Tracks(pattern, text, i)
        && comparisons + (if i < |pattern| then i else 0) <= 2 * |text|
    }

    constructor ()
      ensures Valid() && !started && fresh(r)
    {
      pattern, started, i, text, comparisons := "", false, 0, "", 0;
      r := new nat[0];
    }

    method Start(s: string)
      modifies this
      ensures Valid() && started && pattern == s && text == "" && comparisons == 0
      ensures fresh(r)
    {
      pattern, i := s, 0;
      var table := BuildTable(s);
      r := table;
      started := true;
      Reset();
    }

    method Reset()
      requires started ==> IsRetryTable(pattern, r[..])
      modifies this
      ensures Valid() && started == old(started) && pattern == old(pattern) && r == old(r)
      ensures text == "" && comparisons == 0 && i == 0
    {
      i, text, comparisons := 0, "", 0;
      TracksStart(pattern);
    }

    method Step(ch: char)
      requires Valid()
      modifies this
      ensures Valid() && started == old(started) && pattern == old(pattern) && r == old(r)
      ensures started ==> text == old(text) + [ch]
      ensures !started ==> i == old(i) && text == old(text) && comparisons == old(comparisons)
    {
      if started {
        ghost var t := text;
        if i < |pattern| {
          while true
            invariant i < |pattern| && Ends(pattern, i, t) && !Occurs(pattern, t)
            invariant forall k: nat :: k < |pattern| && Ends(pattern, k, t) && pattern[k] == ch ==> k <= i
            invariant started && pattern == old(pattern) && r == old(r) && text == t
            invariant IsRetryTable(pattern, r[..])
            invariant comparisons + i <= 2 * |t|
            decreases i
          {
            comparisons := comparisons + 1;
            if pattern[i] == ch {
              StepEstablishes(pattern, t, ch, i, i + 1);
              i := i + 1;
              break;
            }
            if i == 0 {
              StepEstablishes(pattern, t, ch, 0, 0);
              break;
            }
            ghost var v := r[..][i];
            RetryStillEnds(pattern, t, i, v);
            forall k: nat | k < |pattern| && Ends(pattern, k, t) && pattern[k] == ch
              ensures k <= v
            {
              RetryKeepsCandidates(pattern, t, ch, i, v, k);
            }
            i := r[i];
          }
        } else {
          OccursAppend(pattern, t, ch);
        }
        text := text + [ch];
      }
    }

    method Found() returns (found: bool)
      requires Valid()
      ensures found <==> started && Occurs(pattern, text)
    {
      found := started && i == |pattern|;
    }
  }

  /** Every entry is worth retrying, and is the longest one found at a shift below i. */
  ghost predicate TableUpTo(p: string, r: seq<nat>, i: nat) {
    && |r| == |p|
    && (forall m: nat :: m < |p| ==> r[m] == 0 || Retry(p, r[m], m))
    && (forall m: nat, k: nat :: Retry(p, k, m) && m - k < i ==> k <= r[m])
  }

  lemma MatchedPointwise(p: string, i: nat, n: nat)
    requires i + n <= |p| && p[..n] == p[i..i + n]
    ensures forall x, y :: 0 <= x < n && y == i + x ==> p[x] == p[y]
  {
    forall x, y | 0 <= x < n && y == i + x
      ensures p[x] == p[y]
    {
      assert p[..n][x] == p[i..i + n][x];
    }
  }

  /** At shift i only the first mismatch gives a length worth retrying. */
  lemma MismatchIsRetry(p: string, i: nat, j: nat, m: nat, k: nat)
    requires i + j < |p| && p[..j] == p[i..i + j] && p[j] != p[i + j]
    requires m - k == i && Retry(p, k, m)
    ensures k == j
  {
    MatchedPointwise(p, i, j);
    MatchedPointwise(p, i, k);
  }

  lemma MatchIsNoRetry(p: string, i: nat, m: nat, k: nat)
    requires i <= |p| && p[..|p| - i] == p[i..|p|]
    requires m - k == i
    ensures !Retry(p, k, m)
  {
    MatchedPointwise(p, i, |p| - i);
  }

  lemma MismatchAdvances(p: string, r: seq<nat>, i: nat, j: nat)
    requires TableUpTo(p, r, i)
    requires i + j < |p| && p[..j] == p[i..i + j] && p[j] != p[i + j]
    ensures TableUpTo(p, if r[i + j] < j then r[i + j := j] else r, i + 1)
  {
    var r' := if r[i + j] < j then r[i + j := j] else r;
    assert r[i + j] < j ==> Retry(p, j, i + j);
    forall m: nat, k: nat | Retry(p, k, m) && m - k < i + 1
      ensures k <= r'[m]
    {
      if m - k == i { MismatchIsRetry(p, i, j, m, k); }
    }
  }

  lemma MatchAdvances(p: string, r: seq<nat>, i: nat)
    requires TableUpTo(p, r, i)
    requires i <= |p| && p[..|p| - i] == p[i..|p|]
    ensures TableUpTo(p, r, i + 1)
  {
    forall m: nat, k: nat | Retry(p, k, m) && m - k < i + 1
      ensures k <= r[m]
    {
      if m - k == i { MatchIsNoRetry(p, i, m, k); }
    }
  }

  method BuildTable(s: string) returns (r: array<nat>)
    ensures fresh(r) && IsRetryTable(s, r[..])
  {
    r := new nat[|s|];
    for i := 0 to |s|
      invariant forall m :: 0 <= m < i ==> r[m] == 0
    {
      r[i] := 0;
    }
    for i := 0 to |s|
      invariant TableUpTo(s, r[..], i)
    {
      ghost var before := r[..];
      var j := 0;
      while i + j < |s|
        invariant i + j <= |s| && s[..j] == s[i..i + j]
        invariant r[..] == before
      {
        if s[j] != s[i + j] {
          MismatchAdvances(s, before, i, j);
          if r[i + j] < j {
            r[i + j] := j;
          }
          break;
        }
        assert s[..j + 1] == s[..j] + [s[j]];
        assert s[i..i + j + 1] == s[i..i + j] + [s[i + j]];
        j := j + 1;
      }
      if i + j == |s| {
        MatchAdvances(s, before, i);
      }
    }
  }

  /** The protocol the header file prescribes: start, step once for each character, ask. */
  method Search(pattern: string, text: string) returns (found: bool, ghost comparisons: nat)
    ensures found <==> Occurs(pattern, text)
    ensures comparisons <= 2 * |text|
  {
    var engine := new SearchEngine();
    engine.Start(pattern);
    for n := 0 to |text|
      invariant fresh(engine) && fresh(engine.r)
      invariant engine.Valid() && engine.started && engine.pattern == pattern && engine.text == text[..n]
    {
      engine.Step(text[n]);
      assert text[..n + 1] == text[..n] + [text[n]];
    }
    assert text[..|text|] == text;
    comparisons := engine.comparisons;
    found := engine.Found();
  }
}
