/** Bringing the local links to a shared folder up to date (src/maildir/maildirshared.c). */
module SharedSync {
  import opened Text

  // ----- names and links -----

  /** A file name without the flags behind its last colon. */
  function Strip(name: string): string {
    if ':' !in name then name
    else if name[|name| - 1] == ':' then name[..|name| - 1]
    else Strip(name[..|name| - 1])
  }

  predicate Dot(name: string) {
    name != "" && name[0] == '.'
  }

  function Target(shared: string, full: string): string {
    shared + "/cur/" + full
  }

  function NewName(key: string): string {
    key + ":2,"
  }

  lemma {:induction false} StripIsPrefix(name: string)
    ensures Strip(name) <= name
    decreases |name|
  {
    if ':' in name && name[|name| - 1] != ':' { StripIsPrefix(name[..|name| - 1]); }
  }

  /** Nothing behind the last colon is kept. */
  lemma {:induction false} StripAtColon(name: string, i: nat)
    requires i < |name| && name[i] == ':' && forall k :: i < k < |name| ==> name[k] != ':'
    ensures Strip(name) == name[..i]
    decreases |name|
  {
    if i < |name| - 1 {
      StripAtColon(name[..|name| - 1], i);
      assert name[..|name| - 1][..i] == name[..i];
    }
  }

  /** What is left is the name up to its last colon, or all of it. */
  lemma StripIs(name: string)
    ensures ':' !in name ==> Strip(name) == name
    ensures ':' in name ==> |Strip(name)| < |name| && name == Strip(name) + ":" + name[|Strip(name)| + 1..]
    ensures ':' in name ==> ':' !in name[|Strip(name)| + 1..]
  {
    if ':' in name {
      var i := LastColon(name);
      StripAtColon(name, i);
      hide Strip;
      assert name == name[..i] + ":" + name[i + 1..];
    }
  }

  lemma {:induction false} LastColon(name: string) returns (i: nat)
    requires ':' in name
    ensures i < |name| && name[i] == ':' && ':' !in name[i + 1..] && forall k :: i < k < |name| ==> name[k] != ':'
  {
    i := |name| - 1;
    if name[i] != ':' {
      assert name == name[..i] + [name[i]];
      i := LastColon(name[..i]);
    }
  }

  lemma NewNameStrips(key: string)
    ensures Strip(NewName(key)) == key
  {
    var n, one, two := NewName(key), key + ":2", key + ":";
    assert n[|key|] == ':' && n[..|n| - 1] == one;
    assert one[|key|] == ':' && one[..|one| - 1] == two;
    assert two[|key|] == ':' && two[..|two| - 1] == key;
    assert Strip(n) == Strip(one) == Strip(two);
  }

  lemma NewNameIsNoDot(full: string)
    requires !Dot(full)
    ensures !Dot(NewName(Strip(full)))
  {
    StripIsPrefix(full);
  }

  /** What a directory entry links to; None when the entry is not a readable link. */
  type Links = map<string, Option<string>>

  ghost predicate Listing(order: seq<string>, links: Links) {
    && (forall i, j :: 0 <= i < j < |order| ==> order[i] != order[j])
    && (forall n :: n in order <==> n in links)
  }

  // ----- the database of what is in the shared folder -----

  type Database = map<string, string>

  /** Every visible file, under its stripped name; of two with the same one the later is kept. */
  function Built(names: seq<string>): Database {
    if names == [] then map[] else
      var db, full := Built(names[..|names| - 1]), names[|names| - 1];
      if Dot(full) then db else db[Strip(full) := full]
  }

  predicate Shared(names: seq<string>, key: string, full: string) {
    full in names && !Dot(full) && Strip(full) == key
  }

  lemma {:induction false} BuiltHolds(names: seq<string>)
    ensures forall k :: k in Built(names) ==> Shared(names, k, Built(names)[k])
    ensures forall k, full :: Shared(names, k, full) ==> k in Built(names)
  {
    if names != [] {
      var init, last := names[..|names| - 1], names[|names| - 1];
      BuiltHolds(init);
      assert names == init + [last];
      forall k, full | Shared(names, k, full)
        ensures k in Built(names)
      {
        assert full == last || Shared(init, k, full);
      }
    }
  }

  /** Of several files with the same stripped name the last one listed is kept. */
  lemma {:induction false} BuiltKeepsLast(names: seq<string>, i: nat)
    requires i < |names| && !Dot(names[i])
    requires forall j :: i < j < |names| ==> Dot(names[j]) || Strip(names[j]) != Strip(names[i])
    ensures Strip(names[i]) in Built(names) && Built(names)[Strip(names[i])] == names[i]
  {
    if i < |names| - 1 { BuiltKeepsLast(names[..|names| - 1], i); }
  }

  class Db {
    var store: Database

    constructor ()
      ensures store == map[]
    {
      store := map[];
    }

    /** build_db */
    method Build(names: seq<string>)
      requires store == map[]
      modifies this
      ensures store == Built(names)
    {
      var i := 0;
      while i < |names|
        invariant i <= |names| && store == Built(names[..i])
      {
        assert names[..i + 1][..i] == names[..i];
        if !Dot(names[i]) { store := store[Strip(names[i]) := names[i]]; }
        i := i + 1;
      }
      assert names[..i] == names;
    }
  }

  // ----- one local directory -----

  datatype Pass = Pass(links: Links, db: Database, ok: bool)

  /** A link that is right, or that can be read and replaced. */
  predicate Relinkable(shared: string, name: string, was: Option<string>, target: string, fails: string -> bool) {
    was.Some? && 0 < |was.value| < |shared| + |name| + 100 && (was.value == target || !fails(name))
  }

  function Updated(shared: string, order: seq<string>, links: Links, db: Database, fails: string -> bool): Pass
    requires forall n :: n in order ==> n in links
    requires forall i, j :: 0 <= i < j < |order| ==> order[i] != order[j]
  {
    if order == [] then Pass(links, db, true) else
      var name := order[0];
      var key := Strip(name);
      if Dot(name) then Updated(shared, order[1..], links, db, fails)
      else if key !in db then Updated(shared, order[1..], links - {name}, db, fails)
      else
        var target := Target(shared, db[key]);
        if Relinkable(shared, name, links[name], target, fails)
        then Updated(shared, order[1..], links[name := Some(target)], db - {key}, fails)
        else Pass(links - {name}, db - {key}, false)
  }

  /** The entries that stay: for each message still shared, the first that bears its name. */
  ghost predicate Keeper(order: seq<string>, db: Database, i: nat)
    requires i < |order|
  {
    && !Dot(order[i]) && Strip(order[i]) in db
    && forall j :: 0 <= j < i ==> Dot(order[j]) || Strip(order[j]) != Strip(order[i])
  }

  ghost predicate AllRelinkable(shared: string, order: seq<string>, links: Links, db: Database, fails: string -> bool)
    requires forall n :: n in order ==> n in links
  {
    forall i: nat :: i < |order| && Keeper(order, db, i) ==>
      Relinkable(shared, order[i], links[order[i]], Target(shared, db[Strip(order[i])]), fails)
  }

  ghost predicate Named(order: seq<string>, key: string) {
    exists n :: n in order && !Dot(n) && Strip(n) == key
  }

  function Rest(name: string, db: Database): Database {
    if Dot(name) then db else db - {Strip(name)}
  }

  lemma KeeperTail(order: seq<string>, db: Database, i: nat)
    requires 0 < i < |order|
    ensures Keeper(order, db, i) <==> Keeper(order[1..], Rest(order[0], db), i - 1)
  {
    var tail := order[1..];
    forall j: nat | j < |tail|
      ensures tail[j] == order[j + 1]
    {}
    if Keeper(tail, Rest(order[0], db), i - 1) {
      forall j | 0 <= j < i
        ensures Dot(order[j]) || Strip(order[j]) != Strip(order[i])
      {
        if j > 0 { assert tail[j - 1] == order[j]; }
      }
    }
  }

  /** What follows the first entry, when the pass does not end there. */
  lemma PassTail(shared: string, order: seq<string>, links: Links, db: Database, fails: string -> bool)
    requires order != [] && (forall n :: n in order ==> n in links)
    requires forall i, j :: 0 <= i < j < |order| ==> order[i] != order[j]
    ensures forall n :: n in order <==> n == order[0] || n in order[1..]
    ensures order[0] !in order[1..]
    ensures Keeper(order, db, 0) <==> !Dot(order[0]) && Strip(order[0]) in db
    ensures Strip(order[0]) !in db ==> Rest(order[0], db) == db
  {
    assert order == [order[0]] + order[1..];
    assert Strip(order[0]) !in db ==> db - {Strip(order[0])} == db;
  }

  /** The links after the first entry has been dealt with. */
  function Stepped(shared: string, name: string, links: Links, db: Database): Links {
    if Dot(name) then links
    else if Strip(name) !in db then links - {name}
    else links[name := Some(Target(shared, db[Strip(name)]))]
  }

  lemma PassSteps(shared: string, order: seq<string>, links: Links, db: Database, fails: string -> bool)
    requires order != [] && (forall n :: n in order ==> n in links)
    requires forall i, j :: 0 <= i < j < |order| ==> order[i] != order[j]
    ensures forall n :: n in order[1..] ==> n in links && n in Stepped(shared, order[0], links, db)
    ensures forall n :: n in order[1..] ==> links[n] == Stepped(shared, order[0], links, db)[n]
    ensures var r := Updated(shared, order, links, db, fails);
      if Keeper(order, db, 0) && !Relinkable(shared, order[0], links[order[0]], Target(shared, db[Strip(order[0])]), fails)
      then r == Pass(links - {order[0]}, Rest(order[0], db), false)
      else r == Updated(shared, order[1..], Stepped(shared, order[0], links, db), Rest(order[0], db), fails)
  {
    PassTail(shared, order, links, db, fails);
  }

  /** A pass succeeds exactly when every entry that is to stay can be made right. */
  lemma {:induction false} PassOk(shared: string, order: seq<string>, links: Links, db: Database, fails: string -> bool)
    requires forall n :: n in order ==> n in links
    requires forall i, j :: 0 <= i < j < |order| ==> order[i] != order[j]
    ensures Updated(shared, order, links, db, fails).ok <==> AllRelinkable(shared, order, links, db, fails)
  {
    if order != [] {
      var tail, next, rest := order[1..], Stepped(shared, order[0], links, db), Rest(order[0], db);
      PassSteps(shared, order, links, db, fails);
      if !Keeper(order, db, 0) || Relinkable(shared, order[0], links[order[0]], Target(shared, db[Strip(order[0])]), fails) {
        PassOk(shared, tail, next, rest, fails);
        forall i: nat | 0 < i < |order|
          ensures Keeper(order, db, i) <==> Keeper(tail, rest, i - 1)
          ensures Keeper(order, db, i) ==> db[Strip(order[i])] == rest[Strip(order[i])]
          ensures links[order[i]] == next[order[i]]
        {
          KeeperTail(order, db, i);
          assert order[i] == tail[i - 1];
        }
        if AllRelinkable(shared, order, links, db, fails) {
          forall i: nat | i < |tail| && Keeper(tail, rest, i)
            ensures Relinkable(shared, tail[i], next[tail[i]], Target(shared, rest[Strip(tail[i])]), fails)
          {
            assert Keeper(order, db, i + 1);
          }
        }
        if AllRelinkable(shared, tail, next, rest, fails) {
          forall i: nat | i < |order| && Keeper(order, db, i)
            ensures Relinkable(shared, order[i], links[order[i]], Target(shared, db[Strip(order[i])]), fails)
          {
            if i > 0 { assert tail[i - 1] == order[i]; }
          }
        }
      }
    }
  }

  /** What is left of the database are the messages without an entry. */
  lemma {:induction false} PassDb(shared: string, order: seq<string>, links: Links, db: Database, fails: string -> bool)
    requires forall n :: n in order ==> n in links
    requires forall i, j :: 0 <= i < j < |order| ==> order[i] != order[j]
    requires Updated(shared, order, links, db, fails).ok
    ensures var left := Updated(shared, order, links, db, fails).db;
      forall k :: (k in left <==> k in db && !Named(order, k)) && (k in left ==> left[k] == db[k])
  {
    if order != [] {
      PassSteps(shared, order, links, db, fails);
      PassTail(shared, order, links, db, fails);
      PassDb(shared, order[1..], Stepped(shared, order[0], links, db), Rest(order[0], db), fails);
    }
  }

  /** The fate of each entry: the first for each shared message is kept and made right. */
  lemma {:induction false} PassEntry(
      shared: string, order: seq<string>, links: Links, db: Database, fails: string -> bool, i: nat)
    requires forall n :: n in order ==> n in links
    requires forall i, j :: 0 <= i < j < |order| ==> order[i] != order[j]
    requires Updated(shared, order, links, db, fails).ok && i < |order|
    ensures var after, n := Updated(shared, order, links, db, fails).links, order[i];
      && (n in after <==> Dot(n) || Keeper(order, db, i))
      && (Dot(n) ==> after[n] == links[n])
      && (Keeper(order, db, i) ==> after[n] == Some(Target(shared, db[Strip(n)])))
  {
    PassSteps(shared, order, links, db, fails);
    var tail, next, rest := order[1..], Stepped(shared, order[0], links, db), Rest(order[0], db);
    if i > 0 {
      KeeperTail(order, db, i);
      assert order[i] == tail[i - 1];
      PassEntry(shared, tail, next, rest, fails, i - 1);
    } else {
      PassTail(shared, order, links, db, fails);
      PassOthers(shared, tail, next, rest, fails, order[0]);
    }
  }

  lemma {:induction false} PassOthers(
      shared: string, order: seq<string>, links: Links, db: Database, fails: string -> bool, n: string)
    requires forall n :: n in order ==> n in links
    requires forall i, j :: 0 <= i < j < |order| ==> order[i] != order[j]
    requires n !in order
    ensures var after := Updated(shared, order, links, db, fails).links;
      (n in after <==> n in links) && (n in links ==> after[n] == links[n])
  {
    if order != [] {
      PassSteps(shared, order, links, db, fails);
      PassTail(shared, order, links, db, fails);
      if !Keeper(order, db, 0) || Relinkable(shared, order[0], links[order[0]], Target(shared, db[Strip(order[0])]), fails) {
        PassOthers(shared, order[1..], Stepped(shared, order[0], links, db), Rest(order[0], db), fails, n);
      }
    }
  }

  /** The entry that a pass fails at. */
  ghost predicate FailsAt(shared: string, order: seq<string>, links: Links, db: Database, fails: string -> bool, i: nat)
    requires forall n :: n in order ==> n in links
  {
    i < |order| && Keeper(order, db, i)
    && !Relinkable(shared, order[i], links[order[i]], Target(shared, db[Strip(order[i])]), fails)
  }

  /** A pass that fails takes away the entry it fails at, has dealt with those before it as a successful one
      would, and leaves those behind it as they were. */
  lemma {:induction false} PassFailure(shared: string, order: seq<string>, links: Links, db: Database, fails: string -> bool)
    returns (i: nat)
    requires forall n :: n in order ==> n in links
    requires forall i, j :: 0 <= i < j < |order| ==> order[i] != order[j]
    requires !Updated(shared, order, links, db, fails).ok
    ensures FailsAt(shared, order, links, db, fails, i)
    ensures var after := Updated(shared, order, links, db, fails).links;
      && order[i] !in after
      && (forall j :: 0 <= j < i ==> (order[j] in after <==> Dot(order[j]) || Keeper(order, db, j)))
      && (forall j :: 0 <= j < i && Dot(order[j]) ==> after[order[j]] == links[order[j]])
      && (forall j :: 0 <= j < i && Keeper(order, db, j) ==> after[order[j]] == Some(Target(shared, db[Strip(order[j])])))
      && (forall j :: i < j < |order| ==> order[j] in after && after[order[j]] == links[order[j]])
  {
    var tail, next, rest := order[1..], Stepped(shared, order[0], links, db), Rest(order[0], db);
    PassSteps(shared, order, links, db, fails);
    PassTail(shared, order, links, db, fails);
    hide Updated, Relinkable;
    if FailsAt(shared, order, links, db, fails, 0) {
      i := 0;
    } else {
      var k := PassFailure(shared, tail, next, rest, fails);
      i := k + 1;
      forall j | 0 < j < |order|
        ensures order[j] == tail[j - 1] && (Keeper(order, db, j) <==> Keeper(tail, rest, j - 1))
      {
        KeeperTail(order, db, j);
      }
      PassOthers(shared, tail, next, rest, fails, order[0]);
    }
  }

  lemma RelinkableIs(shared: string, name: string, was: Option<string>, target: string, fails: string -> bool)
    ensures Relinkable(shared, name, was, target, fails)
      <==> was.Some? && 0 < |was.value| < |shared| + |name| + 100 && (was.value == target || !fails(name))
  {
  }

  lemma PassEnd(shared: string, links: Links, db: Database, fails: string -> bool)
    ensures Updated(shared, [], links, db, fails) == Pass(links, db, true)
  {
  }

  predicate Bears(links: Links, n: string, key: string) {
    n in links && !Dot(n) && Strip(n) == key
  }

  lemma {:induction false} FirstIsKept(order: seq<string>, db: Database, n: string) returns (i: nat)
    requires n in order && !Dot(n) && Strip(n) in db
    ensures i < |order| && Keeper(order, db, i) && Strip(order[i]) == Strip(n)
  {
    assert order == [order[0]] + order[1..];
    if !Dot(order[0]) && Strip(order[0]) == Strip(n) {
      i := 0;
    } else {
      var j := FirstIsKept(order[1..], Rest(order[0], db), n);
      i := j + 1;
      KeeperTail(order, db, i);
    }
  }

  /** What a successful pass leaves in a directory: one right link for each message it takes out of
      the database, and no other. */
  ghost predicate Settled(shared: string, after: Links, db: Database, left: Database) {
    && left.Keys <= db.Keys && (forall k :: k in left ==> left[k] == db[k])
    && (forall n, k :: Bears(after, n, k) ==> k in db && k !in left && after[n] == Some(Target(shared, db[k])))
    && (forall k :: k in db && k !in left ==> exists n :: Bears(after, n, k))
    && (forall n, m, k :: Bears(after, n, k) && Bears(after, m, k) ==> n == m)
  }

  lemma PassSettles(shared: string, order: seq<string>, links: Links, db: Database, fails: string -> bool)
    requires Listing(order, links) && Updated(shared, order, links, db, fails).ok
    ensures var r := Updated(shared, order, links, db, fails); Settled(shared, r.links, db, r.db)
  {
    hide Updated;
    var r := Updated(shared, order, links, db, fails);
    PassDb(shared, order, links, db, fails);
    forall n, k | Bears(r.links, n, k)
      ensures exists i: nat :: i < |order| && order[i] == n && Keeper(order, db, i)
      ensures k in db && k !in r.db && r.links[n] == Some(Target(shared, db[k]))
    {
      if n !in order { PassOthers(shared, order, links, db, fails, n); }
      var i: nat :| i < |order| && order[i] == n;
      PassEntry(shared, order, links, db, fails, i);
    }
    forall k | k in db && k !in r.db
      ensures exists n :: Bears(r.links, n, k)
    {
      var n :| n in order && !Dot(n) && Strip(n) == k;
      var i := FirstIsKept(order, db, n);
      PassEntry(shared, order, links, db, fails, i);
      assert Bears(r.links, order[i], k);
    }
    forall n, m, k | Bears(r.links, n, k) && Bears(r.links, m, k)
      ensures n == m
    {
      var i: nat :| i < |order| && order[i] == n && Keeper(order, db, i);
      var j: nat :| j < |order| && order[j] == m && Keeper(order, db, j);
      assert !(i < j) && !(j < i);
    }
  }

  /** Exactly the links for the given messages have been put there. */
  ghost predicate Added(shared: string, before: Links, keys: set<string>, db: Database, after: Links)
    requires keys <= db.Keys
  {
    forall n :: var added := n == Strip(n) + ":2," && Strip(n) in keys;
      && (n in after <==> n in before || added)
      && (added ==> after[n] == Some(Target(shared, db[Strip(n)])))
      && (n in before && !added ==> after[n] == before[n])
  }

  lemma AddedSettles(shared: string, before: Links, db: Database, left: Database, after: Links)
    requires Settled(shared, before, db, left) && Added(shared, before, left.Keys, left, after)
    requires forall k :: k in left ==> !Dot(NewName(k))
    ensures Settled(shared, after, db, map[])
  {
    forall n, k | Bears(after, n, k)
      ensures k in db && after[n] == Some(Target(shared, db[k]))
      ensures if k in left then n == NewName(k) else Bears(before, n, k)
    {
      assert n in before ==> Bears(before, n, k);
    }
    forall k | k in db
      ensures exists n :: Bears(after, n, k)
    {
      if k in left {
        NewNameStrips(k);
        assert Bears(after, NewName(k), k);
      } else {
        var n :| Bears(before, n, k);
        assert Bears(after, n, k);
      }
    }
  }

  /** Across cur and new, each message of the shared folder has exactly one link, to the file as it
      is now named there, and nothing else is visible. */
  ghost predicate InSync(shared: string, names: seq<string>, cur: Links, recent: Links) {
    && (forall n, k :: Bears(cur, n, k) ==> exists full :: Shared(names, k, full) && cur[n] == Some(shared + "/cur/" + full))
    && (forall n, k :: Bears(recent, n, k) ==> exists full :: Shared(names, k, full) && recent[n] == Some(shared + "/cur/" + full))
    && (forall k, full :: Shared(names, k, full) ==> (exists n :: Bears(cur, n, k)) || (exists n :: Bears(recent, n, k)))
    && (forall n, m, k :: Bears(cur, n, k) && Bears(cur, m, k) ==> n == m)
    && (forall n, m, k :: Bears(recent, n, k) && Bears(recent, m, k) ==> n == m)
    && (forall n, m, k :: Bears(cur, n, k) ==> !Bears(recent, m, k))
  }

  lemma SettledIsInSync(shared: string, names: seq<string>, cur: Links, recent: Links, left: Database)
    requires Settled(shared, cur, Built(names), left) && Settled(shared, recent, left, map[])
    ensures InSync(shared, names, cur, recent)
  {
    BuiltHolds(names);
    assert forall full :: Target(shared, full) == shared + "/cur/" + full;
    hide Built, Bears, Shared, Target;
    forall n, k | Bears(cur, n, k)
      ensures exists full :: Shared(names, k, full) && cur[n] == Some(Target(shared, full))
    {
      assert Shared(names, k, Built(names)[k]);
    }
    forall n, k | Bears(recent, n, k)
      ensures exists full :: Shared(names, k, full) && recent[n] == Some(Target(shared, full))
    {
      assert Shared(names, k, Built(names)[k]);
    }
  }

  lemma EveryEntryIsKept(shared: string, order: seq<string>, links: Links, db: Database, left: Database)
    requires Settled(shared, links, db, left) && Listing(order, links)
    ensures forall i: nat :: i < |order| && !Dot(order[i]) ==> Keeper(order, db, i)
    ensures forall n, k :: Bears(links, n, k) ==> n in order && !Dot(n) && Strip(n) == k && k in db
  {
    forall i: nat | i < |order| && !Dot(order[i])
      ensures Keeper(order, db, i)
    {
      var n := order[i];
      assert Bears(links, n, Strip(n));
      forall j | 0 <= j < i
        ensures Dot(order[j]) || Strip(order[j]) != Strip(n)
      {
        assert !Dot(order[j]) ==> Bears(links, order[j], Strip(order[j]));
      }
    }
  }

  /** The links of a directory that is already right are short enough for readlink's buffer. */
  ghost predicate Readable(links: Links, db: Database) {
    forall n, k :: Bears(links, n, k) && k in db ==> |db[k]| < |n| + 95
  }

  lemma SettledRelinks(shared: string, order: seq<string>, links: Links, db: Database, left: Database, fails: string -> bool)
    requires Settled(shared, links, db, left) && Listing(order, links)
    ensures AllRelinkable(shared, order, links, db, fails) <==> Readable(links, db)
  {
    EveryEntryIsKept(shared, order, links, db, left);
    forall i: nat | i < |order| && !Dot(order[i])
      ensures Strip(order[i]) in db
      ensures Relinkable(shared, order[i], links[order[i]], Target(shared, db[Strip(order[i])]), fails)
        <==> |db[Strip(order[i])]| < |order[i]| + 95
    {
      assert Bears(links, order[i], Strip(order[i]));
    }
    if AllRelinkable(shared, order, links, db, fails) {
      forall n, k | Bears(links, n, k)
        ensures k in db ==> |db[k]| < |n| + 95
      {
        var i: nat :| i < |order| && order[i] == n;
        assert Keeper(order, db, i);
      }
    }
    if Readable(links, db) {
      forall i: nat | i < |order| && Keeper(order, db, i)
        ensures Relinkable(shared, order[i], links[order[i]], Target(shared, db[Strip(order[i])]), fails)
      {
        assert Bears(links, order[i], Strip(order[i]));
      }
    }
  }

  /** A pass over a directory that is already right succeeds exactly when its links are readable,
      and then changes nothing. */
  lemma SettledStays(shared: string, order: seq<string>, links: Links, db: Database, left: Database, fails: string -> bool)
    requires Settled(shared, links, db, left) && Listing(order, links)
    ensures var r := Updated(shared, order, links, db, fails);
      (r.ok <==> Readable(links, db)) && (r.ok ==> r.links == links && r.db == left)
  {
    hide Updated, Readable, AllRelinkable;
    var r := Updated(shared, order, links, db, fails);
    PassOk(shared, order, links, db, fails);
    SettledRelinks(shared, order, links, db, left, fails);
    if r.ok {
      forall n
        ensures n in links <==> n in r.links
        ensures n in links ==> r.links[n] == links[n]
      {
        SettledEntryStays(shared, order, links, db, left, fails, n);
      }
      SettledDbStays(shared, order, links, db, left, fails);
    }
  }

  /** One message with so long a name: newmsgs links it, the directory is then right, and the next pass
      over it fails all the same, in whatever order and whether or not a link can be replaced. */
  lemma LongNameIsRefused(shared: string, full: string, order: seq<string>, fails: string -> bool)
    requires !Dot(full) && |full| >= |NewName(Strip(full))| + 95
    requires Listing(order, map[NewName(Strip(full)) := Some(Target(shared, full))])
    ensures var db, links := Built([full]), map[NewName(Strip(full)) := Some(Target(shared, full))];
      && db == map[Strip(full) := full]
      && Added(shared, map[], db.Keys, db, links) && Settled(shared, links, db, map[])
      && !Updated(shared, order, links, db, fails).ok
  {
    var key := Strip(full);
    var db, links := Built([full]), map[NewName(key) := Some(Target(shared, full))];
    assert Built([]) == map[] && [full][..0] == [];
    NewNameStrips(key);
    NewNameIsNoDot(full);
    hide Strip, Target, Updated;
    assert Settled(shared, links, db, map[]) by { assert Bears(links, NewName(key), key); }
    SettledStays(shared, order, links, db, map[], fails);
    assert Bears(links, NewName(key), key);
  }

  /** Such a name. */
  lemma LongNameExists() returns (full: string)
    ensures !Dot(full) && |full| >= |NewName(Strip(full))| + 95
  {
    full := "k:2," + seq(100, _ => 'S');
    StripIsPrefix(full);
    StripAtColon(full, 1);
  }

  lemma SettledEntryStays(shared: string, order: seq<string>, links: Links, db: Database, left: Database,
      fails: string -> bool, n: string)
    requires Settled(shared, links, db, left) && Listing(order, links)
    requires Updated(shared, order, links, db, fails).ok
    ensures var after := Updated(shared, order, links, db, fails).links;
      (n in links <==> n in after) && (n in links ==> after[n] == links[n])
  {
    hide Updated;
    EveryEntryIsKept(shared, order, links, db, left);
    if n in order {
      var i: nat :| i < |order| && order[i] == n;
      PassEntry(shared, order, links, db, fails, i);
      assert !Dot(n) ==> Bears(links, n, Strip(n));
    } else {
      PassOthers(shared, order, links, db, fails, n);
    }
  }

  lemma SettledDbStays(shared: string, order: seq<string>, links: Links, db: Database, left: Database, fails: string -> bool)
    requires Settled(shared, links, db, left) && Listing(order, links)
    requires Updated(shared, order, links, db, fails).ok
    ensures Updated(shared, order, links, db, fails).db == left
  {
    hide Updated;
    PassDb(shared, order, links, db, fails);
    forall k | k in db
      ensures k !in left <==> Named(order, k)
    {
      if k !in left {
        var n :| Bears(links, n, k);
        assert n in order;
      }
      if Named(order, k) {
        var n :| n in order && !Dot(n) && Strip(n) == k;
        assert Bears(links, n, k);
      }
    }
  }

  // ----- the local folder, and the whole synchronisation -----

  class Directory {
    var links: Links

    constructor (initial: Links)
      ensures links == initial
    {
      links := initial;
    }

    /** update_cur: order is what readdir gives, fails says for which names update_link cannot
        replace the link. */
    method Update(order: seq<string>, shared: string, db: Db, fails: string -> bool) returns (ok: bool)
      requires Listing(order, links)
      modifies this, db
      ensures Updated(shared, order, old(links), old(db.store), fails) == Pass(links, db.store, ok)
    {
      hide Updated, Relinkable;
      ghost var whole := Updated(shared, order, links, db.store, fails);
      var i := 0;
      assert order[i..] == order;
      while i < |order|
        invariant i <= |order| && (forall n :: n in order[i..] ==> n in links)
        invariant whole == Updated(shared, order[i..], links, db.store, fails)
      {
        var name, key := order[i], Strip(order[i]);
        ghost var ahead := order[i..];
        assert ahead[0] == name && ahead[1..] == order[i + 1..];
        PassTail(shared, ahead, links, db.store, fails);
        PassSteps(shared, ahead, links, db.store, fails);
        i := i + 1;
        if Dot(name) { continue; }
        if key !in db.store {
          links := links - {name};
          continue;
        }
        var target := Target(shared, db.store[key]);
        db.store := db.store - {key};
        var was := links[name];
        RelinkableIs(shared, name, was, target, fails);
        if was == None || was.value == "" || |was.value| >= |shared| + |name| + 100 {
          links := links - {name};
          return false;
        }
        if was.value != target {
          if fails(name) {
            links := links - {name};
            return false;
          }
          links := links[name := Some(target)];
        } else {
          assert links == links[name := Some(target)];
        }
      }
      PassEnd(shared, links, db.store, fails);
      assert order[i..] == [];
      return true;
    }

    /** newmsgs: a link in new for everything still in the database. */
    method AddNew(shared: string, db: Db, fails: string -> bool) returns (ok: bool)
      modifies this
      ensures ok <==> forall k :: k in db.store ==> !fails(k)
      ensures ok ==> Added(shared, old(links), db.store.Keys, db.store, links)
    {
      var rest := db.store.Keys;
      while rest != {}
        invariant rest <= db.store.Keys && (forall k :: k in db.store && k !in rest ==> !fails(k))
        invariant Added(shared, old(links), db.store.Keys - rest, db.store, links)
        decreases |rest|
      {
        var key :| key in rest;
        if fails(key) { return false; }
        NewNameStrips(key);
        links := links[NewName(key) := Some(Target(shared, db.store[key]))];
        rest := rest - {key};
      }
      assert db.store.Keys - rest == db.store.Keys;
      return true;
    }
  }


  ghost function Unlinked(order: seq<string>, db: Database): Database {
    map k | k in db && !Named(order, k) :: db[k]
  }

  /** do_maildir_shared_sync, once it has decided to go ahead. */
  method Sync(cur: Directory, recent: Directory, shared: string, names: seq<string>,
      curOrder: seq<string>, newOrder: seq<string>, fails: string -> bool, addFails: string -> bool)
    returns (ok: bool)
    requires cur != recent && Listing(curOrder, cur.links) && Listing(newOrder, recent.links)
    modifies cur, recent
    ensures ok <==>
      && AllRelinkable(shared, curOrder, old(cur.links), Built(names), fails)
      && AllRelinkable(shared, newOrder, old(recent.links), Unlinked(curOrder, Built(names)), fails)
      && (forall k :: k in Built(names) && !Named(curOrder, k) && !Named(newOrder, k) ==> !addFails(k))
    ensures ok ==> InSync(shared, names, cur.links, recent.links)
  {
    hide Updated, Added, Settled, InSync, Built, AllRelinkable;
    var db := new Db();
    db.Build(names);
    PassOk(shared, curOrder, cur.links, db.store, fails);
    ok := cur.Update(curOrder, shared, db, fails);
    if !ok { return; }
    PassDb(shared, curOrder, old(cur.links), Built(names), fails);
    assert db.store == Unlinked(curOrder, Built(names));
    PassSettles(shared, curOrder, old(cur.links), Built(names), fails);
    ghost var left := db.store;
    PassOk(shared, newOrder, recent.links, left, fails);
    ok := recent.Update(newOrder, shared, db, fails);
    if !ok { return; }
    PassDb(shared, newOrder, old(recent.links), left, fails);
    PassSettles(shared, newOrder, old(recent.links), left, fails);
    ghost var before := recent.links;
    ok := recent.AddNew(shared, db, addFails);
    if ok {
      KeysAreVisible(names, db.store.Keys);
      AddedSettles(shared, before, left, db.store, recent.links);
      SettledIsInSync(shared, names, cur.links, recent.links, left);
    }
  }

  lemma KeysAreVisible(names: seq<string>, keys: set<string>)
    requires keys <= Built(names).Keys
    ensures forall k :: k in keys ==> !Dot(NewName(k))
  {
    BuiltHolds(names);
    forall k | k in keys
      ensures !Dot(NewName(k))
    {
      NewNameIsNoDot(Built(names)[k]);
    }
  }
}
