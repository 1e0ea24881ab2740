/** Sizes in message file names: src/maildir/maildirrequota.c, maildirparsequota.c, maildirfilename.c. */
module SizeTag {
  import opened Text

  const SEPARATOR := ':'
  const ULONG := 0x1_0000_0000_0000_0000

  function Tag(s: nat): string {
    ",S=" + Decimal(s)
  }

  predicate IsTag(p: string) {
    |p| >= 3 && p[0] == ',' && p[1] == 'S' && p[2] == '='
  }

  predicate Ended(p: string) {
    p == "" || p[0] == SEPARATOR
  }

  function DropDigits(p: string): (r: string)
    ensures |r| <= |p| && (r == "" || !IsDigit(r[0]))
  {
    if p != "" && IsDigit(p[0]) then DropDigits(p[1..]) else p
  }

  /** The digits at the front, as an unsigned long. */
  function ScanSize(v: nat, p: string): nat
    decreases |p|
  {
    if p != "" && IsDigit(p[0]) then ScanSize((v * 10 + (p[0] as int - '0' as int)) % ULONG, p[1..]) else v
  }

  /** The last path component, from its slash on. */
  function Slash(n: string): (q: nat)
    ensures q <= |n|
    ensures forall i :: q < i < |n| ==> n[i] != '/'
    ensures '/' in n ==> q < |n| && n[q] == '/'
    ensures '/' !in n ==> q == 0
  {
    if '/' !in n then 0
    else if n[|n| - 1] == '/' then |n| - 1
    else Slash(n[..|n| - 1])
  }

  // ----- setting the size -----

  function Retag(b: string, s: nat): string {
    if b == "" then Tag(s)
    else if IsTag(b) then Tag(s) + DropDigits(b[3..])
    else if b[0] == SEPARATOR then Tag(s) + b
    else [b[0]] + Retag(b[1..], s)
  }

  function Requota(n: string, s: nat): string {
    n[..Slash(n)] + Retag(n[Slash(n)..], s)
  }

  lemma RetagNext(n: string, q: nat, s: nat)
    requires q < |n| && !IsTag(n[q..]) && n[q] != SEPARATOR
    ensures n[..q] + Retag(n[q..], s) == n[..q + 1] + Retag(n[q + 1..], s)
  {
    assert n[q..][1..] == n[q + 1..] && n[..q + 1] == n[..q] + [n[q]];
    hide IsTag, Tag;
    Assoc(n[..q], [n[q]], Retag(n[q + 1..], s));
  }

  lemma RetagHere(n: string, q: nat, s: nat)
    requires q <= |n|
    ensures q == |n| ==> Retag(n[q..], s) == Tag(s)
    ensures q < |n| && IsTag(n[q..]) ==> Retag(n[q..], s) == Tag(s) + DropDigits(n[q + 3..])
    ensures q < |n| && n[q] == SEPARATOR ==> Retag(n[q..], s) == Tag(s) + DropDigits(n[q..])
  {
    assert q + 3 <= |n| ==> n[q..][3..] == n[q + 3..];
  }

  method SkipDigits(n: string, at: nat) returns (q: nat)
    requires at <= |n|
    ensures at <= q <= |n| && n[q..] == DropDigits(n[at..])
  {
    q := at;
    while q < |n| && IsDigit(n[q])
      invariant at <= q <= |n| && DropDigits(n[at..]) == DropDigits(n[q..])
    {
      assert n[q..][1..] == n[q + 1..];
      q := q + 1;
    }
  }

  /** maildir_requota */
  method MaildirRequota(oldname: string, s: nat) returns (p: string)
    ensures p == Requota(oldname, s)
  {
    hide Retag, Tag, Slash, DropDigits, IsTag;
    var buf := Tag(s);
    var q := Slash(oldname);
    while q < |oldname|
      invariant q <= |oldname|
      invariant Requota(oldname, s) == oldname[..q] + Retag(oldname[q..], s)
    {
      RetagHere(oldname, q, s);
      var tagged := IsTag(oldname[q..]);
      if tagged || oldname[q] == SEPARATOR {
        TagFits(oldname, q);
        p := oldname[..q] + buf;
        var rest := if tagged then q + 3 else q;
        Assoc(oldname[..q], buf, DropDigits(oldname[rest..]));
        var end := SkipDigits(oldname, rest);
        return p + oldname[end..];
      }
      RetagNext(oldname, q, s);
      q := q + 1;
    }
    RetagHere(oldname, q, s);
    return oldname + buf;
  }

  lemma TagFits(n: string, q: nat)
    requires q < |n|
    ensures IsTag(n[q..]) ==> q + 3 <= |n| && n[q] == ','
  {
  }

  // ----- reading the size -----

  /** The size of the last tag before the flags. */
  function LastTag(b: string): Option<nat> {
    if Ended(b) then None
    else if LastTag(b[1..]).Some? then LastTag(b[1..])
    else if IsTag(b) then Some(ScanSize(0, b[3..]))
    else None
  }

  function ParsedSize(n: string): Option<nat> {
    LastTag(n[Slash(n)..])
  }

  function Tags(b: string): nat {
    if Ended(b) then 0 else (if IsTag(b) then 1 else 0) + Tags(b[1..])
  }

  lemma LastTagHere(n: string, o: nat)
    requires o <= |n|
    ensures Ended(n[o..]) ==> LastTag(n[o..]) == None && !IsTag(n[o..])
    ensures !Ended(n[o..]) && LastTag(n[o + 1..]).Some? ==> LastTag(n[o..]) == LastTag(n[o + 1..])
    ensures !Ended(n[o..]) && LastTag(n[o + 1..]).None? ==>
      LastTag(n[o..]) == if IsTag(n[o..]) then Some(ScanSize(0, n[o + 3..])) else None
    ensures IsTag(n[o..]) ==> o + 3 <= |n| && n[o] == ','
  {
    if o < |n| { assert n[o..][1..] == n[o + 1..]; }
    if o + 3 <= |n| { assert n[o..][3..] == n[o + 3..]; }
  }

  method ReadSize(n: string, at: nat) returns (s: nat)
    requires at <= |n|
    ensures s == ScanSize(0, n[at..])
  {
    s := 0;
    var o := at;
    while o < |n| && IsDigit(n[o])
      invariant at <= o <= |n| && ScanSize(0, n[at..]) == ScanSize(s, n[o..])
    {
      assert n[o..][1..] == n[o + 1..];
      s := (s * 10 + (n[o] as int - '0' as int)) % ULONG;
      o := o + 1;
    }
  }

  /** maildir_parsequota */
  method MaildirParseQuota(n: string) returns (s: Option<nat>)
    ensures s == ParsedSize(n)
  {
    hide LastTag, IsTag, ScanSize;
    var start := Slash(n);
    assert start == 0 || n[start] == '/';
    var o: int := start;
    while o < |n| && n[o] != SEPARATOR
      invariant start <= o <= |n| && forall i :: start <= i < o ==> n[i] != SEPARATOR
    {
      o := o + 1;
    }
    LastTagHere(n, o);
    ghost var flags := o;
    while o >= 0
      invariant -1 <= o <= flags && (start <= o || start == 0)
      invariant if o == flags then LastTag(n[o..]) == None else LastTag(n[o + 1..]) == None
      decreases o
    {
      LastTagHere(n, o);
      if o < |n| && n[o] == '/' { break; }
      if IsTag(n[o..]) {
        ghost var found := o;
        var size := ReadSize(n, o + 3);
        LastTagBefore(n, start, found);
        return Some(size);
      }
      o := o - 1;
    }
    return None;
  }

  /** A tag further on decides for the whole component. */
  lemma {:induction false} LastTagBefore(n: string, start: nat, o: nat)
    requires start <= o <= |n| && LastTag(n[o..]).Some?
    requires forall i :: start <= i < o ==> n[i] != SEPARATOR
    ensures LastTag(n[start..]) == LastTag(n[o..])
    decreases o - start
  {
    if start < o {
      LastTagBefore(n, start + 1, o);
      LastTagHere(n, start);
    }
  }

  // ----- what setting the size does -----

  lemma {:induction false} DropDigitsOfNumber(n: nat, rest: string)
    ensures DropDigits(Decimal(n) + rest) == DropDigits(rest)
  {
    if n < 10 {
      assert (Decimal(n) + rest)[1..] == rest;
    } else {
      var last := [Digit(n % 10)] + rest;
      DropDigitsOfNumber(n / 10, last);
      assert Decimal(n) + rest == Decimal(n / 10) + last;
      assert last[1..] == rest;
    }
  }

  lemma ScanSizeNext(v: nat, d: nat, rest: string)
    requires d < 10 && v * 10 + d < ULONG
    ensures ScanSize(v, [Digit(d)] + rest) == ScanSize(v * 10 + d, rest)
  {
    assert ([Digit(d)] + rest)[1..] == rest;
  }

  lemma {:induction false} ScanSizeOfNumber(n: nat, rest: string)
    requires n < ULONG
    ensures ScanSize(0, Decimal(n) + rest) == ScanSize(n, rest)
  {
    hide ScanSize;
    if n < 10 {
      ScanSizeNext(0, n, rest);
    } else {
      var last := [Digit(n % 10)] + rest;
      ScanSizeOfNumber(n / 10, last);
      assert Decimal(n) + rest == Decimal(n / 10) + last;
      ScanSizeNext(n / 10, n % 10, rest);
    }
  }

  /** A new tag and what follows it. */
  lemma TagReads(s: nat, rest: string)
    ensures var p := Tag(s) + rest;
      IsTag(p) && !Ended(p) && DropDigits(p[3..]) == DropDigits(rest)
    ensures (rest == "" || !IsDigit(rest[0])) && s < ULONG ==> ScanSize(0, (Tag(s) + rest)[3..]) == s
  {
    var p := Tag(s) + rest;
    assert p[3..] == Decimal(s) + rest;
    DropDigitsOfNumber(s, rest);
    if s < ULONG { ScanSizeOfNumber(s, rest); }
  }

  /** Which tag is where, before and after. */
  lemma RetagKeeps(b: string, s: nat)
    requires b != "" && !IsTag(b) && b[0] != SEPARATOR
    ensures Retag(b, s) == [b[0]] + Retag(b[1..], s) && Retag(b, s)[1..] == Retag(b[1..], s)
    ensures !IsTag(Retag(b, s)) && !Ended(Retag(b, s))
  {
    var r := Retag(b[1..], s);
    assert ([b[0]] + r)[1..] == r;
    if |b| >= 2 && !IsTag(b[1..]) && b[1] != SEPARATOR {
      assert r == [b[1]] + Retag(b[2..], s) by { assert b[1..][1..] == b[2..]; }
      if |b| >= 3 && !IsTag(b[2..]) && b[2] != SEPARATOR {
        assert Retag(b[2..], s)[0] == b[2];
      }
    }
  }

  /** What stands behind the tag once it is set. */
  function Behind(b: string): (rest: string)
    requires Ended(b) || IsTag(b)
    ensures rest == "" || !IsDigit(rest[0])
  {
    if IsTag(b) then DropDigits(b[3..]) else b
  }

  lemma RetagSets(b: string, s: nat)
    requires Ended(b) || IsTag(b)
    ensures Retag(b, s) == Tag(s) + Behind(b)
  {
    assert Tag(s) + "" == Tag(s);
  }

  lemma {:induction false} RetagTwice(b: string, s: nat, t: nat)
    ensures Retag(Retag(b, s), t) == Retag(b, t)
  {
    if Ended(b) || IsTag(b) {
      RetagSets(b, s);
      RetagSets(b, t);
      TagReads(s, Behind(b));
      assert DropDigits(Behind(b)) == Behind(b);
    } else {
      RetagKeeps(b, s);
      RetagTwice(b[1..], s, t);
    }
  }

  lemma {:induction false} RetagNoSlash(b: string, s: nat)
    requires '/' !in b
    ensures '/' !in Retag(b, s)
  {
    if Ended(b) || IsTag(b) {
      RetagSets(b, s);
      if IsTag(b) { DropDigitsPart(b[3..]); }
      assert forall c :: c in Behind(b) ==> c in b;
      assert forall c :: c in Decimal(s) ==> c != '/';
    } else {
      RetagKeeps(b, s);
      RetagNoSlash(b[1..], s);
    }
  }

  lemma {:induction false} DropDigitsPart(p: string)
    ensures forall c :: c in DropDigits(p) ==> c in p
  {
    if p != "" && IsDigit(p[0]) { DropDigitsPart(p[1..]); }
  }

  lemma SlashIs(n: string, q: nat)
    requires q <= |n| && (forall i :: q < i < |n| ==> n[i] != '/')
    requires (q < |n| && n[q] == '/') || (q == 0 && '/' !in n)
    ensures Slash(n) == q
  {
  }

  /** The directory part stays, and the component is retagged. */
  lemma RequotaParts(n: string, s: nat)
    ensures var r := Requota(n, s);
      Slash(r) == Slash(n) && r[..Slash(r)] == n[..Slash(n)] && r[Slash(r)..] == Retag(n[Slash(n)..], s)
  {
    var q, b := Slash(n), n[Slash(n)..];
    var t, r := Retag(b, s), Requota(n, s);
    assert r[..q] == n[..q] && r[q..] == t;
    if '/' in n {
      RetagKeeps(b, s);
      RetagNoSlash(b[1..], s);
      assert r[q] == '/';
      forall i | q < i < |r|
        ensures r[i] != '/'
      {
        assert r[i] == t[1..][i - q - 1];
      }
    } else {
      assert b == n;
      RetagNoSlash(b, s);
      assert r == t;
    }
    SlashIs(r, q);
  }

  /** Setting the size twice is setting it to the second value. */
  lemma RequotaTwice(n: string, s: nat, t: nat)
    ensures Requota(Requota(n, s), t) == Requota(n, t)
  {
    hide Slash, Retag;
    RequotaParts(n, s);
    RetagTwice(n[Slash(n)..], s, t);
  }

  // ----- what is read after it was set -----

  lemma {:induction false} SkipPlain(u: string, rest: string)
    requires forall c :: c in u ==> c != ',' && c != SEPARATOR
    ensures LastTag(u + rest) == LastTag(rest) && Tags(u + rest) == Tags(rest)
  {
    if u == "" {
      assert u + rest == rest;
    } else {
      assert u[0] in u && (u + rest)[1..] == u[1..] + rest;
      assert forall c :: c in u[1..] ==> c in u;
      SkipPlain(u[1..], rest);
    }
  }

  lemma {:induction false} TagsIff(b: string)
    ensures Tags(b) > 0 <==> LastTag(b).Some?
  {
    if !Ended(b) { TagsIff(b[1..]); }
  }

  lemma {:induction false} DropDigitsSplits(p: string) returns (u: string)
    ensures p == u + DropDigits(p) && forall c :: c in u ==> IsDigit(c)
  {
    if p != "" && IsDigit(p[0]) {
      u := DropDigitsSplits(p[1..]);
      u := [p[0]] + u;
      assert p == [p[0]] + p[1..];
    } else {
      u := "";
    }
  }

  lemma TagThenRest(b: string)
    requires IsTag(b)
    ensures var rest := DropDigits(b[3..]);
      && Tags(b) == 1 + Tags(rest)
      && LastTag(b) == if LastTag(rest).Some? then LastTag(rest) else Some(ScanSize(0, b[3..]))
  {
    var digits := DropDigitsSplits(b[3..]);
    var rest := DropDigits(b[3..]);
    assert b[1..] == ("S=" + digits) + rest;
    forall c | c in "S=" + digits
      ensures c != ',' && c != SEPARATOR
    {
      assert c == 'S' || c == '=' || c in digits;
    }
    SkipPlain("S=" + digits, rest);
  }

  /** The size read back from a component is the one that was set, unless there was a second tag before
      the flags: then the last tag is read, as it was before. */
  lemma {:induction false} LastTagOfRetag(b: string, s: nat)
    requires s < ULONG
    ensures LastTag(Retag(b, s)) == if Tags(b) >= 2 then LastTag(b) else Some(s)
  {
    if Ended(b) || IsTag(b) {
      var rest := Behind(b);
      RetagSets(b, s);
      TagReads(s, rest);
      TagThenRest(Tag(s) + rest);
      assert DropDigits(rest) == rest;
      TagsIff(rest);
      if IsTag(b) { TagThenRest(b); }
    } else {
      RetagKeeps(b, s);
      LastTagOfRetag(b[1..], s);
      TagsIff(b[1..]);
    }
  }

  /** For every name: what is read after setting the size is that size exactly when it was the only tag
      before the flags, or the tag that is read happened to say the same. */
  lemma RequotaParses(n: string, s: nat)
    requires s < ULONG
    ensures ParsedSize(Requota(n, s)) == if Tags(n[Slash(n)..]) >= 2 then ParsedSize(n) else Some(s)
  {
    hide Slash, Retag, LastTag, Tags;
    RequotaParts(n, s);
    LastTagOfRetag(n[Slash(n)..], s);
  }

  /** A name with two tags: setting the size to 3 does not change that 2 is read. */
  lemma SecondTagStays()
    ensures ParsedSize(Requota("m" + Tag(1) + Tag(2), 3)) == Some(2)
  {
    var n, b := "m" + Tag(1) + Tag(2), Tag(1) + Tag(2);
    assert n == "m" + b && n[1..] == b;
    assert '/' !in Tag(1) && '/' !in Tag(2);
    SlashIs(n, 0);
    assert n[0..] == n;
    TwoTags();
    RequotaParses(n, 3);
  }

  lemma TwoTags()
    ensures var b := Tag(1) + Tag(2); Tags(b) == 2 && LastTag(b) == Some(2)
  {
    TagReads(1, Tag(2));
    TagReads(2, "");
    assert Tag(2) + "" == Tag(2);
    TagThenRest(Tag(1) + Tag(2));
    TagThenRest(Tag(2));
    assert DropDigits(Tag(2)) == Tag(2) && DropDigits("") == "";
  }

  // ----- looking a message up -----

  function SkipTag(a: string): (r: string)
    ensures |r| <= |a|
  {
    if IsTag(a) then DropDigits(a[3..]) else a
  }

  /** The name that the lookup compares: without its flags and, wherever the loop passes one, without
      its size. */
  function Canonical(a: string): string
    decreases |a|
  {
    var r := SkipTag(a);
    if Ended(r) then "" else [r[0]] + Canonical(r[1..])
  }

  lemma CanonicalNext(a: string)
    ensures var r := SkipTag(a); Canonical(a) == if Ended(r) then "" else [r[0]] + Canonical(r[1..])
  {
  }

  // ----- what makes two names the same -----

  /** No tag stands anywhere in u. */
  predicate Untagged(u: string) {
    forall i :: 0 <= i && i + 3 <= |u| ==> !(u[i] == ',' && u[i + 1] == 'S' && u[i + 2] == '=')
  }

  /** A base name: no tag and no flags. */
  predicate BaseName(u: string) {
    ':' !in u && Untagged(u)
  }

  predicate AllDigits(d: string) {
    forall c :: c in d ==> '0' <= c <= '9'
  }

  /** v is nothing, or the flags. */
  predicate FlagsOnly(v: string) {
    v == "" || v[0] == ':'
  }

  lemma UntaggedTail(u: string)
    requires u != "" && Untagged(u)
    ensures Untagged(u[1..])
  {
    var t := u[1..];
    forall i | 0 <= i && i + 3 <= |t|
      ensures !(t[i] == ',' && t[i + 1] == 'S' && t[i + 2] == '=')
    {
      assert t[i] == u[i + 1];
    }
  }

  /** A name that is no tag at its front is read on character by character. */
  lemma NoTagHere(u: string, rest: string)
    requires u != "" && Untagged(u) && (rest == "" || rest[0] == ':' || rest[0] == ',')
    ensures !IsTag(u + rest)
  {
    var a := u + rest;
    if |u| < 3 && rest != "" { assert a[|u|] == rest[0]; }
    if |u| >= 3 { assert a[0] == u[0] && a[1] == u[0 + 1] && a[2] == u[0 + 2]; }
  }

  lemma {:induction false} DropAllDigits(d: string, v: string)
    requires AllDigits(d) && FlagsOnly(v)
    ensures DropDigits(d + v) == v
  {
    if d == "" {
      assert d + v == v;
    } else {
      assert d[0] in d && (d + v)[1..] == d[1..] + v;
      forall c | c in d[1..] ensures '0' <= c <= '9' { assert c in d; }
      DropAllDigits(d[1..], v);
    }
  }

  lemma BaseTail(u: string)
    requires u != "" && BaseName(u)
    ensures u[0] != ':' && BaseName(u[1..])
  {
    UntaggedTail(u);
    hide Untagged;
    assert u[0] in u && forall c :: c in u[1..] ==> c in u;
  }

  lemma CanonicalStep(c: char, t: string)
    requires c != ':' && !IsTag([c] + t)
    ensures Canonical([c] + t) == [c] + Canonical(t)
  {
    hide IsTag;
    assert ([c] + t)[1..] == t;
  }

  lemma {:induction false} BaseStays(u: string, rest: string)
    requires BaseName(u) && (rest == "" || rest[0] == ':' || rest[0] == ',')
    ensures Canonical(u + rest) == u + Canonical(rest)
  {
    if u == "" {
      assert u + rest == rest && u + Canonical(rest) == Canonical(rest);
    } else {
      BaseTail(u);
      NoTagHere(u, rest);
      hide *;
      BaseStays(u[1..], rest);
      assert u == [u[0]] + u[1..];
      Assoc([u[0]], u[1..], rest);
      CanonicalStep(u[0], u[1..] + rest);
      Assoc([u[0]], u[1..], Canonical(rest));
    }
  }

  /** Without flags and size, a name is its base. */
  lemma CanonicalIs(u: string, d: string, v: string)
    requires BaseName(u) && AllDigits(d) && FlagsOnly(v)
    ensures Canonical(u + v) == u
    ensures Canonical(u + ",S=" + d + v) == u
  {
    var tagged := ",S=" + d + v;
    assert u + ",S=" + d + v == u + tagged && tagged[3..] == d + v;
    DropAllDigits(d, v);
    BaseStays(u, v);
    BaseStays(u, tagged);
    assert Canonical(v) == "" && Canonical(tagged) == "" && u + "" == u;
  }

  /** Setting the size puts it behind the base name, in place of one that is there, and keeps the flags. */
  lemma RequotaIs(u: string, d: string, v: string, s: nat)
    requires BaseName(u) && AllDigits(d) && FlagsOnly(v) && '/' !in u + v
    ensures Requota(u + v, s) == u + ",S=" + Decimal(s) + v
    ensures Requota(u + ",S=" + d + v, s) == u + ",S=" + Decimal(s) + v
  {
    var tagged := ",S=" + d + v;
    assert u + ",S=" + d + v == u + tagged && tagged[3..] == d + v;
    assert u + ",S=" + Decimal(s) + v == u + (Tag(s) + v);
    DropAllDigits(d, v);
    RetagBase(u, v, s);
    RetagBase(u, tagged, s);
    RetagSets(v, s);
    RetagSets(tagged, s);
    NoSlashIn(u, d, v);
    ComponentOnly(u + v, s);
    ComponentOnly(u + tagged, s);
  }

  lemma NoSlashIn(u: string, d: string, v: string)
    requires AllDigits(d) && '/' !in u + v
    ensures '/' !in u + (",S=" + d + v)
  {
    forall c | c in u + (",S=" + d + v)
      ensures c != '/'
    {
      assert c in u || c == ',' || c == 'S' || c == '=' || c in d || c in v;
      assert c in u || c in v ==> c in u + v;
    }
  }

  lemma ComponentOnly(n: string, s: nat)
    requires '/' !in n
    ensures Requota(n, s) == Retag(n, s)
  {
    assert n[0..] == n && n[..0] == "" && "" + Retag(n, s) == Retag(n, s);
  }

  lemma {:induction false} RetagBase(u: string, rest: string, s: nat)
    requires BaseName(u) && (rest == "" || rest[0] == ':' || rest[0] == ',')
    ensures Retag(u + rest, s) == u + Retag(rest, s)
  {
    if u == "" {
      assert u + rest == rest && u + Retag(rest, s) == Retag(rest, s);
    } else {
      BaseTail(u);
      NoTagHere(u, rest);
      RetagBase(u[1..], rest, s);
      assert (u + rest)[0] == u[0] && (u + rest)[1..] == u[1..] + rest;
      hide IsTag, Tag, BaseName;
      assert u == [u[0]] + u[1..];
      Assoc([u[0]], u[1..], Retag(rest, s));
    }
  }

  /** The size read from a name is that of its tag; without a tag there is none. */
  lemma ParsedSizeIs(u: string, s: nat, v: string)
    requires BaseName(u) && FlagsOnly(v) && '/' !in u + v && s < 0x1_0000_0000_0000_0000
    ensures ParsedSize(u + ",S=" + Decimal(s) + v) == Some(s)
    ensures ParsedSize(u + v) == None
  {
    assert AllDigits("");
    RequotaIs(u, "", v, s);
    RequotaParses(u + v, s);
    assert (u + v)[0..] == u + v;
    NoTagsIn(u, v);
  }

  lemma {:induction false} NoTagsIn(u: string, v: string)
    requires BaseName(u) && FlagsOnly(v)
    ensures Tags(u + v) == 0 && LastTag(u + v) == None
  {
    if u == "" {
      assert u + v == v;
    } else {
      BaseTail(u);
      NoTagHere(u, v);
      NoTagsIn(u[1..], v);
      assert (u + v)[0] == u[0] && (u + v)[1..] == u[1..] + v;
      hide IsTag, BaseName;
    }
  }

  /** n is the base name u, perhaps with a size, and perhaps with flags. */
  ghost predicate IsNamed(n: string, u: string) {
    BaseName(u) && exists d, v :: AllDigits(d) && FlagsOnly(v) && (n == u + v || n == u + ",S=" + d + v)
  }

  lemma NamedIs(n: string, u: string)
    requires IsNamed(n, u)
    ensures Canonical(n) == u
  {
    var d, v :| AllDigits(d) && FlagsOnly(v) && (n == u + v || n == u + ",S=" + d + v);
    CanonicalIs(u, d, v);
  }

  /** A name without a tag before its flags: what stands before them is its base. */
  lemma UntaggedIsNamed(n: string)
    requires Untagged(Until(n, ':'))
    ensures IsNamed(n, Until(n, ':'))
  {
    hide Untagged, Until;
    var u := Until(n, ':');
    var v := n[|u|..];
    assert n == u + v && AllDigits("") && FlagsOnly(v) && BaseName(u);
  }

  /** The comparing loop of maildir_filename. */
  method SameMessage(filename: string, name: string) returns (same: bool)
    ensures same <==> Canonical(filename) == Canonical(name)
    ensures forall u, w :: IsNamed(filename, u) && IsNamed(name, w) ==> (same <==> u == w)
  {
    forall u, w | IsNamed(filename, u) && IsNamed(name, w)
      ensures Canonical(filename) == u && Canonical(name) == w
    {
      NamedIs(filename, u);
      NamedIs(name, w);
    }
    hide Canonical;
    var a, b := filename, name;
    while true
      invariant Canonical(filename) == Canonical(name) <==> Canonical(a) == Canonical(b)
      decreases |a|
    {
      CanonicalNext(a);
      CanonicalNext(b);
      a, b := SkipTag(a), SkipTag(b);
      if Ended(a) && Ended(b) { return true; }
      if Ended(a) || Ended(b) { return false; }
      SameTail(a[0], Canonical(a[1..]), b[0], Canonical(b[1..]));
      if a[0] != b[0] { return false; }
      a, b := a[1..], b[1..];
    }
    return false;
  }

  lemma SameTail(c: char, a: string, d: char, b: string)
    ensures [c] + a == [d] + b <==> c == d && a == b
  {
    assert ([c] + a)[1..] == a && ([d] + b)[1..] == b;
    assert ([c] + a)[0] == c && ([d] + b)[0] == d;
  }

  /** A name with its size set anew is still the same message. */
  lemma {:induction false} RetagIsSame(b: string, s: nat)
    ensures Canonical(Retag(b, s)) == Canonical(b)
  {
    if Ended(b) || IsTag(b) {
      var rest := Behind(b);
      RetagSets(b, s);
      TagReads(s, rest);
      assert DropDigits(rest) == rest;
      assert SkipTag(Tag(s) + rest) == rest == SkipTag(b);
    } else {
      RetagKeeps(b, s);
      RetagIsSame(b[1..], s);
    }
  }

  lemma RequotaIsSame(n: string, s: nat)
    requires '/' !in n
    ensures Canonical(Requota(n, s)) == Canonical(n)
  {
    RetagIsSame(n, s);
    assert n[0..] == n && n[..0] == "" && "" + Retag(n, s) == Retag(n, s);
  }

  ghost predicate AllNamed(names: seq<string>) {
    forall n :: n in names ==> exists u :: IsNamed(n, u)
  }

  /** maildir_filename: names are the entries of cur in the order readdir gives them. */
  method MaildirFilename(filename: string, names: seq<string>) returns (found: Option<string>)
    ensures found.None? <==> '/' in filename || (filename != "" && filename[0] == '.')
    ensures found.Some? && filename in names ==> found.value == filename
    ensures found.Some? && (exists n :: n in names && Canonical(n) == Canonical(filename)) ==>
      found.value in names && Canonical(found.value) == Canonical(filename)
    ensures found.Some? && !(exists n :: n in names && Canonical(n) == Canonical(filename)) ==> found.value == filename
    ensures forall u :: found.Some? && IsNamed(filename, u) && AllNamed(names) ==>
      if exists n :: n in names && IsNamed(n, u) then found.value in names && IsNamed(found.value, u)
      else found.value == filename
  {
    forall u | IsNamed(filename, u) && AllNamed(names)
      ensures forall n :: n in names ==> (IsNamed(n, u) <==> Canonical(n) == Canonical(filename))
    {
      NamedIs(filename, u);
      forall n | n in names
        ensures IsNamed(n, u) <==> Canonical(n) == u
      {
        var w :| IsNamed(n, w);
        NamedIs(n, w);
        if IsNamed(n, u) { NamedIs(n, u); }
      }
    }
    hide Canonical, IsNamed, AllNamed;
    if '/' in filename || (filename != "" && filename[0] == '.') { return None; }
    if filename in names { return Some(filename); }
    var i := 0;
    while i < |names|
      invariant i <= |names| && forall k :: 0 <= k < i ==> Canonical(names[k]) != Canonical(filename)
    {
      var same := SameMessage(filename, names[i]);
      if same { return Some(names[i]); }
      i := i + 1;
    }
    return Some(filename);
  }
}
