/** Base64 (section 4 of RFC 4648): the encoder of src/md5/md5_hash.c, the decoder in place of
    src/authlib/authsaslfrombase64.c and the streaming one of src/rfc2045/base64.c. */
module Base64 {
  import opened Text

  const PAD: bv8 := 61        // the '=' sign
  const NOTHING: bv8 := 100   // what both decoders note for a character without a value

  /** The alphabet, by character code. */
  function Letter(v: bv8): bv8
    requires v < 64
  {
    if v < 26 then v + 65 else if v < 52 then v + 71 else if v < 62 then v - 4 else if v == 62 then 43 else 47
  }

  function ValueOf(c: bv8): bv8 {
    if 65 <= c <= 90 then c - 65
    else if 97 <= c <= 122 then c - 71
    else if 48 <= c <= 57 then c + 4
    else if c == 43 then 62
    else if c == 47 then 63
    else NOTHING
  }

  lemma LetterHasValue(v: bv8)
    requires v < 64
    ensures ValueOf(Letter(v)) == v && Letter(v) != PAD && Letter(v) != 0
  {
  }

  const ALPHABET := "ABCDEFGHIJKLMNOPQRSTUVWXYZ" + "abcdefghijklmnopqrstuvwxyz" + "0123456789+/"

  /** The letters are those of table 1 of RFC 4648, in its order. */
  lemma LettersAre(v: bv8)
    requires v < 64
    ensures Letter(v) as int == ALPHABET[v] as int
  {
    if v < 26 {
      assert ALPHABET[v] == "ABCDEFGHIJKLMNOPQRSTUVWXYZ"[v];
    } else if v < 52 {
      assert ALPHABET[v] == "abcdefghijklmnopqrstuvwxyz"[v - 26];
    } else {
      assert ALPHABET[v] == "0123456789+/"[v - 52];
    }
  }

  // ----- encoding -----

  function First(a: bv8): (v: bv8)
    ensures v < 64
  {
    a >> 2
  }

  function Second(a: bv8, b: bv8): (v: bv8)
    ensures v < 64
  {
    ((a & 3) << 4) | (b >> 4)
  }

  function Third(b: bv8, c: bv8): (v: bv8)
    ensures v < 64
  {
    ((b & 15) << 2) | (c >> 6)
  }

  function Fourth(c: bv8): (v: bv8)
    ensures v < 64
  {
    c & 63
  }

  /** The four characters of up to three bytes; what is missing is padded. */
  function EncodeGroup(bs: seq<bv8>): (s: seq<bv8>)
    requires 1 <= |bs| <= 3
    ensures |s| == 4 && forall c :: c in s ==> c != 0
  {
    var a, b, c := bs[0], if |bs| > 1 then bs[1] else 0, if |bs| > 2 then bs[2] else 0;
    LetterHasValue(First(a));
    LetterHasValue(Second(a, b));
    LetterHasValue(Third(b, c));
    LetterHasValue(Fourth(c));
    [Letter(First(a)), Letter(Second(a, b)), if |bs| > 1 then Letter(Third(b, c)) else PAD,
     if |bs| > 2 then Letter(Fourth(c)) else PAD]
  }

  function Encode(bs: seq<bv8>): (s: seq<bv8>)
    ensures |s| == (|bs| + 2) / 3 * 4 && forall c :: c in s ==> c != 0
  {
    if bs == [] then []
    else if |bs| <= 3 then EncodeGroup(bs)
    else EncodeGroup(bs[..3]) + Encode(bs[3..])
  }

  // ----- decoding -----

  function Byte1(w: bv8, x: bv8): bv8 {
    (w << 2) | (x >> 4)
  }

  function Byte2(x: bv8, y: bv8): bv8 {
    (x << 4) | (y >> 2)
  }

  function Byte3(y: bv8, z: bv8): bv8 {
    (y << 6) | z
  }

  lemma BytesComeBack(a: bv8, b: bv8, c: bv8)
    ensures Byte1(First(a), Second(a, b)) == a
    ensures Byte2(Second(a, b), Third(b, c)) == b
    ensures Byte3(Third(b, c), Fourth(c)) == c
  {
  }

  /** One group of four values, with NOTHING standing for the padding. */
  function Group(w: bv8, x: bv8, y: bv8, z: bv8): (bs: seq<bv8>)
    ensures 1 <= |bs| <= 3
  {
    [Byte1(w, x)] + (if y != NOTHING then [Byte2(x, y)] else []) + (if z != NOTHING then [Byte3(y, z)] else [])
  }

  /** What a run of values decodes to; an incomplete last group is dropped. */
  function Decoded(vs: seq<bv8>): (bs: seq<bv8>)
    ensures |bs| <= |vs| / 4 * 3
  {
    if |vs| < 4 then [] else Group(vs[0], vs[1], vs[2], vs[3]) + Decoded(vs[4..])
  }

  function Values(s: seq<bv8>): (vs: seq<bv8>)
    ensures |vs| == |s|
  {
    seq(|s|, i requires 0 <= i < |s| => ValueOf(s[i]))
  }

  lemma GroupComesBack(bs: seq<bv8>)
    requires 1 <= |bs| <= 3
    ensures var s := EncodeGroup(bs); Group(ValueOf(s[0]), ValueOf(s[1]), ValueOf(s[2]), ValueOf(s[3])) == bs
  {
    var a, b, c := bs[0], if |bs| > 1 then bs[1] else 0, if |bs| > 2 then bs[2] else 0;
    BytesComeBack(a, b, c);
    LetterHasValue(First(a));
    LetterHasValue(Second(a, b));
    LetterHasValue(Third(b, c));
    LetterHasValue(Fourth(c));
    hide First, Second, Third, Fourth, Byte1, Byte2, Byte3, Letter;
    assert ValueOf(PAD) == NOTHING;
    hide ValueOf;
  }

  lemma DecodedNext(group: seq<bv8>, rest: seq<bv8>)
    requires |group| == 4
    ensures Decoded(Values(group + rest))
      == Group(ValueOf(group[0]), ValueOf(group[1]), ValueOf(group[2]), ValueOf(group[3])) + Decoded(Values(rest))
  {
    assert Values(group + rest)[4..] == Values(rest);
  }

  /** Decoding the encoding of any bytes gives them back. */
  lemma {:induction false} EncodedComesBack(bs: seq<bv8>)
    ensures Decoded(Values(Encode(bs))) == bs
  {
    hide EncodeGroup, Group, ValueOf, Values;
    if bs == [] {
      assert Values([]) == [];
    } else if |bs| <= 3 {
      GroupComesBack(bs);
      DecodedNext(EncodeGroup(bs), []);
      assert EncodeGroup(bs) + [] == EncodeGroup(bs) && bs + [] == bs && Values([]) == [];
    } else {
      EncodedComesBack(bs[3..]);
      GroupComesBack(bs[..3]);
      DecodedNext(EncodeGroup(bs[..3]), Encode(bs[3..]));
      assert bs[..3] + bs[3..] == bs;
    }
  }

  /** Two of the test vectors of section 10 of RFC 4648: "foo" and "fo". */
  lemma EncodeExamples()
    ensures Encode([102, 111, 111]) == [90, 109, 57, 118] && Encode([102, 111]) == [90, 109, 56, PAD]
  {
    assert First(102) == 25 && Second(102, 111) == 38 && Third(111, 111) == 61 && Fourth(111) == 47;
    assert Third(111, 0) == 60;
    assert Letter(25) == 90 && Letter(38) == 109 && Letter(61) == 57 && Letter(47) == 118 && Letter(60) == 56;
    hide First, Second, Third, Fourth, Letter;
  }

  // ----- the encoder -----

  function From(bs: seq<bv8>, i: nat): seq<bv8> {
    if i < |bs| then bs[i..] else []
  }

  /** The bytes from i on that make up one group. */
  function GroupAt(bs: seq<bv8>, i: nat): (g: seq<bv8>)
    requires i < |bs|
    ensures 1 <= |g| <= 3
  {
    if |bs| - i >= 3 then bs[i..i + 3] else bs[i..]
  }

  lemma EncodeNext(bs: seq<bv8>, i: nat)
    requires i < |bs|
    ensures Encode(From(bs, i)) == EncodeGroup(GroupAt(bs, i)) + Encode(From(bs, i + 3))
  {
    hide EncodeGroup;
    var rest := bs[i..];
    if |rest| > 3 {
      assert rest[..3] == bs[i..i + 3] && rest[3..] == bs[i + 3..];
    } else {
      assert rest == GroupAt(bs, i) && Encode([]) == [];
      assert EncodeGroup(rest) + [] == EncodeGroup(rest);
    }
  }

  lemma GroupLetters(bs: seq<bv8>, i: nat)
    requires i < |bs|
    ensures var a, b, c := bs[i], if i + 1 < |bs| then bs[i + 1] else 0, if i + 2 < |bs| then bs[i + 2] else 0;
      EncodeGroup(GroupAt(bs, i)) == [Letter(First(a)), Letter(Second(a, b)),
        if i + 1 >= |bs| then PAD else Letter(Third(b, c)), if i + 2 >= |bs| then PAD else Letter(Fourth(c))]
  {
    hide Letter, First, Second, Third, Fourth;
  }

  /** One round of the loop of md5_hash_courier. */
  method PutGroup(bs: seq<bv8>, i: nat, buffer: array<bv8>, j: nat)
    requires i < |bs| && j + 4 <= buffer.Length
    modifies buffer
    ensures buffer[..j + 4] == old(buffer[..j]) + EncodeGroup(GroupAt(bs, i))
  {
    var a := bs[i];
    var b := if i + 1 < |bs| then bs[i + 1] else 0;
    var c := if i + 2 < |bs| then bs[i + 2] else 0;
    var d, e := Letter(First(a)), Letter(Second(a, b));
    var f, g := Letter(Third(b, c)), Letter(Fourth(c));
    if i + 1 >= |bs| { f := PAD; }
    if i + 2 >= |bs| { g := PAD; }
    GroupLetters(bs, i);
    hide *;
    assert EncodeGroup(GroupAt(bs, i)) == [d, e, f, g];
    buffer[j], buffer[j + 1], buffer[j + 2], buffer[j + 3] := d, e, f, g;
  }

  /** md5_hash_courier's encoding, for any number of bytes. */
  method EncodeInto(bs: seq<bv8>, buffer: array<bv8>) returns (j: nat)
    requires buffer.Length >= 1 + (|bs| + 2) / 3 * 4
    modifies buffer
    ensures j < buffer.Length && buffer[..j] == Encode(bs) && buffer[j] == 0
  {
    hide Encode, EncodeGroup, GroupAt;
    j := 0;
    var i := 0;
    assert buffer[..0] == [] && From(bs, 0) == bs;
    assert [] + Encode(bs) == Encode(bs);
    while i < |bs|
      invariant i % 3 == 0 && i < |bs| + 3 && j == i / 3 * 4 && j < buffer.Length
      invariant buffer[..j] + Encode(From(bs, i)) == Encode(bs)
    {
      EncodeNext(bs, i);
      Appends(buffer[..j], EncodeGroup(GroupAt(bs, i)), Encode(From(bs, i + 3)));
      PutGroup(bs, i, buffer, j);
      j := j + 4;
      i := i + 3;
    }
    assert Encode([]) == [] && buffer[..j] + [] == buffer[..j];
    buffer[j] := 0;
  }

  lemma Appends(a: seq<bv8>, b: seq<bv8>, c: seq<bv8>)
    ensures a + (b + c) == (a + b) + c
  {
  }

  // ----- the decoder in place -----

  /** The text in a buffer ends before its first zero. */
  predicate IsText(buffer: seq<bv8>, n: nat) {
    n < |buffer| && buffer[n] == 0 && forall i :: 0 <= i < n ==> buffer[i] != 0
  }

  /** How much of a text the decoder takes: letters and then padding, in whole groups. Of what follows
      the letters, at most two characters may be anything else. */
  function Taken(s: seq<bv8>): (n: Option<nat>)
    ensures n.Some? ==> n.value <= |s| && n.value % 4 == 0
  {
    var j := Letters(s);
    if |s| - j >= 3 then None
    else
      var k := j + Pads(s[j..]);
      if k % 4 != 0 then None else Some(k)
  }

  function Letters(s: seq<bv8>): (n: nat)
    ensures n <= |s| && (n < |s| ==> ValueOf(s[n]) == NOTHING)
  {
    if s == [] || ValueOf(s[0]) == NOTHING then 0 else 1 + Letters(s[1..])
  }

  function Pads(s: seq<bv8>): (n: nat)
    ensures n <= |s|
  {
    if s == [] || s[0] != PAD then 0 else 1 + Pads(s[1..])
  }

  /** What is taken ends behind j letters and all the padding signs that follow, and is whole groups; behind the
      letters there are no more than two characters of any kind. */
  ghost predicate TakenAt(s: seq<bv8>, j: nat, n: nat) {
    && j <= n <= |s| && |s| - j <= 2 && n % 4 == 0
    && (forall i :: 0 <= i < j ==> ValueOf(s[i]) != NOTHING) && (j < |s| ==> ValueOf(s[j]) == NOTHING)
    && (forall i :: j <= i < n ==> s[i] == PAD) && (n < |s| ==> s[n] != PAD)
  }

  lemma {:induction false} LettersAt(s: seq<bv8>, j: nat)
    requires j <= |s| && (forall i :: 0 <= i < j ==> ValueOf(s[i]) != NOTHING) && (j < |s| ==> ValueOf(s[j]) == NOTHING)
    ensures Letters(s) == j
  {
    hide ValueOf;
    if j > 0 { LettersAt(s[1..], j - 1); }
  }

  lemma {:induction false} LettersBefore(s: seq<bv8>)
    ensures forall i :: 0 <= i < Letters(s) ==> ValueOf(s[i]) != NOTHING
  {
    hide ValueOf;
    if Letters(s) > 0 {
      LettersBefore(s[1..]);
      forall i | 0 < i < Letters(s) ensures ValueOf(s[i]) != NOTHING { assert s[1..][i - 1] == s[i]; }
    }
  }

  lemma {:induction false} PadsAt(s: seq<bv8>)
    ensures forall i :: 0 <= i < Pads(s) ==> s[i] == PAD
    ensures Pads(s) < |s| ==> s[Pads(s)] != PAD
  {
    if Pads(s) > 0 {
      PadsAt(s[1..]);
      forall i | 0 < i < Pads(s) ensures s[i] == PAD { assert s[1..][i - 1] == s[i]; }
    }
  }

  lemma TakenIs(s: seq<bv8>)
    ensures forall j: nat, n: nat :: TakenAt(s, j, n) ==> Taken(s) == Some(n)
    ensures Taken(s).Some? ==> exists j: nat :: TakenAt(s, j, Taken(s).value)
  {
    hide ValueOf, Letters, Pads;
    var j := Letters(s);
    LettersBefore(s);
    PadsAt(s[j..]);
    var k := j + Pads(s[j..]);
    forall i | j <= i < k ensures s[i] == PAD { assert s[j..][i - j] == s[i]; }
    if k < |s| { assert s[j..][k - j] == s[k]; }
    forall i: nat, n: nat | TakenAt(s, i, n)
      ensures i == j && n == k
    {
      LettersAt(s, i);
    }
    if Taken(s).Some? { assert TakenAt(s, j, k); }
  }

  lemma {:induction false} LettersFrom(s: seq<bv8>, j: nat)
    requires j <= |s| && forall i :: 0 <= i < j ==> ValueOf(s[i]) != NOTHING
    ensures Letters(s) == j + Letters(s[j..])
  {
    hide ValueOf;
    if j > 0 {
      LettersFrom(s[1..], j - 1);
      assert s[1..][j - 1..] == s[j..];
    } else {
      assert s[0..] == s;
    }
  }

  lemma {:induction false} PadsFrom(s: seq<bv8>, j: nat)
    requires j <= |s| && forall i :: 0 <= i < j ==> s[i] == PAD
    ensures Pads(s) == j + Pads(s[j..])
  {
    if j > 0 {
      PadsFrom(s[1..], j - 1);
      assert s[1..][j - 1..] == s[j..];
    } else {
      assert s[0..] == s;
    }
  }

  method SkipLetters(buffer: array<bv8>, ghost n: nat) returns (j: nat)
    requires IsText(buffer[..], n)
    ensures j <= n && j == Letters(buffer[..n]) && ValueOf(buffer[j]) == NOTHING
    ensures forall i :: 0 <= i < j ==> ValueOf(buffer[i]) != NOTHING
  {
    hide ValueOf, Letters;
    PadHasNoValue();
    j := 0;
    while buffer[j] != 0 && ValueOf(buffer[j]) != NOTHING
      invariant j <= n && forall i :: 0 <= i < j ==> ValueOf(buffer[i]) != NOTHING
      decreases n - j
    {
      j := j + 1;
    }
    LettersEnd(buffer[..n], j);
  }

  lemma LettersEnd(s: seq<bv8>, j: nat)
    requires j <= |s| && (forall i :: 0 <= i < j ==> ValueOf(s[i]) != NOTHING) && (j < |s| ==> ValueOf(s[j]) == NOTHING)
    ensures Letters(s) == j
  {
    hide ValueOf;
    LettersFrom(s, j);
  }

  method SkipPads(buffer: array<bv8>, from: nat, ghost n: nat) returns (j: nat)
    requires IsText(buffer[..], n) && from <= n
    ensures from <= j <= n && j == from + Pads(buffer[from..n]) && (forall i :: from <= i < j ==> buffer[i] == PAD)
  {
    hide Pads;
    j := from;
    while buffer[j] == PAD
      invariant from <= j <= n && forall i :: from <= i < j ==> buffer[i] == PAD
      decreases n - j
    {
      j := j + 1;
    }
    PadsEnd(buffer[from..n], j - from);
  }

  lemma PadsEnd(s: seq<bv8>, j: nat)
    requires j <= |s| && (forall i :: 0 <= i < j ==> s[i] == PAD) && (j < |s| ==> s[j] != PAD)
    ensures Pads(s) == j
  {
    PadsFrom(s, j);
  }

  /** The scanning part of authsasl_frombase64. */
  method Measure(buffer: array<bv8>, ghost n: nat) returns (taken: Option<nat>)
    requires IsText(buffer[..], n)
    ensures taken == Taken(buffer[..n])
    ensures taken.Some? ==> forall i :: 0 <= i < taken.value ==> (ValueOf(buffer[i]) == NOTHING <==> buffer[i] == PAD)
  {
    hide ValueOf, Letters, Pads;
    PadHasNoValue();
    var letters := SkipLetters(buffer, n);
    if buffer[letters] != 0 && buffer[letters + 1] != 0 && buffer[letters + 2] != 0 { return None; }
    var j := SkipPads(buffer, letters, n);
    assert buffer[..n][letters..] == buffer[letters..n];
    if j % 4 != 0 { return None; }
    return Some(j);
  }

  lemma PadHasNoValue()
    ensures ValueOf(PAD) == NOTHING && PAD != 0 && ValueOf(0) == NOTHING
  {
  }

  lemma {:induction false} DecodedAppend(vs: seq<bv8>, g: seq<bv8>)
    requires |vs| % 4 == 0 && |g| == 4
    ensures Decoded(vs + g) == Decoded(vs) + Group(g[0], g[1], g[2], g[3])
  {
    hide Group;
    if vs == [] {
      assert vs + g == g && Decoded(g[4..]) == [];
      assert Group(g[0], g[1], g[2], g[3]) + [] == Group(g[0], g[1], g[2], g[3]);
    } else {
      DecodedAppend(vs[4..], g);
      assert (vs + g)[4..] == vs[4..] + g;
      Appends(Group(vs[0], vs[1], vs[2], vs[3]), Decoded(vs[4..]), Group(g[0], g[1], g[2], g[3]));
    }
  }

  /** One group, decoded into the place before it: nothing is written at or behind the next group. */
  method DecodeGroup(buffer: array<bv8>, j: nat, k: nat) returns (next: nat)
    requires k <= j && j + 4 <= buffer.Length
    requires forall i :: j <= i < j + 4 ==> (ValueOf(buffer[i]) == NOTHING <==> buffer[i] == PAD)
    modifies buffer
    ensures next <= k + 3 && forall i :: j + 4 <= i < buffer.Length ==> buffer[i] == old(buffer[i])
    ensures buffer[..next] == old(buffer[..k] +
      Group(ValueOf(buffer[j]), ValueOf(buffer[j + 1]), ValueOf(buffer[j + 2]), ValueOf(buffer[j + 3])))
  {
    hide ValueOf, Byte1, Byte2, Byte3;
    var w, x := ValueOf(buffer[j]), ValueOf(buffer[j + 1]);
    var y, z := ValueOf(buffer[j + 2]), ValueOf(buffer[j + 3]);
    var a, b, c := Byte1(w, x), Byte2(x, y), Byte3(y, z);
    next := k;
    buffer[next], next := a, next + 1;
    if buffer[j + 2] != PAD {
      buffer[next], next := b, next + 1;
    }
    if buffer[j + 3] != PAD {
      buffer[next], next := c, next + 1;
    }
  }

  lemma DecodedStep(s: seq<bv8>, j: nat)
    requires j % 4 == 0 && j + 4 <= |s|
    ensures Decoded(Values(s[..j + 4]))
      == Decoded(Values(s[..j])) + Group(ValueOf(s[j]), ValueOf(s[j + 1]), ValueOf(s[j + 2]), ValueOf(s[j + 3]))
  {
    hide Group, ValueOf, Decoded;
    var g := Values(s[j..j + 4]);
    DecodedAppend(Values(s[..j]), g);
    assert Values(s[..j]) + g == Values(s[..j + 4]);
  }

  /** After the group at j: the decoded part has grown by one group. */
  ghost predicate Decoding(buffer: seq<bv8>, s: seq<bv8>, j: nat, k: nat)
    requires j % 4 == 0
  {
    && k <= j <= |s| <= |buffer| && buffer[..k] == Decoded(Values(s[..j]))
    && forall i :: j <= i < |s| ==> buffer[i] == s[i]
  }

  lemma DecodingStarts(buffer: seq<bv8>, s: seq<bv8>)
    requires s <= buffer
    ensures Decoding(buffer, s, 0, 0)
  {
    assert Decoded(Values(s[..0])) == [];
  }

  lemma DecodingGoesOn(buffer: seq<bv8>, s: seq<bv8>, j: nat, k: nat, after: seq<bv8>, next: nat)
    requires j % 4 == 0 && Decoding(buffer, s, j, k) && j + 4 <= |s| && |after| == |buffer| && next <= k + 3
    requires forall i :: j + 4 <= i < |buffer| ==> after[i] == buffer[i]
    requires after[..next] == buffer[..k] +
      Group(ValueOf(buffer[j]), ValueOf(buffer[j + 1]), ValueOf(buffer[j + 2]), ValueOf(buffer[j + 3]))
    ensures Decoding(after, s, j + 4, next)
  {
    hide Group, ValueOf, Decoded, Values;
    DecodedStep(s, j);
  }

  lemma DecodingEnds(buffer: seq<bv8>, s: seq<bv8>, k: nat)
    requires |s| % 4 == 0 && Decoding(buffer, s, |s|, k)
    ensures buffer[..k] == Decoded(Values(s))
  {
    assert s[..|s|] == s;
  }

  /** The decoding loop: the groups are taken from the front of the buffer and put back there. */
  method DecodeAll(buffer: array<bv8>, size: nat) returns (k: nat)
    requires size % 4 == 0 && size <= buffer.Length
    requires forall i :: 0 <= i < size ==> (ValueOf(buffer[i]) == NOTHING <==> buffer[i] == PAD)
    modifies buffer
    ensures k <= size && buffer[..k] == Decoded(Values(old(buffer[..size])))
  {
    hide Values, Decoded, Decoding, ValueOf;
    ghost var s := buffer[..size];
    DecodingStarts(buffer[..], s);
    k := 0;
    var j := 0;
    while j < size
      invariant j % 4 == 0 && k <= j <= size && Decoding(buffer[..], s, j, k)
    {
      k := DecodeOne(buffer, j, k, s);
      j := j + 4;
    }
    DecodingEnds(buffer[..], s, k);
    assert buffer[..][..k] == buffer[..k];
  }

  /** One round of the loop. */
  method DecodeOne(buffer: array<bv8>, j: nat, k: nat, ghost s: seq<bv8>) returns (next: nat)
    requires j % 4 == 0 && Decoding(buffer[..], s, j, k) && j + 4 <= |s|
    requires forall i :: 0 <= i < |s| ==> (ValueOf(s[i]) == NOTHING <==> s[i] == PAD)
    modifies buffer
    ensures next <= j + 4 && Decoding(buffer[..], s, j + 4, next)
  {
    hide ValueOf, Group, Decoded, Values;
    ghost var before := buffer[..];
    next := DecodeGroup(buffer, j, k);
    DecodingGoesOn(before, s, j, k, buffer[..], next);
  }

  /** authsasl_frombase64: the number of bytes left at the front of the buffer, or -1. */
  method FromBase64(buffer: array<bv8>, ghost n: nat) returns (k: int)
    requires IsText(buffer[..], n)
    modifies buffer
    ensures k == -1 <==> Taken(old(buffer[..n])).None?
    ensures k >= 0 ==> k <= n && buffer[..k] == Decoded(Values(old(buffer[..n])[..Taken(old(buffer[..n])).value]))
    ensures k >= -1
  {
    var taken := Measure(buffer, n);
    if taken == None { return -1; }
    hide *;
    assert buffer[..taken.value] == buffer[..n][..taken.value];
    k := DecodeAll(buffer, taken.value);
  }

  function Padding(bs: seq<bv8>): nat {
    (3 - |bs| % 3) % 3
  }

  /** Letters, and then so many padding characters. */
  ghost predicate Shaped(s: seq<bv8>, padding: nat) {
    padding <= |s| && forall i :: 0 <= i < |s| ==>
      if i < |s| - padding then ValueOf(s[i]) != NOTHING else s[i] == PAD
  }

  lemma GroupShape(bs: seq<bv8>)
    requires 1 <= |bs| <= 3
    ensures Shaped(EncodeGroup(bs), 3 - |bs|)
  {
    var a, b, c := bs[0], if |bs| > 1 then bs[1] else 0, if |bs| > 2 then bs[2] else 0;
    LetterHasValue(First(a));
    LetterHasValue(Second(a, b));
    LetterHasValue(Third(b, c));
    LetterHasValue(Fourth(c));
  }

  lemma ShapedAppend(g: seq<bv8>, s: seq<bv8>, padding: nat)
    requires Shaped(g, 0) && Shaped(s, padding)
    ensures Shaped(g + s, padding)
  {
  }

  /** An encoding is letters, and then its padding. */
  lemma {:induction false} EncodedShape(bs: seq<bv8>)
    ensures Shaped(Encode(bs), Padding(bs))
  {
    hide EncodeGroup, ValueOf;
    if bs != [] {
      if |bs| <= 3 {
        GroupShape(bs);
      } else {
        EncodedShape(bs[3..]);
        GroupShape(bs[..3]);
        hide Shaped;
        ShapedAppend(EncodeGroup(bs[..3]), Encode(bs[3..]), Padding(bs));
      }
    }
  }

  /** The decoder in place takes the whole of an encoding and tolerates other characters behind it, as
      many as with the padding make two. */
  lemma EncodedIsTaken(bs: seq<bv8>, stray: seq<bv8>)
    requires Padding(bs) + |stray| <= 2
    requires stray != [] ==> stray[0] != PAD && (Padding(bs) == 0 ==> ValueOf(stray[0]) == NOTHING)
    ensures Taken(Encode(bs) + stray) == Some(|Encode(bs)|)
    ensures (Encode(bs) + stray)[..|Encode(bs)|] == Encode(bs)
  {
    var s, letters := Encode(bs) + stray, |Encode(bs)| - Padding(bs);
    EncodedShape(bs);
    PadHasNoValue();
    hide ValueOf, Encode;
    LettersFrom(s, letters);
    assert Letters(s[letters..]) == 0;
    var tail := s[letters..];
    PadsFrom(tail, Padding(bs));
    assert tail[Padding(bs)..] == stray && Pads(stray) == 0;
  }

  /** An encoding in a buffer decodes in place to the bytes it was made from. */
  method DecodeInPlace(bs: seq<bv8>, buffer: array<bv8>) returns (k: int)
    requires buffer.Length >= 1 + (|bs| + 2) / 3 * 4
    modifies buffer
    ensures k == |bs| && buffer[..k] == bs
  {
    var j := EncodeInto(bs, buffer);
    EncodedIsTaken(bs, []);
    EncodedComesBack(bs);
    hide *;
    assert Encode(bs) + [] == Encode(bs) && Encode(bs)[..|Encode(bs)|] == Encode(bs);
    assert buffer[..j] == Encode(bs);
    assert IsText(buffer[..], j) by { EncodedIsText(bs, buffer[..], j); }
    k := FromBase64(buffer, j);
  }

  lemma EncodedIsText(bs: seq<bv8>, buffer: seq<bv8>, j: nat)
    requires j < |buffer| && buffer[..j] == Encode(bs) && buffer[j] == 0
    ensures IsText(buffer, j)
  {
    forall i | 0 <= i < j
      ensures buffer[i] != 0
    {
      assert buffer[i] == Encode(bs)[i] && Encode(bs)[i] in Encode(bs);
    }
  }

  // ----- the streaming decoder -----

  /** strchr also finds the zero at the end of the alphabet. */
  function StreamValue(c: bv8): bv8 {
    if c == 0 then 64 else ValueOf(c)
  }

  /** The values a stream is read as; characters that are neither letters nor padding are passed over. */
  function Stream(s: seq<bv8>): seq<bv8> {
    if s == [] then []
    else (if s[0] == PAD || StreamValue(s[0]) != NOTHING then [StreamValue(s[0])] else []) + Stream(s[1..])
  }

  /** A zero byte in the stream is taken for a letter of value 64, and shifts what follows it. */
  lemma ZeroIsRead(s: seq<bv8>)
    ensures Stream([0] + s) == [64] + Stream(s)
  {
    assert ([0] + s)[1..] == s;
  }

  lemma {:induction false} StreamAppend(a: seq<bv8>, b: seq<bv8>)
    ensures Stream(a + b) == Stream(a) + Stream(b)
  {
    hide StreamValue;
    if a == [] {
      assert a + b == b;
    } else {
      StreamAppend(a[1..], b);
      assert (a + b)[1..] == a[1..] + b;
      var first := if a[0] == PAD || StreamValue(a[0]) != NOTHING then [StreamValue(a[0])] else [];
      Appends(first, Stream(a[1..]), Stream(b));
    }
  }

  lemma {:induction false} DecodedSplit(vs: seq<bv8>, ws: seq<bv8>)
    requires |vs| % 4 == 0
    ensures Decoded(vs + ws) == Decoded(vs) + Decoded(ws)
  {
    hide Group;
    if vs == [] {
      assert vs + ws == ws;
    } else {
      DecodedSplit(vs[4..], ws);
      assert (vs + ws)[4..] == vs[4..] + ws;
      Appends(Group(vs[0], vs[1], vs[2], vs[3]), Decoded(vs[4..]), Decoded(ws));
    }
  }

  lemma ValuesStep(vs: seq<bv8>, j: nat)
    requires j % 4 == 0 && j + 4 <= |vs|
    ensures Decoded(vs[..j + 4]) == Decoded(vs[..j]) + Group(vs[j], vs[j + 1], vs[j + 2], vs[j + 3])
  {
    hide Group, Decoded;
    var g := vs[j..j + 4];
    DecodedAppend(vs[..j], g);
    assert vs[..j] + g == vs[..j + 4];
  }

  /** One group of values, put back before it as bytes. */
  method FlushGroup(workbuf: array<bv8>, j: nat, k: nat) returns (next: nat)
    requires k <= j && j + 4 <= workbuf.Length
    modifies workbuf
    ensures next <= k + 3 && forall i :: j + 4 <= i < workbuf.Length ==> workbuf[i] == old(workbuf[i])
    ensures workbuf[..next] == old(workbuf[..k] + Group(workbuf[j], workbuf[j + 1], workbuf[j + 2], workbuf[j + 3]))
  {
    hide Byte1, Byte2, Byte3;
    var w, x, y, z := workbuf[j], workbuf[j + 1], workbuf[j + 2], workbuf[j + 3];
    var a, b, c := Byte1(w, x), Byte2(x, y), Byte3(y, z);
    next := k;
    workbuf[next], next := a, next + 1;
    if y != NOTHING {
      workbuf[next], next := b, next + 1;
    }
    if z != NOTHING {
      workbuf[next], next := c, next + 1;
    }
  }

  method FlushGroups(workbuf: array<bv8>, size: nat) returns (k: nat)
    requires size % 4 == 0 && size <= workbuf.Length
    modifies workbuf
    ensures k <= size && workbuf[..k] == Decoded(old(workbuf[..size]))
    ensures forall i :: size <= i < workbuf.Length ==> workbuf[i] == old(workbuf[i])
  {
    hide Group, Decoded;
    ghost var vs := workbuf[..size];
    assert vs[..0] == [] && Decoded([]) == [];
    k := 0;
    var j := 0;
    while j < size
      invariant j % 4 == 0 && k <= j <= size
      invariant workbuf[..k] == Decoded(vs[..j])
      invariant forall i :: j <= i < size ==> workbuf[i] == vs[i]
      invariant forall i :: size <= i < workbuf.Length ==> workbuf[i] == old(workbuf[i])
    {
      ValuesStep(vs, j);
      k := FlushGroup(workbuf, j, k);
      j := j + 4;
    }
    assert vs[..j] == vs;
  }

  /** What is left after the last whole group moves to the front. */
  method MoveDown(workbuf: array<bv8>, from: nat, to: nat) returns (k: nat)
    requires from <= to <= workbuf.Length
    modifies workbuf
    ensures k == to - from && workbuf[..k] == old(workbuf[from..to])
  {
    k := 0;
    var i := from;
    while i < to
      invariant i == from + k <= to
      invariant forall h :: 0 <= h < k ==> workbuf[h] == old(workbuf[from + h])
      invariant forall h :: i <= h < to ==> workbuf[h] == old(workbuf[h])
    {
      workbuf[k] := workbuf[i];
      k := k + 1;
      i := i + 1;
    }
  }

  class Base64Decode {
    const workbuf: array<bv8>
    var workbuflen: nat
    var delivered: seq<bv8>      // what the callback was given
    ghost var done: seq<bv8>     // the values that were decoded
    ghost var read: seq<bv8>     // what was passed to base64_decode

    ghost predicate Valid()
      reads this, workbuf
    {
      && workbuf.Length == 256 && workbuflen <= 256 && |done| % 4 == 0
      && Stream(read) == done + workbuf[..workbuflen] && delivered == Decoded(done)
    }

    /** base64_decode_init */
    constructor ()
      ensures Valid() && read == [] && fresh(workbuf)
    {
      workbuf, workbuflen, delivered, done, read := new bv8[256], 0, [], [], [];
      new;
      assert Stream(read) == [] + workbuf[..0] && Decoded([]) == [];
    }

    /** doflush */
    method Flush()
      requires Valid()
      modifies this, workbuf
      ensures Valid() && read == old(read) && workbuflen < 4 && delivered == Decoded(Stream(read))
    {
      hide Decoded, Stream;
      var i := workbuflen / 4 * 4;
      ghost var whole, rest := workbuf[..i], workbuf[i..workbuflen];
      assert workbuf[..workbuflen] == whole + rest;
      Appends(done, whole, rest);
      DecodedSplit(done, whole);
      DecodedSplit(done + whole, rest);
      var k := FlushGroups(workbuf, i);
      delivered := delivered + workbuf[..k];
      assert workbuf[i..workbuflen] == rest;
      done := done + whole;
      k := MoveDown(workbuf, i, workbuflen);
      workbuflen := k;
      assert Decoded(rest) == [] && Decoded(done) + [] == Decoded(done);
    }

    /** base64_decode */
    method Decode(p: seq<bv8>)
      requires Valid()
      modifies this, workbuf
      ensures Valid() && read == old(read) + p
    {
      var i := 0;
      assert read + p[..0] == read;
      while i < |p|
        invariant i <= |p| && Valid() && read == old(read) + p[..i]
      {
        if workbuflen >= 256 { Flush(); }
        Take(p[i]);
        assert p[..i + 1] == p[..i] + [p[i]];
        i := i + 1;
      }
      assert p[..i] == p;
    }

    /** One character of the loop. */
    method Take(c: bv8)
      requires Valid() && workbuflen < 256
      modifies this, workbuf
      ensures Valid() && read == old(read) + [c]
    {
      StreamAppend(read, [c]);
      StreamOne(c);
      hide Stream, Decoded;
      ghost var before := workbuf[..workbuflen];
      read := read + [c];
      if c == PAD {
        Appends(done, before, [NOTHING]);
        workbuf[workbuflen] := NOTHING;
        workbuflen := workbuflen + 1;
        assert workbuf[..workbuflen] == before + [NOTHING];
      } else {
        var v := StreamValue(c);
        if v == NOTHING {
          assert done + before + [] == done + before;
          return;
        }
        Appends(done, before, [v]);
        workbuf[workbuflen] := v;
        workbuflen := workbuflen + 1;
        assert workbuf[..workbuflen] == before + [v];
      }
    }
  }

  lemma StreamOne(c: bv8)
    ensures Stream([c]) == if c == PAD then [NOTHING] else if StreamValue(c) != NOTHING then [StreamValue(c)] else []
  {
    PadHasNoValue();
    assert Stream([]) == [];
  }

  // ----- every chunking -----

  function Join(chunks: seq<seq<bv8>>): seq<bv8> {
    if chunks == [] then [] else Join(chunks[..|chunks| - 1]) + chunks[|chunks| - 1]
  }

  /** The characters that the streaming decoder does not pass over. */
  function Significant(s: seq<bv8>): seq<bv8> {
    if s == [] then []
    else (if s[0] == PAD || StreamValue(s[0]) != NOTHING then [s[0]] else []) + Significant(s[1..])
  }

  lemma ValuesAppend(s: seq<bv8>, t: seq<bv8>)
    ensures Values(s + t) == Values(s) + Values(t)
  {
    hide ValueOf;
  }

  lemma ValuesOne(c: bv8)
    ensures Values([c]) == [ValueOf(c)] && Values([]) == []
  {
    hide ValueOf;
  }

  lemma {:induction false} StreamIsValues(s: seq<bv8>)
    requires 0 !in s
    ensures Stream(s) == Values(Significant(s))
  {
    if s == [] {
      ValuesOne(0);
    } else {
      assert s[0] in s && forall c :: c in s[1..] ==> c in s;
      assert StreamValue(s[0]) == ValueOf(s[0]);
      hide ValueOf, StreamValue, Values;
      StreamIsValues(s[1..]);
      ValuesOne(s[0]);
      var first := if s[0] == PAD || StreamValue(s[0]) != NOTHING then [s[0]] else [];
      ValuesAppend(first, Significant(s[1..]));
    }
  }

  /** However the text of an encoding is split, and whatever else but zeros is scattered in it, the
      streaming decoder gives back the bytes. */
  lemma StreamComesBack(s: seq<bv8>, bs: seq<bv8>)
    requires 0 !in s && Significant(s) == Encode(bs)
    ensures Decoded(Stream(s)) == bs
  {
    StreamIsValues(s);
    EncodedComesBack(bs);
  }

  /** In an encoding itself every character counts. */
  lemma {:induction false} AllSignificant(s: seq<bv8>)
    requires forall c :: c in s ==> c != 0 && (c == PAD || ValueOf(c) != NOTHING)
    ensures Significant(s) == s
  {
    hide ValueOf;
    if s != [] {
      assert s[0] in s && forall c :: c in s[1..] ==> c in s;
      AllSignificant(s[1..]);
      assert s == [s[0]] + s[1..];
    }
  }

  lemma EncodedIsSignificant(bs: seq<bv8>)
    ensures Significant(Encode(bs)) == Encode(bs) && 0 !in Encode(bs)
  {
    EncodedShape(bs);
    hide ValueOf;
    AllSignificant(Encode(bs));
  }

  /** base64_decode_init, base64_decode for each chunk, and base64_decode_end: the bytes of an encoding come
      back whole, however it is cut and whatever but zeros is scattered in it. */
  method DecodeChunks(chunks: seq<seq<bv8>>) returns (out: seq<bv8>)
    ensures out == Decoded(Stream(Join(chunks)))
    ensures forall bs :: Join(chunks) == Encode(bs) ==> out == bs
    ensures forall bs :: 0 !in Join(chunks) && Significant(Join(chunks)) == Encode(bs) ==> out == bs
  {
    var b := new Base64Decode();
    var i := 0;
    while i < |chunks|
      invariant i <= |chunks| && b.Valid() && b.read == Join(chunks[..i]) && fresh(b) && fresh(b.workbuf)
    {
      b.Decode(chunks[i]);
      assert chunks[..i + 1][..i] == chunks[..i];
      i := i + 1;
    }
    assert chunks[..i] == chunks;
    hide Decoded, Stream, Significant, Encode;
    b.Flush();
    out := b.delivered;
    forall bs | Join(chunks) == Encode(bs)
      ensures 0 !in Join(chunks) && Significant(Join(chunks)) == Encode(bs)
    {
      EncodedIsSignificant(bs);
    }
    forall bs | 0 !in Join(chunks) && Significant(Join(chunks)) == Encode(bs)
      ensures out == bs
    {
      StreamComesBack(Join(chunks), bs);
    }
  }
}
