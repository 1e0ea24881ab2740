/** Streaming MD5: src/md5/md5.c. The 64-byte compression function is a parameter; what is modelled
    is everything around it (sections 3.1 to 3.3 and 3.5 of RFC 1321). */
module Md5 {

  type byte = x: int | 0 <= x < 0x100
  type word = x: int | 0 <= x < 0x1_0000_0000

  const BLOCK_SIZE := 64
  const DIGEST_SIZE := 16

  datatype Words = Words(a: word, b: word, c: word, d: word)

  type Compression = (Words, seq<byte>) -> Words

  const INITIAL := Words(0x67452301, 0xefcdab89, 0x98badcfe, 0x10325476)

  predicate Whole(s: seq<byte>) {
    |s| % BLOCK_SIZE == 0
  }

  lemma WholeParts(s: seq<byte>, t: seq<byte>)
    requires |s| % BLOCK_SIZE == 0
    ensures s != [] ==> |s| >= BLOCK_SIZE && Whole(s[BLOCK_SIZE..])
    ensures Whole(s + t) <==> Whole(t)
  {
    assert |s| == BLOCK_SIZE * (|s| / BLOCK_SIZE);
  }

  /** The compression function applied to one block after the other. */
  function Fold(f: Compression, w: Words, s: seq<byte>): Words
    requires Whole(s)
    decreases |s|
  {
    WholeParts(s, []);
    if s == [] then w else Fold(f, f(w, s[..BLOCK_SIZE]), s[BLOCK_SIZE..])
  }

  lemma {:induction false} FoldAppend(f: Compression, w: Words, s: seq<byte>, t: seq<byte>)
    requires Whole(s) && Whole(t)
    ensures Whole(s + t)
    ensures Fold(f, w, s + t) == Fold(f, Fold(f, w, s), t)
    decreases |s|
  {
    WholeParts(s, t);
    if s == [] {
      assert s + t == t;
    } else {
      assert (s + t)[..BLOCK_SIZE] == s[..BLOCK_SIZE];
      assert (s + t)[BLOCK_SIZE..] == s[BLOCK_SIZE..] + t;
      FoldAppend(f, f(w, s[..BLOCK_SIZE]), s[BLOCK_SIZE..], t);
    }
  }

  lemma FoldOne(f: Compression, w: Words, block: seq<byte>)
    requires |block| == BLOCK_SIZE
    ensures Fold(f, w, block) == f(w, block)
  {
    assert block[..BLOCK_SIZE] == block;
  }

  // ----- the padded message -----

  /** A 32-bit word, low-order byte first. */
  function Bytes(x: word): (s: seq<byte>)
    ensures |s| == 4
  {
    [x % 0x100, x / 0x100 % 0x100, x / 0x100 / 0x100 % 0x100, x / 0x100 / 0x100 / 0x100]
  }

  function Word(s: seq<byte>): (x: word)
    requires |s| == 4
  {
    var a: int, b: int, c: int, d: int := s[0], s[1], s[2], s[3];
    a + 0x100 * (b + 0x100 * (c + 0x100 * d))
  }

  lemma WordBytes(x: word)
    ensures Word(Bytes(x)) == x
  {
  }

  lemma LowByte(low: byte, rest: nat)
    ensures (low + 0x100 * rest) % 0x100 == low && (low + 0x100 * rest) / 0x100 == rest
  {
  }

  lemma BytesWord(s: seq<byte>)
    requires |s| == 4
    ensures Bytes(Word(s)) == s
  {
    var b: int, c: int, d: int := s[1], s[2], s[3];
    LowByte(s[2], d);
    LowByte(s[1], c + 0x100 * d);
    LowByte(s[0], b + 0x100 * (c + 0x100 * d));
  }

  function Zeros(n: nat): (s: seq<byte>)
    ensures |s| == n
  {
    seq(n, _ => 0)
  }

  /** Section 3.2: the length in bits, modulo 2^64, low-order word first. */
  function RfcLength(n: nat): (s: seq<byte>)
    ensures |s| == 8
  {
    var bits := 8 * n % 0x1_0000_0000_0000_0000;
    Bytes(bits % 0x1_0000_0000) + Bytes(bits / 0x1_0000_0000)
  }

  /** Section 3.1: as many zeros as bring a message of n bytes and the mark byte to 56, modulo 64. */
  function ZeroCount(n: nat): (z: nat)
    ensures z < BLOCK_SIZE && (n + 1 + z) % BLOCK_SIZE == 56
  {
    if n % BLOCK_SIZE <= 55 then 55 - n % BLOCK_SIZE else 119 - n % BLOCK_SIZE
  }

  lemma PaddingIsWhole(n: nat)
    ensures (n + 1 + ZeroCount(n) + 8) % BLOCK_SIZE == 0
  {
    var t := n + 1 + ZeroCount(n);
    assert t == BLOCK_SIZE * (t / BLOCK_SIZE) + 56;
    assert t + 8 == BLOCK_SIZE * (t / BLOCK_SIZE + 1);
  }

  /** Filling up to the next block, or to the length field, never writes a zero too many. */
  lemma ZerosAhead(n: nat, written: nat)
    requires written <= ZeroCount(n)
    ensures var p := (n + 1 + written) % BLOCK_SIZE;
      && (p > 56 ==> written + (BLOCK_SIZE - p) <= ZeroCount(n))
      && (p < 56 ==> written + (56 - p) <= ZeroCount(n))
  {
    var p, k := (n + 1 + written) % BLOCK_SIZE, (n + 1 + written) / BLOCK_SIZE;
    var z, j := ZeroCount(n), (n + 1 + ZeroCount(n)) / BLOCK_SIZE;
    assert n + 1 + written == BLOCK_SIZE * k + p && n + 1 + z == BLOCK_SIZE * j + 56;
    assert p > 56 ==> j >= k + 1;
    assert p < 56 ==> j >= k;
  }

  lemma ZerosDone(n: nat, written: nat)
    requires written <= ZeroCount(n) && (n + 1 + written) % BLOCK_SIZE == 56
    ensures written == ZeroCount(n)
  {
    var k, j := (n + 1 + written) / BLOCK_SIZE, (n + 1 + ZeroCount(n)) / BLOCK_SIZE;
    assert ZeroCount(n) - written == BLOCK_SIZE * (j - k);
  }

  function RfcPadded(m: seq<byte>): (s: seq<byte>)
    ensures Whole(s)
  {
    PaddingIsWhole(|m|);
    m + [0x80] + Zeros(ZeroCount(|m|)) + RfcLength(|m|)
  }

  /** The number that eight bytes stand for, low-order byte first. */
  function LittleEndian(s: seq<byte>): nat
    requires |s| == 8
  {
    s[0] as int + 0x100 * s[1] as int + 0x1_0000 * s[2] as int + 0x100_0000 * s[3] as int
    + 0x1_0000_0000 * (s[4] as int + 0x100 * s[5] as int + 0x1_0000 * s[6] as int + 0x100_0000 * s[7] as int)
  }

  /** The padded message: the message, a one bit and zeros up to 56 bytes modulo 64, and the length in bits as a
      64-bit number. */
  lemma PaddedIs(m: seq<byte>)
    ensures var s, n := RfcPadded(m), |m|;
      && |s| % 64 == 0 && n + 9 <= |s| < n + 9 + 64
      && s[..n] == m && s[n] == 0x80
      && (forall i :: n < i < |s| - 8 ==> s[i] == 0)
      && LittleEndian(s[|s| - 8..]) == 8 * n % 0x1_0000_0000_0000_0000
  {
    var s, field := RfcPadded(m), RfcLength(|m|);
    assert s[|s| - 8..] == field;
    var bits := 8 * |m| % 0x1_0000_0000_0000_0000;
    FourBytes(bits % 0x1_0000_0000);
    FourBytes(bits / 0x1_0000_0000);
    hide Bytes;
  }

  lemma FourBytes(x: word)
    ensures var b := Bytes(x);
      x == b[0] as int + 0x100 * b[1] as int + 0x1_0000 * b[2] as int + 0x100_0000 * b[3] as int
  {
    WordBytes(x);
  }

  /** The initial words, as section 3.3 of RFC 1321 lists their bytes. */
  lemma InitialBytes()
    ensures DigestOf(INITIAL) == [0x01, 0x23, 0x45, 0x67, 0x89, 0xab, 0xcd, 0xef,
                                  0xfe, 0xdc, 0xba, 0x98, 0x76, 0x54, 0x32, 0x10]
  {
    assert Bytes(0x67452301) == [0x01, 0x23, 0x45, 0x67] && Bytes(0xefcdab89) == [0x89, 0xab, 0xcd, 0xef];
    assert Bytes(0x98badcfe) == [0xfe, 0xdc, 0xba, 0x98] && Bytes(0x10325476) == [0x76, 0x54, 0x32, 0x10];
    hide Bytes;
  }

  /** The length as md5_context_endstream writes it, having put it in a 32-bit variable. */
  function LengthField(ll: nat): (s: seq<byte>)
    ensures |s| == 8
  {
    var l := ll % 0x1_0000_0000;
    Bytes(8 * l % 0x1_0000_0000) + Bytes(l / 0x2000_0000)
  }

  lemma BytesInjective(x: word, y: word)
    requires Bytes(x) == Bytes(y)
    ensures x == y
  {
    WordBytes(x);
    WordBytes(y);
  }

  lemma BitLength(n: nat)
    ensures 8 * n % 0x1_0000_0000_0000_0000 == 8 * (n % 0x2000_0000_0000_0000)
  {
    var k, r := n / 0x2000_0000_0000_0000, n % 0x2000_0000_0000_0000;
    assert n == 0x2000_0000_0000_0000 * k + r;
    assert 8 * n == 0x1_0000_0000_0000_0000 * k + 8 * r;
  }

  lemma LowHalf(n: nat)
    ensures n % 0x1_0000_0000 == n % 0x2000_0000_0000_0000 % 0x1_0000_0000
  {
    var k, r := n / 0x2000_0000_0000_0000, n % 0x2000_0000_0000_0000;
    var q, l := r / 0x1_0000_0000, r % 0x1_0000_0000;
    assert n == 0x1_0000_0000 * (0x2000_0000 * k + q) + l;
  }

  /** Eight times a 61-bit number, split into words. */
  lemma EightTimes(q: nat, l: word)
    ensures 8 * (0x1_0000_0000 * q + l) % 0x1_0000_0000 == 8 * l % 0x1_0000_0000
    ensures 8 * (0x1_0000_0000 * q + l) / 0x1_0000_0000 == 8 * q + l / 0x2000_0000
  {
    var h, m := l / 0x2000_0000, l % 0x2000_0000;
    assert 8 * (0x1_0000_0000 * q + l) == 0x1_0000_0000 * (8 * q + h) + 8 * m;
    assert 8 * l == 0x1_0000_0000 * h + 8 * m;
  }

  lemma LengthWords(n: nat)
    ensures var bits := 8 * n % 0x1_0000_0000_0000_0000;
      var l := n % 0x1_0000_0000;
      && bits % 0x1_0000_0000 == 8 * l % 0x1_0000_0000
      && (bits / 0x1_0000_0000 == l / 0x2000_0000 <==> n % 0x2000_0000_0000_0000 < 0x1_0000_0000)
  {
    var r := n % 0x2000_0000_0000_0000;
    BitLength(n);
    LowHalf(n);
    EightTimes(r / 0x1_0000_0000, r % 0x1_0000_0000);
  }

  /** The length is written as the standard asks if and only if, reduced to the 61 bits that the
      standard keeps of it, it fits the 32-bit variable. */
  lemma LengthFieldIff(n: nat)
    ensures LengthField(n) == RfcLength(n) <==> n % 0x2000_0000_0000_0000 < 0x1_0000_0000
  {
    LengthWords(n);
    var a, b := LengthField(n), RfcLength(n);
    assert a[4..] == Bytes(n % 0x1_0000_0000 / 0x2000_0000);
    assert b[4..] == Bytes(8 * n % 0x1_0000_0000_0000_0000 / 0x1_0000_0000);
    if a == b {
      BytesInjective(n % 0x1_0000_0000 / 0x2000_0000, 8 * n % 0x1_0000_0000_0000_0000 / 0x1_0000_0000);
    }
  }

  /** The shortest message whose length is written wrongly: four gigabytes. */
  lemma LengthOfFourGigabytes()
    ensures LengthField(0x1_0000_0000) != RfcLength(0x1_0000_0000)
  {
    LengthFieldIff(0x1_0000_0000);
  }

  // ----- digests -----

  function DigestOf(w: Words): (d: seq<byte>)
    ensures |d| == DIGEST_SIZE
  {
    Bytes(w.a) + Bytes(w.b) + Bytes(w.c) + Bytes(w.d)
  }

  function WordsOf(d: seq<byte>): Words
    requires |d| == DIGEST_SIZE
  {
    Words(Word(d[0..4]), Word(d[4..8]), Word(d[8..12]), Word(d[12..16]))
  }

  /** Restoring a digest brings back the words it was made from. */
  lemma RestoreDigest(w: Words)
    ensures WordsOf(DigestOf(w)) == w
  {
    var d := DigestOf(w);
    assert d[0..4] == Bytes(w.a) && d[4..8] == Bytes(w.b) && d[8..12] == Bytes(w.c) && d[12..16] == Bytes(w.d);
    WordBytes(w.a);
    WordBytes(w.b);
    WordBytes(w.c);
    WordBytes(w.d);
  }

  lemma DigestRestore(d: seq<byte>)
    requires |d| == DIGEST_SIZE
    ensures DigestOf(WordsOf(d)) == d
  {
    BytesWord(d[0..4]);
    BytesWord(d[4..8]);
    BytesWord(d[8..12]);
    BytesWord(d[12..16]);
    assert d == d[0..4] + d[4..8] + d[8..12] + d[12..16];
  }

  /** RFC 1321 as a function of the whole message. */
  function Md5Of(f: Compression, m: seq<byte>): seq<byte> {
    DigestOf(Fold(f, INITIAL, RfcPadded(m)))
  }

  // ----- the streaming context -----

  /** The state of a context that started from base and was fed s. */
  ghost predicate Absorbed(f: Compression, base: Words, s: seq<byte>, w: Words, rest: seq<byte>) {
    exists c :: Whole(c) && s == c + rest && w == Fold(f, base, c)
  }

  /** A block straight from the input, when the buffer is empty. */
  lemma AbsorbBlock(f: Compression, base: Words, s: seq<byte>, w: Words, block: seq<byte>)
    requires Absorbed(f, base, s, w, []) && |block| == BLOCK_SIZE
    ensures Absorbed(f, base, s + block, f(w, block), [])
  {
    var c :| Whole(c) && s == c + [] && w == Fold(f, base, c);
    assert s == c;
    FoldAppend(f, base, c, block);
    FoldOne(f, w, block);
    assert s + block == (c + block) + [];
  }

  /** Bytes that go to the buffer. */
  lemma AbsorbMore(f: Compression, base: Words, s: seq<byte>, w: Words, rest: seq<byte>, more: seq<byte>)
    requires Absorbed(f, base, s, w, rest)
    ensures Absorbed(f, base, s + more, w, rest + more)
  {
    var c :| Whole(c) && s == c + rest && w == Fold(f, base, c);
    assert s + more == c + (rest + more);
  }

  /** A buffer that has become full. */
  lemma AbsorbBuffer(f: Compression, base: Words, s: seq<byte>, w: Words, rest: seq<byte>)
    requires Absorbed(f, base, s, w, rest) && |rest| == BLOCK_SIZE
    ensures Absorbed(f, base, s, f(w, rest), [])
  {
    var c :| Whole(c) && s == c + rest && w == Fold(f, base, c);
    FoldAppend(f, base, c, rest);
    FoldOne(f, w, rest);
    assert s == (c + rest) + [];
  }

  lemma AbsorbedNothing(f: Compression, base: Words)
    ensures Absorbed(f, base, [], base, [])
  {
    var none: seq<byte> := [];
    assert Whole(none) && none == none + none && base == Fold(f, base, none);
  }

  /** With an empty buffer everything fed has been compressed. */
  lemma AbsorbedAll(f: Compression, base: Words, s: seq<byte>, w: Words)
    requires Absorbed(f, base, s, w, [])
    ensures Whole(s) && w == Fold(f, base, s)
  {
    var c :| Whole(c) && s == c + [] && w == Fold(f, base, c);
    assert s == c;
  }

  class Md5Context {
    const compress: Compression
    var w: Words
    var blk: array<byte>
    var blkPtr: nat
    ghost var base: Words          // the words at the last init or restore
    ghost var fed: seq<byte>       // everything hashed since

    ghost predicate Valid()
      reads this, blk
    {
      && blk.Length == BLOCK_SIZE && blkPtr < BLOCK_SIZE
      && Absorbed(compress, base, fed, w, blk[..blkPtr])
    }

    constructor (compress: Compression)
      ensures Valid() && fresh(blk) && this.compress == compress && base == INITIAL && fed == []
    {
      this.compress := compress;
      blk := new byte[BLOCK_SIZE](_ => 0);
      w, base, fed, blkPtr := INITIAL, INITIAL, [], 0;
      new;
      AbsorbedNothing(compress, INITIAL);
      assert blk[..0] == [];
    }

    method Init()
      requires blk.Length == BLOCK_SIZE
      modifies this
      ensures Valid() && blk == old(blk) && base == INITIAL && fed == []
    {
      w, base, fed, blkPtr := INITIAL, INITIAL, [], 0;
      AbsorbedNothing(compress, INITIAL);
      assert blk[..0] == [];
    }

    method HashStream(p: seq<byte>)
      requires Valid() && |p| < 0x1_0000_0000
      modifies this, blk
      ensures Valid() && blk == old(blk) && base == old(base) && fed == old(fed) + p
    {
      hide Fold, Absorbed;
      var cp, l := 0, |p|;
      assert p[..0] == [];
      while l > 0
        invariant 0 <= l && cp + l == |p|
        invariant Valid() && blk == old(blk) && base == old(base) && fed == old(fed) + p[..cp]
      {
        if blkPtr == 0 && l >= BLOCK_SIZE {
          assert blk[..0] == [];
          AbsorbBlock(compress, base, fed, w, p[cp..cp + BLOCK_SIZE]);
          assert p[..cp] + p[cp..cp + BLOCK_SIZE] == p[..cp + BLOCK_SIZE];
          w := compress(w, p[cp..cp + BLOCK_SIZE]);
          fed := fed + p[cp..cp + BLOCK_SIZE];
          cp, l := cp + BLOCK_SIZE, l - BLOCK_SIZE;
          continue;
        }
        var ll := if l > BLOCK_SIZE - blkPtr then BLOCK_SIZE - blkPtr else l;
        assert p[..cp] + p[cp..cp + ll] == p[..cp + ll];
        Buffer(p, cp, ll);
        cp, l := cp + ll, l - ll;
      }
      assert p[..cp] == p;
    }

    /** The last part of the loop: fill the buffer, and compress it when it is full. */
    method Buffer(p: seq<byte>, cp: nat, ll: nat)
      requires Valid() && cp + ll <= |p| && blkPtr + ll <= BLOCK_SIZE
      modifies this, blk
      ensures Valid() && blk == old(blk) && base == old(base) && fed == old(fed) + p[cp..cp + ll]
    {
      hide Fold, Absorbed;
      AbsorbMore(compress, base, fed, w, blk[..blkPtr], p[cp..cp + ll]);
      CopyIn(p, cp, ll);
      assert blk[..blkPtr + ll] == blk[..blkPtr] + p[cp..cp + ll];
      fed := fed + p[cp..cp + ll];
      blkPtr := blkPtr + ll;
      if blkPtr >= BLOCK_SIZE {
        AbsorbBuffer(compress, base, fed, w, blk[..blkPtr]);
        assert blk[..blkPtr] == blk[..];
        w := compress(w, blk[..]);
        blkPtr := 0;
        assert blk[..0] == [];
      }
    }

    /** memcpy to the free part of the buffer. */
    method CopyIn(p: seq<byte>, cp: nat, ll: nat)
      requires blk.Length == BLOCK_SIZE && blkPtr + ll <= BLOCK_SIZE && cp + ll <= |p|
      modifies blk
      ensures blk[..blkPtr] == old(blk[..blkPtr]) && blk[blkPtr..blkPtr + ll] == p[cp..cp + ll]
    {
      for i := 0 to ll
        invariant blk[..blkPtr] == old(blk[..blkPtr])
        invariant blk[blkPtr..blkPtr + i] == p[cp..cp + i]
      {
        blk[blkPtr + i] := p[cp + i];
      }
    }

    /** One call of md5_context_hashstream with a part of the static array of zeros. */
    method HashZeros(zero: seq<byte>, n: nat, ghost message: seq<byte>, ghost written: nat)
      requires Valid() && zero == Zeros(BLOCK_SIZE - 8) && n <= |zero|
      requires fed == message + [0x80] + Zeros(written)
      modifies this, blk
      ensures Valid() && blk == old(blk) && base == old(base)
      ensures fed == message + [0x80] + Zeros(written + n) && blkPtr == |fed| % BLOCK_SIZE
    {
      HashStream(zero[..n]);
      BufferPosition();
      assert Zeros(written + n) == Zeros(written) + zero[..n];
    }

    /** md5_context_endstream: ll is the length that the caller states. */
    method EndStream(ll: nat)
      requires Valid()
      modifies this, blk
      ensures Valid() && blk == old(blk) && base == old(base) && blkPtr == 0
      ensures fed == old(fed) + [0x80] + Zeros(ZeroCount(|old(fed)|)) + LengthField(ll)
    {
      hide Fold, Absorbed, ZeroCount, Zeros;
      ghost var message := fed;
      var zero := Zeros(BLOCK_SIZE - 8);
      HashStream([0x80]);
      ghost var written: nat := 0;
      BufferPosition();
      assert Zeros(0) == [];
      while blkPtr != BLOCK_SIZE - 8
        invariant Valid() && blk == old(blk) && base == old(base)
        invariant fed == message + [0x80] + Zeros(written) && blkPtr == |fed| % BLOCK_SIZE
        invariant written <= ZeroCount(|message|)
        decreases ZeroCount(|message|) - written
      {
        ZerosAhead(|message|, written);
        var n := if blkPtr > BLOCK_SIZE - 8 then BLOCK_SIZE - blkPtr else BLOCK_SIZE - 8 - blkPtr;
        HashZeros(zero, n, message, written);
        written := written + n;
      }
      ZerosDone(|message|, written);
      PaddingIsWhole(|message|);
      var l := ll % 0x1_0000_0000;
      HashStream(Bytes(8 * l % 0x1_0000_0000) + Bytes(l / 0x2000_0000));
      BufferPosition();
    }

    /** The buffer holds what the last whole block left over. */
    lemma BufferPosition()
      requires Valid()
      ensures blkPtr == |fed| % BLOCK_SIZE
    {
      var c :| Whole(c) && fed == c + blk[..blkPtr] && w == Fold(compress, base, c);
      assert |c| == BLOCK_SIZE * (|c| / BLOCK_SIZE);
    }

    /** md5_context_digest */
    method Digest() returns (d: seq<byte>)
      ensures d == DigestOf(w)
    {
      d := Bytes(w.a);
      d := d + Bytes(w.b);
      d := d + Bytes(w.c);
      d := d + Bytes(w.d);
    }

    /** md5_context_restore */
    method Restore(d: seq<byte>)
      requires |d| == DIGEST_SIZE && blk.Length == BLOCK_SIZE
      modifies this
      ensures Valid() && blk == old(blk) && base == WordsOf(d) && fed == []
    {
      w := WordsOf(d);
      base, fed, blkPtr := w, [], 0;
      AbsorbedNothing(compress, w);
      assert blk[..0] == [];
    }
  }

  /** Everything that went through the context, once its buffer is empty. */
  lemma ContextResult(c: Md5Context)
    requires c.Valid() && c.blkPtr == 0
    ensures Whole(c.fed) && c.w == Fold(c.compress, c.base, c.fed)
  {
    assert c.blk[..0] == [];
    AbsorbedAll(c.compress, c.base, c.fed, c.w);
  }

  /** What md5_context_endstream completes a message to, when it is told the message's length. */
  function Padded(m: seq<byte>): (s: seq<byte>)
    ensures Whole(s)
  {
    PaddingIsWhole(|m|);
    m + [0x80] + Zeros(ZeroCount(|m|)) + LengthField(|m|)
  }

  lemma PaddedIff(m: seq<byte>)
    ensures Padded(m) == RfcPadded(m) <==> |m| % 0x2000_0000_0000_0000 < 0x1_0000_0000
  {
    LengthFieldIff(|m|);
    var n := |Padded(m)| - 8;
    assert Padded(m)[n..] == LengthField(|m|) && RfcPadded(m)[n..] == RfcLength(|m|);
  }

  function Concat(pieces: seq<seq<byte>>): seq<byte> {
    if pieces == [] then [] else Concat(pieces[..|pieces| - 1]) + pieces[|pieces| - 1]
  }

  /** However a message is split into calls, the blocks compressed are those of the padded message, if
      and only if the length fits the 32-bit variable of md5_context_endstream. */
  method Md5InPieces(f: Compression, pieces: seq<seq<byte>>) returns (d: seq<byte>, ghost blocks: seq<byte>)
    requires forall p :: p in pieces ==> |p| < 0x1_0000_0000
    ensures Whole(blocks) && d == DigestOf(Fold(f, INITIAL, blocks))
    ensures blocks == RfcPadded(Concat(pieces)) <==> |Concat(pieces)| % 0x2000_0000_0000_0000 < 0x1_0000_0000
  {
    var c := new Md5Context(f);
    var n := 0;
    for i := 0 to |pieces|
      invariant fresh(c) && fresh(c.blk) && c.Valid() && c.compress == f && c.base == INITIAL
      invariant c.fed == Concat(pieces[..i]) && n == |c.fed|
    {
      assert pieces[..i + 1][..i] == pieces[..i];
      c.HashStream(pieces[i]);
      n := n + |pieces[i]|;
    }
    assert pieces[..|pieces|] == pieces;
    c.EndStream(n);
    blocks := c.fed;
    ContextResult(c);
    PaddedIff(Concat(pieces));
    d := c.Digest();
  }

  /** md5_digest: the whole message in one call. */
  method Md5Digest(f: Compression, msg: seq<byte>) returns (d: seq<byte>)
    requires |msg| < 0x1_0000_0000
    ensures d == Md5Of(f, msg)
  {
    ghost var blocks;
    assert Concat([msg]) == msg;
    assert |msg| % 0x2000_0000_0000_0000 == |msg|;
    hide Concat, RfcPadded, Fold, DigestOf, Whole;
    d, blocks := Md5InPieces(f, [msg]);
  }
}
