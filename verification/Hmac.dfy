/** HMAC over streaming MD5, with the key's two blocks hashed ahead of time: src/libhmac/hmac.c
    (section 2 of RFC 2104). */
module Hmac {
  import opened Md5

  function Xor(x: byte, y: byte): byte {
    ((x as bv8) ^ (y as bv8)) as int
  }

  const OPAD: byte := 0x5C
  const IPAD: byte := 0x36

  /** RFC 2104: the key as one block, hashed first when it is longer than that. */
  function ShortKey(f: Compression, k: seq<byte>): (s: seq<byte>)
    ensures |s| <= BLOCK_SIZE
  {
    if |k| > BLOCK_SIZE then Md5Of(f, k) else k
  }

  function KeyByte(k: seq<byte>, pad: byte, i: nat): byte {
    Xor(if i < |k| then k[i] else 0, pad)
  }

  /** The key, filled up with zeros to b bytes, each combined with the same mask. */
  function PaddedKey(k: seq<byte>, pad: byte, b: nat): (s: seq<byte>)
    ensures |s| == b
  {
    seq(b, i requires 0 <= i < b => KeyByte(k, pad, i))
  }

  function Padding(k: seq<byte>, pad: byte): (s: seq<byte>)
    ensures |s| == BLOCK_SIZE
  {
    PaddedKey(k, pad, BLOCK_SIZE)
  }

  /** Section 2 of RFC 2104: H(K XOR opad, H(K XOR ipad, text)). */
  function HmacOf(f: Compression, k: seq<byte>, text: seq<byte>): seq<byte> {
    var key := ShortKey(f, k);
    Md5Of(f, Padding(key, OPAD) + Md5Of(f, Padding(key, IPAD) + text))
  }

  /** v is the byte of the key at i, or zero behind its end, exclusive-or the mask. */
  predicate IsMasked(key: seq<byte>, mask: byte, i: nat, v: byte) {
    v as int == (((if i < |key| then key[i] else 0) as bv8) ^ (mask as bv8)) as int
  }

  lemma MaskedByte(key: seq<byte>, mask: byte, i: nat, v: byte)
    requires IsMasked(key, mask, i, v)
    ensures v == KeyByte(key, mask, i)
  {
  }

  /** One block: the key, or its digest if it is longer than a block, filled up with zeros, each byte masked. */
  ghost predicate MaskedKey(f: Compression, k: seq<byte>, mask: byte, block: seq<byte>) {
    var key := if |k| > 64 then Md5Of(f, k) else k;
    |block| == 64 && forall i :: 0 <= i < 64 ==> IsMasked(key, mask, i, block[i])
  }

  lemma MaskedIs(f: Compression, k: seq<byte>, pad: byte, block: seq<byte>)
    requires MaskedKey(f, k, pad, block)
    ensures block == Padding(ShortKey(f, k), pad)
  {
    hide IsMasked, KeyByte;
    var key := ShortKey(f, k);
    forall i | 0 <= i < 64
      ensures block[i] == KeyByte(key, pad, i)
    {
      MaskedByte(key, pad, i, block[i]);
    }
  }

  /** HMAC as section 2 of RFC 2104 spells it out: hash the key block masked with 0x36 and the text, then the key
      block masked with 0x5C and that digest. */
  lemma HmacIs(f: Compression, k: seq<byte>, text: seq<byte>, inner: seq<byte>, outer: seq<byte>)
    requires MaskedKey(f, k, 0x36, inner) && MaskedKey(f, k, 0x5C, outer)
    ensures HmacOf(f, k, text) == Md5Of(f, outer + Md5Of(f, inner + text))
  {
    hide MaskedKey, Padding;
    MaskedIs(f, k, IPAD, inner);
    MaskedIs(f, k, OPAD, outer);
  }

  /** The saved state after the one block that a padded key fills. */
  function Prehashed(f: Compression, k: seq<byte>, pad: byte): (d: seq<byte>)
    ensures |d| == DIGEST_SIZE
  {
    DigestOf(f(INITIAL, Padding(ShortKey(f, k), pad)))
  }

  /** The loop of dokeycalc, for a hash with blocks of b bytes: the padded key goes to the hash in
      pieces of at most 64 bytes. */
  method HashPaddedKey(c: Md5Context, k: seq<byte>, pad: byte, b: nat)
    requires c.Valid()
    modifies c, c.blk
    ensures c.Valid() && c.blk == old(c.blk) && c.base == INITIAL && c.fed == PaddedKey(k, pad, b)
  {
    c.Init();
    var buf, n := new byte[64](_ => 0), 0;
    ghost var padded := PaddedKey(k, pad, b);
    assert padded[..0] == [];
    for l := 0 to b
      invariant c.Valid() && c.blk == old(c.blk) && c.base == INITIAL && buf != c.blk
      invariant n < 64 && c.fed + buf[..n] == padded[..l]
    {
      ghost var before := buf[..n];
      buf[n] := Xor(if l < |k| then k[l] else 0, pad);
      n := n + 1;
      assert buf[..n] == before + [padded[l]];
      assert padded[..l + 1] == padded[..l] + [padded[l]];
      assert c.fed + buf[..n] == c.fed + before + [padded[l]];
      if n >= buf.Length {
        assert buf[..] == buf[..n];
        c.HashStream(buf[..]);
        n := 0;
      }
    }
    if n > 0 {
      c.HashStream(buf[..n]);
    }
    assert padded[..b] == padded;
    assert n == 0 ==> c.fed + buf[..0] == c.fed;
  }

  /** One half of dokeycalc: the state after the one block that the padded key fills. */
  method SavePaddedKey(c: Md5Context, k: seq<byte>, pad: byte) returns (saved: seq<byte>)
    requires c.Valid()
    modifies c, c.blk
    ensures c.Valid() && c.blk == old(c.blk)
    ensures saved == DigestOf(c.compress(INITIAL, Padding(k, pad)))
  {
    HashPaddedKey(c, k, pad, BLOCK_SIZE);
    WholeBlock(c, Padding(k, pad));
    saved := c.Digest();
  }

  lemma WholeBlock(c: Md5Context, block: seq<byte>)
    requires c.Valid() && c.fed == block && |block| == BLOCK_SIZE
    ensures c.w == c.compress(c.base, block)
  {
    c.BufferPosition();
    ContextResult(c);
    FoldOne(c.compress, c.base, block);
  }

  /** dohashkey, up to the point where the digest takes the key's place. */
  method HashLongKey(c: Md5Context, k: seq<byte>) returns (d: seq<byte>)
    requires c.Valid() && |k| < 0x1_0000_0000
    modifies c, c.blk
    ensures c.Valid() && c.blk == old(c.blk) && d == Md5Of(c.compress, k)
  {
    hide Fold, DigestOf, ZeroCount, LengthField;
    c.Init();
    c.HashStream(k);
    assert [] + k == k;
    c.EndStream(|k|);
    ContextResult(c);
    PaddedIff(k);
    d := c.Digest();
  }

  /** hmac_hashkey, with the helpers it hands its arguments through. */
  method HashKey(f: Compression, k: seq<byte>) returns (kxopad: seq<byte>, kxipad: seq<byte>)
    requires |k| < 0x1_0000_0000
    ensures kxopad == Prehashed(f, k, OPAD) && kxipad == Prehashed(f, k, IPAD)
  {
    hide Padding, Md5Of, DigestOf, Fold;
    var c := new Md5Context(f);
    var key := k;
    if |k| > BLOCK_SIZE {
      key := HashLongKey(c, k);
    }
    kxopad := SavePaddedKey(c, key, OPAD);
    kxipad := SavePaddedKey(c, key, IPAD);
  }

  /** What follows the saved block when a text is hashed behind it. */
  function Tail(text: seq<byte>): seq<byte> {
    text + [0x80] + Zeros(ZeroCount(|text|)) + LengthField(|text| + BLOCK_SIZE)
  }

  /** The block and what is hashed behind it are the padded message of both, if and only if the length
      that the caller states allows: this is where a text of almost 2^32 bytes would go wrong. */
  lemma ResumedIff(block: seq<byte>, text: seq<byte>)
    requires |block| == BLOCK_SIZE
    ensures Whole(Tail(text))
    ensures block + Tail(text) == RfcPadded(block + text)
      <==> (|text| + BLOCK_SIZE) % 0x2000_0000_0000_0000 < 0x1_0000_0000
  {
    hide LengthField, ZeroCount, RfcPadded;
    PaddingIsWhole(|text|);
    PaddedIff(block + text);
    assert ZeroCount(|block + text|) == ZeroCount(|text|) by { ZeroCountOfBlock(|text|); }
    assert block + Tail(text) == Padded(block + text);
  }

  /** Resuming from a saved block and stating the length with that block is hashing block and text. */
  lemma Resumed(f: Compression, block: seq<byte>, text: seq<byte>)
    requires |block| == BLOCK_SIZE && |text| + BLOCK_SIZE < 0x1_0000_0000
    ensures Whole(Tail(text))
    ensures DigestOf(Fold(f, WordsOf(DigestOf(f(INITIAL, block))), Tail(text))) == Md5Of(f, block + text)
  {
    hide DigestOf, WordsOf, Tail, Fold, RfcPadded;
    ResumedIff(block, text);
    RestoreDigest(f(INITIAL, block));
    FoldOne(f, INITIAL, block);
    FoldAppend(f, INITIAL, block, Tail(text));
  }

  lemma ZeroCountOfBlock(n: nat)
    ensures ZeroCount(n + BLOCK_SIZE) == ZeroCount(n)
  {
    assert (n + BLOCK_SIZE) % BLOCK_SIZE == n % BLOCK_SIZE;
  }

  /** One half of docalch. */
  method ResumeAndFinish(c: Md5Context, saved: seq<byte>, text: seq<byte>, ghost block: seq<byte>) returns (d: seq<byte>)
    requires c.Valid() && |block| == BLOCK_SIZE && |text| + BLOCK_SIZE < 0x1_0000_0000
    requires saved == DigestOf(c.compress(INITIAL, block))
    modifies c, c.blk
    ensures c.Valid() && c.blk == old(c.blk)
    ensures d == Md5Of(c.compress, block + text)
  {
    c.Restore(saved);
    c.HashStream(text);
    c.EndStream(|text| + BLOCK_SIZE);
    assert [] + text == text;
    ContextResult(c);
    Resumed(c.compress, block, text);
    d := c.Digest();
  }

  /** hmac_hashtext on the two states that hmac_hashkey saved for the same key is HMAC. */
  method HashText(f: Compression, t: seq<byte>, kxopad: seq<byte>, kxipad: seq<byte>, ghost k: seq<byte>)
    returns (hash: seq<byte>)
    requires |t| + BLOCK_SIZE < 0x1_0000_0000
    requires kxopad == Prehashed(f, k, OPAD) && kxipad == Prehashed(f, k, IPAD)
    ensures hash == HmacOf(f, k, t)
  {
    var c := new Md5Context(f);
    var key := ShortKey(f, k);
    var inner := ResumeAndFinish(c, kxipad, t, Padding(key, IPAD));
    hash := ResumeAndFinish(c, kxopad, inner, Padding(key, OPAD));
  }

  /** Key, then text: the two calls together. */
  method ComputeHmac(f: Compression, k: seq<byte>, t: seq<byte>) returns (hash: seq<byte>)
    requires |k| < 0x1_0000_0000 && |t| + BLOCK_SIZE < 0x1_0000_0000
    ensures hash == HmacOf(f, k, t)
  {
    var kxopad, kxipad := HashKey(f, k);
    hash := HashText(f, t, kxopad, kxipad, k);
  }
}
