/**
  Body obfuscation (crypto/obfuscate.go; section 4.5 of RFC 8907): the body is combined by exclusive-or
  with a pad made of chained MD5 digests. MD5 is any function from bytes to sixteen bytes.
*/
module Obfuscation {
  import opened Base

  type Digest = d: Bytes | |d| == 16 witness seq(16, _ => 0)
  type Md5 = Bytes -> Digest

  // ---------------------------------------------------------------- exclusive-or

  function Pow2(n: nat): (r: nat)
    ensures r > 0
  {
    if n == 0 then 1 else 2 * Pow2(n - 1)
  }

  /** Exclusive-or of two numbers of `width` bits. */
  function XorBits(width: nat, a: nat, b: nat): (r: nat)
    ensures r < Pow2(width)
  {
    if width == 0 then 0
    else (if a % 2 == b % 2 then 0 else 1) + 2 * XorBits(width - 1, a / 2, b / 2)
  }

  function Xor(a: byte, b: byte): byte {
    assert Pow2(8) == 256 by { assert Pow2(4) == 16 && Pow2(6) == 64; }
    XorBits(8, a, b)
  }

  lemma {:induction false} XorBitsTwice(width: nat, a: nat, b: nat)
    requires a < Pow2(width)
    ensures XorBits(width, XorBits(width, a, b), b) == a
  {
    if width > 0 {
      XorBitsTwice(width - 1, a / 2, b / 2);
      var bit, high := if a % 2 == b % 2 then 0 else 1, XorBits(width - 1, a / 2, b / 2);
      var x := bit + 2 * high;
      assert XorBits(width, a, b) == x && x % 2 == bit && x / 2 == high;
      assert XorBits(width, x, b) == (if bit == b % 2 then 0 else 1) + 2 * (a / 2);
    }
  }

  /** The i-th bit of a number. */
  function Bit(a: nat, i: nat): nat {
    if i == 0 then a % 2 else Bit(a / 2, i - 1)
  }

  /** Bit by bit, the exclusive-or is one exactly where the two differ. */
  lemma {:induction false} XorBitwise(width: nat, a: nat, b: nat, i: nat)
    requires i < width
    ensures Bit(XorBits(width, a, b), i) == if Bit(a, i) == Bit(b, i) then 0 else 1
  {
    var x := XorBits(width, a, b);
    assert x % 2 == (if a % 2 == b % 2 then 0 else 1) && x / 2 == XorBits(width - 1, a / 2, b / 2);
    if i > 0 {
      XorBitwise(width - 1, a / 2, b / 2, i - 1);
    }
  }

  lemma XorIs(a: byte, b: byte, i: nat)
    requires i < 8
    ensures Bit(Xor(a, b), i) == if Bit(a, i) == Bit(b, i) then 0 else 1
  {
    XorBitwise(8, a, b, i);
  }

  lemma XorTwice(a: byte, b: byte)
    ensures Xor(Xor(a, b), b) == a
  {
    assert Pow2(8) == 256 by { assert Pow2(4) == 16 && Pow2(6) == 64; }
    XorBitsTwice(8, a, b);
  }

  // ---------------------------------------------------------------- the pad

  /** What is hashed first: session id, key, version and sequence number. */
  function Seed(key: Bytes, id: uint32, version: byte, seqNo: byte): Bytes {
    U32(id) + key + [version, seqNo]
  }

  /** The k-th digest of the chain. */
  function Link(md5: Md5, seed: Bytes, k: nat): Digest {
    if k == 0 then md5(seed) else md5(seed + Link(md5, seed, k - 1))
  }

  /** The chain starts with the hash of the seed and goes on with that of the seed and the digest before. */
  lemma ChainIs(md5: Md5, seed: Bytes, k: nat)
    ensures Link(md5, seed, 0) == md5(seed)
    ensures Link(md5, seed, k + 1) == md5(seed + Link(md5, seed, k))
  {
  }

  /** The first k digests, concatenated. */
  function Blocks(md5: Md5, seed: Bytes, k: nat): (r: Bytes)
    ensures |r| == 16 * k
  {
    if k == 0 then [] else Blocks(md5, seed, k - 1) + Link(md5, seed, k - 1)
  }

  /** The chain truncated to n bytes. */
  function Pad(md5: Md5, seed: Bytes, n: nat): (r: Bytes)
    ensures |r| == n
  {
    Blocks(md5, seed, (n + 15) / 16)[..n]
  }

  lemma {:induction false} BlocksPrefix(md5: Md5, seed: Bytes, j: nat, k: nat)
    requires j <= k
    ensures Blocks(md5, seed, j) == Blocks(md5, seed, k)[..16 * j]
  {
    if j < k {
      BlocksPrefix(md5, seed, j, k - 1);
    }
  }

  /** A pad truncates any run of blocks long enough to hold it. */
  lemma {:induction false} PadOfBlocks(md5: Md5, seed: Bytes, n: nat, k: nat)
    requires n <= 16 * k
    ensures Pad(md5, seed, n) == Blocks(md5, seed, k)[..n]
  {
    var j := (n + 15) / 16;
    BlocksPrefix(md5, seed, j, k);
    assert Blocks(md5, seed, k)[..16 * j][..n] == Blocks(md5, seed, k)[..n];
  }

  /** The pad of a shorter body is a prefix of the pad of a longer one. */
  lemma PadPrefix(md5: Md5, seed: Bytes, m: nat, n: nat)
    requires m <= n
    ensures Pad(md5, seed, m) == Pad(md5, seed, n)[..m]
  {
    PadOfBlocks(md5, seed, m, (n + 15) / 16);
  }

  /** Byte i of a pad is byte i mod 16 of link i div 16. */
  lemma PadAt(md5: Md5, seed: Bytes, n: nat, i: nat)
    requires i < n
    ensures Pad(md5, seed, n)[i] == Link(md5, seed, i / 16)[i % 16]
  {
    var k := i / 16;
    PadPrefix(md5, seed, i + 1, n);
    PadOfBlocks(md5, seed, i + 1, k + 1);
    assert Blocks(md5, seed, k + 1) == Blocks(md5, seed, k) + Link(md5, seed, k);
    assert i == 16 * k + i % 16;
  }

  /** One more link, or part of it, extends a pad made of whole links. */
  lemma PadStep(md5: Md5, seed: Bytes, k: nat, r: nat)
    requires r <= 16
    ensures Pad(md5, seed, 16 * k + r) == Pad(md5, seed, 16 * k) + Link(md5, seed, k)[..r]
  {
    var a, b := Blocks(md5, seed, k), Link(md5, seed, k);
    assert Pad(md5, seed, 16 * k) == a by {
      PadOfBlocks(md5, seed, 16 * k, k);
      assert a[..16 * k] == a;
    }
    assert Pad(md5, seed, 16 * k + r) == (a + b)[..16 * k + r] by {
      PadOfBlocks(md5, seed, 16 * k + r, k + 1);
    }
    TakeAppend(a, b, r);
  }

  lemma TakeAppend(a: Bytes, b: Bytes, r: nat)
    requires r <= |b|
    ensures (a + b)[..|a| + r] == a + b[..r]
  {
  }

  method PseudoPad(md5: Md5, n: nat, key: Bytes, id: uint32, version: byte, seqNo: byte) returns (pad: Bytes)
    ensures pad == Pad(md5, Seed(key, id, version, seqNo), n)
  {
    if n == 0 {
      return [];
    }
    var base := U32(id);
    base := base + key;
    base := base + [version, seqNo];
    pad := [];
    var prev: Option<Bytes> := None;
    ghost var k := 0;
    while |pad| < n
      invariant |pad| <= n
      invariant |pad| < n ==> |pad| == 16 * k
      invariant pad == Pad(md5, base, |pad|)
      invariant prev == if k == 0 then None else Some(Link(md5, base, k - 1))
      decreases n - |pad|
    {
      var digest := md5(if prev == None then base else base + prev.value);
      var remaining := if n - |pad| < 16 then n - |pad| else 16;
      PadStep(md5, base, k, remaining);
      pad := pad + digest[..remaining];
      prev := Some(digest);
      k := k + 1;
    }
  }

  // ---------------------------------------------------------------- obfuscation

  function XorWith(body: Bytes, pad: Bytes): (r: Bytes)
    requires |pad| == |body|
    ensures |r| == |body|
  {
    seq(|body|, i requires 0 <= i < |body| => Xor(body[i], pad[i]))
  }

  function Mask(md5: Md5, key: Bytes, id: uint32, version: byte, seqNo: byte, body: Bytes): (r: Bytes)
    ensures |r| == |body|
  {
    XorWith(body, Pad(md5, Seed(key, id, version, seqNo), |body|))
  }

  /** A byte of the obfuscated body is combined with its byte of the chain over session, secret, version and
      number. */
  lemma MaskAt(md5: Md5, key: Bytes, id: uint32, version: byte, seqNo: byte, body: Bytes, i: nat)
    requires i < |body|
    ensures Mask(md5, key, id, version, seqNo, body)[i]
         == Xor(body[i], Link(md5, U32(id) + key + [version, seqNo], i / 16)[i % 16])
  {
    hide Pad, Link, Xor, U32;
    PadAt(md5, Seed(key, id, version, seqNo), |body|, i);
    assert Seed(key, id, version, seqNo) == U32(id) + key + [version, seqNo];
  }

  /** Obfuscating twice gives the body back. */
  lemma MaskTwice(md5: Md5, key: Bytes, id: uint32, version: byte, seqNo: byte, body: Bytes)
    ensures Mask(md5, key, id, version, seqNo, Mask(md5, key, id, version, seqNo, body)) == body
  {
    var pad := Pad(md5, Seed(key, id, version, seqNo), |body|);
    var once := XorWith(body, pad);
    forall i | 0 <= i < |body|
      ensures XorWith(once, pad)[i] == body[i]
    {
      XorTwice(body[i], pad[i]);
    }
  }

  method XorPad(md5: Md5, body: array<byte>, key: Bytes, id: uint32, version: byte, seqNo: byte)
    modifies body
    ensures body[..] == Mask(md5, key, id, version, seqNo, old(body[..]))
  {
    var pad := PseudoPad(md5, body.Length, key, id, version, seqNo);
    for i := 0 to body.Length
      invariant forall j | 0 <= j < i :: body[j] == Xor(old(body[j]), pad[j])
      invariant forall j | i <= j < body.Length :: body[j] == old(body[j])
    {
      body[i] := Xor(body[i], pad[i]);
    }
  }

  /** The copying form agrees with the in-place form and leaves its argument alone. */
  method Obfuscate(md5: Md5, body: Bytes, key: Bytes, id: uint32, version: byte, seqNo: byte) returns (out: Bytes)
    ensures out == Mask(md5, key, id, version, seqNo, body)
  {
    if |body| == 0 {
      return [];
    }
    var buf := new byte[|body|](i requires 0 <= i < |body| => body[i]);
    assert buf[..] == body;
    XorPad(md5, buf, key, id, version, seqNo);
    out := buf[..];
  }

  method DeobfuscateInPlace(md5: Md5, body: array<byte>, key: Bytes, id: uint32, version: byte, seqNo: byte)
    modifies body
    ensures body[..] == Mask(md5, key, id, version, seqNo, old(body[..]))
  {
    XorPad(md5, body, key, id, version, seqNo);
  }
}
