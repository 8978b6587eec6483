/** The ANSI X9.63 key derivation function, as section 3.6.1 of SEC 1 version 2.0 defines it, and
    its laws. */
module X963 {
  import opened Bytes

  const UINT32_MAX := 0xFFFF_FFFF
  const MAX_DIGEST_OUTPUT_SIZE := 64

  /** A digest: what it yields for the bytes that a context has absorbed. */
  datatype Digest = Digest(outputSize: nat, hash: seq<byte> -> seq<byte>) {
    ghost predicate Valid() {
      && 1 <= outputSize <= MAX_DIGEST_OUTPUT_SIZE
      && forall m :: |hash(m)| == outputSize
    }
  }

  /** cc_store32_be. */
  function Be32(x: uint32): (b: seq<byte>)
    ensures |b| == 4
  {
    var y := x / 256;
    var z := y / 256;
    [z / 256, z % 256, y % 256, x % 256]
  }

  /** The hash input of block i, counting from 1. */
  function BlockInput(z: seq<byte>, info: seq<byte>, i: uint32): seq<byte> { z + Be32(i) + info }

  function Stream(d: Digest, z: seq<byte>, info: seq<byte>, blocks: nat): seq<byte>
    requires blocks <= UINT32_MAX
  {
    if blocks == 0 then [] else Stream(d, z, info, blocks - 1) + d.hash(BlockInput(z, info, blocks))
  }

  function Ceiling(a: nat, b: nat): nat
    requires b > 0
  {
    (a + (b - 1)) / b
  }

  /** The key of `klen` bytes: that many bytes from the front of the stream. */
  ghost function Key(d: Digest, z: seq<byte>, info: seq<byte>, klen: nat): seq<byte>
    requires d.Valid() && Ceiling(klen, d.outputSize) <= UINT32_MAX
  {
    var r := Ceiling(klen, d.outputSize);
    StreamLength(d, z, info, r);
    CeilingBounds(klen, d.outputSize);
    Stream(d, z, info, r)[..klen]
  }

  lemma {:induction false} StreamLength(d: Digest, z: seq<byte>, info: seq<byte>, blocks: nat)
    requires d.Valid() && blocks <= UINT32_MAX
    ensures |Stream(d, z, info, blocks)| == blocks * d.outputSize
  {
    if blocks > 0 {
      StreamLength(d, z, info, blocks - 1);
      assert blocks * d.outputSize == (blocks - 1) * d.outputSize + d.outputSize;
    }
  }

  lemma CeilingBounds(a: nat, b: nat)
    requires b > 0
    ensures a <= Ceiling(a, b) * b < a + b
    ensures Ceiling(a, b) > 0 <==> a > 0
  {
    var q, m := (a + (b - 1)) / b, (a + (b - 1)) % b;
    assert a + (b - 1) == b * q + m;
    if a == 0 {
      assert b - 1 < b;
    }
  }

  lemma Times(b: nat, x: nat, y: nat)
    requires x <= y
    ensures b * x <= b * y
  {
  }

  /** Every byte of the stream, without the recursion. */
  lemma {:induction false} StreamAt(d: Digest, z: seq<byte>, info: seq<byte>, blocks: nat, i: nat, j: nat)
    requires d.Valid() && i < blocks <= UINT32_MAX && j < d.outputSize
    ensures |Stream(d, z, info, blocks)| == blocks * d.outputSize
    ensures i * d.outputSize + j < blocks * d.outputSize
    ensures Stream(d, z, info, blocks)[i * d.outputSize + j] == d.hash(BlockInput(z, info, i + 1))[j]
  {
    StreamLength(d, z, info, blocks);
    StreamLength(d, z, info, blocks - 1);
    Times(d.outputSize, i + 1, blocks);
    assert (i + 1) * d.outputSize == i * d.outputSize + d.outputSize;
    if i < blocks - 1 {
      StreamAt(d, z, info, blocks - 1, i, j);
    }
  }

  /** Every byte of the key: the block and the position within it come from dividing by the
      output size. */
  lemma KeyAt(d: Digest, z: seq<byte>, info: seq<byte>, klen: nat, k: nat)
    requires d.Valid() && Ceiling(klen, d.outputSize) <= UINT32_MAX
    requires k < klen
    ensures |Key(d, z, info, klen)| == klen
    ensures k / d.outputSize + 1 <= UINT32_MAX
    ensures Key(d, z, info, klen)[k] == d.hash(BlockInput(z, info, k / d.outputSize + 1))[k % d.outputSize]
  {
    BlockOf(k, klen, d.outputSize);
    KeyByte(d, z, info, klen, k, k / d.outputSize, k % d.outputSize);
    hide *;
  }

  lemma KeyByte(d: Digest, z: seq<byte>, info: seq<byte>, klen: nat, k: nat, i: nat, j: nat)
    requires d.Valid() && Ceiling(klen, d.outputSize) <= UINT32_MAX
    requires k < klen && i < Ceiling(klen, d.outputSize) && j < d.outputSize && k == i * d.outputSize + j
    ensures |Key(d, z, info, klen)| == klen
    ensures Key(d, z, info, klen)[k] == d.hash(BlockInput(z, info, i + 1))[j]
  {
    var r := Ceiling(klen, d.outputSize);
    StreamAt(d, z, info, r, i, j);
    KeyLength(d, z, info, klen);
    assert Key(d, z, info, klen)[k] == Stream(d, z, info, r)[k];
    hide *;
  }

  /** What a block hashes, byte by byte: Z, then the counter with its most significant byte first,
      then the shared information. */
  lemma BlockInputInFull(z: seq<byte>, info: seq<byte>, i: uint32)
    ensures var b, n := BlockInput(z, info, i), |z|;
            && |b| == n + 4 + |info|
            && b[..n] == z && b[n + 4..] == info
            && Base256(b[n], b[n + 1], b[n + 2], b[n + 3]) == i
  {
    var b, n := BlockInput(z, info, i), |z|;
    assert b[n] == Be32(i)[0] && b[n + 1] == Be32(i)[1] && b[n + 2] == Be32(i)[2] && b[n + 3] == Be32(i)[3];
    CounterValue(i);
    hide Be32;
  }

  lemma CounterValue(i: uint32)
    ensures var c := Be32(i); Base256(c[0], c[1], c[2], c[3]) == i
  {
  }

  lemma CounterDecides(c: seq<byte>, i: uint32)
    requires |c| == 4 && Base256(c[0], c[1], c[2], c[3]) == i
    ensures c == Be32(i)
  {
    var z: int := c[1] + 256 * (c[0] as int);
    var y: int := c[2] + 256 * z;
    assert i / 256 == y && i % 256 == c[3];
    assert y / 256 == z && y % 256 == c[2];
    assert z / 256 == c[0] && z % 256 == c[1];
  }

  /** The key without the functions that make it: byte k is byte k mod outlen of the hash of Z, the
      four-byte number k div outlen + 1, and the shared information. */
  lemma KeyInFull(d: Digest, z: seq<byte>, info: seq<byte>, klen: nat, k: nat, c: seq<byte>)
    requires d.Valid() && Ceiling(klen, d.outputSize) <= UINT32_MAX && k < klen
    requires |c| == 4 && Base256(c[0], c[1], c[2], c[3]) == k / d.outputSize + 1
    ensures |Key(d, z, info, klen)| == klen
    ensures Key(d, z, info, klen)[k] == d.hash(z + c + info)[k % d.outputSize]
  {
    KeyAt(d, z, info, klen, k);
    CounterDecides(c, k / d.outputSize + 1);
    hide Key, Ceiling, Be32;
  }

  /** Byte k belongs to one of the key's blocks. */
  lemma BlockOf(k: nat, klen: nat, outputSize: nat)
    requires outputSize > 0 && k < klen
    ensures k / outputSize < Ceiling(klen, outputSize)
    ensures k == k / outputSize * outputSize + k % outputSize
  {
    var i, r := k / outputSize, Ceiling(klen, outputSize);
    CeilingBounds(klen, outputSize);
    hide Ceiling;
    assert k == outputSize * i + k % outputSize;
    if i >= r {
      Times(outputSize, r, i);
      assert false;
    }
  }

  /** The key of a shorter length is a prefix of the key of a longer one. */
  lemma ShorterIsPrefix(d: Digest, z: seq<byte>, info: seq<byte>, short: nat, long: nat)
    requires d.Valid() && short <= long && Ceiling(long, d.outputSize) <= UINT32_MAX
    ensures Ceiling(short, d.outputSize) <= Ceiling(long, d.outputSize)
    ensures |Key(d, z, info, long)| == long
    ensures Key(d, z, info, short) == Key(d, z, info, long)[..short]
  {
    CeilingMonotone(short, long, d.outputSize);
    KeyLength(d, z, info, short);
    KeyLength(d, z, info, long);
    hide Key, Ceiling;
    forall k: nat | k < short
      ensures Key(d, z, info, short)[k] == Key(d, z, info, long)[k]
    {
      KeyAt(d, z, info, short, k);
      KeyAt(d, z, info, long, k);
    }
  }

  lemma KeyLength(d: Digest, z: seq<byte>, info: seq<byte>, klen: nat)
    requires d.Valid() && Ceiling(klen, d.outputSize) <= UINT32_MAX
    ensures |Key(d, z, info, klen)| == klen
  {
    CeilingBounds(klen, d.outputSize);
    StreamLength(d, z, info, Ceiling(klen, d.outputSize));
  }

  lemma CeilingMonotone(a: nat, c: nat, b: nat)
    requires b > 0 && a <= c
    ensures Ceiling(a, b) <= Ceiling(c, b)
  {
    CeilingBounds(a, b);
    CeilingBounds(c, b);
    if Ceiling(a, b) > Ceiling(c, b) {
      Times(b, Ceiling(c, b) + 1, Ceiling(a, b));
      assert false;
    }
  }

  /** No two blocks of a key hash the same bytes. */
  lemma CounterIsUnique(z: seq<byte>, info: seq<byte>, i: uint32, j: uint32)
    requires BlockInput(z, info, i) == BlockInput(z, info, j)
    ensures i == j
  {
    assert Be32(i) == BlockInput(z, info, i)[|z|..|z| + 4];
    assert Be32(j) == BlockInput(z, info, j)[|z|..|z| + 4];
    assert Be32(i)[3] == i % 256 && Be32(j)[3] == j % 256;
  }
}
