/** The streaming X9.63 KDF (ccansikdf/src/ccansikdf_x963.c): all hash contexts of a key run side
    by side, shared information is fed to every one of them, and the last block is cut short. */
module X963Kdf {
  import opened Bytes
  import opened X963

  const CCERR_PARAMETER := -7
  const SIZES := 0x1_0000_0000_0000_0000

  /** cc_ceiling on size_t: the sum wraps around. */
  function Entries(klen: nat, outputSize: nat): nat
    requires outputSize > 0
  {
    (klen + (outputSize - 1)) % SIZES / outputSize
  }

  /** What init accepts, exactly. */
  predicate Accepted(klen: nat, outputSize: nat) { klen <= outputSize * (UINT32_MAX - 1) || klen > SIZES - outputSize }

  /** The wrapped quotient is the true one, except for the last few values of size_t. */
  lemma WrapsToZero(klen: nat, outputSize: nat)
    requires 1 <= outputSize <= MAX_DIGEST_OUTPUT_SIZE && klen < SIZES
    ensures Entries(klen, outputSize) == if klen <= SIZES - outputSize then Ceiling(klen, outputSize) else 0
  {
    var sum := klen + (outputSize - 1);
    if klen <= SIZES - outputSize {
      assert sum % SIZES == sum;
    } else {
      assert sum % SIZES == sum - SIZES;
      SmallQuotient(sum - SIZES, outputSize);
    }
  }

  lemma SmallQuotient(a: nat, b: nat)
    requires a < b
    ensures a / b == 0
  {
  }

  lemma AcceptedExactly(klen: nat, outputSize: nat)
    requires 1 <= outputSize <= MAX_DIGEST_OUTPUT_SIZE && klen < SIZES
    ensures Entries(klen, outputSize) < UINT32_MAX <==> Accepted(klen, outputSize)
  {
    WrapsToZero(klen, outputSize);
    CeilingBounds(klen, outputSize);
    hide Entries, Ceiling;
    var r := Ceiling(klen, outputSize);
    if r < UINT32_MAX {
      Times(outputSize, r, UINT32_MAX - 1);
    } else {
      Times(outputSize, UINT32_MAX, r);
    }
  }

  /** The accepted lengths that have no context at all, exactly: zero, and the wrapped ones. */
  lemma AcceptedWithoutContexts(klen: nat, outputSize: nat)
    requires 1 <= outputSize <= MAX_DIGEST_OUTPUT_SIZE && klen < SIZES
    ensures Accepted(klen, outputSize) && Entries(klen, outputSize) == 0 <==>
            klen == 0 || klen > SIZES - outputSize
  {
    WrapsToZero(klen, outputSize);
    CeilingBounds(klen, outputSize);
    hide Entries, Ceiling;
  }

  /** The bound of the loop in final: the number of contexts minus one, as a size_t. */
  function LastIndex(klen: nat, outputSize: nat): nat
    requires outputSize > 0
  {
    (Entries(klen, outputSize) - 1) % SIZES
  }

  /** The loop of final stays within the contexts exactly for the other lengths: without contexts
      its bound wraps around. */
  lemma FinalInBounds(klen: nat, outputSize: nat)
    requires 1 <= outputSize <= MAX_DIGEST_OUTPUT_SIZE && klen < SIZES
    ensures LastIndex(klen, outputSize) < Entries(klen, outputSize) <==> 1 <= klen <= SIZES - outputSize
  {
    WrapsToZero(klen, outputSize);
    CeilingBounds(klen, outputSize);
    var e := Entries(klen, outputSize);
    assert e < SIZES by { QuotientBelow((klen + (outputSize - 1)) % SIZES, outputSize); }
    hide Entries, Ceiling;
    if e > 0 {
      assert LastIndex(klen, outputSize) == e - 1;
    }
  }

  lemma QuotientBelow(a: nat, b: nat)
    requires b > 0
    ensures a / b <= a
  {
    var q := a / b;
    Times(q, 1, b);
    assert a == q * b + a % b;
  }

  /** An empty key is accepted by init, and final then runs past the contexts. */
  lemma EmptyKeyIsAccepted(outputSize: nat)
    requires 1 <= outputSize <= MAX_DIGEST_OUTPUT_SIZE
    ensures Accepted(0, outputSize) && Entries(0, outputSize) == 0
    ensures LastIndex(0, outputSize) == SIZES - 1
  {
    AcceptedWithoutContexts(0, outputSize);
  }

  /** The length limit that the header and the standard give, in bytes. */
  predicate WithinStandard(klen: nat, outputSize: nat) { klen < outputSize * UINT32_MAX }

  /** The code is stricter than the limit: it refuses exactly those lengths within the limit whose
      last block would carry the counter 2^32 - 1. */
  lemma StricterThanStandard(klen: nat, outputSize: nat)
    requires 1 <= outputSize <= MAX_DIGEST_OUTPUT_SIZE && klen <= SIZES - outputSize
    ensures Entries(klen, outputSize) < UINT32_MAX ==> WithinStandard(klen, outputSize)
    ensures WithinStandard(klen, outputSize) && Entries(klen, outputSize) >= UINT32_MAX <==>
            outputSize * (UINT32_MAX - 1) < klen < outputSize * UINT32_MAX
  {
    AcceptedExactly(klen, outputSize);
  }

  /** A refused SHA-256 key length within the limit. */
  lemma RefusedWithinStandard()
    ensures WithinStandard(32 * (UINT32_MAX - 1) + 1, 32) && !Accepted(32 * (UINT32_MAX - 1) + 1, 32)
  {
  }

  /** What a caller hands to update: a null pointer, or a buffer that may be empty. */
  datatype Input = Null | Data(bytes: seq<byte>)

  function Fed(x: Input): seq<byte> { if x.Null? then [] else x.bytes }

  function Joined(xs: seq<Input>): seq<byte> { if xs == [] then [] else Joined(xs[..|xs| - 1]) + Fed(xs[|xs| - 1]) }

  lemma Spliced(now: seq<byte>, front: seq<byte>, was: seq<byte>, at: nat, src: seq<byte>)
    requires |front| == at && at + |src| <= |was|
    requires now == front + was[at..]
    ensures |now| == |was| && now[..at] + src + now[at + |src|..] == front + src + was[at + |src|..]
  {
  }

  /** cc_memcpy into a key. */
  method Copy(key: array<byte>, at: nat, src: seq<byte>)
    requires at + |src| <= key.Length
    modifies key
    ensures key[..] == old(key[..at]) + src + old(key[at + |src|..])
  {
    for i := 0 to |src|
      invariant forall k | 0 <= k < i :: key[at + k] == src[k]
      invariant forall k | 0 <= k < at || at + i <= k < key.Length :: key[k] == old(key[k])
    {
      key[at + i] := src[i];
    }
  }

  /** Where block i starts in the key. */
  function Offset(i: nat, outputSize: nat): nat { i * outputSize }

  /** All blocks but the last fit whole, and the last one starts inside the key. */
  lemma LastBlock(klen: nat, outputSize: nat)
    requires 1 <= outputSize <= MAX_DIGEST_OUTPUT_SIZE && 1 <= klen <= SIZES - outputSize
    ensures Entries(klen, outputSize) == Ceiling(klen, outputSize) >= 1
    ensures Offset(Ceiling(klen, outputSize) - 1, outputSize) < klen
    ensures klen <= Offset(Ceiling(klen, outputSize) - 1, outputSize) + outputSize
  {
    WrapsToZero(klen, outputSize);
    CeilingBounds(klen, outputSize);
    hide Entries, Ceiling;
  }

  lemma NextBlock(i: nat, r: nat, outputSize: nat)
    requires i < r
    ensures Offset(i + 1, outputSize) == Offset(i, outputSize) + outputSize <= Offset(r, outputSize)
  {
    Times(outputSize, i + 1, r);
  }

  lemma BlocksSoFar(d: Digest, z: seq<byte>, info: seq<byte>, blocks: nat)
    requires d.Valid() && blocks <= UINT32_MAX
    ensures |Stream(d, z, info, blocks)| == Offset(blocks, d.outputSize)
  {
    StreamLength(d, z, info, blocks);
  }

  /** The key is whole blocks and the front of the last one. */
  lemma KeyIsCut(d: Digest, z: seq<byte>, info: seq<byte>, klen: nat, r: nat)
    requires d.Valid() && 1 <= klen <= SIZES - d.outputSize
    requires r + 1 == Ceiling(klen, d.outputSize) <= UINT32_MAX
    ensures Offset(r, d.outputSize) < klen <= Offset(r, d.outputSize) + d.outputSize
    ensures Key(d, z, info, klen)
         == Stream(d, z, info, r) + d.hash(BlockInput(z, info, r + 1))[..klen - Offset(r, d.outputSize)]
  {
    LastBlock(klen, d.outputSize);
    BlocksSoFar(d, z, info, r);
    BlocksSoFar(d, z, info, r + 1);
    hide Offset, BlockInput;
  }

  /** `now` is the key buffer with the first i blocks in place; `was` is what it held before. */
  ghost predicate Placed(d: Digest, z: seq<byte>, info: seq<byte>, was: seq<byte>, now: seq<byte>, i: nat) {
    && i <= UINT32_MAX && Offset(i, d.outputSize) <= |was|
    && now == Stream(d, z, info, i) + was[Offset(i, d.outputSize)..]
  }

  lemma NothingPlaced(d: Digest, z: seq<byte>, info: seq<byte>, was: seq<byte>)
    ensures Offset(0, d.outputSize) == 0 && forall r: nat :: 0 <= Offset(r, d.outputSize)
    ensures Placed(d, z, info, was, was, 0)
  {
    assert was[0..] == was && [] + was == was;
  }

  /** A whole block more. */
  lemma BlockPlaced(d: Digest, z: seq<byte>, info: seq<byte>, was: seq<byte>, now: seq<byte>, i: nat)
    requires d.Valid() && Placed(d, z, info, was, now, i) && i < UINT32_MAX
    requires Offset(i, d.outputSize) + d.outputSize <= |was|
    ensures |now| == |was|
    ensures var at, block := Offset(i, d.outputSize), d.hash(BlockInput(z, info, i + 1));
            Placed(d, z, info, was, now[..at] + block + now[at + |block|..], i + 1)
  {
    BlocksSoFar(d, z, info, i);
    NextBlock(i, i + 1, d.outputSize);
    var block := d.hash(BlockInput(z, info, i + 1));
    assert Stream(d, z, info, i + 1) == Stream(d, z, info, i) + block;
    hide Stream, BlockInput, Offset;
    Spliced(now, Stream(d, z, info, i), was, Offset(i, d.outputSize), block);
  }

  /** The cut block, and the key is complete. */
  lemma KeyPlaced(d: Digest, z: seq<byte>, info: seq<byte>, was: seq<byte>, now: seq<byte>, klen: nat, r: nat)
    requires d.Valid() && 1 <= klen <= |was| && klen <= SIZES - d.outputSize
    requires r + 1 == Ceiling(klen, d.outputSize) <= UINT32_MAX && Placed(d, z, info, was, now, r)
    ensures |now| == |was| && Offset(r, d.outputSize) < klen <= Offset(r, d.outputSize) + d.outputSize
    ensures var at := Offset(r, d.outputSize);
            var block := d.hash(BlockInput(z, info, r + 1))[..klen - at];
            now[..at] + block + now[at + |block|..] == Key(d, z, info, klen) + was[klen..]
  {
    BlocksSoFar(d, z, info, r);
    KeyIsCut(d, z, info, klen, r);
    hide Key, Ceiling, Offset, Stream, BlockInput;
    var at := Offset(r, d.outputSize);
    Spliced(now, Stream(d, z, info, r), was, at, d.hash(BlockInput(z, info, r + 1))[..klen - at]);
  }

  /** struct ccansikdf_x963_ctx. A hash context is what it has absorbed since ccdigest_init. */
  class Kdf {
    const d: Digest
    const dis: array<seq<byte>>
    var klen: nat

    /** ccansikdf_x963_ctx_decl: storage for as many contexts as the key needs. */
    constructor (d: Digest, keyLen: nat)
      requires d.Valid() && keyLen < SIZES
      ensures this.d == d && fresh(dis) && dis.Length == Entries(keyLen, d.outputSize)
    {
      this.d := d;
      this.klen := 0;
      this.dis := new seq<byte>[Entries(keyLen, d.outputSize)](_ => []);
    }

    ghost predicate Valid()
      reads this
    {
      d.Valid() && klen < SIZES && dis.Length == Entries(klen, d.outputSize) < UINT32_MAX
    }

    /** Every context has absorbed Z, its own counter and the shared information so far. */
    ghost predicate Absorbed(z: seq<byte>, info: seq<byte>)
      reads this, dis
    {
      Valid() && forall i | 0 <= i < dis.Length :: dis[i] == BlockInput(z, info, i + 1)
    }

    method Init(keyLen: nat, z: seq<byte>) returns (rc: int)
      requires d.Valid() && keyLen < SIZES && dis.Length == Entries(keyLen, d.outputSize)
      modifies this, dis
      ensures klen == keyLen
      ensures rc == if Accepted(keyLen, d.outputSize) then 0 else CCERR_PARAMETER
      ensures rc == 0 ==> Absorbed(z, [])
      ensures rc != 0 ==> dis[..] == old(dis[..])
    {
      AcceptedExactly(keyLen, d.outputSize);
      var r := Entries(keyLen, d.outputSize);
      klen := keyLen;
      if r >= UINT32_MAX {
        return CCERR_PARAMETER;
      }
      var i := 1;
      while i <= r
        invariant 1 <= i <= r + 1 <= UINT32_MAX
        invariant klen == keyLen
        invariant forall j | 0 <= j < i - 1 :: dis[j] == BlockInput(z, [], j + 1)
      {
        var counter := Be32(i);
        dis[i - 1] := [];
        dis[i - 1] := dis[i - 1] + z;
        dis[i - 1] := dis[i - 1] + counter;
        assert dis[i - 1] == BlockInput(z, [], i);
        i := i + 1;
      }
      rc := 0;
    }

    method Update(data: Input)
      requires Valid()
      modifies dis
      ensures forall i | 0 <= i < dis.Length :: dis[i] == old(dis[i]) + Fed(data)
    {
      var r := Entries(klen, d.outputSize);
      if data.Null? || |data.bytes| == 0 {
        return;
      }
      for i := 0 to r
        invariant forall j | 0 <= j < i :: dis[j] == old(dis[j]) + Fed(data)
        invariant forall j | i <= j < r :: dis[j] == old(dis[j])
      {
        dis[i] := dis[i] + data.bytes;
      }
    }

    /** The same, said of what has been absorbed. */
    method Feed(ghost z: seq<byte>, ghost info: seq<byte>, data: Input)
      requires Absorbed(z, info)
      modifies dis
      ensures Absorbed(z, info + Fed(data))
    {
      Update(data);
      assert forall i: uint32 :: BlockInput(z, info, i) + Fed(data) == BlockInput(z, info + Fed(data), i);
    }

    /** One round of the loop of final: a whole block goes out. */
    method PutBlock(ghost z: seq<byte>, ghost info: seq<byte>, ghost was: seq<byte>, key: array<byte>, i: nat, out: nat)
      requires Absorbed(z, info) && i < dis.Length
      requires out == Offset(i, d.outputSize) && out + d.outputSize <= key.Length == |was|
      requires Placed(d, z, info, was, key[..], i)
      modifies key
      ensures Placed(d, z, info, was, key[..], i + 1)
      ensures Offset(i + 1, d.outputSize) == out + d.outputSize
    {
      NextBlock(i, i + 1, d.outputSize);
      BlockPlaced(d, z, info, was, key[..], i);
      var digest := d.hash(dis[i]);
      assert digest == d.hash(BlockInput(z, info, i + 1));
      hide *;
      Copy(key, out, digest);
    }

    /** The last block goes out, cut to what the key still needs. */
    method PutLast(ghost z: seq<byte>, ghost info: seq<byte>, ghost was: seq<byte>, key: array<byte>, r: nat, out: nat)
      requires Absorbed(z, info) && r + 1 == dis.Length == Ceiling(klen, d.outputSize)
      requires 1 <= klen <= key.Length == |was| && klen <= SIZES - d.outputSize
      requires out == Offset(r, d.outputSize) <= klen
      requires Placed(d, z, info, was, key[..], r)
      modifies key
      ensures key[..] == Key(d, z, info, klen) + was[klen..]
    {
      KeyPlaced(d, z, info, was, key[..], klen, r);
      var digest := d.hash(dis[r]);
      assert digest == d.hash(BlockInput(z, info, r + 1)) && |digest| == d.outputSize;
      hide *;
      Copy(key, out, digest[..klen - out]);
    }

    /** `ran` says whether the loop stayed within the contexts; where it does not, what C does is
        undefined, and the method stops. */
    method Final(ghost z: seq<byte>, ghost info: seq<byte>, key: array<byte>) returns (ran: bool)
      requires Absorbed(z, info) && klen <= key.Length
      modifies key
      ensures ran <==> 1 <= klen <= SIZES - d.outputSize
      ensures ran ==> Ceiling(klen, d.outputSize) < UINT32_MAX
      ensures key[..] == if ran then Key(d, z, info, klen) + old(key[klen..]) else old(key[..])
    {
      FinalInBounds(klen, d.outputSize);
      var r := LastIndex(klen, d.outputSize);
      if r >= dis.Length {
        return false;
      }
      LastBlock(klen, d.outputSize);
      assert r + 1 == dis.Length == Ceiling(klen, d.outputSize) < UINT32_MAX;
      hide *;
      PutAll(z, info, key, r);
      ran := true;
    }

    /** Final, where there are contexts. */
    method PutAll(ghost z: seq<byte>, ghost info: seq<byte>, key: array<byte>, r: nat)
      requires Absorbed(z, info) && r + 1 == dis.Length == Ceiling(klen, d.outputSize) <= UINT32_MAX
      requires 1 <= klen <= key.Length && klen <= SIZES - d.outputSize
      modifies key
      ensures key[..] == Key(d, z, info, klen) + old(key[klen..])
    {
      LastBlock(klen, d.outputSize);
      hide *;
      ghost var was := key[..];
      var out := 0;
      NothingPlaced(d, z, info, was);
      for i := 0 to r
        invariant out == Offset(i, d.outputSize) <= Offset(r, d.outputSize)
        invariant Placed(d, z, info, was, key[..], i)
      {
        NextBlock(i, r, d.outputSize);
        PutBlock(z, info, was, key, i, out);
        out := out + d.outputSize;
      }
      PutLast(z, info, was, key, r, out);
    }

    /** Any number of updates. */
    method FeedAll(ghost z: seq<byte>, parts: seq<Input>)
      requires Absorbed(z, [])
      modifies dis
      ensures Absorbed(z, Joined(parts))
    {
      hide Entries, BlockInput;
      for i := 0 to |parts|
        invariant Absorbed(z, Joined(parts[..i]))
      {
        Feed(z, Joined(parts[..i]), parts[i]);
        assert parts[..i + 1] == parts[..i] + [parts[i]];
        JoinedOne(parts[..i], parts[i]);
      }
      assert parts[..|parts|] == parts;
    }
  }

  /** init, any number of updates, final: the key depends only on the bytes that the updates
      carried altogether. A refused length leaves the key buffer alone. For an accepted length,
      `ran` says whether final stays within the contexts. */
  method Streamed(d: Digest, z: seq<byte>, parts: seq<Input>, keyLen: nat, key: array<byte>)
      returns (rc: int, ran: bool)
    requires d.Valid() && keyLen <= key.Length && keyLen < SIZES
    modifies key
    ensures rc == if Accepted(keyLen, d.outputSize) then 0 else CCERR_PARAMETER
    ensures ran <==> rc == 0 && 1 <= keyLen <= SIZES - d.outputSize
    ensures ran ==> Ceiling(keyLen, d.outputSize) < UINT32_MAX
    ensures key[..] == if ran then Key(d, z, Joined(parts), keyLen) + old(key[keyLen..]) else old(key[..])
  {
    var ctx := new Kdf(d, keyLen);
    rc := ctx.Init(keyLen, z);
    if rc != 0 {
      return rc, false;
    }
    ctx.FeedAll(z, parts);
    hide Entries, Ceiling, BlockInput, Joined, Key;
    ran := ctx.Final(z, Joined(parts), key);
  }

  /** ccansikdf_x963. */
  method Derive(d: Digest, z: seq<byte>, info: Input, keyLen: nat, key: array<byte>) returns (rc: int, ran: bool)
    requires d.Valid() && keyLen <= key.Length && keyLen < SIZES
    modifies key
    ensures rc == if Accepted(keyLen, d.outputSize) then 0 else CCERR_PARAMETER
    ensures ran <==> rc == 0 && 1 <= keyLen <= SIZES - d.outputSize
    ensures ran ==> Ceiling(keyLen, d.outputSize) < UINT32_MAX
    ensures key[..] == if ran then Key(d, z, Fed(info), keyLen) + old(key[keyLen..]) else old(key[..])
  {
    var ctx := new Kdf(d, keyLen);
    rc := ctx.Init(keyLen, z);
    if rc != 0 {
      return rc, false;
    }
    ctx.Feed(z, [], info);
    assert [] + Fed(info) == Fed(info);
    hide Entries, Ceiling, BlockInput, Key;
    ran := ctx.Final(z, Fed(info), key);
  }

  lemma Regroup<T>(a: seq<T>, b: seq<T>, c: seq<T>)
    ensures (a + b) + c == a + (b + c)
  {
  }

  lemma JoinedOne(xs: seq<Input>, x: Input)
    ensures Joined(xs + [x]) == Joined(xs) + Fed(x)
  {
    assert (xs + [x])[..|xs|] == xs;
  }

  /** Any split of the shared information, with null and empty updates anywhere, carries the
      same bytes: joining is by parts, and a cut inside a buffer does not show. */
  lemma {:induction false} JoinedParts(xs: seq<Input>, ys: seq<Input>)
    ensures Joined(xs + ys) == Joined(xs) + Joined(ys)
  {
    if ys == [] {
      assert xs + ys == xs;
    } else {
      var front, y := ys[..|ys| - 1], ys[|ys| - 1];
      assert ys == front + [y];
      JoinedParts(xs, front);
      JoinedOne(xs + front, y);
      JoinedOne(front, y);
      hide Joined, Fed;
      Regroup(xs, front, [y]);
      Regroup(Joined(xs), Joined(front), Fed(y));
    }
  }

  lemma JoinedPair(x: Input, y: Input)
    ensures Joined([x]) == Fed(x) && Joined([x, y]) == Fed(x) + Fed(y)
  {
    assert [x][..0] == [] && [] + Fed(x) == Fed(x);
    assert [x, y][..1] == [x];
  }

  lemma Bare<T>(s: seq<T>, k: nat)
    requires k <= |s|
    ensures (s[..k] + []) + ([] + s[k..]) == s
  {
  }

  lemma CutOnce(info: seq<byte>, k: nat)
    requires k <= |info|
    ensures Joined([Data(info[..k]), Null, Data([]), Data(info[k..])]) == info == Joined([Data(info)])
  {
    var first, second := Data(info[..k]), Data(info[k..]);
    assert [first, Null, Data([]), second] == [first, Null] + [Data([]), second];
    JoinedPair(Data(info), Null);
    JoinedPair(first, Null);
    JoinedPair(Data([]), second);
    hide Joined;
    JoinedParts([first, Null], [Data([]), second]);
    Bare(info, k);
  }

  lemma CutAnywhere(before: seq<Input>, info: seq<byte>, k: nat, after: seq<Input>)
    requires k <= |info|
    ensures Joined(before + [Data(info[..k]), Null, Data([]), Data(info[k..])] + after)
         == Joined(before + [Data(info)] + after)
  {
    hide Joined;
    var cut := [Data(info[..k]), Null, Data([]), Data(info[k..])];
    CutOnce(info, k);
    JoinedParts(before + cut, after);
    JoinedParts(before, cut);
    JoinedParts(before + [Data(info)], after);
    JoinedParts(before, [Data(info)]);
  }
}
