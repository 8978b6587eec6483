/** The Blowfish key object, its unrolled rounds, the ECB loops and the self-modifying key
    schedule (ccblowfish/src/ltc_blowfish.h, ccblowfish_ltc_common.c,
    ccblowfish_ltc_ecb_decrypt.c). */
module Blowfish {
  import opened Words
  import opened Blocks
  import Spec = BlowfishSpec

  /** The key schedule as a value: the P-array and the four S-boxes, row after row. */
  datatype Schedule = Schedule(k: seq<bv32>, s: seq<bv32>)

  predicate ValidSchedule(x: Schedule) { |x.k| == 18 && |x.s| == 1024 }

  class KeySched {
    const S: array2<bv32>
    const K: array<bv32>

    constructor ()
      ensures Valid() && fresh(S) && fresh(K)
    {
      S := new bv32[4, 256]((_, _) => 0);
      K := new bv32[18](_ => 0);
    }

    ghost predicate Valid() {
      S.Length0 == 4 && S.Length1 == 256 && K.Length == 18
    }

    /** The S-boxes, row after row. */
    ghost function Rows(): (s: seq<bv32>)
      requires Valid()
      reads S
      ensures |s| == 1024
    {
      seq(1024, i requires 0 <= i < 1024 reads S => S[i / 256, i % 256])
    }

    ghost function Contents(): (x: Schedule)
      requires Valid()
      reads S, K
      ensures ValidSchedule(x)
    {
      Schedule(K[..], Rows())
    }
  }

  /** cc_byte as an index. */
  function Index(x: bv32, shift: bv32): (i: nat)
    requires shift <= 24
    ensures i < 256
  {
    ByteAt(x, shift) as nat
  }

  /** The standard's F on a schedule: add, exclusive or, add. */
  function F(s: seq<bv32>, x: bv32): bv32
    requires |s| == 1024
  {
    Add(Xor(Add(s[Index(x, 24)], s[256 + Index(x, 16)]), s[512 + Index(x, 8)]), s[768 + Index(x, 0)])
  }

  function Mixing(x: Schedule): Spec.Mixer
    requires ValidSchedule(x)
  {
    (w: bv32) => F(x.s, w)
  }

  /** LTC_F. */
  method LtcF(xkey: KeySched, x: bv32) returns (r: bv32)
    requires xkey.Valid()
    ensures r == Mixing(xkey.Contents())(x)
  {
    hide Add, Xor, Index;
    var s := xkey.S;
    r := Add(Xor(Add(s[0, Index(x, 24)], s[1, Index(x, 16)]), s[2, Index(x, 8)]), s[3, Index(x, 0)]);
  }

  /** The block maps of a schedule. */
  function EncryptWith(x: Schedule): Block -> Block
    requires ValidSchedule(x)
  {
    (p: Block) => Spec.Encrypt(Mixing(x), x.k, p)
  }

  function DecryptWith(x: Schedule): Block -> Block
    requires ValidSchedule(x)
  {
    (p: Block) => Spec.Decrypt(Mixing(x), x.k, p)
  }

  /** `L ^= K[r]; R ^= F(L)`: a round of the standard without its swap. */
  method EncryptRound(xkey: KeySched, r: nat, l: bv32, m: bv32) returns (L: bv32, R: bv32)
    requires xkey.Valid() && r < 18
    ensures (R, L) == Spec.Round(Mixing(xkey.Contents()), xkey.K[r], (l, m))
  {
    hide Mixing, Xor;
    L := Xor(l, xkey.K[r]);
    var t := LtcF(xkey, L);
    R := Xor(m, t);
  }

  lemma FourMore(f: Spec.Mixer, k: seq<bv32>, r: nat, p: Block)
    requires r + 4 <= |k|
    ensures Spec.Rounds(f, k, r + 4, p) ==
            Spec.Round(f, k[r + 3], Spec.Round(f, k[r + 2],
              Spec.Round(f, k[r + 1], Spec.Round(f, k[r], Spec.Rounds(f, k, r, p)))))
  {
    hide Spec.Round;
    assert Spec.Rounds(f, k, r + 2, p) == Spec.Round(f, k[r + 1], Spec.Round(f, k[r], Spec.Rounds(f, k, r, p)));
  }

  /** Four rounds, as the source unrolls them. */
  method FourRounds(xkey: KeySched, r: nat, l: bv32, m: bv32, ghost p: Block) returns (L: bv32, R: bv32)
    requires xkey.Valid() && r + 4 <= 16
    requires (l, m) == Spec.Rounds(Mixing(xkey.Contents()), xkey.K[..], r, p)
    ensures (L, R) == Spec.Rounds(Mixing(xkey.Contents()), xkey.K[..], r + 4, p)
  {
    FourMore(Mixing(xkey.Contents()), xkey.K[..], r, p);
    hide Mixing, Spec.Round, Spec.Rounds;
    L, R := EncryptRound(xkey, r, l, m);
    R, L := EncryptRound(xkey, r + 1, R, L);
    L, R := EncryptRound(xkey, r + 2, L, R);
    R, L := EncryptRound(xkey, r + 3, R, L);
  }

  /** The loop body of ccblowfish_ltc_ecb_encrypt between load and store. */
  method EncryptHalves(xkey: KeySched, l: bv32, m: bv32) returns (L: bv32, R: bv32)
    requires xkey.Valid()
    ensures (R, L) == EncryptWith(xkey.Contents())((l, m))
  {
    hide Mixing, Xor;
    L, R := l, m;
    var r := 0;
    while r < 16
      invariant r <= 16 && r % 4 == 0
      invariant (L, R) == Spec.Rounds(Mixing(xkey.Contents()), xkey.K[..], r, (l, m))
    {
      L, R := FourRounds(xkey, r, L, R, (l, m));
      r := r + 4;
    }
    R := Xor(R, xkey.K[17]);
    L := Xor(L, xkey.K[16]);
  }

  // The decryption loop runs one key ahead: it mixes with halves that are already keyed for
  // the next two rounds.

  function KeyedHalves(f: Spec.Mixer, k: seq<bv32>, i: nat, p: Block): Block
    requires |k| == 18 && i <= 16
  {
    var q := Spec.Rounds(f, k, i, p);
    (Xor(q.0, k[i]), Xor(q.1, k[i + 1]))
  }

  /** `L ^= F(R); R ^= K[r]` on the pair (R, L). */
  function BackRound(f: Spec.Mixer, k: bv32, q: Block): Block {
    (Xor(q.1, f(q.0)), Xor(q.0, k))
  }

  lemma KeyedStep(f: Spec.Mixer, k: seq<bv32>, i: nat, p: Block)
    requires |k| == 18 && i < 16
    ensures KeyedHalves(f, k, i + 1, p) == BackRound(f, k[i + 2], KeyedHalves(f, k, i, p))
  {
    hide Xor;
    var q := Spec.Rounds(f, k, i, p);
    Spec.XorCommutes(q.1, f(Xor(q.0, k[i])), k[i + 1]);
  }

  method DecryptRound(xkey: KeySched, r: nat, l: bv32, m: bv32) returns (L: bv32, R: bv32)
    requires xkey.Valid() && r < 18
    ensures (L, R) == BackRound(Mixing(xkey.Contents()), xkey.K[r], (m, l))
  {
    hide Mixing, Xor;
    var t := LtcF(xkey, m);
    L := Xor(l, t);
    R := Xor(m, xkey.K[r]);
  }

  /** The same round, said of the keyed halves: round 15 - r uses key r. */
  method KeyedRound(xkey: KeySched, r: nat, l: bv32, m: bv32, ghost p: Block) returns (L: bv32, R: bv32)
    requires xkey.Valid() && r < 16
    requires (m, l) == KeyedHalves(Mixing(xkey.Contents()), Spec.Reversed(xkey.K[..]), 15 - r, p)
    ensures (L, R) == KeyedHalves(Mixing(xkey.Contents()), Spec.Reversed(xkey.K[..]), 16 - r, p)
  {
    KeyedStep(Mixing(xkey.Contents()), Spec.Reversed(xkey.K[..]), 15 - r, p);
    assert Spec.Reversed(xkey.K[..])[17 - r] == xkey.K[r];
    hide Mixing, BackRound, KeyedHalves;
    L, R := DecryptRound(xkey, r, l, m);
  }

  method FourRoundsBack(xkey: KeySched, r: nat, l: bv32, m: bv32, ghost p: Block) returns (L: bv32, R: bv32)
    requires xkey.Valid() && 3 <= r < 16
    requires (m, l) == KeyedHalves(Mixing(xkey.Contents()), Spec.Reversed(xkey.K[..]), 15 - r, p)
    ensures (R, L) == KeyedHalves(Mixing(xkey.Contents()), Spec.Reversed(xkey.K[..]), 19 - r, p)
  {
    hide Mixing, KeyedHalves, Spec.Reversed;
    L, R := KeyedRound(xkey, r, l, m, p);
    R, L := KeyedRound(xkey, r - 1, R, L, p);
    L, R := KeyedRound(xkey, r - 2, L, R, p);
    R, L := KeyedRound(xkey, r - 3, R, L, p);
  }

  /** The loop body of ccblowfish_ltc_ecb_decrypt between load and store. The round counter
      goes down through 15, 11, 7 and 3 to -1; every index it gives is a key index. */
  method DecryptHalves(xkey: KeySched, m: bv32, l: bv32) returns (L: bv32, R: bv32)
    requires xkey.Valid()
    ensures (L, R) == DecryptWith(xkey.Contents())((m, l))
  {
    hide Mixing, Xor;
    R := Xor(m, xkey.K[17]);
    L := Xor(l, xkey.K[16]);
    var r := 15;
    while r > 0
      invariant r in {15, 11, 7, 3, -1}
      invariant (R, L) == KeyedHalves(Mixing(xkey.Contents()), Spec.Reversed(xkey.K[..]), 15 - r, (m, l))
    {
      L, R := FourRoundsBack(xkey, r, L, R, (m, l));
      r := r - 4;
    }
  }

  /** One turn of the loop. */
  method EcbEncryptBlock(xkey: KeySched, input: array<bv8>, inp: nat, output: array<bv8>, outp: nat)
    requires xkey.Valid()
    requires inp + 8 <= input.Length && outp + 8 <= output.Length
    modifies output
    ensures output[..] == old(output[..outp])
                          + OnBytes(EncryptWith(xkey.Contents()))(old(input[inp..inp + 8]))
                          + old(output[outp + 8..])
  {
    hide EncryptWith, StoreBlock, LoadBlock, OnBytes;
    OnBytesIs(EncryptWith(xkey.Contents()), input[inp..inp + 8]);
    var a, b := Load(input, inp);
    var L, R := EncryptHalves(xkey, a, b);
    Store(R, L, output, outp);
  }

  /** One turn of the loop, said of the whole buffers. */
  method EcbEncryptTurn(xkey: KeySched, input: array<bv8>, inAt: nat, inp: nat,
                        output: array<bv8>, outAt: nat, outp: nat,
                        ghost src: seq<bv8>, ghost start: seq<bv8>, ghost done: nat)
    requires xkey.Valid()
    requires EcbDone(EncryptWith(xkey.Contents()), src, start, input[..], inAt, output[..], outAt, done)
    requires 8 * (done + 1) <= |src| && inp == inAt + 8 * done && outp == outAt + 8 * done
    requires output.Length == |start| && WriteBehindRead(input == output, inAt, outAt, |src| / 8)
    modifies output
    ensures EcbDone(EncryptWith(xkey.Contents()), src, start, input[..], inAt, output[..], outAt, done + 1)
  {
    assert inp + 8 <= input.Length && outp + 8 <= output.Length;
    hide EcbDone, OnBytes, EncryptWith, WriteBehindRead;
    ghost var inNow, outNow := input[..], output[..];
    EcbEncryptBlock(xkey, input, inp, output, outp);
    EcbStep(EncryptWith(xkey.Contents()), src, start, inNow, inAt, outNow, outAt, done,
            input[..], output[..], input == output);
  }

  method EcbEncrypt(xkey: KeySched, nblocks: nat, input: array<bv8>, inAt: nat, output: array<bv8>, outAt: nat)
      returns (rc: int)
    requires xkey.Valid()
    requires inAt + 8 * nblocks <= input.Length && outAt + 8 * nblocks <= output.Length
    requires WriteBehindRead(input == output, inAt, outAt, nblocks)
    modifies output
    ensures rc == 0
    ensures output[..] == old(output[..outAt])
                          + Ecb(EncryptWith(xkey.Contents()), old(input[inAt..inAt + 8 * nblocks]))
                          + old(output[outAt + 8 * nblocks..])
  {
    hide EncryptWith, OnBytes, Ecb, EcbDone, WriteBehindRead;
    ghost var f := EncryptWith(xkey.Contents());
    ghost var src, start := input[inAt..inAt + 8 * nblocks], output[..];
    ghost var done := 0;
    EcbStart(f, input[..], inAt, start, outAt, nblocks);
    var left, inp, outp := nblocks, inAt, outAt;
    while left != 0
      invariant done + left == nblocks && inp == inAt + 8 * done && outp == outAt + 8 * done
      invariant f == EncryptWith(xkey.Contents())
      invariant EcbDone(f, src, start, input[..], inAt, output[..], outAt, done)
    {
      left := left - 1;
      EcbEncryptTurn(xkey, input, inAt, inp, output, outAt, outp, src, start, done);
      inp := inp + 8;
      outp := outp + 8;
      done := done + 1;
    }
    EcbEnd(f, src, start, input[..], inAt, output[..], outAt, nblocks);
    return 0;
  }

  /** One turn of the loop. */
  method EcbDecryptBlock(xkey: KeySched, input: array<bv8>, inp: nat, output: array<bv8>, outp: nat)
    requires xkey.Valid()
    requires inp + 8 <= input.Length && outp + 8 <= output.Length
    modifies output
    ensures output[..] == old(output[..outp])
                          + OnBytes(DecryptWith(xkey.Contents()))(old(input[inp..inp + 8]))
                          + old(output[outp + 8..])
  {
    hide DecryptWith, StoreBlock, LoadBlock, OnBytes;
    OnBytesIs(DecryptWith(xkey.Contents()), input[inp..inp + 8]);
    var a, b := Load(input, inp);
    var L, R := DecryptHalves(xkey, a, b);
    Store(L, R, output, outp);
  }

  /** One turn of the loop, said of the whole buffers. */
  method EcbDecryptTurn(xkey: KeySched, input: array<bv8>, inAt: nat, inp: nat,
                        output: array<bv8>, outAt: nat, outp: nat,
                        ghost src: seq<bv8>, ghost start: seq<bv8>, ghost done: nat)
    requires xkey.Valid()
    requires EcbDone(DecryptWith(xkey.Contents()), src, start, input[..], inAt, output[..], outAt, done)
    requires 8 * (done + 1) <= |src| && inp == inAt + 8 * done && outp == outAt + 8 * done
    requires output.Length == |start| && WriteBehindRead(input == output, inAt, outAt, |src| / 8)
    modifies output
    ensures EcbDone(DecryptWith(xkey.Contents()), src, start, input[..], inAt, output[..], outAt, done + 1)
  {
    assert inp + 8 <= input.Length && outp + 8 <= output.Length;
    hide EcbDone, OnBytes, DecryptWith, WriteBehindRead;
    ghost var inNow, outNow := input[..], output[..];
    EcbDecryptBlock(xkey, input, inp, output, outp);
    EcbStep(DecryptWith(xkey.Contents()), src, start, inNow, inAt, outNow, outAt, done,
            input[..], output[..], input == output);
  }

  method EcbDecrypt(xkey: KeySched, nblocks: nat, input: array<bv8>, inAt: nat, output: array<bv8>, outAt: nat)
      returns (rc: int)
    requires xkey.Valid()
    requires inAt + 8 * nblocks <= input.Length && outAt + 8 * nblocks <= output.Length
    requires WriteBehindRead(input == output, inAt, outAt, nblocks)
    modifies output
    ensures rc == 0
    ensures output[..] == old(output[..outAt])
                          + Ecb(DecryptWith(xkey.Contents()), old(input[inAt..inAt + 8 * nblocks]))
                          + old(output[outAt + 8 * nblocks..])
  {
    hide DecryptWith, OnBytes, Ecb, EcbDone, WriteBehindRead;
    ghost var f := DecryptWith(xkey.Contents());
    ghost var src, start := input[inAt..inAt + 8 * nblocks], output[..];
    ghost var done := 0;
    EcbStart(f, input[..], inAt, start, outAt, nblocks);
    var left, inp, outp := nblocks, inAt, outAt;
    while left != 0
      invariant done + left == nblocks && inp == inAt + 8 * done && outp == outAt + 8 * done
      invariant f == DecryptWith(xkey.Contents())
      invariant EcbDone(f, src, start, input[..], inAt, output[..], outAt, done)
    {
      left := left - 1;
      EcbDecryptTurn(xkey, input, inAt, inp, output, outAt, outp, src, start, done);
      inp := inp + 8;
      outp := outp + 8;
      done := done + 1;
    }
    EcbEnd(f, src, start, input[..], inAt, output[..], outAt, nblocks);
    return 0;
  }

  /** Decrypting an encrypted buffer gives it back, and the other way round, for every K and S
      and any number of blocks. */
  lemma EcbRoundTrip(x: Schedule, text: seq<bv8>)
    requires ValidSchedule(x) && |text| % 8 == 0
    ensures |Ecb(EncryptWith(x), text)| == |text| && |Ecb(DecryptWith(x), text)| == |text|
    ensures Ecb(DecryptWith(x), Ecb(EncryptWith(x), text)) == text
    ensures Ecb(EncryptWith(x), Ecb(DecryptWith(x), text)) == text
  {
    var e, d := EncryptWith(x), DecryptWith(x);
    forall p: Block ensures d(e(p)) == p && e(d(p)) == p {
      Spec.Inverts(Mixing(x), x.k, p);
    }
    EcbInverts(e, d, text);
    EcbInverts(d, e, text);
  }
}
