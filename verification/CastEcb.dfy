/** The ECB block loops of CAST (cccast/src/cccast_ecb_encrypt_mode.c and
    cccast_ecb_decrypt_mode.c). */
module CastEcb {
  import opened Words
  import opened Blocks
  import opened Rfc2144
  import opened CastCipher

  /** One turn of the loop: load a block, encrypt it, store it. */
  method EcbEncryptBlock(s: Sboxes, key: CastKey, d: array<bv32>, input: array<bv8>, inp: nat,
                         output: array<bv8>, outp: nat)
    requires key.Valid() && d.Length == 2 && d != key.data
    requires inp + 8 <= input.Length && outp + 8 <= output.Length
    modifies d, output
    ensures output[..] == old(output[..outp])
                          + OnBytes(EncryptWith(s, key.Contents()))(old(input[inp..inp + 8]))
                          + old(output[outp + 8..])
  {
    hide EncryptWith, LoadBlock, StoreBlock, OnBytes;
    OnBytesIs(EncryptWith(s, key.Contents()), input[inp..inp + 8]);
    d[0], d[1] := Load(input, inp);
    CastEncrypt(s, d, key);
    Store(d[0], d[1], output, outp);
  }

  /** One turn of the loop, said of the whole buffers. */
  method EcbEncryptTurn(s: Sboxes, key: CastKey, d: array<bv32>, input: array<bv8>, inAt: nat, inp: nat,
                        output: array<bv8>, outAt: nat, outp: nat,
                        ghost src: seq<bv8>, ghost start: seq<bv8>, ghost done: nat)
    requires key.Valid() && d.Length == 2 && d != key.data
    requires EcbDone(EncryptWith(s, key.Contents()), src, start, input[..], inAt, output[..], outAt, done)
    requires 8 * (done + 1) <= |src| && inp == inAt + 8 * done && outp == outAt + 8 * done
    requires output.Length == |start| && WriteBehindRead(input == output, inAt, outAt, |src| / 8)
    modifies d, output
    ensures EcbDone(EncryptWith(s, key.Contents()), src, start, input[..], inAt, output[..], outAt, done + 1)
  {
    assert inp + 8 <= input.Length && outp + 8 <= output.Length;
    hide EcbDone, OnBytes, EncryptWith, WriteBehindRead;
    ghost var inNow, outNow := input[..], output[..];
    EcbEncryptBlock(s, key, d, input, inp, output, outp);
    EcbStep(EncryptWith(s, key.Contents()), src, start, inNow, inAt, outNow, outAt, done,
            input[..], output[..], input == output);
  }

  method EcbEncrypt(s: Sboxes, key: CastKey, nblocks: nat, input: array<bv8>, inAt: nat, output: array<bv8>, outAt: nat)
      returns (rc: int)
    requires key.Valid()
    requires inAt + 8 * nblocks <= input.Length && outAt + 8 * nblocks <= output.Length
    requires WriteBehindRead(input == output, inAt, outAt, nblocks)
    modifies output
    ensures rc == 0
    ensures output[..] == old(output[..outAt])
                          + Ecb(EncryptWith(s, key.Contents()), old(input[inAt..inAt + 8 * nblocks]))
                          + old(output[outAt + 8 * nblocks..])
  {
    hide EncryptWith, OnBytes, Ecb, EcbDone, WriteBehindRead;
    ghost var f := EncryptWith(s, key.Contents());
    ghost var src, start := input[inAt..inAt + 8 * nblocks], output[..];
    ghost var done := 0;
    EcbStart(f, input[..], inAt, start, outAt, nblocks);
    var d := new bv32[2];
    var left, inp, outp := nblocks, inAt, outAt;
    while left != 0
      invariant done + left == nblocks && inp == inAt + 8 * done && outp == outAt + 8 * done
      invariant fresh(d) && f == EncryptWith(s, key.Contents())
      invariant EcbDone(f, src, start, input[..], inAt, output[..], outAt, done)
    {
      left := left - 1;
      EcbEncryptTurn(s, key, d, input, inAt, inp, output, outAt, outp, src, start, done);
      inp := inp + 8;
      outp := outp + 8;
      done := done + 1;
    }
    EcbEnd(f, src, start, input[..], inAt, output[..], outAt, nblocks);
    return 0;
  }

  /** One turn of the loop: load a block, decrypt it, store it. */
  method EcbDecryptBlock(s: Sboxes, key: CastKey, d: array<bv32>, input: array<bv8>, inp: nat,
                         output: array<bv8>, outp: nat)
    requires key.Valid() && d.Length == 2 && d != key.data
    requires inp + 8 <= input.Length && outp + 8 <= output.Length
    modifies d, output
    ensures output[..] == old(output[..outp])
                          + OnBytes(DecryptWith(s, key.Contents()))(old(input[inp..inp + 8]))
                          + old(output[outp + 8..])
  {
    hide DecryptWith, LoadBlock, StoreBlock, OnBytes;
    OnBytesIs(DecryptWith(s, key.Contents()), input[inp..inp + 8]);
    d[0], d[1] := Load(input, inp);
    CastDecrypt(s, d, key);
    Store(d[0], d[1], output, outp);
  }

  /** One turn of the loop, said of the whole buffers. */
  method EcbDecryptTurn(s: Sboxes, key: CastKey, d: array<bv32>, input: array<bv8>, inAt: nat, inp: nat,
                        output: array<bv8>, outAt: nat, outp: nat,
                        ghost src: seq<bv8>, ghost start: seq<bv8>, ghost done: nat)
    requires key.Valid() && d.Length == 2 && d != key.data
    requires EcbDone(DecryptWith(s, key.Contents()), src, start, input[..], inAt, output[..], outAt, done)
    requires 8 * (done + 1) <= |src| && inp == inAt + 8 * done && outp == outAt + 8 * done
    requires output.Length == |start| && WriteBehindRead(input == output, inAt, outAt, |src| / 8)
    modifies d, output
    ensures EcbDone(DecryptWith(s, key.Contents()), src, start, input[..], inAt, output[..], outAt, done + 1)
  {
    assert inp + 8 <= input.Length && outp + 8 <= output.Length;
    hide EcbDone, OnBytes, DecryptWith, WriteBehindRead;
    ghost var inNow, outNow := input[..], output[..];
    EcbDecryptBlock(s, key, d, input, inp, output, outp);
    EcbStep(DecryptWith(s, key.Contents()), src, start, inNow, inAt, outNow, outAt, done,
            input[..], output[..], input == output);
  }

  method EcbDecrypt(s: Sboxes, key: CastKey, nblocks: nat, input: array<bv8>, inAt: nat, output: array<bv8>, outAt: nat)
      returns (rc: int)
    requires key.Valid()
    requires inAt + 8 * nblocks <= input.Length && outAt + 8 * nblocks <= output.Length
    requires WriteBehindRead(input == output, inAt, outAt, nblocks)
    modifies output
    ensures rc == 0
    ensures output[..] == old(output[..outAt])
                          + Ecb(DecryptWith(s, key.Contents()), old(input[inAt..inAt + 8 * nblocks]))
                          + old(output[outAt + 8 * nblocks..])
  {
    hide DecryptWith, OnBytes, Ecb, EcbDone, WriteBehindRead;
    ghost var f := DecryptWith(s, key.Contents());
    ghost var src, start := input[inAt..inAt + 8 * nblocks], output[..];
    ghost var done := 0;
    EcbStart(f, input[..], inAt, start, outAt, nblocks);
    var d := new bv32[2];
    var left, inp, outp := nblocks, inAt, outAt;
    while left != 0
      invariant done + left == nblocks && inp == inAt + 8 * done && outp == outAt + 8 * done
      invariant fresh(d) && f == DecryptWith(s, key.Contents())
      invariant EcbDone(f, src, start, input[..], inAt, output[..], outAt, done)
    {
      left := left - 1;
      EcbDecryptTurn(s, key, d, input, inAt, inp, output, outAt, outp, src, start, done);
      inp := inp + 8;
      outp := outp + 8;
      done := done + 1;
    }
    EcbEnd(f, src, start, input[..], inAt, output[..], outAt, nblocks);
    return 0;
  }

  /** Decrypting an encrypted buffer gives it back, and the other way round, for every key
      contents, every tables, and any number of blocks. */
  lemma EcbRoundTrip(s: Sboxes, k: KeyData, text: seq<bv8>)
    requires |k.words| == 32 && |text| % 8 == 0
    ensures |Ecb(EncryptWith(s, k), text)| == |text| && |Ecb(DecryptWith(s, k), text)| == |text|
    ensures Ecb(DecryptWith(s, k), Ecb(EncryptWith(s, k), text)) == text
    ensures Ecb(EncryptWith(s, k), Ecb(DecryptWith(s, k), text)) == text
  {
    var e, d := EncryptWith(s, k), DecryptWith(s, k);
    forall p: Block ensures d(e(p)) == p && e(d(p)) == p {
      CastInverts(s, k, p);
    }
    EcbInverts(e, d, text);
    EcbInverts(d, e, text);
  }
}
