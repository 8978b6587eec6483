/** What the CAST key schedule, the round step and the unrolled cipher mean together. */
module CastTheorems {
  import opened Words
  import opened Blocks
  import opened Rfc2144
  import opened CastCipher
  import opened CastEcb
  import opened CastSchedule
  import Feistel

  /** The 16 added in the schedule and the 16 hidden in the byte order of E_CAST cancel. */
  lemma StoredAmountCancels(r: bv32)
    ensures (((r + 16) & 0x1f) + 16) & 0x1f == r & 0x1f
  {
  }

  /** Every stored rotate amount is below 32. */
  lemma StoredRotatesAreSmall(words: seq<bv32>, sub: Subkeys, i: nat)
    requires ValidSubkeys(sub) && Stores(words, sub) && i < 16
    ensures words[2 * i + 1] < 32
  {
    assert words[2 * i + 1] == (sub.rotate[i] + 16) & 0x1f;
  }

  /** Only the low five bits of a rotate key matter. */
  lemma OnlyFiveBits(s: Sboxes, km: bv32, a: bv32, b: bv32, d: bv32)
    requires a & 0x1f == b & 0x1f
    ensures F1(s, km, a, d) == F1(s, km, b, d)
    ensures F2(s, km, a, d) == F2(s, km, b, d)
    ensures F3(s, km, a, d) == F3(s, km, b, d)
  {
    hide Add, Sub, Xor, Rol, ByteAt;
  }

  lemma StoredRound(s: Sboxes, words: seq<bv32>, sub: Subkeys, i: nat, d: bv32)
    requires ValidSubkeys(sub) && Stores(words, sub)
    ensures RoundFn(s, StoredSubkeys(words))(i, d) == RoundFn(s, sub)(i, d)
  {
    hide F1, F2, F3;
    if i < 16 {
      var a := StoredSubkeys(words).rotate[i];
      assert a == words[2 * i + 1] + 16;
      StoredAmountCancels(sub.rotate[i]);
      OnlyFiveBits(s, sub.masking[i], a, sub.rotate[i], d);
    }
  }

  /** Under the key that CAST_set_key stores, CAST_encrypt and CAST_decrypt are RFC 2144, for
      every key, every tables and every block. Bytes past the sixteenth are ignored. */
  lemma CastIsRfc2144(s: Sboxes, key: seq<bv8>, words: seq<bv32>, p: Block)
    requires KeyedBy(words, s, key)
    ensures var k := KeyData(words, |key| <= 10);
            && EncryptWith(s, k)(p) == Rfc2144.Encrypt(s, UsedKey(key), p)
            && DecryptWith(s, k)(p) == Rfc2144.Decrypt(s, UsedKey(key), p)
  {
    var sub := Schedule(s, PadKey(UsedKey(key)));
    var f, g := RoundFn(s, StoredSubkeys(words)), RoundFn(s, sub);
    forall i: nat, x: bv32 ensures f(i, x) == g(i, x) {
      StoredRound(s, words, sub, i, x);
    }
    Feistel.SameRounds(f, g, RoundCount(|UsedKey(key)|), p);
  }

  /** RFC 2144 under a caller's key, as a block map. */
  function RfcEncrypt(s: Sboxes, key: seq<bv8>): Block -> Block {
    (p: Block) => Rfc2144.Encrypt(s, UsedKey(key), p)
  }

  function RfcDecrypt(s: Sboxes, key: seq<bv8>): Block -> Block {
    (p: Block) => Rfc2144.Decrypt(s, UsedKey(key), p)
  }

  /** The same for any number of blocks. */
  lemma EcbIsRfc2144(s: Sboxes, key: seq<bv8>, words: seq<bv32>, text: seq<bv8>)
    requires KeyedBy(words, s, key) && |text| % 8 == 0
    ensures var k := KeyData(words, |key| <= 10);
            && Ecb(EncryptWith(s, k), text) == Ecb(RfcEncrypt(s, key), text)
            && Ecb(DecryptWith(s, k), text) == Ecb(RfcDecrypt(s, key), text)
  {
    var k := KeyData(words, |key| <= 10);
    forall p: Block
      ensures EncryptWith(s, k)(p) == RfcEncrypt(s, key)(p) && DecryptWith(s, k)(p) == RfcDecrypt(s, key)(p)
    {
      CastIsRfc2144(s, key, words, p);
    }
    EcbPointwise(EncryptWith(s, k), RfcEncrypt(s, key), text);
    EcbPointwise(DecryptWith(s, k), RfcDecrypt(s, key), text);
  }

  /** A fresh key object, set up by cccast_setup; `text` is what it will be used on. */
  method Keyed(s: Sboxes, rawkey: array<bv8>, keyLen: nat, ghost text: seq<bv8>) returns (key: CastKey)
    requires keyLen <= rawkey.Length && |text| % 8 == 0
    ensures key.Valid() && fresh(key) && fresh(key.data)
    ensures Ecb(EncryptWith(s, key.Contents()), text) == Ecb(RfcEncrypt(s, rawkey[..keyLen]), text)
    ensures Ecb(DecryptWith(s, key.Contents()), text) == Ecb(RfcDecrypt(s, rawkey[..keyLen]), text)
  {
    hide EncryptWith, DecryptWith, RfcEncrypt, RfcDecrypt, Ecb, KeyedBy;
    key := new CastKey();
    SetKey(s, key, keyLen, rawkey);
    assert |rawkey[..keyLen]| == keyLen;
    assert key.Contents() == KeyData(key.data[..], keyLen <= 10);
    hide *;
    EcbIsRfc2144(s, rawkey[..keyLen], key.data[..], text);
  }

  /** ccecb_one_shot in encryption mode: set the key up and encrypt. The output range becomes the
      RFC 2144 encryption of the input range, block by block; nothing else changes. */
  method OneShotEncrypt(s: Sboxes, rawkey: array<bv8>, keyLen: nat, nblocks: nat,
                        input: array<bv8>, inAt: nat, output: array<bv8>, outAt: nat)
    requires keyLen <= rawkey.Length
    requires inAt + 8 * nblocks <= input.Length && outAt + 8 * nblocks <= output.Length
    requires WriteBehindRead(input == output, inAt, outAt, nblocks)
    modifies output
    ensures output[..] == old(output[..outAt])
                          + Ecb(RfcEncrypt(s, old(rawkey[..keyLen])), old(input[inAt..inAt + 8 * nblocks]))
                          + old(output[outAt + 8 * nblocks..])
  {
    ghost var raw, src := rawkey[..keyLen], input[inAt..inAt + 8 * nblocks];
    assert |src| % 8 == 0;
    hide *;
    var key := Keyed(s, rawkey, keyLen, src);
    var rc := EcbEncrypt(s, key, nblocks, input, inAt, output, outAt);
  }

  /** ccecb_one_shot in decryption mode. */
  method OneShotDecrypt(s: Sboxes, rawkey: array<bv8>, keyLen: nat, nblocks: nat,
                        input: array<bv8>, inAt: nat, output: array<bv8>, outAt: nat)
    requires keyLen <= rawkey.Length
    requires inAt + 8 * nblocks <= input.Length && outAt + 8 * nblocks <= output.Length
    requires WriteBehindRead(input == output, inAt, outAt, nblocks)
    modifies output
    ensures output[..] == old(output[..outAt])
                          + Ecb(RfcDecrypt(s, old(rawkey[..keyLen])), old(input[inAt..inAt + 8 * nblocks]))
                          + old(output[outAt + 8 * nblocks..])
  {
    ghost var raw, src := rawkey[..keyLen], input[inAt..inAt + 8 * nblocks];
    assert |src| % 8 == 0;
    hide *;
    var key := Keyed(s, rawkey, keyLen, src);
    var rc := EcbDecrypt(s, key, nblocks, input, inAt, output, outAt);
  }

  function Zeros(n: nat): (z: seq<bv8>)
    ensures |z| == n && forall i | 0 <= i < n :: z[i] == 0
  {
    if n == 0 then [] else Zeros(n - 1) + [0]
  }

  lemma PaddedTwice(key: seq<bv8>, zeros: nat)
    requires |key| + zeros <= 16
    ensures PadKey(key + Zeros(zeros)) == PadKey(key)
  {
    var a, b := PadKey(key + Zeros(zeros)), PadKey(key);
    assert forall i | 0 <= i < 16 :: a[i] == b[i];
  }

  /** A stored schedule is determined by the schedule. */
  lemma StoredWordsAreUnique(a: seq<bv32>, b: seq<bv32>, sub: Subkeys)
    requires ValidSubkeys(sub) && Stores(a, sub) && Stores(b, sub)
    ensures a == b
  {
    forall i | 0 <= i < 32 ensures a[i] == b[i] {
      var j := i / 2;
      assert a[2 * j] == b[2 * j] && a[2 * j + 1] == b[2 * j + 1];
    }
  }

  /** Section 2.5: a key and the key with zero bytes appended are the same key as long as both
      are on the same side of the 80-bit limit: CAST_set_key stores the same words and the same
      flag for them. */
  lemma ZeroPaddingStoresTheSame(s: Sboxes, key: seq<bv8>, zeros: nat, a: seq<bv32>, b: seq<bv32>)
    requires |key| + zeros <= 16
    requires |key| + zeros <= 10 || |key| > 10
    requires KeyedBy(a, s, key) && KeyedBy(b, s, key + Zeros(zeros))
    ensures KeyData(a, |key| <= 10) == KeyData(b, |key + Zeros(zeros)| <= 10)
  {
    PaddedTwice(key, zeros);
    hide Schedule, PadKey, Stores, Zeros;
    StoredWordsAreUnique(a, b, Schedule(s, PadKey(key)));
  }

  /** And the standard's cipher is the same. */
  lemma ZeroPaddingChangesNothing(s: Sboxes, key: seq<bv8>, zeros: nat, p: Block)
    requires |key| + zeros <= 16
    requires |key| + zeros <= 10 || |key| > 10
    ensures Rfc2144.Encrypt(s, key + Zeros(zeros), p) == Rfc2144.Encrypt(s, key, p)
    ensures Rfc2144.Decrypt(s, key + Zeros(zeros), p) == Rfc2144.Decrypt(s, key, p)
  {
    PaddedTwice(key, zeros);
    hide Schedule, RoundFn, PadKey, Zeros;
  }
}
