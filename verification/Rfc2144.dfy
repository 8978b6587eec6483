/** CAST-128 as RFC 2144 defines it: sections 2.1 to 2.5. Words are big-endian; the byte
    subscripts a..d of section 2.2 run from the most to the least significant byte. */
module Rfc2144 {
  import opened Words
  import opened Blocks
  import Feistel

  /** The eight S-boxes of the appendix, kept as arbitrary tables. */
  datatype Sboxes = Sboxes(
    s1: bv8 -> bv32, s2: bv8 -> bv32, s3: bv8 -> bv32, s4: bv8 -> bv32,
    s5: bv8 -> bv32, s6: bv8 -> bv32, s7: bv8 -> bv32, s8: bv8 -> bv32)

  /** The sixteen masking keys and sixteen rotate keys, before rotate keys are cut to five
      bits. */
  datatype Subkeys = Subkeys(masking: seq<bv32>, rotate: seq<bv32>)

  predicate ValidSubkeys(k: Subkeys) { |k.masking| == 16 && |k.rotate| == 16 }

  // Section 2.2: the three round functions.

  function F1(s: Sboxes, km: bv32, kr: bv32, d: bv32): bv32 {
    var i := Rol(Add(km, d), kr & 0x1f);
    Add(Sub(Xor(s.s1(ByteAt(i, 24)), s.s2(ByteAt(i, 16))), s.s3(ByteAt(i, 8))), s.s4(ByteAt(i, 0)))
  }

  function F2(s: Sboxes, km: bv32, kr: bv32, d: bv32): bv32 {
    var i := Rol(Xor(km, d), kr & 0x1f);
    Xor(Add(Sub(s.s1(ByteAt(i, 24)), s.s2(ByteAt(i, 16))), s.s3(ByteAt(i, 8))), s.s4(ByteAt(i, 0)))
  }

  function F3(s: Sboxes, km: bv32, kr: bv32, d: bv32): bv32 {
    var i := Rol(Sub(km, d), kr & 0x1f);
    Sub(Xor(Add(s.s1(ByteAt(i, 24)), s.s2(ByteAt(i, 16))), s.s3(ByteAt(i, 8))), s.s4(ByteAt(i, 0)))
  }

  /** Rounds 1, 4, 7, ... use F1; 2, 5, 8, ... use F2; 3, 6, 9, ... use F3. Rounds are
      numbered from 0 here. */
  function RoundFn(s: Sboxes, k: Subkeys): Feistel.RoundFn
    requires ValidSubkeys(k)
  {
    (i: nat, d: bv32) =>
      if i >= 16 then 0
      else if i % 3 == 0 then F1(s, k.masking[i], k.rotate[i], d)
      else if i % 3 == 1 then F2(s, k.masking[i], k.rotate[i], d)
      else F3(s, k.masking[i], k.rotate[i], d)
  }

  /** Section 2.5: keys of at most 80 bits use 12 rounds. */
  function RoundCount(keyLen: nat): nat { if keyLen <= 10 then 12 else 16 }

  /** Section 2.5: short keys are padded with zero bytes in the least significant positions. */
  function PadKey(key: seq<bv8>): (r: seq<bv8>)
    requires |key| <= 16
    ensures |r| == 16
  {
    key + seq(16 - |key|, _ => 0)
  }

  // Section 2.4: the key schedule, on four-word values x and z.

  datatype Quad = Quad(w0: bv32, w1: bv32, w2: bv32, w3: bv32)

  function QuadWord(q: Quad, j: nat): bv32
    requires j < 4
  {
    if j == 0 then q.w0 else if j == 1 then q.w1 else if j == 2 then q.w2 else q.w3
  }

  /** Byte `i` of a word, byte 0 being the most significant. */
  function WordByte(w: bv32, i: nat): bv8
    requires i < 4
  {
    StoreBe32(w)[i]
  }

  /** Byte `i` of a four-word value. */
  function QuadByte(q: Quad, i: nat): bv8
    requires i < 16
  {
    WordByte(QuadWord(q, i / 4), i % 4)
  }

  /** The shape of all schedule equations: one look-up in each of S5 to S8 and a fifth one. */
  function Mix(s: Sboxes, a: bv8, b: bv8, c: bv8, d: bv8, fifth: bv32): bv32 {
    Xor(Xor(Xor(Xor(s.s5(a), s.s6(b)), s.s7(c)), s.s8(d)), fifth)
  }

  /** z0..zF from x0..xF. Each line uses the bytes of the word made just before it. */
  function NextZ(s: Sboxes, x: Quad): Quad {
    var w0 := Xor(x.w0,
                  Mix(s, QuadByte(x, 13), QuadByte(x, 15), QuadByte(x, 12), QuadByte(x, 14), s.s7(QuadByte(x, 8))));
    var w1 := Xor(x.w2,
                  Mix(s, WordByte(w0, 0), WordByte(w0, 2), WordByte(w0, 1), WordByte(w0, 3), s.s8(QuadByte(x, 10))));
    var w2 := Xor(x.w3,
                  Mix(s, WordByte(w1, 3), WordByte(w1, 2), WordByte(w1, 1), WordByte(w1, 0), s.s5(QuadByte(x, 9))));
    var w3 := Xor(x.w1,
                  Mix(s, WordByte(w2, 2), WordByte(w2, 1), WordByte(w2, 3), WordByte(w2, 0), s.s6(QuadByte(x, 11))));
    Quad(w0, w1, w2, w3)
  }

  /** x0..xF from z0..zF. */
  function NextX(s: Sboxes, z: Quad): Quad {
    var w0 := Xor(z.w2, Mix(s, QuadByte(z, 5), QuadByte(z, 7), QuadByte(z, 4), QuadByte(z, 6), s.s7(QuadByte(z, 0))));
    var w1 := Xor(z.w0,
                  Mix(s, WordByte(w0, 0), WordByte(w0, 2), WordByte(w0, 1), WordByte(w0, 3), s.s8(QuadByte(z, 2))));
    var w2 := Xor(z.w1,
                  Mix(s, WordByte(w1, 3), WordByte(w1, 2), WordByte(w1, 1), WordByte(w1, 0), s.s5(QuadByte(z, 1))));
    var w3 := Xor(z.w3,
                  Mix(s, WordByte(w2, 2), WordByte(w2, 1), WordByte(w2, 3), WordByte(w2, 0), s.s6(QuadByte(z, 3))));
    Quad(w0, w1, w2, w3)
  }

  // Four consecutive subkeys are read off z or x with one of two index patterns. In the
  // second pattern the upper and lower halves of the value trade places.

  /** K1..K4 (from z) and K13..K16 (from x): the fifth byte varies. */
  function ReadDown(s: Sboxes, q: Quad, e: (nat, nat, nat, nat)): (k: seq<bv32>)
    requires e.0 < 16 && e.1 < 16 && e.2 < 16 && e.3 < 16
    ensures |k| == 4
  {
    [ Mix(s, QuadByte(q, 8), QuadByte(q, 9), QuadByte(q, 7), QuadByte(q, 6), s.s5(QuadByte(q, e.0))),
      Mix(s, QuadByte(q, 10), QuadByte(q, 11), QuadByte(q, 5), QuadByte(q, 4), s.s6(QuadByte(q, e.1))),
      Mix(s, QuadByte(q, 12), QuadByte(q, 13), QuadByte(q, 3), QuadByte(q, 2), s.s7(QuadByte(q, e.2))),
      Mix(s, QuadByte(q, 14), QuadByte(q, 15), QuadByte(q, 1), QuadByte(q, 0), s.s8(QuadByte(q, e.3))) ]
  }

  /** K5..K8 (from x) and K9..K12 (from z). */
  function ReadUp(s: Sboxes, q: Quad, e: (nat, nat, nat, nat)): (k: seq<bv32>)
    requires e.0 < 16 && e.1 < 16 && e.2 < 16 && e.3 < 16
    ensures |k| == 4
  {
    [ Mix(s, QuadByte(q, 3), QuadByte(q, 2), QuadByte(q, 12), QuadByte(q, 13), s.s5(QuadByte(q, e.0))),
      Mix(s, QuadByte(q, 1), QuadByte(q, 0), QuadByte(q, 14), QuadByte(q, 15), s.s6(QuadByte(q, e.1))),
      Mix(s, QuadByte(q, 7), QuadByte(q, 6), QuadByte(q, 8), QuadByte(q, 9), s.s7(QuadByte(q, e.2))),
      Mix(s, QuadByte(q, 5), QuadByte(q, 4), QuadByte(q, 10), QuadByte(q, 11), s.s8(QuadByte(q, e.3))) ]
  }

  /** The value x after one pass of sixteen subkeys. */
  function NextPass(s: Sboxes, x: Quad): Quad {
    NextX(s, NextZ(s, NextX(s, NextZ(s, x))))
  }

  /** K1..K8, or K17..K24, from the value x. */
  function FirstKeys(s: Sboxes, x: Quad): (k: seq<bv32>)
    ensures |k| == 8
  {
    var z := NextZ(s, x);
    ReadDown(s, z, (2, 6, 9, 12)) + ReadUp(s, NextX(s, z), (8, 13, 3, 7))
  }

  /** K9..K16, or K25..K32. */
  function SecondKeys(s: Sboxes, x: Quad): (k: seq<bv32>)
    ensures |k| == 8
  {
    var z := NextZ(s, x);
    ReadUp(s, z, (9, 12, 2, 6)) + ReadDown(s, NextX(s, z), (3, 7, 8, 13))
  }

  /** Sixteen subkeys from the value x. */
  function PassKeys(s: Sboxes, x: Quad): (k: seq<bv32>)
    ensures |k| == 16
  {
    FirstKeys(s, x) + SecondKeys(s, NextX(s, NextZ(s, x)))
  }

  function KeyQuad(key: seq<bv8>): Quad
    requires |key| == 16
  {
    Quad(LoadBe32(key[..4]), LoadBe32(key[4..8]), LoadBe32(key[8..12]), LoadBe32(key[12..]))
  }

  /** Section 2.4: Km1..Km16 are K1..K16; Kr1..Kr16 are K17..K32. */
  function Schedule(s: Sboxes, key: seq<bv8>): (k: Subkeys)
    requires |key| == 16
    ensures ValidSubkeys(k)
  {
    var x := KeyQuad(key);
    Subkeys(PassKeys(s, x), PassKeys(s, NextPass(s, x)))
  }

  function Encrypt(s: Sboxes, key: seq<bv8>, p: Block): Block
    requires |key| <= 16
  {
    Feistel.Encrypt(RoundFn(s, Schedule(s, PadKey(key))), RoundCount(|key|), p)
  }

  /** Section 2.3: decryption uses the subkey pairs in reverse order. */
  function Decrypt(s: Sboxes, key: seq<bv8>, p: Block): Block
    requires |key| <= 16
  {
    Feistel.Decrypt(RoundFn(s, Schedule(s, PadKey(key))), RoundCount(|key|), p)
  }
}
