/** The key schedule of CAST-128 as section 2.4 of RFC 2144 prints it: equations between numbered
    bytes x0..xF and z0..zF. The word-wise functions that the schedule is proved against are the
    solutions of these equations. */
module CastKeyEquations {
  import opened Words
  import opened Rfc2144
  import opened CastSchedule

  /** Bytes i to i + 3 as one big-endian word. */
  function Four(b: seq<bv8>, i: nat): bv32
    requires i + 4 <= |b|
  {
    LoadBe32(b[i..i + 4])
  }

  function Three(a: bv32, b: bv32, c: bv32): bv32 { a ^ b ^ c }

  /** The exclusive or of five look-ups. */
  function Sum(s: Sboxes, a: bv8, b: bv8, c: bv8, d: bv8, e: bv32): bv32 {
    Three(Three(s.s5(a), s.s6(b), s.s7(c)), s.s8(d), e)
  }

  function Line(w: bv32, s: Sboxes, a: bv8, b: bv8, c: bv8, d: bv8, e: bv32): bv32 {
    w ^ Sum(s, a, b, c, d, e)
  }

  /** The four equations that give z0..zF. */
  ghost predicate GivesZ(s: Sboxes, x: seq<bv8>, z: seq<bv8>) {
    && |x| == |z| == 16
    && Four(z, 0) == Line(Four(x, 0), s, x[0xD], x[0xF], x[0xC], x[0xE], s.s7(x[8]))
    && Four(z, 4) == Line(Four(x, 8), s, z[0], z[2], z[1], z[3], s.s8(x[0xA]))
    && Four(z, 8) == Line(Four(x, 0xC), s, z[7], z[6], z[5], z[4], s.s5(x[9]))
    && Four(z, 0xC) == Line(Four(x, 4), s, z[0xA], z[9], z[0xB], z[8], s.s6(x[0xB]))
  }

  /** The four equations that give x0..xF. */
  ghost predicate GivesX(s: Sboxes, z: seq<bv8>, x: seq<bv8>) {
    && |x| == |z| == 16
    && Four(x, 0) == Line(Four(z, 8), s, z[5], z[7], z[4], z[6], s.s7(z[0]))
    && Four(x, 4) == Line(Four(z, 0), s, x[0], x[2], x[1], x[3], s.s8(z[2]))
    && Four(x, 8) == Line(Four(z, 4), s, x[7], x[6], x[5], x[4], s.s5(z[1]))
    && Four(x, 0xC) == Line(Four(z, 0xC), s, x[0xA], x[9], x[0xB], x[8], s.s6(z[3]))
  }

  /** K1 to K4 from z. */
  ghost predicate GivesFirst(s: Sboxes, z: seq<bv8>, k: seq<bv32>) {
    && |z| == 16 && |k| == 4
    && k[0] == Sum(s, z[8], z[9], z[7], z[6], s.s5(z[2]))
    && k[1] == Sum(s, z[0xA], z[0xB], z[5], z[4], s.s6(z[6]))
    && k[2] == Sum(s, z[0xC], z[0xD], z[3], z[2], s.s7(z[9]))
    && k[3] == Sum(s, z[0xE], z[0xF], z[1], z[0], s.s8(z[0xC]))
  }

  /** K5 to K8 from x. */
  ghost predicate GivesSecond(s: Sboxes, x: seq<bv8>, k: seq<bv32>) {
    && |x| == 16 && |k| == 4
    && k[0] == Sum(s, x[3], x[2], x[0xC], x[0xD], s.s5(x[8]))
    && k[1] == Sum(s, x[1], x[0], x[0xE], x[0xF], s.s6(x[0xD]))
    && k[2] == Sum(s, x[7], x[6], x[8], x[9], s.s7(x[3]))
    && k[3] == Sum(s, x[5], x[4], x[0xA], x[0xB], s.s8(x[7]))
  }

  /** K9 to K12 from z. */
  ghost predicate GivesThird(s: Sboxes, z: seq<bv8>, k: seq<bv32>) {
    && |z| == 16 && |k| == 4
    && k[0] == Sum(s, z[3], z[2], z[0xC], z[0xD], s.s5(z[9]))
    && k[1] == Sum(s, z[1], z[0], z[0xE], z[0xF], s.s6(z[0xC]))
    && k[2] == Sum(s, z[7], z[6], z[8], z[9], s.s7(z[2]))
    && k[3] == Sum(s, z[5], z[4], z[0xA], z[0xB], s.s8(z[6]))
  }

  /** K13 to K16 from x. */
  ghost predicate GivesFourth(s: Sboxes, x: seq<bv8>, k: seq<bv32>) {
    && |x| == 16 && |k| == 4
    && k[0] == Sum(s, x[8], x[9], x[7], x[6], s.s5(x[3]))
    && k[1] == Sum(s, x[0xA], x[0xB], x[5], x[4], s.s6(x[7]))
    && k[2] == Sum(s, x[0xC], x[0xD], x[3], x[2], s.s7(x[8]))
    && k[3] == Sum(s, x[0xE], x[0xF], x[1], x[0], s.s8(x[0xD]))
  }

  /** The values and subkeys of one pass: K1 to K16, or K17 to K32. */
  datatype Values = Values(x0: seq<bv8>, z0: seq<bv8>, x1: seq<bv8>, z1: seq<bv8>, x2: seq<bv8>,
                           k0: seq<bv32>, k1: seq<bv32>, k2: seq<bv32>, k3: seq<bv32>)

  ghost predicate Solves(s: Sboxes, p: Values) {
    && GivesZ(s, p.x0, p.z0) && GivesFirst(s, p.z0, p.k0)
    && GivesX(s, p.z0, p.x1) && GivesSecond(s, p.x1, p.k1)
    && GivesZ(s, p.x1, p.z1) && GivesThird(s, p.z1, p.k2)
    && GivesX(s, p.z1, p.x2) && GivesFourth(s, p.x2, p.k3)
  }

  function Keys(p: Values): seq<bv32> { (p.k0 + p.k1) + (p.k2 + p.k3) }

  // The equations and the functions, look-up by look-up.

  lemma ThreeIs(a: bv32, b: bv32, c: bv32)
    ensures Three(a, b, c) == Xor(Xor(a, b), c)
  {
    assert Xor(a, b) == a ^ b;
    assert Xor(a ^ b, c) == a ^ b ^ c;
    hide Xor;
  }

  lemma SumIsMix(s: Sboxes, a: bv8, b: bv8, c: bv8, d: bv8, e: bv32)
    ensures Sum(s, a, b, c, d, e) == Mix(s, a, b, c, d, e)
  {
    ThreeIs(s.s5(a), s.s6(b), s.s7(c));
    ThreeIs(Three(s.s5(a), s.s6(b), s.s7(c)), s.s8(d), e);
    hide Three, Xor;
  }

  lemma LineIs(w: bv32, s: Sboxes, a: bv8, b: bv8, c: bv8, d: bv8, e: bv32)
    ensures Line(w, s, a, b, c, d, e) == Xor(w, Mix(s, a, b, c, d, e))
  {
    SumIsMix(s, a, b, c, d, e);
    hide Sum, Mix;
  }

  lemma ByteOfFour(b: seq<bv8>, i: nat, j: nat)
    requires i + 4 <= |b| && j < 4
    ensures WordByte(Four(b, i), j) == b[i + j]
  {
    StoreLoadBe32(b[i..i + 4]);
    hide LoadBe32, StoreBe32;
  }

  /** The bytes of a key are the bytes of the four-word value made from it. */
  lemma QuadOf(b: seq<bv8>)
    requires |b| == 16
    ensures KeyQuad(b) == Quad(Four(b, 0), Four(b, 4), Four(b, 8), Four(b, 12))
    ensures forall i | 0 <= i < 16 :: QuadByte(KeyQuad(b), i) == b[i]
  {
    assert b[0..4] == b[..4] && b[12..16] == b[12..];
    hide LoadBe32;
    forall i | 0 <= i < 16 ensures QuadByte(KeyQuad(b), i) == b[i] {
      ByteOfQuad(b, i);
      hide QuadByte, KeyQuad;
    }
  }

  lemma ByteOfQuad(b: seq<bv8>, i: nat)
    requires |b| == 16 && i < 16
    requires KeyQuad(b) == Quad(Four(b, 0), Four(b, 4), Four(b, 8), Four(b, 12))
    ensures QuadByte(KeyQuad(b), i) == b[i]
  {
    var q := KeyQuad(b);
    hide WordByte, Four, KeyQuad;
    var n, j := i / 4 * 4, i % 4;
    assert i == n + j;
    assert QuadWord(q, i / 4) == Four(b, n);
    ByteOfFour(b, n, j);
  }

  // So the solutions of the equations are the values of the functions.

  lemma ZLines(s: Sboxes, x: seq<bv8>, z: seq<bv8>)
    requires |x| == |z| == 16
    ensures GivesZ(s, x, z) <==>
            && Four(z, 0) == Xor(Four(x, 0), Mix(s, x[13], x[15], x[12], x[14], s.s7(x[8])))
            && Four(z, 4) == Xor(Four(x, 8), Mix(s, z[0], z[2], z[1], z[3], s.s8(x[10])))
            && Four(z, 8) == Xor(Four(x, 12), Mix(s, z[7], z[6], z[5], z[4], s.s5(x[9])))
            && Four(z, 12) == Xor(Four(x, 4), Mix(s, z[10], z[9], z[11], z[8], s.s6(x[11])))
  {
    LineIs(Four(x, 0), s, x[13], x[15], x[12], x[14], s.s7(x[8]));
    LineIs(Four(x, 8), s, z[0], z[2], z[1], z[3], s.s8(x[10]));
    LineIs(Four(x, 12), s, z[7], z[6], z[5], z[4], s.s5(x[9]));
    LineIs(Four(x, 4), s, z[10], z[9], z[11], z[8], s.s6(x[11]));
    hide Four, Line, Mix, Xor;
  }

  lemma ZInFull(s: Sboxes, x: seq<bv8>, z: seq<bv8>)
    requires |x| == |z| == 16
    ensures GivesZ(s, x, z) <==> KeyQuad(z) == NextZ(s, KeyQuad(x))
  {
    var q, r := KeyQuad(x), KeyQuad(z);
    QuadOf(x);
    QuadOf(z);
    ZLines(s, x, z);
    hide KeyQuad, Four, Line, Mix, Xor, WordByte;
  }

  lemma XLines(s: Sboxes, z: seq<bv8>, x: seq<bv8>)
    requires |x| == |z| == 16
    ensures GivesX(s, z, x) <==>
            && Four(x, 0) == Xor(Four(z, 8), Mix(s, z[5], z[7], z[4], z[6], s.s7(z[0])))
            && Four(x, 4) == Xor(Four(z, 0), Mix(s, x[0], x[2], x[1], x[3], s.s8(z[2])))
            && Four(x, 8) == Xor(Four(z, 4), Mix(s, x[7], x[6], x[5], x[4], s.s5(z[1])))
            && Four(x, 12) == Xor(Four(z, 12), Mix(s, x[10], x[9], x[11], x[8], s.s6(z[3])))
  {
    LineIs(Four(z, 8), s, z[5], z[7], z[4], z[6], s.s7(z[0]));
    LineIs(Four(z, 0), s, x[0], x[2], x[1], x[3], s.s8(z[2]));
    LineIs(Four(z, 4), s, x[7], x[6], x[5], x[4], s.s5(z[1]));
    LineIs(Four(z, 12), s, x[10], x[9], x[11], x[8], s.s6(z[3]));
    hide Four, Line, Mix, Xor;
  }

  lemma XInFull(s: Sboxes, z: seq<bv8>, x: seq<bv8>)
    requires |x| == |z| == 16
    ensures GivesX(s, z, x) <==> KeyQuad(x) == NextX(s, KeyQuad(z))
  {
    var q, r := KeyQuad(z), KeyQuad(x);
    QuadOf(z);
    QuadOf(x);
    XLines(s, z, x);
    hide KeyQuad, Four, Line, Mix, Xor, WordByte;
  }

  lemma SumsAreMixes(s: Sboxes)
    ensures forall a, b, c, d, e :: Sum(s, a, b, c, d, e) == Mix(s, a, b, c, d, e)
  {
    forall a, b, c, d, e ensures Sum(s, a, b, c, d, e) == Mix(s, a, b, c, d, e) {
      SumIsMix(s, a, b, c, d, e);
    }
  }

  lemma FirstInFull(s: Sboxes, b: seq<bv8>, k: seq<bv32>)
    requires |b| == 16 && |k| == 4
    ensures GivesFirst(s, b, k) <==> k == ReadDown(s, KeyQuad(b), (2, 6, 9, 12))
  {
    QuadOf(b);
    SumsAreMixes(s);
    hide Sum, Mix, QuadByte, KeyQuad;
  }

  lemma SecondInFull(s: Sboxes, b: seq<bv8>, k: seq<bv32>)
    requires |b| == 16 && |k| == 4
    ensures GivesSecond(s, b, k) <==> k == ReadUp(s, KeyQuad(b), (8, 13, 3, 7))
  {
    QuadOf(b);
    SumsAreMixes(s);
    hide Sum, Mix, QuadByte, KeyQuad;
  }

  lemma ThirdInFull(s: Sboxes, b: seq<bv8>, k: seq<bv32>)
    requires |b| == 16 && |k| == 4
    ensures GivesThird(s, b, k) <==> k == ReadUp(s, KeyQuad(b), (9, 12, 2, 6))
  {
    QuadOf(b);
    SumsAreMixes(s);
    hide Sum, Mix, QuadByte, KeyQuad;
  }

  lemma FourthInFull(s: Sboxes, b: seq<bv8>, k: seq<bv32>)
    requires |b| == 16 && |k| == 4
    ensures GivesFourth(s, b, k) <==> k == ReadDown(s, KeyQuad(b), (3, 7, 8, 13))
  {
    QuadOf(b);
    SumsAreMixes(s);
    hide Sum, Mix, QuadByte, KeyQuad;
  }

  lemma PassInFull(s: Sboxes, p: Values)
    requires Solves(s, p)
    ensures |p.x0| == |p.x2| == 16
    ensures Keys(p) == PassKeys(s, KeyQuad(p.x0)) && KeyQuad(p.x2) == NextPass(s, KeyQuad(p.x0))
  {
    ZInFull(s, p.x0, p.z0);
    FirstInFull(s, p.z0, p.k0);
    XInFull(s, p.z0, p.x1);
    SecondInFull(s, p.x1, p.k1);
    ZInFull(s, p.x1, p.z1);
    ThirdInFull(s, p.z1, p.k2);
    XInFull(s, p.z1, p.x2);
    FourthInFull(s, p.x2, p.k3);
    hide KeyQuad, GivesZ, GivesX, GivesFirst, GivesSecond, GivesThird, GivesFourth;
    hide NextZ, NextX, ReadDown, ReadUp;
  }

  /** The sixteen bytes that the schedule starts from: the key's first ones, then zeros. */
  ghost predicate StartsFrom(x: seq<bv8>, key: seq<bv8>) {
    |x| == 16 && forall i | 0 <= i < 16 :: x[i] == if i < |key| then key[i] else 0
  }

  lemma Padded(x: seq<bv8>, key: seq<bv8>)
    ensures StartsFrom(x, key) <==> x == PadKey(UsedKey(key))
  {
    var r := PadKey(UsedKey(key));
    forall i | 0 <= i < 16 ensures r[i] == if i < |key| then key[i] else 0 {
    }
    if StartsFrom(x, key) {
      assert x == r;
    }
  }

  /** Whatever values and subkeys solve the printed equations from a key on, twice around, the
      masking keys of the schedule are K1 to K16 and its rotate keys are K17 to K32. */
  lemma ScheduleInFull(s: Sboxes, key: seq<bv8>, p: Values, q: Values)
    requires |key| <= 16 && StartsFrom(p.x0, key) && q.x0 == p.x2
    requires Solves(s, p) && Solves(s, q)
    ensures Schedule(s, PadKey(key)) == Subkeys(Keys(p), Keys(q))
  {
    assert UsedKey(key) == key;
    Padded(p.x0, key);
    PassInFull(s, p);
    PassInFull(s, q);
    hide Solves, StartsFrom, PadKey, UsedKey, Keys, KeyQuad, PassKeys, NextPass;
  }

  lemma StoredSchedule(words: seq<bv32>, s: Sboxes, key: seq<bv8>, p: Values, q: Values)
    requires StartsFrom(p.x0, key) && q.x0 == p.x2
    requires Solves(s, p) && Solves(s, q) && KeyedBy(words, s, key)
    ensures |Keys(p)| == |Keys(q)| == 16 && Stores(words, Subkeys(Keys(p), Keys(q)))
  {
    Padded(p.x0, key);
    PassInFull(s, p);
    PassInFull(s, q);
    hide Solves, StartsFrom, PadKey, UsedKey, Keys, KeyQuad, PassKeys, NextPass, Stores;
  }

  /** What CAST_set_key leaves in the key array for a key of any length: K1 to K16 at the even
      places, and at the odd ones the low five bits of K17 to K32 after 16 is added. */
  lemma StoredInFull(words: seq<bv32>, s: Sboxes, key: seq<bv8>, p: Values, q: Values, i: nat)
    requires StartsFrom(p.x0, key) && q.x0 == p.x2 && i < 16
    requires Solves(s, p) && Solves(s, q) && KeyedBy(words, s, key)
    ensures |words| == 32 && |Keys(p)| == |Keys(q)| == 16
    ensures words[2 * i] == Keys(p)[i] && words[2 * i + 1] == (Keys(q)[i] + 16) & 0x1f
  {
    StoredSchedule(words, s, key, p, q);
    hide Solves, StartsFrom, Keys, KeyedBy;
  }

  // There is always a solution: the bytes of the words that the functions give.

  function Flat(q: Quad): (b: seq<bv8>)
    ensures |b| == 16
  {
    StoreBe32(q.w0) + StoreBe32(q.w1) + StoreBe32(q.w2) + StoreBe32(q.w3)
  }

  lemma QuadOfFlat(q: Quad)
    ensures KeyQuad(Flat(q)) == q
  {
    LoadStoreBe32(q.w0);
    LoadStoreBe32(q.w1);
    LoadStoreBe32(q.w2);
    LoadStoreBe32(q.w3);
    hide StoreBe32, LoadBe32;
    var b := Flat(q);
    assert b[..4] == StoreBe32(q.w0) && b[4..8] == StoreBe32(q.w1);
    assert b[8..12] == StoreBe32(q.w2) && b[12..] == StoreBe32(q.w3);
  }

  lemma PassExists(s: Sboxes, x: seq<bv8>) returns (p: Values)
    requires |x| == 16
    ensures Solves(s, p) && p.x0 == x && |p.x2| == 16
  {
    var q1 := NextZ(s, KeyQuad(x));
    var q2 := NextX(s, q1);
    var q3 := NextZ(s, q2);
    var q4 := NextX(s, q3);
    p := Values(x, Flat(q1), Flat(q2), Flat(q3), Flat(q4),
                ReadDown(s, q1, (2, 6, 9, 12)), ReadUp(s, q2, (8, 13, 3, 7)),
                ReadUp(s, q3, (9, 12, 2, 6)), ReadDown(s, q4, (3, 7, 8, 13)));
    QuadOfFlat(q1);
    QuadOfFlat(q2);
    QuadOfFlat(q3);
    QuadOfFlat(q4);
    ZInFull(s, p.x0, p.z0);
    FirstInFull(s, p.z0, p.k0);
    XInFull(s, p.z0, p.x1);
    SecondInFull(s, p.x1, p.k1);
    ZInFull(s, p.x1, p.z1);
    ThirdInFull(s, p.z1, p.k2);
    XInFull(s, p.z1, p.x2);
    FourthInFull(s, p.x2, p.k3);
    hide KeyQuad, Flat, GivesZ, GivesX, GivesFirst, GivesSecond, GivesThird, GivesFourth;
    hide NextZ, NextX, ReadDown, ReadUp;
  }

  /** Every key has values and subkeys that solve the equations. */
  lemma ScheduleExists(s: Sboxes, key: seq<bv8>) returns (p: Values, q: Values)
    ensures StartsFrom(p.x0, key) && q.x0 == p.x2
    ensures Solves(s, p) && Solves(s, q)
  {
    var x := PadKey(UsedKey(key));
    Padded(x, key);
    hide StartsFrom, PadKey, UsedKey, Solves;
    p := PassExists(s, x);
    q := PassExists(s, p.x2);
  }
}
