/** CAST-128 written out in C's own operators: the round macro, the round functions of section
    2.2 of RFC 2144, and the recurrence of section 2.1 on the halves of a block. The functions
    that the rest of the model uses are held to these. */
module CastEquations {
  import opened Words
  import opened Blocks
  import opened Rfc2144
  import opened CastCipher
  import opened CastSchedule
  import Feistel

  /** The byte of a word that starts at bit `shift`. */
  function ByteOf(t: bv32, shift: bv32): bv8
    requires shift <= 24
  {
    ((t >> shift) & 0xff) as bv8
  }

  /** How round i combines its masking key with a half. */
  function Keyed(i: nat, km: bv32, d: bv32): bv32 {
    if i % 3 == 0 then km + d else if i % 3 == 1 then km ^ d else km - d
  }

  // How the three types of round combine their four look-ups.

  function First(a: bv32, b: bv32, c: bv32, d: bv32): bv32 { ((a ^ b) - c) + d }

  function Second(a: bv32, b: bv32, c: bv32, d: bv32): bv32 { ((a - b) + c) ^ d }

  function Third(a: bv32, b: bv32, c: bv32, d: bv32): bv32 { ((a + b) ^ c) - d }

  function Combined(i: nat, a: bv32, b: bv32, c: bv32, d: bv32): bv32 {
    if i % 3 == 0 then First(a, b, c, d) else if i % 3 == 1 then Second(a, b, c, d) else Third(a, b, c, d)
  }

  /** What E_CAST xors into L. */
  function MacroStep(s: Sboxes, i: nat, km: bv32, amount: bv32, r: bv32): bv32 {
    var t := Rol(Keyed(i, km, r), amount);
    Combined(i, s.s1(ByteOf(t, 8)), s.s2(ByteOf(t, 0)), s.s3(ByteOf(t, 24)), s.s4(ByteOf(t, 16)))
  }

  /** The round functions of section 2.2, Ia being the most significant byte. */
  function StandardStep(s: Sboxes, i: nat, km: bv32, kr: bv32, d: bv32): bv32 {
    var t := Rol(Keyed(i, km, d), kr & 0x1f);
    Combined(i, s.s1(ByteOf(t, 24)), s.s2(ByteOf(t, 16)), s.s3(ByteOf(t, 8)), s.s4(ByteOf(t, 0)))
  }

  lemma AddIs(a: bv32, b: bv32)
    ensures Add(a, b) == a + b
  {
  }

  lemma SubIs(a: bv32, b: bv32)
    ensures Sub(a, b) == a - b
  {
  }

  lemma XorIs(a: bv32, b: bv32)
    ensures Xor(a, b) == a ^ b
  {
  }

  // Each is the same on named operators: the innermost operation first, then the other two.

  function FirstRest(x: bv32, c: bv32, d: bv32): bv32 { (x - c) + d }

  lemma FirstRestIs(x: bv32, c: bv32, d: bv32)
    ensures Add(Sub(x, c), d) == FirstRest(x, c, d)
  {
    assert Sub(x, c) == x - c;
    assert Add(x - c, d) == (x - c) + d;
    hide Sub, Add;
  }

  lemma FirstSplits(a: bv32, b: bv32, c: bv32, d: bv32)
    ensures First(a, b, c, d) == FirstRest(a ^ b, c, d)
  {
  }

  lemma FirstIs(a: bv32, b: bv32, c: bv32, d: bv32)
    ensures Add(Sub(Xor(a, b), c), d) == First(a, b, c, d)
  {
    FirstSplits(a, b, c, d);
    FirstRestIs(a ^ b, c, d);
    XorIs(a, b);
    hide *;
  }

  function SecondRest(x: bv32, c: bv32, d: bv32): bv32 { (x + c) ^ d }

  lemma SecondRestIs(x: bv32, c: bv32, d: bv32)
    ensures Xor(Add(x, c), d) == SecondRest(x, c, d)
  {
    assert Add(x, c) == x + c;
    assert Xor(x + c, d) == (x + c) ^ d;
    hide Add, Xor;
  }

  lemma SecondSplits(a: bv32, b: bv32, c: bv32, d: bv32)
    ensures Second(a, b, c, d) == SecondRest(a - b, c, d)
  {
  }

  lemma SecondIs(a: bv32, b: bv32, c: bv32, d: bv32)
    ensures Xor(Add(Sub(a, b), c), d) == Second(a, b, c, d)
  {
    SecondSplits(a, b, c, d);
    SecondRestIs(a - b, c, d);
    SubIs(a, b);
    hide *;
  }

  function ThirdRest(x: bv32, c: bv32, d: bv32): bv32 { (x ^ c) - d }

  lemma ThirdRestIs(x: bv32, c: bv32, d: bv32)
    ensures Sub(Xor(x, c), d) == ThirdRest(x, c, d)
  {
    assert Xor(x, c) == x ^ c;
    assert Sub(x ^ c, d) == (x ^ c) - d;
    hide Xor, Sub;
  }

  lemma ThirdSplits(a: bv32, b: bv32, c: bv32, d: bv32)
    ensures Third(a, b, c, d) == ThirdRest(a + b, c, d)
  {
  }

  lemma ThirdIs(a: bv32, b: bv32, c: bv32, d: bv32)
    ensures Sub(Xor(Add(a, b), c), d) == Third(a, b, c, d)
  {
    ThirdSplits(a, b, c, d);
    ThirdRestIs(a + b, c, d);
    AddIs(a, b);
    hide *;
  }

  lemma CombinedIs(i: nat, a: bv32, b: bv32, c: bv32, d: bv32)
    ensures var o := RoundOps(i); Combined(i, a, b, c, d) == Apply(o.0, Apply(o.2, Apply(o.1, a, b), c), d)
  {
    FirstIs(a, b, c, d);
    SecondIs(a, b, c, d);
    ThirdIs(a, b, c, d);
    hide First, Second, Third, Add, Sub, Xor;
  }

  lemma KeyedIs(i: nat, km: bv32, d: bv32)
    ensures Keyed(i, km, d) == Apply(RoundOps(i).0, km, d)
  {
    hide Add, Sub, Xor;
    if i % 3 == 0 {
      AddIs(km, d);
    } else if i % 3 == 1 {
      XorIs(km, d);
    } else {
      SubIs(km, d);
    }
  }

  lemma BytesOfWord(t: bv32)
    ensures ByteOf(t, 24) == ByteAt(t, 24) && ByteOf(t, 16) == ByteAt(t, 16)
    ensures ByteOf(t, 8) == ByteAt(t, 8) && ByteOf(t, 0) == ByteAt(t, 0)
  {
  }

  lemma MacroStepIs(s: Sboxes, i: nat, km: bv32, amount: bv32, r: bv32)
    ensures Delta(s, km, amount, r, RoundOps(i)) == MacroStep(s, i, km, amount, r)
  {
    var t := Rol(Keyed(i, km, r), amount);
    KeyedIs(i, km, r);
    BytesOfWord(t);
    CombinedIs(i, s.s1(ByteOf(t, 8)), s.s2(ByteOf(t, 0)), s.s3(ByteOf(t, 24)), s.s4(ByteOf(t, 16)));
    hide Rol, ByteOf, ByteAt, Apply, Keyed, Combined, RoundOps;
  }

  lemma StraightIs(s: Sboxes, i: nat, km: bv32, kr: bv32, d: bv32)
    ensures Straight(s, km, kr, d, RoundOps(i)) == StandardStep(s, i, km, kr, d)
  {
    var t := Rol(Keyed(i, km, d), kr & 0x1f);
    KeyedIs(i, km, d);
    BytesOfWord(t);
    CombinedIs(i, s.s1(ByteOf(t, 24)), s.s2(ByteOf(t, 16)), s.s3(ByteOf(t, 8)), s.s4(ByteOf(t, 0)));
    hide Rol, ByteOf, ByteAt, Apply, Keyed, Combined, RoundOps;
  }

  /** A round of the standard's network, in the operators of section 2.2. */
  lemma RoundFnIs(s: Sboxes, k: Subkeys, i: nat, d: bv32)
    requires ValidSubkeys(k) && i < 16
    ensures RoundFn(s, k)(i, d) == StandardStep(s, i, k.masking[i], k.rotate[i], d)
  {
    StraightIs(s, i, k.masking[i], k.rotate[i], d);
    StraightIsRoundFunction(s, k.masking[i], k.rotate[i], d);
    hide Straight, F1, F2, F3, StandardStep;
  }

  /** Encryption under any key array: take halves that follow from each other by the macro, in
      the order and with the swap of section 2.1; the ciphertext is the last pair with the right
      half first. Decryption leads back. */
  lemma CipherInFull(s: Sboxes, k: KeyData, l: seq<bv32>, r: seq<bv32>)
    requires |k.words| == 32 && |l| == |r| == (if k.short then 13 else 17)
    requires forall i | 0 <= i < |l| - 1 ::
               && l[i + 1] == r[i]
               && r[i + 1] == l[i] ^ MacroStep(s, i, k.words[i * 2], k.words[i * 2 + 1], r[i])
    ensures EncryptWith(s, k)((l[0], r[0])) == (r[|r| - 1], l[|l| - 1])
    ensures DecryptWith(s, k)((r[|r| - 1], l[|l| - 1])) == (l[0], r[0])
  {
    var f, n := RoundFn(s, StoredSubkeys(k.words)), |l| - 1;
    forall i | 0 <= i < n ensures l[i + 1] == r[i] && r[i + 1] == l[i] ^ f(i, r[i]) {
      MacroStepIs(s, i, k.words[i * 2], k.words[i * 2 + 1], r[i]);
      RoundOfStoredKey(s, k.words, i, r[i]);
      hide RoundFn, Delta, MacroStep, StoredSubkeys;
    }
    hide RoundFn, StoredSubkeys, MacroStep;
    Feistel.RecurrenceDecides(f, n, l, r);
  }

  lemma SubkeysInFull(s: Sboxes, k: Subkeys, n: nat, l: seq<bv32>, r: seq<bv32>)
    requires ValidSubkeys(k) && n <= 16 && |l| == |r| == n + 1
    requires forall i | 0 <= i < n ::
               && l[i + 1] == r[i]
               && r[i + 1] == l[i] ^ StandardStep(s, i, k.masking[i], k.rotate[i], r[i])
    ensures Feistel.Encrypt(RoundFn(s, k), n, (l[0], r[0])) == (r[n], l[n])
    ensures Feistel.Decrypt(RoundFn(s, k), n, (r[n], l[n])) == (l[0], r[0])
  {
    var f := RoundFn(s, k);
    forall i | 0 <= i < n ensures l[i + 1] == r[i] && r[i + 1] == l[i] ^ f(i, r[i]) {
      RoundFnIs(s, k, i, r[i]);
      hide RoundFn, StandardStep;
    }
    hide RoundFn, StandardStep;
    Feistel.RecurrenceDecides(f, n, l, r);
  }

  /** The same for the standard, with the subkeys of its schedule: 12 rounds for keys of at most
      80 bits and 16 for longer ones. */
  lemma StandardInFull(s: Sboxes, key: seq<bv8>, k: Subkeys, l: seq<bv32>, r: seq<bv32>)
    requires |key| <= 16 && k == Schedule(s, PadKey(key))
    requires |l| == |r| == (if |key| <= 10 then 13 else 17)
    requires forall i | 0 <= i < |l| - 1 ::
               && l[i + 1] == r[i]
               && r[i + 1] == l[i] ^ StandardStep(s, i, k.masking[i], k.rotate[i], r[i])
    ensures Rfc2144.Encrypt(s, key, (l[0], r[0])) == (r[|r| - 1], l[|l| - 1])
    ensures Rfc2144.Decrypt(s, key, (r[|r| - 1], l[|l| - 1])) == (l[0], r[0])
  {
    hide Schedule, PadKey, RoundFn, StandardStep, Feistel.Encrypt, Feistel.Decrypt;
    SubkeysInFull(s, k, |l| - 1, l, r);
  }
}
