/** CAST_KEY, the round step E_CAST, the unrolled CAST_encrypt and CAST_decrypt, and the ECB
    block loops (cccast/src/cast_lcl.h, c_enc.c, cccast_ecb_*_mode.c). */
module CastCipher {
  import opened Words
  import opened Blocks
  import opened Rfc2144
  import Feistel

  /** The contents of a CAST_KEY: masking word and rotate amount of round i at 2i and 2i+1. */
  datatype KeyData = KeyData(words: seq<bv32>, short: bool)

  class CastKey {
    const data: array<bv32>
    var shortKey: bool

    constructor ()
      ensures Valid() && fresh(data)
    {
      data := new bv32[32](_ => 0);
      shortKey := false;
    }

    ghost predicate Valid() { data.Length == 32 }

    ghost function Contents(): KeyData
      requires Valid()
      reads this, data
    {
      KeyData(data[..], shortKey)
    }
  }

  /** The operator arguments of E_CAST. */
  datatype Op = Plus | Minus | Caret

  function Apply(op: Op, a: bv32, b: bv32): bv32 {
    match op
    case Plus => Add(a, b)
    case Minus => Sub(a, b)
    case Caret => Xor(a, b)
  }

  /** The standard's subkeys that a key array of any contents stands for: the stored rotate
      amount is 16 away from the rotate key. */
  function StoredSubkeys(words: seq<bv32>): (k: Subkeys)
    requires |words| == 32
    ensures ValidSubkeys(k)
  {
    Subkeys(seq(16, i requires 0 <= i < 16 => words[2 * i]),
            seq(16, i requires 0 <= i < 16 => words[2 * i + 1] + 16))
  }

  /** The operators of the three round types, in the order E_CAST takes them. */
  function RoundOps(i: nat): (Op, Op, Op) {
    if i % 3 == 0 then (Plus, Caret, Minus)
    else if i % 3 == 1 then (Caret, Minus, Plus)
    else (Minus, Plus, Caret)
  }

  lemma TwoTurns(w: bv32, n: bv32)
    ensures Rol(w, n + 16) == Rol(Rol(w, n), 16)
  {
  }

  /** Sixteen more turns move each byte two places: reading the bytes in the order 1, 0, 3, 2
      after one rotation is reading them in order after the other. */
  lemma HalfTurn(w: bv32, n: bv32)
    ensures var t, i := Rol(w, n), Rol(w, (n + 16) & 0x1f);
            && ByteAt(t, 8) == ByteAt(i, 24)
            && ByteAt(t, 0) == ByteAt(i, 16)
            && ByteAt(t, 24) == ByteAt(i, 8)
            && ByteAt(t, 16) == ByteAt(i, 0)
  {
    TwoTurns(w, n);
    assert Rol(w, (n + 16) & 0x1f) == Rol(w, n + 16);
    HalfTurnBytes(Rol(w, n));
  }

  lemma HalfTurnBytes(t: bv32)
    ensures var i := Rol(t, 16);
            && ByteAt(t, 8) == ByteAt(i, 24)
            && ByteAt(t, 0) == ByteAt(i, 16)
            && ByteAt(t, 24) == ByteAt(i, 8)
            && ByteAt(t, 16) == ByteAt(i, 0)
  {
  }

  /** What E_CAST mixes into the left half. */
  function Delta(s: Sboxes, km: bv32, amount: bv32, r: bv32, ops: (Op, Op, Op)): bv32 {
    var t := Rol(Apply(ops.0, km, r), amount);
    var a, b := s.s1(ByteAt(t, 8)), s.s2(ByteAt(t, 0));
    var c, d := s.s3(ByteAt(t, 24)), s.s4(ByteAt(t, 16));
    Apply(ops.0, Apply(ops.2, Apply(ops.1, a, b), c), d)
  }

  /** The same with the bytes in their natural order: the shape of section 2.2. */
  function Straight(s: Sboxes, km: bv32, kr: bv32, d: bv32, ops: (Op, Op, Op)): bv32 {
    var i := Rol(Apply(ops.0, km, d), kr & 0x1f);
    var ab := Apply(ops.1, s.s1(ByteAt(i, 24)), s.s2(ByteAt(i, 16)));
    Apply(ops.0, Apply(ops.2, ab, s.s3(ByteAt(i, 8))), s.s4(ByteAt(i, 0)))
  }

  /** The shuffled bytes and the shifted rotate amount cancel, whatever the operators. */
  lemma DeltaIsStraight(s: Sboxes, km: bv32, amount: bv32, r: bv32, ops: (Op, Op, Op))
    ensures Delta(s, km, amount, r, ops) == Straight(s, km, amount + 16, r, ops)
  {
    HalfTurn(Apply(ops.0, km, r), amount);
  }

  /** The three operator triples give the standard's three round functions. */
  lemma StraightIsRoundFunction(s: Sboxes, km: bv32, kr: bv32, d: bv32)
    ensures Straight(s, km, kr, d, (Plus, Caret, Minus)) == F1(s, km, kr, d)
    ensures Straight(s, km, kr, d, (Caret, Minus, Plus)) == F2(s, km, kr, d)
    ensures Straight(s, km, kr, d, (Minus, Plus, Caret)) == F3(s, km, kr, d)
  {
    hide Add, Sub, Xor, Rol, ByteAt;
  }

  lemma RoundOfStoredKey(s: Sboxes, words: seq<bv32>, n: nat, r: bv32)
    requires |words| == 32 && n < 16
    ensures Delta(s, words[n * 2], words[n * 2 + 1], r, RoundOps(n)) == RoundFn(s, StoredSubkeys(words))(n, r)
  {
    hide Delta, Straight, F1, F2, F3;
    var km, amount := words[n * 2], words[n * 2 + 1];
    var k := StoredSubkeys(words);
    assert k.masking[n] == km && k.rotate[n] == amount + 16;
    DeltaIsStraight(s, km, amount, r, RoundOps(n));
    StraightIsRoundFunction(s, km, amount + 16, r);
    if n % 3 == 0 {
    } else if n % 3 == 1 {
    } else {
    }
  }

  /** E_CAST: with the operators of round n it is the standard's round n on the subkeys that
      the key array stands for, for every contents of that array. */
  method ECast(s: Sboxes, n: nat, key: array<bv32>, l: bv32, r: bv32, op1: Op, op2: Op, op3: Op)
      returns (l': bv32)
    requires key.Length == 32 && n < 16
    ensures (op1, op2, op3) == RoundOps(n) ==>
              (r, l') == Feistel.Round(RoundFn(s, StoredSubkeys(key[..])), n, (l, r))
  {
    var t := Apply(op1, key[n * 2], r);
    t := Rol(t, key[n * 2 + 1]);
    var a := s.s1(ByteAt(t, 8));
    var b := s.s2(ByteAt(t, 0));
    var c := s.s3(ByteAt(t, 24));
    var d := s.s4(ByteAt(t, 16));
    l' := l ^ Apply(op1, Apply(op3, Apply(op2, a, b), c), d);
    RoundOfStoredKey(s, key[..], n, r);
  }

  /** The block map that CAST_encrypt computes under a key. */
  function EncryptWith(s: Sboxes, k: KeyData): Block -> Block
    requires |k.words| == 32
  {
    (p: Block) => Feistel.Encrypt(RoundFn(s, StoredSubkeys(k.words)), if k.short then 12 else 16, p)
  }

  function DecryptWith(s: Sboxes, k: KeyData): Block -> Block
    requires |k.words| == 32
  {
    (p: Block) => Feistel.Decrypt(RoundFn(s, StoredSubkeys(k.words)), if k.short then 12 else 16, p)
  }

  method CastEncrypt(s: Sboxes, data: array<bv32>, key: CastKey)
    requires key.Valid() && data.Length == 2 && data != key.data
    modifies data
    ensures (data[0], data[1]) == EncryptWith(s, key.Contents())(old((data[0], data[1])))
  {
    hide RoundFn, StoredSubkeys, Feistel.Round;
    var k := key.data;
    var l, r := data[0], data[1];
    ghost var f, p := RoundFn(s, StoredSubkeys(k[..])), (l, r);
    l := ECast(s, 0, k, l, r, Plus, Caret, Minus);
    assert (r, l) == Feistel.Up(f, 1, p);
    r := ECast(s, 1, k, r, l, Caret, Minus, Plus);
    assert (l, r) == Feistel.Up(f, 2, p);
    l := ECast(s, 2, k, l, r, Minus, Plus, Caret);
    assert (r, l) == Feistel.Up(f, 3, p);
    r := ECast(s, 3, k, r, l, Plus, Caret, Minus);
    assert (l, r) == Feistel.Up(f, 4, p);
    l := ECast(s, 4, k, l, r, Caret, Minus, Plus);
    assert (r, l) == Feistel.Up(f, 5, p);
    r := ECast(s, 5, k, r, l, Minus, Plus, Caret);
    assert (l, r) == Feistel.Up(f, 6, p);
    l := ECast(s, 6, k, l, r, Plus, Caret, Minus);
    assert (r, l) == Feistel.Up(f, 7, p);
    r := ECast(s, 7, k, r, l, Caret, Minus, Plus);
    assert (l, r) == Feistel.Up(f, 8, p);
    l := ECast(s, 8, k, l, r, Minus, Plus, Caret);
    assert (r, l) == Feistel.Up(f, 9, p);
    r := ECast(s, 9, k, r, l, Plus, Caret, Minus);
    assert (l, r) == Feistel.Up(f, 10, p);
    l := ECast(s, 10, k, l, r, Caret, Minus, Plus);
    assert (r, l) == Feistel.Up(f, 11, p);
    r := ECast(s, 11, k, r, l, Minus, Plus, Caret);
    assert (l, r) == Feistel.Up(f, 12, p);
    if !key.shortKey {
      l := ECast(s, 12, k, l, r, Plus, Caret, Minus);
      assert (r, l) == Feistel.Up(f, 13, p);
      r := ECast(s, 13, k, r, l, Caret, Minus, Plus);
      assert (l, r) == Feistel.Up(f, 14, p);
      l := ECast(s, 14, k, l, r, Minus, Plus, Caret);
      assert (r, l) == Feistel.Up(f, 15, p);
      r := ECast(s, 15, k, r, l, Plus, Caret, Minus);
      assert (l, r) == Feistel.Up(f, 16, p);
    }
    assert Feistel.Encrypt(f, if key.shortKey then 12 else 16, p) == (r, l);
    data[1] := l;
    data[0] := r;
  }

  method CastDecrypt(s: Sboxes, data: array<bv32>, key: CastKey)
    requires key.Valid() && data.Length == 2 && data != key.data
    modifies data
    ensures (data[0], data[1]) == DecryptWith(s, key.Contents())(old((data[0], data[1])))
  {
    hide RoundFn, StoredSubkeys, Feistel.Round;
    var k := key.data;
    var l, r := data[0], data[1];
    ghost var f, p := RoundFn(s, StoredSubkeys(k[..])), (l, r);
    ghost var n := if key.shortKey then 12 else 16;
    if !key.shortKey {
      l := ECast(s, 15, k, l, r, Plus, Caret, Minus);
      assert Feistel.Down(f, n, p) == Feistel.Down(f, 15, (r, l));
      r := ECast(s, 14, k, r, l, Minus, Plus, Caret);
      assert Feistel.Down(f, n, p) == Feistel.Down(f, 14, (l, r));
      l := ECast(s, 13, k, l, r, Caret, Minus, Plus);
      assert Feistel.Down(f, n, p) == Feistel.Down(f, 13, (r, l));
      r := ECast(s, 12, k, r, l, Plus, Caret, Minus);
      assert Feistel.Down(f, n, p) == Feistel.Down(f, 12, (l, r));
    }
    l := ECast(s, 11, k, l, r, Minus, Plus, Caret);
    assert Feistel.Down(f, n, p) == Feistel.Down(f, 11, (r, l));
    r := ECast(s, 10, k, r, l, Caret, Minus, Plus);
    assert Feistel.Down(f, n, p) == Feistel.Down(f, 10, (l, r));
    l := ECast(s, 9, k, l, r, Plus, Caret, Minus);
    assert Feistel.Down(f, n, p) == Feistel.Down(f, 9, (r, l));
    r := ECast(s, 8, k, r, l, Minus, Plus, Caret);
    assert Feistel.Down(f, n, p) == Feistel.Down(f, 8, (l, r));
    l := ECast(s, 7, k, l, r, Caret, Minus, Plus);
    assert Feistel.Down(f, n, p) == Feistel.Down(f, 7, (r, l));
    r := ECast(s, 6, k, r, l, Plus, Caret, Minus);
    assert Feistel.Down(f, n, p) == Feistel.Down(f, 6, (l, r));
    l := ECast(s, 5, k, l, r, Minus, Plus, Caret);
    assert Feistel.Down(f, n, p) == Feistel.Down(f, 5, (r, l));
    r := ECast(s, 4, k, r, l, Caret, Minus, Plus);
    assert Feistel.Down(f, n, p) == Feistel.Down(f, 4, (l, r));
    l := ECast(s, 3, k, l, r, Plus, Caret, Minus);
    assert Feistel.Down(f, n, p) == Feistel.Down(f, 3, (r, l));
    r := ECast(s, 2, k, r, l, Minus, Plus, Caret);
    assert Feistel.Down(f, n, p) == Feistel.Down(f, 2, (l, r));
    l := ECast(s, 1, k, l, r, Caret, Minus, Plus);
    assert Feistel.Down(f, n, p) == Feistel.Down(f, 1, (r, l));
    r := ECast(s, 0, k, r, l, Plus, Caret, Minus);
    assert Feistel.Down(f, n, p) == Feistel.Down(f, 0, (l, r)) == (l, r);
    assert Feistel.Decrypt(f, n, p) == (r, l);
    data[1] := l;
    data[0] := r;
  }

  /** Decryption inverts encryption, and the other way round, for every contents of the key
      and every tables, with 12 and with 16 rounds. */
  lemma CastInverts(s: Sboxes, k: KeyData, p: Block)
    requires |k.words| == 32
    ensures DecryptWith(s, k)(EncryptWith(s, k)(p)) == p
    ensures EncryptWith(s, k)(DecryptWith(s, k)(p)) == p
  {
    Feistel.Inverts(RoundFn(s, StoredSubkeys(k.words)), if k.short then 12 else 16, p);
  }
}
