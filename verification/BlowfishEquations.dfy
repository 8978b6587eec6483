/** Blowfish written out in C's own operators: the mixing function on the four bytes of a word,
    the rounds as a recurrence on the halves of a block, and the finished key schedule as
    equations between its own slots. */
module BlowfishEquations {
  import opened Words
  import opened Blocks
  import opened Blowfish
  import opened BlowfishSchedule
  import Spec = BlowfishSpec

  lemma IndexOfByte(a: bv8, b: bv8, c: bv8, d: bv8)
    ensures var x := LoadBe32([a, b, c, d]);
            && Index(x, 24) == a as nat && Index(x, 16) == b as nat
            && Index(x, 8) == c as nat && Index(x, 0) == d as nat
  {
    StoreLoadBe32([a, b, c, d]);
    hide LoadBe32, ByteAt;
  }

  /** LTC_F on the four words that its look-ups give. */
  function Mixed(a: bv32, b: bv32, c: bv32, d: bv32): bv32 { ((a + b) ^ c) + d }

  function MixedRest(x: bv32, c: bv32, d: bv32): bv32 { (x ^ c) + d }

  lemma MixedRestIs(x: bv32, c: bv32, d: bv32)
    ensures Add(Xor(x, c), d) == MixedRest(x, c, d)
  {
    assert Xor(x, c) == x ^ c;
    hide Xor;
  }

  lemma MixedSplits(a: bv32, b: bv32, c: bv32, d: bv32)
    ensures Mixed(a, b, c, d) == MixedRest(a + b, c, d)
  {
  }

  lemma SumIs(a: bv32, b: bv32)
    ensures Add(a, b) == a + b
  {
  }

  lemma MixedIs(a: bv32, b: bv32, c: bv32, d: bv32)
    ensures Add(Xor(Add(a, b), c), d) == Mixed(a, b, c, d)
  {
    MixedSplits(a, b, c, d);
    MixedRestIs(a + b, c, d);
    SumIs(a, b);
    hide *;
  }

  /** The bytes of a word, most significant first, index the rows in order; the second look-up is
      added, the third is combined by exclusive or, and the fourth is added. */
  lemma MixerInFull(s: seq<bv32>, a: bv8, b: bv8, c: bv8, d: bv8)
    requires |s| == 1024
    ensures F(s, LoadBe32([a, b, c, d])) ==
            Mixed(s[a as nat], s[256 + b as nat], s[512 + c as nat], s[768 + d as nat])
  {
    IndexOfByte(a, b, c, d);
    MixedIs(s[a as nat], s[256 + b as nat], s[512 + c as nat], s[768 + d as nat]);
    hide LoadBe32, Index, Add, Xor, Mixed;
  }

  lemma XorIs(a: bv32, b: bv32)
    ensures Xor(a, b) == a ^ b
  {
  }

  lemma {:induction false} RecurrenceRounds(f: Spec.Mixer, k: seq<bv32>, n: nat, l: seq<bv32>, r: seq<bv32>)
    requires n <= |k| && n < |l| && |l| == |r|
    requires forall i | 0 <= i < n :: r[i + 1] == l[i] ^ k[i] && l[i + 1] == r[i] ^ f(r[i + 1])
    ensures Spec.Rounds(f, k, n, (l[0], r[0])) == (l[n], r[n])
  {
    if n > 0 {
      var i := n - 1;
      RecurrenceRounds(f, k, i, l, r);
      assert r[i + 1] == l[i] ^ k[i] && l[i + 1] == r[i] ^ f(r[i + 1]);
      XorIs(l[i], k[i]);
      XorIs(r[i], f(r[i + 1]));
      hide Xor;
    }
  }

  lemma RecurrenceDecides(f: Spec.Mixer, k: seq<bv32>, l: seq<bv32>, r: seq<bv32>)
    requires |k| == 18 && |l| == |r| == 17
    requires forall i | 0 <= i < 16 :: r[i + 1] == l[i] ^ k[i] && l[i + 1] == r[i] ^ f(r[i + 1])
    ensures Spec.Encrypt(f, k, (l[0], r[0])) == (r[16] ^ k[17], l[16] ^ k[16])
    ensures Spec.Decrypt(f, k, (r[16] ^ k[17], l[16] ^ k[16])) == (l[0], r[0])
  {
    RecurrenceRounds(f, k, 16, l, r);
    XorIs(r[16], k[17]);
    XorIs(l[16], k[16]);
    Spec.Inverts(f, k, (l[0], r[0]));
    hide Xor, Spec.Rounds, Spec.Decrypt;
  }

  lemma ByMixer(x: Schedule, l: seq<bv32>, r: seq<bv32>)
    requires ValidSchedule(x) && |l| == |r| == 17
    requires forall i | 0 <= i < 16 :: r[i + 1] == l[i] ^ x.k[i] && l[i + 1] == r[i] ^ F(x.s, r[i + 1])
    ensures forall i | 0 <= i < 16 :: r[i + 1] == l[i] ^ x.k[i] && l[i + 1] == r[i] ^ Mixing(x)(r[i + 1])
  {
    hide F;
    forall i | 0 <= i < 16 ensures r[i + 1] == l[i] ^ x.k[i] && l[i + 1] == r[i] ^ Mixing(x)(r[i + 1]) {
      assert Mixing(x)(r[i + 1]) == F(x.s, r[i + 1]);
    }
  }

  /** Encryption under any K and S: take halves that follow from each other as the rounds say;
      the ciphertext is the last pair crossed, with K[17] on the left and K[16] on the right.
      Decryption leads back. */
  lemma CipherInFull(x: Schedule, l: seq<bv32>, r: seq<bv32>)
    requires ValidSchedule(x) && |l| == |r| == 17
    requires forall i | 0 <= i < 16 :: r[i + 1] == l[i] ^ x.k[i] && l[i + 1] == r[i] ^ F(x.s, r[i + 1])
    ensures EncryptWith(x)((l[0], r[0])) == (r[16] ^ x.k[17], l[16] ^ x.k[16])
    ensures DecryptWith(x)((r[16] ^ x.k[17], l[16] ^ x.k[16])) == (l[0], r[0])
  {
    var c := (r[16] ^ x.k[17], l[16] ^ x.k[16]);
    assert EncryptWith(x)((l[0], r[0])) == Spec.Encrypt(Mixing(x), x.k, (l[0], r[0]));
    assert DecryptWith(x)(c) == Spec.Decrypt(Mixing(x), x.k, c);
    ByMixer(x, l, r);
    hide EncryptWith, DecryptWith, Mixing, F, Spec.Encrypt, Spec.Decrypt;
    RecurrenceDecides(Mixing(x), x.k, l, r);
  }

  /** The tables that the schedule starts from: each P word combined with the next four bytes of
      the repeated key, the first of them most significant; the S words as they are. */
  lemma InitialInFull(t: Tables, key: seq<bv8>, j: nat)
    requires ValidTables(t) && key != []
    ensures var n, x := |key|, Initial(t, key);
            && (j < 18 ==>
                  x.k[j] == t.p[j] ^ LoadBe32([key[4 * j % n], key[(4 * j + 1) % n],
                                               key[(4 * j + 2) % n], key[(4 * j + 3) % n]]))
            && (j < 1024 ==> x.s[j] == t.s[j / 256][j % 256])
  {
    if j < 18 {
      XorIs(t.p[j], CyclicWord(key, j));
    }
    hide Xor, LoadBe32;
  }

  lemma SlotsDecide(x: Schedule, y: Schedule)
    requires ValidSchedule(x) && ValidSchedule(y)
    requires forall i: nat | i < 1042 :: Slot(x, i) == Slot(y, i)
    ensures x == y
  {
    assert forall i | 0 <= i < 18 :: x.k[i] == Slot(x, i) == y.k[i];
    assert forall i | 0 <= i < 1024 :: x.s[i] == Slot(x, i + 18) == Slot(y, i + 18) == y.s[i];
  }

  /** Halfway through, the tables are the finished ones below slot 2t and the initial ones from
      there on. */
  lemma Halfway(x0: Schedule, t: nat, m: Schedule)
    requires ValidSchedule(x0) && ValidSchedule(m) && t <= 521
    requires forall i: nat | i < 1042 :: Slot(m, i) == if i < 2 * t then Slot(Step(x0, 521).0, i) else Slot(x0, i)
    ensures m == Step(x0, t).0
  {
    hide Step, Slot;
    forall i: nat | i < 1042 ensures Slot(m, i) == Slot(Step(x0, t).0, i) {
      SlotsAfter(x0, t, i);
      SlotsAfter(x0, 521, i);
    }
    SlotsDecide(m, Step(x0, t).0);
  }

  lemma StartBlock(x0: Schedule)
    requires ValidSchedule(x0)
    ensures Step(x0, 0).1 == (0, 0)
  {
  }

  /** The block of a step stands in the slots that it fills. */
  lemma PairOfStep(x0: Schedule, t: nat)
    requires ValidSchedule(x0) && t < 521
    ensures var r := Step(x0, 521).0; Step(x0, t + 1).1 == (Slot(r, 2 * t), Slot(r, 2 * t + 1))
  {
    hide Step, Slot;
    SlotsAfter(x0, 521, 2 * t);
    SlotsAfter(x0, 521, 2 * t + 1);
  }

  lemma NextBlock(x0: Schedule, t: nat)
    requires ValidSchedule(x0) && t < 521
    ensures Step(x0, t + 1).1 == EncryptWith(Step(x0, t).0)(Step(x0, t).1)
  {
    hide EncryptWith;
  }

  /** The tables at the time when slots 2t and 2t + 1 of the schedule `r` are made: finished words
      in the slots below, initial words in the others. */
  ghost predicate TablesThen(tb: Tables, key: seq<bv8>, r: Schedule, t: nat, m: Schedule)
    requires ValidTables(tb) && key != [] && ValidSchedule(r) && ValidSchedule(m)
  {
    forall i: nat | i < 1042 :: Slot(m, i) == if i < 2 * t then Slot(r, i) else Slot(Initial(tb, key), i)
  }

  /** The finished schedule begins with zeros encrypted under the initial tables. */
  lemma FirstPairInFull(tb: Tables, key: seq<bv8>, r: Schedule)
    requires ValidTables(tb) && key != [] && r == KeySchedule(tb, key)
    ensures (Slot(r, 0), Slot(r, 1)) == EncryptWith(Initial(tb, key))((0, 0))
  {
    var x0 := Initial(tb, key);
    StartBlock(x0);
    NextBlock(x0, 0);
    PairOfStep(x0, 0);
    assert Step(x0, 0).0 == x0;
    hide Step, Slot, EncryptWith, Initial;
  }

  /** Every later pair of slots is the pair before it, encrypted under the tables of that time. */
  lemma NextPairInFull(tb: Tables, key: seq<bv8>, r: Schedule, t: nat, m: Schedule)
    requires ValidTables(tb) && key != [] && r == KeySchedule(tb, key)
    requires t < 520 && ValidSchedule(m) && TablesThen(tb, key, r, t + 1, m)
    ensures (Slot(r, 2 * t + 2), Slot(r, 2 * t + 3)) == EncryptWith(m)((Slot(r, 2 * t), Slot(r, 2 * t + 1)))
  {
    var x0 := Initial(tb, key);
    Halfway(x0, t + 1, m);
    NextBlock(x0, t + 1);
    PairOfStep(x0, t);
    PairOfStep(x0, t + 1);
    hide TablesThen, Step, Slot, EncryptWith, Initial;
  }
}
