/** ccblowfish_ltc_setup: the key schedule that encrypts under the tables it is replacing
    (ccblowfish/src/ccblowfish_ltc_common.c). */
module BlowfishSchedule {
  import opened Words
  import opened Blocks
  import opened Blowfish

  /** The initial tables, ORIG_P and ORIG_S, kept as arbitrary tables. */
  datatype Tables = Tables(p: seq<bv32>, s: seq<seq<bv32>>)

  predicate ValidTables(t: Tables) {
    |t.p| == 18 && |t.s| == 4 && forall x | 0 <= x < 4 :: |t.s[x]| == 256
  }

  /** Word `j` of the key repeated cyclically. */
  function CyclicWord(key: seq<bv8>, j: nat): bv32
    requires key != []
  {
    LoadBe32([key[4 * j % |key|], key[(4 * j + 1) % |key|], key[(4 * j + 2) % |key|], key[(4 * j + 3) % |key|]])
  }

  /** The tables before the first encryption: P xor the repeated key, and S. */
  function Initial(t: Tables, key: seq<bv8>): (x: Schedule)
    requires ValidTables(t) && key != []
    ensures ValidSchedule(x)
  {
    Schedule(seq(18, j requires 0 <= j < 18 => Xor(t.p[j], CyclicWord(key, j))),
             seq(1024, i requires 0 <= i < 1024 => t.s[i / 256][i % 256]))
  }

  // All 1042 words in the order in which they are replaced: the P-array, then the S-boxes.

  function Slot(x: Schedule, i: nat): bv32
    requires ValidSchedule(x) && i < 1042
  {
    if i < 18 then x.k[i] else x.s[i - 18]
  }

  /** Replace slots 2t and 2t + 1. */
  function PutPair(x: Schedule, t: nat, c: Block): (r: Schedule)
    requires ValidSchedule(x) && t < 521
    ensures ValidSchedule(r)
  {
    if t < 9 then x.(k := x.k[2 * t := c.0][2 * t + 1 := c.1])
    else x.(s := x.s[2 * t - 18 := c.0][2 * t - 17 := c.1])
  }

  /** Tables and block after `t` steps. Each step encrypts the block of the step before under
      the tables as they are and puts the result into the next two slots. */
  function Step(x0: Schedule, t: nat): (r: (Schedule, Block))
    requires ValidSchedule(x0) && t <= 521
    ensures ValidSchedule(r.0)
  {
    if t == 0 then (x0, (0, 0))
    else
      var (x, b) := Step(x0, t - 1);
      var c := EncryptWith(x)(b);
      (PutPair(x, t - 1, c), c)
  }

  /** The key schedule of the design. */
  function KeySchedule(t: Tables, key: seq<bv8>): Schedule
    requires ValidTables(t) && key != []
  {
    Step(Initial(t, key), 521).0
  }

  /** What the tables are after `t` steps: every slot below 2t holds a half of the block of its
      own step, every other slot still holds its initial word. So each step encrypts under
      earlier slots that are replaced and later slots that are not, and every slot is written
      once. */
  lemma {:induction false} SlotsAfter(x0: Schedule, t: nat, i: nat)
    requires ValidSchedule(x0) && t <= 521 && i < 1042
    ensures Slot(Step(x0, t).0, i) ==
            if i >= 2 * t then Slot(x0, i)
            else if i % 2 == 0 then Step(x0, i / 2 + 1).1.0
            else Step(x0, i / 2 + 1).1.1
  {
    hide EncryptWith;
    if t != 0 {
      SlotsAfter(x0, t - 1, i);
    }
  }

  /** A key whose cyclic repetition is the same stream of bytes has the same schedule. */
  lemma SameStreamSameSchedule(t: Tables, a: seq<bv8>, b: seq<bv8>)
    requires ValidTables(t) && a != [] && b != []
    requires forall i: nat :: i < 72 ==> a[i % |a|] == b[i % |b|]
    ensures KeySchedule(t, a) == KeySchedule(t, b)
  {
    hide Step;
    forall j: nat | j < 18 ensures CyclicWord(a, j) == CyclicWord(b, j) {
      var i := 4 * j;
      assert a[i % |a|] == b[i % |b|];
      assert a[(i + 1) % |a|] == b[(i + 1) % |b|];
      assert a[(i + 2) % |a|] == b[(i + 2) % |b|];
      assert a[(i + 3) % |a|] == b[(i + 3) % |b|];
    }
    assert Initial(t, a).k == Initial(t, b).k;
  }

  function Repeat(key: seq<bv8>, m: nat): seq<bv8> {
    if m == 0 then [] else key + Repeat(key, m - 1)
  }

  lemma MulAtLeast(d: int, n: nat)
    requires d >= 1
    ensures d * n >= n
  {
    assert (d - 1) * n >= 0;
    assert (d - 1) * n + n == d * n;
  }

  lemma MulAssociates(a: nat, b: nat, c: nat)
    ensures a * (b * c) == a * b * c && a * b >= 0
  {
  }

  lemma RemainderIsUnique(i: nat, q: nat, r: nat, n: nat)
    requires r < n && i == q * n + r
    ensures i % n == r
  {
    var d := q - i / n;
    assert d * n == q * n - i / n * n;
    if d >= 1 {
      MulAtLeast(d, n);
    } else if d <= -1 {
      MulAtLeast(-d, n);
    } else {
      assert d * n == 0;
    }
  }

  lemma ModPlusMultiple(j: nat, k: nat, n: nat)
    requires n > 0
    ensures (j + k * n) % n == j % n
  {
    assert k * n >= 0;
    assert (j / n + k) * n == j / n * n + k * n;
    RemainderIsUnique(j + k * n, j / n + k, j % n, n);
  }

  lemma ModOfMod(i: nat, r: nat, m: nat, n: nat)
    requires n > 0 && r == m * n && r > 0
    ensures i % r % n == i % n
  {
    var j, q := i % r, i / r;
    assert i == j + q * r;
    MulAssociates(q, m, n);
    ModPlusMultiple(j, q * m, n);
  }

  lemma OneLess(m: nat, n: nat)
    requires m > 0
    ensures m * n == n + (m - 1) * n && (m - 1) * n >= 0
  {
  }

  lemma {:induction false} RepeatLength(key: seq<bv8>, m: nat)
    ensures |Repeat(key, m)| == m * |key|
  {
    if m > 0 {
      RepeatLength(key, m - 1);
      OneLess(m, |key|);
    }
  }

  lemma OneLap(j: nat, n: nat)
    requires n > 0
    ensures j % n == if j < n then j else (j - n) % n
  {
    if j >= n {
      ModPlusMultiple(j - n, 1, n);
    }
  }

  lemma {:induction false} RepeatAt(key: seq<bv8>, m: nat, j: nat)
    requires key != [] && j < |Repeat(key, m)|
    ensures Repeat(key, m)[j] == key[j % |key|]
  {
    OneLap(j, |key|);
    if j >= |key| {
      RepeatAt(key, m - 1, j - |key|);
    }
  }

  lemma RepeatedIndex(key: seq<bv8>, m: nat, i: nat)
    requires key != [] && m > 0 && |Repeat(key, m)| == m * |key| > 0
    ensures Repeat(key, m)[i % |Repeat(key, m)|] == key[i % |key|]
  {
    var j := i % |Repeat(key, m)|;
    ModOfMod(i, |Repeat(key, m)|, m, |key|);
    RepeatAt(key, m, j);
  }

  /** A key and any whole number of copies of it are the same key. The length limits of the
      cipher decide which of them a caller can use. */
  lemma RepeatedKeySameSchedule(t: Tables, key: seq<bv8>, m: nat)
    requires ValidTables(t) && key != [] && m > 0
    ensures Repeat(key, m) != [] && KeySchedule(t, Repeat(key, m)) == KeySchedule(t, key)
  {
    var n, r := |key|, Repeat(key, m);
    MulAtLeast(m, n);
    RepeatLength(key, m);
    forall i: nat ensures r[i % |r|] == key[i % n] {
      RepeatedIndex(key, m, i);
    }
    SameStreamSameSchedule(t, r, key);
  }

  /** In particular the self-concatenation of a key. */
  lemma DoubledKeySameSchedule(t: Tables, key: seq<bv8>)
    requires ValidTables(t) && key != []
    ensures KeySchedule(t, key + key) == KeySchedule(t, key)
  {
    RepeatedKeySameSchedule(t, key, 2);
    assert Repeat(key, 1) == key + Repeat(key, 0) == key;
    assert Repeat(key, 2) == key + Repeat(key, 1);
  }
}
