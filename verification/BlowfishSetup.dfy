/** ccblowfish_ltc_setup as it runs: in place on the key object, with an eight-byte buffer that
    it encrypts in place (ccblowfish/src/ccblowfish_ltc_common.c). */
module BlowfishSetup {
  import opened Words
  import opened Blocks
  import opened Blowfish
  import opened BlowfishSchedule

  /** Byte `i` of the repeated key. */
  function StreamByte(key: seq<bv8>, i: nat): bv8
    requires key != []
  {
    key[i % |key|]
  }

  /** `A = (A << 8) | byte`. */
  function Push(A: bv32, b: bv8): bv32 { (A << 8) | (b as bv32) }

  /** The accumulator after `z` bytes of word `j`. */
  function Packed(key: seq<bv8>, j: nat, z: nat): bv32
    requires key != []
  {
    if z == 0 then 0 else Push(Packed(key, j, z - 1), StreamByte(key, 4 * j + z - 1))
  }

  lemma FourPushes(a: bv8, b: bv8, c: bv8, d: bv8)
    ensures Push(Push(Push(Push(0, a), b), c), d) == LoadBe32([a, b, c, d])
  {
  }

  lemma PackedWord(key: seq<bv8>, j: nat)
    requires key != []
    ensures Packed(key, j, 4) == CyclicWord(key, j)
  {
    FourPushes(StreamByte(key, 4 * j), StreamByte(key, 4 * j + 1),
               StreamByte(key, 4 * j + 2), StreamByte(key, 4 * j + 3));
    hide Push, LoadBe32;
    assert Packed(key, j, 1) == Push(Packed(key, j, 0), StreamByte(key, 4 * j));
    assert Packed(key, j, 2) == Push(Packed(key, j, 1), StreamByte(key, 4 * j + 1));
    assert Packed(key, j, 3) == Push(Packed(key, j, 2), StreamByte(key, 4 * j + 2));
  }

  /** The wrapping key index: y == i % n is kept by the increment and the reset. */
  lemma NextIndex(i: nat, n: nat)
    requires n > 0
    ensures (i + 1) % n == if i % n + 1 == n then 0 else i % n + 1
  {
    if i % n + 1 == n {
      RemainderIsUnique(i + 1, i / n + 1, 0, n);
    } else {
      RemainderIsUnique(i + 1, i / n, i % n + 1, n);
    }
  }

  /** The inner loop: four key bytes from index `y0` on, wrapping at the end of the key. */
  method NextKeyWord(rawkey: array<bv8>, len: nat, y0: nat, ghost j: nat) returns (A: bv32, y: nat)
    requires 0 < len <= rawkey.Length && y0 == 4 * j % len
    ensures A == CyclicWord(rawkey[..len], j)
    ensures y == 4 * (j + 1) % len
  {
    ghost var key := rawkey[..len];
    hide Push, CyclicWord;
    A, y := 0, y0;
    var z := 0;
    while z < 4
      invariant z <= 4 && y < len && y == (4 * j + z) % len
      invariant A == Packed(key, j, z)
    {
      NextIndex(4 * j + z, len);
      assert rawkey[y] == StreamByte(key, 4 * j + z);
      A := PushByte(A, rawkey[y]);
      y := y + 1;
      if y == len {
        y := 0;
      }
      z := z + 1;
    }
    PackedWord(key, j);
  }

  function PushByte(A: bv32, b: bv8): (r: bv32)
    ensures r == Push(A, b)
  {
    (A << 8) | (b as bv32 & 255)
  }

  /** Two words of an S-box row. */
  method PutRowPair(xkey: KeySched, x: nat, y: nat, a: bv32, b: bv32)
    requires xkey.Valid() && x < 4 && y + 1 < 256
    modifies xkey.S
    ensures xkey.Rows() == old(xkey.Rows())[256 * x + y := a][256 * x + y + 1 := b]
  {
    xkey.S[x, y] := a;
    xkey.S[x, y + 1] := b;
  }

  /** `xkey->K[x] = ORIG_P[x] ^ A` for all x, and the copy of the S-boxes. */
  method LoadTables(xkey: KeySched, t: Tables, rawkey: array<bv8>, len: nat)
    requires xkey.Valid() && ValidTables(t) && 0 < len <= rawkey.Length
    modifies xkey.S, xkey.K
    ensures xkey.Contents() == Initial(t, old(rawkey[..len]))
  {
    ghost var key := rawkey[..len];
    hide CyclicWord, Xor;
    var x, y := 0, 0;
    while x < 18
      invariant x <= 18 && y == 4 * x % len && rawkey[..len] == key
      invariant forall j | 0 <= j < x :: xkey.K[j] == Xor(t.p[j], CyclicWord(key, j))
    {
      var A;
      A, y := NextKeyWord(rawkey, len, y, x);
      xkey.K[x] := Xor(t.p[x], A);
      x := x + 1;
    }
    assert xkey.K[..] == Initial(t, key).k;
    for x := 0 to 4
      invariant xkey.K[..] == Initial(t, key).k
      invariant forall i, j | 0 <= i < x && 0 <= j < 256 :: xkey.S[i, j] == t.s[i][j]
    {
      for y := 0 to 256
        invariant xkey.K[..] == Initial(t, key).k
        invariant forall i, j | 0 <= i < x && 0 <= j < 256 :: xkey.S[i, j] == t.s[i][j]
        invariant forall j | 0 <= j < y :: xkey.S[x, j] == t.s[x][j]
      {
        xkey.S[x, y] := t.s[x][y];
      }
    }
    assert xkey.Rows() == Initial(t, key).s;
  }

  lemma EcbOfOneBlock(f: Block -> Block, b: seq<bv8>)
    requires |b| == 8
    ensures Ecb(f, b) == StoreBlock(f(LoadBlock(b)))
  {
    OnBytesIs(f, b);
    assert b[..8] == b && b[8..] == [];
    assert MapBlocks(OnBytes(f), b[8..]) == [];
  }

  lemma OnlyMiddle<T>(b: seq<T>, image: seq<T>)
    requires |b| == 8
    ensures b[..0] + image + b[0 + 8 * 1..] == image
  {
  }

  /** `ccblowfish_ltc_ecb_encrypt(skey, 1, B, B)` and the two loads after it. */
  method EncryptB(xkey: KeySched, B: array<bv8>) returns (a: bv32, b: bv32)
    requires xkey.Valid() && B.Length == 8
    modifies B
    ensures (a, b) == EncryptWith(xkey.Contents())(old(LoadBlock(B[..])))
    ensures LoadBlock(B[..]) == (a, b)
  {
    ghost var f, b0 := EncryptWith(xkey.Contents()), B[..];
    EcbOfOneBlock(f, b0);
    LoadStoreBlock(f(LoadBlock(b0)));
    assert B[0..0 + 8 * 1] == b0 && WriteBehindRead(true, 0, 0, 1);
    hide *;
    var rc := EcbEncrypt(xkey, 1, B, 0, B, 0);
    OnlyMiddle(b0, Ecb(f, b0));
    a, b := Load(B, 0);
    assert B[0..8] == B[..];
  }

  /** The state of the schedule after `t` steps: the tables, and the block in the buffer. */
  ghost predicate AfterSteps(xkey: KeySched, B: array<bv8>, x0: Schedule, t: nat)
    requires xkey.Valid() && ValidSchedule(x0) && B.Length == 8 && t <= 521
    reads xkey.S, xkey.K, B
  {
    Step(x0, t) == (xkey.Contents(), LoadBlock(B[..]))
  }

  method StepK(xkey: KeySched, B: array<bv8>, x: nat, ghost x0: Schedule)
    requires xkey.Valid() && ValidSchedule(x0) && B.Length == 8 && x < 18 && x % 2 == 0
    requires AfterSteps(xkey, B, x0, x / 2)
    modifies xkey.K, B
    ensures AfterSteps(xkey, B, x0, x / 2 + 1)
  {
    ghost var c := xkey.Contents();
    hide EncryptWith, LoadBlock;
    var a, b := EncryptB(xkey, B);
    xkey.K[x] := a;
    xkey.K[x + 1] := b;
    assert xkey.Contents() == PutPair(c, x / 2, (a, b));
  }

  method StepS(xkey: KeySched, B: array<bv8>, x: nat, y: nat, ghost x0: Schedule)
    requires xkey.Valid() && ValidSchedule(x0) && B.Length == 8 && x < 4 && y < 256 && y % 2 == 0
    requires AfterSteps(xkey, B, x0, 9 + 128 * x + y / 2)
    modifies xkey.S, B
    ensures AfterSteps(xkey, B, x0, 9 + 128 * x + y / 2 + 1)
  {
    ghost var c := xkey.Contents();
    hide EncryptWith, LoadBlock;
    var a, b := EncryptB(xkey, B);
    PutRowPair(xkey, x, y, a, b);
    assert xkey.Contents() == PutPair(c, 9 + 128 * x + y / 2, (a, b));
  }

  /** The loop "encrypt K array". */
  method EncryptK(xkey: KeySched, B: array<bv8>, ghost x0: Schedule)
    requires xkey.Valid() && ValidSchedule(x0) && B.Length == 8
    requires AfterSteps(xkey, B, x0, 0)
    modifies xkey.K, B
    ensures AfterSteps(xkey, B, x0, 9)
  {
    hide AfterSteps;
    var x := 0;
    while x < 18
      invariant x <= 18 && x % 2 == 0
      invariant AfterSteps(xkey, B, x0, x / 2)
    {
      StepK(xkey, B, x, x0);
      x := x + 2;
    }
  }

  /** The loops "encrypt S array". */
  method EncryptS(xkey: KeySched, B: array<bv8>, ghost x0: Schedule)
    requires xkey.Valid() && ValidSchedule(x0) && B.Length == 8
    requires AfterSteps(xkey, B, x0, 9)
    modifies xkey.S, B
    ensures AfterSteps(xkey, B, x0, 521)
  {
    hide AfterSteps;
    var x := 0;
    while x < 4
      invariant x <= 4
      invariant AfterSteps(xkey, B, x0, 9 + 128 * x)
    {
      var y := 0;
      while y < 256
        invariant y <= 256 && y % 2 == 0
        invariant AfterSteps(xkey, B, x0, 9 + 128 * x + y / 2)
      {
        StepS(xkey, B, x, y, x0);
        y := y + 2;
      }
      x := x + 1;
    }
  }

  lemma ZeroBlock(b: seq<bv8>)
    requires |b| == 8 && forall i | 0 <= i < 8 :: b[i] == 0
    ensures LoadBlock(b) == (0, 0)
  {
  }

  /** The key schedule: whatever the object held before, it ends up holding the schedule of the
      design for this key and these tables. */
  method Setup(xkey: KeySched, t: Tables, rawkey: array<bv8>, len: nat) returns (rc: int)
    requires xkey.Valid() && ValidTables(t)
    requires 8 <= len <= 56 && len <= rawkey.Length
    modifies xkey.S, xkey.K
    ensures rc == 0
    ensures xkey.Contents() == KeySchedule(t, old(rawkey[..len]))
  {
    ghost var x0 := Initial(t, rawkey[..len]);
    LoadTables(xkey, t, rawkey, len);
    var B := new bv8[8](_ => 0);
    ZeroBlock(B[..]);
    hide Initial, LoadBlock;
    assert AfterSteps(xkey, B, x0, 0);
    EncryptK(xkey, B, x0);
    EncryptS(xkey, B, x0);
    return 0;
  }
}
