/** CAST_set_key (cccast/src/c_skey.c): the schedule that keeps a byte view and a word view of
    the same value in step. The buffers that are local to the function are sequences that it
    updates by position; the key it fills is an object. */
module CastSchedule {
  import opened Words
  import opened Rfc2144
  import opened CastCipher

  /** A byte kept in a 32-bit cell. */
  function Cell(b: bv8): bv32 { b as bv32 }

  /** The byte in a cell that holds one. */
  function Held(i: bv32): bv8
    requires i < 256
  {
    i as bv8
  }

  lemma CellsHoldBytes()
    ensures forall b: bv8 :: Cell(b) < 256 && Held(Cell(b)) == b
  {
  }

  /** A table indexed by a 32-bit cell: in bounds only if the cell holds a byte. */
  function Look(table: bv8 -> bv32, i: bv32): bv32
    requires i < 256
  {
    table(Held(i))
  }

  lemma CellsOfWord(l: bv32)
    ensures Cell(WordByte(l, 0)) == (l >> 24) & 0xff
    ensures Cell(WordByte(l, 1)) == (l >> 16) & 0xff
    ensures Cell(WordByte(l, 2)) == (l >> 8) & 0xff
    ensures Cell(WordByte(l, 3)) == l & 0xff
  {
  }

  /** Cells n to n + 3 hold the big-endian bytes of `w`. */
  ghost predicate BytesAt(bytes: seq<bv32>, n: nat, w: bv32)
    requires n + 4 <= |bytes|
  {
    forall i | n <= i < n + 4 :: bytes[i] == Cell(WordByte(w, i - n))
  }

  /** CAST_exp: store a word and its four bytes. */
  method CastExp(l: bv32, words: seq<bv32>, bytes: seq<bv32>, n: nat) returns (A: seq<bv32>, a: seq<bv32>)
    requires |words| == 4 && |bytes| == 16
    requires n <= 12 && n % 4 == 0
    ensures A == words[n / 4 := l]
    ensures |a| == 16 && BytesAt(a, n, l)
    ensures forall i | 0 <= i < 16 && (i < n || n + 4 <= i) :: a[i] == bytes[i]
  {
    hide Cell, WordByte;
    CellsOfWord(l);
    A, a := words, bytes;
    A := A[n / 4 := l];
    a := a[n + 3 := l & 0xff];
    a := a[n + 2 := (l >> 8) & 0xff];
    a := a[n + 1 := (l >> 16) & 0xff];
    a := a[n := (l >> 24) & 0xff];
  }

  /** The word and byte views of one value, as CAST_set_key keeps them. */
  ghost predicate Holds(words: seq<bv32>, bytes: seq<bv32>, q: Quad) {
    && words == [q.w0, q.w1, q.w2, q.w3]
    && |bytes| == 16
    && BytesAt(bytes, 0, q.w0) && BytesAt(bytes, 4, q.w1)
    && BytesAt(bytes, 8, q.w2) && BytesAt(bytes, 12, q.w3)
  }

  /** Every cell of a byte view is a byte, so every table index is in bounds. */
  lemma HoldsByte(words: seq<bv32>, bytes: seq<bv32>, q: Quad, i: nat)
    requires Holds(words, bytes, q) && i < 16
    ensures bytes[i] < 256 && Held(bytes[i]) == QuadByte(q, i)
  {
    CellsHoldBytes();
    hide Cell, Held, WordByte;
    if i < 4 {
    } else if i < 8 {
    } else if i < 12 {
    } else {
    }
  }

  lemma HoldsQuad(words: seq<bv32>, bytes: seq<bv32>, q: Quad)
    requires Holds(words, bytes, q)
    ensures forall i | 0 <= i < 16 :: bytes[i] < 256 && Held(bytes[i]) == QuadByte(q, i)
  {
    forall i | 0 <= i < 16 ensures bytes[i] < 256 && Held(bytes[i]) == QuadByte(q, i) {
      HoldsByte(words, bytes, q, i);
    }
  }

  /** The right-hand side of a schedule line: a word and five look-ups. */
  method Line(s: Sboxes, w: bv32, a: bv32, b: bv32, c: bv32, d: bv32, fifth: bv32) returns (l: bv32)
    requires a < 256 && b < 256 && c < 256 && d < 256
    ensures l == Xor(w, Mix(s, Held(a), Held(b), Held(c), Held(d), fifth))
  {
    hide Held, Xor;
    l := Xor(Xor(Xor(Xor(Xor(w, Look(s.s5, a)), Look(s.s6, b)), Look(s.s7, c)), Look(s.s8, d)), fifth);
    XorChain(w, Look(s.s5, a), Look(s.s6, b), Look(s.s7, c), Look(s.s8, d), fifth);
  }

  /** The four lines that make Z from X. `Z0` and `z0` are what the buffers held before. */
  method MixZ(s: Sboxes, X: seq<bv32>, x: seq<bv32>, Z0: seq<bv32>, z0: seq<bv32>, ghost q: Quad)
      returns (Z: seq<bv32>, z: seq<bv32>)
    requires Holds(X, x, q) && |Z0| == 4 && |z0| == 16
    ensures Holds(Z, z, NextZ(s, q))
  {
    CellsHoldBytes();
    hide Cell, Held, WordByte, Mix, Xor;
    ghost var r := NextZ(s, q);
    Z, z := Z0, z0;
    var l := Line(s, X[0], x[13], x[15], x[12], x[14], Look(s.s7, x[8]));
    assert l == r.w0;
    Z, z := CastExp(l, Z, z, 0);
    l := Line(s, X[2], z[0], z[2], z[1], z[3], Look(s.s8, x[10]));
    assert l == r.w1;
    Z, z := CastExp(l, Z, z, 4);
    l := Line(s, X[3], z[7], z[6], z[5], z[4], Look(s.s5, x[9]));
    assert l == r.w2;
    Z, z := CastExp(l, Z, z, 8);
    l := Line(s, X[1], z[10], z[9], z[11], z[8], Look(s.s6, x[11]));
    assert l == r.w3;
    Z, z := CastExp(l, Z, z, 12);
  }

  /** The four lines that make X from Z. */
  method MixX(s: Sboxes, Z: seq<bv32>, z: seq<bv32>, X0: seq<bv32>, x0: seq<bv32>, ghost q: Quad)
      returns (X: seq<bv32>, x: seq<bv32>)
    requires Holds(Z, z, q) && |X0| == 4 && |x0| == 16
    ensures Holds(X, x, NextX(s, q))
  {
    CellsHoldBytes();
    hide Cell, Held, WordByte, Mix, Xor;
    ghost var r := NextX(s, q);
    X, x := X0, x0;
    var l := Line(s, Z[2], z[5], z[7], z[4], z[6], Look(s.s7, z[0]));
    assert l == r.w0;
    X, x := CastExp(l, X, x, 0);
    l := Line(s, Z[0], x[0], x[2], x[1], x[3], Look(s.s8, z[2]));
    assert l == r.w1;
    X, x := CastExp(l, X, x, 4);
    l := Line(s, Z[1], x[7], x[6], x[5], x[4], Look(s.s5, z[1]));
    assert l == r.w2;
    X, x := CastExp(l, X, x, 8);
    l := Line(s, Z[3], x[10], x[9], x[11], x[8], Look(s.s6, z[3]));
    assert l == r.w3;
    X, x := CastExp(l, X, x, 12);
  }

  /** Five look-ups in a row, as every K line makes them. */
  method KeyWord(s: Sboxes, a: bv32, b: bv32, c: bv32, d: bv32, fifth: bv32) returns (w: bv32)
    requires a < 256 && b < 256 && c < 256 && d < 256
    ensures w == Mix(s, Held(a), Held(b), Held(c), Held(d), fifth)
  {
    hide Held, Xor;
    w := Xor(Xor(Xor(Xor(Look(s.s5, a), Look(s.s6, b)), Look(s.s7, c)), Look(s.s8, d)), fifth);
  }

  /** The lines for K[0] to K[3], and for K[12] to K[15]. */
  method DownWords(s: Sboxes, W: seq<bv32>, b: seq<bv32>, e0: nat, e1: nat, e2: nat, e3: nat, ghost q: Quad)
      returns (w: seq<bv32>)
    requires Holds(W, b, q)
    requires e0 < 16 && e1 < 16 && e2 < 16 && e3 < 16
    ensures w == ReadDown(s, q, (e0, e1, e2, e3))
  {
    HoldsQuad(W, b, q);
    assert |b| == 16;
    hide Cell, Held, WordByte, Mix, Holds, QuadByte;
    var w0 := KeyWord(s, b[8], b[9], b[7], b[6], Look(s.s5, b[e0]));
    var w1 := KeyWord(s, b[10], b[11], b[5], b[4], Look(s.s6, b[e1]));
    var w2 := KeyWord(s, b[12], b[13], b[3], b[2], Look(s.s7, b[e2]));
    var w3 := KeyWord(s, b[14], b[15], b[1], b[0], Look(s.s8, b[e3]));
    w := [w0, w1, w2, w3];
  }

  /** The lines for K[4] to K[11]. */
  method UpWords(s: Sboxes, W: seq<bv32>, b: seq<bv32>, e0: nat, e1: nat, e2: nat, e3: nat, ghost q: Quad)
      returns (w: seq<bv32>)
    requires Holds(W, b, q)
    requires e0 < 16 && e1 < 16 && e2 < 16 && e3 < 16
    ensures w == ReadUp(s, q, (e0, e1, e2, e3))
  {
    HoldsQuad(W, b, q);
    assert |b| == 16;
    hide Cell, Held, WordByte, Mix, Holds, QuadByte;
    var w0 := KeyWord(s, b[3], b[2], b[12], b[13], Look(s.s5, b[e0]));
    var w1 := KeyWord(s, b[1], b[0], b[14], b[15], Look(s.s6, b[e1]));
    var w2 := KeyWord(s, b[7], b[6], b[8], b[9], Look(s.s7, b[e2]));
    var w3 := KeyWord(s, b[5], b[4], b[10], b[11], Look(s.s8, b[e3]));
    w := [w0, w1, w2, w3];
  }

  /** One turn of the schedule loop: K[0] to K[15]. */
  method Pass(s: Sboxes, X0: seq<bv32>, x0: seq<bv32>, Z0: seq<bv32>, z0: seq<bv32>, ghost q: Quad)
      returns (X: seq<bv32>, x: seq<bv32>, Z: seq<bv32>, z: seq<bv32>, K: seq<bv32>)
    requires Holds(X0, x0, q) && |Z0| == 4 && |z0| == 16
    ensures Holds(X, x, NextPass(s, q)) && |Z| == 4 && |z| == 16
    ensures K == PassKeys(s, q)
  {
    ghost var q1 := NextZ(s, q);
    ghost var q2 := NextX(s, q1);
    ghost var q3 := NextZ(s, q2);
    ghost var q4 := NextX(s, q3);
    hide NextZ, NextX, ReadDown, ReadUp, BytesAt;
    X, x := X0, x0;
    Z, z := MixZ(s, X, x, Z0, z0, q);
    var w0 := DownWords(s, Z, z, 2, 6, 9, 12, q1);
    X, x := MixX(s, Z, z, X, x, q1);
    var w1 := UpWords(s, X, x, 8, 13, 3, 7, q2);
    Z, z := MixZ(s, X, x, Z, z, q2);
    var w2 := UpWords(s, Z, z, 9, 12, 2, 6, q3);
    X, x := MixX(s, Z, z, X, x, q3);
    var w3 := DownWords(s, X, x, 3, 7, 8, 13, q4);
    K := (w0 + w1) + (w2 + w3);
  }

  /** The for(;;) loop, entered with X in step with x: exactly two passes, and K is filled. */
  method Expand(s: Sboxes, X0: seq<bv32>, x0: seq<bv32>, ghost q: Quad) returns (k: seq<bv32>)
    requires Holds(X0, x0, q)
    ensures k == PassKeys(s, q) + PassKeys(s, NextPass(s, q))
  {
    hide NextPass, PassKeys, Holds;
    k := seq(32, _ => 0);
    var X, x := X0, x0;
    var Z, z := seq(4, _ => 0), seq(16, _ => 0);
    var at := 0;
    while true
      invariant at == 0 || at == 16
      invariant Holds(X, x, if at == 0 then q else NextPass(s, q))
      invariant |k| == 32 && |Z| == 4 && |z| == 16
      invariant at == 16 ==> k[..16] == PassKeys(s, q)
      decreases 16 - at
    {
      var K;
      X, x, Z, z, K := Pass(s, X, x, Z, z, if at == 0 then q else NextPass(s, q));
      k := k[..at] + K + k[at + 16..];
      if at != 0 { break; }
      at := at + 16;
    }
  }

  /** X[j] = ((x[4j]<<24)|(x[4j+1]<<16)|(x[4j+2]<<8)|x[4j+3]) & 0xffffffff. */
  function Gather(a: bv32, b: bv32, c: bv32, d: bv32): bv32 {
    ((a << 24) | (b << 16) | (c << 8) | d) & 0xffff_ffff
  }

  lemma GatherCells(a: bv8, b: bv8, c: bv8, d: bv8)
    ensures Gather(Cell(a), Cell(b), Cell(c), Cell(d)) == LoadBe32([a, b, c, d])
    ensures StoreBe32(LoadBe32([a, b, c, d])) == [a, b, c, d]
  {
    StoreLoadBe32([a, b, c, d]);
  }

  lemma GatherWord(x: seq<bv32>, n: nat, key: seq<bv8>)
    requires |key| == 16 && |x| == 16 && n + 4 <= 16
    requires forall i | 0 <= i < 16 :: x[i] == Cell(key[i])
    ensures Gather(x[n], x[n + 1], x[n + 2], x[n + 3]) == LoadBe32(key[n..n + 4])
    ensures BytesAt(x, n, LoadBe32(key[n..n + 4]))
  {
    hide Cell, Gather, LoadBe32, StoreBe32;
    GatherCells(key[n], key[n + 1], key[n + 2], key[n + 3]);
    assert key[n..n + 4] == [key[n], key[n + 1], key[n + 2], key[n + 3]];
  }

  /** The bytes of a caller's key that count. */
  function UsedKey(key: seq<bv8>): (r: seq<bv8>)
    ensures |r| <= 16
  {
    if |key| > 16 then key[..16] else key
  }

  /** The two loops that put the key, padded with zeros, into the byte view. */
  method LoadBytes(len: nat, data: array<bv8>) returns (x: seq<bv32>)
    requires len <= 16 && len <= data.Length
    ensures |x| == 16
    ensures forall i | 0 <= i < 16 :: x[i] == Cell(PadKey(data[..len])[i])
  {
    x := seq(16, _ => 0);
    assert Cell(0) == 0;
    hide Cell;
    for i := 0 to len
      invariant |x| == 16
      invariant forall j | 0 <= j < i :: x[j] == Cell(data[j])
      invariant forall j | i <= j < 16 :: x[j] == 0
    {
      x := x[i := Widen(data[i])];
    }
  }

  /** The four gathering lines bring the word view in step with the byte view. */
  method LoadWords(x: seq<bv32>, ghost key: seq<bv8>) returns (X: seq<bv32>)
    requires |x| == 16 && |key| == 16
    requires forall i | 0 <= i < 16 :: x[i] == Cell(key[i])
    ensures Holds(X, x, KeyQuad(key))
  {
    hide Cell, Gather, LoadBe32, BytesAt;
    GatherWord(x, 0, key);
    GatherWord(x, 4, key);
    GatherWord(x, 8, key);
    GatherWord(x, 12, key);
    assert key[0..4] == key[..4] && key[12..16] == key[12..];
    X := [Gather(x[0], x[1], x[2], x[3]), Gather(x[4], x[5], x[6], x[7]),
          Gather(x[8], x[9], x[10], x[11]), Gather(x[12], x[13], x[14], x[15])];
  }

  /** C's conversion of an unsigned char to CAST_LONG. */
  function Widen(b: bv8): (w: bv32)
    ensures w == Cell(b)
  {
    b as bv32
  }

  /** The form in which a schedule is stored in CAST_KEY: rotate keys have 16 added and are
      cut to five bits. */
  ghost predicate Stores(words: seq<bv32>, sub: Subkeys)
    requires ValidSubkeys(sub)
  {
    && |words| == 32
    && forall i | 0 <= i < 16 ::
         words[2 * i] == sub.masking[i] && words[2 * i + 1] == (sub.rotate[i] + 16) & 0x1f
  }

  /** `words` are what CAST_set_key stores for a caller's key. */
  ghost predicate KeyedBy(words: seq<bv32>, s: Sboxes, key: seq<bv8>) {
    Stores(words, Schedule(s, PadKey(UsedKey(key))))
  }

  method StoreKey(key: CastKey, k: seq<bv32>)
    requires key.Valid() && |k| == 32
    modifies key.data
    ensures Stores(key.data[..], Subkeys(k[..16], k[16..]))
  {
    for i := 0 to 16
      invariant forall j | 0 <= j < i :: key.data[2 * j] == k[j] && key.data[2 * j + 1] == (k[j + 16] + 16) & 0x1f
    {
      key.data[i * 2] := k[i];
      key.data[i * 2 + 1] := (k[i + 16] + 16) & 0x1f;
    }
  }

  /** Everything CAST_set_key computes before it stores: the 32 words k[0..31]. */
  method ScheduleWords(s: Sboxes, len: nat, data: array<bv8>) returns (k: seq<bv32>)
    requires len <= 16 && len <= data.Length
    ensures |k| == 32 && Subkeys(k[..16], k[16..]) == Schedule(s, PadKey(data[..len]))
  {
    ghost var padded := PadKey(data[..len]);
    ghost var q := KeyQuad(padded);
    hide Cell, Holds, KeyQuad, NextPass, PassKeys;
    var x := LoadBytes(len, data);
    var X := LoadWords(x, padded);
    k := Expand(s, X, x, q);
  }

  /** CAST_set_key after the length has been cut to 16. */
  method FillKey(s: Sboxes, key: CastKey, len: nat, data: array<bv8>)
    requires key.Valid() && len <= 16 && len <= data.Length
    modifies key, key.data
    ensures Stores(key.data[..], Schedule(s, PadKey(old(data[..len]))))
    ensures key.shortKey <==> len <= 10
  {
    hide *;
    key.shortKey := len <= 10;
    var k := ScheduleWords(s, len, data);
    StoreKey(key, k);
  }

  method SetKey(s: Sboxes, key: CastKey, keyLen: nat, data: array<bv8>)
    requires key.Valid() && keyLen <= data.Length
    modifies key, key.data
    ensures KeyedBy(key.data[..], s, old(data[..keyLen]))
    ensures key.shortKey <==> keyLen <= 10
  {
    hide *;
    var len := if keyLen > 16 then 16 else keyLen;
    ghost var whole := data[..keyLen];
    assert whole[..len] == data[..len];
    FillKey(s, key, len, data);
    KeyedByPrefix(key.data[..], s, whole, len);
  }

  lemma KeyedByPrefix(words: seq<bv32>, s: Sboxes, key: seq<bv8>, len: nat)
    requires len == if |key| > 16 then 16 else |key|
    requires Stores(words, Schedule(s, PadKey(key[..len])))
    ensures KeyedBy(words, s, key)
  {
    hide Stores, Schedule, PadKey;
    assert key[..len] == UsedKey(key);
  }
}
