/** The branch-free bit counts of cc/corecrypto/cc_priv.h: the portable loops for leading zeros,
    trailing zeros and the first set bit. The 32- and the 64-bit loop of each kind differ only in
    the width, which is a parameter here; the counters are 32-bit in both. */
module BitCounts {
  import opened Bytes

  function Pow2(n: nat): (p: nat)
    ensures p > 0
  {
    if n == 0 then 1 else 2 * Pow2(n - 1)
  }

  lemma Times(d: nat, x: nat, y: nat)
    requires x < y
    ensures x * d + d <= y * d
  {
    var k := y - (x + 1);
    assert y * d == x * d + d + k * d;
  }

  /** Quotient and remainder are what they should be. */
  lemma Quotient(a: nat, d: nat, q: nat, r: nat)
    requires r < d && a == q * d + r
    ensures a / d == q && a % d == r
  {
    var q1, r1 := a / d, a % d;
    assert a == d * q1 + r1 == q1 * d + r1;
    if q1 < q {
      Times(d, q1, q);
      assert false;
    } else if q < q1 {
      Times(d, q, q1);
      assert false;
    }
  }

  /** A smaller power of two divides a larger one at least twice. */
  lemma {:induction false} Pow2Divides(m: nat, n: nat) returns (q: nat)
    requires m < n
    ensures q > 0 && Pow2(n) == q * (2 * Pow2(m)) == (2 * q) * Pow2(m)
  {
    if m + 1 == n {
      q := 1;
    } else {
      var half := Pow2Divides(m, n - 1);
      q := 2 * half;
    }
  }

  // Unsigned arithmetic, 32 bits wide, with the bitwise operators defined bit by bit.

  function Sub(a: uint32, b: uint32): uint32 { (a - b) % 0x1_0000_0000 }

  function Not(a: uint32): uint32 { 0xFFFF_FFFF - a }

  function And(a: nat, m: nat): (r: nat)
    ensures r <= a
  {
    if a == 0 || m == 0 then 0
    else 2 * And(a / 2, m / 2) + if a % 2 == 1 && m % 2 == 1 then 1 else 0
  }

  function Or(a: nat, b: nat): nat {
    if a == 0 then b else if b == 0 then a
    else 2 * Or(a / 2, b / 2) + if a % 2 == 1 || b % 2 == 1 then 1 else 0
  }

  /** A mask of ones keeps everything below it. */
  lemma {:induction false} KeepAll(a: nat, k: nat)
    requires a < Pow2(k)
    ensures And(a, Pow2(k) - 1) == And(Pow2(k) - 1, a) == a
  {
    if k > 0 && a > 0 {
      KeepAll(a / 2, k - 1);
      assert (Pow2(k) - 1) / 2 == Pow2(k - 1) - 1;
    }
  }

  lemma AllOnes()
    ensures Pow2(32) == 0x1_0000_0000
  {
    assert Pow2(8) == 256;
    assert Pow2(16) == 65536;
    assert Pow2(24) == 16777216;
  }

  /** `a & (bit - 1)`: a zero bit wraps around to a mask of ones. */
  function UnlessBit(a: uint32, bit: uint32): (r: uint32)
    requires bit <= 1
    ensures r == if bit == 1 then 0 else a
  {
    AllOnes();
    KeepAll(a, 32);
    And(a, Sub(bit, 1))
  }

  /** `~(bit - 1) & a`. */
  function IfBit(bit: uint32, a: uint32): (r: uint32)
    requires bit <= 1
    ensures r == if bit == 1 then a else 0
  {
    AllOnes();
    KeepAll(a, 32);
    And(Not(Sub(bit, 1)), a)
  }

  /** `data >> i`. */
  function Shr(data: nat, i: nat): nat {
    if i == 0 then data else Shr(data, i - 1) / 2
  }

  /** `(data >> i) & 1`. */
  function Bit(data: nat, i: nat): (bit: uint32)
    ensures bit <= 1
  {
    Shr(data, i) % 2
  }

  /** The i low bits. */
  function Low(data: nat, i: nat): (low: nat)
    ensures low < Pow2(i)
  {
    if i == 0 then 0 else Low(data, i - 1) + if Bit(data, i - 1) == 1 then Pow2(i - 1) else 0
  }

  lemma OnePart(s: nat, bit: nat, p: nat)
    requires bit <= 1
    ensures (2 * s + bit) * p == s * (2 * p) + if bit == 1 then p else 0
  {
  }

  lemma {:induction false} Parts(data: nat, i: nat)
    ensures data == Shr(data, i) * Pow2(i) + Low(data, i)
  {
    if i > 0 {
      Parts(data, i - 1);
      OnePart(Shr(data, i), Bit(data, i - 1), Pow2(i - 1));
    }
  }

  /** All of a word's bits. */
  lemma WholeWord(data: nat, w: nat)
    requires data < Pow2(w)
    ensures Low(data, w) == data && Shr(data, w) == 0
  {
    Parts(data, w);
    if Shr(data, w) > 0 {
      Times(Pow2(w), 0, Shr(data, w));
      assert false;
    }
  }

  // What the counts mean, independently of how they are found.

  /** c leading zeros in a word of w bits: the value lies between neighbouring powers of two; a
      zero word has w. */
  ghost predicate IsClz(w: nat, data: nat, c: nat) {
    if data == 0 then c == w else c < w && Pow2(w - 1 - c) <= data < 2 * Pow2(w - 1 - c)
  }

  /** c trailing zeros: 2^c is the largest power of two that divides the value; a zero word has
      w. */
  ghost predicate IsCtz(w: nat, data: nat, c: nat) {
    if data == 0 then c == w else data % Pow2(c) == 0 && data % (2 * Pow2(c)) != 0
  }

  lemma ClzStep(data: nat, i: nat, b: nat)
    requires IsClz(i, Low(data, i), b)
    ensures IsClz(i + 1, Low(data, i + 1), if Bit(data, i) == 1 then 0 else b + 1)
  {
    var low, bit := Low(data, i), Bit(data, i);
    assert Low(data, i + 1) == low + if bit == 1 then Pow2(i) else 0;
    hide Low, Bit;
  }

  /** cc_clz32_fallback and cc_clz64_fallback. */
  method Clz(w: nat, data: nat) returns (b: uint32)
    requires w <= 64 && data < Pow2(w)
    ensures IsClz(w, data, b)
  {
    WholeWord(data, w);
    assert IsClz(0, 0, 0);
    hide Low, Shr, Bit, UnlessBit, IsClz, Pow2;
    b := 0;
    var bit: uint32 := 0;
    for i := 0 to w
      invariant b <= i
      invariant IsClz(i, Low(data, i), b)
    {
      ClzStep(data, i, b);
      bit := Bit(data, i);
      b := b + (1 - bit);
      b := UnlessBit(b, bit);
    }
  }

  /** A new lowest bit. */
  lemma CtzDown(data: nat, i: nat, n: nat, b: nat)
    requires IsCtz(n, Shr(data, i + 1), b)
    ensures IsCtz(n + 1, Shr(data, i), if Bit(data, i) == 1 then 0 else b + 1)
  {
    var h, bit := Shr(data, i + 1), Bit(data, i);
    assert Shr(data, i) == 2 * h + bit;
    hide Low, Shr, Bit;
    if bit == 0 && h > 0 {
      Doubles(h, Pow2(b));
      Doubles(h, 2 * Pow2(b));
    }
  }

  lemma Doubles(h: nat, d: nat)
    requires d > 0
    ensures (2 * h) % (2 * d) == 2 * (h % d)
  {
    assert 2 * h == (h / d) * (2 * d) + 2 * (h % d);
    Quotient(2 * h, 2 * d, h / d, 2 * (h % d));
  }

  /** cc_ctz32_fallback and cc_ctz64_fallback. */
  method Ctz(w: nat, data: nat) returns (b: uint32)
    requires w <= 64 && data < Pow2(w)
    ensures IsCtz(w, data, b)
  {
    WholeWord(data, w);
    assert IsCtz(0, 0, 0);
    hide Low, Shr, Bit, UnlessBit, IsCtz, Pow2;
    b := 0;
    var bit: uint32 := 0;
    for i := w downto 0
      invariant b <= w - i
      invariant IsCtz(w - i, Shr(data, i), b)
    {
      CtzDown(data, i, w - (i + 1), b);
      bit := Bit(data, i);
      b := b + (1 - bit);
      b := UnlessBit(b, bit);
    }
  }

  /** A higher power of two does not change what lower ones divide. */
  lemma HigherBit(low: nat, b: nat, i: nat)
    requires b < i
    ensures (low + Pow2(i)) % Pow2(b) == low % Pow2(b)
    ensures (low + Pow2(i)) % (2 * Pow2(b)) == low % (2 * Pow2(b))
  {
    var q := Pow2Divides(b, i);
    var d := Pow2(b);
    hide Pow2;
    SameRemainder(low, q, 2 * d);
    SameRemainder(low, 2 * q, d);
  }

  lemma AlonePower(i: nat)
    ensures Pow2(i) % Pow2(i) == 0 && Pow2(i) % (2 * Pow2(i)) != 0
  {
    var p := Pow2(i);
    hide Pow2;
    Quotient(p, p, 1, 0);
    Quotient(p, 2 * p, 0, p);
  }

  /** A new highest bit does not matter once a lower one is set. */
  lemma CtzUp(data: nat, i: nat, b: nat)
    requires IsCtz(i, Low(data, i), b) && b <= i
    requires Low(data, i) != 0 ==> b < i
    ensures IsCtz(i + 1, Low(data, i + 1), if Low(data, i) == 0 && Bit(data, i) == 0 then b + 1 else b)
    ensures Low(data, i + 1) == 0 <==> Low(data, i) == 0 && Bit(data, i) == 0
  {
    var low := Low(data, i);
    assert Low(data, i + 1) == low + if Bit(data, i) == 1 then Pow2(i) else 0;
    hide Low, Bit, Pow2;
    if low != 0 {
      HigherBit(low, b, i);
    } else {
      AlonePower(i);
    }
  }

  lemma SameRemainder(low: nat, k: nat, d: nat)
    requires d > 0
    ensures (low + k * d) % d == low % d
  {
    var q, r := low / d, low % d;
    assert low + k * d == (q + k) * d + r;
    Quotient(low + k * d, d, q + k, r);
  }

  /** cc_ffs32_fallback and cc_ffs64_fallback: one more than the trailing zeros, or 0. */
  method Ffs(w: nat, data: nat) returns (r: uint32)
    requires w <= 64 && data < Pow2(w)
    ensures if data == 0 then r == 0 else r > 0 && IsCtz(w, data, r - 1)
  {
    WholeWord(data, w);
    assert IsCtz(0, 0, 0);
    hide Low, Shr, Bit, Or, UnlessBit, IfBit, IsCtz, Pow2;
    var b: uint32 := 0;
    var bit: uint32 := 0;
    var seen: uint32 := 0;
    for i := 0 to w
      invariant b <= i && seen <= 1
      invariant seen == 0 <==> Low(data, i) == 0
      invariant seen == 1 ==> b < i
      invariant IsCtz(i, Low(data, i), b)
    {
      CtzUp(data, i, b);
      bit := Bit(data, i);
      seen := Or(seen, bit);
      b := b + UnlessBit(1 - bit, seen);
    }
    r := IfBit(seen, b + 1);
  }

  // The specifications leave no choice, and the 64-bit count is two 32-bit ones.

  lemma Pow2Apart(m: nat, n: nat)
    requires m < n
    ensures 2 * Pow2(m) <= Pow2(n)
  {
    var q := Pow2Divides(m, n);
    if q > 1 {
      Times(2 * Pow2(m), 1, q);
    }
  }

  lemma ClzIsUnique(w: nat, data: nat, c: nat, d: nat)
    requires IsClz(w, data, c) && IsClz(w, data, d)
    ensures c == d
  {
    if data > 0 && c < d {
      Pow2Apart(w - 1 - d, w - 1 - c);
    } else if data > 0 && d < c {
      Pow2Apart(w - 1 - c, w - 1 - d);
    }
  }

  lemma CtzIsUnique(w: nat, data: nat, c: nat, d: nat)
    requires IsCtz(w, data, c) && IsCtz(w, data, d)
    ensures c == d
  {
    if data > 0 && c < d {
      CtzIsLargest(data, c, d);
    } else if data > 0 && d < c {
      CtzIsLargest(data, d, c);
    }
  }

  /** A larger power of two divides less. */
  lemma CtzIsLargest(data: nat, c: nat, d: nat)
    requires c < d && data % Pow2(d) == 0
    ensures data % (2 * Pow2(c)) == 0
  {
    var q := Pow2Divides(c, d);
    DivisorDivides(data, q, 2 * Pow2(c));
  }

  lemma DivisorDivides(data: nat, q: nat, p: nat)
    requires q > 0 && p > 0 && q * p > 0 && data % (q * p) == 0
    ensures data % p == 0
  {
    var d := q * p;
    var k := data / d;
    assert data == k * d;
    Regroup(k, q, p);
    Quotient(data, p, k * q, 0);
  }

  lemma Regroup(k: nat, q: nat, p: nat)
    ensures k * (q * p) == (k * q) * p
  {
  }

  /** The bit counted by ffs is the one counted by ctz, one further. */
  lemma FfsIsCtzPlusOne(w: nat, data: nat, c: nat, r: nat)
    requires data != 0 && IsCtz(w, data, c)
    requires r > 0 && IsCtz(w, data, r - 1)
    ensures r == c + 1
  {
    CtzIsUnique(w, data, c, r - 1);
  }

  lemma {:induction false} Pow2Adds(m: nat, n: nat)
    ensures Pow2(m + n) == Pow2(m) * Pow2(n)
  {
    if m > 0 {
      Pow2Adds(m - 1, n);
      Regroup(2, Pow2(m - 1), Pow2(n));
    }
  }

  /** Leading zeros of a double word: those of its high half, or all of it and those of its low
      half. */
  lemma ClzSplits(w: nat, hi: nat, lo: nat, c: nat)
    requires lo < Pow2(w) && hi < Pow2(w)
    requires IsClz(w, if hi > 0 then hi else lo, c)
    ensures IsClz(2 * w, hi * Pow2(w) + lo, if hi > 0 then c else w + c)
  {
    if hi > 0 {
      var e, p := Pow2(w - 1 - c), Pow2(w);
      Pow2Adds(w - 1 - c, w);
      assert w - 1 - c + w == 2 * w - 1 - c;
      Regroup(2, e, p);
      if e < hi {
        Times(p, e, hi);
      }
      Times(p, hi, 2 * e);
      assert 2 * e * p == 2 * (e * p);
      Times(p, 0, hi);
    } else if lo > 0 {
      assert 2 * w - 1 - (w + c) == w - 1 - c;
    }
  }
}
