/** Which way CC_ROL turns (cc/corecrypto/cc_priv.h): every bit moves up, and those that leave at
    the top come back at the bottom. */
module Rotation {
  import opened Words

  // Shifts get names here so that their laws can be combined.

  function Bit(w: bv32, i: bv32): bv32
    requires i < 32
  {
    (w >> i) & 1
  }

  function Up(w: bv32, m: bv32): bv32
    requires m <= 32
  {
    w << m
  }

  function Down(w: bv32, m: bv32): bv32
    requires m <= 32
  {
    w >> m
  }

  function Either(a: bv32, b: bv32): bv32 { a | b }

  lemma BitOfEither(a: bv32, b: bv32, k: bv32)
    requires k < 32
    ensures Bit(b, k) == 0 ==> Bit(Either(a, b), k) == Bit(a, k)
    ensures Bit(a, k) == 0 ==> Bit(Either(a, b), k) == Bit(b, k)
  {
  }

  // Of the two shifts of a turn by m, one carries bit i to its place k and the other leaves 0.

  lemma BitMovesUp(w: bv32, m: bv32, i: bv32, k: bv32)
    requires m < 32 && i < 32 && k < 32 && i + m == k
    ensures Bit(Up(w, m), k) == Bit(w, i)
  {
  }

  lemma NothingBelow(w: bv32, m: bv32, i: bv32, k: bv32)
    requires m < 32 && i < 32 && k < 32 && i + m == k
    ensures Bit(Down(w, 32 - m), k) == 0
  {
  }

  lemma BitWraps(w: bv32, m: bv32, i: bv32, k: bv32)
    requires m < 32 && i < 32 && k < 32 && i + m == k + 32
    ensures Bit(Down(w, 32 - m), k) == Bit(w, i)
  {
  }

  lemma NothingAbove(w: bv32, m: bv32, i: bv32, k: bv32)
    requires m < 32 && i < 32 && k < 32 && i + m == k + 32
    ensures Bit(Up(w, m), k) == 0
  {
  }

  lemma BitTurns(w: bv32, m: bv32, i: bv32, k: bv32)
    requires m < 32 && i < 32 && k < 32
    requires i + m == k || i + m == k + 32
    ensures Bit(Either(Up(w, m), Down(w, 32 - m)), k) == Bit(w, i)
  {
    hide *;
    BitOfEither(Up(w, m), Down(w, 32 - m), k);
    if i + m == k {
      BitMovesUp(w, m, i, k);
      NothingBelow(w, m, i, k);
    } else {
      BitWraps(w, m, i, k);
      NothingAbove(w, m, i, k);
    }
  }

  lemma Place(n: bv32, i: bv32, m: bv32, k: bv32)
    requires i < 32 && m == n & 31 && k == (i + n) & 31
    ensures m < 32 && k < 32
    ensures i + m == k || i + m == k + 32
  {
  }

  lemma RolIsShifts(w: bv32, n: bv32)
    ensures n & 31 < 32
    ensures Rol(w, n) == Either(Up(w, n & 31), Down(w, 32 - (n & 31)))
  {
  }

  lemma RolBits(w: bv32, n: bv32, i: bv32, k: bv32)
    requires i < 32 && k == (i + n) & 31
    ensures k < 32 && Bit(Rol(w, n), k) == Bit(w, i)
  {
    var m := n & 31;
    Place(n, i, m, k);
    hide *;
    RolIsShifts(w, n);
    BitTurns(w, m, i, k);
  }

  /** The rotation turns left: bit i of the word becomes bit i + n, counted modulo 32. */
  lemma RolTurnsLeft(w: bv32, n: bv32, i: bv32, k: bv32)
    requires i < 32 && k == (i + n) & 31
    ensures (Rol(w, n) >> k) & 1 == (w >> i) & 1
  {
    RolBits(w, n, i, k);
    hide Rol;
  }
}
