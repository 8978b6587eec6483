/** A Feistel network with the swap after every round, for any round function. Both
    directions are written as the standard writes them, so that the unrolled ciphers can be
    compared with them. */
module Feistel {
  import opened Blocks

  /** One numbered round: the right half moves left, the left half is mixed. */
  type RoundFn = (nat, bv32) -> bv32

  function Swap(p: Block): Block { (p.1, p.0) }

  function Round(f: RoundFn, i: nat, p: Block): Block { (p.1, p.0 ^ f(i, p.1)) }

  /** Rounds 0 to n - 1 in ascending order. */
  function Up(f: RoundFn, n: nat, p: Block): Block {
    if n == 0 then p else Round(f, n - 1, Up(f, n - 1, p))
  }

  /** Rounds n - 1 to 0 in descending order. */
  function Down(f: RoundFn, n: nat, p: Block): Block {
    if n == 0 then p else Down(f, n - 1, Round(f, n - 1, p))
  }

  function Encrypt(f: RoundFn, n: nat, p: Block): Block { Swap(Up(f, n, p)) }

  function Decrypt(f: RoundFn, n: nat, p: Block): Block { Swap(Down(f, n, p)) }

  lemma RoundUndoesItself(f: RoundFn, i: nat, p: Block)
    ensures Round(f, i, Swap(Round(f, i, p))) == Swap(p)
  {
  }

  lemma {:induction false} DownAfterUp(f: RoundFn, n: nat, p: Block)
    ensures Down(f, n, Swap(Up(f, n, p))) == Swap(p)
  {
    if n != 0 {
      RoundUndoesItself(f, n - 1, Up(f, n - 1, p));
      DownAfterUp(f, n - 1, p);
    }
  }

  lemma {:induction false} UpAfterDown(f: RoundFn, n: nat, p: Block)
    ensures Up(f, n, Swap(Down(f, n, p))) == Swap(p)
  {
    if n != 0 {
      UpAfterDown(f, n - 1, Round(f, n - 1, p));
      RoundUndoesItself(f, n - 1, p);
    }
  }

  /** Decryption inverts encryption on both sides, whatever the round function. */
  lemma Inverts(f: RoundFn, n: nat, p: Block)
    ensures Decrypt(f, n, Encrypt(f, n, p)) == p
    ensures Encrypt(f, n, Decrypt(f, n, p)) == p
  {
    DownAfterUp(f, n, p);
    UpAfterDown(f, n, p);
  }

  /** The recurrence decides: whatever halves follow it, the ciphertext is the last pair of them
      with the right half first, and decryption leads back. */
  lemma {:induction false} RecurrenceUp(f: RoundFn, n: nat, l: seq<bv32>, r: seq<bv32>)
    requires |l| == |r| && n < |l|
    requires forall i | 0 <= i < n :: l[i + 1] == r[i] && r[i + 1] == l[i] ^ f(i, r[i])
    ensures Up(f, n, (l[0], r[0])) == (l[n], r[n])
  {
    if n > 0 {
      RecurrenceUp(f, n - 1, l, r);
      assert l[n - 1 + 1] == r[n - 1] && r[n - 1 + 1] == l[n - 1] ^ f(n - 1, r[n - 1]);
    }
  }

  lemma RecurrenceDecides(f: RoundFn, n: nat, l: seq<bv32>, r: seq<bv32>)
    requires |l| == |r| && n < |l|
    requires forall i | 0 <= i < n :: l[i + 1] == r[i] && r[i + 1] == l[i] ^ f(i, r[i])
    ensures Encrypt(f, n, (l[0], r[0])) == (r[n], l[n])
    ensures Decrypt(f, n, (r[n], l[n])) == (l[0], r[0])
  {
    RecurrenceUp(f, n, l, r);
    Inverts(f, n, (l[0], r[0]));
  }

  lemma SameRound(f: RoundFn, g: RoundFn, i: nat, p: Block)
    requires forall x: bv32 :: f(i, x) == g(i, x)
    ensures Round(f, i, p) == Round(g, i, p)
  {
    var x := p.1;
    assert f(i, x) == g(i, x);
  }

  /** Networks whose rounds agree are the same network. */
  lemma {:induction false} SameRounds(f: RoundFn, g: RoundFn, n: nat, p: Block)
    requires forall i: nat, x: bv32 :: i < n ==> f(i, x) == g(i, x)
    ensures Up(f, n, p) == Up(g, n, p) && Down(f, n, p) == Down(g, n, p)
  {
    if n != 0 {
      var i := n - 1;
      SameRounds(f, g, i, p);
      SameRounds(f, g, i, Round(f, i, p));
      SameRound(f, g, i, p);
      SameRound(f, g, i, Up(f, i, p));
    }
  }
}
