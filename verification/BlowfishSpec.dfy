/** Blowfish as its design states it: sixteen rounds with a swap after each, the last swap
    undone, output whitening, and decryption as encryption with the P-array reversed. */
module BlowfishSpec {
  import opened Words
  import opened Blocks

  type Mixer = bv32 -> bv32

  /** One round: key the left half, mix the right half, swap. */
  function Round(f: Mixer, k: bv32, p: Block): Block {
    var l := Xor(p.0, k);
    (Xor(p.1, f(l)), l)
  }

  /** The first `n` rounds. */
  function Rounds(f: Mixer, k: seq<bv32>, n: nat, p: Block): Block
    requires n <= |k|
  {
    if n == 0 then p else Round(f, k[n - 1], Rounds(f, k, n - 1, p))
  }

  /** All sixteen rounds; the last swap is undone and both halves are whitened. */
  function Encrypt(f: Mixer, k: seq<bv32>, p: Block): Block
    requires |k| == 18
  {
    var q := Rounds(f, k, 16, p);
    (Xor(q.1, k[17]), Xor(q.0, k[16]))
  }

  function Reversed(k: seq<bv32>): (r: seq<bv32>)
    ensures |r| == |k| && forall i | 0 <= i < |k| :: r[i] == k[|k| - 1 - i]
  {
    seq(|k|, i requires 0 <= i < |k| => k[|k| - 1 - i])
  }

  function Decrypt(f: Mixer, k: seq<bv32>, p: Block): Block
    requires |k| == 18
  {
    Encrypt(f, Reversed(k), p)
  }

  lemma XorCancels()
    ensures forall a: bv32, b: bv32 {:trigger Xor(Xor(a, b), b)} :: Xor(Xor(a, b), b) == a
  {
  }

  lemma XorCommutes(a: bv32, b: bv32, c: bv32)
    ensures Xor(Xor(a, b), c) == Xor(Xor(a, c), b)
  {
    var ab, ac := a ^ b, a ^ c;
    assert ab ^ c == ac ^ b;
    assert Xor(ab, c) == Xor(ac, b);
  }

  /** Going back through the keys, the reversed cipher retraces the rounds of the cipher: before
      its round i its halves are the crossed halves after round 16 - i, each still keyed. */
  lemma {:induction false} Retrace(f: Mixer, k: seq<bv32>, p: Block, i: nat)
    requires |k| == 18 && i <= 16
    ensures var u, q := Rounds(f, Reversed(k), i, Encrypt(f, k, p)), Rounds(f, k, 16 - i, p);
            && Xor(u.0, k[17 - i]) == q.1
            && Xor(u.1, k[16 - i]) == q.0
  {
    XorCancels();
    hide Xor;
    if i != 0 {
      Retrace(f, k, p, i - 1);
      var r, c := Reversed(k), Encrypt(f, k, p);
      var u, q := Rounds(f, r, i - 1, c), Rounds(f, k, 17 - i, p);
      var q0 := Rounds(f, k, 16 - i, p);
      assert r[i - 1] == k[18 - i];
      assert Rounds(f, r, i, c) == Round(f, k[18 - i], u);
      assert q == Round(f, k[16 - i], q0);
      XorCommutes(u.1, f(q.1), k[17 - i]);
    }
  }

  lemma DecryptAfterEncrypt(f: Mixer, k: seq<bv32>, p: Block)
    requires |k| == 18
    ensures Decrypt(f, k, Encrypt(f, k, p)) == p
  {
    Retrace(f, k, p, 16);
  }

  /** Decryption inverts encryption on both sides, for every P-array and every mixing
      function. */
  lemma Inverts(f: Mixer, k: seq<bv32>, p: Block)
    requires |k| == 18
    ensures Decrypt(f, k, Encrypt(f, k, p)) == p
    ensures Encrypt(f, k, Decrypt(f, k, p)) == p
  {
    DecryptAfterEncrypt(f, k, p);
    DecryptAfterEncrypt(f, Reversed(k), p);
    assert Reversed(Reversed(k)) == k;
  }
}
