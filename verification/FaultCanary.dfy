/** The fault canary and the safe compare (cc/src/cc_fault_canary.c, cc/src/cc_cmp_safe.c,
    CC_HEAVISIDE_STEP in cc/corecrypto/cc_priv.h): when a computed canary compares equal to the
    expected one. */
module FaultCanary {

  const CC_FAULT_CANARY_SIZE := 16

  function Xor(a: bv8, b: bv8): bv8 { a ^ b }

  lemma XorZero(x: bv8)
    ensures Xor(x, 0) == x == Xor(0, x)
  {
  }

  lemma XorGroups(x: bv8, y: bv8, z: bv8)
    ensures Xor(Xor(x, y), z) == Xor(x, Xor(y, z)) == Xor(Xor(y, x), z)
  {
  }

  /** CC_HEAVISIDE_STEP on any 64-bit value. */
  function HeavisideStep(s: bv64): (r: bv64)
    ensures r == if s == 0 then 0 else 1
  {
    var t := (s & 0xffff_ffff) | (s >> 32);
    (0xffff_ffff + t) >> 32
  }

  /** cc_cmp_safe: 0 if and only if there is something to compare and all of it is equal. */
  method CmpSafe(num: nat, s: array<bv8>, t: array<bv8>) returns (rc: int)
    requires num <= s.Length && num <= t.Length
    ensures rc == if num > 0 && s[..num] == t[..num] then 0 else 1
  {
    var flag: bv8 := if num <= 0 then 1 else 0;
    for i := 0 to num
      invariant flag == 0 <==> num > 0 && s[..i] == t[..i]
    {
      Accumulate(flag, s[i], t[i]);
      flag := flag | Xor(s[i], t[i]);
    }
    flag := HeavisideStep(flag as bv64) as bv8;
    rc := flag as int;
  }

  lemma Accumulate(flag: bv8, x: bv8, y: bv8)
    ensures flag | Xor(x, y) == 0 <==> flag == 0 && x == y
  {
  }

  /** CC_FAULT_CANARY_EQUAL. */
  method CanaryEqual(a: array<bv8>, b: array<bv8>) returns (equal: bool)
    requires a.Length == b.Length == CC_FAULT_CANARY_SIZE
    ensures equal <==> a[..] == b[..]
  {
    var rc := CmpSafe(CC_FAULT_CANARY_SIZE, a, b);
    assert a[..CC_FAULT_CANARY_SIZE] == a[..] && b[..CC_FAULT_CANARY_SIZE] == b[..];
    equal := rc == 0;
  }

  // The meaning of the two folding loops.

  /** Where the inputs differ, byte by byte. */
  function Difference(a: seq<bv8>, b: seq<bv8>): (d: seq<bv8>)
    requires |a| == |b|
  {
    seq(|a|, i requires 0 <= i < |a| => Xor(a[i], b[i]))
  }

  /** The bytes c, c + 16, c + 32 and so on, XORed together. */
  function Lane(d: seq<bv8>, c: nat): bv8
    decreases |d| - c
  {
    if c >= |d| then 0 else Xor(d[c], Lane(d, c + CC_FAULT_CANARY_SIZE))
  }

  /** What the inputs leave in output position c; a short input is used cyclically. */
  function Residue(d: seq<bv8>, c: nat): bv8
    requires d != []
  {
    if |d| < CC_FAULT_CANARY_SIZE then d[c % |d|] else Lane(d, c)
  }

  /** A new last byte enters its own lane and no other. */
  lemma {:induction false} LaneGrows(d: seq<bv8>, x: bv8, c: nat)
    ensures Lane(d + [x], c)
         == if c <= |d| && (|d| - c) % CC_FAULT_CANARY_SIZE == 0 then Xor(Lane(d, c), x) else Lane(d, c)
    decreases |d| - c
  {
    hide Xor;
    if c < |d| {
      LaneGrows(d, x, c + CC_FAULT_CANARY_SIZE);
      XorGroups(d[c], Lane(d, c + CC_FAULT_CANARY_SIZE), x);
    } else if c == |d| {
      XorZero(x);
    }
  }

  /** The first loop: each output byte gets a difference and its canary byte. The canary may be
      the output buffer itself. */
  method SetFirst(out: array<bv8>, canary: array<bv8>, nbytes: nat, in1: array<bv8>, in2: array<bv8>)
    requires out.Length == canary.Length == CC_FAULT_CANARY_SIZE
    requires 0 < nbytes <= in1.Length && nbytes <= in2.Length
    requires in1 != out && in2 != out
    modifies out
    ensures forall c | 0 <= c < CC_FAULT_CANARY_SIZE ::
              out[c] == Xor(Difference(in1[..nbytes], in2[..nbytes])[c % nbytes], old(canary[c]))
  {
    ghost var d := Difference(in1[..nbytes], in2[..nbytes]);
    assert forall i | 0 <= i < nbytes :: d[i] == Xor(in1[i], in2[i]);
    hide Difference, Xor;
    for ci := 0 to CC_FAULT_CANARY_SIZE
      invariant forall c | 0 <= c < ci :: out[c] == Xor(d[c % nbytes], old(canary[c]))
      invariant forall c | ci <= c < CC_FAULT_CANARY_SIZE :: canary[c] == old(canary[c])
    {
      var bi := ci % nbytes;
      out[ci] := Xor(Xor(in1[bi], in2[bi]), canary[ci]);
    }
  }

  /** The second loop: later differences are folded in. `was` is the canary. */
  method SetRest(out: array<bv8>, ghost was: seq<bv8>, nbytes: nat, in1: array<bv8>, in2: array<bv8>)
    requires out.Length == |was| == CC_FAULT_CANARY_SIZE <= nbytes
    requires nbytes <= in1.Length && nbytes <= in2.Length
    requires in1 != out && in2 != out
    requires forall c | 0 <= c < CC_FAULT_CANARY_SIZE ::
               out[c] == Xor(Difference(in1[..nbytes], in2[..nbytes])[c], was[c])
    modifies out
    ensures forall c | 0 <= c < CC_FAULT_CANARY_SIZE ::
              out[c] == Xor(Lane(Difference(in1[..nbytes], in2[..nbytes]), c), was[c])
  {
    ghost var d := Difference(in1[..nbytes], in2[..nbytes]);
    assert forall i | 0 <= i < nbytes :: d[i] == Xor(in1[i], in2[i]);
    FirstLap(d);
    hide Lane, Difference, Xor;
    for i := CC_FAULT_CANARY_SIZE to nbytes
      invariant forall c | 0 <= c < CC_FAULT_CANARY_SIZE :: out[c] == Xor(Lane(d[..i], c), was[c])
    {
      NextByte(d, i);
      var bi := i % nbytes;
      var ci := i % CC_FAULT_CANARY_SIZE;
      XorGroups(d[i], Lane(d[..i], ci), was[ci]);
      out[ci] := Xor(Xor(in1[bi], in2[bi]), out[ci]);
    }
    assert d[..nbytes] == d;
  }

  /** cc_fault_canary_set. */
  method Set(out: array<bv8>, canary: array<bv8>, nbytes: nat, in1: array<bv8>, in2: array<bv8>)
    requires out.Length == canary.Length == CC_FAULT_CANARY_SIZE
    requires 0 < nbytes <= in1.Length && nbytes <= in2.Length
    requires in1 != out && in2 != out
    modifies out
    ensures forall c | 0 <= c < CC_FAULT_CANARY_SIZE ::
              out[c] == Xor(Residue(Difference(in1[..nbytes], in2[..nbytes]), c), old(canary[c]))
  {
    ghost var was := canary[..];
    SetFirst(out, canary, nbytes, in1, in2);
    if nbytes >= CC_FAULT_CANARY_SIZE {
      FirstLap(Difference(in1[..nbytes], in2[..nbytes]));
      SetRest(out, was, nbytes, in1, in2);
    }
  }

  lemma FirstLap(d: seq<bv8>)
    requires |d| >= CC_FAULT_CANARY_SIZE
    ensures forall c | 0 <= c < CC_FAULT_CANARY_SIZE ::
              c % |d| == c && Lane(d[..CC_FAULT_CANARY_SIZE], c) == d[c]
  {
  }

  lemma NextByteAt(d: seq<bv8>, i: nat, c: nat)
    requires c < CC_FAULT_CANARY_SIZE <= i < |d|
    ensures Lane(d[..i + 1], c) == if c == i % CC_FAULT_CANARY_SIZE then Xor(Lane(d[..i], c), d[i]) else Lane(d[..i], c)
  {
    assert d[..i + 1] == d[..i] + [d[i]];
    LaneGrows(d[..i], d[i], c);
    hide Lane;
    assert (i - c) % CC_FAULT_CANARY_SIZE == 0 <==> c == i % CC_FAULT_CANARY_SIZE;
  }

  lemma NextByte(d: seq<bv8>, i: nat)
    requires CC_FAULT_CANARY_SIZE <= i < |d|
    ensures i % |d| == i
    ensures forall c | 0 <= c < CC_FAULT_CANARY_SIZE ::
              Lane(d[..i + 1], c) ==
                if c == i % CC_FAULT_CANARY_SIZE then Xor(Lane(d[..i], c), d[i]) else Lane(d[..i], c)
  {
    hide Lane;
    forall c | 0 <= c < CC_FAULT_CANARY_SIZE
      ensures Lane(d[..i + 1], c) ==
                if c == i % CC_FAULT_CANARY_SIZE then Xor(Lane(d[..i], c), d[i]) else Lane(d[..i], c)
    {
      NextByteAt(d, i, c);
    }
  }

  // What the check is worth.

  ghost predicate Passes(d: seq<bv8>)
    requires d != []
  {
    forall c | 0 <= c < CC_FAULT_CANARY_SIZE :: Residue(d, c) == 0
  }

  /** The check as a caller makes it: the canary compares equal if and only if every lane of the
      difference cancels. */
  method Check(canary: array<bv8>, nbytes: nat, in1: array<bv8>, in2: array<bv8>) returns (equal: bool)
    requires canary.Length == CC_FAULT_CANARY_SIZE
    requires 0 < nbytes <= in1.Length && nbytes <= in2.Length
    ensures equal <==> Passes(Difference(in1[..nbytes], in2[..nbytes]))
  {
    var out := new bv8[CC_FAULT_CANARY_SIZE];
    Set(out, canary, nbytes, in1, in2);
    equal := CanaryEqual(canary, out);
    ghost var d := Difference(in1[..nbytes], in2[..nbytes]);
    forall c | 0 <= c < CC_FAULT_CANARY_SIZE
      ensures out[c] == canary[c] <==> Residue(d, c) == 0
    {
      Masked(Residue(d, c), canary[c]);
    }
    assert equal ==> forall c | 0 <= c < CC_FAULT_CANARY_SIZE :: out[..][c] == canary[..][c];
  }

  lemma Masked(x: bv8, y: bv8)
    ensures Xor(x, y) == y <==> x == 0
  {
  }

  lemma {:induction false} EqualLane(d: seq<bv8>, c: nat)
    requires forall i | c <= i < |d| :: d[i] == 0
    ensures Lane(d, c) == 0
    decreases |d| - c
  {
    if c < |d| {
      EqualLane(d, c + CC_FAULT_CANARY_SIZE);
    }
  }

  /** Equal inputs always pass. */
  lemma EqualInputsPass(a: seq<bv8>)
    requires a != []
    ensures Passes(Difference(a, a))
  {
    var d := Difference(a, a);
    forall c | 0 <= c < CC_FAULT_CANARY_SIZE ensures Residue(d, c) == 0 {
      if |d| >= CC_FAULT_CANARY_SIZE {
        EqualLane(d, c);
      }
    }
  }

  /** Up to 16 bytes, only equal inputs pass. */
  lemma ShortInputsAreDecided(a: seq<bv8>, b: seq<bv8>)
    requires 0 < |a| == |b| <= CC_FAULT_CANARY_SIZE
    ensures Passes(Difference(a, b)) <==> a == b
  {
    if a == b {
      EqualInputsPass(a);
    }
    var d := Difference(a, b);
    if Passes(d) {
      forall i | 0 <= i < |a| ensures a[i] == b[i] {
        assert i < |d| < CC_FAULT_CANARY_SIZE ==> i % |d| == i;
        assert Lane(d, i + CC_FAULT_CANARY_SIZE) == 0;
        assert Residue(d, i) == d[i] == 0;
        Cancels(a[i], b[i]);
      }
    }
  }

  lemma Cancels(x: bv8, y: bv8)
    ensures Xor(x, y) == 0 <==> x == y
  {
  }

  /** The lane of c only depends on the bytes in it. */
  lemma {:induction false} LaneOfOne(d: seq<bv8>, c: nat, k: nat)
    requires k < |d| && c <= k && (k - c) % CC_FAULT_CANARY_SIZE == 0
    requires forall i | 0 <= i < |d| && i != k && i % CC_FAULT_CANARY_SIZE == k % CC_FAULT_CANARY_SIZE :: d[i] == 0
    ensures Lane(d, c) == d[k]
    decreases |d| - c
  {
    if c == k {
      EqualTail(d, k + CC_FAULT_CANARY_SIZE, k);
    } else {
      LaneOfOne(d, c + CC_FAULT_CANARY_SIZE, k);
    }
  }

  lemma {:induction false} EqualTail(d: seq<bv8>, c: nat, k: nat)
    requires c > k && c % CC_FAULT_CANARY_SIZE == k % CC_FAULT_CANARY_SIZE
    requires forall i | 0 <= i < |d| && i != k && i % CC_FAULT_CANARY_SIZE == k % CC_FAULT_CANARY_SIZE :: d[i] == 0
    ensures Lane(d, c) == 0
    decreases |d| - c
  {
    if c < |d| {
      EqualTail(d, c + CC_FAULT_CANARY_SIZE, k);
    }
  }

  /** At any length, a difference that is alone in its lane is caught. */
  lemma LoneDifferenceIsCaught(a: seq<bv8>, b: seq<bv8>, k: nat)
    requires k < |a| == |b| && a[k] != b[k]
    requires forall i | 0 <= i < |a| && i != k && i % CC_FAULT_CANARY_SIZE == k % CC_FAULT_CANARY_SIZE :: a[i] == b[i]
    ensures !Passes(Difference(a, b))
  {
    var d := Difference(a, b);
    Cancels(a[k], b[k]);
    if |a| <= CC_FAULT_CANARY_SIZE {
      ShortInputsAreDecided(a, b);
    } else {
      var c := k % CC_FAULT_CANARY_SIZE;
      LaneOfOne(d, c, k);
      assert Residue(d, c) == d[k] != 0;
    }
  }

  /** Beyond 16 bytes, at every length, some unequal inputs pass: two equal differences in one
      lane cancel. */
  lemma LongInputsCanCancel(n: nat)
    requires n > CC_FAULT_CANARY_SIZE
    ensures var a := seq(n, i => if i == 0 || i == 16 then 1 as bv8 else 0);
            var b := seq(n, i => 0 as bv8);
            a != b && Passes(Difference(a, b))
  {
    var a := seq(n, i => if i == 0 || i == 16 then 1 as bv8 else 0);
    var b := seq(n, i => 0 as bv8);
    assert a[0] == 1 && b[0] == 0;
    var d := Difference(a, b);
    forall c | 0 <= c < CC_FAULT_CANARY_SIZE ensures Residue(d, c) == 0 {
      if c == 0 {
        EqualLane(d, 32);
        assert Lane(d, 16) == Xor(d[16], Lane(d, 32)) == 1;
      } else {
        EqualLane(d, c + CC_FAULT_CANARY_SIZE);
      }
    }
  }
}
