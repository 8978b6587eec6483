/** The power-on self-test runner (cc_fips/src/fipspost_post.c): the order of the tests, the
    failure policy that the mode flags select, and the code that a failure returns. */
module PostRunner {

  const CCPOST_GENERIC_FAILURE := -72

  // Mode flags (cc_fips/corecrypto/fipspost.h).

  const VERBOSE: bv32 := 0x8
  const US_FORCEFAIL: bv32 := 0x10
  const KS_FORCEFAIL: bv32 := 0x20
  const NOINTEG: bv32 := 0x40
  const NOPANIC: bv32 := 0x100

  predicate Has(mode: bv32, flag: bv32) { mode & flag != 0 }

  function With(mode: bv32, flag: bv32): bv32 { mode | flag }

  predicate ForceFail(kernel: bool, mode: bv32) { Has(mode, if kernel then KS_FORCEFAIL else US_FORCEFAIL) }

  predicate NoInteg(mode: bv32) { Has(mode, NOINTEG) }

  predicate NoPanic(mode: bv32) { Has(mode, NOPANIC) }

  /** Which bits they are. */
  lemma PolicyBits(kernel: bool, mode: bv32)
    ensures ForceFail(kernel, mode) <==> (mode >> (if kernel then 5 else 4)) & 1 == 1
    ensures NoInteg(mode) <==> (mode >> 6) & 1 == 1
    ensures NoPanic(mode) <==> (mode >> 8) & 1 == 1
  {
  }

  lemma WithKeeps(mode: bv32, flag: bv32, other: bv32)
    requires flag & other == 0
    ensures Has(With(mode, flag), other) == Has(mode, other)
  {
    Untouched(mode, flag, other);
  }

  lemma Untouched(a: bv32, b: bv32, c: bv32)
    requires b & c == 0
    ensures (a | b) & c == a & c
  {
  }

  lemma WithSets(mode: bv32, flag: bv32)
    requires flag != 0
    ensures Has(With(mode, flag), flag)
  {
  }

  lemma VerboseKeepsPolicy(kernel: bool, mode: bv32)
    ensures ForceFail(kernel, With(mode, VERBOSE)) == ForceFail(kernel, mode)
    ensures NoInteg(With(mode, VERBOSE)) == NoInteg(mode) && NoPanic(With(mode, VERBOSE)) == NoPanic(mode)
  {
    hide Has, With;
    WithKeeps(mode, VERBOSE, if kernel then KS_FORCEFAIL else US_FORCEFAIL);
    WithKeeps(mode, VERBOSE, NOINTEG);
    WithKeeps(mode, VERBOSE, NOPANIC);
  }

  lemma NoPanicKeepsTheRest(kernel: bool, mode: bv32)
    ensures ForceFail(kernel, With(mode, NOPANIC)) == ForceFail(kernel, mode)
    ensures NoInteg(With(mode, NOPANIC)) == NoInteg(mode) && NoPanic(With(mode, NOPANIC))
  {
    hide Has, With;
    WithKeeps(mode, NOPANIC, if kernel then KS_FORCEFAIL else US_FORCEFAIL);
    WithKeeps(mode, NOPANIC, NOINTEG);
    WithSets(mode, NOPANIC);
  }

  datatype Header = Null | At(address: nat)

  /** The tests: the KAT of the integrity mechanism, the integrity test itself, and the rest. Each
      yields 0 or its error. */
  datatype Suite = Suite(hmac: bv32 -> int, integrity: (bv32, Header) -> int, others: seq<bv32 -> int>)

  /** What each test yields under a mode; tests always see the verbose flag. */
  function Results(s: Suite, mode: bv32, header: Header): seq<int> {
    var m := With(mode, VERBOSE);
    [s.hmac(m), s.integrity(m, header)] + seq(|s.others|, i requires 0 <= i < |s.others| => s.others[i](m))
  }

  /** Whether a failure of test i stops the run. */
  predicate Counts(kernel: bool, mode: bv32, i: nat) { !ForceFail(kernel, mode) && !(i == 1 && NoInteg(mode)) }

  /** The first test at or after `from` whose failure stops the run, or the number of tests. */
  function FirstCounted(results: seq<int>, kernel: bool, mode: bv32, from: nat): (k: nat)
    requires from <= |results|
    ensures from <= k <= |results|
    ensures k < |results| ==> results[k] != 0 && Counts(kernel, mode, k)
    ensures forall i | from <= i < k :: results[i] == 0 || !Counts(kernel, mode, i)
    decreases |results| - from
  {
    if from == |results| || (results[from] != 0 && Counts(kernel, mode, from)) then from
    else FirstCounted(results, kernel, mode, from + 1)
  }

  /** The code for a failure of test i, counting from 0. */
  function Code(i: nat, result: int): int { -(i + 1) * 1000 + result }

  function Outcome(results: seq<int>, kernel: bool, mode: bv32): int
    requires results != []
  {
    var k := FirstCounted(results, kernel, mode, 0);
    if k < |results| then Code(k, results[k])
    else if NoPanic(mode) then 0
    else results[|results| - 1]
  }

  lemma {:induction false} SamePolicy(results: seq<int>, kernel: bool, mode: bv32, other: bv32, from: nat)
    requires from <= |results|
    requires ForceFail(kernel, mode) == ForceFail(kernel, other) && NoInteg(mode) == NoInteg(other)
    ensures FirstCounted(results, kernel, mode, from) == FirstCounted(results, kernel, other, from)
    decreases |results| - from
  {
    if from < |results| {
      SamePolicy(results, kernel, mode, other, from + 1);
    }
  }

  lemma VerboseTwice(mode: bv32)
    ensures With(With(mode, VERBOSE), VERBOSE) == With(mode, VERBOSE)
  {
  }

  /** Setting the verbose flag first is the same as leaving it to the runner. */
  lemma VerboseChangesNothing(s: Suite, kernel: bool, mode: bv32, image: Header)
    ensures var verbose := With(mode, VERBOSE);
            && With(verbose, VERBOSE) == verbose
            && Results(s, verbose, image) == Results(s, mode, image)
            && FirstCounted(Results(s, mode, image), kernel, verbose, 0)
            == FirstCounted(Results(s, mode, image), kernel, mode, 0)
            && Outcome(Results(s, mode, image), kernel, verbose) == Outcome(Results(s, mode, image), kernel, mode)
  {
    VerboseTwice(mode);
    VerboseKeepsPolicy(kernel, mode);
    SamePolicy(Results(s, mode, image), kernel, mode, With(mode, VERBOSE), 0);
    hide Has, With, FirstCounted;
  }

  /** The tests of fipspost_post in order, by way of its macro run_post. `mode` has the verbose
      flag set; `ran` is the number of tests started. */
  method RunTests(s: Suite, kernel: bool, mode: bv32, image: Header) returns (rc: int, ran: nat)
    requires s.others != [] && With(mode, VERBOSE) == mode
    ensures var results := Results(s, mode, image);
            var k := FirstCounted(results, kernel, mode, 0);
            && rc == Outcome(results, kernel, mode)
            && ran == if k < |results| then k + 1 else |results|
  {
    hide Has, With;
    ghost var results := Results(s, mode, image);
    ghost var first := FirstCounted(results, kernel, mode, 0);
    var result, testCounter := CCPOST_GENERIC_FAILURE, 0;
    var returnOnFailure := !ForceFail(kernel, mode);

    testCounter := testCounter - 1;
    result := s.hmac(mode);
    assert result == results[0];
    if result != 0 && returnOnFailure {
      return testCounter * 1000 + result, -testCounter;
    }

    returnOnFailure := if NoInteg(mode) then false else !ForceFail(kernel, mode);
    testCounter := testCounter - 1;
    result := s.integrity(mode, image);
    assert result == results[1];
    if result != 0 && returnOnFailure {
      return testCounter * 1000 + result, -testCounter;
    }

    returnOnFailure := !ForceFail(kernel, mode);
    for i := 0 to |s.others|
      invariant testCounter == -(i + 2)
      invariant first >= i + 2
      invariant i > 0 ==> result == results[i + 1]
    {
      testCounter := testCounter - 1;
      result := s.others[i](mode);
      assert result == results[i + 2];
      if result != 0 && returnOnFailure {
        return testCounter * 1000 + result, -testCounter;
      }
    }
    return if NoPanic(mode) then 0 else result, -testCounter;
  }

  /** The module with its one piece of state: the kernel build remembers the image header. */
  class Post {
    const kernel: bool
    var saved: Header

    constructor (kernel: bool)
      ensures this.kernel == kernel && saved == Null
    {
      this.kernel := kernel;
      saved := Null;
    }

    /** fipspost_post. */
    method Run(s: Suite, fipsMode: bv32, header: Header) returns (rc: int, ran: nat)
      requires s.others != []
      modifies this
      ensures saved == if kernel && !header.Null? then header else old(saved)
      ensures kernel && saved.Null? ==> rc == CCPOST_GENERIC_FAILURE == -72 && ran == 0
      ensures !(kernel && saved.Null?) ==>
                var image := if kernel && header.Null? then old(saved) else header;
                var results := Results(s, fipsMode, image);
                var k := FirstCounted(results, kernel, fipsMode, 0);
                && rc == Outcome(results, kernel, fipsMode)
                && ran == if k < |results| then k + 1 else |results|
    {
      var mode := With(fipsMode, VERBOSE);
      var image := header;
      if kernel {
        if !header.Null? {
          saved := header;
        } else if !saved.Null? {
          image := saved;
        } else {
          return CCPOST_GENERIC_FAILURE, 0;
        }
      }
      VerboseChangesNothing(s, kernel, fipsMode, image);
      hide *;
      rc, ran := RunTests(s, kernel, mode, image);
    }
  }

  // What a caller can conclude.

  /** All results lie in a window of a thousand values that ends with `top`. The tests of
      fipspost_post.c need `top` to be 1: they fail with the negative codes of
      cc/corecrypto/cc_error.h, all of them above -999, except that fipspost_post_indicator fails
      with 1. */
  predicate InWindow(results: seq<int>, top: int) {
    forall i | 0 <= i < |results| :: top - 1000 < results[i] <= top
  }

  /** Test i passed, or its failure was waived. */
  predicate Passed(results: seq<int>, mode: bv32, i: nat)
    requires i < |results|
  {
    results[i] == 0 || (i == 1 && NoInteg(mode))
  }

  /** With FORCEFAIL clear, 0 means success, for whatever codes: unless the first counted failure
      happens to cancel its own position. */
  lemma ZeroExactly(results: seq<int>, kernel: bool, mode: bv32)
    requires |results| >= 3 && !ForceFail(kernel, mode)
    ensures var k := FirstCounted(results, kernel, mode, 0);
            Outcome(results, kernel, mode) == 0 <==> k == |results| || results[k] == 1000 * (k + 1)
  {
    var k, last := FirstCounted(results, kernel, mode, 0), |results| - 1;
    if k == |results| {
      assert Counts(kernel, mode, last);
    }
  }

  /** With the force-fail bit clear, 4 outside the kernel and 5 inside, and results below 1000, the
      runner returns 0 if and only if every test passes, apart from integrity, the second, if bit 6
      is set. */
  lemma ZeroMeansPassed(results: seq<int>, kernel: bool, mode: bv32)
    requires |results| >= 3 && mode & (if kernel then 0x20 else 0x10) == 0
    requires forall i | 0 <= i < |results| :: results[i] < 1000
    ensures Outcome(results, kernel, mode) == 0 <==>
            forall i | 0 <= i < |results| :: results[i] == 0 || (i == 1 && mode & 0x40 != 0)
  {
    FlagsAreBits(kernel, mode);
    hide Has, ForceFail, NoInteg, NoPanic;
    ZeroExactly(results, kernel, mode);
    var k := FirstCounted(results, kernel, mode, 0);
    if k < |results| {
      assert !Passed(results, mode, k);
    } else {
      forall i | 0 <= i < |results| ensures Passed(results, mode, i) {
        assert results[i] == 0 || !Counts(kernel, mode, i);
      }
    }
  }

  lemma FlagsAreBits(kernel: bool, mode: bv32)
    ensures ForceFail(kernel, mode) <==> mode & (if kernel then 0x20 else 0x10) != 0
    ensures NoInteg(mode) <==> mode & 0x40 != 0
    ensures NoPanic(mode) <==> mode & 0x100 != 0
  {
  }

  /** Otherwise the first test that fails, integrity excepted if bit 6 is set, stops the run. */
  lemma StopsAt(results: seq<int>, kernel: bool, mode: bv32, k: nat)
    requires k < |results| && mode & (if kernel then 0x20 else 0x10) == 0
    requires results[k] != 0 && !(k == 1 && mode & 0x40 != 0)
    requires forall i | 0 <= i < k :: results[i] == 0 || (i == 1 && mode & 0x40 != 0)
    ensures FirstCounted(results, kernel, mode, 0) == k
    ensures Outcome(results, kernel, mode) == -1000 * (k + 1) + results[k]
  {
    FlagsAreBits(kernel, mode);
    hide Has, ForceFail, NoInteg, NoPanic;
    var first := FirstCounted(results, kernel, mode, 0);
    assert Counts(kernel, mode, k);
  }

  /** What the tests see: the caller's mode with bit 3 set. */
  lemma ResultsInFull(s: Suite, mode: bv32, image: Header)
    ensures var r := Results(s, mode, image);
            && |r| == |s.others| + 2
            && r[0] == s.hmac(mode | 8) && r[1] == s.integrity(mode | 8, image)
            && forall i | 0 <= i < |s.others| :: r[i + 2] == s.others[i](mode | 8)
  {
    assert With(mode, VERBOSE) == mode | 8;
    hide With;
  }

  /** With larger results that fails: a test could return its own position's thousand. */
  lemma ZeroCanHideFailure()
    ensures Outcome([1000, 0, 0], false, 0) == 0 && !Passed([1000, 0, 0], 0, 0)
  {
    assert Counts(false, 0, 0);
  }

  /** When two failures share a code, exactly. */
  lemma CodesCollide(i: nat, r: int, j: nat, s: int)
    ensures Code(i, r) == Code(j, s) <==> r - s == 1000 * (i - j)
  {
  }

  /** Two failing runs return the same value exactly if their first counted failures lie as many
      thousands apart in result as they do in position. */
  lemma SameOutcome(results: seq<int>, mode: bv32, others: seq<int>, other: bv32, kernel: bool)
    requires results != [] && others != []
    requires FirstCounted(results, kernel, mode, 0) < |results|
    requires FirstCounted(others, kernel, other, 0) < |others|
    ensures var i, j := FirstCounted(results, kernel, mode, 0), FirstCounted(others, kernel, other, 0);
            Outcome(results, kernel, mode) == Outcome(others, kernel, other) <==>
              results[i] - others[j] == 1000 * (i - j)
  {
  }

  /** No two failures with results among `codes` share a code, whatever their positions. */
  ghost predicate Recoverable(codes: set<int>) {
    forall i: nat, r, j: nat, s | r in codes && s in codes :: Code(i, r) == Code(j, s) ==> i == j && r == s
  }

  predicate DifferModulo1000(codes: set<int>) {
    forall r, s | r in codes && s in codes && r != s :: r % 1000 != s % 1000
  }

  /** Position and result can be recovered from a code if and only if no two different results
      agree modulo 1000. */
  lemma RecoverableExactly(codes: set<int>)
    ensures Recoverable(codes) <==> DifferModulo1000(codes)
  {
    if Recoverable(codes) {
      forall r, s | r in codes && s in codes && r != s ensures r % 1000 != s % 1000 {
        if r % 1000 == s % 1000 {
          var i, j := Collision(r, s);
          assert false;
        }
      }
    }
    if DifferModulo1000(codes) {
      forall i: nat, r, j: nat, s | r in codes && s in codes && Code(i, r) == Code(j, s)
        ensures i == j && r == s
      {
        SameRemainder(i, r, j, s);
      }
    }
  }

  lemma Collision(r: int, s: int) returns (i: nat, j: nat)
    requires r % 1000 == s % 1000
    ensures Code(i, r) == Code(j, s)
  {
    var q := r / 1000 - s / 1000;
    i, j := if q > 0 then q else 0, if q > 0 then 0 else -q;
  }

  lemma SameRemainder(i: nat, r: int, j: nat, s: int)
    requires Code(i, r) == Code(j, s)
    ensures r % 1000 == s % 1000 && (r == s ==> i == j)
  {
  }

  /** How to read a code when all results lie in a window. */
  lemma CodeDecodes(i: nat, result: int, top: int)
    requires top - 1000 < result <= top
    ensures (top - Code(i, result)) / 1000 == i + 1
    ensures top - (top - Code(i, result)) % 1000 == result
  {
  }

  /** For a failing run, the returned code names the first counted failure. */
  lemma FailureIsNamed(results: seq<int>, kernel: bool, mode: bv32, top: int)
    requires |results| >= 3 && !ForceFail(kernel, mode)
    requires 0 <= top < 1000 && InWindow(results, top)
    requires Outcome(results, kernel, mode) != 0
    ensures var i := (top - Outcome(results, kernel, mode)) / 1000 - 1;
            && 0 <= i < |results|
            && results[i] == top - (top - Outcome(results, kernel, mode)) % 1000 != 0
            && !Passed(results, mode, i)
            && forall j | 0 <= j < i :: Passed(results, mode, j)
  {
    ZeroExactly(results, kernel, mode);
    var k := FirstCounted(results, kernel, mode, 0);
    CodeDecodes(k, results[k], top);
    forall j | 0 <= j < k ensures Passed(results, mode, j) {
      assert results[j] == 0 || !Counts(kernel, mode, j);
    }
  }

  /** A failing indicator test, the third one: its code reads rightly with the window that ends
      with 1, but read as if results were never positive it blames the integrity test. */
  lemma IndicatorFailure()
    ensures Outcome([0, 0, 1], false, 0) == -2999
    ensures (1 + 2999) / 1000 - 1 == 2 && 1 - (1 + 2999) % 1000 == 1
    ensures 2999 / 1000 - 1 == 1 && Passed([0, 0, 1], 0, 1) && !Passed([0, 0, 1], 0, 2)
    ensures Code(2, 1) == Code(1, -999)
  {
    assert Counts(false, 0, 2);
    assert FirstCounted([0, 0, 1], false, 0, 2) == 2;
    assert FirstCounted([0, 0, 1], false, 0, 1) == 2;
  }

  /** With the force-fail bit set no failure stops the run, and the last result decides unless bit
      8 is set. */
  lemma ForceFailRunsAll(results: seq<int>, kernel: bool, mode: bv32)
    requires results != [] && mode & (if kernel then 0x20 else 0x10) != 0
    ensures FirstCounted(results, kernel, mode, 0) == |results|
    ensures Outcome(results, kernel, mode) == if mode & 0x100 != 0 then 0 else results[|results| - 1]
  {
    FlagsAreBits(kernel, mode);
    hide Has, ForceFail, NoInteg, NoPanic;
  }

  /** NOPANIC consumes failures only at the end: with FORCEFAIL clear it changes nothing. */
  lemma NoPanicChangesNothing(results: seq<int>, kernel: bool, mode: bv32)
    requires |results| >= 3 && !ForceFail(kernel, mode)
    ensures Outcome(results, kernel, With(mode, NOPANIC)) == Outcome(results, kernel, mode)
  {
    NoPanicKeepsTheRest(kernel, mode);
    SamePolicy(results, kernel, mode, With(mode, NOPANIC), 0);
    var k, last := FirstCounted(results, kernel, mode, 0), |results| - 1;
    if k == |results| {
      assert Counts(kernel, mode, last);
    }
  }
}
