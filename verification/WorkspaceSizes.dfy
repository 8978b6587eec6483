/** The generated workspace sizes of the modular-arithmetic functions and of the primality test
    built on them (cc/corecrypto/cc_workspaces_generated.h, and the hand-written sizes in
    cczp/src/cczp_mm.c, cczp/src/cczp_power_blinded.c, ccn/src/ccn_div.c and
    ccn/src/ccn_make_recip.c), compared with what the functions really allocate and call. */
module WorkspaceSizes {
  import opened Workspace

  // The sizes as the source writes them, one function each; the ensures are closed forms. `z`
  // is the size of struct cczp in units. That the definitions are accepted shows that they are
  // well founded.

  function CcnMulN(n: nat): nat { 0 }

  function CcnSqrN(n: nat): nat { 2 * n }

  function CcnMakeRecipN(n: nat): (r: nat)
    ensures r == 8 * n + 8
  {
    6 * (n + 1) + Max(CcnMulN(n + 1), CcnSqrN(n + 1))
  }

  function DivUseRecipN(na: nat, nd: nat): nat { 6 * Max(2 * nd, na) + 4 + na }

  function DivEuclidN(na: nat, nd: nat): nat { nd + 1 + 4 + DivUseRecipN(na, nd) }

  function CczpAddN(n: nat): nat { n }

  function CczpSubN(n: nat): nat { n }

  function CczpDiv2N(n: nat): nat { n }

  function CczpInitN(n: nat): (r: nat)
    ensures r == 8 * n + 8
  {
    CcnMakeRecipN(n)
  }

  function CczpModnN(ns: nat, n: nat): nat { DivUseRecipN(ns, n) }

  function CczpModDefaultN(n: nat): (r: nat)
    ensures r == 5 * n + 5
  {
    2 * n + 2 + (2 * n + 2) + (n + 1)
  }

  function CczpModN(n: nat): (r: nat)
    ensures r == 5 * n + 5
  {
    CczpModDefaultN(n)
  }

  function CczpMmModN(n: nat): nat { 2 * n }

  function CcnMod192N(n: nat): nat { 0 }

  function CcnMod521N(n: nat): nat { 0 }

  function CczpMulDefaultN(n: nat): (r: nat)
    ensures r == 7 * n + 5
  {
    2 * n + CczpModN(n)
  }

  function CczpMulN(n: nat): (r: nat)
    ensures r == 7 * n + 5
  {
    CczpMulDefaultN(n)
  }

  function CczpMmMulN(n: nat): nat { 2 * n }

  function P224MulN(n: nat): nat { 2 * n }

  function P256MulN(n: nat): nat { 2 * n }

  function P384MulN(n: nat): nat { 2 * n }

  function CczpSqrDefaultN(n: nat): (r: nat)
    ensures r == 7 * n + 5
  {
    2 * n + CczpModN(n)
  }

  function CczpSqrN(n: nat): (r: nat)
    ensures r == 7 * n + 5
  {
    CczpSqrDefaultN(n)
  }

  function CczpMmSqrN(n: nat): (r: nat)
    ensures r == 4 * n
  {
    2 * n + CcnSqrN(n)
  }

  function P224SqrN(n: nat): (r: nat)
    ensures r == 4 * n
  {
    2 * n + CcnSqrN(n)
  }

  function P256SqrN(n: nat): (r: nat)
    ensures r == 4 * n
  {
    2 * n + CcnSqrN(n)
  }

  function P384SqrN(n: nat): (r: nat)
    ensures r == 4 * n
  {
    2 * n + CcnSqrN(n)
  }

  function CczpToDefaultN(n: nat): nat { 0 }

  function CczpMmToN(n: nat): nat { 2 * n }

  function P224ToN(n: nat): (r: nat)
    ensures r == 7 * n + 5
  {
    CczpMulN(n)
  }

  function P256ToN(n: nat): (r: nat)
    ensures r == 7 * n + 5
  {
    CczpMulN(n)
  }

  function P384ToN(n: nat): nat { 2 * n }

  function CczpToN(n: nat): (r: nat)
    ensures r == 7 * n + 5
  {
    P256ToN(n)
  }

  function CczpFromDefaultN(n: nat): nat { 0 }

  function CczpMmFromN(n: nat): nat { 2 * n }

  function P224FromN(n: nat): nat { 2 * n }

  function P256FromN(n: nat): nat { 2 * n }

  function P384FromN(n: nat): nat { 2 * n }

  function CczpFromN(n: nat): (r: nat)
    ensures r == 2 * n
  {
    CczpMmFromN(n)
  }

  function CczpIsOneDefaultN(n: nat): (r: nat)
    ensures r == 3 * n
  {
    n + CczpFromN(n)
  }

  function CczpIsOneN(n: nat): (r: nat)
    ensures r == 3 * n
  {
    CczpIsOneDefaultN(n)
  }

  function CczpMmIsOneN(n: nat): nat { 0 }

  function P224IsOneN(n: nat): nat { 0 }

  function P256IsOneN(n: nat): nat { 0 }

  function P384IsOneN(n: nat): nat { 0 }

  function PowerFastN(n: nat): (r: nat)
    ensures r == 10 * n + 5
  {
    3 * n + CczpToN(n)
  }

  function PowerN(n: nat): (r: nat)
    ensures r == 13 * n + 5
  {
    4 * n + 2 * n + CczpToN(n)
  }

  function PowerBlindedN(n: nat): nat { n + n + Max(PowerN(n), DivEuclidN(n, 1)) }

  function InvUpdateN(n: nat): nat { n + 1 + (n + 1) }

  function InvUpdateRedcN(n: nat): nat { n + 1 + n }

  function CczpInvDefaultN(n: nat): (r: nat)
    ensures r == 12 * n + 5
  {
    n + n + n + n + n + CczpToN(n)
  }

  function CczpInvFieldN(n: nat): (r: nat)
    ensures r == 11 * n + 5
  {
    n + PowerFastN(n)
  }

  function CczpMmInvN(n: nat): nat { 0 }

  function CczpInvN(n: nat): (r: nat)
    ensures r == 12 * n + 5
  {
    CczpInvDefaultN(n)
  }

  function IsQuadraticResidueN(n: nat): (r: nat)
    ensures r == 13 * n + 5
  {
    n + n + n + PowerFastN(n)
  }

  function Sqrt3Mod4N(n: nat): (r: nat)
    ensures r == 11 * n + 5
  {
    n + PowerFastN(n)
  }

  function TonelliShanksPrecompN(n: nat): (r: nat)
    ensures r == 13 * n + 5
  {
    n + n + n + PowerFastN(n)
  }

  function TonelliShanksN(n: nat): (r: nat)
    ensures r == 16 * n + 5
  {
    n + n + n + TonelliShanksPrecompN(n)
  }

  function CczpSqrtDefaultN(n: nat): (r: nat)
    ensures r == 16 * n + 5
  {
    TonelliShanksN(n)
  }

  function CczpSqrtN(n: nat): (r: nat)
    ensures r == 16 * n + 5
  {
    CczpSqrtDefaultN(n)
  }

  function CczpMmSqrtN(n: nat): nat { 0 }

  function P224SqrtN(n: nat): (r: nat)
    ensures r == 13 * n + 5
  {
    TonelliShanksPrecompN(n)
  }

  function MmComputeR1R2N(n: nat): (r: nat)
    ensures r == 17 * n + 9
  {
    2 * n + DivEuclidN(2 * n, n)
  }

  function MmInitN(n: nat): (r: nat)
    ensures r == 17 * n + 9
  {
    MmComputeR1R2N(n)
  }

  function MmPowerFastN(n: nat, z: nat): (r: nat)
    ensures r == 20 * n + 10 + z
  {
    z + 1 + 3 * n + MmInitN(n)
  }

  function MmPowerN(n: nat, z: nat): (r: nat)
    ensures r == 20 * n + 10 + z
  {
    z + 1 + 3 * n + MmInitN(n)
  }

  function PickRandomBaseN(n: nat): (r: nat)
    ensures r == 7 * n + 5
  {
    2 * n + CczpModN(n)
  }

  function RabinMillerInitN(n: nat): (r: nat)
    ensures r == 17 * n + 9
  {
    MmInitN(n)
  }

  function RabinMillerIterationN(n: nat): nat { n + Max(CczpToN(n), PowerBlindedN(n)) }

  function RabinMillerN(n: nat, z: nat): nat {
    z + 1 + 3 * n + 2 * n + 1 + n + Max(RabinMillerIterationN(n), RabinMillerInitN(n))
  }

  /** The tables of function pointers behind the generic operations: plain C, C with inversion
      by powering (the small-code curves), Montgomery form, and the special primes. */
  datatype Table = Plain | PlainFieldInv | Montgomery | P192 | P224 | P256 | P384 | P521

  datatype Op = Mul | Sqr | Mod | Inv | Sqrt | To | From | IsOne

  /** The functions. `Generic(op)` dispatches through a table; `Entry(op, t)` is the function in
      that slot of table t. The division functions take a dividend of n units and carry the size
      of the divisor. */
  datatype Fn =
    | Generic(op: Op) | Entry(op: Op, t: Table)
    | CcnMul | CcnSqr | CcnMakeRecip | DivUseRecip(nd: nat) | DivEuclid(nd: nat)
    | CczpAdd | CczpSub | CczpDiv2 | CczpInit | CczpModn(nd: nat)
    | PowerFast | Power | PowerBlinded
    | InvUpdate | InvUpdateRedc
    | IsQuadraticResidue | Sqrt3Mod4 | TonelliShanksPrecomp | TonelliShanks
    | MmComputeR1R2 | MmInit | MmPowerFast | MmPower
    | PickRandomBase | RabinMillerInit | RabinMillerIteration | RabinMiller

  /** Tables with their own multiplication, squaring, conversions and comparison with one. */
  predicate OwnArithmetic(t: Table) { t.Montgomery? || t.P224? || t.P256? || t.P384? }

  /** The size that the source computes for each slot of each table. */
  function EntrySize(op: Op, t: Table, n: nat): nat {
    match op
    case Mul => (match t case Montgomery => CczpMmMulN(n) case P224 => P224MulN(n) case P256 => P256MulN(n)
                         case P384 => P384MulN(n) case _ => CczpMulDefaultN(n))
    case Sqr => (match t case Montgomery => CczpMmSqrN(n) case P224 => P224SqrN(n) case P256 => P256SqrN(n)
                         case P384 => P384SqrN(n) case _ => CczpSqrDefaultN(n))
    case Mod => (match t case Montgomery => CczpMmModN(n) case P192 => CcnMod192N(n) case P521 => CcnMod521N(n)
                         case _ => CczpModDefaultN(n))
    case Inv => (match t case Montgomery => CczpMmInvN(n) case PlainFieldInv => CczpInvFieldN(n)
                         case _ => CczpInvDefaultN(n))
    case Sqrt => (match t case Montgomery => CczpMmSqrtN(n) case P224 => P224SqrtN(n) case _ => CczpSqrtDefaultN(n))
    case To => (match t case Montgomery => CczpMmToN(n) case P224 => P224ToN(n) case P256 => P256ToN(n)
                        case P384 => P384ToN(n) case _ => CczpToDefaultN(n))
    case From => (match t case Montgomery => CczpMmFromN(n) case P224 => P224FromN(n) case P256 => P256FromN(n)
                          case P384 => P384FromN(n) case _ => CczpFromDefaultN(n))
    case IsOne => (match t case Montgomery => CczpMmIsOneN(n) case P224 => P224IsOneN(n) case P256 => P256IsOneN(n)
                           case P384 => P384IsOneN(n) case _ => CczpIsOneDefaultN(n))
  }

  function GenericSize(op: Op, n: nat): nat {
    match op
    case Mul => CczpMulN(n)
    case Sqr => CczpSqrN(n)
    case Mod => CczpModN(n)
    case Inv => CczpInvN(n)
    case Sqrt => CczpSqrtN(n)
    case To => CczpToN(n)
    case From => CczpFromN(n)
    case IsOne => CczpIsOneN(n)
  }

  /** The size that the source computes for a function at n units. */
  function Bound(f: Fn, n: nat, z: nat): nat {
    match f
    case Generic(op) => GenericSize(op, n)
    case Entry(op, t) => EntrySize(op, t, n)
    case CcnMul => CcnMulN(n)
    case CcnSqr => CcnSqrN(n)
    case CcnMakeRecip => CcnMakeRecipN(n)
    case DivUseRecip(nd) => DivUseRecipN(n, nd)
    case DivEuclid(nd) => DivEuclidN(n, nd)
    case CczpAdd => CczpAddN(n)
    case CczpSub => CczpSubN(n)
    case CczpDiv2 => CczpDiv2N(n)
    case CczpInit => CczpInitN(n)
    case CczpModn(nd) => CczpModnN(n, nd)
    case PowerFast => PowerFastN(n)
    case Power => PowerN(n)
    case PowerBlinded => PowerBlindedN(n)
    case InvUpdate => InvUpdateN(n)
    case InvUpdateRedc => InvUpdateRedcN(n)
    case IsQuadraticResidue => IsQuadraticResidueN(n)
    case Sqrt3Mod4 => Sqrt3Mod4N(n)
    case TonelliShanksPrecomp => TonelliShanksPrecompN(n)
    case TonelliShanks => TonelliShanksN(n)
    case MmComputeR1R2 => MmComputeR1R2N(n)
    case MmInit => MmInitN(n)
    case MmPowerFast => MmPowerFastN(n, z)
    case MmPower => MmPowerN(n, z)
    case PickRandomBase => PickRandomBaseN(n)
    case RabinMillerInit => RabinMillerInitN(n)
    case RabinMillerIteration => RabinMillerIterationN(n)
    case RabinMiller => RabinMillerN(n, z)
  }

  /** What the slots allocate themselves. */
  function EntryOwn(op: Op, t: Table, n: nat): nat {
    match op
    case Mul => 2 * n
    case Sqr => 2 * n
    case Mod => (match t case Montgomery => 2 * n case P192 => 0 case P521 => 0
                         case _ => 2 * n + 2 + (2 * n + 2) + (n + 1))
    case Inv => (match t case Montgomery => 0 case PlainFieldInv => n case _ => 5 * n)
    case Sqrt => 0
    case To => if t.Montgomery? || t.P384? then 2 * n else 0
    case From => if OwnArithmetic(t) then 2 * n else 0
    case IsOne => if OwnArithmetic(t) then 0 else n
  }

  /** The most that a function allocates itself, over all its paths. */
  function OwnMost(f: Fn, n: nat, z: nat): nat {
    match f
    case Entry(op, t) => EntryOwn(op, t, n)
    case DivEuclid(nd) => nd + 1
    case DivUseRecip(nd) => DivUseRecipBuffers(n, nd, 1)
    case CcnSqr => 2 * n
    case CcnMakeRecip => 6 * (n + 1)
    case CczpAdd => n
    case CczpSub => n
    case CczpDiv2 => n
    case PowerFast => 3 * n
    case Power => 4 * n + 2 * n
    case PowerBlinded => n + n
    case InvUpdate => n + 1 + (n + 1)
    case InvUpdateRedc => n + 1 + n
    case IsQuadraticResidue => 3 * n
    case Sqrt3Mod4 => n
    case TonelliShanksPrecomp => 3 * n
    case TonelliShanks => 3 * n
    case MmComputeR1R2 => 2 * n
    case MmPowerFast => z + 1 + 3 * n
    case MmPower => z + 1 + 3 * n
    case PickRandomBase => 2 * n
    case RabinMillerIteration => n
    case RabinMiller => z + 1 + 3 * n + 2 * n + 1 + n
    case _ => 0
  }

  /** The six working buffers of ccn_div_use_recip_ws, for a divisor with `nda` significant
      units. */
  function DivUseRecipBuffers(na: nat, nd: nat, nda: nat): nat {
    var n := Max(2 * nd, na);
    if nda > n then 0
    else 2 * (n - nda + 1) + (3 + n) + (1 + Max(nd, n - nda)) + n + n + na
  }

  /** Fewer buffers are needed for a longer divisor. */
  lemma ShortestDivisorIsWorst(na: nat, nd: nat, nda: nat)
    requires 1 <= nda <= nd
    ensures DivUseRecipBuffers(na, nd, nda) <= DivUseRecipBuffers(na, nd, 1)
  {
  }

  /** Which calls the functions in the tables make; all are at the same n but one. */
  predicate EntryCalls(op: Op, t: Table, n: nat, g: Fn, m: nat) {
    match op
    case Mul => m == n && (g == CcnMul || (!OwnArithmetic(t) && g == Generic(Mod)))
    case Sqr => m == n && (g == CcnSqr || (!OwnArithmetic(t) && g == Generic(Mod)))
    case Mod => !t.Montgomery? && !t.P192? && !t.P521? && g == CcnMul && (m == n || m == n + 1)
    case Inv => !t.Montgomery? && m == n &&
                if t.PlainFieldInv? then g == PowerFast
                else g == Generic(From) || g == InvUpdate || g == InvUpdateRedc || g == Generic(To)
    case Sqrt => !t.Montgomery? && m == n &&
                 if t.P224? then g == TonelliShanksPrecomp else g == Sqrt3Mod4 || g == TonelliShanks
    case To => m == n && (match t case Montgomery => g == CcnMul case P384 => g == CcnMul
                                  case P224 => g == Generic(Mul) case P256 => g == Generic(Mul) case _ => false)
    case From => false
    case IsOne => !OwnArithmetic(t) && m == n && g == Generic(From)
  }

  /** Which calls the source makes: `f` at n units may call `g` at m units. A generic function
      may land in any table. */
  predicate MayCall(f: Fn, n: nat, g: Fn, m: nat) {
    match f
    case Generic(op) => g.Entry? && g.op == op && m == n
    case Entry(op, t) => EntryCalls(op, t, n, g, m)
    case DivEuclid(nd) => (g == CcnMakeRecip && m == nd) || (g == DivUseRecip(nd) && m == n)
    case CcnMakeRecip => (g == CcnMul || g == CcnSqr) && m <= n + 1
    case CczpInit => g == CcnMakeRecip && m == n
    case CczpModn(nd) => g == DivUseRecip(nd) && m == n
    case PowerFast => (g == Generic(To) || g == Generic(Sqr) || g == Generic(Mul)) && m == n
    case Power => (g == Generic(To) || g == Generic(Sqr) || g == Generic(Mul)) && m == n
    case PowerBlinded => (g == DivEuclid(1) || g == Power || g == Generic(Mul)) && m == n
    case IsQuadraticResidue => (g == PowerFast || g == Generic(IsOne)) && m == n
    case Sqrt3Mod4 => (g == PowerFast || g == Generic(Sqr)) && m == n
    case TonelliShanksPrecomp =>
      (g == PowerFast || g == Generic(Sqr) || g == Generic(Mul) || g == Generic(IsOne)) && m == n
    case TonelliShanks => (g == IsQuadraticResidue || g == PowerFast || g == TonelliShanksPrecomp) && m == n
    case MmComputeR1R2 => g == DivEuclid(n) && m == 2 * n
    case MmInit => g == MmComputeR1R2 && m == n
    case MmPowerFast =>
      (g == MmInit || g == Entry(To, Montgomery) || g == PowerFast || g == Entry(From, Montgomery)) && m == n
    case MmPower => (g == MmInit || g == Entry(To, Montgomery) || g == Power || g == Entry(From, Montgomery)) && m == n
    case PickRandomBase => g == Generic(Mod) && m == n
    case RabinMillerInit => g == MmInit && m == n
    case RabinMillerIteration =>
      (g == Generic(To) || g == PowerBlinded || g == Generic(IsOne) || g == Generic(Sqr)) && m == n
    case RabinMiller => (g == RabinMillerInit || g == PickRandomBase || g == RabinMillerIteration) && m == n
    case _ => false
  }

  /** The table whose entry needs the most. */
  function Widest(op: Op): Table {
    match op
    case To => P256
    case From => Montgomery
    case _ => Plain
  }

  /** Every generic size is exactly the maximum over what it may dispatch to, for all n. */
  lemma GenericIsMaximum(op: Op, t: Table, n: nat)
    ensures EntrySize(op, t, n) <= GenericSize(op, n)
    ensures EntrySize(op, Widest(op), n) == GenericSize(op, n)
  {
  }

  /** What the inversion and square-root entries allocate and call fits their own sizes. */
  lemma SolverDominates(op: Op, t: Table, n: nat, g: Fn, m: nat, z: nat)
    requires op.Inv? || op.Sqrt?
    requires EntryCalls(op, t, n, g, m)
    ensures EntryOwn(op, t, n) + Bound(g, m, z) <= EntrySize(op, t, n)
  {
  }

  /** The same for every entry of every table. */
  lemma EntryDominates(op: Op, t: Table, n: nat, g: Fn, m: nat, z: nat)
    requires EntryCalls(op, t, n, g, m)
    ensures EntryOwn(op, t, n) + Bound(g, m, z) <= EntrySize(op, t, n)
  {
    if op.Inv? || op.Sqrt? {
      hide EntryCalls, EntryOwn, EntrySize, Bound;
      SolverDominates(op, t, n, g, m, z);
    } else {
      assert g == CcnMul || g == CcnSqr || (g.Generic? && (g.op.Mod? || g.op.Mul? || g.op.From?));
    }
  }

  // The functions that are neither generic nor in a table.

  /** Powers and square roots. */
  predicate IsChain(f: Fn) {
    f.PowerFast? || f.Power? || f.IsQuadraticResidue? || f.Sqrt3Mod4? || f.TonelliShanksPrecomp? || f.TonelliShanks?
  }

  predicate IsDivision(f: Fn) { f.DivEuclid? || f.CczpModn? || f.MmComputeR1R2? }

  predicate IsReciprocal(f: Fn) { f.CcnMakeRecip? || f.CczpInit? }

  predicate IsMontgomery(f: Fn) { f.MmInit? || f.RabinMillerInit? || f.MmPowerFast? || f.MmPower? }

  predicate IsBlinding(f: Fn) { f.PowerBlinded? || f.PickRandomBase? }

  predicate IsPrimality(f: Fn) { f.RabinMillerIteration? || f.RabinMiller? }

  /** The sizes of the power and square-root functions in closed form. */
  lemma ChainSizes(n: nat, z: nat)
    ensures Bound(PowerFast, n, z) == 10 * n + 5
    ensures Bound(Power, n, z) == 13 * n + 5
    ensures Bound(IsQuadraticResidue, n, z) == 13 * n + 5
    ensures Bound(Sqrt3Mod4, n, z) == 11 * n + 5
    ensures Bound(TonelliShanksPrecomp, n, z) == 13 * n + 5
    ensures Bound(TonelliShanks, n, z) == 16 * n + 5
    ensures Bound(Generic(To), n, z) == Bound(Generic(Mul), n, z) == Bound(Generic(Sqr), n, z) == 7 * n + 5
    ensures Bound(Generic(IsOne), n, z) == 3 * n
  {
    hide EntrySize;
  }

  lemma LeafSizes(n: nat, z: nat)
    ensures Bound(Generic(Mod), n, z) == 5 * n + 5
    ensures Bound(DivEuclid(1), n, z) == n + 10 + 6 * Max(2, n)
    ensures Bound(Entry(To, Montgomery), n, z) == Bound(Entry(From, Montgomery), n, z) == 2 * n
  {
  }

  /** The sizes of the Montgomery functions. */
  lemma MontgomerySizes(n: nat, z: nat)
    ensures Bound(MmComputeR1R2, n, z) == Bound(MmInit, n, z) == Bound(RabinMillerInit, n, z) == 17 * n + 9
    ensures Bound(MmPowerFast, n, z) == Bound(MmPower, n, z) == z + 20 * n + 10
  {
    hide EntrySize, GenericSize;
  }

  /** The sizes of the blinding and primality functions. */
  lemma PrimalitySizes(n: nat, z: nat)
    ensures Bound(PickRandomBase, n, z) == 7 * n + 5
    ensures Bound(PowerBlinded, n, z) == Max(15 * n + 5, 3 * n + 10 + 6 * Max(2, n))
    ensures Bound(RabinMillerIteration, n, z) == n + Bound(PowerBlinded, n, z)
    ensures Bound(RabinMiller, n, z) == z + 6 * n + 2 + Max(Bound(RabinMillerIteration, n, z), 17 * n + 9)
  {
    hide EntrySize, GenericSize;
  }

  /** What the power and square-root functions allocate and call fits their own sizes. */
  lemma ChainsDominate(f: Fn, n: nat, g: Fn, m: nat, z: nat)
    requires IsChain(f) && MayCall(f, n, g, m)
    ensures OwnMost(f, n, z) + Bound(g, m, z) <= Bound(f, n, z)
  {
    ChainSizes(n, z);
    hide Bound, EntryOwn, EntryCalls, OwnArithmetic;
  }

  /** The same for reciprocals. */
  lemma ReciprocalDominates(f: Fn, n: nat, g: Fn, m: nat, z: nat)
    requires IsReciprocal(f) && MayCall(f, n, g, m)
    ensures OwnMost(f, n, z) + Bound(g, m, z) <= Bound(f, n, z)
  {
    hide EntrySize, GenericSize, EntryOwn, EntryCalls, OwnArithmetic;
  }

  /** The same for division. */
  lemma DivisionDominates(f: Fn, n: nat, g: Fn, m: nat, z: nat)
    requires IsDivision(f) && MayCall(f, n, g, m)
    ensures OwnMost(f, n, z) + Bound(g, m, z) <= Bound(f, n, z)
  {
    hide EntrySize, GenericSize, EntryOwn, EntryCalls, OwnArithmetic;
  }

  /** The same for the Montgomery functions. */
  lemma MontgomeryDominates(f: Fn, n: nat, g: Fn, m: nat, z: nat)
    requires IsMontgomery(f) && MayCall(f, n, g, m)
    ensures OwnMost(f, n, z) + Bound(g, m, z) <= Bound(f, n, z)
  {
    ChainSizes(n, z);
    MontgomerySizes(n, z);
    LeafSizes(n, z);
    hide Bound, EntryOwn, EntryCalls, OwnArithmetic;
  }

  /** The same for the blinded power and the random base. */
  lemma BlindingDominates(f: Fn, n: nat, g: Fn, m: nat, z: nat)
    requires IsBlinding(f) && MayCall(f, n, g, m)
    ensures OwnMost(f, n, z) + Bound(g, m, z) <= Bound(f, n, z)
  {
    ChainSizes(n, z);
    PrimalitySizes(n, z);
    LeafSizes(n, z);
    hide Bound, EntryOwn, EntryCalls, OwnArithmetic;
  }

  /** The same for the primality test. */
  lemma PrimalityDominates(f: Fn, n: nat, g: Fn, m: nat, z: nat)
    requires IsPrimality(f) && MayCall(f, n, g, m)
    ensures OwnMost(f, n, z) + Bound(g, m, z) <= Bound(f, n, z)
  {
    ChainSizes(n, z);
    MontgomerySizes(n, z);
    PrimalitySizes(n, z);
    hide Bound, EntryOwn, EntryCalls, OwnArithmetic;
  }

  /** Domination, one level: own allocations plus the size of any function that may be called
      never exceed the size of the caller. */
  lemma OneLevel(f: Fn, n: nat, g: Fn, m: nat, z: nat)
    requires MayCall(f, n, g, m)
    ensures OwnMost(f, n, z) + Bound(g, m, z) <= Bound(f, n, z)
  {
    match f
    case Generic(op) =>
      GenericIsMaximum(op, g.t, n);
    case Entry(op, t) =>
      EntryDominates(op, t, n, g, m, z);
    case _ =>
      hide Bound, OwnMost;
      if IsChain(f) {
        ChainsDominate(f, n, g, m, z);
      } else if IsReciprocal(f) {
        ReciprocalDominates(f, n, g, m, z);
      } else if IsDivision(f) {
        DivisionDominates(f, n, g, m, z);
      } else if IsMontgomery(f) {
        MontgomeryDominates(f, n, g, m, z);
      } else if IsBlinding(f) {
        BlindingDominates(f, n, g, m, z);
      } else {
        PrimalityDominates(f, n, g, m, z);
      }
  }

  lemma OwnFits(f: Fn, n: nat, z: nat)
    ensures OwnMost(f, n, z) <= Bound(f, n, z)
  {
  }

  lemma EntryMonotone(op: Op, t: Table, n: nat, m: nat)
    requires n <= m
    ensures EntrySize(op, t, n) <= EntrySize(op, t, m)
  {
  }

  lemma PrimalityMonotone(f: Fn, n: nat, m: nat, z: nat)
    requires n <= m && (IsBlinding(f) || IsPrimality(f) || IsMontgomery(f))
    ensures Bound(f, n, z) <= Bound(f, m, z)
  {
    MontgomerySizes(n, z);
    MontgomerySizes(m, z);
    PrimalitySizes(n, z);
    PrimalitySizes(m, z);
    hide Bound;
  }

  lemma ChainMonotone(f: Fn, n: nat, m: nat, z: nat)
    requires n <= m && IsChain(f)
    ensures Bound(f, n, z) <= Bound(f, m, z)
  {
    ChainSizes(n, z);
    ChainSizes(m, z);
    hide Bound;
  }

  /** The sizes grow with n. */
  lemma BoundMonotone(f: Fn, n: nat, m: nat, z: nat)
    requires n <= m
    ensures Bound(f, n, z) <= Bound(f, m, z)
  {
    if f.Entry? {
      EntryMonotone(f.op, f.t, n, m);
    } else if IsBlinding(f) || IsPrimality(f) || IsMontgomery(f) {
      PrimalityMonotone(f, n, m, z);
      hide Bound;
    } else if IsChain(f) {
      ChainMonotone(f, n, m, z);
      hide Bound;
    } else {
      hide EntrySize;
    }
  }

  // Runs of these functions.

  datatype At = At(f: Fn, n: nat)

  predicate CallsFrom(a: At, c: Code<At>, z: nat)
    decreases c, 0
  {
    match c
    case Done => true
    case Alloc(_, next) => CallsFrom(a, next, z)
    case Call(b, body, next) =>
      && MayCall(a.f, a.n, b.f, b.n)
      && RunOf(b, body, z)
      && CallsFrom(a, next, z)
  }

  /** `c` is what some run of function `a` does: it allocates at most what the function ever
      allocates, in any order and amount, and makes only calls that the function makes, any
      number of times, each a run of the callee. */
  predicate RunOf(a: At, c: Code<At>, z: nat)
    decreases c, 1
  {
    Own(c) <= OwnMost(a.f, a.n, z) && CallsFrom(a, c, z)
  }

  lemma {:induction false} CalleesFit(a: At, c: Code<At>, z: nat)
    requires CallsFrom(a, c, z)
    ensures OwnMost(a.f, a.n, z) + MaxCallee(c) <= Bound(a.f, a.n, z)
    decreases c, 0
  {
    OwnFits(a.f, a.n, z);
    match c
    case Done =>
    case Alloc(_, next) =>
      CalleesFit(a, next, z);
    case Call(b, body, next) =>
      CalleesFit(a, next, z);
      RunFits(b, body, z);
      OneLevel(a.f, a.n, b.f, b.n, z);
  }

  /** Domination, whole chains: whatever variants are chosen at each level of the square-root,
      inversion, power and primality chains, every run fits the size of its entry point. */
  lemma {:induction false} RunFits(a: At, c: Code<At>, z: nat)
    requires RunOf(a, c, z)
    ensures Size(c) <= Bound(a.f, a.n, z)
    decreases c, 1
  {
    CalleesFit(a, c, z);
  }

  /** Sufficiency of the generated sizes: run any of these functions on a workspace of the size
      computed for it, as ccprime_rabin_miller does. No abort check trips in any run, all live
      blocks are disjoint and in bounds at every moment, and the buffer is cleared at the end. */
  method RunInGeneratedSize(a: At, c: Code<At>, z: nat, buf: array<bv64>)
      returns (ok: bool, ghost trail: seq<seq<Block>>)
    requires RunOf(a, c, z)
    requires buf.Length == Bound(a.f, a.n, z) < SIZE_MAX
    modifies buf
    ensures ok && GoodTrail(trail, 0, buf.Length)
    ensures forall i | 0 <= i < buf.Length :: buf[i] == 0
  {
    RunFits(a, c, z);
    ok, trail := RunWithWorkspace(c, buf);
  }
}
