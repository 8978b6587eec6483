/** That the generated workspace sizes waste nothing: each is what the function allocates itself
    plus the size of the largest function that it calls. */
module WorkspaceExact {
  import opened Workspace
  import opened WorkspaceSizes

  datatype Callee = NoCallee | Callee(f: Fn, n: nat)

  /** The entries of the tables: which call is the largest. */
  function EntryHeaviest(op: Op, t: Table, n: nat): Callee {
    match op
    case Mul => Callee(if OwnArithmetic(t) then CcnMul else Generic(Mod), n)
    case Sqr => Callee(if OwnArithmetic(t) then CcnSqr else Generic(Mod), n)
    case Mod => if t.Montgomery? || t.P192? || t.P521? then NoCallee else Callee(CcnMul, n)
    case Inv => (match t case Montgomery => NoCallee case PlainFieldInv => Callee(PowerFast, n)
                         case _ => Callee(Generic(To), n))
    case Sqrt => (match t case Montgomery => NoCallee case P224 => Callee(TonelliShanksPrecomp, n)
                          case _ => Callee(TonelliShanks, n))
    case To => (match t case Montgomery => Callee(CcnMul, n) case P384 => Callee(CcnMul, n)
                        case P224 => Callee(Generic(Mul), n) case P256 => Callee(Generic(Mul), n) case _ => NoCallee)
    case From => NoCallee
    case IsOne => if OwnArithmetic(t) then NoCallee else Callee(Generic(From), n)
  }

  /** The largest function that a function calls. */
  function Heaviest(f: Fn, n: nat, z: nat): Callee {
    match f
    case Generic(op) => Callee(Entry(op, Widest(op)), n)
    case Entry(op, t) => EntryHeaviest(op, t, n)
    case DivEuclid(nd) => Callee(DivUseRecip(nd), n)
    case CcnMakeRecip => Callee(CcnSqr, n + 1)
    case CczpInit => Callee(CcnMakeRecip, n)
    case CczpModn(nd) => Callee(DivUseRecip(nd), n)
    case PowerFast => Callee(Generic(To), n)
    case Power => Callee(Generic(To), n)
    case PowerBlinded => Callee(if PowerN(n) > DivEuclidN(n, 1) then Power else DivEuclid(1), n)
    case IsQuadraticResidue => Callee(PowerFast, n)
    case Sqrt3Mod4 => Callee(PowerFast, n)
    case TonelliShanksPrecomp => Callee(PowerFast, n)
    case TonelliShanks => Callee(TonelliShanksPrecomp, n)
    case MmComputeR1R2 => Callee(DivEuclid(n), 2 * n)
    case MmInit => Callee(MmComputeR1R2, n)
    case MmPowerFast => Callee(MmInit, n)
    case MmPower => Callee(MmInit, n)
    case PickRandomBase => Callee(Generic(Mod), n)
    case RabinMillerInit => Callee(MmInit, n)
    case RabinMillerIteration => Callee(PowerBlinded, n)
    case RabinMiller =>
      if RabinMillerIterationN(n) > RabinMillerInitN(n) then Callee(RabinMillerIteration, n)
      else Callee(RabinMillerInit, n)
    case _ => NoCallee
  }

  /** What the two hand-written division sizes allow beyond the rule. */
  function Spare(f: Fn): nat {
    match f
    case DivUseRecip(_) => 1
    case DivEuclid(_) => 4
    case _ => 0
  }

  /** The rule for one function: own allocations plus its heaviest callee, or own allocations
      alone if it calls nothing. */
  ghost predicate Exact(f: Fn, n: nat, z: nat) {
    match Heaviest(f, n, z)
    case NoCallee => OwnMost(f, n, z) + Spare(f) == Bound(f, n, z)
    case Callee(g, m) => MayCall(f, n, g, m) && OwnMost(f, n, z) + Bound(g, m, z) + Spare(f) == Bound(f, n, z)
  }

  lemma ArithmeticExact(op: Op, t: Table, n: nat, z: nat)
    requires op.Mul? || op.Sqr? || op.Mod?
    ensures Exact(Entry(op, t), n, z)
  {
  }

  lemma SolverExact(op: Op, t: Table, n: nat, z: nat)
    requires op.Inv? || op.Sqrt?
    ensures Exact(Entry(op, t), n, z)
  {
  }

  lemma ConversionExact(op: Op, t: Table, n: nat, z: nat)
    requires op.To? || op.From? || op.IsOne?
    ensures Exact(Entry(op, t), n, z)
  {
  }

  lemma EntryExact(op: Op, t: Table, n: nat, z: nat)
    ensures Exact(Entry(op, t), n, z)
  {
    hide Exact;
    match op {
      case Mul => ArithmeticExact(op, t, n, z);
      case Sqr => ArithmeticExact(op, t, n, z);
      case Mod => ArithmeticExact(op, t, n, z);
      case Inv => SolverExact(op, t, n, z);
      case Sqrt => SolverExact(op, t, n, z);
      case _ => ConversionExact(op, t, n, z);
    }
  }

  lemma GenericExact(op: Op, n: nat, z: nat)
    ensures Exact(Generic(op), n, z)
  {
    GenericIsMaximum(op, Plain, n);
    hide EntrySize, GenericSize;
  }

  lemma ChainExact(f: Fn, n: nat, z: nat)
    requires IsChain(f)
    ensures Exact(f, n, z)
  {
    ChainSizes(n, z);
    hide Bound, EntryOwn, EntryCalls;
  }

  lemma MontgomeryExact(f: Fn, n: nat, z: nat)
    requires IsMontgomery(f)
    ensures Exact(f, n, z)
  {
    MontgomerySizes(n, z);
    hide Bound, EntryOwn, EntryCalls;
  }

  lemma BlindingExact(f: Fn, n: nat, z: nat)
    requires IsBlinding(f)
    ensures Exact(f, n, z)
  {
    hide EntryOwn, EntryCalls, EntrySize;
  }

  lemma PrimalityExact(f: Fn, n: nat, z: nat)
    requires IsPrimality(f)
    ensures Exact(f, n, z)
  {
    MontgomerySizes(n, z);
    PrimalitySizes(n, z);
    assert Bound(RabinMillerInit, n, z) == RabinMillerInitN(n);
    assert Bound(RabinMillerIteration, n, z) == RabinMillerIterationN(n);
    hide EntryOwn, EntryCalls, Bound;
  }

  lemma DivisionExact(f: Fn, n: nat, z: nat)
    requires IsDivision(f) || IsReciprocal(f) || f.DivUseRecip?
    requires f.DivUseRecip? ==> f.nd >= 1
    ensures Exact(f, n, z)
  {
    hide EntryOwn, EntryCalls, EntrySize;
  }

  lemma LeafExact(f: Fn, n: nat, z: nat)
    requires f.CcnMul? || f.CcnSqr? || f.CczpAdd? || f.CczpSub? || f.CczpDiv2? || f.InvUpdate? || f.InvUpdateRedc?
    ensures Exact(f, n, z)
  {
  }

  /** The generated sizes are exact, for all n, apart from one unit in the size of
      ccn_div_use_recip and four in that of ccn_div_euclid. */
  lemma RuleIsExact(f: Fn, n: nat, z: nat)
    requires f.DivUseRecip? ==> f.nd >= 1
    ensures Exact(f, n, z)
  {
    hide Exact;
    match f
    case Generic(op) => GenericExact(op, n, z);
    case Entry(op, t) => EntryExact(op, t, n, z);
    case _ =>
      if IsChain(f) {
        ChainExact(f, n, z);
      } else if IsMontgomery(f) {
        MontgomeryExact(f, n, z);
      } else if IsBlinding(f) {
        BlindingExact(f, n, z);
      } else if IsPrimality(f) {
        PrimalityExact(f, n, z);
      } else if IsDivision(f) || IsReciprocal(f) || f.DivUseRecip? {
        DivisionExact(f, n, z);
      } else {
        LeafExact(f, n, z);
      }
  }
}
