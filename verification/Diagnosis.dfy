/** What the status of a failed compilation tells the caller, with no word of faults: a limit is
    reported only where it is exceeded, a bad leaf only where repairing the leaves helps, and a type
    mismatch exactly for the other ill-typed trees. */
module Diagnosis {
  import opened Words
  import opened Common
  import opened Registry
  import opened Ast
  import opened Allocator
  import opened CodeGen
  import opened Conditions
  import opened CompilerTheorems
  import opened LostJumps
  import opened FirstFault

  // ----- limits are reported only where they are exceeded -----

  /** A fault of a limit means that this limit is exceeded: by the registers needed beside `n` live
      ones, by a field offset, or by the end of the code. */
  predicate Exceeded(f: Option<CompileError>, n: int, need: int, offsets: bool, end: int) {
    && (f == Some(RegisterLimit) ==> n + need > 256)
    && (f == Some(PayloadRange) ==> !offsets)
    && (f == Some(JumpRange) || f == Some(InternalPatch) ==> !FitsI32(end))
  }

  predicate ExceededBy(q: Qualifiers, e: Expr, pos: nat, n: int, f: Option<CompileError>) {
    Exceeded(f, n, Need(q, e), OffsetsFit(q, e), pos + Size(q, e))
  }

  lemma {:induction false} LimitsAreExceeded(q: Qualifiers, e: Expr, pos: nat, n: int)
    ensures ExceededBy(q, e, pos, n, Fault(q, e, pos, n))
    decreases Nodes(e), 0
  {
    hide ExceededBy, Fault;
    match e
    case Not(x) => NotExceeds(q, x, pos, n);
    case And(l, r) => AndExceeds(q, l, r, pos, n);
    case Or(l, r) => OrExceeds(q, l, r, pos, n);
    case Compare(op, l, r) => CompareExceeds(q, op, l, r, pos, n);
    case Bits(op, l, r) => BitsExceeds(q, op, l, r, pos, n);
    case _ => LeafExceeds(q, e, pos, n);
  }

  lemma LeafExceeds(q: Qualifiers, e: Expr, pos: nat, n: int)
    requires !e.Not? && !e.And? && !e.Or? && !e.Compare? && !e.Bits?
    ensures ExceededBy(q, e, pos, n, Fault(q, e, pos, n))
  {
    hide FitsI32;
  }

  lemma {:induction false} BoolExceeds(q: Qualifiers, e: Expr, pos: nat, n: int)
    ensures Exceeded(FaultBool(q, e, pos, n), n, NeedBool(q, e), OffsetsFit(q, e), pos + SizeBool(q, e))
    decreases Nodes(e), 1
  {
    hide Fault, Need, OffsetsFit, Size, TypeOf;
    LimitsAreExceeded(q, e, pos, n);
  }

  lemma {:induction false} NotExceeds(q: Qualifiers, x: Expr, pos: nat, n: int)
    ensures ExceededBy(q, Not(x), pos, n, Fault(q, Not(x), pos, n))
    decreases Nodes(x), 2
  {
    hide FaultBool, OffsetsFit, JumpsFit, WellTyped, TypeOf, IsIp, Need, NeedBool, Size, SizeBool;
    BoolExceeds(q, x, pos, n);
    NotConditions(q, x, pos);
    NotRanges(q, x, pos);
  }

  lemma {:induction false} AndExceeds(q: Qualifiers, l: Expr, r: Expr, pos: nat, n: int)
    ensures ExceededBy(q, And(l, r), pos, n, Fault(q, And(l, r), pos, n))
    decreases Nodes(l) + Nodes(r), 0
  {
    hide FaultBool, OffsetsFit, JumpsFit, WellTyped, TypeOf, IsIp, Need, NeedBool, Size, SizeBool, CastI32;
    var at := pos + SizeBool(q, l) + 1;
    BoolExceeds(q, l, pos, n);
    BoolExceeds(q, r, at, n + 1);
    NeedAtLeastOne(q, r);
    AndConditions(q, l, r, pos);
    AndOffsets(q, l, r);
  }

  lemma {:induction false} OrExceeds(q: Qualifiers, l: Expr, r: Expr, pos: nat, n: int)
    ensures ExceededBy(q, Or(l, r), pos, n, Fault(q, Or(l, r), pos, n))
    decreases Nodes(l) + Nodes(r), 0
  {
    hide FaultBool, OffsetsFit, JumpsFit, WellTyped, TypeOf, IsIp, Need, NeedBool, Size, SizeBool, CastI32;
    var at := pos + SizeBool(q, l) + 4;
    BoolExceeds(q, l, pos, n);
    BoolExceeds(q, r, at, n + 1);
    NeedAtLeastOne(q, r);
    OrConditions(q, l, r, pos);
    OrOffsets(q, l, r);
  }

  lemma {:induction false} OperandsExceed(q: Qualifiers, l: Expr, r: Expr, pos: nat, n: int)
    ensures Exceeded(OperandsFault(q, l, r, pos, n), n, Max(Need(q, l), 1 + Need(q, r)),
                     OffsetsFit(q, l) && OffsetsFit(q, r), pos + Size(q, l) + Size(q, r))
    decreases Nodes(l) + Nodes(r), 0
  {
    hide Fault, OffsetsFit, Need, Size;
    LimitsAreExceeded(q, l, pos, n);
    LimitsAreExceeded(q, r, pos + Size(q, l), n + 1);
  }

  lemma {:induction false} BitsExceeds(q: Qualifiers, op: BitOp, l: Expr, r: Expr, pos: nat, n: int)
    ensures ExceededBy(q, Bits(op, l, r), pos, n, Fault(q, Bits(op, l, r), pos, n))
    decreases Nodes(l) + Nodes(r), 1
  {
    hide OperandsFault, TypeOf, Need, Size;
    OperandsExceed(q, l, r, pos, n);
    BitsCost(q, op, l, r);
  }

  lemma Ipv6Exceeds(q: Qualifiers, e: Expr, n: int)
    ensures Exceeded(Ipv6Fault(q, e, n), n, 2, Ipv6OffsetFits(q, e), 0x8000_0000)
  {
  }

  lemma {:induction false} CompareExceeds(q: Qualifiers, op: CmpOp, l: Expr, r: Expr, pos: nat, n: int)
    ensures ExceededBy(q, Compare(op, l, r), pos, n, Fault(q, Compare(op, l, r), pos, n))
    decreases Nodes(l) + Nodes(r), 2
  {
    hide TypeOf, ResolveFault, Ipv6CompareFault, PlainCompareFault, Need, OffsetsFit, Size;
    ResolveExceedsNothing(q, l);
    ResolveExceedsNothing(q, r);
    if TypeOf(q, l) == VIpv6 {
      AddressesExceed(q, op, l, r, pos, n);
    } else {
      PlainExceeds(q, op, l, r, pos, n);
    }
  }

  lemma ResolveExceedsNothing(q: Qualifiers, e: Expr)
    ensures var f := ResolveFault(q, e); f == None || f == Some(EmptyNode) || f == Some(UnknownQualifier)
  {
  }

  lemma AddressesExceed(q: Qualifiers, op: CmpOp, l: Expr, r: Expr, pos: nat, n: int)
    requires TypeOf(q, l) == VIpv6
    ensures ExceededBy(q, Compare(op, l, r), pos, n, Ipv6CompareFault(q, l, r, n))
  {
    hide Ipv6Fault, TypeOf, Size, Ipv6OffsetFits;
    Ipv6Exceeds(q, l, n);
    Ipv6Exceeds(q, r, n + 2);
    NoJumpRange(q, l, n);
    NoJumpRange(q, r, n + 2);
  }

  lemma NoJumpRange(q: Qualifiers, e: Expr, n: int)
    ensures Ipv6Fault(q, e, n) != Some(JumpRange) && Ipv6Fault(q, e, n) != Some(InternalPatch)
  {
  }

  lemma {:induction false} PlainExceeds(q: Qualifiers, op: CmpOp, l: Expr, r: Expr, pos: nat, n: int)
    requires TypeOf(q, l) != VIpv6
    ensures ExceededBy(q, Compare(op, l, r), pos, n, PlainCompareFault(q, l, r, pos, n))
    decreases Nodes(l) + Nodes(r), 1
  {
    hide OperandsFault, TypeOf, Need, OffsetsFit, Size;
    OperandsExceed(q, l, r, pos, n);
    CompareCost(q, op, l, r);
    CompareOffsets(q, op, l, r);
  }

  // ----- trees within the limits -----

  /** The tree needs at most 256 registers, its offsets fit and its code ends below 2^31. */
  predicate WithinLimits(q: Qualifiers, root: Expr) {
    NeedBool(q, root) <= 256 && OffsetsFit(q, root) && SizeBool(q, root) <= 0x7fff_ffff
  }

  /** No null node, no unknown name and no literal that is not an address. */
  ghost predicate CleanLeaves(q: Qualifiers, root: Expr) {
    && Null !in Leaves(root) && Ipv4(None) !in Leaves(root) && Ipv6(None) !in Leaves(root)
    && forall n: string :: Ident(n) in Leaves(root) ==> n in q
  }

  /** The status a compilation answers for a non-null root. */
  function StatusFor(q: Qualifiers, root: Expr): Status {
    var p := GenProgram(q, root);
    if p.Ok? then Success else StatusOf(p.error)
  }

  /** A tree within the limits whose leaves are clean compiles if it is a well-typed truth value, and
      is a type mismatch otherwise. */
  lemma TypesDecideWithinLimits(q: Qualifiers, root: Expr)
    requires WithinLimits(q, root) && CleanLeaves(q, root)
    ensures StatusFor(q, root) == if Logical(q, root) then Success else TypeMismatch
  {
    hide GenProgram, FaultBool, Leaves, Logical, NeedBool, OffsetsFit, SizeBool;
    StatusAnswersFault(q, root);
    FirstFaultMeans(q, root);
    BoolExceeds(q, root, 0, 0);
    ShortProgramsCompileExactlyWhen(q, root);
    ReportsFirstFault(q, root);
  }

  /** A tree within the limits never fails with the code-generation status unless it has a null
      node. */
  lemma CodegenErrorMeans(q: Qualifiers, root: Expr)
    requires StatusFor(q, root) == CodegenError
    ensures Null in Leaves(root) || !WithinLimits(q, root)
  {
    hide GenProgram, FaultBool, Leaves, Logical, NeedBool, OffsetsFit, SizeBool;
    StatusAnswersFault(q, root);
    FirstFaultMeans(q, root);
    BoolExceeds(q, root, 0, 0);
  }

  /** An unknown name and a bad literal are reported only for trees that have one, and a type
      mismatch only for ill-typed trees. */
  lemma StatusMeans(q: Qualifiers, root: Expr)
    ensures StatusFor(q, root) == QualifierNotFound ==> exists n: string :: n !in q && Ident(n) in Leaves(root)
    ensures StatusFor(q, root) == ParseError ==> Ipv4(None) in Leaves(root) || Ipv6(None) in Leaves(root)
    ensures StatusFor(q, root) == TypeMismatch ==> !Logical(q, root)
  {
    hide GenProgram, FaultBool, Leaves, Logical;
    StatusAnswersFault(q, root);
    FirstFaultMeans(q, root);
  }

  // ----- trees that would compile but for their leaves -----

  /** `e` under `q` is `e'` under `big` but for its leaves: names not registered yet, literals that are
      no addresses, and null nodes in place of expressions. */
  ghost predicate Damaged(q: Qualifiers, e: Expr, big: Qualifiers, e': Expr)
    decreases Nodes(e)
  {
    match e
    case Null => true
    case Ident(n) => e' == e && (n in q ==> n in big && big[n] == q[n])
    case Ipv4(a) => e'.Ipv4? && (a.Some? ==> e' == e)
    case Ipv6(a) => e'.Ipv6? && (a.Some? ==> e' == e)
    case Not(x) => e'.Not? && Damaged(q, x, big, e'.operand)
    case And(l, r) => e'.And? && Damaged(q, l, big, e'.left) && Damaged(q, r, big, e'.right)
    case Or(l, r) => e'.Or? && Damaged(q, l, big, e'.left) && Damaged(q, r, big, e'.right)
    case Compare(op, l, r) =>
      e'.Compare? && e'.cmp == op && Damaged(q, l, big, e'.left) && Damaged(q, r, big, e'.right)
    case Bits(op, l, r) =>
      e'.Bits? && e'.bit == op && Damaged(q, l, big, e'.left) && Damaged(q, r, big, e'.right)
    case _ => e' == e
  }

  /** No fault, or one of a leaf. */
  predicate AtMostLeaf(f: Option<CompileError>) {
    f == None || f == Some(UnknownQualifier) || LiteralFault(f) || f == Some(EmptyNode)
  }

  /** With no fault in `e`, it is `e'` with the same type and size. */
  ghost predicate Undamaged(q: Qualifiers, e: Expr, big: Qualifiers, e': Expr) {
    TypeOf(q, e) == TypeOf(big, e') && Size(q, e) == Size(big, e') && SizeBool(q, e) == SizeBool(big, e')
  }

  /** The fault `f` of `e` under `q` is at most one of a leaf, and without one `e` is undamaged. */
  ghost predicate LeafIsToBlame(q: Qualifiers, e: Expr, big: Qualifiers, e': Expr, f: Option<CompileError>) {
    AtMostLeaf(f) && (f == None ==> Undamaged(q, e, big, e'))
  }

  lemma {:induction false} DamageIsFound(q: Qualifiers, e: Expr, big: Qualifiers, e': Expr, pos: nat, n: int)
    requires Damaged(q, e, big, e') && Fault(big, e', pos, n) == None
    ensures LeafIsToBlame(q, e, big, e', Fault(q, e, pos, n))
    decreases Nodes(e), 0
  {
    hide LeafIsToBlame, Fault;
    match e
    case Not(x) => NotDamage(q, x, big, e'.operand, pos, n);
    case And(l, r) => AndDamage(q, l, r, big, e'.left, e'.right, pos, n);
    case Or(l, r) => OrDamage(q, l, r, big, e'.left, e'.right, pos, n);
    case Compare(op, l, r) => CompareDamage(q, op, l, r, big, e'.left, e'.right, pos, n);
    case Bits(op, l, r) => BitsDamage(q, op, l, r, big, e'.left, e'.right, pos, n);
    case _ => LeafDamage(q, e, big, e', pos, n);
  }

  lemma LeafDamage(q: Qualifiers, e: Expr, big: Qualifiers, e': Expr, pos: nat, n: int)
    requires !e.Not? && !e.And? && !e.Or? && !e.Compare? && !e.Bits?
    requires Damaged(q, e, big, e') && Fault(big, e', pos, n) == None
    ensures LeafIsToBlame(q, e, big, e', Fault(q, e, pos, n))
  {
    match e
    case Ident(name) => NameDamage(q, name, big, pos, n);
    case Ipv4(a) => AddressDamage(q, a, big, e', pos, n);
    case Ipv6(_) => NeverAValue(big, e'.addr6, pos, n);
    case _ =>
  }

  lemma NeverAValue(q: Qualifiers, a: Option<Bytes16>, pos: nat, n: int)
    ensures Fault(q, Ipv6(a), pos, n) != None
  {
  }

  lemma NameDamage(q: Qualifiers, name: string, big: Qualifiers, pos: nat, n: int)
    requires name in q ==> name in big && big[name] == q[name]
    requires Fault(big, Ident(name), pos, n) == None
    ensures LeafIsToBlame(q, Ident(name), big, Ident(name), Fault(q, Ident(name), pos, n))
  {
    hide LoadFault, QualifierType;
    assert Fault(big, Ident(name), pos, n) == IdentFault(big, name, n);
    assert Fault(q, Ident(name), pos, n) == IdentFault(q, name, n);
  }

  lemma AddressDamage(q: Qualifiers, a: Option<Bytes4>, big: Qualifiers, e': Expr, pos: nat, n: int)
    requires e'.Ipv4? && (a.Some? ==> e' == Ipv4(a)) && Fault(big, e', pos, n) == None
    ensures LeafIsToBlame(q, Ipv4(a), big, e', Fault(q, Ipv4(a), pos, n))
  {
    assert Fault(q, Ipv4(a), pos, n) == if a == None then Some(BadIpv4) else TooMany(n + 1);
  }

  lemma {:induction false} BoolDamage(q: Qualifiers, e: Expr, big: Qualifiers, e': Expr, pos: nat, n: int)
    requires Damaged(q, e, big, e') && FaultBool(big, e', pos, n) == None
    ensures LeafIsToBlame(q, e, big, e', FaultBool(q, e, pos, n))
    decreases Nodes(e), 1
  {
    hide Damaged, Fault, CoercionFault, TypeOf, Size, SizeBool;
    DamageIsFound(q, e, big, e', pos, n);
  }

  lemma {:induction false} NotDamage(q: Qualifiers, x: Expr, big: Qualifiers, x': Expr, pos: nat, n: int)
    requires Damaged(q, x, big, x') && Fault(big, Not(x'), pos, n) == None
    ensures LeafIsToBlame(q, Not(x), big, Not(x'), Fault(q, Not(x), pos, n))
    decreases Nodes(x), 2
  {
    hide Damaged, FaultBool;
    BoolDamage(q, x, big, x', pos, n);
  }

  lemma {:induction false} AndDamage(
    q: Qualifiers, l: Expr, r: Expr, big: Qualifiers, l': Expr, r': Expr, pos: nat, n: int)
    requires Damaged(q, l, big, l') && Damaged(q, r, big, r') && Fault(big, And(l', r'), pos, n) == None
    ensures LeafIsToBlame(q, And(l, r), big, And(l', r'), Fault(q, And(l, r), pos, n))
    decreases Nodes(l) + Nodes(r), 0
  {
    hide Damaged, FaultBool, TooMany, PatchError, FitsI32, TypeOf, Size, SizeBool;
    BoolDamage(q, l, big, l', pos, n);
    BoolDamage(q, r, big, r', pos + SizeBool(big, l') + 1, n + 1);
    LogicalSize(q, l, r);
    LogicalSize(big, l', r');
  }

  lemma {:induction false} OrDamage(
    q: Qualifiers, l: Expr, r: Expr, big: Qualifiers, l': Expr, r': Expr, pos: nat, n: int)
    requires Damaged(q, l, big, l') && Damaged(q, r, big, r') && Fault(big, Or(l', r'), pos, n) == None
    ensures LeafIsToBlame(q, Or(l, r), big, Or(l', r'), Fault(q, Or(l, r), pos, n))
    decreases Nodes(l) + Nodes(r), 0
  {
    hide Damaged, FaultBool, TooMany, PatchError, FitsI32, TypeOf, Size, SizeBool;
    BoolDamage(q, l, big, l', pos, n);
    BoolDamage(q, r, big, r', pos + SizeBool(big, l') + 4, n + 1);
    LogicalSize(q, l, r);
    LogicalSize(big, l', r');
  }

  lemma LogicalSize(q: Qualifiers, l: Expr, r: Expr)
    ensures var a, o, size := And(l, r), Or(l, r), SizeBool(q, l) + SizeBool(q, r) + 5;
      && TypeOf(q, a) == VBool && Size(q, a) == size && SizeBool(q, a) == size
      && TypeOf(q, o) == VBool && Size(q, o) == size && SizeBool(q, o) == size
  {
    LogicalTypes(q, l, r);
    AndSize(q, l, r);
  }

  /** Two operands. */
  lemma {:induction false} OperandsDamage(
    q: Qualifiers, l: Expr, r: Expr, big: Qualifiers, l': Expr, r': Expr, pos: nat, n: int)
    requires Damaged(q, l, big, l') && Damaged(q, r, big, r') && OperandsFault(big, l', r', pos, n) == None
    ensures var f := OperandsFault(q, l, r, pos, n);
      AtMostLeaf(f) && (f == None ==> Undamaged(q, l, big, l') && Undamaged(q, r, big, r'))
    decreases Nodes(l) + Nodes(r), 0
  {
    hide Damaged, Fault, Undamaged, Size;
    DamageIsFound(q, l, big, l', pos, n);
    DamageIsFound(q, r, big, r', pos + Size(big, l'), n + 1);
    SameSize(q, l, big, l');
  }

  lemma SameSize(q: Qualifiers, e: Expr, big: Qualifiers, e': Expr)
    ensures Undamaged(q, e, big, e') ==> Size(q, e) == Size(big, e') && TypeOf(q, e) == TypeOf(big, e')
  {
    hide Size, SizeBool, TypeOf;
  }

  lemma {:induction false} BitsDamage(
    q: Qualifiers, op: BitOp, l: Expr, r: Expr, big: Qualifiers, l': Expr, r': Expr, pos: nat, n: int)
    requires Damaged(q, l, big, l') && Damaged(q, r, big, r') && Fault(big, Bits(op, l', r'), pos, n) == None
    ensures LeafIsToBlame(q, Bits(op, l, r), big, Bits(op, l', r'), Fault(q, Bits(op, l, r), pos, n))
    decreases Nodes(l) + Nodes(r), 1
  {
    hide Damaged, OperandsFault, TypeOf, Size, SizeBool;
    OperandsDamage(q, l, r, big, l', r', pos, n);
    BitsSize(q, op, l, r);
    BitsSize(big, op, l', r');
  }

  lemma BitsSize(q: Qualifiers, op: BitOp, l: Expr, r: Expr)
    ensures var e := Bits(op, l, r);
      TypeOf(q, e) == VInt && Size(q, e) == Size(q, l) + Size(q, r) + 1 && SizeBool(q, e) == Size(q, e) + 3
  {
    hide TypeOf;
    BitsAreIntegers(q, op, l, r);
  }

  /** The type of an operand that resolves is the undamaged one. */
  lemma DamagedType(q: Qualifiers, e: Expr, big: Qualifiers, e': Expr)
    requires Damaged(q, e, big, e') && ResolveFault(q, e) == None
    ensures TypeOf(q, e) == TypeOf(big, e')
  {
    hide QualifierType;
  }

  lemma Ipv6Damage(q: Qualifiers, e: Expr, big: Qualifiers, e': Expr, n: int)
    requires Damaged(q, e, big, e') && Ipv6Fault(big, e', n) == None
    ensures AtMostLeaf(Ipv6Fault(q, e, n))
    ensures Ipv6Fault(q, e, n) == None ==> Ipv6Size(e) == Ipv6Size(e')
  {
    hide FitsI32;
  }

  lemma {:induction false} CompareDamage(
    q: Qualifiers, op: CmpOp, l: Expr, r: Expr, big: Qualifiers, l': Expr, r': Expr, pos: nat, n: int)
    requires Damaged(q, l, big, l') && Damaged(q, r, big, r') && Fault(big, Compare(op, l', r'), pos, n) == None
    ensures LeafIsToBlame(q, Compare(op, l, r), big, Compare(op, l', r'), Fault(q, Compare(op, l, r), pos, n))
    decreases Nodes(l) + Nodes(r), 2
  {
    hide Damaged, TypeOf, ResolveFault, Ipv6Fault, OperandsFault, LeafIsToBlame;
    ResolveExceedsNothing(q, l);
    ResolveExceedsNothing(q, r);
    if ResolveFault(q, l) == None && ResolveFault(q, r) == None {
      DamagedType(q, l, big, l');
      DamagedType(q, r, big, r');
      if TypeOf(q, l) == VIpv6 {
        AddressesDamage(q, op, l, r, big, l', r', n);
      } else {
        PlainDamage(q, op, l, r, big, l', r', pos, n);
      }
    } else {
      ResolveComesFirst(q, op, l, r, pos, n);
      LeafBlamed(q, Compare(op, l, r), big, Compare(op, l', r'), Either(ResolveFault(q, l), ResolveFault(q, r)));
    }
  }

  lemma ResolveComesFirst(q: Qualifiers, op: CmpOp, l: Expr, r: Expr, pos: nat, n: int)
    requires ResolveFault(q, l).Some? || ResolveFault(q, r).Some?
    ensures Fault(q, Compare(op, l, r), pos, n) == Either(ResolveFault(q, l), ResolveFault(q, r))
  {
    hide ResolveFault, AddressFault, Ipv6CompareFault, PlainCompareFault, TypeOf;
  }

  lemma LeafBlamed(q: Qualifiers, e: Expr, big: Qualifiers, e': Expr, f: Option<CompileError>)
    requires f.Some? && AtMostLeaf(f)
    ensures LeafIsToBlame(q, e, big, e', f)
  {
  }

  lemma AddressesDamage(q: Qualifiers, op: CmpOp, l: Expr, r: Expr, big: Qualifiers, l': Expr, r': Expr, n: int)
    requires Damaged(q, l, big, l') && Damaged(q, r, big, r') && Ipv6CompareFault(big, l', r', n) == None
    requires TypeOf(q, l) == TypeOf(big, l') == VIpv6
    ensures LeafIsToBlame(q, Compare(op, l, r), big, Compare(op, l', r'), Ipv6CompareFault(q, l, r, n))
  {
    hide Damaged, Ipv6Fault, Ipv6Size, AtMostLeaf;
    Ipv6Damage(q, l, big, l', n);
    Ipv6Damage(q, r, big, r', n + 2);
    NothingIsLeaf();
    ComparisonSize(q, op, l, r, big, l', r');
  }

  lemma NothingIsLeaf()
    ensures AtMostLeaf(None)
  {
  }

  lemma ComparisonSize(q: Qualifiers, op: CmpOp, l: Expr, r: Expr, big: Qualifiers, l': Expr, r': Expr)
    requires TypeOf(q, l) == TypeOf(big, l') == VIpv6
    ensures Ipv6Size(l) == Ipv6Size(l') && Ipv6Size(r) == Ipv6Size(r') ==>
            Undamaged(q, Compare(op, l, r), big, Compare(op, l', r'))
  {
  }

  lemma {:induction false} PlainDamage(
    q: Qualifiers, op: CmpOp, l: Expr, r: Expr, big: Qualifiers, l': Expr, r': Expr, pos: nat, n: int)
    requires Damaged(q, l, big, l') && Damaged(q, r, big, r') && PlainCompareFault(big, l', r', pos, n) == None
    requires TypeOf(q, l) == TypeOf(big, l') != VIpv6 && TypeOf(q, r) == TypeOf(big, r')
    ensures LeafIsToBlame(q, Compare(op, l, r), big, Compare(op, l', r'), PlainCompareFault(q, l, r, pos, n))
    decreases Nodes(l) + Nodes(r), 1
  {
    hide Damaged, OperandsFault, TypeOf, Size, SizeBool;
    OperandsDamage(q, l, r, big, l', r', pos, n);
    PlainSize(q, op, l, r);
    PlainSize(big, op, l', r');
  }

  lemma PlainSize(q: Qualifiers, op: CmpOp, l: Expr, r: Expr)
    requires TypeOf(q, l) != VIpv6
    ensures var e, size := Compare(op, l, r), Size(q, l) + Size(q, r) + if TypeOf(q, l) == TypeOf(q, r) then 1 else 4;
      TypeOf(q, e) == VBool && Size(q, e) == size && SizeBool(q, e) == size
  {
    CompareCost(q, op, l, r);
    hide TypeOf;
  }

  /** A tree that fails, but compiles once its leaves are repaired, reports a leaf: an unknown name, a
      bad literal, or a null node. */
  lemma RepairableTreesBlameALeaf(q: Qualifiers, root: Expr, big: Qualifiers, root': Expr)
    requires Damaged(q, root, big, root') && GenProgram(big, root').Ok? && GenProgram(q, root).Err?
    ensures var s := StatusFor(q, root);
      && (s == QualifierNotFound || s == ParseError || (s == CodegenError && Null in Leaves(root)))
      && (s == QualifierNotFound ==> exists n: string :: n !in q && Ident(n) in Leaves(root))
      && (s == ParseError ==> Ipv4(None) in Leaves(root) || Ipv6(None) in Leaves(root))
  {
    hide GenProgram, FaultBool, Leaves, Logical, Damaged, LeafIsToBlame;
    ReportsFirstFault(big, root');
    ReportsFirstFault(q, root);
    BoolDamage(q, root, big, root', 0, 0);
    BlameIsLeaf(q, root, big, root', FaultBool(q, root, 0, 0));
    StatusAnswersFault(q, root);
    FirstFaultMeans(q, root);
  }

  lemma BlameIsLeaf(q: Qualifiers, e: Expr, big: Qualifiers, e': Expr, f: Option<CompileError>)
    requires LeafIsToBlame(q, e, big, e', f)
    ensures AtMostLeaf(f)
  {
  }

  /** So a tree that compiles after further registrations but not before fails with an unknown
      name. */
  lemma MissingRegistrationsAreReported(q: Qualifiers, ds: seq<Descriptor>, root: Expr)
    requires GenProgram(RegisterAll(q, ds), root).Ok? && GenProgram(q, root).Err?
    ensures StatusFor(q, root) == QualifierNotFound
  {
    hide GenProgram, Leaves, Extends, RegisterAll, FaultBool;
    var big := RegisterAll(q, ds);
    RegistrationsExtend(q, ds);
    ExtensionRepairs(big, q, root);
    RepairableTreesBlameALeaf(q, root, big, root);
    ReportsFirstFault(big, root);
    BoolFaultFree(big, root, 0, 0);
  }

  lemma {:induction false} ExtensionRepairs(big: Qualifiers, q: Qualifiers, e: Expr)
    requires Extends(big, q)
    ensures Damaged(q, e, big, e)
    decreases Nodes(e)
  {
    match e
    case Not(x) => ExtensionRepairs(big, q, x);
    case And(l, r) => ExtensionRepairs(big, q, l); ExtensionRepairs(big, q, r);
    case Or(l, r) => ExtensionRepairs(big, q, l); ExtensionRepairs(big, q, r);
    case Compare(_, l, r) => ExtensionRepairs(big, q, l); ExtensionRepairs(big, q, r);
    case Bits(_, l, r) => ExtensionRepairs(big, q, l); ExtensionRepairs(big, q, r);
    case _ =>
  }

  /** A tree without a fault has clean leaves. */
  lemma {:induction false} FaultFreeLeaves(q: Qualifiers, e: Expr, pos: nat, n: int)
    requires Fault(q, e, pos, n) == None
    ensures CleanLeaves(q, e)
    decreases Nodes(e), 0
  {
    hide Size, SizeBool, TypeOf, CastI32, FitsI32, FaultBool, OperandsFault, CompareFault, CleanLeaves, LoadFault;
    match e
    case Not(x) =>
      BoolFaultFree(q, x, pos, n);
      JoinClean(q, e, x, x);
    case And(l, r) =>
      BoolFaultFree(q, l, pos, n);
      BoolFaultFree(q, r, pos + SizeBool(q, l) + 1, n + 1);
      JoinClean(q, e, l, r);
    case Or(l, r) =>
      BoolFaultFree(q, l, pos, n);
      BoolFaultFree(q, r, pos + SizeBool(q, l) + 4, n + 1);
      JoinClean(q, e, l, r);
    case Compare(op, l, r) =>
      CompareFaultFree(q, op, l, r, pos, n);
      JoinClean(q, e, l, r);
    case Bits(_, l, r) =>
      OperandsFaultFree(q, l, r, pos, n);
      JoinClean(q, e, l, r);
    case _ => LeafFaultFree(q, e, pos, n);
  }

  lemma JoinClean(q: Qualifiers, e: Expr, l: Expr, r: Expr)
    requires CleanLeaves(q, l) && CleanLeaves(q, r) && Leaves(e) == Leaves(l) + Leaves(r)
    ensures CleanLeaves(q, e)
  {
    hide Leaves;
  }

  lemma LeafFaultFree(q: Qualifiers, e: Expr, pos: nat, n: int)
    requires !e.Not? && !e.And? && !e.Or? && !e.Compare? && !e.Bits? && Fault(q, e, pos, n) == None
    ensures CleanLeaves(q, e)
  {
  }

  lemma {:induction false} BoolFaultFree(q: Qualifiers, e: Expr, pos: nat, n: int)
    requires FaultBool(q, e, pos, n) == None
    ensures CleanLeaves(q, e)
    decreases Nodes(e), 1
  {
    hide Fault, CleanLeaves;
    FaultFreeLeaves(q, e, pos, n);
  }

  lemma {:induction false} OperandsFaultFree(q: Qualifiers, l: Expr, r: Expr, pos: nat, n: int)
    requires OperandsFault(q, l, r, pos, n) == None
    ensures CleanLeaves(q, l) && CleanLeaves(q, r)
    decreases Nodes(l) + Nodes(r), 0
  {
    hide Fault, CleanLeaves, Size;
    FaultFreeLeaves(q, l, pos, n);
    FaultFreeLeaves(q, r, pos + Size(q, l), n + 1);
  }

  lemma {:induction false} CompareFaultFree(q: Qualifiers, op: CmpOp, l: Expr, r: Expr, pos: nat, n: int)
    requires CompareFault(q, op, l, r, pos, n) == None
    ensures CleanLeaves(q, l) && CleanLeaves(q, r)
    decreases Nodes(l) + Nodes(r), 1
  {
    hide OperandsFault, Ipv6Fault, ResolveFault, CleanLeaves, TypeOf;
    if TypeOf(q, l) == VIpv6 {
      Ipv6Leaves(q, l, n);
      Ipv6Leaves(q, r, n + 2);
    } else {
      OperandsFaultFree(q, l, r, pos, n);
    }
  }

  lemma Ipv6Leaves(q: Qualifiers, e: Expr, n: int)
    requires Ipv6Fault(q, e, n) == None
    ensures CleanLeaves(q, e)
  {
  }
}
