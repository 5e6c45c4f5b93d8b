/** Which failure a compilation reports: the first fault of the tree in the order of emission, said
    of types, sizes and the number of live registers, with no code and no allocator. */
module FirstFault {
  import opened Words
  import opened Common
  import opened Bytecode
  import opened Registry
  import opened Ast
  import opened Allocator
  import opened CodeGen
  import opened Conditions
  import opened CompilerTheorems
  import opened LostJumps

  /** The earlier of two faults. */
  function Either(first: Option<CompileError>, second: Option<CompileError>): Option<CompileError> {
    if first.Some? then first else second
  }

  /** The fault of needing `n` registers at once. */
  function TooMany(n: int): Option<CompileError> {
    if n > MAX_REGISTER_COUNT then Some(RegisterLimit) else None
  }

  function LoadFault(offset: int, n: int): Option<CompileError> {
    Either(TooMany(n + 1), if FitsI32(offset) then None else Some(PayloadRange))
  }

  function IdentFault(q: Qualifiers, name: string, n: int): Option<CompileError> {
    if name !in q then Some(UnknownQualifier)
    else if q[name].ty == Ipv6T then Some(Ipv6AsValue)
    else LoadFault(q[name].offset, n)
  }

  /** The fault of resolving an operand's type before it is emitted. */
  function ResolveFault(q: Qualifiers, e: Expr): Option<CompileError> {
    match e
    case Null => Some(EmptyNode)
    case Ident(name) => if name in q then None else Some(UnknownQualifier)
    case _ => None
  }

  /** The fault of the rules for addresses. */
  function AddressFault(op: CmpOp, lt: ValueType, rt: ValueType): Option<CompileError> {
    if (IsIp(lt) || IsIp(rt)) && lt != rt then Some(IpTypesDiffer)
    else if IsIp(lt) && op != Eq && op != Ne then Some(IpNeedsEquality)
    else None
  }

  function Ipv6Fault(q: Qualifiers, e: Expr, n: int): Option<CompileError> {
    match e
    case Null => Some(EmptyNode)
    case Ident(name) =>
      if name !in q then Some(UnknownQualifier)
      else if q[name].ty != Ipv6T then Some(Ipv6NeedsQualifier)
      else Either(LoadFault(q[name].offset, n), LoadFault(q[name].offset + 8, n + 1))
    case Ipv6(a) => if a == None then Some(BadIpv6) else TooMany(n + 2)
    case _ => Some(Ipv6NeedsOperands)
  }

  /** The fault of coercing a value of this type, itself live, to a truth value. */
  function CoercionFault(ty: ValueType, n: int): Option<CompileError> {
    if IsIp(ty) then Some(LogicNeedsTruth) else if ty == VInt then TooMany(n + 3) else None
  }

  /** The first fault of `e` placed at `pos` with `n` registers live. */
  function Fault(q: Qualifiers, e: Expr, pos: nat, n: int): Option<CompileError>
    decreases Nodes(e), 0
  {
    match e
    case Null => Some(EmptyNode)
    case Ident(name) => IdentFault(q, name, n)
    case Integer(_) => TooMany(n + 1)
    case Boolean(_) => TooMany(n + 1)
    case Ipv4(a) => if a == None then Some(BadIpv4) else TooMany(n + 1)
    case Ipv6(_) => Some(Ipv6AsValue)
    case Not(x) => Either(FaultBool(q, x, pos, n), TooMany(n + 2))
    case And(l, r) => Either(FaultBool(q, l, pos, n), Either(TooMany(n + 2), AndRightFault(q, l, r, pos, n)))
    case Or(l, r) => Either(FaultBool(q, l, pos, n), Either(TooMany(n + 2), OrRightFault(q, l, r, pos, n)))
    case Compare(op, l, r) => CompareFault(q, op, l, r, pos, n)
    case Bits(_, l, r) =>
      Either(OperandsFault(q, l, r, pos, n),
             if TypeOf(q, l) != VInt || TypeOf(q, r) != VInt then Some(BitwiseNeedsIntegers) else TooMany(n + 3))
  }

  /** The same with the coercion to a truth value. */
  function FaultBool(q: Qualifiers, e: Expr, pos: nat, n: int): Option<CompileError>
    decreases Nodes(e), 1
  {
    Either(Fault(q, e, pos, n), CoercionFault(TypeOf(q, e), n))
  }

  function AndRightFault(q: Qualifiers, l: Expr, r: Expr, pos: nat, n: int): Option<CompileError>
    decreases Nodes(r), 2
  {
    Either(FaultBool(q, r, pos + SizeBool(q, l) + 1, n + 1),
           if FitsI32(pos + Size(q, And(l, r))) then None else Some(PatchError(pos + SizeBool(q, l))))
  }

  function OrRightFault(q: Qualifiers, l: Expr, r: Expr, pos: nat, n: int): Option<CompileError>
    decreases Nodes(r), 2
  {
    var at := pos + SizeBool(q, l) + 4;
    if !FitsI32(at) then Some(PatchError(pos + SizeBool(q, l)))
    else Either(FaultBool(q, r, at, n + 1), if FitsI32(pos + Size(q, Or(l, r))) then None else Some(JumpRange))
  }

  function OperandsFault(q: Qualifiers, l: Expr, r: Expr, pos: nat, n: int): Option<CompileError>
    decreases Nodes(l) + Nodes(r), 0
  {
    Either(Fault(q, l, pos, n), Fault(q, r, pos + Size(q, l), n + 1))
  }

  function CompareFault(q: Qualifiers, op: CmpOp, l: Expr, r: Expr, pos: nat, n: int): Option<CompileError>
    decreases Nodes(l) + Nodes(r), 2
  {
    Either(Either(ResolveFault(q, l), ResolveFault(q, r)),
           Either(AddressFault(op, TypeOf(q, l), TypeOf(q, r)),
                  if TypeOf(q, l) == VIpv6 then Ipv6CompareFault(q, l, r, n) else PlainCompareFault(q, l, r, pos, n)))
  }

  function Ipv6CompareFault(q: Qualifiers, l: Expr, r: Expr, n: int): Option<CompileError> {
    Either(Either(Ipv6Fault(q, l, n), Ipv6Fault(q, r, n + 2)), TooMany(n + 5))
  }

  function PlainCompareFault(q: Qualifiers, l: Expr, r: Expr, pos: nat, n: int): Option<CompileError>
    decreases Nodes(l) + Nodes(r), 1
  {
    Either(OperandsFault(q, l, r, pos, n), TooMany(n + if TypeOf(q, l) == TypeOf(q, r) then 3 else 4))
  }

  // ----- what is generated and what fails -----

  function ErrorOf<T>(r: Result<T>): Option<CompileError> {
    if r.Err? then Some(r.error) else None
  }

  /** What later code relies on once an expression is generated. */
  ghost predicate Done(q: Qualifiers, e: Expr, ra: Alloc, f: Frag) {
    && ValidAlloc(f.ra) && Live(f.ra, f.dst) && LiveCount(f.ra) == LiveCount(ra) + 1
    && f.ty == TypeOf(q, e) && |f.code| == Size(q, e)
  }

  lemma ExprDone(q: Qualifiers, e: Expr, pos: nat, ra: Alloc)
    requires ValidAlloc(ra)
    ensures Gen(q, e, pos, ra).Ok? ==> Done(q, e, ra, Gen(q, e, pos, ra).value)
  {
    hide Gen, Compilable, TypeOf, Need, Size, ValidAlloc, LiveCount, Live, Uses;
    GenShape(q, e, pos, ra);
    if Gen(q, e, pos, ra).Ok? {
      ExprLive(q, e, pos, ra);
    }
  }

  lemma {:induction false} GenFault(q: Qualifiers, e: Expr, pos: nat, ra: Alloc)
    requires ValidAlloc(ra)
    ensures ErrorOf(Gen(q, e, pos, ra)) == Fault(q, e, pos, LiveCount(ra))
    decreases Nodes(e), 0
  {
    hide GenIdent, GenImm, GenIpv4, GenNot, GenAnd, GenOr, GenCompare, GenBits, ValidAlloc, LiveCount;
    hide Fault, IdentFault, CompareFault;
    match e
    case Not(x) => NotFault(q, x, pos, ra);
    case And(l, r) => AndFault(q, l, r, pos, ra);
    case Or(l, r) => OrFault(q, l, r, pos, ra);
    case Compare(op, l, r) => ComparisonFault(q, op, l, r, pos, ra);
    case Bits(op, l, r) => BitsFault(q, op, l, r, pos, ra);
    case _ => LeafFault(q, e, pos, ra);
  }

  lemma LeafFault(q: Qualifiers, e: Expr, pos: nat, ra: Alloc)
    requires ValidAlloc(ra) && !e.Not? && !e.And? && !e.Or? && !e.Compare? && !e.Bits?
    ensures ErrorOf(Gen(q, e, pos, ra)) == Fault(q, e, pos, LiveCount(ra))
  {
    TakeAddsOne(ra);
    hide ValidAlloc, LiveCount, CanTake;
  }

  /** The only failures of the coercion. */
  lemma EnsureBoolError(v: byte, ty: ValueType, ra: Alloc)
    ensures EnsureBool(v, ty, ra).Err? ==>
      EnsureBool(v, ty, ra).error == if IsIp(ty) then LogicNeedsTruth else RegisterLimit
  {
  }

  lemma CoercionFails(v: byte, ty: ValueType, ra: Alloc, n: int)
    requires ValidAlloc(ra) && Live(ra, v) && LiveCount(ra) == n + 1
    requires ty == VBool ==> n + 1 <= MAX_REGISTER_COUNT
    ensures ErrorOf(EnsureBool(v, ty, ra)) == CoercionFault(ty, n)
  {
    hide EnsureBool, ValidAlloc, Live, LiveCount, Replaces;
    EnsureBoolShape(v, ty, ra);
    EnsureBoolError(v, ty, ra);
  }

  lemma {:induction false} GenBoolFault(q: Qualifiers, e: Expr, pos: nat, ra: Alloc)
    requires ValidAlloc(ra)
    ensures ErrorOf(GenBool(q, e, pos, ra)) == FaultBool(q, e, pos, LiveCount(ra))
    decreases Nodes(e), 1
  {
    hide Gen, Fault, EnsureBool, CoercionFault, ValidAlloc, Live, LiveCount, TypeOf;
    ExprDone(q, e, pos, ra);
    GenFault(q, e, pos, ra);
    var f := Gen(q, e, pos, ra);
    if f.Ok? {
      LiveCountBound(f.value.ra);
      CoercionFails(f.value.dst, f.value.ty, f.value.ra, LiveCount(ra));
    }
  }

  lemma LiveCountBound(ra: Alloc)
    requires ValidAlloc(ra)
    ensures LiveCount(ra) <= MAX_REGISTER_COUNT
  {
  }

  /** What later code relies on once an operand of a logical operator is generated. */
  lemma OperandDone(q: Qualifiers, e: Expr, pos: nat, ra: Alloc)
    requires ValidAlloc(ra) && GenBool(q, e, pos, ra).Ok?
    ensures var f := GenBool(q, e, pos, ra).value;
      && ValidAlloc(f.ra) && Live(f.ra, f.dst) && LiveCount(f.ra) == LiveCount(ra) + 1
      && |f.code| == SizeBool(q, e)
  {
    hide GenBool, Compilable, TypeOf, NeedBool, SizeBool, ValidAlloc, LiveCount, Live, Uses;
    GenBoolShape(q, e, pos, ra);
    OperandLive(q, e, pos, ra);
  }

  lemma NegationFails(a: byte, ra: Alloc, n: int)
    requires ValidAlloc(ra) && LiveCount(ra) == n + 1
    ensures ErrorOf(GenNegate(a, ra)) == TooMany(n + 2)
  {
    TakeAddsOne(ra);
  }

  lemma {:induction false} NotFault(q: Qualifiers, x: Expr, pos: nat, ra: Alloc)
    requires ValidAlloc(ra)
    ensures ErrorOf(GenNot(q, x, pos, ra)) == Fault(q, Not(x), pos, LiveCount(ra))
    decreases Nodes(x), 2
  {
    hide GenBool, FaultBool, GenNegate, ValidAlloc, Live, LiveCount;
    GenBoolFault(q, x, pos, ra);
    var f := GenBool(q, x, pos, ra);
    if f.Ok? {
      OperandDone(q, x, pos, ra);
      NegationFails(f.value.dst, f.value.ra, LiveCount(ra));
    }
  }

  // ----- short circuits -----

  lemma AndFailure(q: Qualifiers, l: Expr, r: Expr, pos: nat, ra: Alloc)
    ensures var f := GenBool(q, l, pos, ra);
      GenAnd(q, l, r, pos, ra) == if f.Ok? then GenAndRight(q, f.value, r, pos) else Err(f.error)
  {
    hide GenBool, GenAndRight;
  }

  /** What follows the left operand of `&&`. */
  lemma AndRightFailure(q: Qualifiers, f: Frag, r: Expr, pos: nat)
    ensures var t := TakeReg(f.ra);
      && (t.Err? ==> GenAndRight(q, f, r, pos) == Err(t.error))
      && (t.Ok? ==>
            var g := GenBool(q, r, pos + |f.code| + 1, Give(t.value.1, f.dst));
            ErrorOf(GenAndRight(q, f, r, pos)) ==
            Either(ErrorOf(g),
                   if g.Err? || FitsI32(pos + |f.code| + |g.value.code| + 5) then None
                   else Some(PatchError(pos + |f.code|))))
  {
    hide GenBool, TakeReg, Give, PatchError, AndTail, Ins;
  }

  lemma {:induction false} AndFault(q: Qualifiers, l: Expr, r: Expr, pos: nat, ra: Alloc)
    requires ValidAlloc(ra)
    ensures ErrorOf(GenAnd(q, l, r, pos, ra)) == Fault(q, And(l, r), pos, LiveCount(ra))
    decreases Nodes(l) + Nodes(r), 0
  {
    hide GenAnd, GenAndRight, GenBool, FaultBool, TakeReg, Give, PatchError, SizeBool, Size;
    hide ValidAlloc, Live, LiveCount;
    AndFailure(q, l, r, pos, ra);
    GenBoolFault(q, l, pos, ra);
    var f := GenBool(q, l, pos, ra);
    if f.Ok? {
      OperandDone(q, l, pos, ra);
      ResultTaken(q, l, pos, ra);
      AndRightFailure(q, f.value, r, pos);
      var t := TakeReg(f.value.ra);
      if t.Ok? {
        var at, mid := pos + |f.value.code| + 1, Give(t.value.1, f.value.dst);
        GenBoolFault(q, r, at, mid);
        AndSize(q, l, r);
        if GenBool(q, r, at, mid).Ok? {
          OperandDone(q, r, at, mid);
        }
      }
    }
  }

  /** What follows the left operand of `||`. */
  lemma OrRightErrors(q: Qualifiers, f: Frag, r: Expr, pos: nat)
    ensures var t, at := TakeReg(f.ra), pos + |f.code| + 4;
      && (t.Err? ==> GenOrRight(q, f, r, pos) == Err(t.error))
      && (t.Ok? && !FitsI32(at) ==> GenOrRight(q, f, r, pos) == Err(PatchError(pos + |f.code|)))
      && (t.Ok? && FitsI32(at) ==>
            var g := GenBool(q, r, at, Give(t.value.1, f.dst));
            ErrorOf(GenOrRight(q, f, r, pos)) ==
            Either(ErrorOf(g),
                   if g.Err? || FitsI32(pos + |f.code| + |g.value.code| + 5) then None else Some(JumpRange)))
  {
    hide GenBool, TakeReg, Give, PatchError, OrHead, Ins;
  }

  lemma {:induction false} OrFault(q: Qualifiers, l: Expr, r: Expr, pos: nat, ra: Alloc)
    requires ValidAlloc(ra)
    ensures ErrorOf(GenOr(q, l, r, pos, ra)) == Fault(q, Or(l, r), pos, LiveCount(ra))
    decreases Nodes(l) + Nodes(r), 0
  {
    hide GenOr, GenOrRight, GenBool, FaultBool, TakeReg, Give, PatchError, SizeBool, Size;
    hide ValidAlloc, Live, LiveCount;
    OrFailure(q, l, r, pos, ra);
    GenBoolFault(q, l, pos, ra);
    var f := GenBool(q, l, pos, ra);
    if f.Ok? {
      OperandDone(q, l, pos, ra);
      ResultTaken(q, l, pos, ra);
      OrRightErrors(q, f.value, r, pos);
      var t := TakeReg(f.value.ra);
      if t.Ok? {
        var at, mid := pos + |f.value.code| + 4, Give(t.value.1, f.value.dst);
        GenBoolFault(q, r, at, mid);
        AndSize(q, l, r);
        if GenBool(q, r, at, mid).Ok? {
          OperandDone(q, r, at, mid);
        }
      }
    }
  }

  // ----- bitwise operators and comparisons -----

  lemma {:induction false} BothFault(q: Qualifiers, l: Expr, r: Expr, pos: nat, ra: Alloc)
    requires ValidAlloc(ra)
    ensures ErrorOf(GenOperands(q, l, r, pos, ra)) == OperandsFault(q, l, r, pos, LiveCount(ra))
    decreases Nodes(l) + Nodes(r), 0
  {
    hide GenOperands, Gen, Fault, ValidAlloc, Live, LiveCount, TypeOf, Size;
    OperandsFailure(q, l, r, pos, ra);
    ExprDone(q, l, pos, ra);
    GenFault(q, l, pos, ra);
    var f := Gen(q, l, pos, ra);
    if f.Ok? {
      GenFault(q, r, pos + |f.value.code|, f.value.ra);
    }
  }

  /** Two operands, both live, and room for what computing them took. */
  lemma OperandsDone(q: Qualifiers, l: Expr, r: Expr, pos: nat, ra: Alloc)
    requires ValidAlloc(ra) && GenOperands(q, l, r, pos, ra).Ok?
    ensures var o, need := GenOperands(q, l, r, pos, ra).value, Max(Need(q, l), 1 + Need(q, r));
      && TwoLive(ra, o.l, o.r, o.ra, need) && Fits(ra, need)
      && o.lt == TypeOf(q, l) && o.rt == TypeOf(q, r)
  {
    hide GenOperands, Compilable, TypeOf, Need, Size, TwoLive, ValidAlloc, LiveCount;
    OperandsShape(q, l, r, pos, ra);
  }

  /** The last instruction of a binary operator takes a third register. */
  lemma BinaryFails(ra: Alloc, a: byte, b: byte, mid: Alloc, op: byte, ty: ValueType, need: nat)
    requires ValidAlloc(ra) && TwoLive(ra, a, b, mid, need)
    ensures ErrorOf(GenBinary(op, ty, a, b, mid)) == TooMany(LiveCount(ra) + 3)
  {
    TakeAddsOne(mid);
  }

  lemma BitsFailure(q: Qualifiers, op: BitOp, l: Expr, r: Expr, pos: nat, ra: Alloc)
    ensures var o, b := GenOperands(q, l, r, pos, ra), GenBits(q, op, l, r, pos, ra);
      && (o.Err? ==> b == Err(o.error))
      && (o.Ok? ==>
            ErrorOf(b) ==
            if o.value.lt != VInt || o.value.rt != VInt then Some(BitwiseNeedsIntegers)
            else ErrorOf(GenBinary(BitCode(op), VInt, o.value.l, o.value.r, o.value.ra)))
  {
    hide GenOperands, GenBinary;
  }

  lemma {:induction false} BitsFault(q: Qualifiers, op: BitOp, l: Expr, r: Expr, pos: nat, ra: Alloc)
    requires ValidAlloc(ra)
    ensures ErrorOf(GenBits(q, op, l, r, pos, ra)) == Fault(q, Bits(op, l, r), pos, LiveCount(ra))
    decreases Nodes(l) + Nodes(r), 1
  {
    hide GenBits, GenOperands, GenBinary, OperandsFault, TypeOf, Need, TwoLive, ValidAlloc, LiveCount, TooMany;
    BitsFailure(q, op, l, r, pos, ra);
    BothFault(q, l, r, pos, ra);
    var o := GenOperands(q, l, r, pos, ra);
    if o.Ok? {
      OperandsDone(q, l, r, pos, ra);
      BinaryFails(ra, o.value.l, o.value.r, o.value.ra, BitCode(op), VInt, Max(Need(q, l), 1 + Need(q, r)));
    }
  }

  lemma {:induction false} PlainFault(q: Qualifiers, op: CmpOp, l: Expr, r: Expr, pos: nat, ra: Alloc)
    requires ValidAlloc(ra) && AddressFault(op, TypeOf(q, l), TypeOf(q, r)) == None && TypeOf(q, l) != VIpv6
    ensures ErrorOf(GenPlainCompare(q, op, l, r, pos, ra)) == PlainCompareFault(q, l, r, pos, LiveCount(ra))
    decreases Nodes(l) + Nodes(r), 1
  {
    hide GenPlainCompare, GenOperands, CompareTail, OperandsFault, TypeOf, Need, TwoLive, ValidAlloc, LiveCount;
    hide TooMany, Fits;
    PlainCompareFailure(q, op, l, r, pos, ra);
    BothFault(q, l, r, pos, ra);
    var o := GenOperands(q, l, r, pos, ra);
    if o.Ok? {
      OperandsDone(q, l, r, pos, ra);
      TailFails(ra, op, o.value, Max(Need(q, l), 1 + Need(q, r)));
    }
  }

  lemma TailFails(ra: Alloc, op: CmpOp, o: Operands, need: nat)
    requires ValidAlloc(ra) && TwoLive(ra, o.l, o.r, o.ra, need) && Fits(ra, need)
    requires IsIp(o.lt) || IsIp(o.rt) ==> o.lt == o.rt
    ensures ErrorOf(CompareTail(op, o)) == TooMany(LiveCount(ra) + if o.lt == o.rt then 3 else 4)
  {
    hide CompareTail, TwoLive, ValidAlloc, LiveCount, Uses;
    CompareTailShape(ra, op, o, need);
    CompareTailErrors(op, o);
  }

  /** An operand of an IPv6 comparison. */
  lemma Ipv6ValueFault(q: Qualifiers, e: Expr, ra: Alloc)
    requires ValidAlloc(ra)
    ensures ErrorOf(GenIpv6Value(q, e, ra)) == Ipv6Fault(q, e, LiveCount(ra))
  {
    hide GenIpv6Ident, GenIpv6Literal, ValidAlloc, LiveCount, LoadFault;
    match e
    case Ident(name) =>
      if name in q && q[name].ty == Ipv6T {
        Ipv6FieldFault(q, name, ra);
      } else {
        NoIpv6Field(q, name, ra);
      }
    case Ipv6(a) =>
      if a.Some? {
        Ipv6LiteralFault(a.value, ra);
      } else {
        BadLiteral(ra);
      }
    case _ =>
  }

  lemma NoIpv6Field(q: Qualifiers, name: string, ra: Alloc)
    requires name in q ==> q[name].ty != Ipv6T
    ensures GenIpv6Ident(q, name, ra) == Err(if name in q then Ipv6NeedsQualifier else UnknownQualifier)
  {
  }

  lemma BadLiteral(ra: Alloc)
    ensures GenIpv6Literal(None, ra) == Err(BadIpv6)
  {
  }

  lemma LoadFails(offset: uint32, size: byte, sign: byte, ty: ValueType, ra: Alloc)
    requires ValidAlloc(ra)
    ensures ErrorOf(GenLoad(offset, size, sign, ty, ra)) == LoadFault(offset, LiveCount(ra))
  {
    TakeAddsOne(ra);
    hide Ins;
  }

  lemma Ipv6FieldFault(q: Qualifiers, name: string, ra: Alloc)
    requires ValidAlloc(ra) && name in q && q[name].ty == Ipv6T
    ensures var n, offset := LiveCount(ra), q[name].offset;
      ErrorOf(GenIpv6Ident(q, name, ra)) == Either(LoadFault(offset, n), LoadFault(offset + 8, n + 1))
  {
    hide GenLoad, ValidAlloc, LiveCount, Uses;
    var offset := q[name].offset;
    LoadFails(offset, 8, 0, VInt, ra);
    LoadShape(offset, 8, 0, VInt, ra);
    var hi := GenLoad(offset, 8, 0, VInt, ra);
    if hi.Ok? {
      assert (offset + 8) % 0x1_0000_0000 == offset + 8;
      LoadFails(offset + 8, 8, 0, VInt, hi.value.ra);
    }
  }

  lemma Ipv6LiteralFault(addr: Bytes16, ra: Alloc)
    requires ValidAlloc(ra)
    ensures ErrorOf(GenIpv6Literal(Some(addr), ra)) == TooMany(LiveCount(ra) + 2)
  {
    hide GenIpv6Literal, ValidAlloc, LiveCount, AddsTwo;
    Ipv6LiteralShape(addr, ra);
    Ipv6LiteralErrors(addr, ra);
  }

  lemma Ipv6LiteralErrors(addr: Bytes16, ra: Alloc)
    ensures var r := GenIpv6Literal(Some(addr), ra); r.Err? ==> r.error == RegisterLimit
  {
    hide ToI64, Word64, MakeLoadImm;
  }

  lemma HalvesErrors(l: Pair, r: Pair)
    ensures GenHalves(l, r).Err? ==> GenHalves(l, r).error == RegisterLimit
  {
  }

  lemma BothErrors(op: CmpOp, h: Pair)
    ensures GenBoth(op, h).Err? ==> GenBoth(op, h).error == RegisterLimit
  {
  }

  /** The comparison of two IPv6 values in registers can only run out of registers. */
  lemma Ipv6TailErrors(q: Qualifiers, op: CmpOp, l: Expr, r: Expr, ra: Alloc)
    requires GenIpv6Value(q, l, ra).Ok? && GenIpv6Value(q, r, GenIpv6Value(q, l, ra).value.ra).Ok?
    ensures var c := GenIpv6Compare(q, op, l, r, ra); c.Err? ==> c.error == RegisterLimit
  {
    hide GenIpv6Value, GenHalves, GenBoth;
    var lp := GenIpv6Value(q, l, ra).value;
    var h := GenHalves(lp, GenIpv6Value(q, r, lp.ra).value);
    HalvesErrors(lp, GenIpv6Value(q, r, lp.ra).value);
    if h.Ok? {
      BothErrors(op, h.value);
    }
  }

  lemma Ipv6OperandErrors(q: Qualifiers, op: CmpOp, l: Expr, r: Expr, ra: Alloc)
    ensures var lp, c := GenIpv6Value(q, l, ra), GenIpv6Compare(q, op, l, r, ra);
      && (lp.Err? ==> c == Err(lp.error))
      && (lp.Ok? ==>
            var rp := GenIpv6Value(q, r, lp.value.ra);
            rp.Err? ==> c == Err(rp.error))
  {
    hide GenIpv6Value, GenHalves, GenBoth;
  }

  lemma AddressesFault(q: Qualifiers, op: CmpOp, l: Expr, r: Expr, ra: Alloc)
    requires ValidAlloc(ra)
    ensures ErrorOf(GenIpv6Compare(q, op, l, r, ra)) == Ipv6CompareFault(q, l, r, LiveCount(ra))
  {
    hide GenIpv6Compare, GenIpv6Value, Ipv6Fault, Ipv6Operand, Ipv6OffsetFits, ValidAlloc, LiveCount, Uses;
    Ipv6OperandErrors(q, op, l, r, ra);
    Ipv6ValueFault(q, l, ra);
    Ipv6ValueShape(q, l, ra);
    Ipv6CompareShape(q, op, l, r, ra);
    var lp := GenIpv6Value(q, l, ra);
    if lp.Ok? {
      Ipv6ValueFault(q, r, lp.value.ra);
      Ipv6ValueShape(q, r, lp.value.ra);
      if GenIpv6Value(q, r, lp.value.ra).Ok? {
        Ipv6TailErrors(q, op, l, r, ra);
      }
    }
  }

  lemma ResolveFails(q: Qualifiers, e: Expr)
    ensures ErrorOf(Resolve(q, e)) == ResolveFault(q, e)
    ensures Resolve(q, e).Ok? ==> Resolve(q, e).value == TypeOf(q, e)
  {
  }

  lemma CompareFailure(q: Qualifiers, op: CmpOp, l: Expr, r: Expr, pos: nat, ra: Alloc)
    ensures var lt, rt := Resolve(q, l), Resolve(q, r);
      GenCompare(q, op, l, r, pos, ra) ==
      if lt.Err? then Err(lt.error) else if rt.Err? then Err(rt.error)
      else GenTypedCompare(q, op, l, lt.value, r, rt.value, pos, ra)
  {
    hide Resolve, GenTypedCompare;
  }

  lemma {:induction false} ComparisonFault(q: Qualifiers, op: CmpOp, l: Expr, r: Expr, pos: nat, ra: Alloc)
    requires ValidAlloc(ra)
    ensures ErrorOf(GenCompare(q, op, l, r, pos, ra)) == Fault(q, Compare(op, l, r), pos, LiveCount(ra))
    decreases Nodes(l) + Nodes(r), 2
  {
    hide GenCompare, GenIpv6Compare, GenPlainCompare, Resolve, ResolveFault, TypeOf, ValidAlloc, LiveCount;
    hide Ipv6CompareFault, PlainCompareFault;
    CompareFailure(q, op, l, r, pos, ra);
    ResolveFails(q, l);
    ResolveFails(q, r);
    if AddressFault(op, TypeOf(q, l), TypeOf(q, r)) == None {
      if TypeOf(q, l) == VIpv6 {
        AddressesFault(q, op, l, r, ra);
      } else {
        PlainFault(q, op, l, r, pos, ra);
      }
    }
  }

  // ----- what a fault says of the tree -----

  /** The leaves of a tree. */
  function Leaves(e: Expr): set<Expr>
    decreases Nodes(e)
  {
    match e
    case Not(x) => Leaves(x)
    case And(l, r) => Leaves(l) + Leaves(r)
    case Or(l, r) => Leaves(l) + Leaves(r)
    case Compare(_, l, r) => Leaves(l) + Leaves(r)
    case Bits(_, l, r) => Leaves(l) + Leaves(r)
    case _ => {e}
  }

  /** A fault that names a leaf has such a leaf. */
  ghost predicate Explained(q: Qualifiers, leaves: set<Expr>, f: Option<CompileError>) {
    && (f == Some(UnknownQualifier) ==> exists n: string :: n !in q && Ident(n) in leaves)
    && (f == Some(BadIpv4) ==> Ipv4(None) in leaves)
    && (f == Some(BadIpv6) ==> Ipv6(None) in leaves)
    && (f == Some(EmptyNode) ==> Null in leaves)
  }

  lemma EitherExplained(
    q: Qualifiers, small: set<Expr>, leaves: set<Expr>, f: Option<CompileError>, g: Option<CompileError>)
    requires small <= leaves && Explained(q, small, f) && Explained(q, leaves, g)
    ensures Explained(q, leaves, Either(f, g))
  {
  }

  lemma {:induction false} FaultExplained(q: Qualifiers, e: Expr, pos: nat, n: int)
    ensures Explained(q, Leaves(e), Fault(q, e, pos, n))
    decreases Nodes(e), 0
  {
    hide Explained, Fault, Leaves;
    match e
    case Not(x) => NotExplained(q, x, pos, n);
    case And(l, r) => AndExplained(q, l, r, pos, n);
    case Or(l, r) => OrExplained(q, l, r, pos, n);
    case Compare(op, l, r) => CompareExplained(q, op, l, r, pos, n);
    case Bits(op, l, r) => BitsExplained(q, op, l, r, pos, n);
    case _ => LeafExplained(q, e, pos, n);
  }

  lemma LeafExplained(q: Qualifiers, e: Expr, pos: nat, n: int)
    requires !e.Not? && !e.And? && !e.Or? && !e.Compare? && !e.Bits?
    ensures Explained(q, Leaves(e), Fault(q, e, pos, n))
  {
  }

  /** A limit or a typing fault names no leaf. */
  lemma OtherExplained(q: Qualifiers, leaves: set<Expr>, f: Option<CompileError>)
    requires f != Some(UnknownQualifier) && f != Some(BadIpv4) && f != Some(BadIpv6) && f != Some(EmptyNode)
    ensures Explained(q, leaves, f)
  {
  }

  lemma {:induction false} BoolExplained(q: Qualifiers, e: Expr, pos: nat, n: int)
    ensures Explained(q, Leaves(e), FaultBool(q, e, pos, n))
    decreases Nodes(e), 1
  {
    hide Explained, Fault, Leaves, Either;
    FaultExplained(q, e, pos, n);
    OtherExplained(q, Leaves(e), CoercionFault(TypeOf(q, e), n));
    EitherExplained(q, Leaves(e), Leaves(e), Fault(q, e, pos, n), CoercionFault(TypeOf(q, e), n));
  }

  lemma {:induction false} NotExplained(q: Qualifiers, x: Expr, pos: nat, n: int)
    ensures Explained(q, Leaves(Not(x)), Fault(q, Not(x), pos, n))
    decreases Nodes(x), 2
  {
    hide Explained, FaultBool, Either;
    BoolExplained(q, x, pos, n);
    OtherExplained(q, Leaves(x), TooMany(n + 2));
    EitherExplained(q, Leaves(x), Leaves(x), FaultBool(q, x, pos, n), TooMany(n + 2));
  }

  lemma {:induction false} AndExplained(q: Qualifiers, l: Expr, r: Expr, pos: nat, n: int)
    ensures Explained(q, Leaves(And(l, r)), Fault(q, And(l, r), pos, n))
    decreases Nodes(l) + Nodes(r), 0
  {
    hide Explained, FaultBool, Either, SizeBool, Size;
    var all, at := Leaves(l) + Leaves(r), pos + SizeBool(q, l) + 1;
    var end := if FitsI32(pos + Size(q, And(l, r))) then None else Some(PatchError(pos + SizeBool(q, l)));
    BoolExplained(q, l, pos, n);
    BoolExplained(q, r, at, n + 1);
    OtherExplained(q, all, TooMany(n + 2));
    OtherExplained(q, all, end);
    EitherExplained(q, Leaves(r), all, FaultBool(q, r, at, n + 1), end);
    EitherExplained(q, all, all, TooMany(n + 2), AndRightFault(q, l, r, pos, n));
    EitherExplained(q, Leaves(l), all, FaultBool(q, l, pos, n), Either(TooMany(n + 2), AndRightFault(q, l, r, pos, n)));
  }

  lemma {:induction false} OrExplained(q: Qualifiers, l: Expr, r: Expr, pos: nat, n: int)
    ensures Explained(q, Leaves(Or(l, r)), Fault(q, Or(l, r), pos, n))
    decreases Nodes(l) + Nodes(r), 0
  {
    hide Explained, FaultBool, Either, SizeBool, Size;
    var all, at := Leaves(l) + Leaves(r), pos + SizeBool(q, l) + 4;
    var end := if FitsI32(pos + Size(q, Or(l, r))) then None else Some(JumpRange);
    BoolExplained(q, l, pos, n);
    BoolExplained(q, r, at, n + 1);
    OtherExplained(q, all, TooMany(n + 2));
    OtherExplained(q, all, end);
    OtherExplained(q, all, Some(PatchError(pos + SizeBool(q, l))));
    EitherExplained(q, Leaves(r), all, FaultBool(q, r, at, n + 1), end);
    EitherExplained(q, all, all, TooMany(n + 2), OrRightFault(q, l, r, pos, n));
    EitherExplained(q, Leaves(l), all, FaultBool(q, l, pos, n), Either(TooMany(n + 2), OrRightFault(q, l, r, pos, n)));
  }

  lemma {:induction false} OperandsExplained(q: Qualifiers, l: Expr, r: Expr, pos: nat, n: int)
    ensures Explained(q, Leaves(l) + Leaves(r), OperandsFault(q, l, r, pos, n))
    decreases Nodes(l) + Nodes(r), 0
  {
    hide Explained, Fault, Leaves, Either, Size;
    var all, f, g := Leaves(l) + Leaves(r), Fault(q, l, pos, n), Fault(q, r, pos + Size(q, l), n + 1);
    FaultExplained(q, l, pos, n);
    FaultExplained(q, r, pos + Size(q, l), n + 1);
    ExplainedByMore(q, Leaves(r), all, g);
    EitherExplained(q, Leaves(l), all, f, g);
  }

  lemma ExplainedByMore(q: Qualifiers, small: set<Expr>, leaves: set<Expr>, f: Option<CompileError>)
    requires small <= leaves && Explained(q, small, f)
    ensures Explained(q, leaves, f)
  {
  }

  lemma {:induction false} BitsExplained(q: Qualifiers, op: BitOp, l: Expr, r: Expr, pos: nat, n: int)
    ensures Explained(q, Leaves(Bits(op, l, r)), Fault(q, Bits(op, l, r), pos, n))
    decreases Nodes(l) + Nodes(r), 1
  {
    hide Explained, OperandsFault, Either, TypeOf;
    var all := Leaves(l) + Leaves(r);
    var end := if TypeOf(q, l) != VInt || TypeOf(q, r) != VInt then Some(BitwiseNeedsIntegers) else TooMany(n + 3);
    OperandsExplained(q, l, r, pos, n);
    OtherExplained(q, all, end);
    EitherExplained(q, all, all, OperandsFault(q, l, r, pos, n), end);
  }

  lemma ResolveExplained(q: Qualifiers, e: Expr)
    ensures Explained(q, Leaves(e), ResolveFault(q, e))
  {
  }

  lemma Ipv6Explained(q: Qualifiers, e: Expr, n: int)
    ensures Explained(q, Leaves(e), Ipv6Fault(q, e, n))
  {
    hide FitsI32;
  }

  lemma {:induction false} CompareExplained(q: Qualifiers, op: CmpOp, l: Expr, r: Expr, pos: nat, n: int)
    ensures Explained(q, Leaves(Compare(op, l, r)), Fault(q, Compare(op, l, r), pos, n))
    decreases Nodes(l) + Nodes(r), 1
  {
    hide Explained, OperandsFault, ResolveFault, Ipv6Fault, Either, TypeOf;
    var all, lt, rt := Leaves(l) + Leaves(r), TypeOf(q, l), TypeOf(q, r);
    ResolveExplained(q, l);
    ResolveExplained(q, r);
    BothExplained(q, l, r, ResolveFault(q, l), ResolveFault(q, r));
    Ipv6Explained(q, l, n);
    Ipv6Explained(q, r, n + 2);
    BothExplained(q, l, r, Ipv6Fault(q, l, n), Ipv6Fault(q, r, n + 2));
    OtherExplained(q, all, TooMany(n + 5));
    EitherExplained(q, all, all, Either(Ipv6Fault(q, l, n), Ipv6Fault(q, r, n + 2)), TooMany(n + 5));
    OperandsExplained(q, l, r, pos, n);
    OtherExplained(q, all, TooMany(n + if lt == rt then 3 else 4));
    EitherExplained(q, all, all, OperandsFault(q, l, r, pos, n), TooMany(n + if lt == rt then 3 else 4));
    OtherExplained(q, all, AddressFault(op, lt, rt));
    var rest := if lt == VIpv6 then Ipv6CompareFault(q, l, r, n) else PlainCompareFault(q, l, r, pos, n);
    EitherExplained(q, all, all, AddressFault(op, lt, rt), rest);
    EitherExplained(q, all, all, Either(ResolveFault(q, l), ResolveFault(q, r)),
                    Either(AddressFault(op, lt, rt), rest));
  }

  lemma BothExplained(q: Qualifiers, l: Expr, r: Expr, f: Option<CompileError>, g: Option<CompileError>)
    requires Explained(q, Leaves(l), f) && Explained(q, Leaves(r), g)
    ensures Explained(q, Leaves(l) + Leaves(r), Either(f, g))
  {
    hide Leaves;
  }

  // ----- whole programs -----

  /** The faults of operands and operators whose types do not go together. */
  predicate TypingFault(f: Option<CompileError>) {
    || f == Some(Ipv6AsValue) || f == Some(Ipv6NeedsQualifier) || f == Some(Ipv6NeedsOperands)
    || f == Some(IpTypesDiffer) || f == Some(IpNeedsEquality) || f == Some(IncompatibleOperands)
    || f == Some(BitwiseNeedsIntegers) || f == Some(LogicNeedsTruth)
  }

  /** The faults of literals whose text is no address. */
  predicate LiteralFault(f: Option<CompileError>) {
    f == Some(BadIpv4) || f == Some(BadIpv6)
  }

  /** Null nodes, limits, and lost jumps. */
  predicate CodeFault(f: Option<CompileError>) {
    || f == Some(EmptyNode) || f == Some(RegisterLimit) || f == Some(PayloadRange)
    || f == Some(JumpRange) || f == Some(InternalPatch)
  }

  /** The status a compilation answers, by the kind of its first fault. */
  predicate AnswersFault(status: Status, f: Option<CompileError>) {
    && (status == Success <==> f == None)
    && (status == QualifierNotFound <==> f == Some(UnknownQualifier))
    && (status == ParseError <==> LiteralFault(f))
    && (status == TypeMismatch <==> TypingFault(f))
    && (status == CodegenError <==> CodeFault(f))
  }

  lemma StatusAnswersFault(q: Qualifiers, root: Expr)
    ensures var p := GenProgram(q, root);
      AnswersFault(if p.Ok? then Success else StatusOf(p.error), FaultBool(q, root, 0, 0))
  {
    hide GenProgram, FaultBool, Lost, SizeBool, Logical;
    ReportsFirstFault(q, root);
    InternalErrorExactlyWhen(q, root);
  }

  /** What the first fault of a tree says of it: an unknown name, a bad literal or a null node is one
      of its leaves, and a tree with a typing fault is ill-typed. */
  lemma FirstFaultMeans(q: Qualifiers, root: Expr)
    ensures var f := FaultBool(q, root, 0, 0);
      && (f == Some(UnknownQualifier) ==> exists n: string :: n !in q && Ident(n) in Leaves(root))
      && (LiteralFault(f) ==> Ipv4(None) in Leaves(root) || Ipv6(None) in Leaves(root))
      && (f == Some(EmptyNode) ==> Null in Leaves(root))
      && (TypingFault(f) ==> !Logical(q, root))
      && (f == Some(RegisterLimit) || f == Some(PayloadRange) || f == Some(JumpRange) || f == Some(InternalPatch)
          || f == None || !Logical(q, root))
  {
    hide GenProgram, FaultBool, Leaves, Logical, Lost, SizeBool;
    BoolExplained(q, root, 0, 0);
    ReportsFirstFault(q, root);
    if FaultBool(q, root, 0, 0).Some? {
      CompileFailure(q, root);
    }
  }

  /** A compilation reports exactly the first fault of its tree, coerced to a truth value, and
      succeeds exactly if there is none. */
  lemma ReportsFirstFault(q: Qualifiers, root: Expr)
    ensures ErrorOf(GenProgram(q, root)) == FaultBool(q, root, 0, 0)
    ensures forall x :: GenProgram(q, root) == Err(x) <==> FaultBool(q, root, 0, 0) == Some(x)
  {
    hide GenBool, FaultBool;
    EmptyAlloc();
    GenBoolFault(q, root, 0, NO_REGISTERS);
  }

  /** A lost jump is the first fault exactly if that is the patch error. */
  lemma LostIsAFault(q: Qualifiers, root: Expr)
    ensures Lost(q, root, 0, 0) <==> FaultBool(q, root, 0, 0) == Some(InternalPatch)
  {
    hide GenProgram, FaultBool, Lost, SizeBool;
    ReportsFirstFault(q, root);
    InternalErrorExactlyWhen(q, root);
  }
}
