/** When a compilation reports a broken internal invariant. The compiler keeps the index of a jump
    as `int`; in code of 2^31 slots or more it may not recognise the jump it is about to patch.
    Such an index comes from a subtraction that overflows; `int` is taken to wrap around. */
module LostJumps {
  import opened Words
  import opened Bytecode
  import opened Registry
  import opened Ast
  import opened Allocator
  import opened CodeGen
  import opened Common
  import opened Conditions
  import opened Semantics
  import opened CompilerTheorems

  /** `e` compiles at `pos` with `n` registers live. */
  predicate Fine(q: Qualifiers, e: Expr, pos: nat, n: int) {
    Compilable(q, e, pos) && n + Need(q, e) <= MAX_REGISTER_COUNT
  }

  /** The same with the coercion to a truth value. */
  predicate FineBool(q: Qualifiers, e: Expr, pos: nat, n: int) {
    Compilable(q, e, pos) && !IsIp(TypeOf(q, e)) && n + NeedBool(q, e) <= MAX_REGISTER_COUNT
  }

  /** A comparison that gets as far as emitting its operands. */
  predicate EmitsOperands(q: Qualifiers, op: CmpOp, l: Expr, r: Expr) {
    var lt, rt := TypeOf(q, l), TypeOf(q, r);
    && Resolve(q, l).Ok? && Resolve(q, r).Ok? && lt != VIpv6
    && (IsIp(lt) || IsIp(rt) ==> lt == rt && (op == Eq || op == Ne))
  }

  /** The first fault of `e` at `pos` with `n` registers live is a jump whose target does not fit
      and whose own index is negative as `int`. Said of types, sizes and register needs alone. */
  predicate Lost(q: Qualifiers, e: Expr, pos: nat, n: int)
    decreases Nodes(e)
  {
    match e
    case Not(x) => Lost(q, x, pos, n)
    case And(l, r) =>
      var at := pos + SizeBool(q, l) + 1;
      if !FineBool(q, l, pos, n) then Lost(q, l, pos, n)
      else if n + 2 > MAX_REGISTER_COUNT then false
      else if !FineBool(q, r, at, n + 1) then Lost(q, r, at, n + 1)
      else !FitsI32(pos + Size(q, e)) && CastI32(pos + SizeBool(q, l)) < 0
    case Or(l, r) =>
      var at := pos + SizeBool(q, l) + 4;
      if !FineBool(q, l, pos, n) then Lost(q, l, pos, n)
      else if n + 2 > MAX_REGISTER_COUNT then false
      else if !FitsI32(at) then CastI32(pos + SizeBool(q, l)) < 0
      else Lost(q, r, at, n + 1)
    case Bits(_, l, r) => if !Fine(q, l, pos, n) then Lost(q, l, pos, n) else Lost(q, r, pos + Size(q, l), n + 1)
    case Compare(op, l, r) =>
      && EmitsOperands(q, op, l, r)
      && if !Fine(q, l, pos, n) then Lost(q, l, pos, n) else Lost(q, r, pos + Size(q, l), n + 1)
    case _ => false
  }

  // ----- the predicate is exact, for every tree -----

  lemma {:induction false} GenLost(q: Qualifiers, e: Expr, pos: nat, ra: Alloc)
    requires ValidAlloc(ra)
    ensures Gen(q, e, pos, ra) == Err(InternalPatch) <==> Lost(q, e, pos, LiveCount(ra))
    decreases Nodes(e), 0
  {
    hide GenNot, GenAnd, GenOr, GenCompare, GenBits, ValidAlloc, LiveCount, SizeBool, Size, FineBool, Fine, CastI32;
    match e
    case Not(x) => NotLost(q, x, pos, ra);
    case And(l, r) => AndLost(q, l, r, pos, ra);
    case Or(l, r) => OrLost(q, l, r, pos, ra);
    case Compare(op, l, r) => CompareLost(q, op, l, r, pos, ra);
    case Bits(op, l, r) => BitsLost(q, op, l, r, pos, ra);
    case _ =>
  }

  lemma {:induction false} GenBoolLost(q: Qualifiers, e: Expr, pos: nat, ra: Alloc)
    requires ValidAlloc(ra)
    ensures GenBool(q, e, pos, ra) == Err(InternalPatch) <==> Lost(q, e, pos, LiveCount(ra))
    decreases Nodes(e), 1
  {
    hide Gen, Lost, ValidAlloc, LiveCount;
    GenLost(q, e, pos, ra);
  }

  lemma {:induction false} NotLost(q: Qualifiers, x: Expr, pos: nat, ra: Alloc)
    requires ValidAlloc(ra)
    ensures GenNot(q, x, pos, ra) == Err(InternalPatch) <==> Lost(q, x, pos, LiveCount(ra))
    decreases Nodes(x), 2
  {
    hide GenBool, Lost, ValidAlloc, LiveCount;
    GenBoolLost(q, x, pos, ra);
  }

  /** An operand of a logical operator compiles exactly if it is fine. */
  lemma OperandFine(q: Qualifiers, e: Expr, pos: nat, ra: Alloc)
    requires ValidAlloc(ra)
    ensures var f := GenBool(q, e, pos, ra);
      && (f.Ok? <==> FineBool(q, e, pos, LiveCount(ra)))
      && (f.Ok? ==> |f.value.code| == SizeBool(q, e))
  {
    hide GenBool, Compilable, TypeOf, NeedBool, SizeBool, ValidAlloc, LiveCount, Uses;
    GenBoolShape(q, e, pos, ra);
  }

  /** The result register of a logical operator after its left operand. */
  lemma ResultTaken(q: Qualifiers, l: Expr, pos: nat, ra: Alloc)
    requires ValidAlloc(ra) && GenBool(q, l, pos, ra).Ok?
    ensures var f := GenBool(q, l, pos, ra).value;
      var t := TakeReg(f.ra);
      && (t.Ok? <==> LiveCount(ra) + 2 <= MAX_REGISTER_COUNT)
      && (t.Err? ==> t.error == RegisterLimit)
      && (t.Ok? ==>
            var mid := Give(t.value.1, f.dst);
            ValidAlloc(mid) && LiveCount(mid) == LiveCount(ra) + 1)
  {
    hide GenBool, Compilable, TypeOf, NeedBool, SizeBool, ValidAlloc, LiveCount, Uses, TakeReg, Give;
    GenBoolShape(q, l, pos, ra);
    var f := GenBool(q, l, pos, ra).value;
    ResultRegister(ra, f, NeedBool(q, l));
    TakeErrors(f.ra);
  }

  /** A conjunction whose operands compile fails exactly if its end is beyond 32 signed bits, and
      reports a broken internal invariant exactly if also its jump's index is negative as `int`. */
  lemma ConjunctionLosesItsJumpExactlyWhen(q: Qualifiers, l: Expr, r: Expr, pos: nat, ra: Alloc)
    requires ValidAlloc(ra) && Fits(ra, Need(q, And(l, r)))
    requires Compilable(q, l, pos) && !IsIp(TypeOf(q, l))
    requires Compilable(q, r, pos + SizeBool(q, l) + 1) && !IsIp(TypeOf(q, r))
    ensures var a, end := GenAnd(q, l, r, pos, ra), pos + Size(q, And(l, r));
      && (a.Ok? <==> FitsI32(end))
      && (a == Err(InternalPatch) <==> !FitsI32(end) && CastI32(pos + SizeBool(q, l)) < 0)
  {
    hide Compilable, TypeOf, Need, NeedBool, Size, SizeBool, GenBool, AndFrag;
    hide TakeReg, ValidAlloc, LiveCount, Uses, Give, CastI32;
    AndConditions(q, l, r, pos);
    NeedAtLeastOne(q, r);
    GenBoolShape(q, l, pos, ra);
    var f := GenBool(q, l, pos, ra).value;
    ResultRegister(ra, f, NeedBool(q, l));
    var t := TakeReg(f.ra).value;
    var mid, at := Give(t.1, f.dst), pos + |f.code| + 1;
    GenBoolShape(q, r, at, mid);
    AndFragFailure(f, t.0, GenBool(q, r, at, mid).value, pos);
  }

  lemma AndFragFailure(f: Frag, d: byte, g: Frag, pos: nat)
    ensures var a, end := AndFrag(f, d, g, pos), pos + |f.code| + |g.code| + 5;
      && (a.Ok? <==> FitsI32(end))
      && (a == Err(InternalPatch) <==> !FitsI32(end) && CastI32(pos + |f.code|) < 0)
  {
    hide AndTail, Ins, Give, CastI32;
  }

  lemma FineConjunction(q: Qualifiers, l: Expr, r: Expr, pos: nat, ra: Alloc)
    requires ValidAlloc(ra) && FineBool(q, l, pos, LiveCount(ra))
    requires FineBool(q, r, pos + SizeBool(q, l) + 1, LiveCount(ra) + 1)
    ensures GenAnd(q, l, r, pos, ra) == Err(InternalPatch) <==>
            !FitsI32(pos + Size(q, And(l, r))) && CastI32(pos + SizeBool(q, l)) < 0
  {
    hide GenAnd, Compilable, TypeOf, Need, NeedBool, Size, SizeBool, IsIp, ValidAlloc, LiveCount, CastI32;
    AndConditions(q, l, r, pos);
    ConjunctionLosesItsJumpExactlyWhen(q, l, r, pos, ra);
  }

  lemma LostAnd(q: Qualifiers, l: Expr, r: Expr, pos: nat, n: int)
    ensures var at := pos + SizeBool(q, l) + 1;
      Lost(q, And(l, r), pos, n) <==>
      if !FineBool(q, l, pos, n) then Lost(q, l, pos, n)
      else if n + 2 > MAX_REGISTER_COUNT then false
      else if !FineBool(q, r, at, n + 1) then Lost(q, r, at, n + 1)
      else !FitsI32(pos + Size(q, And(l, r))) && CastI32(pos + SizeBool(q, l)) < 0
  {
    hide FineBool, SizeBool, Size, CastI32;
  }

  lemma {:induction false} AndLost(q: Qualifiers, l: Expr, r: Expr, pos: nat, ra: Alloc)
    requires ValidAlloc(ra)
    ensures GenAnd(q, l, r, pos, ra) == Err(InternalPatch) <==> Lost(q, And(l, r), pos, LiveCount(ra))
    decreases Nodes(l) + Nodes(r), 0
  {
    hide Lost, GenBool, FineBool, SizeBool, Size, ValidAlloc, LiveCount, TakeReg, Give, AndFrag, CastI32;
    LostAnd(q, l, r, pos, LiveCount(ra));
    OperandFine(q, l, pos, ra);
    GenBoolLost(q, l, pos, ra);
    var f := GenBool(q, l, pos, ra);
    if f.Ok? {
      ResultTaken(q, l, pos, ra);
      var t := TakeReg(f.value.ra);
      if t.Ok? {
        var mid, at := Give(t.value.1, f.value.dst), pos + |f.value.code| + 1;
        OperandFine(q, r, at, mid);
        GenBoolLost(q, r, at, mid);
        var g := GenBool(q, r, at, mid);
        if g.Ok? {
          FineConjunction(q, l, r, pos, ra);
        }
      }
    }
  }

  /** What follows the left operand of `||`. */
  lemma OrRightFailure(q: Qualifiers, f: Frag, r: Expr, pos: nat)
    requires TakeReg(f.ra).Ok?
    ensures var at, mid := pos + |f.code| + 4, Give(TakeReg(f.ra).value.1, f.dst);
      GenOrRight(q, f, r, pos) == Err(InternalPatch) <==>
      if !FitsI32(at) then CastI32(pos + |f.code|) < 0 else GenBool(q, r, at, mid) == Err(InternalPatch)
  {
    hide GenBool, TakeReg, Give, OrFrag, CastI32;
    var at, mid := pos + |f.code| + 4, Give(TakeReg(f.ra).value.1, f.dst);
    var g := GenBool(q, r, at, mid);
    if g.Ok? {
      OrFragErrors(f, TakeReg(f.ra).value.0, g.value, pos);
    }
  }

  lemma LostOr(q: Qualifiers, l: Expr, r: Expr, pos: nat, n: int)
    ensures var at := pos + SizeBool(q, l) + 4;
      Lost(q, Or(l, r), pos, n) <==>
      if !FineBool(q, l, pos, n) then Lost(q, l, pos, n)
      else if n + 2 > MAX_REGISTER_COUNT then false
      else if !FitsI32(at) then CastI32(pos + SizeBool(q, l)) < 0
      else Lost(q, r, at, n + 1)
  {
    hide FineBool, SizeBool, CastI32;
  }

  lemma OrFailure(q: Qualifiers, l: Expr, r: Expr, pos: nat, ra: Alloc)
    ensures var f := GenBool(q, l, pos, ra);
      GenOr(q, l, r, pos, ra) == if f.Ok? then GenOrRight(q, f.value, r, pos) else Err(f.error)
  {
    hide GenBool, GenOrRight;
  }

  lemma {:induction false} OrLost(q: Qualifiers, l: Expr, r: Expr, pos: nat, ra: Alloc)
    requires ValidAlloc(ra)
    ensures GenOr(q, l, r, pos, ra) == Err(InternalPatch) <==> Lost(q, Or(l, r), pos, LiveCount(ra))
    decreases Nodes(l) + Nodes(r), 0
  {
    hide Lost, GenOr, GenBool, GenOrRight, FineBool, SizeBool, ValidAlloc, LiveCount, TakeReg, Give, CastI32;
    LostOr(q, l, r, pos, LiveCount(ra));
    OrFailure(q, l, r, pos, ra);
    OperandFine(q, l, pos, ra);
    GenBoolLost(q, l, pos, ra);
    var f := GenBool(q, l, pos, ra);
    if f.Ok? {
      ResultTaken(q, l, pos, ra);
      var t := TakeReg(f.value.ra);
      if t.Ok? {
        OrRightFailure(q, f.value, r, pos);
        GenBoolLost(q, r, pos + |f.value.code| + 4, Give(t.value.1, f.value.dst));
      } else {
        NoResultRegister(q, f.value, r, pos);
      }
    }
  }

  lemma NoResultRegister(q: Qualifiers, f: Frag, r: Expr, pos: nat)
    requires TakeReg(f.ra).Err?
    ensures GenOrRight(q, f, r, pos) == Err(RegisterLimit)
  {
    hide GenBool;
  }

  /** The operands of a comparison or a bitwise operator, left to right. */
  predicate LostOperands(q: Qualifiers, l: Expr, r: Expr, pos: nat, n: int) {
    if !Fine(q, l, pos, n) then Lost(q, l, pos, n) else Lost(q, r, pos + Size(q, l), n + 1)
  }

  lemma ExprFine(q: Qualifiers, e: Expr, pos: nat, ra: Alloc)
    requires ValidAlloc(ra)
    ensures var f := Gen(q, e, pos, ra);
      && (f.Ok? <==> Fine(q, e, pos, LiveCount(ra)))
      && (f.Ok? ==>
            && |f.value.code| == Size(q, e)
            && ValidAlloc(f.value.ra) && LiveCount(f.value.ra) == LiveCount(ra) + 1)
  {
    hide Gen, Compilable, TypeOf, Need, Size, ValidAlloc, LiveCount, Uses;
    GenShape(q, e, pos, ra);
  }

  lemma OperandsFailure(q: Qualifiers, l: Expr, r: Expr, pos: nat, ra: Alloc)
    ensures var f, o := Gen(q, l, pos, ra), GenOperands(q, l, r, pos, ra);
      && (f.Err? ==> o == Err(f.error))
      && (f.Ok? ==>
            var g := Gen(q, r, pos + |f.value.code|, f.value.ra);
            (g.Err? ==> o == Err(g.error)) && (g.Ok? ==> o.Ok?))
  {
    hide Gen;
  }

  lemma {:induction false} OperandsLost(q: Qualifiers, l: Expr, r: Expr, pos: nat, ra: Alloc)
    requires ValidAlloc(ra)
    ensures GenOperands(q, l, r, pos, ra) == Err(InternalPatch) <==> LostOperands(q, l, r, pos, LiveCount(ra))
    decreases Nodes(l) + Nodes(r), 0
  {
    hide Gen, GenOperands, Lost, Fine, Size, ValidAlloc, LiveCount;
    OperandsFailure(q, l, r, pos, ra);
    ExprFine(q, l, pos, ra);
    GenLost(q, l, pos, ra);
    var f := Gen(q, l, pos, ra);
    if f.Ok? {
      GenLost(q, r, pos + |f.value.code|, f.value.ra);
    }
  }

  lemma {:induction false} BitsLost(q: Qualifiers, op: BitOp, l: Expr, r: Expr, pos: nat, ra: Alloc)
    requires ValidAlloc(ra)
    ensures GenBits(q, op, l, r, pos, ra) == Err(InternalPatch) <==> Lost(q, Bits(op, l, r), pos, LiveCount(ra))
    decreases Nodes(l) + Nodes(r), 1
  {
    hide GenOperands, Fine, Size, ValidAlloc, LiveCount;
    OperandsLost(q, l, r, pos, ra);
  }

  lemma {:induction false} CompareLost(q: Qualifiers, op: CmpOp, l: Expr, r: Expr, pos: nat, ra: Alloc)
    requires ValidAlloc(ra)
    ensures GenCompare(q, op, l, r, pos, ra) == Err(InternalPatch) <==>
            Lost(q, Compare(op, l, r), pos, LiveCount(ra))
    decreases Nodes(l) + Nodes(r), 2
  {
    hide Resolve, TypeOf, GenPlainCompare, GenIpv6Compare, Fine, Size, ValidAlloc, LiveCount, WellTyped, Ipv6Operand;
    ResolveErrors(q, l);
    ResolveErrors(q, r);
    Ipv6CompareErrors(q, op, l, r, ra);
    PlainCompareLost(q, op, l, r, pos, ra);
  }

  lemma PlainCompareFailure(q: Qualifiers, op: CmpOp, l: Expr, r: Expr, pos: nat, ra: Alloc)
    ensures var o, c := GenOperands(q, l, r, pos, ra), GenPlainCompare(q, op, l, r, pos, ra);
      && (o.Err? ==> c == Err(o.error))
      && (o.Ok? ==>
            var t := CompareTail(op, o.value);
            (t.Err? ==> c == Err(t.error)) && (t.Ok? ==> c.Ok?))
  {
    hide GenOperands, CompareTail;
  }

  lemma {:induction false} PlainCompareLost(q: Qualifiers, op: CmpOp, l: Expr, r: Expr, pos: nat, ra: Alloc)
    requires ValidAlloc(ra)
    ensures GenPlainCompare(q, op, l, r, pos, ra) == Err(InternalPatch) <==>
            LostOperands(q, l, r, pos, LiveCount(ra))
    decreases Nodes(l) + Nodes(r), 1
  {
    hide GenOperands, GenPlainCompare, CompareTail, LostOperands, ValidAlloc, LiveCount;
    PlainCompareFailure(q, op, l, r, pos, ra);
    OperandsLost(q, l, r, pos, ra);
    var o := GenOperands(q, l, r, pos, ra);
    if o.Ok? {
      TailLosesNothing(op, o.value);
    }
  }

  lemma TailLosesNothing(op: CmpOp, o: Operands)
    ensures CompareTail(op, o) != Err(InternalPatch)
  {
    hide CompareTail;
    CompareTailErrors(op, o);
  }

  /** A compilation reports a broken internal invariant if and only if its first fault is a lost
      jump, and then the invariant is that of patching. */
  lemma InternalErrorExactlyWhen(q: Qualifiers, root: Expr)
    ensures var p := GenProgram(q, root);
      && (p.Err? && InternalError(p.error) <==> Lost(q, root, 0, 0))
      && (Lost(q, root, 0, 0) ==> p == Err(InternalPatch) && SizeBool(q, root) > INT32_MAX)
  {
    hide GenBool, Logical, SizeBool, Lost;
    EmptyAlloc();
    GenBoolLost(q, root, 0, NO_REGISTERS);
    if GenBool(q, root, 0, NO_REGISTERS).Err? {
      GenBoolErrors(q, root, 0, NO_REGISTERS);
    }
  }

  /** A failed compilation reports a limit exceeded, or a fault of an ill-typed tree, or, exactly
      for a lost jump, the broken invariant of patching; that takes code of 2^31 slots or more. A
      well-typed tree fails with the code-generation status only. */
  lemma CompileFailure(q: Qualifiers, root: Expr)
    requires GenProgram(q, root).Err?
    ensures var e := GenProgram(q, root).error;
      && (|| ResourceError(e)
          || (SourceError(e) && !Logical(q, root))
          || (e == InternalPatch && SizeBool(q, root) > INT32_MAX))
      && (e == InternalPatch <==> Lost(q, root, 0, 0))
      && (Logical(q, root) ==> StatusOf(e) == CodegenError)
  {
    hide GenBool, Logical, SizeBool, Lost;
    EmptyAlloc();
    GenBoolErrors(q, root, 0, NO_REGISTERS);
    GenBoolLost(q, root, 0, NO_REGISTERS);
  }

  // ----- well-typed trees: sizes alone decide -----

  /** The first jump of `e` at `pos` whose target does not fit has a negative index as `int`. */
  predicate Loses(q: Qualifiers, e: Expr, pos: nat)
    decreases Nodes(e)
  {
    match e
    case Not(x) => Loses(q, x, pos)
    case And(l, r) =>
      var at := pos + SizeBool(q, l) + 1;
      if !JumpsFit(q, l, pos) then Loses(q, l, pos)
      else if !JumpsFit(q, r, at) then Loses(q, r, at)
      else CastI32(pos + SizeBool(q, l)) < 0
    case Or(l, r) =>
      var at := pos + SizeBool(q, l) + 4;
      if !JumpsFit(q, l, pos) then Loses(q, l, pos)
      else if !FitsI32(at) then CastI32(pos + SizeBool(q, l)) < 0
      else !JumpsFit(q, r, at) && Loses(q, r, at)
    case Bits(_, l, r) => if !JumpsFit(q, l, pos) then Loses(q, l, pos) else Loses(q, r, pos + Size(q, l))
    case Compare(_, l, r) => if !JumpsFit(q, l, pos) then Loses(q, l, pos) else Loses(q, r, pos + Size(q, l))
    case _ => false
  }

  /** Nothing but its jumps can keep `e` from compiling with `n` registers live. */
  predicate OnlyJumps(q: Qualifiers, e: Expr, n: int) {
    WellTyped(q, e) && OffsetsFit(q, e) && n + Need(q, e) <= MAX_REGISTER_COUNT
  }

  lemma NotOnlyJumps(q: Qualifiers, x: Expr, n: int)
    requires OnlyJumps(q, Not(x), n)
    ensures OnlyJumps(q, x, n)
  {
    hide WellTyped, OffsetsFit, JumpsFit, TypeOf, IsIp, Need, Size, SizeBool;
    NotConditions(q, x, 0);
    NotTyped(q, x);
    NotRanges(q, x, 0);
  }

  /** The same of an operand of a logical operator. */
  predicate OnlyJumpsBool(q: Qualifiers, e: Expr, n: int) {
    OnlyJumps(q, e, n) && !IsIp(TypeOf(q, e)) && n + NeedBool(q, e) <= MAX_REGISTER_COUNT
  }

  lemma AndOnlyJumps(q: Qualifiers, l: Expr, r: Expr, n: int)
    requires OnlyJumps(q, And(l, r), n)
    ensures OnlyJumpsBool(q, l, n) && OnlyJumpsBool(q, r, n + 1) && n + 2 <= MAX_REGISTER_COUNT
  {
    hide WellTyped, OffsetsFit, JumpsFit, TypeOf, IsIp, Need, Size, SizeBool;
    AndTyped(q, l, r);
    AndOffsets(q, l, r);
    AndConditions(q, l, r, 0);
    NeedAtLeastOne(q, r);
  }

  lemma OrOnlyJumps(q: Qualifiers, l: Expr, r: Expr, n: int)
    requires OnlyJumps(q, Or(l, r), n)
    ensures OnlyJumpsBool(q, l, n) && OnlyJumpsBool(q, r, n + 1) && n + 2 <= MAX_REGISTER_COUNT
  {
    hide WellTyped, OffsetsFit, JumpsFit, TypeOf, IsIp, Need, Size, SizeBool;
    OrTyped(q, l, r);
    OrOffsets(q, l, r);
    OrConditions(q, l, r, 0);
    NeedAtLeastOne(q, r);
  }

  lemma AndOffsets(q: Qualifiers, l: Expr, r: Expr)
    ensures OffsetsFit(q, And(l, r)) <==> OffsetsFit(q, l) && OffsetsFit(q, r)
  {
  }

  lemma OrOffsets(q: Qualifiers, l: Expr, r: Expr)
    ensures OffsetsFit(q, Or(l, r)) <==> OffsetsFit(q, l) && OffsetsFit(q, r)
  {
  }

  lemma FineIsJumpsFit(q: Qualifiers, e: Expr, pos: nat, n: int)
    requires OnlyJumpsBool(q, e, n)
    ensures FineBool(q, e, pos, n) <==> JumpsFit(q, e, pos)
  {
    hide WellTyped, OffsetsFit, JumpsFit, TypeOf, IsIp, NeedBool;
  }

  lemma {:induction false} LostIsLoses(q: Qualifiers, e: Expr, pos: nat, n: int)
    requires OnlyJumps(q, e, n)
    ensures Lost(q, e, pos, n) <==> !JumpsFit(q, e, pos) && Loses(q, e, pos)
    decreases Nodes(e), 0
  {
    hide OnlyJumps, Lost, Loses, JumpsFit;
    match e
    case Not(x) => NotLoses(q, x, pos, n);
    case And(l, r) => AndLoses(q, l, r, pos, n);
    case Or(l, r) => OrLoses(q, l, r, pos, n);
    case Bits(op, l, r) => BitsLoses(q, op, l, r, pos, n);
    case Compare(op, l, r) => CompareLoses(q, op, l, r, pos, n);
    case _ => LeafLosesNothing(q, e, pos, n);
  }

  lemma LeafLosesNothing(q: Qualifiers, e: Expr, pos: nat, n: int)
    requires !e.Not? && !e.And? && !e.Or? && !e.Bits? && !e.Compare?
    ensures !Lost(q, e, pos, n) && !Loses(q, e, pos)
  {
  }

  lemma {:induction false} NotLoses(q: Qualifiers, x: Expr, pos: nat, n: int)
    requires OnlyJumps(q, Not(x), n)
    ensures Lost(q, Not(x), pos, n) <==> !JumpsFit(q, Not(x), pos) && Loses(q, Not(x), pos)
    decreases Nodes(x), 2
  {
    hide OnlyJumps, OffsetsFit, FineBool, Fine, SizeBool, Size, CastI32, EmitsOperands;
    NotOnlyJumps(q, x, n);
    LostIsLoses(q, x, pos, n);
  }

  lemma {:induction false} AndLoses(q: Qualifiers, l: Expr, r: Expr, pos: nat, n: int)
    requires OnlyJumps(q, And(l, r), n)
    ensures Lost(q, And(l, r), pos, n) <==> !JumpsFit(q, And(l, r), pos) && Loses(q, And(l, r), pos)
    decreases Nodes(l) + Nodes(r), 0
  {
    hide OnlyJumps, FineBool, JumpsFit, SizeBool, Size, NeedBool, IsIp, TypeOf, CastI32;
    var at := pos + SizeBool(q, l) + 1;
    AndJumps(q, l, r, pos);
    AndOnlyJumps(q, l, r, n);
    FineIsJumpsFit(q, l, pos, n);
    FineIsJumpsFit(q, r, at, n + 1);
    LostIsLoses(q, l, pos, n);
    LostIsLoses(q, r, at, n + 1);
  }

  lemma {:induction false} OrLoses(q: Qualifiers, l: Expr, r: Expr, pos: nat, n: int)
    requires OnlyJumps(q, Or(l, r), n)
    ensures Lost(q, Or(l, r), pos, n) <==> !JumpsFit(q, Or(l, r), pos) && Loses(q, Or(l, r), pos)
    decreases Nodes(l) + Nodes(r), 0
  {
    hide OnlyJumps, FineBool, JumpsFit, SizeBool, Size, NeedBool, IsIp, TypeOf, CastI32;
    var at := pos + SizeBool(q, l) + 4;
    OrJumps(q, l, r, pos);
    AndSize(q, l, r);
    OrOnlyJumps(q, l, r, n);
    FineIsJumpsFit(q, l, pos, n);
    LostIsLoses(q, l, pos, n);
    LostIsLoses(q, r, at, n + 1);
  }

  lemma {:induction false} OperandsLose(q: Qualifiers, l: Expr, r: Expr, pos: nat, n: int)
    requires OnlyJumps(q, l, n) && OnlyJumps(q, r, n + 1)
    ensures LostOperands(q, l, r, pos, n) <==>
            var at := pos + Size(q, l);
            if !JumpsFit(q, l, pos) then Loses(q, l, pos) else !JumpsFit(q, r, at) && Loses(q, r, at)
    decreases Nodes(l) + Nodes(r), 0
  {
    hide Lost, Loses, WellTyped, OffsetsFit, JumpsFit, Need, Size;
    LostIsLoses(q, l, pos, n);
    LostIsLoses(q, r, pos + Size(q, l), n + 1);
  }

  lemma {:induction false} BitsLoses(q: Qualifiers, op: BitOp, l: Expr, r: Expr, pos: nat, n: int)
    requires OnlyJumps(q, Bits(op, l, r), n)
    ensures var e := Bits(op, l, r); Lost(q, e, pos, n) <==> !JumpsFit(q, e, pos) && Loses(q, e, pos)
    decreases Nodes(l) + Nodes(r), 1
  {
    hide OnlyJumps, Fine, Size;
    BitsOnlyJumps(q, op, l, r, n);
    OperandsLose(q, l, r, pos, n);
  }

  lemma BitsOnlyJumps(q: Qualifiers, op: BitOp, l: Expr, r: Expr, n: int)
    requires OnlyJumps(q, Bits(op, l, r), n)
    ensures OnlyJumps(q, l, n) && OnlyJumps(q, r, n + 1)
  {
    hide WellTyped, TypeOf, Need, Size;
    BitsTyped(q, op, l, r);
    BitsCost(q, op, l, r);
  }

  lemma {:induction false} CompareLoses(q: Qualifiers, op: CmpOp, l: Expr, r: Expr, pos: nat, n: int)
    requires OnlyJumps(q, Compare(op, l, r), n)
    ensures var e := Compare(op, l, r); Lost(q, e, pos, n) <==> !JumpsFit(q, e, pos) && Loses(q, e, pos)
    decreases Nodes(l) + Nodes(r), 1
  {
    hide OnlyJumps, EmitsOperands, Fine, Size, TypeOf;
    if TypeOf(q, l) == VIpv6 {
      Ipv6EmitsNoOperands(q, op, l, r);
    } else {
      CompareOnlyJumps(q, op, l, r, n);
      OperandsLose(q, l, r, pos, n);
    }
  }

  lemma Ipv6EmitsNoOperands(q: Qualifiers, op: CmpOp, l: Expr, r: Expr)
    requires TypeOf(q, l) == VIpv6
    ensures !EmitsOperands(q, op, l, r)
  {
  }

  lemma CompareOnlyJumps(q: Qualifiers, op: CmpOp, l: Expr, r: Expr, n: int)
    requires OnlyJumps(q, Compare(op, l, r), n) && TypeOf(q, l) != VIpv6
    ensures OnlyJumps(q, l, n) && OnlyJumps(q, r, n + 1) && EmitsOperands(q, op, l, r)
  {
    hide WellTyped, OffsetsFit, TypeOf, Need, Size, Resolve, Ipv6Operand;
    CompareOperands(q, op, l, r);
    CompareOffsets(q, op, l, r);
    CompareCost(q, op, l, r);
    ResolveErrors(q, l);
    ResolveErrors(q, r);
  }

  /** A well-typed tree whose offsets and registers fit reports a broken internal invariant if and
      only if some jump target does not fit and the first such jump is lost. */
  lemma WellTypedLosesJumpExactlyWhen(q: Qualifiers, root: Expr)
    requires Logical(q, root) && OffsetsFit(q, root) && NeedBool(q, root) <= MAX_REGISTER_COUNT
    ensures GenProgram(q, root) == Err(InternalPatch) <==> !JumpsFit(q, root, 0) && Loses(q, root, 0)
  {
    hide GenProgram, Lost, Loses, WellTyped, OffsetsFit, JumpsFit, TypeOf, Need, SizeBool, IsIp;
    InternalErrorExactlyWhen(q, root);
    LostIsLoses(q, root, 0, 0);
  }

  // ----- trees that lose a jump -----

  /** A balanced tree of bitwise operators: more than 3 * 2^k slots from k + 3 registers. */
  function Huge(k: nat): Expr {
    if k == 0 then Integer(0) else Bits(BitAnd, Huge(k - 1), Huge(k - 1))
  }

  lemma {:induction false} HugeConditions(q: Qualifiers, k: nat, pos: nat)
    ensures TypeOf(q, Huge(k)) == VInt && Compilable(q, Huge(k), pos)
    ensures Size(q, Huge(k)) == 3 * Pow2(k) - 1 && Need(q, Huge(k)) <= k + 3
    decreases k
  {
    hide Compilable, TypeOf, Need, Size;
    if k == 0 {
      ZeroConditions(q, pos);
    } else {
      HugeConditions(q, k - 1, pos);
      HugeConditions(q, k - 1, pos + Size(q, Huge(k - 1)));
      BitsConditions(q, BitAnd, Huge(k - 1), Huge(k - 1), pos);
      BitsAreIntegers(q, BitAnd, Huge(k - 1), Huge(k - 1));
    }
  }

  lemma ZeroConditions(q: Qualifiers, pos: nat)
    ensures Compilable(q, Integer(0), pos) && TypeOf(q, Integer(0)) == VInt
    ensures Size(q, Integer(0)) == 2 && Need(q, Integer(0)) == 1
  {
  }

  lemma Pow2At30()
    ensures Pow2(30) == 0x4000_0000
  {
    hide Pow2;
    Pow2At63();
    Pow2Sum(15, 15);
  }

  lemma HugeOperand(q: Qualifiers)
    ensures var l := Huge(30);
      Compilable(q, l, 0) && !IsIp(TypeOf(q, l)) && SizeBool(q, l) == 0xc000_0002 && NeedBool(q, l) <= 33
  {
    hide Huge, Compilable, TypeOf, Need, Size;
    HugeConditions(q, 30, 0);
    Pow2At30();
  }

  lemma TrueOperand(q: Qualifiers, pos: nat)
    ensures Compilable(q, Boolean(true), pos) && TypeOf(q, Boolean(true)) == VBool
    ensures SizeBool(q, Boolean(true)) == 2 && NeedBool(q, Boolean(true)) == 1
  {
  }

  lemma LogicalTypes(q: Qualifiers, l: Expr, r: Expr)
    ensures TypeOf(q, And(l, r)) == VBool == TypeOf(q, Or(l, r)) && !IsIp(VBool)
  {
  }

  /** Well-typed trees of few registers whose compilation reports a broken internal invariant,
      because the index of their jump does not survive the cast. */
  lemma HugeTreeReportsInternalError(q: Qualifiers)
    ensures var root := And(Huge(30), Boolean(true));
      && Logical(q, root) && OffsetsFit(q, root) && NeedBool(q, root) <= MAX_REGISTER_COUNT
      && GenProgram(q, root) == Err(InternalPatch)
  {
    hide Huge, TypeOf, WellTyped, OffsetsFit, JumpsFit, Need, Size, SizeBool, IsIp, GenProgram;
    var l, r := Huge(30), Boolean(true);
    HugeOperand(q);
    TrueOperand(q, SizeBool(q, l) + 1);
    LogicalTypes(q, l, r);
    AndTyped(q, l, r);
    AndOffsets(q, l, r);
    AndConditions(q, l, r, 0);
    AndJumps(q, l, r, 0);
    WellTypedLosesJumpExactlyWhen(q, And(l, r));
  }

  lemma HugeDisjunctionReportsInternalError(q: Qualifiers)
    ensures var root := Or(Huge(30), Boolean(true));
      && Logical(q, root) && OffsetsFit(q, root) && NeedBool(q, root) <= MAX_REGISTER_COUNT
      && GenProgram(q, root) == Err(InternalPatch)
  {
    hide Huge, TypeOf, WellTyped, OffsetsFit, JumpsFit, Need, Size, SizeBool, IsIp, GenProgram;
    var l, r := Huge(30), Boolean(true);
    HugeOperand(q);
    TrueOperand(q, SizeBool(q, l) + 4);
    LogicalTypes(q, l, r);
    OrTyped(q, l, r);
    OrOffsets(q, l, r);
    OrConditions(q, l, r, 0);
    OrJumps(q, l, r, 0);
    WellTypedLosesJumpExactlyWhen(q, Or(l, r));
  }
}
