/** The main theorems about compilation: exactly when it succeeds and at what cost, what the
    compiled program computes, that the verifier accepts it, and that it does not depend on
    later registrations. */
module CompilerTheorems {
  import opened Words
  import opened Bytecode
  import opened Registry
  import opened Ast
  import opened Allocator
  import opened CodeGen
  import opened Conditions
  import opened Vm
  import opened Verifier
  import opened Semantics
  import opened Correctness
  import opened CompiledCode

  const NO_REGISTERS := Alloc([], 0)

  // ----- success and cost -----

  /** Compilation succeeds exactly when the tree is a well-typed truth value, its offsets and
      jump targets fit 32 signed bits and it needs at most 256 registers. The program then uses
      exactly the registers needed and has one slot more than the tree's code. */
  lemma CompilesExactlyWhen(q: Qualifiers, root: Expr)
    ensures GenProgram(q, root).Ok? <==>
            Logical(q, root) && OffsetsFit(q, root) && JumpsFit(q, root, 0) && NeedBool(q, root) <= MAX_REGISTER_COUNT
    ensures GenProgram(q, root).Ok? ==>
            var p := GenProgram(q, root).value;
            p.registerCount == NeedBool(q, root) && |p.code| == SizeBool(q, root) + 1
  {
    hide GenBool, WellTyped, OffsetsFit, JumpsFit, TypeOf, NeedBool, SizeBool;
    GenBoolShape(q, root, 0, NO_REGISTERS);
  }

  /** Code that ends below 2^31 has only jump targets that fit. */
  lemma {:induction false} ShortCodeJumpsFit(q: Qualifiers, e: Expr, pos: nat)
    requires FitsI32(pos + Size(q, e))
    ensures JumpsFit(q, e, pos)
    decreases Nodes(e), 0
  {
    hide JumpsFit, Size, TypeOf, Need, NeedBool, WellTyped, OffsetsFit, IsIp;
    match e
    case Not(x) =>
      NotConditions(q, x, pos);
      NotRanges(q, x, pos);
      ShortCodeJumpsFit(q, x, pos);
    case And(l, r) =>
      AndConditions(q, l, r, pos);
      AndJumps(q, l, r, pos);
      ShortOperandsFit(q, l, pos, r, pos + SizeBool(q, l) + 1);
    case Or(l, r) =>
      OrConditions(q, l, r, pos);
      OrJumps(q, l, r, pos);
      ShortOperandsFit(q, l, pos, r, pos + SizeBool(q, l) + 4);
    case Compare(op, l, r) =>
      if TypeOf(q, l) == VIpv6 {
        LeafJumps(q, e, pos);
      } else {
        CompareCost(q, op, l, r);
        BinaryJumps(q, e, pos);
        ShortOperandsFit(q, l, pos, r, pos + Size(q, l));
      }
    case Bits(op, l, r) =>
      BitsCost(q, op, l, r);
      BinaryJumps(q, e, pos);
      ShortOperandsFit(q, l, pos, r, pos + Size(q, l));
    case _ => LeafJumps(q, e, pos);
  }

  lemma {:induction false} ShortOperandsFit(q: Qualifiers, l: Expr, pos: nat, r: Expr, at: nat)
    requires FitsI32(pos + Size(q, l)) && FitsI32(at + Size(q, r))
    ensures JumpsFit(q, l, pos) && JumpsFit(q, r, at)
    decreases Nodes(l) + Nodes(r), 1
  {
    hide Size, JumpsFit;
    ShortCodeJumpsFit(q, l, pos);
    ShortCodeJumpsFit(q, r, at);
  }

  lemma LeafJumps(q: Qualifiers, e: Expr, pos: nat)
    requires !e.Not? && !e.And? && !e.Or? && !e.Bits? && (e.Compare? ==> TypeOf(q, e.left) == VIpv6)
    ensures JumpsFit(q, e, pos)
  {
    hide TypeOf;
  }

  /** So for programs of fewer than 2^31 slots the jump targets are no condition. */
  lemma ShortProgramsCompileExactlyWhen(q: Qualifiers, root: Expr)
    requires SizeBool(q, root) <= INT32_MAX
    ensures GenProgram(q, root).Ok? <==>
            Logical(q, root) && OffsetsFit(q, root) && NeedBool(q, root) <= MAX_REGISTER_COUNT
  {
    hide GenProgram, Logical, OffsetsFit, JumpsFit, NeedBool, Size;
    CompilesExactlyWhen(q, root);
    ShortCodeJumpsFit(q, root, 0);
  }

  /** A failure the tree itself is to blame for. */
  predicate SourceError(e: CompileError) {
    !ResourceError(e) && !InternalError(e)
  }

  /** A failure of a limit. */
  predicate ResourceError(e: CompileError) {
    e == RegisterLimit || e == PayloadRange || e == JumpRange
  }

  /** A report of a broken internal invariant. */
  predicate InternalError(e: CompileError) {
    e == InternalRelease || e == InternalDoubleRelease || e == InternalPatch
  }

  /** A reported failure is a limit, or names a fault of an ill-typed tree, or is a jump not
      recognised in code that is not short. */
  ghost predicate Blames(r: CompileError, wellTyped: bool, short: bool) {
    ResourceError(r) || (SourceError(r) && !wellTyped) || (r == InternalPatch && !short)
  }

  /** The code placed at `pos` ends below slot 2^31. */
  predicate Short(q: Qualifiers, e: Expr, pos: nat) {
    FitsI32(pos + Size(q, e))
  }

  predicate ShortBool(q: Qualifiers, e: Expr, pos: nat) {
    FitsI32(pos + SizeBool(q, e))
  }

  lemma {:induction false} GenErrors(q: Qualifiers, e: Expr, pos: nat, ra: Alloc)
    requires ValidAlloc(ra) && Gen(q, e, pos, ra).Err?
    ensures Blames(Gen(q, e, pos, ra).error, WellTyped(q, e), Short(q, e, pos))
    decreases Nodes(e), 0
  {
    hide GenNot, GenAnd, GenOr, GenCompare, GenBits, Short, ValidAlloc;
    match e
    case Not(x) => NotErrors(q, x, pos, ra);
    case And(l, r) => AndErrors(q, l, r, pos, ra);
    case Or(l, r) => OrErrors(q, l, r, pos, ra);
    case Compare(op, l, r) => CompareErrors(q, op, l, r, pos, ra);
    case Bits(op, l, r) => BitsErrors(q, op, l, r, pos, ra);
    case _ =>
  }

  lemma {:induction false} GenBoolErrors(q: Qualifiers, e: Expr, pos: nat, ra: Alloc)
    requires ValidAlloc(ra) && GenBool(q, e, pos, ra).Err?
    ensures Blames(GenBool(q, e, pos, ra).error, Logical(q, e), ShortBool(q, e, pos))
    decreases Nodes(e), 1
  {
    hide Gen, WellTyped, TypeOf, ValidAlloc, Size;
    var f := Gen(q, e, pos, ra);
    if f.Err? {
      GenErrors(q, e, pos, ra);
    } else {
      GenFrames(q, e, pos, ra);
    }
  }

  lemma {:induction false} NotErrors(q: Qualifiers, x: Expr, pos: nat, ra: Alloc)
    requires ValidAlloc(ra) && GenNot(q, x, pos, ra).Err?
    ensures Blames(GenNot(q, x, pos, ra).error, WellTyped(q, Not(x)), Short(q, Not(x), pos))
    decreases Nodes(x), 2
  {
    hide GenBool, WellTyped, TypeOf, ValidAlloc, IsIp, Size, SizeBool, Need, NeedBool, OffsetsFit, JumpsFit;
    NotConditions(q, x, pos);
    NotTyped(q, x);
    if GenBool(q, x, pos, ra).Err? {
      GenBoolErrors(q, x, pos, ra);
    }
  }

  lemma {:induction false} AndErrors(q: Qualifiers, l: Expr, r: Expr, pos: nat, ra: Alloc)
    requires ValidAlloc(ra) && GenAnd(q, l, r, pos, ra).Err?
    ensures Blames(GenAnd(q, l, r, pos, ra).error, WellTyped(q, And(l, r)), Short(q, And(l, r), pos))
    decreases Nodes(l) + Nodes(r), 0
  {
    hide GenBool, WellTyped, TypeOf, ValidAlloc, IsIp, TakeReg, Give, Size, SizeBool, AndFrag;
    AndSize(q, l, r);
    AndTyped(q, l, r);
    var f := GenBool(q, l, pos, ra);
    if f.Err? {
      GenBoolErrors(q, l, pos, ra);
    } else {
      GenBoolFrames(q, l, pos, ra);
      var t := TakeReg(f.value.ra);
      TakeErrors(f.value.ra);
      if t.Ok? {
        LeftDone(ra, f.value);
        var at, mid := pos + |f.value.code| + 1, Give(t.value.1, f.value.dst);
        var g := GenBool(q, r, at, mid);
        if g.Err? {
          GenBoolErrors(q, r, at, mid);
        } else {
          GenBoolFrames(q, r, at, mid);
          AndFragErrors(f.value, t.value.0, g.value, pos);
        }
      }
    }
  }

  lemma AndSize(q: Qualifiers, l: Expr, r: Expr)
    ensures Size(q, And(l, r)) == SizeBool(q, l) + SizeBool(q, r) + 5
    ensures Size(q, Or(l, r)) == SizeBool(q, l) + SizeBool(q, r) + 5
  {
    hide SizeBool;
  }

  lemma TakeErrors(ra: Alloc)
    ensures TakeReg(ra).Err? ==> TakeReg(ra).error == RegisterLimit
  {
  }

  /** Joining the parts of a logical operator fails only where the code ends beyond slot 2^31. */
  lemma AndFragErrors(f: Frag, d: byte, g: Frag, pos: nat)
    ensures AndFrag(f, d, g, pos).Err? ==>
      var e := AndFrag(f, d, g, pos).error;
      (e == JumpRange || e == InternalPatch) && !FitsI32(pos + |f.code| + |g.code| + 5)
  {
    hide AndTail, Ins, Give;
  }

  lemma OrFragErrors(f: Frag, d: byte, g: Frag, pos: nat)
    ensures OrFrag(f, d, g, pos).Err? ==> OrFrag(f, d, g, pos).error == JumpRange
  {
    hide OrHead, Ins, Give;
  }

  lemma {:induction false} OrErrors(q: Qualifiers, l: Expr, r: Expr, pos: nat, ra: Alloc)
    requires ValidAlloc(ra) && GenOr(q, l, r, pos, ra).Err?
    ensures Blames(GenOr(q, l, r, pos, ra).error, WellTyped(q, Or(l, r)), Short(q, Or(l, r), pos))
    decreases Nodes(l) + Nodes(r), 0
  {
    hide GenBool, WellTyped, TypeOf, ValidAlloc, IsIp, TakeReg, Give, Size, SizeBool, OrFrag, CastI32;
    AndSize(q, l, r);
    OrTyped(q, l, r);
    var f := GenBool(q, l, pos, ra);
    if f.Err? {
      GenBoolErrors(q, l, pos, ra);
    } else {
      GenBoolFrames(q, l, pos, ra);
      var t := TakeReg(f.value.ra);
      TakeErrors(f.value.ra);
      if t.Ok? {
        LeftDone(ra, f.value);
        var at, mid := pos + |f.value.code| + 4, Give(t.value.1, f.value.dst);
        var g := GenBool(q, r, at, mid);
        if g.Err? {
          GenBoolErrors(q, r, at, mid);
        } else {
          OrFragErrors(f.value, t.value.0, g.value, pos);
        }
      }
    }
  }

  lemma {:induction false} OperandsErrors(q: Qualifiers, l: Expr, r: Expr, pos: nat, ra: Alloc)
    requires ValidAlloc(ra) && GenOperands(q, l, r, pos, ra).Err?
    ensures Blames(GenOperands(q, l, r, pos, ra).error, WellTyped(q, l) && WellTyped(q, r),
                   FitsI32(pos + Size(q, l) + Size(q, r)))
    decreases Nodes(l) + Nodes(r), 0
  {
    hide Gen, WellTyped, TypeOf, ValidAlloc, Size;
    var f := Gen(q, l, pos, ra);
    if f.Err? {
      GenErrors(q, l, pos, ra);
    } else {
      GenFrames(q, l, pos, ra);
      GenErrors(q, r, pos + |f.value.code|, f.value.ra);
    }
  }

  lemma {:induction false} BitsErrors(q: Qualifiers, op: BitOp, l: Expr, r: Expr, pos: nat, ra: Alloc)
    requires ValidAlloc(ra) && GenBits(q, op, l, r, pos, ra).Err?
    ensures Blames(GenBits(q, op, l, r, pos, ra).error, WellTyped(q, Bits(op, l, r)), Short(q, Bits(op, l, r), pos))
    decreases Nodes(l) + Nodes(r), 1
  {
    hide GenOperands, WellTyped, TypeOf, ValidAlloc, Size, Need;
    BitsCost(q, op, l, r);
    BitsTyped(q, op, l, r);
    if GenOperands(q, l, r, pos, ra).Err? {
      OperandsErrors(q, l, r, pos, ra);
    } else {
      OperandsTypes(q, l, r, pos, ra);
    }
  }

  lemma {:induction false} CompareErrors(q: Qualifiers, op: CmpOp, l: Expr, r: Expr, pos: nat, ra: Alloc)
    requires ValidAlloc(ra) && GenCompare(q, op, l, r, pos, ra).Err?
    ensures var e := Compare(op, l, r);
      Blames(GenCompare(q, op, l, r, pos, ra).error, WellTyped(q, e), Short(q, e, pos))
    decreases Nodes(l) + Nodes(r), 2
  {
    hide GenIpv6Compare, GenPlainCompare, GenOperands, CompareTail, ValidAlloc, Logical, Short;
    ResolveErrors(q, l);
    ResolveErrors(q, r);
    var lt, rt := Resolve(q, l), Resolve(q, r);
    if lt.Ok? && rt.Ok? && lt.value == rt.value == VIpv6 && (op == Eq || op == Ne) {
      Ipv6CompareErrors(q, op, l, r, ra);
    } else if lt.Ok? && rt.Ok? && lt.value != VIpv6 && rt.value != VIpv6 && GenPlainCompare(q, op, l, r, pos, ra).Err? {
      PlainCompareErrors(q, op, l, r, pos, ra);
    }
  }

  lemma ResolveErrors(q: Qualifiers, e: Expr)
    ensures Resolve(q, e).Ok? ==> Resolve(q, e).value == TypeOf(q, e)
    ensures Resolve(q, e).Err? ==>
      !WellTyped(q, e) && !Ipv6Operand(q, e) && SourceError(Resolve(q, e).error)
  {
  }

  lemma {:induction false} PlainCompareErrors(q: Qualifiers, op: CmpOp, l: Expr, r: Expr, pos: nat, ra: Alloc)
    requires ValidAlloc(ra) && TypeOf(q, l) != VIpv6 && TypeOf(q, r) != VIpv6
    requires GenPlainCompare(q, op, l, r, pos, ra).Err?
    ensures var e := Compare(op, l, r);
      Blames(GenPlainCompare(q, op, l, r, pos, ra).error, WellTyped(q, e), Short(q, e, pos))
    decreases Nodes(l) + Nodes(r), 1
  {
    hide GenOperands, CompareTail, WellTyped, TypeOf, ValidAlloc, Size, Need;
    CompareCost(q, op, l, r);
    CompareTyped(q, op, l, r);
    var o := GenOperands(q, l, r, pos, ra);
    if o.Err? {
      OperandsErrors(q, l, r, pos, ra);
    } else {
      OperandsTypes(q, l, r, pos, ra);
      CompareTailErrors(op, o.value);
    }
  }

  lemma CompareTailErrors(op: CmpOp, o: Operands)
    ensures CompareTail(op, o).Err? ==>
      var e := CompareTail(op, o).error;
      e == RegisterLimit || (SourceError(e) && o.lt != o.rt && (IsIp(o.lt) || IsIp(o.rt)))
  {
  }

  lemma Ipv6CompareErrors(q: Qualifiers, op: CmpOp, l: Expr, r: Expr, ra: Alloc)
    ensures GenIpv6Compare(q, op, l, r, ra).Err? ==>
      Blames(GenIpv6Compare(q, op, l, r, ra).error, Ipv6Operand(q, l) && Ipv6Operand(q, r), true)
  {
    hide GenIpv6Value, Ipv6Operand;
    Ipv6ValueErrors(q, l, ra);
    var lp := GenIpv6Value(q, l, ra);
    if lp.Ok? {
      Ipv6ValueErrors(q, r, lp.value.ra);
    }
  }

  lemma Ipv6ValueErrors(q: Qualifiers, e: Expr, ra: Alloc)
    ensures GenIpv6Value(q, e, ra).Err? ==> Blames(GenIpv6Value(q, e, ra).error, Ipv6Operand(q, e), true)
  {
  }

  // ----- the compiled program -----

  /** Every compiled program passes the verifier, its jumps go strictly forward and its loads
      read registered fields. */
  lemma CompiledIsVerified(q: Qualifiers, root: Expr)
    requires WellFormed(q) && GenProgram(q, root).Ok?
    ensures var p := GenProgram(q, root).value;
      Verified(p) && forall i :: 0 <= i < |p.code| && IsStart(p.code, i) ==> Good(q, p, i)
  {
    hide GenBool, IsStart, Good, WellFormed, Logical, Released;
    EmptyAlloc();
    var f := GenBool(q, root, 0, NO_REGISTERS).value;
    GenBoolFrames(q, root, 0, NO_REGISTERS);
    var p, ret := GenProgram(q, root).value, [Ins(RET, f.dst, 0, 0, 0)];
    AtSplit(p, 0, f.code, ret);
    FirstStart(p.code);
    GenBoolSegment(q, root, p, 0, NO_REGISTERS);
    SegmentUnary(q, p, |f.code|, RET, f.dst, 0);
    SegmentTrans(q, p, 0, |f.code|, |p.code|);
    SegmentIsProgram(q, p);
  }

  lemma EmptyAlloc()
    ensures ValidAlloc(NO_REGISTERS)
  {
  }

  lemma FirstStart(code: seq<Instruction>)
    ensures IsStart(code, 0)
  {
  }

  /** A program that is one segment is what the verifier accepts. */
  lemma SegmentIsProgram(q: Qualifiers, p: Program)
    requires Segment(q, p, 0, |p.code|) && |p.code| > 0 && 0 <= p.registerCount <= MAX_REGISTER_COUNT
    ensures Verified(p) && forall i :: 0 <= i < |p.code| && IsStart(p.code, i) ==> Good(q, p, i)
  {
    hide IsStart, Sound;
  }

  /** Semantic preservation: whatever the context, the compiled program reaches its Ret within
      as many steps as it has slots, returns whether the expression's truth value is not 0, and
      makes exactly the expression's field reads in their order. */
  lemma CompiledComputes(q: Qualifiers, root: Expr, ctx: Context)
    requires WellFormed(q) && GenProgram(q, root).Ok?
    ensures var p, v := GenProgram(q, root).value, EvalBool(q, root, ctx);
      Steps(p, ctx, Start(), |p.code|) == Returned(v.value != 0, v.trace)
  {
    hide GenBool, At, Steps, Step, EvalBool, WellFormed, Logical, ValidAlloc;
    EmptyAlloc();
    var f := GenBool(q, root, 0, NO_REGISTERS).value;
    GenBoolFrames(q, root, 0, NO_REGISTERS);
    var p, ret := GenProgram(q, root).value, [Ins(RET, f.dst, 0, 0, 0)];
    assert At(p, 0, f.code + ret) by { AtAll(p); }
    AtSplit(p, 0, f.code, ret);
    var regs' := GenBoolRuns(q, root, p, ctx, 0, NO_REGISTERS, Start().regs, []);
    var v := EvalBool(q, root, ctx);
    var m := Running(|f.code|, regs', [] + v.trace);
    assert [] + v.trace == v.trace;
    var k: nat :| k <= |f.code| && Steps(p, ctx, Start(), k) == m;
    RunRet(p, ctx, |f.code|, f.dst, regs', v.trace);
    StepsNext(p, ctx, k);
    HaltedStays(p, ctx, Start(), k + 1, |p.code|);
  }

  /** Every field read of a compiled program's run is of a registered field or of one half of an
      IPv6 field. */
  lemma CompiledReadsConfined(q: Qualifiers, root: Expr, ctx: Context)
    requires WellFormed(q) && GenProgram(q, root).Ok?
    ensures var p := GenProgram(q, root).value;
      ReadsConfined(q, Steps(p, ctx, Start(), |p.code|).trace)
  {
    hide GenProgram, Steps, Eval, WellFormed, WellTyped, ReadsConfined, OffsetsFit, JumpsFit, NeedBool, SizeBool, IsIp;
    CompilesExactlyWhen(q, root);
    CompiledComputes(q, root, ctx);
    EvalReadsConfined(q, root, ctx);
  }

  lemma AtAll(p: Program)
    ensures At(p, 0, p.code)
  {
  }

  lemma StepsNext(p: Program, ctx: Context, k: nat)
    ensures Steps(p, ctx, Start(), k + 1) == Step(p, ctx, Steps(p, ctx, Start(), k))
  {
  }

  lemma RunRet(p: Program, ctx: Context, pos: nat, a: byte, regs: Registers, trace: seq<FieldRead>)
    requires At(p, pos, [Ins(RET, a, 0, 0, 0)]) && a < p.registerCount
    ensures Step(p, ctx, Running(pos, regs, trace)) == Returned(regs[a] != 0, trace)
  {
    AtOne(p, pos, Ins(RET, a, 0, 0, 0));
  }

  /** Fragment correctness in one statement: code placed after any prefix and before any suffix,
      run with arbitrary registers, reaches its end slot with the value in its register, the
      reads made and the live registers unchanged. */
  lemma FragmentCorrect(
    q: Qualifiers, e: Expr, p: Program, ctx: Context, pos: nat, ra: Alloc, regs: Registers, trace: seq<FieldRead>)
    requires WellFormed(q) && ValidAlloc(ra) && Gen(q, e, pos, ra).Ok? && Placed(p, pos, Gen(q, e, pos, ra).value)
    ensures var f, v := Gen(q, e, pos, ra).value, Eval(q, e, ctx);
      exists k: nat, regs': Registers ::
        && k <= |f.code|
        && Steps(p, ctx, Running(pos, regs, trace), k) == Running(pos + |f.code|, regs', trace + v.trace)
        && regs'[f.dst] == v.value
        && forall r: byte :: Live(ra, r) ==> regs'[r] == regs[r]
  {
    hide Gen, At, Eval, Steps, WellFormed, ValidAlloc, Live;
    var regs' := GenRuns(q, e, p, ctx, pos, ra, regs, trace);
    var f, v := Gen(q, e, pos, ra).value, Eval(q, e, ctx);
    var k: nat :| k <= |f.code|
      && Steps(p, ctx, Running(pos, regs, trace), k) == Running(pos + |f.code|, regs', trace + v.trace);
  }

  /** The type of emitted code is the type found before emission, and never IPv6. */
  lemma TypeAgreement(q: Qualifiers, e: Expr, pos: nat, ra: Alloc)
    requires ValidAlloc(ra) && Gen(q, e, pos, ra).Ok?
    ensures var f := Gen(q, e, pos, ra).value; Resolve(q, e) == Ok(f.ty) && f.ty != VIpv6
  {
    hide Gen, ValidAlloc;
    GenFrames(q, e, pos, ra);
  }

  // ----- chains of conjuncts -----

  /** The register need of a left-deep conjunction does not grow with its length. */
  lemma {:induction false} ChainNeed(q: Qualifiers, c: seq<Expr>, most: nat)
    requires |c| >= 2 && forall i :: 1 <= i < |c| ==> NeedBool(q, c[i]) <= most
    requires exists i :: 1 <= i < |c| && NeedBool(q, c[i]) == most
    ensures NeedBool(q, Chain(c)) == Max(NeedBool(q, c[0]), 1 + most)
  {
    hide NeedBool, Need, Chain;
    var last, front := c[|c| - 1], c[..|c| - 1];
    ChainAnd(q, c);
    if |c| == 2 {
      SingleChain(front);
    } else {
      if exists i :: 1 <= i < |front| && NeedBool(q, front[i]) == most {
        ChainNeed(q, front, most);
      } else {
        ChainNeedAtMost(q, front, most);
      }
    }
  }

  lemma {:induction false} ChainNeedAtMost(q: Qualifiers, c: seq<Expr>, most: nat)
    requires c != [] && forall i :: 1 <= i < |c| ==> NeedBool(q, c[i]) <= most
    ensures NeedBool(q, c[0]) <= NeedBool(q, Chain(c)) <= Max(NeedBool(q, c[0]), 1 + most)
  {
    if |c| == 1 {
      SingleChain(c);
    } else {
      ChainNeedAtMost(q, c[..|c| - 1], most);
      ChainAnd(q, c);
      hide NeedBool, Need, Chain;
    }
  }

  lemma SingleChain(c: seq<Expr>)
    requires |c| == 1
    ensures Chain(c) == c[0]
  {
  }

  lemma ChainAnd(q: Qualifiers, c: seq<Expr>)
    requires |c| >= 2
    ensures NeedBool(q, Chain(c)) == Max(NeedBool(q, Chain(c[..|c| - 1])), 1 + NeedBool(q, c[|c| - 1]))
  {
    assert Chain(c) == And(Chain(c[..|c| - 1]), c[|c| - 1]);
    AndConditions(q, Chain(c[..|c| - 1]), c[|c| - 1], 0);
  }
}
