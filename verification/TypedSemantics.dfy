/** A second meaning of expressions, with true booleans, mathematical integers and addresses as
    bytes, and exactly when compiled programs have it. */
module TypedSemantics {
  import opened Words
  import opened Common
  import opened Registry
  import opened Ast
  import opened CodeGen
  import opened Bytecode
  import opened Conditions
  import opened Vm
  import opened Semantics
  import opened Correctness
  import opened CompilerTheorems

  datatype Value = BoolV(b: bool) | IntV(n: int) | Ipv4V(address: Bytes4)

  /** How an unsigned 64-bit field is read: as the number it holds, or reduced to the signed range
      as the machine keeps it. Every other field is read as the number it holds. */
  datatype Reading = Exact | Reduced

  /** The number a register holds for a value that fits one. */
  function Encode(v: Value): int {
    match v
    case BoolV(b) => Truth(b)
    case IntV(n) => n
    case Ipv4V(bs) => LEBound(bs); Pow256Values(); LE(bs)
  }

  predicate Truthy(v: Value) {
    match v
    case BoolV(b) => b
    case IntV(n) => n != 0
    case Ipv4V(_) => true
  }

  predicate HasType(v: Value, ty: ValueType) {
    match v
    case BoolV(_) => ty == VBool
    case IntV(_) => ty == VInt
    case Ipv4V(_) => ty == VIpv4
  }

  /** The number an unsigned 64-bit field holds. */
  function Unsigned(info: QualifierInfo, ctx: Context): (n: uint64)
    requires info.ty == U64
  {
    LEBound(FieldBytes(ctx, info.offset, 8)); Pow256Values();
    LE(FieldBytes(ctx, info.offset, 8))
  }

  function FieldMeaning(info: QualifierInfo, ctx: Context, reading: Reading): Value {
    var bs := FieldBytes(ctx, info.offset, TypeSize(info.ty));
    match info.ty
    case BoolT => BoolV(bs[0] != 0)
    case Ipv4T => Ipv4V(bs)
    case U64 => IntV(if reading == Exact then Unsigned(info, ctx) else FieldValue(U64, bs))
    case _ => IntV(FieldValue(info.ty, bs))
  }

  /** Comparison of booleans, with false below true. */
  predicate BoolHolds(op: CmpOp, a: bool, b: bool) {
    match op
    case Eq => a == b
    case Ne => a != b
    case Gt => a && !b
    case Lt => !a && b
    case Ge => a || !b
    case Le => !a || b
  }

  /** Integers are compared as integers, addresses for equality, and anything with a boolean by
      truth. */
  predicate Related(op: CmpOp, x: Value, y: Value) {
    if x.IntV? && y.IntV? then Holds(op, x.n, y.n)
    else if x.Ipv4V? && y.Ipv4V? then (if op == Eq then x.address == y.address else x.address != y.address)
    else BoolHolds(op, Truthy(x), Truthy(y))
  }

  /** Integers are unbounded here: bitwise operators combine their infinite two's-complement forms,
      which for numbers of 64 bits, signed or unsigned, are 64 bits and a sign. */
  ghost function Denote(q: Qualifiers, e: Expr, ctx: Context, reading: Reading): Value {
    match e
    case Ident(n) => if n in q then FieldMeaning(q[n], ctx, reading) else IntV(0)
    case Integer(v) => IntV(v)
    case Boolean(b) => BoolV(b)
    case Ipv4(a) => Ipv4V(if a.Some? then a.value else [0, 0, 0, 0])
    case Not(x) => BoolV(!Truthy(Denote(q, x, ctx, reading)))
    case And(l, r) => BoolV(Truthy(Denote(q, l, ctx, reading)) && Truthy(Denote(q, r, ctx, reading)))
    case Or(l, r) => BoolV(Truthy(Denote(q, l, ctx, reading)) || Truthy(Denote(q, r, ctx, reading)))
    case Compare(op, l, r) =>
      if TypeOf(q, l) == VIpv6 then
        var same := Ipv6Bytes(q, l, ctx) == Ipv6Bytes(q, r, ctx);
        BoolV(if op == Eq then same else !same)
      else BoolV(Related(op, Denote(q, l, ctx, reading), Denote(q, r, ctx, reading)))
    case Bits(op, l, r) =>
      IntV(Bitwise(op == BitAnd, Encode(Denote(q, l, ctx, reading)), Encode(Denote(q, r, ctx, reading)), 64))
    case _ => BoolV(false)
  }

  /** Every boolean field that code can load holds 0 or 1. */
  ghost predicate NormalBools(q: Qualifiers, ctx: Context) {
    forall n :: n in q && q[n].ty == BoolT && FitsI32(q[n].offset) ==> ctx(q[n].offset) <= 1
  }

  /** Every unsigned 64-bit field that code can load holds less than 2^63. */
  ghost predicate SmallUnsigned(q: Qualifiers, ctx: Context) {
    forall n :: n in q && q[n].ty == U64 && FitsI32(q[n].offset) ==> Unsigned(q[n], ctx) < 0x8000_0000_0000_0000
  }

  /** The contexts in which compiled programs have their typed meaning. */
  ghost predicate Normal(q: Qualifiers, ctx: Context, reading: Reading) {
    NormalBools(q, ctx) && (reading == Exact ==> SmallUnsigned(q, ctx))
  }

  /** The 64-bit evaluation of `e` is the register form of its typed meaning. */
  ghost predicate Agrees(q: Qualifiers, e: Expr, ctx: Context, reading: Reading)
    requires WellFormed(q)
  {
    var v := Denote(q, e, ctx, reading);
    HasType(v, TypeOf(q, e)) && Eval(q, e, ctx).value == Encode(v)
  }

  lemma AsBoolAgrees(q: Qualifiers, e: Expr, ctx: Context, reading: Reading)
    requires WellFormed(q) && Agrees(q, e, ctx, reading) && !IsIp(TypeOf(q, e))
    ensures EvalBool(q, e, ctx).value == Truth(Truthy(Denote(q, e, ctx, reading)))
  {
    hide Denote, Eval, TypeOf, WellFormed;
  }

  lemma FieldAgrees(q: Qualifiers, n: string, ctx: Context, reading: Reading)
    requires WellFormed(q) && Normal(q, ctx, reading) && n in q && q[n].ty != Ipv6T && FitsI32(q[n].offset)
    ensures Agrees(q, Ident(n), ctx, reading)
  {
    var bs := FieldBytes(ctx, q[n].offset, TypeSize(q[n].ty));
    if q[n].ty == BoolT {
      assert bs[0] == ctx(q[n].offset);
      assert bs[1..] == [] && LE(bs) == bs[0] + 0x100 * LE(bs[1..]);
    }
  }

  /** Comparing register forms is comparing meanings. */
  lemma RelatedAgrees(op: CmpOp, x: Value, lt: ValueType, a: int64, y: Value, rt: ValueType, b: int64)
    requires HasType(x, lt) && HasType(y, rt) && Encode(x) == a && Encode(y) == b
    requires lt == VIpv4 || rt == VIpv4 ==> lt == rt && (op == Eq || op == Ne)
    ensures var v := Coerced(lt, a, rt, b); Holds(op, v.0, v.1) == Related(op, x, y)
  {
    if x.Ipv4V? {
      LEInjective(x.address, y.address);
    }
  }

  lemma NotAgrees(q: Qualifiers, x: Expr, ctx: Context, reading: Reading)
    requires WellFormed(q) && Agrees(q, x, ctx, reading) && !IsIp(TypeOf(q, x))
    ensures Agrees(q, Not(x), ctx, reading)
  {
    hide WellFormed, EvalBool;
    AsBoolAgrees(q, x, ctx, reading);
  }

  lemma AndAgrees(q: Qualifiers, l: Expr, r: Expr, ctx: Context, reading: Reading)
    requires WellFormed(q) && Agrees(q, l, ctx, reading) && !IsIp(TypeOf(q, l))
    requires Agrees(q, r, ctx, reading) && !IsIp(TypeOf(q, r))
    ensures Agrees(q, And(l, r), ctx, reading)
  {
    hide WellFormed, EvalBool;
    AsBoolAgrees(q, l, ctx, reading);
    AsBoolAgrees(q, r, ctx, reading);
  }

  lemma OrAgrees(q: Qualifiers, l: Expr, r: Expr, ctx: Context, reading: Reading)
    requires WellFormed(q) && Agrees(q, l, ctx, reading) && !IsIp(TypeOf(q, l))
    requires Agrees(q, r, ctx, reading) && !IsIp(TypeOf(q, r))
    ensures Agrees(q, Or(l, r), ctx, reading)
  {
    hide WellFormed, EvalBool;
    AsBoolAgrees(q, l, ctx, reading);
    AsBoolAgrees(q, r, ctx, reading);
  }

  lemma CompareAgrees(q: Qualifiers, op: CmpOp, l: Expr, r: Expr, ctx: Context, reading: Reading)
    requires WellFormed(q) && TypeOf(q, l) != VIpv6
    requires Agrees(q, l, ctx, reading) && Agrees(q, r, ctx, reading)
    requires TypeOf(q, l) == VIpv4 || TypeOf(q, r) == VIpv4 ==> TypeOf(q, l) == TypeOf(q, r) && (op == Eq || op == Ne)
    ensures Agrees(q, Compare(op, l, r), ctx, reading)
  {
    hide WellFormed, Coerced, Related, Encode;
    RelatedAgrees(op, Denote(q, l, ctx, reading), TypeOf(q, l), Eval(q, l, ctx).value,
                  Denote(q, r, ctx, reading), TypeOf(q, r), Eval(q, r, ctx).value);
    assert Encode(BoolV(true)) == 1 && Encode(BoolV(false)) == 0 by { EncodeBools(); }
  }

  lemma EncodeBools()
    ensures Encode(BoolV(true)) == 1 && Encode(BoolV(false)) == 0
  {
  }

  /** On numbers that fit a register the machine's operators are those of unbounded integers. */
  lemma RegisterBits(x: int64, y: int64)
    ensures AndI64(x, y) == Bitwise(true, x, y, 64) && OrI64(x, y) == Bitwise(false, x, y, 64)
  {
    hide Bitwise, Pow2;
    Pow2At63();
    BitwiseMore(true, x, y, 63);
    BitwiseMore(false, x, y, 63);
  }

  lemma BitsAgrees(q: Qualifiers, op: BitOp, l: Expr, r: Expr, ctx: Context, reading: Reading)
    requires WellFormed(q) && Agrees(q, l, ctx, reading) && Agrees(q, r, ctx, reading)
    ensures Agrees(q, Bits(op, l, r), ctx, reading)
  {
    hide WellFormed, AndI64, OrI64, Bitwise, TypeOf;
    BitsAreIntegers(q, op, l, r);
    RegisterBits(Eval(q, l, ctx).value, Eval(q, r, ctx).value);
  }

  lemma LeafAgrees(q: Qualifiers, e: Expr, ctx: Context, reading: Reading)
    requires WellFormed(q) && (e.Integer? || e.Boolean? || (e.Ipv4? && e.addr4.Some?))
    ensures Agrees(q, e, ctx, reading)
  {
  }

  lemma Ipv6CompareAgrees(q: Qualifiers, op: CmpOp, l: Expr, r: Expr, ctx: Context, reading: Reading)
    requires WellFormed(q) && TypeOf(q, l) == VIpv6
    ensures Agrees(q, Compare(op, l, r), ctx, reading)
  {
    hide WellFormed, Ipv6Bytes, Ipv6Reads;
  }

  /** In a normal context the two meanings agree on every well-typed expression whose offsets
      can be loaded: booleans are 0 or 1, integers the numbers of the fields, addresses bytes. */
  lemma {:induction false} NormalContextAgrees(q: Qualifiers, e: Expr, ctx: Context, reading: Reading)
    requires WellFormed(q) && Normal(q, ctx, reading) && WellTyped(q, e) && OffsetsFit(q, e)
    ensures Agrees(q, e, ctx, reading)
    decreases Nodes(e)
  {
    hide Agrees, WellFormed, Normal, Ipv6Operand, Ipv6OffsetFits;
    match e
    case Ident(n) => FieldAgrees(q, n, ctx, reading);
    case Not(x) =>
      NormalContextAgrees(q, x, ctx, reading);
      NotAgrees(q, x, ctx, reading);
    case And(l, r) =>
      NormalContextAgrees(q, l, ctx, reading);
      NormalContextAgrees(q, r, ctx, reading);
      AndAgrees(q, l, r, ctx, reading);
    case Or(l, r) =>
      NormalContextAgrees(q, l, ctx, reading);
      NormalContextAgrees(q, r, ctx, reading);
      OrAgrees(q, l, r, ctx, reading);
    case Compare(op, l, r) =>
      if TypeOf(q, l) == VIpv6 {
        Ipv6CompareAgrees(q, op, l, r, ctx, reading);
      } else {
        CompareOperands(q, op, l, r);
        NormalContextAgrees(q, l, ctx, reading);
        NormalContextAgrees(q, r, ctx, reading);
        CompareAgrees(q, op, l, r, ctx, reading);
      }
    case Bits(op, l, r) =>
      NormalContextAgrees(q, l, ctx, reading);
      NormalContextAgrees(q, r, ctx, reading);
      BitsAgrees(q, op, l, r, ctx, reading);
    case _ => LeafAgrees(q, e, ctx, reading);
  }

  // ----- exactly when programs have their typed meaning -----

  /** A compiled program, run to its end, returns the truth of the typed meaning. */
  ghost predicate ReturnsMeaning(q: Qualifiers, root: Expr, ctx: Context, reading: Reading) {
    GenProgram(q, root).Ok? ==> Returns(GenProgram(q, root).value, ctx, Truthy(Denote(q, root, ctx, reading)))
  }

  predicate Returns(p: Program, ctx: Context, b: bool) {
    OutcomeOf(p, Steps(p, ctx, Start(), |p.code|)) == Finished(Success, Some(b))
  }

  lemma NormalContextReturnsMeaning(q: Qualifiers, root: Expr, ctx: Context, reading: Reading)
    requires WellFormed(q) && Normal(q, ctx, reading)
    ensures ReturnsMeaning(q, root, ctx, reading)
  {
    hide GenProgram, WellFormed, Normal, Steps, OffsetsFit, WellTyped, JumpsFit;
    hide NeedBool, SizeBool, EvalBool, Denote, TypeOf, IsIp;
    if GenProgram(q, root).Ok? {
      CompilesExactlyWhen(q, root);
      CompiledComputes(q, root, ctx);
      NormalContextAgrees(q, root, ctx, reading);
      AsBoolAgrees(q, root, ctx, reading);
    }
  }

  /** The test that tells a boolean field holding neither 0 nor 1 from a true boolean. */
  function IsTrue(n: string): Expr {
    Compare(Eq, Ident(n), Boolean(true))
  }

  lemma IsTrueCompiles(q: Qualifiers, n: string)
    requires n in q && q[n].ty == BoolT && FitsI32(q[n].offset)
    ensures GenProgram(q, IsTrue(n)).Ok?
  {
    var l, r := Ident(n), Boolean(true);
    assert TypeOf(q, l) == VBool == TypeOf(q, r) && TypeOf(q, IsTrue(n)) == VBool;
    assert Compilable(q, l, 0) && Compilable(q, r, Size(q, l)) && Need(q, l) == 1 == Need(q, r);
    CompareConditions(q, Eq, l, r, 0);
    CompilesExactlyWhen(q, IsTrue(n));
    hide GenProgram;
  }

  lemma IsTrueComparesWithOne(q: Qualifiers, n: string, ctx: Context, reading: Reading)
    requires WellFormed(q) && n in q && q[n].ty == BoolT && ValidInfo(q[n])
    ensures EvalBool(q, IsTrue(n), ctx).value == Truth(ctx(q[n].offset) == 1)
    ensures Denote(q, IsTrue(n), ctx, reading) == BoolV(ctx(q[n].offset) != 0)
  {
    var bs := FieldBytes(ctx, q[n].offset, 1);
    assert bs[0] == ctx(q[n].offset);
    assert bs[1..] == [] && LE(bs) == bs[0] + 0x100 * LE(bs[1..]);
    var l, r := Ident(n), Boolean(true);
    assert TypeOf(q, l) == VBool == TypeOf(q, r);
    EvalCompare(q, Eq, l, r, ctx);
    hide WellFormed;
  }

  lemma OddBooleanDiffers(q: Qualifiers, n: string, ctx: Context, reading: Reading)
    requires WellFormed(q) && n in q && q[n].ty == BoolT && FitsI32(q[n].offset) && ctx(q[n].offset) > 1
    ensures !ReturnsMeaning(q, IsTrue(n), ctx, reading)
  {
    hide GenProgram, Steps, EvalBool, Denote, IsTrue;
    IsTrueCompiles(q, n);
    IsTrueComparesWithOne(q, n, ctx, reading);
    CompiledComputes(q, IsTrue(n), ctx);
  }

  // ----- comparisons of integers -----

  /** An integer field of any type, or an integer literal. */
  predicate IntOperand(q: Qualifiers, e: Expr) {
    e.Integer? || (e.Ident? && e.name in q && TypeOf(q, e) == VInt)
  }

  /** The number an operand stands for: 64 bits, signed or unsigned. */
  ghost function Number(q: Qualifiers, e: Expr, ctx: Context): (n: int)
    requires IntOperand(q, e)
    ensures -0x8000_0000_0000_0000 <= n < 0x1_0000_0000_0000_0000
  {
    Denote(q, e, ctx, Exact).n
  }

  /** The number a register holds in place of a number of 64 bits. */
  function Kept(n: int): int64
    requires -0x8000_0000_0000_0000 <= n < 0x1_0000_0000_0000_0000
  {
    if n < 0x8000_0000_0000_0000 then n else n - 0x1_0000_0000_0000_0000
  }

  lemma NumberKept(q: Qualifiers, e: Expr, ctx: Context)
    requires WellFormed(q) && IntOperand(q, e)
    ensures TypeOf(q, e) == VInt && Eval(q, e, ctx).value == Kept(Number(q, e, ctx))
  {
  }

  /** The comparisons the machine gets right: numbers on the same side of 2^63, and beyond that
      equalities of numbers that are not exactly 2^64 apart, and orders of numbers further apart
      than 2^64 or, for one strictness of each direction, just 2^64. */
  predicate ComparesRight(op: CmpOp, x: int, y: int) {
    var gap := if x < y then y - x else x - y;
    || (x < 0x8000_0000_0000_0000 <==> y < 0x8000_0000_0000_0000)
    || gap > 0x1_0000_0000_0000_0000
    || (gap < 0x1_0000_0000_0000_0000 && (op == Eq || op == Ne))
    || (gap == 0x1_0000_0000_0000_0000 && if x > y then op == Ge || op == Lt else op == Le || op == Gt)
  }

  lemma KeptComparison(op: CmpOp, x: int, y: int)
    requires -0x8000_0000_0000_0000 <= x < 0x1_0000_0000_0000_0000
    requires -0x8000_0000_0000_0000 <= y < 0x1_0000_0000_0000_0000
    ensures Holds(op, Kept(x), Kept(y)) == Holds(op, x, y) <==> ComparesRight(op, x, y)
  {
  }

  /** A compiled comparison of integer fields or literals returns the comparison of the numbers they
      stand for if and only if it is one the machine gets right. */
  lemma ComparisonExactlyWhen(q: Qualifiers, op: CmpOp, l: Expr, r: Expr, ctx: Context)
    requires WellFormed(q) && IntOperand(q, l) && IntOperand(q, r) && GenProgram(q, Compare(op, l, r)).Ok?
    ensures var x, y := Number(q, l, ctx), Number(q, r, ctx);
      Returns(GenProgram(q, Compare(op, l, r)).value, ctx, Holds(op, x, y)) <==> ComparesRight(op, x, y)
  {
    hide GenProgram, WellFormed, Steps, Holds, Kept, IntOperand, Number, ComparesRight;
    CompiledComputes(q, Compare(op, l, r), ctx);
    NumberKept(q, l, ctx);
    NumberKept(q, r, ctx);
    EvalCompare(q, op, l, r, ctx);
    KeptComparison(op, Number(q, l, ctx), Number(q, r, ctx));
  }

  /** Two unsigned 64-bit fields are compared as the numbers they hold if and only if the operator
      is an equality or the numbers are on the same side of 2^63. */
  lemma UnsignedComparisonExactlyWhen(q: Qualifiers, op: CmpOp, m: string, n: string, ctx: Context)
    requires WellFormed(q) && m in q && n in q && q[m].ty == U64 == q[n].ty
    requires GenProgram(q, Compare(op, Ident(m), Ident(n))).Ok?
    ensures var x, y := Unsigned(q[m], ctx), Unsigned(q[n], ctx);
      Returns(GenProgram(q, Compare(op, Ident(m), Ident(n))).value, ctx, Holds(op, x, y)) <==>
      op == Eq || op == Ne || (x < 0x8000_0000_0000_0000 <==> y < 0x8000_0000_0000_0000)
  {
    hide GenProgram, WellFormed, Returns, Holds, Unsigned;
    UnsignedNumber(q, m, ctx);
    UnsignedNumber(q, n, ctx);
    ComparisonExactlyWhen(q, op, Ident(m), Ident(n), ctx);
  }

  lemma UnsignedNumber(q: Qualifiers, n: string, ctx: Context)
    requires n in q && q[n].ty == U64
    ensures IntOperand(q, Ident(n)) && Number(q, Ident(n), ctx) == Unsigned(q[n], ctx)
  {
  }

  /** Integer comparisons with a literal compile wherever the field can be loaded. */
  lemma LiteralComparisonCompiles(q: Qualifiers, op: CmpOp, n: string, v: int64)
    requires n in q && TypeOf(q, Ident(n)) == VInt && FitsI32(q[n].offset)
    ensures GenProgram(q, Compare(op, Ident(n), Integer(v))).Ok?
  {
    var l, r := Ident(n), Integer(v);
    assert TypeOf(q, l) == VInt == TypeOf(q, r) && TypeOf(q, Compare(op, l, r)) == VBool;
    assert Compilable(q, l, 0) && Compilable(q, r, Size(q, l)) && Need(q, l) == 1 == Need(q, r);
    CompareConditions(q, op, l, r, 0);
    CompilesExactlyWhen(q, Compare(op, l, r));
    hide GenProgram;
  }

  /** The test that every unsigned number passes. */
  function IsNonNegative(n: string): Expr {
    Compare(Ge, Ident(n), Integer(0))
  }

  /** An unsigned 64-bit field of 2^63 or more is found to be negative. */
  lemma LargeUnsignedDiffers(q: Qualifiers, n: string, ctx: Context)
    requires WellFormed(q) && n in q && q[n].ty == U64 && FitsI32(q[n].offset)
    requires Unsigned(q[n], ctx) >= 0x8000_0000_0000_0000
    ensures !ReturnsMeaning(q, IsNonNegative(n), ctx, Exact)
  {
    hide GenProgram, WellFormed, Returns, Unsigned;
    LiteralComparisonCompiles(q, Ge, n, 0);
    UnsignedNumber(q, n, ctx);
    ComparisonExactlyWhen(q, Ge, Ident(n), Integer(0), ctx);
  }

  /** An unsigned 64-bit field holding its largest number is found equal to -1. */
  lemma LargestUnsignedEqualsMinusOne(q: Qualifiers, n: string, ctx: Context)
    requires WellFormed(q) && n in q && q[n].ty == U64 && FitsI32(q[n].offset)
    requires Unsigned(q[n], ctx) == 0xffff_ffff_ffff_ffff
    ensures var p := GenProgram(q, Compare(Eq, Ident(n), Integer(-1))); p.Ok? && Returns(p.value, ctx, true)
  {
    hide GenProgram, WellFormed, Steps, Unsigned, Number, IntOperand;
    LiteralComparisonCompiles(q, Eq, n, -1);
    UnsignedNumber(q, n, ctx);
    NumberKept(q, Ident(n), ctx);
    EvalCompare(q, Eq, Ident(n), Integer(-1), ctx);
    CompiledComputes(q, Compare(Eq, Ident(n), Integer(-1)), ctx);
  }

  /** So in particular for one field at offset 0 of a context of bytes 0xff. */
  lemma AllOnesEqualMinusOne()
    ensures var q, ctx: Context := map["u" := QualifierInfo(0, 8, U64)], _ => 0xff;
      && Unsigned(q["u"], ctx) == 0xffff_ffff_ffff_ffff
      && var p := GenProgram(q, Compare(Eq, Ident("u"), Integer(-1)));
         p.Ok? && Returns(p.value, ctx, true)
  {
    hide GenProgram, Returns, LE;
    var q, ctx: Context := map["u" := QualifierInfo(0, 8, U64)], _ => 0xff;
    AllOnes(FieldBytes(ctx, 0, 8));
    Pow256Values();
    LargestUnsignedEqualsMinusOne(q, "u", ctx);
  }

  lemma {:induction false} AllOnes(bs: seq<byte>)
    requires forall i :: 0 <= i < |bs| ==> bs[i] == 0xff
    ensures LE(bs) == Pow256(|bs|) - 1
  {
    if bs != [] {
      AllOnes(bs[1..]);
    }
  }

  // ----- all programs -----

  /** Every program over a registry has its typed meaning in a context if and only if the context is
      normal: the boolean fields that can be loaded hold 0 or 1 and, where unsigned 64-bit fields
      mean the numbers they hold, those that can be loaded hold less than 2^63. */
  lemma MeaningExactlyInNormalContexts(q: Qualifiers, ctx: Context, reading: Reading)
    requires WellFormed(q)
    ensures Normal(q, ctx, reading) <==> forall root: Expr :: ReturnsMeaning(q, root, ctx, reading)
  {
    hide ReturnsMeaning, WellFormed;
    if Normal(q, ctx, reading) {
      forall root: Expr ensures ReturnsMeaning(q, root, ctx, reading) {
        NormalContextReturnsMeaning(q, root, ctx, reading);
      }
    } else if !NormalBools(q, ctx) {
      var n :| n in q && q[n].ty == BoolT && FitsI32(q[n].offset) && ctx(q[n].offset) > 1;
      OddBooleanDiffers(q, n, ctx, reading);
    } else {
      var n :| n in q && q[n].ty == U64 && FitsI32(q[n].offset) && Unsigned(q[n], ctx) >= 0x8000_0000_0000_0000;
      LargeUnsignedDiffers(q, n, ctx);
    }
  }
}
