/** The meaning of an expression: the 64-bit value of its tree and the field reads made on the
    way, with short-circuit logical operators. Nothing here knows of registers or slots. */
module Semantics {
  import opened Words
  import opened Registry
  import opened Ast
  import opened CodeGen
  import opened Conditions
  import opened Vm

  /** A value and the field reads that produced it, in order. */
  datatype Evaluation = Evaluation(value: int64, trace: seq<FieldRead>)

  /** The number a field's bytes stand for: two's complement for the signed types, unsigned for
      the others. An unsigned 64-bit number is reduced to the signed range modulo 2^64. */
  function FieldValue(ty: FieldType, bs: seq<byte>): int64
    requires |bs| == TypeSize(ty)
  {
    LEBound(bs); SignedLEValue(bs); Pow256Values();
    match ty
    case I8 => SignedLE(bs)
    case I16 => SignedLE(bs)
    case I32 => SignedLE(bs)
    case I64 => SignedLE(bs)
    case U64 => ToI64(LE(bs))
    case Ipv6T => 0
    case _ => LE(bs)
  }

  function EvalField(info: QualifierInfo, ctx: Context): Evaluation {
    Evaluation(FieldValue(info.ty, FieldBytes(ctx, info.offset, TypeSize(info.ty))),
               [FieldRead(info.offset, info.size, IsSigned(info.ty))])
  }

  /** A value as a truth value: integers are compared with 0, booleans are taken as they are. */
  function AsBool(ty: ValueType, v: int64): int64 {
    if ty == VInt then Truth(v != 0) else v
  }

  predicate Holds(op: CmpOp, x: int, y: int) {
    match op
    case Eq => x == y
    case Ne => x != y
    case Gt => x > y
    case Lt => x < y
    case Ge => x >= y
    case Le => x <= y
  }

  /** The 16 bytes of an IPv6 operand. */
  function Ipv6Bytes(q: Qualifiers, e: Expr, ctx: Context): seq<byte> {
    match e
    case Ident(n) => if n in q then FieldBytes(ctx, q[n].offset, 16) else []
    case Ipv6(a) => if a.Some? then a.value else []
    case _ => []
  }

  /** A field is read in two halves; a literal is not read. */
  ghost function Ipv6Reads(q: Qualifiers, e: Expr): seq<FieldRead>
    requires WellFormed(q)
  {
    if Ipv6Operand(q, e) && e.Ident? then
      var offset := q[e.name].offset;
      assert ValidInfo(q[e.name]);
      [FieldRead(offset, 8, false), FieldRead(offset + 8, 8, false)]
    else []
  }

  ghost function Eval(q: Qualifiers, e: Expr, ctx: Context): Evaluation
    requires WellFormed(q)
    decreases Nodes(e), 0
  {
    match e
    case Ident(n) => if n in q then EvalField(q[n], ctx) else Evaluation(0, [])
    case Integer(v) => Evaluation(v, [])
    case Boolean(b) => Evaluation(Truth(b), [])
    case Ipv4(a) =>
      if a.Some? then (LEBound(a.value); Pow256Values(); Evaluation(LE(a.value), [])) else Evaluation(0, [])
    case Not(x) =>
      var v := EvalBool(q, x, ctx);
      Evaluation(Truth(v.value == 0), v.trace)
    case And(l, r) =>
      var x := EvalBool(q, l, ctx);
      if x.value == 0 then Evaluation(0, x.trace) else
        var y := EvalBool(q, r, ctx);
        Evaluation(y.value, x.trace + y.trace)
    case Or(l, r) =>
      var x := EvalBool(q, l, ctx);
      if x.value != 0 then Evaluation(1, x.trace) else
        var y := EvalBool(q, r, ctx);
        Evaluation(y.value, x.trace + y.trace)
    case Compare(op, l, r) =>
      if TypeOf(q, l) == VIpv6 then
        var same := Ipv6Bytes(q, l, ctx) == Ipv6Bytes(q, r, ctx);
        Evaluation(Truth(if op == Eq then same else !same), Ipv6Reads(q, l) + Ipv6Reads(q, r))
      else
        var x, y := Eval(q, l, ctx), Eval(q, r, ctx);
        var (a, b) := Coerced(TypeOf(q, l), x.value, TypeOf(q, r), y.value);
        Evaluation(Truth(Holds(op, a, b)), x.trace + y.trace)
    case Bits(op, l, r) =>
      var x, y := Eval(q, l, ctx), Eval(q, r, ctx);
      Evaluation(if op == BitAnd then AndI64(x.value, y.value) else OrI64(x.value, y.value), x.trace + y.trace)
    case _ => Evaluation(0, [])
  }

  /** A boolean compared with an integer is compared with the integer's truth value. */
  function Coerced(lt: ValueType, x: int64, rt: ValueType, y: int64): (int64, int64) {
    if lt == VBool && rt == VInt then (x, AsBool(VInt, y))
    else if lt == VInt && rt == VBool then (AsBool(VInt, x), y)
    else (x, y)
  }

  /** An operand of a logical operator. */
  ghost function EvalBool(q: Qualifiers, e: Expr, ctx: Context): Evaluation
    requires WellFormed(q)
    decreases Nodes(e), 1
  {
    var v := Eval(q, e, ctx);
    Evaluation(AsBool(TypeOf(q, e), v.value), v.trace)
  }

  /** The machine's loads compute the numbers the fields stand for. */
  lemma LoadsFieldValue(info: QualifierInfo, ctx: Context)
    requires ValidInfo(info) && info.ty != Ipv6T
    ensures ValidSize(info.size)
    ensures LoadValue(ctx, info.offset, info.size, IsSigned(info.ty)) == EvalField(info, ctx).value
  {
    var bs := FieldBytes(ctx, info.offset, info.size);
    hide LE, SignedLE, FieldBytes, SignExtend;
    LEBound(bs); Pow256Values();
    if IsSigned(info.ty) {
      SignExtendsBytes(bs);
    }
  }

  /** The casts to a narrower signed type and back give the two's-complement number. */
  lemma SignExtendsBytes(bs: seq<byte>)
    requires |bs| == 1 || |bs| == 2 || |bs| == 4 || |bs| == 8
    ensures LE(bs) < 0x1_0000_0000_0000_0000 && SignExtend(LE(bs), |bs|) == SignedLE(bs)
  {
    hide LE, SignedLE, Pow256, SignExtend;
    LEBound(bs); SignedLEValue(bs); Pow256Values();
    SignExtendIs(LE(bs), |bs|);
  }

  lemma SignExtendIs(raw: uint64, size: byte)
    requires ValidSize(size) && raw < Pow256(size)
    ensures SignExtend(raw, size) == if 2 * raw < Pow256(size) then raw else raw - Pow256(size)
  {
    hide Pow256, Narrow;
    Pow256Values();
    if size == 1 {
      assert raw % 0x100 == raw;
      NarrowIs(raw, 0x100);
    } else if size == 2 {
      assert raw % 0x1_0000 == raw;
      NarrowIs(raw, 0x1_0000);
    } else if size == 4 {
      assert raw % 0x1_0000_0000 == raw;
      NarrowIs(raw, 0x1_0000_0000);
    }
  }

  lemma NarrowIs(raw: nat, modulus: nat)
    requires raw < modulus <= 0x1_0000_0000
    ensures Narrow(raw, modulus) == if 2 * raw < modulus then raw else raw - modulus
  {
  }

  // ----- addresses -----

  /** The 4 bytes of an IPv4 operand, which is a field or a literal. */
  function Ipv4Bytes(q: Qualifiers, e: Expr, ctx: Context): seq<byte> {
    match e
    case Ident(n) => if n in q then FieldBytes(ctx, q[n].offset, 4) else []
    case Ipv4(a) => if a.Some? then a.value else []
    case _ => []
  }

  lemma Ipv4Value(q: Qualifiers, e: Expr, ctx: Context)
    requires WellFormed(q) && WellTyped(q, e) && TypeOf(q, e) == VIpv4
    ensures |Ipv4Bytes(q, e, ctx)| == 4 && Eval(q, e, ctx).value == LE(Ipv4Bytes(q, e, ctx))
  {
  }

  /** IPv4 comparisons decide equality of the 4 bytes. */
  lemma Ipv4CompareDecidesEquality(q: Qualifiers, op: CmpOp, l: Expr, r: Expr, ctx: Context)
    requires WellFormed(q) && WellTyped(q, Compare(op, l, r)) && TypeOf(q, l) == VIpv4
    ensures var same := Ipv4Bytes(q, l, ctx) == Ipv4Bytes(q, r, ctx);
      Eval(q, Compare(op, l, r), ctx).value == Truth(if op == Eq then same else !same)
  {
    CompareTyped(q, op, l, r);
    Ipv4Value(q, l, ctx);
    Ipv4Value(q, r, ctx);
    LEInjective(Ipv4Bytes(q, l, ctx), Ipv4Bytes(q, r, ctx));
    hide WellFormed, WellTyped, Ipv4Bytes;
  }

  // ----- field reads -----

  /** A read of exactly a registered field, or of one half of an IPv6 field, within 32-bit
      addresses. */
  predicate ReadsField(info: QualifierInfo, r: FieldRead) {
    && r.offset + r.size <= UINT32_MAX
    && if info.ty == Ipv6T then
         r.size == 8 && !r.signed && (r.offset == info.offset || r.offset == info.offset + 8)
       else
         r == FieldRead(info.offset, TypeSize(info.ty), IsSigned(info.ty))
  }

  ghost predicate ReadConfined(q: Qualifiers, r: FieldRead) {
    exists n :: n in q && ReadsField(q[n], r)
  }

  ghost predicate ReadsConfined(q: Qualifiers, trace: seq<FieldRead>) {
    forall i :: 0 <= i < |trace| ==> ReadConfined(q, trace[i])
  }

  lemma Ipv6ReadsConfined(q: Qualifiers, e: Expr)
    requires WellFormed(q)
    ensures ReadsConfined(q, Ipv6Reads(q, e))
  {
    if Ipv6Operand(q, e) && e.Ident? {
      assert ValidInfo(q[e.name]);
      assert forall i :: 0 <= i < |Ipv6Reads(q, e)| ==> ReadsField(q[e.name], Ipv6Reads(q, e)[i]);
    }
  }

  /** Evaluation reads only registered fields. */
  lemma {:induction false} EvalReadsConfined(q: Qualifiers, e: Expr, ctx: Context)
    requires WellFormed(q) && WellTyped(q, e)
    ensures ReadsConfined(q, Eval(q, e, ctx).trace)
    decreases Nodes(e)
  {
    hide WellFormed, ReadsField, ReadsConfined, EvalField, Ipv6Reads, Ipv6Bytes;
    hide AndI64, OrI64, Coerced, AsBool, Ipv6Operand;
    match e
    case Ident(n) => FieldReadConfined(q, n, ctx);
    case Not(x) => EvalReadsConfined(q, x, ctx);
    case And(l, r) => BothReadsConfined(q, l, r, ctx);
    case Or(l, r) => BothReadsConfined(q, l, r, ctx);
    case Compare(op, l, r) =>
      if TypeOf(q, l) == VIpv6 {
        Ipv6ReadsConfined(q, l);
        Ipv6ReadsConfined(q, r);
        JoinConfined(q, Ipv6Reads(q, l), Ipv6Reads(q, r));
      } else {
        CompareOperands(q, op, l, r);
        BothReadsConfined(q, l, r, ctx);
      }
    case Bits(_, l, r) => BothReadsConfined(q, l, r, ctx);
    case _ => NoReadsConfined(q);
  }

  lemma {:induction false} BothReadsConfined(q: Qualifiers, l: Expr, r: Expr, ctx: Context)
    requires WellFormed(q) && WellTyped(q, l) && WellTyped(q, r)
    ensures ReadsConfined(q, Eval(q, l, ctx).trace)
    ensures ReadsConfined(q, Eval(q, l, ctx).trace + Eval(q, r, ctx).trace)
    decreases Nodes(l) + Nodes(r)
  {
    hide WellFormed, WellTyped, Eval, ReadsConfined;
    EvalReadsConfined(q, l, ctx);
    EvalReadsConfined(q, r, ctx);
    JoinConfined(q, Eval(q, l, ctx).trace, Eval(q, r, ctx).trace);
  }

  lemma JoinConfined(q: Qualifiers, a: seq<FieldRead>, b: seq<FieldRead>)
    requires ReadsConfined(q, a) && ReadsConfined(q, b)
    ensures ReadsConfined(q, a + b)
  {
    hide ReadConfined;
  }

  lemma NoReadsConfined(q: Qualifiers)
    ensures ReadsConfined(q, [])
  {
  }

  lemma FieldReadConfined(q: Qualifiers, n: string, ctx: Context)
    requires WellFormed(q) && WellTyped(q, Ident(n))
    ensures ReadsConfined(q, EvalField(q[n], ctx).trace)
  {
    assert ValidInfo(q[n]);
    assert ReadsField(q[n], EvalField(q[n], ctx).trace[0]);
  }

  lemma CompareOperands(q: Qualifiers, op: CmpOp, l: Expr, r: Expr)
    requires WellTyped(q, Compare(op, l, r)) && TypeOf(q, l) != VIpv6
    ensures TypeOf(q, r) != VIpv6 && WellTyped(q, l) && WellTyped(q, r)
    ensures TypeOf(q, l) == VIpv4 || TypeOf(q, r) == VIpv4 ==> TypeOf(q, l) == TypeOf(q, r) && (op == Eq || op == Ne)
  {
    Ipv6OperandType(q, l);
  }

  lemma Ipv6OperandType(q: Qualifiers, e: Expr)
    ensures Ipv6Operand(q, e) ==> TypeOf(q, e) == VIpv6
  {
  }
}
