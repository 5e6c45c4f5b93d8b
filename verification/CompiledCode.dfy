/** What every compiled program looks like: instructions the verifier accepts, jumps that only
    go forward, and field loads confined to registered fields. */
module CompiledCode {
  import opened Words
  import opened Common
  import opened Bytecode
  import opened Registry
  import opened Ast
  import opened Allocator
  import opened CodeGen
  import opened Conditions
  import opened Vm
  import opened Verifier
  import opened Correctness

  /** A load of exactly a registered field, or of one half of an IPv6 field. */
  predicate LoadsField(info: QualifierInfo, i: Instruction) {
    if info.ty == Ipv6T then
      i.b == 8 && i.c == 0 && (i.aux == info.offset || i.aux == info.offset + 8)
    else
      i.aux == info.offset && i.b == TypeSize(info.ty) && i.c == if IsSigned(info.ty) then 1 else 0
  }

  ghost predicate Confined(q: Qualifiers, i: Instruction) {
    exists n :: n in q && LoadsField(q[n], i)
  }

  /** The instruction at `i` is sound, goes forward if it jumps, and loads a field if it loads. */
  ghost predicate Good(q: Qualifiers, p: Program, i: nat)
    requires i < |p.code|
  {
    && Sound(p, i)
    && (IsJump(p.code[i].op) ==> i < p.code[i].AuxI32())
    && (p.code[i].op == LOAD_FIELD ==> Confined(q, p.code[i]))
  }

  /** Instructions start at `a` and at `b`, and all those in between are good. */
  ghost predicate Segment(q: Qualifiers, p: Program, a: nat, b: nat) {
    && a <= b <= |p.code| && IsStart(p.code, a) && IsStart(p.code, b)
    && forall i :: a <= i < b && IsStart(p.code, i) ==> Good(q, p, i)
  }

  lemma SegmentTrans(q: Qualifiers, p: Program, a: nat, b: nat, c: nat)
    requires Segment(q, p, a, b) && Segment(q, p, b, c)
    ensures Segment(q, p, a, c)
  {
    hide IsStart, Good;
  }

  lemma SegmentFour(q: Qualifiers, p: Program, a: nat, b: nat, c: nat, d: nat, e: nat)
    requires Segment(q, p, a, b) && Segment(q, p, b, c) && Segment(q, p, c, d) && Segment(q, p, d, e)
    ensures Segment(q, p, a, e)
  {
    hide Segment;
    SegmentTrans(q, p, a, b, c);
    SegmentTrans(q, p, a, c, d);
    SegmentTrans(q, p, a, d, e);
  }

  lemma StartAfter(p: Program, pos: nat, i: Instruction)
    requires At(p, pos, [i]) && IsStart(p.code, pos) && Slots(i.op) == 1
    ensures IsStart(p.code, pos + 1)
  {
    AtOne(p, pos, i);
    NextStart(p.code, pos);
  }

  /** One good instruction of one slot. */
  lemma SegmentOne(q: Qualifiers, p: Program, pos: nat, i: Instruction)
    requires At(p, pos, [i]) && IsStart(p.code, pos) && Slots(i.op) == 1
    requires pos < |p.code| && Good(q, p, pos)
    ensures Segment(q, p, pos, pos + 1)
  {
    hide IsStart, Good;
    StartAfter(p, pos, i);
  }

  lemma SegmentImm(q: Qualifiers, p: Program, pos: nat, d: byte, v: int64)
    requires At(p, pos, MakeLoadImm(d, v)) && IsStart(p.code, pos) && d < p.registerCount
    ensures Segment(q, p, pos, pos + 2)
  {
    hide DataSlot, IsStart;
    AtFirst(p, pos, Ins(LOAD_IMM, d, 0, 0, 0), [DataSlot(v)]);
    AtOne(p, pos + 1, DataSlot(v));
    NextStart(p.code, pos);
    assert forall i :: pos <= i < pos + 2 && i != pos ==> pos < i < pos + 2 && !IsStart(p.code, i);
  }

  lemma SegmentLoad(q: Qualifiers, p: Program, pos: nat, d: byte, offset: uint32, size: byte, sign: byte, n: string)
    requires At(p, pos, [Ins(LOAD_FIELD, d, size, sign, offset)]) && IsStart(p.code, pos) && d < p.registerCount
    requires ValidSize(size) && sign <= 1 && n in q && LoadsField(q[n], Instruction(LOAD_FIELD, d, size, sign, offset))
    ensures Segment(q, p, pos, pos + 1)
  {
    hide IsStart;
    var i := Ins(LOAD_FIELD, d, size, sign, offset);
    AtOne(p, pos, i);
    assert i == Instruction(LOAD_FIELD, d, size, sign, offset);
    SegmentOne(q, p, pos, i);
  }

  lemma SegmentBinary(q: Qualifiers, p: Program, pos: nat, op: byte, d: byte, a: byte, b: byte)
    requires At(p, pos, [Ins(op, d, a, b, 0)]) && IsStart(p.code, pos) && (IsCompare(op) || op == AND || op == OR)
    requires d < p.registerCount && a < p.registerCount && b < p.registerCount
    ensures Segment(q, p, pos, pos + 1)
  {
    hide IsStart;
    AtOne(p, pos, Ins(op, d, a, b, 0));
    SegmentOne(q, p, pos, Ins(op, d, a, b, 0));
  }

  lemma SegmentUnary(q: Qualifiers, p: Program, pos: nat, op: byte, d: byte, a: byte)
    requires At(p, pos, [Ins(op, d, a, 0, 0)]) && IsStart(p.code, pos) && (op == MOVE || op == NOT || op == RET)
    requires d < p.registerCount && a < p.registerCount
    ensures Segment(q, p, pos, pos + 1)
  {
    hide IsStart;
    AtOne(p, pos, Ins(op, d, a, 0, 0));
    SegmentOne(q, p, pos, Ins(op, d, a, 0, 0));
  }

  /** A jump to a later start. */
  lemma SegmentJump(q: Qualifiers, p: Program, pos: nat, op: byte, a: byte, target: nat)
    requires FitsI32(target) && At(p, pos, [Ins(op, a, 0, 0, target)]) && IsStart(p.code, pos) && IsJump(op)
    requires pos < target <= |p.code| && IsStart(p.code, target) && (op == JUMP_IF_FALSE ==> a < p.registerCount)
    ensures Segment(q, p, pos, pos + 1)
  {
    hide IsStart;
    AtOne(p, pos, Ins(op, a, 0, 0, target));
    AuxRoundTrip(op, a, 0, 0, target);
    SegmentOne(q, p, pos, Ins(op, a, 0, 0, target));
  }

  // ----- pieces of generated code -----

  /** A fragment placed where an instruction starts. */
  ghost predicate Ready(p: Program, pos: nat, f: Frag) {
    Placed(p, pos, f) && pos <= |p.code| && IsStart(p.code, pos)
  }

  lemma ImmSegment(q: Qualifiers, v: int64, ty: ValueType, p: Program, pos: nat, ra: Alloc)
    requires ValidAlloc(ra) && GenImm(v, ty, ra).Ok? && Ready(p, pos, GenImm(v, ty, ra).value)
    ensures Segment(q, p, pos, pos + 2) && |GenImm(v, ty, ra).value.code| == 2
  {
    hide IsStart, At, DataSlot, Ins;
    TakeAddsOne(ra);
    SegmentImm(q, p, pos, Taken(ra), v);
  }

  lemma BinarySegment(q: Qualifiers, op: byte, ty: ValueType, a: byte, b: byte, p: Program, pos: nat, ra: Alloc)
    requires BinaryReady(op, a, b, ra) && GenBinary(op, ty, a, b, ra).Ok?
    requires Ready(p, pos, GenBinary(op, ty, a, b, ra).value)
    ensures Segment(q, p, pos, pos + 1) && |GenBinary(op, ty, a, b, ra).value.code| == 1
  {
    hide IsStart, At, Ins;
    TakeAddsOne(ra);
    SegmentBinary(q, p, pos, op, Taken(ra), a, b);
  }

  lemma NegateSegment(q: Qualifiers, a: byte, p: Program, pos: nat, ra: Alloc)
    requires ValidAlloc(ra) && Live(ra, a) && GenNegate(a, ra).Ok? && Ready(p, pos, GenNegate(a, ra).value)
    ensures Segment(q, p, pos, pos + 1) && |GenNegate(a, ra).value.code| == 1
  {
    hide IsStart, At, Ins;
    TakeAddsOne(ra);
    SegmentUnary(q, p, pos, NOT, Taken(ra), a);
  }

  lemma LoadSegment(
    q: Qualifiers, n: string, offset: uint32, size: byte, sign: byte, ty: ValueType, p: Program, pos: nat, ra: Alloc)
    requires ValidAlloc(ra) && ValidSize(size) && sign <= 1 && GenLoad(offset, size, sign, ty, ra).Ok?
    requires n in q && forall d: byte :: LoadsField(q[n], Instruction(LOAD_FIELD, d, size, sign, offset))
    requires Ready(p, pos, GenLoad(offset, size, sign, ty, ra).value)
    ensures Segment(q, p, pos, pos + 1) && |GenLoad(offset, size, sign, ty, ra).value.code| == 1
  {
    hide IsStart, At, Ins, LoadsField;
    TakeAddsOne(ra);
    SegmentLoad(q, p, pos, Taken(ra), offset, size, sign, n);
  }

  lemma EnsureBoolSegment(q: Qualifiers, v: byte, ty: ValueType, p: Program, pos: nat, ra: Alloc)
    requires ValidAlloc(ra) && Live(ra, v) && EnsureBool(v, ty, ra).Ok? && Ready(p, pos, EnsureBool(v, ty, ra).value)
    ensures Segment(q, p, pos, pos + |EnsureBool(v, ty, ra).value.code|)
  {
    hide IsStart, At, GenImm, GenBinary, Good;
    if ty == VInt {
      ImmShape(0, VInt, ra);
      var z := GenImm(0, VInt, ra).value;
      var c := GenBinary(CMP_NE, VBool, v, z.dst, z.ra).value;
      BinarySize(CMP_NE, VBool, v, z.dst, z.ra);
      AtSplit(p, pos, z.code, c.code);
      ImmSegment(q, 0, VInt, p, pos, ra);
      BinarySegment(q, CMP_NE, VBool, v, z.dst, p, pos + 2, z.ra);
      SegmentTrans(q, p, pos, pos + 2, pos + 3);
    }
  }

  lemma Ipv6ValueSegment(q: Qualifiers, e: Expr, p: Program, pos: nat, ra: Alloc)
    requires WellFormed(q) && ValidAlloc(ra) && GenIpv6Value(q, e, ra).Ok?
    requires var v := GenIpv6Value(q, e, ra).value;
      At(p, pos, v.code) && v.ra.next <= p.registerCount && pos <= |p.code| && IsStart(p.code, pos)
    ensures Segment(q, p, pos, pos + |GenIpv6Value(q, e, ra).value.code|)
  {
    hide IsStart, At, GenIpv6Ident, GenIpv6Literal, Segment;
    match e
    case Ident(n) => Ipv6IdentSegment(q, n, p, pos, ra);
    case Ipv6(a) =>
      assert a.Some? by { GenOfBadLiteral(ra); }
      Ipv6LiteralSegment(q, a.value, p, pos, ra);
  }

  lemma Ipv6IdentSegment(q: Qualifiers, n: string, p: Program, pos: nat, ra: Alloc)
    requires WellFormed(q) && ValidAlloc(ra) && GenIpv6Ident(q, n, ra).Ok?
    requires var v := GenIpv6Ident(q, n, ra).value;
      At(p, pos, v.code) && v.ra.next <= p.registerCount && pos <= |p.code| && IsStart(p.code, pos)
    ensures Segment(q, p, pos, pos + |GenIpv6Ident(q, n, ra).value.code|)
  {
    hide GenIpv6Ident, GenLoad, IsStart, At, Good, WellFormed;
    Ipv6IdentParts(q, n, ra);
    var offset := q[n].offset;
    var hi := GenLoad(offset, 8, 0, VInt, ra).value;
    var lo := GenLoad(offset + 8, 8, 0, VInt, hi.ra).value;
    AtSplit(p, pos, hi.code, lo.code);
    LoadSegment(q, n, offset, 8, 0, VInt, p, pos, ra);
    LoadSegment(q, n, offset + 8, 8, 0, VInt, p, pos + 1, hi.ra);
    SegmentTrans(q, p, pos, pos + 1, pos + 2);
  }

  lemma Ipv6LiteralSegment(q: Qualifiers, addr: Bytes16, p: Program, pos: nat, ra: Alloc)
    requires ValidAlloc(ra) && GenIpv6Literal(Some(addr), ra).Ok?
    requires var v := GenIpv6Literal(Some(addr), ra).value;
      At(p, pos, v.code) && v.ra.next <= p.registerCount && pos <= |p.code| && IsStart(p.code, pos)
    ensures Segment(q, p, pos, pos + |GenIpv6Literal(Some(addr), ra).value.code|)
  {
    hide GenImm, IsStart, At, Good, ToI64, Word64;
    var h, l := ToI64(Word64(addr[..8])), ToI64(Word64(addr[8..]));
    ImmShape(h, VInt, ra);
    var hi := GenImm(h, VInt, ra).value;
    ImmShape(l, VInt, hi.ra);
    var lo := GenImm(l, VInt, hi.ra).value;
    AtSplit(p, pos, hi.code, lo.code);
    ImmSegment(q, h, VInt, p, pos, ra);
    ImmSegment(q, l, VInt, p, pos + 2, hi.ra);
    SegmentTrans(q, p, pos, pos + 2, pos + 4);
  }

  lemma HalvesSegment(q: Qualifiers, lp: Pair, rp: Pair, p: Program, pos: nat, ra: Alloc)
    requires ValidAlloc(ra) && AddsTwo(ra, lp) && AddsTwo(lp.ra, rp) && GenHalves(lp, rp).Ok?
    requires var h := GenHalves(lp, rp).value;
      At(p, pos, h.code) && h.ra.next <= p.registerCount && pos <= |p.code| && IsStart(p.code, pos)
    ensures Segment(q, p, pos, pos + |GenHalves(lp, rp).value.code|)
  {
    hide IsStart, At, GenBinary, Good;
    HighShape(lp, rp, ra);
    var hi := GenBinary(CMP_EQ, VBool, lp.hi, rp.hi, rp.ra).value;
    var lo := GenBinary(CMP_EQ, VBool, lp.lo, rp.lo, hi.ra).value;
    BinarySize(CMP_EQ, VBool, lp.hi, rp.hi, rp.ra);
    BinarySize(CMP_EQ, VBool, lp.lo, rp.lo, hi.ra);
    AtSplit(p, pos, hi.code, lo.code);
    BinarySegment(q, CMP_EQ, VBool, lp.hi, rp.hi, p, pos, rp.ra);
    BinarySegment(q, CMP_EQ, VBool, lp.lo, rp.lo, p, pos + 1, hi.ra);
    SegmentTrans(q, p, pos, pos + 1, pos + 2);
  }

  lemma BothSegment(q: Qualifiers, op: CmpOp, h: Pair, p: Program, pos: nat, ra: Alloc)
    requires ValidAlloc(ra) && LeavesTwo(ra, h) && GenBoth(op, h).Ok? && Ready(p, pos, GenBoth(op, h).value)
    ensures Segment(q, p, pos, pos + |GenBoth(op, h).value.code|)
  {
    hide IsStart, At, GenBinary, GenNegate, Good;
    BinaryShape(AND, VBool, h.hi, h.lo, h.ra);
    BinarySize(AND, VBool, h.hi, h.lo, h.ra);
    var both := GenBinary(AND, VBool, h.hi, h.lo, h.ra).value;
    if op == Eq {
      BinarySegment(q, AND, VBool, h.hi, h.lo, p, pos, h.ra);
    } else {
      NegateSize(both.dst, both.ra);
      AtSplit(p, pos, both.code, GenNegate(both.dst, both.ra).value.code);
      BinarySegment(q, AND, VBool, h.hi, h.lo, p, pos, h.ra);
      NegateSegment(q, both.dst, p, pos + 1, both.ra);
      SegmentTrans(q, p, pos, pos + 1, pos + 2);
    }
  }

  lemma Ipv6CompareSegment(q: Qualifiers, op: CmpOp, l: Expr, r: Expr, p: Program, pos: nat, ra: Alloc)
    requires WellFormed(q) && ValidAlloc(ra) && GenIpv6Compare(q, op, l, r, ra).Ok?
    requires Ready(p, pos, GenIpv6Compare(q, op, l, r, ra).value)
    ensures Segment(q, p, pos, pos + |GenIpv6Compare(q, op, l, r, ra).value.code|)
  {
    hide GenIpv6Value, GenHalves, GenBoth, At, IsStart, Good, WellFormed, ValidAlloc;
    Ipv6OperandsLive(q, l, r, ra);
    var lp := GenIpv6Value(q, l, ra).value;
    var rp := GenIpv6Value(q, r, lp.ra).value;
    var h := GenHalves(lp, rp).value;
    var t := GenBoth(op, h).value;
    BothShape(op, h, ra);
    AtFour(p, pos, lp.code, rp.code, h.code, t.code);
    var p1 := pos + |lp.code|;
    var p2 := p1 + |rp.code|;
    var p3 := p2 + |h.code|;
    Ipv6ValueSegment(q, l, p, pos, ra);
    Ipv6ValueSegment(q, r, p, p1, lp.ra);
    HalvesSegment(q, lp, rp, p, p2, ra);
    BothSegment(q, op, h, p, p3, ra);
    SegmentFour(q, p, pos, p1, p2, p3, p3 + |t.code|);
  }

  // ----- expressions -----

  /** Every instruction of an expression's code is good, by induction on the tree. */
  lemma {:induction false} GenSegment(q: Qualifiers, e: Expr, p: Program, pos: nat, ra: Alloc)
    requires WellFormed(q) && ValidAlloc(ra) && Gen(q, e, pos, ra).Ok? && Ready(p, pos, Gen(q, e, pos, ra).value)
    ensures Segment(q, p, pos, pos + |Gen(q, e, pos, ra).value.code|)
    decreases Nodes(e), 0
  {
    hide GenIdent, GenImm, GenIpv4, GenNot, GenAnd, GenOr, GenCompare;
    hide GenBits, At, IsStart, Segment, ValidAlloc, WellFormed;
    match e
    case Ident(n) => IdentSegment(q, n, p, pos, ra);
    case Integer(v) => ImmSegment(q, v, VInt, p, pos, ra);
    case Boolean(b) => ImmSegment(q, Truth(b), VBool, p, pos, ra);
    case Ipv4(a) => Ipv4Segment(q, a, p, pos, ra);
    case Not(x) => NotSegment(q, x, p, pos, ra);
    case And(l, r) => AndSegment(q, l, r, p, pos, ra);
    case Or(l, r) => OrSegment(q, l, r, p, pos, ra);
    case Compare(op, l, r) => CompareSegment(q, op, l, r, p, pos, ra);
    case Bits(op, l, r) => BitsSegment(q, op, l, r, p, pos, ra);
  }

  lemma Ipv4Segment(q: Qualifiers, a: Option<Bytes4>, p: Program, pos: nat, ra: Alloc)
    requires ValidAlloc(ra) && GenIpv4(a, ra).Ok? && Ready(p, pos, GenIpv4(a, ra).value)
    ensures Segment(q, p, pos, pos + |GenIpv4(a, ra).value.code|)
  {
    hide At, IsStart, GenImm, ValidAlloc, Segment;
    LEBound(a.value); Pow256Values();
    ImmSegment(q, LE(a.value), VIpv4, p, pos, ra);
  }

  lemma IdentSegment(q: Qualifiers, n: string, p: Program, pos: nat, ra: Alloc)
    requires WellFormed(q) && ValidAlloc(ra) && GenIdent(q, n, ra).Ok? && Ready(p, pos, GenIdent(q, n, ra).value)
    ensures Segment(q, p, pos, pos + |GenIdent(q, n, ra).value.code|)
  {
    hide At, IsStart, ValidAlloc, Segment, GenLoad;
    assert ValidInfo(q[n]);
    var sign := if IsSigned(q[n].ty) then 1 else 0;
    LoadSegment(q, n, q[n].offset, q[n].size, sign, QualifierType(q[n].ty), p, pos, ra);
  }

  lemma {:induction false} GenBoolSegment(q: Qualifiers, e: Expr, p: Program, pos: nat, ra: Alloc)
    requires WellFormed(q) && ValidAlloc(ra) && GenBool(q, e, pos, ra).Ok?
    requires Ready(p, pos, GenBool(q, e, pos, ra).value)
    ensures Segment(q, p, pos, pos + |GenBool(q, e, pos, ra).value.code|)
    decreases Nodes(e), 1
  {
    hide Gen, EnsureBool, At, IsStart, Good, TypeOf, WellTyped, ValidAlloc, WellFormed;
    GenFrames(q, e, pos, ra);
    var f := Gen(q, e, pos, ra).value;
    EnsureBoolShape(f.dst, f.ty, f.ra);
    var g := EnsureBool(f.dst, f.ty, f.ra).value;
    AtSplit(p, pos, f.code, g.code);
    GenSegment(q, e, p, pos, ra);
    EnsureBoolSegment(q, f.dst, f.ty, p, pos + |f.code|, f.ra);
    SegmentTrans(q, p, pos, pos + |f.code|, pos + |f.code| + |g.code|);
  }

  lemma {:induction false} NotSegment(q: Qualifiers, x: Expr, p: Program, pos: nat, ra: Alloc)
    requires WellFormed(q) && ValidAlloc(ra) && GenNot(q, x, pos, ra).Ok? && Ready(p, pos, GenNot(q, x, pos, ra).value)
    ensures Segment(q, p, pos, pos + |GenNot(q, x, pos, ra).value.code|)
    decreases Nodes(x), 2
  {
    hide GenBool, GenNegate, At, IsStart, Good, Logical, ValidAlloc, WellFormed;
    GenBoolFrames(q, x, pos, ra);
    var f := GenBool(q, x, pos, ra).value;
    NegateSize(f.dst, f.ra);
    AtSplit(p, pos, f.code, GenNegate(f.dst, f.ra).value.code);
    GenBoolSegment(q, x, p, pos, ra);
    NegateSegment(q, f.dst, p, pos + |f.code|, f.ra);
    SegmentTrans(q, p, pos, pos + |f.code|, pos + |f.code| + 1);
  }

  lemma {:induction false} OperandsSegment(q: Qualifiers, l: Expr, r: Expr, p: Program, pos: nat, ra: Alloc)
    requires WellFormed(q) && ValidAlloc(ra) && GenOperands(q, l, r, pos, ra).Ok?
    requires var o := GenOperands(q, l, r, pos, ra).value;
      At(p, pos, o.code) && o.ra.next <= p.registerCount && pos <= |p.code| && IsStart(p.code, pos)
    ensures Segment(q, p, pos, pos + |GenOperands(q, l, r, pos, ra).value.code|)
    decreases Nodes(l) + Nodes(r), 0
  {
    hide Gen, At, IsStart, Good, TypeOf, WellTyped, ValidAlloc, WellFormed;
    GenFrames(q, l, pos, ra);
    var f := Gen(q, l, pos, ra).value;
    var p1 := pos + |f.code|;
    GenFrames(q, r, p1, f.ra);
    var g := Gen(q, r, p1, f.ra).value;
    AtSplit(p, pos, f.code, g.code);
    GenSegment(q, l, p, pos, ra);
    GenSegment(q, r, p, p1, f.ra);
    SegmentTrans(q, p, pos, p1, p1 + |g.code|);
  }

  lemma {:induction false} BitsSegment(q: Qualifiers, op: BitOp, l: Expr, r: Expr, p: Program, pos: nat, ra: Alloc)
    requires WellFormed(q) && ValidAlloc(ra) && GenBits(q, op, l, r, pos, ra).Ok?
    requires Ready(p, pos, GenBits(q, op, l, r, pos, ra).value)
    ensures Segment(q, p, pos, pos + |GenBits(q, op, l, r, pos, ra).value.code|)
    decreases Nodes(l) + Nodes(r), 1
  {
    hide GenOperands, GenBinary, At, IsStart, Good, ValidAlloc, WellFormed, Live;
    OperandsLive(q, l, r, pos, ra);
    var o := GenOperands(q, l, r, pos, ra).value;
    BinarySize(BitCode(op), VInt, o.l, o.r, o.ra);
    AtSplit(p, pos, o.code, GenBinary(BitCode(op), VInt, o.l, o.r, o.ra).value.code);
    OperandsSegment(q, l, r, p, pos, ra);
    BinarySegment(q, BitCode(op), VInt, o.l, o.r, p, pos + |o.code|, o.ra);
    SegmentTrans(q, p, pos, pos + |o.code|, pos + |o.code| + 1);
  }

  lemma CoerceSegment(q: Qualifiers, o: Operands, p: Program, pos: nat)
    requires ValidAlloc(o.ra) && Live(o.ra, o.l) && Live(o.ra, o.r) && o.l != o.r && Coerce(o).Ok?
    requires At(p, pos, Coerce(o).value.code) && Coerce(o).value.ra.next <= p.registerCount
    requires pos <= |p.code| && IsStart(p.code, pos)
    ensures Segment(q, p, pos, pos + |Coerce(o).value.code|)
  {
    hide EnsureBool, At, IsStart, Good, ValidAlloc, Live;
    if o.lt == VBool && o.rt == VInt {
      EnsureBoolSegment(q, o.r, VInt, p, pos, o.ra);
    } else if o.lt == VInt && o.rt == VBool {
      EnsureBoolSegment(q, o.l, VInt, p, pos, o.ra);
    }
  }

  lemma CompareTailSegment(q: Qualifiers, op: CmpOp, o: Operands, p: Program, pos: nat)
    requires ValidAlloc(o.ra) && Live(o.ra, o.l) && Live(o.ra, o.r) && o.l != o.r && CompareTail(op, o).Ok?
    requires Ready(p, pos, CompareTail(op, o).value)
    ensures Segment(q, p, pos, pos + |CompareTail(op, o).value.code|)
  {
    hide Coerce, GenBinary, At, IsStart, Good, ValidAlloc, Live;
    CoerceLive(o);
    var c := Coerce(o).value;
    BinarySize(CmpCode(op), VBool, c.hi, c.lo, c.ra);
    AtSplit(p, pos, c.code, GenBinary(CmpCode(op), VBool, c.hi, c.lo, c.ra).value.code);
    CoerceSegment(q, o, p, pos);
    BinarySegment(q, CmpCode(op), VBool, c.hi, c.lo, p, pos + |c.code|, c.ra);
    SegmentTrans(q, p, pos, pos + |c.code|, pos + |c.code| + 1);
  }

  lemma {:induction false} CompareSegment(q: Qualifiers, op: CmpOp, l: Expr, r: Expr, p: Program, pos: nat, ra: Alloc)
    requires WellFormed(q) && ValidAlloc(ra) && GenCompare(q, op, l, r, pos, ra).Ok?
    requires Ready(p, pos, GenCompare(q, op, l, r, pos, ra).value)
    ensures Segment(q, p, pos, pos + |GenCompare(q, op, l, r, pos, ra).value.code|)
    decreases Nodes(l) + Nodes(r), 3
  {
    hide GenIpv6Compare, GenPlainCompare, Ready, Segment, ValidAlloc, WellFormed;
    if Resolve(q, l).value == VIpv6 {
      Ipv6CompareSegment(q, op, l, r, p, pos, ra);
    } else {
      PlainCompareSegment(q, op, l, r, p, pos, ra);
    }
  }

  lemma {:induction false} PlainCompareSegment(
    q: Qualifiers, op: CmpOp, l: Expr, r: Expr, p: Program, pos: nat, ra: Alloc)
    requires WellFormed(q) && ValidAlloc(ra) && GenPlainCompare(q, op, l, r, pos, ra).Ok?
    requires Ready(p, pos, GenPlainCompare(q, op, l, r, pos, ra).value)
    ensures Segment(q, p, pos, pos + |GenPlainCompare(q, op, l, r, pos, ra).value.code|)
    decreases Nodes(l) + Nodes(r), 2
  {
    hide GenOperands, CompareTail, At, IsStart, Good, ValidAlloc, WellFormed, Live;
    OperandsLive(q, l, r, pos, ra);
    var o := GenOperands(q, l, r, pos, ra).value;
    CompareTailNext(op, o);
    var c := CompareTail(op, o).value;
    AtSplit(p, pos, o.code, c.code);
    OperandsSegment(q, l, r, p, pos, ra);
    CompareTailSegment(q, op, o, p, pos + |o.code|);
    SegmentTrans(q, p, pos, pos + |o.code|, pos + |o.code| + |c.code|);
  }

  // ----- short circuits -----

  lemma {:induction false} AndSegment(q: Qualifiers, l: Expr, r: Expr, p: Program, pos: nat, ra: Alloc)
    requires WellFormed(q) && ValidAlloc(ra) && GenAnd(q, l, r, pos, ra).Ok?
    requires Ready(p, pos, GenAnd(q, l, r, pos, ra).value)
    ensures Segment(q, p, pos, pos + |GenAnd(q, l, r, pos, ra).value.code|)
    decreases Nodes(l) + Nodes(r), 0
  {
    hide GenAnd, GenBool, At, AndTail, IsStart, Good, ValidAlloc, WellFormed, Ins, Live;
    var f, d, mid, g := AndParts(q, l, r, p, pos, ra);
    var p1 := pos + |f.code|;
    var move := p1 + 1 + |g.code|;
    GenBoolSegment(q, l, p, pos, ra);
    AtTest(p, p1, f.dst, move + 2);
    GenBoolSegment(q, r, p, p1 + 1, mid);
    AndTailSegment(q, p, move, d, g.dst);
    SegmentJump(q, p, p1, JUMP_IF_FALSE, f.dst, move + 2);
    SegmentTrans(q, p, pos, p1, p1 + 1);
    SegmentTrans(q, p, pos, p1 + 1, move);
    SegmentTrans(q, p, pos, move, move + 4);
  }

  lemma AtTest(p: Program, pos: nat, a: byte, target: int64)
    requires At(p, pos, [Ins(JUMP_IF_FALSE, a, 0, 0, target)]) && IsStart(p.code, pos)
    ensures pos + 1 <= |p.code| && IsStart(p.code, pos + 1)
  {
    StartAfter(p, pos, Ins(JUMP_IF_FALSE, a, 0, 0, target));
  }

  /** Move, jump to the end, load 0; the load is where the operand's jump goes. */
  lemma AndTailSegment(q: Qualifiers, p: Program, pos: nat, d: byte, r: byte)
    requires FitsI32(pos + 4) && At(p, pos, AndTail(d, r, pos + 4)) && IsStart(p.code, pos)
    requires d < p.registerCount && r < p.registerCount
    ensures |AndTail(d, r, pos + 4)| == 4 && Segment(q, p, pos, pos + 4) && IsStart(p.code, pos + 2)
  {
    AtTail(p, pos, d, r, pos + 4);
    SegmentUnary(q, p, pos, MOVE, d, r);
    StartAfter(p, pos + 1, Ins(JUMP, 0, 0, 0, pos + 4));
    hide IsStart, Good, AndTail, Ins, MakeLoadImm;
    SegmentImm(q, p, pos + 2, d, 0);
    SegmentJump(q, p, pos + 1, JUMP, 0, pos + 4);
    SegmentTrans(q, p, pos, pos + 1, pos + 2);
    SegmentTrans(q, p, pos, pos + 2, pos + 4);
  }

  lemma {:induction false} OrSegment(q: Qualifiers, l: Expr, r: Expr, p: Program, pos: nat, ra: Alloc)
    requires WellFormed(q) && ValidAlloc(ra) && GenOr(q, l, r, pos, ra).Ok?
    requires Ready(p, pos, GenOr(q, l, r, pos, ra).value)
    ensures Segment(q, p, pos, pos + |GenOr(q, l, r, pos, ra).value.code|)
    decreases Nodes(l) + Nodes(r), 0
  {
    hide GenOr, GenBool, At, OrHead, IsStart, Good, ValidAlloc, WellFormed, Ins, Live;
    var f, d, mid, g := OrParts(q, l, r, p, pos, ra);
    var p1 := pos + |f.code|;
    var end := p1 + 4 + |g.code| + 1;
    GenBoolSegment(q, l, p, pos, ra);
    OrHeadStarts(p, p1, d, f.dst, p1 + 4, end);
    GenBoolSegment(q, r, p, p1 + 4, mid);
    SegmentUnary(q, p, end - 1, MOVE, d, g.dst);
    OrHeadSegment(q, p, p1, d, f.dst, end);
    SegmentTrans(q, p, pos, p1, p1 + 4);
    SegmentTrans(q, p, pos, p1 + 4, end - 1);
    SegmentTrans(q, p, pos, end - 1, end);
  }

  lemma OrHeadStarts(p: Program, pos: nat, d: byte, l: byte, rhs: int64, end: int64)
    requires At(p, pos, OrHead(d, l, rhs, end)) && IsStart(p.code, pos)
    ensures pos + 4 <= |p.code| && IsStart(p.code, pos + 1) && IsStart(p.code, pos + 3) && IsStart(p.code, pos + 4)
    ensures |OrHead(d, l, rhs, end)| == 4
  {
    hide IsStart;
    AtHead(p, pos, d, l, rhs, end);
    StartAfter(p, pos, Ins(JUMP_IF_FALSE, l, 0, 0, rhs));
    AtFirst(p, pos + 1, Ins(LOAD_IMM, d, 0, 0, 0), [DataSlot(1)]);
    NextStart(p.code, pos + 1);
    StartAfter(p, pos + 3, Ins(JUMP, 0, 0, 0, end));
  }

  lemma OrHeadSegment(q: Qualifiers, p: Program, pos: nat, d: byte, l: byte, end: nat)
    requires FitsI32(end) && pos + 4 < end <= |p.code| && At(p, pos, OrHead(d, l, pos + 4, end))
    requires IsStart(p.code, pos) && IsStart(p.code, end) && d < p.registerCount && l < p.registerCount
    ensures Segment(q, p, pos, pos + 4)
  {
    hide IsStart, Good, OrHead, Ins, MakeLoadImm;
    OrHeadStarts(p, pos, d, l, pos + 4, end);
    AtHead(p, pos, d, l, pos + 4, end);
    SegmentJump(q, p, pos, JUMP_IF_FALSE, l, pos + 4);
    SegmentImm(q, p, pos + 1, d, 1);
    SegmentJump(q, p, pos + 3, JUMP, 0, end);
    SegmentTrans(q, p, pos, pos + 1, pos + 3);
    SegmentTrans(q, p, pos, pos + 3, pos + 4);
  }
}
