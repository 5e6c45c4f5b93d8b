/** Running the code of an expression: wherever it is placed, whatever the registers hold and
    whatever follows, it reaches its end with the expression's value in its register, the
    expression's field reads made, and every register live before it unchanged. */
module Correctness {
  import opened Words
  import opened Common
  import opened Bytecode
  import opened Registry
  import opened Ast
  import opened Allocator
  import opened CodeGen
  import opened Conditions
  import opened Vm
  import opened Semantics

  /** `code` stands at slot `pos` of the program. */
  predicate At(p: Program, pos: nat, code: seq<Instruction>) {
    pos + |code| <= |p.code| && p.code[pos..pos + |code|] == code
  }

  lemma AtSplit(p: Program, pos: nat, a: seq<Instruction>, b: seq<Instruction>)
    requires At(p, pos, a + b)
    ensures At(p, pos, a) && At(p, pos + |a|, b)
  {
    var c := p.code[pos..pos + |a| + |b|];
    assert c == a + b;
    assert c[..|a|] == a && c[|a|..] == b;
    assert p.code[pos..pos + |a|] == c[..|a|];
    assert p.code[pos + |a|..pos + |a| + |b|] == c[|a|..];
  }

  lemma AtFour(
    p: Program, pos: nat, a: seq<Instruction>, b: seq<Instruction>, c: seq<Instruction>, d: seq<Instruction>)
    requires At(p, pos, a + b + c + d)
    ensures At(p, pos, a) && At(p, pos + |a|, b) && At(p, pos + |a| + |b|, c) && At(p, pos + |a| + |b| + |c|, d)
  {
    hide At;
    AtSplit(p, pos, a + b + c, d);
    AtSplit(p, pos, a + b, c);
    AtSplit(p, pos, a, b);
  }

  lemma AtFirst(p: Program, pos: nat, i: Instruction, rest: seq<Instruction>)
    requires At(p, pos, [i] + rest)
    ensures pos < |p.code| && p.code[pos] == i && At(p, pos + 1, rest)
  {
    AtSplit(p, pos, [i], rest);
    assert p.code[pos..pos + 1][0] == i;
  }

  lemma AtOne(p: Program, pos: nat, i: Instruction)
    requires At(p, pos, [i])
    ensures pos < |p.code| && p.code[pos] == i
  {
    assert p.code[pos..pos + 1][0] == i;
  }

  /** Running from `a` reaches `b`, further on, in no more steps than the slots in between. */
  ghost predicate Reaches(p: Program, ctx: Context, a: Machine, b: Machine) {
    && a.Running? && b.Running? && a.pc <= b.pc
    && exists k: nat :: k <= b.pc - a.pc && Steps(p, ctx, a, k) == b
  }

  lemma ReachesSelf(p: Program, ctx: Context, a: Machine)
    requires a.Running?
    ensures Reaches(p, ctx, a, a)
  {
    assert Steps(p, ctx, a, 0) == a;
  }

  lemma ReachesTrans(p: Program, ctx: Context, a: Machine, b: Machine, c: Machine)
    requires Reaches(p, ctx, a, b) && Reaches(p, ctx, b, c)
    ensures Reaches(p, ctx, a, c)
  {
    hide Step;
    var j: nat :| j <= b.pc - a.pc && Steps(p, ctx, a, j) == b;
    var k: nat :| k <= c.pc - b.pc && Steps(p, ctx, b, k) == c;
    StepsAdd(p, ctx, a, j, k);
    assert Steps(p, ctx, a, j + k) == c;
  }

  lemma ReachesStep(p: Program, ctx: Context, a: Machine)
    requires a.Running? && Step(p, ctx, a).Running? && a.pc < Step(p, ctx, a).pc
    ensures Reaches(p, ctx, a, Step(p, ctx, a))
  {
    hide Step;
    assert Steps(p, ctx, a, 0) == a;
    assert Steps(p, ctx, a, 1) == Step(p, ctx, a);
  }

  // ----- single instructions -----

  lemma RunImm(p: Program, ctx: Context, pos: nat, d: byte, v: int64, regs: Registers, trace: seq<FieldRead>)
    requires At(p, pos, MakeLoadImm(d, v)) && d < p.registerCount
    ensures Reaches(p, ctx, Running(pos, regs, trace), Running(pos + 2, regs[d := v], trace))
  {
    AtFirst(p, pos, Ins(LOAD_IMM, d, 0, 0, 0), [DataSlot(v)]);
    AtOne(p, pos + 1, DataSlot(v));
    WideDataRoundTrip(v);
    hide DataSlot;
    ReachesStep(p, ctx, Running(pos, regs, trace));
  }

  lemma RunLoad(
    p: Program, ctx: Context, pos: nat, d: byte, offset: uint32, size: byte, sign: byte,
    regs: Registers, trace: seq<FieldRead>)
    requires At(p, pos, [Ins(LOAD_FIELD, d, size, sign, offset)]) && d < p.registerCount
    requires ValidSize(size) && sign <= 1 && FitsI32(offset)
    ensures Reaches(p, ctx, Running(pos, regs, trace),
                    Running(pos + 1, regs[d := LoadValue(ctx, offset, size, sign == 1)],
                            trace + [FieldRead(offset, size, sign == 1)]))
  {
    hide LoadValue;
    AtOne(p, pos, Ins(LOAD_FIELD, d, size, sign, offset));
    AuxRoundTrip(LOAD_FIELD, d, size, sign, offset);
    ReachesStep(p, ctx, Running(pos, regs, trace));
  }

  /** The value a binary opcode computes. */
  function BinaryValue(op: byte, x: int64, y: int64): int64 {
    if IsCompare(op) then Truth(Compares(op, x, y)) else if op == AND then AndI64(x, y) else OrI64(x, y)
  }

  lemma RunBinaryOp(
    p: Program, ctx: Context, pos: nat, op: byte, d: byte, a: byte, b: byte, regs: Registers, trace: seq<FieldRead>)
    requires At(p, pos, [Ins(op, d, a, b, 0)]) && (IsCompare(op) || op == AND || op == OR)
    requires d < p.registerCount && a < p.registerCount && b < p.registerCount
    ensures Reaches(p, ctx, Running(pos, regs, trace),
                    Running(pos + 1, regs[d := BinaryValue(op, regs[a], regs[b])], trace))
  {
    hide AndI64, OrI64, Compares, Truth;
    AtOne(p, pos, Ins(op, d, a, b, 0));
    ReachesStep(p, ctx, Running(pos, regs, trace));
  }

  lemma RunNot(p: Program, ctx: Context, pos: nat, d: byte, a: byte, regs: Registers, trace: seq<FieldRead>)
    requires At(p, pos, [Ins(NOT, d, a, 0, 0)]) && d < p.registerCount && a < p.registerCount
    ensures Reaches(p, ctx, Running(pos, regs, trace), Running(pos + 1, regs[d := Truth(regs[a] == 0)], trace))
  {
    hide Truth;
    AtOne(p, pos, Ins(NOT, d, a, 0, 0));
    ReachesStep(p, ctx, Running(pos, regs, trace));
  }

  lemma RunMove(p: Program, ctx: Context, pos: nat, d: byte, a: byte, regs: Registers, trace: seq<FieldRead>)
    requires At(p, pos, [Ins(MOVE, d, a, 0, 0)]) && d < p.registerCount && a < p.registerCount
    ensures Reaches(p, ctx, Running(pos, regs, trace), Running(pos + 1, regs[d := regs[a]], trace))
  {
    AtOne(p, pos, Ins(MOVE, d, a, 0, 0));
    ReachesStep(p, ctx, Running(pos, regs, trace));
  }

  lemma RunJump(p: Program, ctx: Context, pos: nat, target: nat, regs: Registers, trace: seq<FieldRead>)
    requires FitsI32(target) && At(p, pos, [Ins(JUMP, 0, 0, 0, target)]) && pos < target <= |p.code|
    ensures Reaches(p, ctx, Running(pos, regs, trace), Running(target, regs, trace))
  {
    AtOne(p, pos, Ins(JUMP, 0, 0, 0, target));
    AuxRoundTrip(JUMP, 0, 0, 0, target);
    ReachesStep(p, ctx, Running(pos, regs, trace));
  }

  lemma RunJumpIfFalse(p: Program, ctx: Context, pos: nat, a: byte, target: nat, regs: Registers, trace: seq<FieldRead>)
    requires FitsI32(target) && At(p, pos, [Ins(JUMP_IF_FALSE, a, 0, 0, target)]) && pos < target <= |p.code|
    requires a < p.registerCount
    ensures Reaches(p, ctx, Running(pos, regs, trace), Running(if regs[a] == 0 then target else pos + 1, regs, trace))
  {
    AtOne(p, pos, Ins(JUMP_IF_FALSE, a, 0, 0, target));
    AuxRoundTrip(JUMP_IF_FALSE, a, 0, 0, target);
    ReachesStep(p, ctx, Running(pos, regs, trace));
  }

  // ----- pieces of code with their registers -----

  /** Every register live in `ra` holds what it held. */
  ghost predicate Keeps(ra: Alloc, before: Registers, after: Registers) {
    forall r: byte :: Live(ra, r) ==> after[r] == before[r]
  }

  /** The code from `pos` to `end` leaves `value` in `dst` and keeps the live registers. */
  ghost predicate Computes(
    p: Program, ctx: Context, pos: nat, end: nat, ra: Alloc, regs: Registers, trace: seq<FieldRead>,
    regs': Registers, dst: byte, ev: Evaluation)
  {
    && Reaches(p, ctx, Running(pos, regs, trace), Running(end, regs', trace + ev.trace))
    && regs'[dst] == ev.value
    && Keeps(ra, regs, regs')
  }

  /** Writing a register that was not live keeps the live ones. */
  lemma KeepsFresh(ra: Alloc, regs: Registers, d: byte, v: int64)
    requires !Live(ra, d)
    ensures Keeps(ra, regs, regs[d := v])
  {
  }

  lemma TraceUnit(trace: seq<FieldRead>)
    ensures trace + [] == trace
  {
  }

  lemma GenImmRuns(
    p: Program, ctx: Context, pos: nat, v: int64, ty: ValueType, ra: Alloc, regs: Registers, trace: seq<FieldRead>)
    returns (regs': Registers)
    requires ValidAlloc(ra) && GenImm(v, ty, ra).Ok?
    requires var f := GenImm(v, ty, ra).value; At(p, pos, f.code) && f.ra.next <= p.registerCount
    ensures Computes(p, ctx, pos, pos + 2, ra, regs, trace, regs', GenImm(v, ty, ra).value.dst, Evaluation(v, []))
  {
    hide MakeLoadImm, At, Reaches;
    var d := Taken(ra);
    ImmShape(v, ty, ra);
    TakeAddsOne(ra);
    RunImm(p, ctx, pos, d, v, regs, trace);
    KeepsFresh(ra, regs, d, v);
    TraceUnit(trace);
    regs' := regs[d := v];
  }

  lemma GenLoadRuns(
    p: Program, ctx: Context, pos: nat, offset: uint32, size: byte, sign: byte, ty: ValueType, ra: Alloc,
    regs: Registers, trace: seq<FieldRead>)
    returns (regs': Registers)
    requires ValidAlloc(ra) && ValidSize(size) && sign <= 1 && GenLoad(offset, size, sign, ty, ra).Ok?
    requires var f := GenLoad(offset, size, sign, ty, ra).value; At(p, pos, f.code) && f.ra.next <= p.registerCount
    ensures Computes(p, ctx, pos, pos + 1, ra, regs, trace, regs', GenLoad(offset, size, sign, ty, ra).value.dst,
                     Evaluation(LoadValue(ctx, offset, size, sign == 1), [FieldRead(offset, size, sign == 1)]))
  {
    hide LoadValue, At, Reaches, Ins;
    var d := Taken(ra);
    LoadShape(offset, size, sign, ty, ra);
    TakeAddsOne(ra);
    RunLoad(p, ctx, pos, d, offset, size, sign, regs, trace);
    regs' := regs[d := LoadValue(ctx, offset, size, sign == 1)];
    KeepsFresh(ra, regs, d, LoadValue(ctx, offset, size, sign == 1));
  }

  /** What a binary instruction needs to run: its operands are live and it is one of them. */
  ghost predicate BinaryReady(op: byte, a: byte, b: byte, ra: Alloc) {
    ValidAlloc(ra) && (IsCompare(op) || op == AND || op == OR) && Live(ra, a) && Live(ra, b) && a != b
  }

  lemma GenBinaryRuns(
    p: Program, ctx: Context, pos: nat, op: byte, ty: ValueType, a: byte, b: byte, ra: Alloc,
    regs: Registers, trace: seq<FieldRead>)
    returns (regs': Registers)
    requires BinaryReady(op, a, b, ra) && GenBinary(op, ty, a, b, ra).Ok?
    requires var f := GenBinary(op, ty, a, b, ra).value; At(p, pos, f.code) && f.ra.next <= p.registerCount
    ensures Computes(p, ctx, pos, pos + 1, ra, regs, trace, regs', GenBinary(op, ty, a, b, ra).value.dst,
                     Evaluation(BinaryValue(op, regs[a], regs[b]), []))
  {
    hide BinaryValue, At, Reaches, Ins;
    var d := Taken(ra);
    TakeAddsOne(ra);
    RunBinaryOp(p, ctx, pos, op, d, a, b, regs, trace);
    regs' := regs[d := BinaryValue(op, regs[a], regs[b])];
    KeepsFresh(ra, regs, d, BinaryValue(op, regs[a], regs[b]));
    TraceUnit(trace);
  }

  lemma GenNegateRuns(
    p: Program, ctx: Context, pos: nat, a: byte, ra: Alloc, regs: Registers, trace: seq<FieldRead>)
    returns (regs': Registers)
    requires ValidAlloc(ra) && Live(ra, a) && GenNegate(a, ra).Ok?
    requires var f := GenNegate(a, ra).value; At(p, pos, f.code) && f.ra.next <= p.registerCount
    ensures Computes(p, ctx, pos, pos + 1, ra, regs, trace, regs', GenNegate(a, ra).value.dst,
                     Evaluation(Truth(regs[a] == 0), []))
  {
    hide Truth, At, Reaches, Ins;
    var d := Taken(ra);
    TakeAddsOne(ra);
    RunNot(p, ctx, pos, d, a, regs, trace);
    regs' := regs[d := Truth(regs[a] == 0)];
    KeepsFresh(ra, regs, d, Truth(regs[a] == 0));
    TraceUnit(trace);
  }

  /** Two pieces of code one after the other; the second uses a register the first computed. */
  lemma ComputesTrans(
    p: Program, ctx: Context, pos: nat, mid: nat, end: nat, ra: Alloc, ra1: Alloc,
    r0: Registers, r1: Registers, r2: Registers, trace: seq<FieldRead>,
    d1: byte, e1: Evaluation, d2: byte, e2: Evaluation)
    requires Computes(p, ctx, pos, mid, ra, r0, trace, r1, d1, e1)
    requires Computes(p, ctx, mid, end, ra1, r1, trace + e1.trace, r2, d2, e2)
    requires forall r: byte :: Live(ra, r) ==> Live(ra1, r)
    ensures Computes(p, ctx, pos, end, ra, r0, trace, r2, d2, Evaluation(e2.value, e1.trace + e2.trace))
  {
    assert trace + e1.trace + e2.trace == trace + (e1.trace + e2.trace);
    hide Reaches;
    ReachesTrans(p, ctx, Running(pos, r0, trace), Running(mid, r1, trace + e1.trace),
                 Running(end, r2, trace + (e1.trace + e2.trace)));
  }

  lemma EnsureBoolRuns(
    p: Program, ctx: Context, pos: nat, v: byte, ty: ValueType, ra: Alloc, regs: Registers, trace: seq<FieldRead>)
    returns (regs': Registers)
    requires ValidAlloc(ra) && Live(ra, v) && EnsureBool(v, ty, ra).Ok?
    requires var f := EnsureBool(v, ty, ra).value; At(p, pos, f.code) && f.ra.next <= p.registerCount
    ensures var f := EnsureBool(v, ty, ra).value;
      Computes(p, ctx, pos, pos + |f.code|, ra, regs, trace, regs', f.dst, Evaluation(AsBool(ty, regs[v]), []))
  {
    hide At, Reaches, GenImm, GenBinary;
    TraceUnit(trace);
    if ty == VBool {
      regs' := regs;
      ReachesSelf(p, ctx, Running(pos, regs, trace));
    } else {
      var z := GenImm(0, VInt, ra).value;
      ImmShape(0, VInt, ra);
      var c := GenBinary(CMP_NE, VBool, v, z.dst, z.ra).value;
      BinaryShape(CMP_NE, VBool, v, z.dst, z.ra);
      AtSplit(p, pos, z.code, c.code);
      EnsureBoolShape(v, ty, ra);
      TraceUnit([]);
      var regs1 := GenImmRuns(p, ctx, pos, 0, VInt, ra, regs, trace);
      regs' := GenBinaryRuns(p, ctx, pos + 2, CMP_NE, VBool, v, z.dst, z.ra, regs1, trace);
      ComputesTrans(p, ctx, pos, pos + 2, pos + 3, ra, z.ra, regs, regs1, regs', trace, z.dst, Evaluation(0, []),
                    c.dst, Evaluation(BinaryValue(CMP_NE, regs1[v], regs1[z.dst]), []));
    }
  }

  // ----- IPv6 comparisons -----

  /** One half of a 16-byte address as a register holds it. */
  function Half(bs: seq<byte>): int64
    requires |bs| == 8
  {
    ToI64(Word64(bs))
  }

  /** Two addresses are equal exactly when both 64-bit halves are. */
  lemma HalvesDecideEquality(a: seq<byte>, b: seq<byte>)
    requires |a| == |b| == 16
    ensures a == b <==> Half(a[..8]) == Half(b[..8]) && Half(a[8..]) == Half(b[8..])
  {
    LEInjective(a[..8], b[..8]);
    LEInjective(a[8..], b[8..]);
    assert a == a[..8] + a[8..] && b == b[..8] + b[8..];
  }

  /** The code from `pos` to `end` leaves the halves of `bs` in two registers. */
  ghost predicate ComputesPair(
    p: Program, ctx: Context, pos: nat, end: nat, ra: Alloc, regs: Registers, trace: seq<FieldRead>,
    regs': Registers, v: Pair, bs: seq<byte>, fieldReads: seq<FieldRead>)
  {
    && Reaches(p, ctx, Running(pos, regs, trace), Running(end, regs', trace + fieldReads))
    && |bs| == 16 && regs'[v.hi] == Half(bs[..8]) && regs'[v.lo] == Half(bs[8..])
    && Keeps(ra, regs, regs')
  }

  /** The two halves of a value, the second computed after the first. */
  lemma PairFromHalves(
    p: Program, ctx: Context, pos: nat, mid: nat, end: nat, ra: Alloc, ra1: Alloc,
    r0: Registers, r1: Registers, r2: Registers, trace: seq<FieldRead>, v: Pair, bs: seq<byte>,
    t1: seq<FieldRead>, t2: seq<FieldRead>)
    requires |bs| == 16
    requires Computes(p, ctx, pos, mid, ra, r0, trace, r1, v.hi, Evaluation(Half(bs[..8]), t1))
    requires Computes(p, ctx, mid, end, ra1, r1, trace + t1, r2, v.lo, Evaluation(Half(bs[8..]), t2))
    requires forall r: byte :: Live(ra, r) || r == v.hi ==> Live(ra1, r)
    ensures ComputesPair(p, ctx, pos, end, ra, r0, trace, r2, v, bs, t1 + t2)
  {
    hide Reaches, Half, Live;
    ComputesTrans(p, ctx, pos, mid, end, ra, ra1, r0, r1, r2, trace, v.hi, Evaluation(Half(bs[..8]), t1),
                  v.lo, Evaluation(Half(bs[8..]), t2));
  }

  lemma FieldHalves(ctx: Context, offset: uint32)
    requires offset + 16 <= UINT32_MAX
    ensures var bs := FieldBytes(ctx, offset, 16);
      && LoadValue(ctx, offset, 8, false) == Half(bs[..8])
      && LoadValue(ctx, offset + 8, 8, false) == Half(bs[8..])
  {
    var bs := FieldBytes(ctx, offset, 16);
    assert FieldBytes(ctx, offset, 8) == bs[..8];
    assert FieldBytes(ctx, offset + 8, 8) == bs[8..];
  }

  /** The two loads of an IPv6 field, with no wrap-around in the second offset. */
  lemma Ipv6IdentParts(q: Qualifiers, name: string, ra: Alloc)
    requires WellFormed(q) && ValidAlloc(ra) && GenIpv6Ident(q, name, ra).Ok?
    ensures name in q && q[name].ty == Ipv6T && q[name].offset + 16 <= UINT32_MAX
    ensures var v, hi := GenIpv6Ident(q, name, ra).value, GenLoad(q[name].offset, 8, 0, VInt, ra);
      && hi.Ok? && Uses(ra, hi.value.dst, hi.value.ra, 1) && |hi.value.code| == 1
      && var lo := GenLoad(q[name].offset + 8, 8, 0, VInt, hi.value.ra);
         && lo.Ok? && |lo.value.code| == 1 && lo.value.ra.next >= hi.value.ra.next
         && v == Pair(hi.value.code + lo.value.code, hi.value.dst, lo.value.dst, lo.value.ra)
  {
    var offset := q[name].offset;
    assert ValidInfo(q[name]);
    LoadShape(offset, 8, 0, VInt, ra);
    LoadShape(offset + 8, 8, 0, VInt, GenLoad(offset, 8, 0, VInt, ra).value.ra);
    hide ValidAlloc, Live;
  }

  lemma Ipv6IdentRuns(
    q: Qualifiers, name: string, p: Program, ctx: Context, pos: nat, ra: Alloc, regs: Registers, trace: seq<FieldRead>)
    returns (regs': Registers)
    requires WellFormed(q) && ValidAlloc(ra) && GenIpv6Ident(q, name, ra).Ok?
    requires var v := GenIpv6Ident(q, name, ra).value; At(p, pos, v.code) && v.ra.next <= p.registerCount
    ensures var v := GenIpv6Ident(q, name, ra).value;
      ComputesPair(p, ctx, pos, pos + |v.code|, ra, regs, trace, regs', v, Ipv6Bytes(q, Ident(name), ctx),
                   Ipv6Reads(q, Ident(name)))
  {
    hide GenIpv6Ident, GenLoad, At, Reaches, Half, LoadValue, FieldBytes, WellFormed, Computes, ComputesPair;
    Ipv6IdentParts(q, name, ra);
    var offset := q[name].offset;
    var hi := GenLoad(offset, 8, 0, VInt, ra).value;
    var lo := GenLoad(offset + 8, 8, 0, VInt, hi.ra).value;
    AtSplit(p, pos, hi.code, lo.code);
    FieldHalves(ctx, offset);
    var regs1 := GenLoadRuns(p, ctx, pos, offset, 8, 0, VInt, ra, regs, trace);
    var t1, t2 := [FieldRead(offset, 8, false)], [FieldRead(offset + 8, 8, false)];
    regs' := GenLoadRuns(p, ctx, pos + 1, offset + 8, 8, 0, VInt, hi.ra, regs1, trace + t1);
    PairFromHalves(p, ctx, pos, pos + 1, pos + 2, ra, hi.ra, regs, regs1, regs', trace,
                   GenIpv6Ident(q, name, ra).value, FieldBytes(ctx, offset, 16), t1, t2);
    assert t1 + t2 == Ipv6Reads(q, Ident(name));
  }

  lemma Ipv6LiteralRuns(
    addr: Bytes16, p: Program, ctx: Context, pos: nat, ra: Alloc, regs: Registers, trace: seq<FieldRead>)
    returns (regs': Registers)
    requires ValidAlloc(ra) && GenIpv6Literal(Some(addr), ra).Ok?
    requires var v := GenIpv6Literal(Some(addr), ra).value; At(p, pos, v.code) && v.ra.next <= p.registerCount
    ensures var v := GenIpv6Literal(Some(addr), ra).value;
      ComputesPair(p, ctx, pos, pos + |v.code|, ra, regs, trace, regs', v, addr, [])
  {
    var h, l := Half(addr[..8]), Half(addr[8..]);
    ImmShape(h, VInt, ra);
    var hi := GenImm(h, VInt, ra).value;
    ImmShape(l, VInt, hi.ra);
    var lo := GenImm(l, VInt, hi.ra).value;
    Ipv6LiteralShape(addr, ra);
    hide GenImm, At, Reaches, ToI64, Word64;
    AtSplit(p, pos, hi.code, lo.code);
    TraceUnit(trace); TraceUnit([]);
    var regs1 := GenImmRuns(p, ctx, pos, h, VInt, ra, regs, trace);
    regs' := GenImmRuns(p, ctx, pos + 2, l, VInt, hi.ra, regs1, trace);
    PairFromHalves(p, ctx, pos, pos + 2, pos + 4, ra, hi.ra, regs, regs1, regs', trace,
                   GenIpv6Literal(Some(addr), ra).value, addr, [], []);
  }

  lemma Ipv6ValueRuns(
    q: Qualifiers, e: Expr, p: Program, ctx: Context, pos: nat, ra: Alloc, regs: Registers, trace: seq<FieldRead>)
    returns (regs': Registers)
    requires WellFormed(q) && ValidAlloc(ra) && GenIpv6Value(q, e, ra).Ok?
    requires var v := GenIpv6Value(q, e, ra).value; At(p, pos, v.code) && v.ra.next <= p.registerCount
    ensures var v := GenIpv6Value(q, e, ra).value;
      ComputesPair(p, ctx, pos, pos + |v.code|, ra, regs, trace, regs', v, Ipv6Bytes(q, e, ctx), Ipv6Reads(q, e))
  {
    hide GenIpv6Ident, GenIpv6Literal, At, ComputesPair, ValidAlloc, FieldBytes;
    match e
    case Ident(n) => regs' := Ipv6IdentRuns(q, n, p, ctx, pos, ra, regs, trace);
    case Ipv6(a) =>
      assert a.Some? by { GenOfBadLiteral(ra); }
      regs' := Ipv6LiteralRuns(a.value, p, ctx, pos, ra, regs, trace);
  }

  lemma GenOfBadLiteral(ra: Alloc)
    ensures GenIpv6Literal(None, ra).Err?
  {
  }

  /** The comparison of two IPv6 values in registers computes whether their bytes are equal. */
  lemma HalvesRun(
    lp: Pair, rp: Pair, a: seq<byte>, b: seq<byte>, p: Program, ctx: Context, pos: nat, ra: Alloc,
    regs: Registers, trace: seq<FieldRead>)
    returns (regs': Registers)
    requires ValidAlloc(ra) && AddsTwo(ra, lp) && AddsTwo(lp.ra, rp) && GenHalves(lp, rp).Ok? && |a| == |b| == 16
    requires regs[lp.hi] == Half(a[..8]) && regs[lp.lo] == Half(a[8..])
    requires regs[rp.hi] == Half(b[..8]) && regs[rp.lo] == Half(b[8..])
    requires var h := GenHalves(lp, rp).value; At(p, pos, h.code) && h.ra.next <= p.registerCount
    ensures var h := GenHalves(lp, rp).value;
      && Reaches(p, ctx, Running(pos, regs, trace), Running(pos + |h.code|, regs', trace))
      && regs'[h.hi] == Truth(Half(a[..8]) == Half(b[..8])) && regs'[h.lo] == Truth(Half(a[8..]) == Half(b[8..]))
      && Keeps(ra, regs, regs')
  {
    hide At, Reaches, Half, GenBinary, Truth;
    HighShape(lp, rp, ra);
    BinaryShape(CMP_EQ, VBool, lp.hi, rp.hi, rp.ra);
    var hi := GenBinary(CMP_EQ, VBool, lp.hi, rp.hi, rp.ra).value;
    BinaryShape(CMP_EQ, VBool, lp.lo, rp.lo, hi.ra);
    var lo := GenBinary(CMP_EQ, VBool, lp.lo, rp.lo, hi.ra).value;
    BinarySize(CMP_EQ, VBool, lp.hi, rp.hi, rp.ra);
    BinarySize(CMP_EQ, VBool, lp.lo, rp.lo, hi.ra);
    AtSplit(p, pos, hi.code, lo.code);
    TraceUnit(trace);
    var regs1 := GenBinaryRuns(p, ctx, pos, CMP_EQ, VBool, lp.hi, rp.hi, rp.ra, regs, trace);
    regs' := GenBinaryRuns(p, ctx, pos + 1, CMP_EQ, VBool, lp.lo, rp.lo, hi.ra, regs1, trace);
    ReachesTrans(p, ctx, Running(pos, regs, trace), Running(pos + 1, regs1, trace), Running(pos + 2, regs', trace));
  }

  /** Two truth values in registers computed to their conjunction, or its negation for `!=`. */
  lemma BothRun(
    op: CmpOp, h: Pair, x: bool, y: bool, p: Program, ctx: Context, pos: nat, ra: Alloc,
    regs: Registers, trace: seq<FieldRead>)
    returns (regs': Registers)
    requires ValidAlloc(ra) && LeavesTwo(ra, h) && GenBoth(op, h).Ok?
    requires regs[h.hi] == Truth(x) && regs[h.lo] == Truth(y)
    requires var t := GenBoth(op, h).value; At(p, pos, t.code) && t.ra.next <= p.registerCount
    ensures var t := GenBoth(op, h).value;
      Computes(p, ctx, pos, pos + |t.code|, ra, regs, trace, regs', t.dst,
               Evaluation(Truth(if op == Eq then x && y else !(x && y)), []))
  {
    hide At, Reaches, GenBinary, GenNegate, AndI64;
    BinaryShape(AND, VBool, h.hi, h.lo, h.ra);
    BinarySize(AND, VBool, h.hi, h.lo, h.ra);
    var both := GenBinary(AND, VBool, h.hi, h.lo, h.ra).value;
    AndOfTruthValues(Truth(x), Truth(y));
    if op == Eq {
      regs' := GenBinaryRuns(p, ctx, pos, AND, VBool, h.hi, h.lo, h.ra, regs, trace);
    } else {
      NegateShape(both.dst, both.ra);
      NegateSize(both.dst, both.ra);
      var ne := GenNegate(both.dst, both.ra).value;
      AtSplit(p, pos, both.code, ne.code);
      TraceUnit(trace); TraceUnit([]);
      var regs1 := GenBinaryRuns(p, ctx, pos, AND, VBool, h.hi, h.lo, h.ra, regs, trace);
      regs' := GenNegateRuns(p, ctx, pos + 1, both.dst, both.ra, regs1, trace);
      ReachesTrans(p, ctx, Running(pos, regs, trace), Running(pos + 1, regs1, trace), Running(pos + 2, regs', trace));
    }
  }

  lemma NegateSize(a: byte, ra: Alloc)
    requires GenNegate(a, ra).Ok?
    ensures |GenNegate(a, ra).value.code| == 1 && ra.next <= GenNegate(a, ra).value.ra.next
  {
  }

  /** The two operands of an IPv6 comparison: their halves in four registers. */
  lemma Ipv6OperandsRun(
    q: Qualifiers, l: Expr, r: Expr, p: Program, ctx: Context, pos: nat, ra: Alloc,
    regs: Registers, trace: seq<FieldRead>)
    returns (regs': Registers)
    requires WellFormed(q) && ValidAlloc(ra) && GenIpv6Value(q, l, ra).Ok?
    requires var lp := GenIpv6Value(q, l, ra).value; GenIpv6Value(q, r, lp.ra).Ok?
    requires var lp := GenIpv6Value(q, l, ra).value;
      var rp := GenIpv6Value(q, r, lp.ra).value;
      At(p, pos, lp.code + rp.code) && rp.ra.next <= p.registerCount
    ensures var lp := GenIpv6Value(q, l, ra).value;
      var rp := GenIpv6Value(q, r, lp.ra).value;
      var a, b := Ipv6Bytes(q, l, ctx), Ipv6Bytes(q, r, ctx);
      && Reaches(p, ctx, Running(pos, regs, trace),
                 Running(pos + |lp.code + rp.code|, regs', trace + (Ipv6Reads(q, l) + Ipv6Reads(q, r))))
      && |a| == |b| == 16
      && regs'[lp.hi] == Half(a[..8]) && regs'[lp.lo] == Half(a[8..])
      && regs'[rp.hi] == Half(b[..8]) && regs'[rp.lo] == Half(b[8..])
      && Keeps(ra, regs, regs')
  {
    hide GenIpv6Value, At, Reaches, Half, Ipv6Bytes, Ipv6Reads, WellFormed, ValidAlloc;
    Ipv6ValueShape(q, l, ra);
    var lp := GenIpv6Value(q, l, ra).value;
    Ipv6ValueShape(q, r, lp.ra);
    var rp := GenIpv6Value(q, r, lp.ra).value;
    AtSplit(p, pos, lp.code, rp.code);
    var regs1 := Ipv6ValueRuns(q, l, p, ctx, pos, ra, regs, trace);
    regs' := Ipv6ValueRuns(q, r, p, ctx, pos + |lp.code|, lp.ra, regs1, trace + Ipv6Reads(q, l));
    assert trace + Ipv6Reads(q, l) + Ipv6Reads(q, r) == trace + (Ipv6Reads(q, l) + Ipv6Reads(q, r));
    ReachesTrans(p, ctx, Running(pos, regs, trace), Running(pos + |lp.code|, regs1, trace + Ipv6Reads(q, l)),
                 Running(pos + |lp.code + rp.code|, regs', trace + (Ipv6Reads(q, l) + Ipv6Reads(q, r))));
  }

  /** Compiled IPv6 comparisons decide equality of the 16 bytes. */
  lemma Ipv6CompareRuns(
    q: Qualifiers, op: CmpOp, l: Expr, r: Expr, p: Program, ctx: Context, pos: nat, ra: Alloc,
    regs: Registers, trace: seq<FieldRead>)
    returns (regs': Registers)
    requires WellFormed(q) && ValidAlloc(ra) && GenIpv6Compare(q, op, l, r, ra).Ok?
    requires var f := GenIpv6Compare(q, op, l, r, ra).value; At(p, pos, f.code) && f.ra.next <= p.registerCount
    ensures var f := GenIpv6Compare(q, op, l, r, ra).value;
      var same := Ipv6Bytes(q, l, ctx) == Ipv6Bytes(q, r, ctx);
      Computes(p, ctx, pos, pos + |f.code|, ra, regs, trace, regs', f.dst,
               Evaluation(Truth(if op == Eq then same else !same), Ipv6Reads(q, l) + Ipv6Reads(q, r)))
  {
    hide GenIpv6Value, GenHalves, GenBoth, At, Reaches, Half, Ipv6Bytes, Ipv6Reads, WellFormed, ValidAlloc, Truth;
    Ipv6OperandsLive(q, l, r, ra);
    var lp := GenIpv6Value(q, l, ra).value;
    var rp := GenIpv6Value(q, r, lp.ra).value;
    var h := GenHalves(lp, rp).value;
    var t := GenBoth(op, h).value;
    BothShape(op, h, ra);
    var two := lp.code + rp.code;
    AtSplit(p, pos, two + h.code, t.code);
    AtSplit(p, pos, two, h.code);
    var a, b := Ipv6Bytes(q, l, ctx), Ipv6Bytes(q, r, ctx);
    var t1 := trace + (Ipv6Reads(q, l) + Ipv6Reads(q, r));
    var regs1 := Ipv6OperandsRun(q, l, r, p, ctx, pos, ra, regs, trace);
    var regs2 := HalvesRun(lp, rp, a, b, p, ctx, pos + |two|, ra, regs1, t1);
    regs' := BothRun(op, h, Half(a[..8]) == Half(b[..8]), Half(a[8..]) == Half(b[8..]), p, ctx,
                     pos + |two| + |h.code|, ra, regs2, t1);
    HalvesDecideEquality(a, b);
    TraceUnit(t1);
    ReachesTrans(p, ctx, Running(pos, regs, trace), Running(pos + |two|, regs1, t1),
                 Running(pos + |two + h.code|, regs2, t1));
    ReachesTrans(p, ctx, Running(pos, regs, trace), Running(pos + |two + h.code|, regs2, t1),
                 Running(pos + |two + h.code + t.code|, regs', t1));
  }

  // ----- expressions -----

  /** A fragment stands at `pos` of a program with registers enough for it. */
  predicate Placed(p: Program, pos: nat, f: Frag) {
    At(p, pos, f.code) && f.ra.next <= p.registerCount
  }

  /** The fragment placed at `pos` computes `ev` from these registers and reads. */
  ghost predicate Yields(
    p: Program, ctx: Context, pos: nat, ra: Alloc, regs: Registers, trace: seq<FieldRead>, regs': Registers,
    f: Frag, ev: Evaluation)
  {
    Computes(p, ctx, pos, pos + |f.code|, ra, regs, trace, regs', f.dst, ev)
  }

  /** Fragment correctness, by induction on the tree. */
  lemma {:induction false} GenRuns(
    q: Qualifiers, e: Expr, p: Program, ctx: Context, pos: nat, ra: Alloc, regs: Registers, trace: seq<FieldRead>)
    returns (regs': Registers)
    requires WellFormed(q) && ValidAlloc(ra) && Gen(q, e, pos, ra).Ok? && Placed(p, pos, Gen(q, e, pos, ra).value)
    ensures Yields(p, ctx, pos, ra, regs, trace, regs', Gen(q, e, pos, ra).value, Eval(q, e, ctx))
    decreases Nodes(e), 0
  {
    hide GenIdent, GenImm, GenIpv4, GenNot, GenAnd, GenOr, GenCompare;
    hide GenBits, At, Computes, EvalBool, ValidAlloc, WellFormed;
    match e
    case Ident(n) => regs' := IdentRuns(q, n, p, ctx, pos, ra, regs, trace);
    case Integer(v) => regs' := ImmRuns(v, VInt, p, ctx, pos, ra, regs, trace);
    case Boolean(b) => regs' := ImmRuns(Truth(b), VBool, p, ctx, pos, ra, regs, trace);
    case Ipv4(a) => regs' := Ipv4Runs(q, a, p, ctx, pos, ra, regs, trace);
    case Not(x) => regs' := NotRuns(q, x, p, ctx, pos, ra, regs, trace);
    case And(l, r) => regs' := AndRuns(q, l, r, p, ctx, pos, ra, regs, trace);
    case Or(l, r) => regs' := OrRuns(q, l, r, p, ctx, pos, ra, regs, trace);
    case Compare(op, l, r) => regs' := CompareRuns(q, op, l, r, p, ctx, pos, ra, regs, trace);
    case Bits(op, l, r) => regs' := BitsRuns(q, op, l, r, p, ctx, pos, ra, regs, trace);
  }

  lemma ImmRuns(
    v: int64, ty: ValueType, p: Program, ctx: Context, pos: nat, ra: Alloc, regs: Registers, trace: seq<FieldRead>)
    returns (regs': Registers)
    requires ValidAlloc(ra) && GenImm(v, ty, ra).Ok? && Placed(p, pos, GenImm(v, ty, ra).value)
    ensures Yields(p, ctx, pos, ra, regs, trace, regs', GenImm(v, ty, ra).value, Evaluation(v, []))
  {
    hide At, Reaches, DataSlot;
    regs' := GenImmRuns(p, ctx, pos, v, ty, ra, regs, trace);
  }

  lemma Ipv4Runs(
    q: Qualifiers, a: Option<Bytes4>, p: Program, ctx: Context, pos: nat, ra: Alloc,
    regs: Registers, trace: seq<FieldRead>)
    returns (regs': Registers)
    requires WellFormed(q) && ValidAlloc(ra) && GenIpv4(a, ra).Ok? && Placed(p, pos, GenIpv4(a, ra).value)
    ensures Yields(p, ctx, pos, ra, regs, trace, regs', GenIpv4(a, ra).value, Eval(q, Ipv4(a), ctx))
  {
    hide At, Computes, GenImm, ValidAlloc, WellFormed;
    LEBound(a.value); Pow256Values();
    regs' := ImmRuns(LE(a.value), VIpv4, p, ctx, pos, ra, regs, trace);
  }

  lemma IdentRuns(
    q: Qualifiers, n: string, p: Program, ctx: Context, pos: nat, ra: Alloc, regs: Registers, trace: seq<FieldRead>)
    returns (regs': Registers)
    requires WellFormed(q) && ValidAlloc(ra) && GenIdent(q, n, ra).Ok? && Placed(p, pos, GenIdent(q, n, ra).value)
    ensures Yields(p, ctx, pos, ra, regs, trace, regs', GenIdent(q, n, ra).value, Eval(q, Ident(n), ctx))
  {
    hide At, Reaches, ValidAlloc, LoadValue, EvalField;
    assert ValidInfo(q[n]);
    LoadsFieldValue(q[n], ctx);
    FieldTrace(q[n], ctx);
    var sign := if IsSigned(q[n].ty) then 1 else 0;
    regs' := GenLoadRuns(p, ctx, pos, q[n].offset, q[n].size, sign, QualifierType(q[n].ty), ra, regs, trace);
  }

  lemma FieldTrace(info: QualifierInfo, ctx: Context)
    ensures EvalField(info, ctx).trace == [FieldRead(info.offset, info.size, IsSigned(info.ty))]
  {
  }

  /** An operand of a logical operator, with its coercion. */
  lemma {:induction false} GenBoolRuns(
    q: Qualifiers, e: Expr, p: Program, ctx: Context, pos: nat, ra: Alloc, regs: Registers, trace: seq<FieldRead>)
    returns (regs': Registers)
    requires WellFormed(q) && ValidAlloc(ra) && GenBool(q, e, pos, ra).Ok?
    requires Placed(p, pos, GenBool(q, e, pos, ra).value)
    ensures Yields(p, ctx, pos, ra, regs, trace, regs', GenBool(q, e, pos, ra).value, EvalBool(q, e, ctx))
    decreases Nodes(e), 1
  {
    hide Gen, EnsureBool, At, Reaches, Keeps, Eval, AsBool, TypeOf, WellTyped, ValidAlloc, WellFormed;
    GenFrames(q, e, pos, ra);
    var f := Gen(q, e, pos, ra).value;
    EnsureBoolShape(f.dst, f.ty, f.ra);
    var g := EnsureBool(f.dst, f.ty, f.ra).value;
    AtSplit(p, pos, f.code, g.code);
    var v := Eval(q, e, ctx);
    var regs1 := GenRuns(q, e, p, ctx, pos, ra, regs, trace);
    regs' := EnsureBoolRuns(p, ctx, pos + |f.code|, f.dst, f.ty, f.ra, regs1, trace + v.trace);
    ComputesTrans(p, ctx, pos, pos + |f.code|, pos + |f.code| + |g.code|, ra, f.ra, regs, regs1, regs', trace,
                  f.dst, v, g.dst, Evaluation(AsBool(f.ty, v.value), []));
    TraceUnit(v.trace);
  }

  lemma {:induction false} NotRuns(
    q: Qualifiers, x: Expr, p: Program, ctx: Context, pos: nat, ra: Alloc, regs: Registers, trace: seq<FieldRead>)
    returns (regs': Registers)
    requires WellFormed(q) && ValidAlloc(ra) && GenNot(q, x, pos, ra).Ok? && Placed(p, pos, GenNot(q, x, pos, ra).value)
    ensures Yields(p, ctx, pos, ra, regs, trace, regs', GenNot(q, x, pos, ra).value, Eval(q, Not(x), ctx))
    decreases Nodes(x), 2
  {
    hide GenBool, GenNegate, At, Reaches, Keeps, EvalBool, Logical, ValidAlloc, WellFormed, Truth;
    GenBoolFrames(q, x, pos, ra);
    var f := GenBool(q, x, pos, ra).value;
    var g := GenNegate(f.dst, f.ra).value;
    NegateSize(f.dst, f.ra);
    AtSplit(p, pos, f.code, g.code);
    var v := EvalBool(q, x, ctx);
    var regs1 := GenBoolRuns(q, x, p, ctx, pos, ra, regs, trace);
    regs' := GenNegateRuns(p, ctx, pos + |f.code|, f.dst, f.ra, regs1, trace + v.trace);
    ComputesTrans(p, ctx, pos, pos + |f.code|, pos + |f.code| + 1, ra, f.ra, regs, regs1, regs', trace,
                  f.dst, v, g.dst, Evaluation(Truth(v.value == 0), []));
    TraceUnit(v.trace);
  }

  /** Two operands left to right: their values in two registers. */
  lemma {:induction false} OperandsRun(
    q: Qualifiers, l: Expr, r: Expr, p: Program, ctx: Context, pos: nat, ra: Alloc,
    regs: Registers, trace: seq<FieldRead>)
    returns (regs': Registers)
    requires WellFormed(q) && ValidAlloc(ra) && GenOperands(q, l, r, pos, ra).Ok?
    requires var o := GenOperands(q, l, r, pos, ra).value; At(p, pos, o.code) && o.ra.next <= p.registerCount
    ensures var o, x, y := GenOperands(q, l, r, pos, ra).value, Eval(q, l, ctx), Eval(q, r, ctx);
      && Reaches(p, ctx, Running(pos, regs, trace), Running(pos + |o.code|, regs', trace + (x.trace + y.trace)))
      && regs'[o.l] == x.value && regs'[o.r] == y.value && Keeps(ra, regs, regs')
    decreases Nodes(l) + Nodes(r), 0
  {
    hide Gen, At, Reaches, Eval, TypeOf, WellTyped, ValidAlloc, WellFormed;
    GenFrames(q, l, pos, ra);
    var f := Gen(q, l, pos, ra).value;
    GenFrames(q, r, pos + |f.code|, f.ra);
    var g := Gen(q, r, pos + |f.code|, f.ra).value;
    AtSplit(p, pos, f.code, g.code);
    var x, y := Eval(q, l, ctx), Eval(q, r, ctx);
    var regs1 := GenRuns(q, l, p, ctx, pos, ra, regs, trace);
    regs' := GenRuns(q, r, p, ctx, pos + |f.code|, f.ra, regs1, trace + x.trace);
    ComputesTrans(p, ctx, pos, pos + |f.code|, pos + |f.code| + |g.code|, ra, f.ra, regs, regs1, regs', trace,
                  f.dst, x, g.dst, y);
  }

  lemma {:induction false} BitsRuns(
    q: Qualifiers, op: BitOp, l: Expr, r: Expr, p: Program, ctx: Context, pos: nat, ra: Alloc,
    regs: Registers, trace: seq<FieldRead>)
    returns (regs': Registers)
    requires WellFormed(q) && ValidAlloc(ra) && GenBits(q, op, l, r, pos, ra).Ok?
    requires Placed(p, pos, GenBits(q, op, l, r, pos, ra).value)
    ensures var f := GenBits(q, op, l, r, pos, ra).value;
      Yields(p, ctx, pos, ra, regs, trace, regs', f, Eval(q, Bits(op, l, r), ctx))
    decreases Nodes(l) + Nodes(r), 1
  {
    hide GenOperands, GenBinary, At, Reaches, Eval, Compares, AndI64, OrI64, ValidAlloc, WellFormed, Live;
    OperandsLive(q, l, r, pos, ra);
    var o := GenOperands(q, l, r, pos, ra).value;
    var h := GenBinary(BitCode(op), VInt, o.l, o.r, o.ra).value;
    BinarySize(BitCode(op), VInt, o.l, o.r, o.ra);
    OperandsKeep(q, l, r, pos, ra);
    AtSplit(p, pos, o.code, h.code);
    EvalBits(q, op, l, r, ctx);
    var t := Eval(q, Bits(op, l, r), ctx).trace;
    var regs1 := OperandsRun(q, l, r, p, ctx, pos, ra, regs, trace);
    regs' := GenBinaryRuns(p, ctx, pos + |o.code|, BitCode(op), VInt, o.l, o.r, o.ra, regs1, trace + t);
    TraceUnit(trace + t);
    ReachesTrans(p, ctx, Running(pos, regs, trace), Running(pos + |o.code|, regs1, trace + t),
                 Running(pos + |o.code| + 1, regs', trace + t));
  }

  lemma EvalBits(q: Qualifiers, op: BitOp, l: Expr, r: Expr, ctx: Context)
    requires WellFormed(q)
    ensures var x, y := Eval(q, l, ctx), Eval(q, r, ctx);
      Eval(q, Bits(op, l, r), ctx) == Evaluation(BinaryValue(BitCode(op), x.value, y.value), x.trace + y.trace)
  {
    hide WellFormed, Eval, BinaryValue, AndI64, OrI64;
    EvalBitsIs(q, op, l, r, ctx);
    BitsValue(op, Eval(q, l, ctx).value, Eval(q, r, ctx).value);
  }

  lemma EvalBitsIs(q: Qualifiers, op: BitOp, l: Expr, r: Expr, ctx: Context)
    requires WellFormed(q)
    ensures var x, y := Eval(q, l, ctx), Eval(q, r, ctx);
      Eval(q, Bits(op, l, r), ctx) ==
      Evaluation(if op == BitAnd then AndI64(x.value, y.value) else OrI64(x.value, y.value), x.trace + y.trace)
  {
    hide WellFormed, AndI64, OrI64;
  }

  lemma BitsValue(op: BitOp, x: int64, y: int64)
    ensures BinaryValue(BitCode(op), x, y) == if op == BitAnd then AndI64(x, y) else OrI64(x, y)
  {
    hide AndI64, OrI64, Truth, Compares;
  }

  /** The registers live in `ra` are live after two operands, and are not theirs. */
  ghost predicate Above(ra: Alloc, o: Operands) {
    forall x: byte :: Live(ra, x) ==> Live(o.ra, x) && x != o.l && x != o.r
  }

  lemma OperandsKeep(q: Qualifiers, l: Expr, r: Expr, pos: nat, ra: Alloc)
    requires ValidAlloc(ra) && GenOperands(q, l, r, pos, ra).Ok?
    ensures var o := GenOperands(q, l, r, pos, ra).value; Above(ra, o)
  {
    hide GenOperands, WellTyped, OffsetsFit, JumpsFit, TypeOf, Need, Size;
    OperandsShape(q, l, r, pos, ra);
  }

  /** The coercion before a comparison: the values compared, in two registers. */
  lemma CoerceRuns(
    o: Operands, p: Program, ctx: Context, pos: nat, regs: Registers, trace: seq<FieldRead>)
    returns (regs': Registers)
    requires ValidAlloc(o.ra) && Live(o.ra, o.l) && Live(o.ra, o.r) && o.l != o.r && Coerce(o).Ok?
    requires At(p, pos, Coerce(o).value.code) && Coerce(o).value.ra.next <= p.registerCount
    ensures var c := Coerce(o).value;
      && Reaches(p, ctx, Running(pos, regs, trace), Running(pos + |c.code|, regs', trace))
      && (regs'[c.hi], regs'[c.lo]) == Coerced(o.lt, regs[o.l], o.rt, regs[o.r])
      && Keeps(o.ra, regs, regs')
  {
    hide EnsureBool, At, Reaches, AsBool, ValidAlloc, Live;
    regs' := regs;
    TraceUnit(trace);
    if o.lt == VBool && o.rt == VInt {
      regs' := EnsureBoolRuns(p, ctx, pos, o.r, VInt, o.ra, regs, trace);
    } else if o.lt == VInt && o.rt == VBool {
      regs' := EnsureBoolRuns(p, ctx, pos, o.l, VInt, o.ra, regs, trace);
    } else {
      ReachesSelf(p, ctx, Running(pos, regs, trace));
    }
  }

  lemma CompareTailRuns(
    op: CmpOp, o: Operands, p: Program, ctx: Context, pos: nat, ra: Alloc, regs: Registers, trace: seq<FieldRead>)
    returns (regs': Registers)
    requires ValidAlloc(o.ra) && Live(o.ra, o.l) && Live(o.ra, o.r) && o.l != o.r && Above(ra, o)
    requires CompareTail(op, o).Ok? && Placed(p, pos, CompareTail(op, o).value)
    ensures var t := CompareTail(op, o).value;
      var v := Coerced(o.lt, regs[o.l], o.rt, regs[o.r]);
      Computes(p, ctx, pos, pos + |t.code|, ra, regs, trace, regs', t.dst, Evaluation(Truth(Holds(op, v.0, v.1)), []))
  {
    hide Coerce, GenBinary, At, Reaches, ValidAlloc, Live, Coerced;
    CoerceLive(o);
    CoerceKeeps(o);
    var c := Coerce(o).value;
    var h := GenBinary(CmpCode(op), VBool, c.hi, c.lo, c.ra).value;
    BinarySize(CmpCode(op), VBool, c.hi, c.lo, c.ra);
    AtSplit(p, pos, c.code, h.code);
    TraceUnit(trace);
    var regs1 := CoerceRuns(o, p, ctx, pos, regs, trace);
    regs' := GenBinaryRuns(p, ctx, pos + |c.code|, CmpCode(op), VBool, c.hi, c.lo, c.ra, regs1, trace);
    ReachesTrans(p, ctx, Running(pos, regs, trace), Running(pos + |c.code|, regs1, trace),
                 Running(pos + |c.code| + 1, regs', trace));
  }

  /** A comparison that is not of IPv6 values. */
  lemma {:induction false} PlainCompareRuns(
    q: Qualifiers, op: CmpOp, l: Expr, r: Expr, p: Program, ctx: Context, pos: nat, ra: Alloc,
    regs: Registers, trace: seq<FieldRead>)
    returns (regs': Registers)
    requires WellFormed(q) && ValidAlloc(ra) && TypeOf(q, l) != VIpv6 && GenPlainCompare(q, op, l, r, pos, ra).Ok?
    requires Placed(p, pos, GenPlainCompare(q, op, l, r, pos, ra).value)
    ensures Yields(p, ctx, pos, ra, regs, trace, regs', GenPlainCompare(q, op, l, r, pos, ra).value,
                   Eval(q, Compare(op, l, r), ctx))
    decreases Nodes(l) + Nodes(r), 1
  {
    hide GenOperands, CompareTail, At, Reaches, Eval, ValidAlloc, WellFormed, Live, Truth, Holds, Coerced, TypeOf;
    OperandsLive(q, l, r, pos, ra);
    OperandsKeep(q, l, r, pos, ra);
    OperandsTypes(q, l, r, pos, ra);
    var o := GenOperands(q, l, r, pos, ra).value;
    var c := CompareTail(op, o).value;
    CompareTailNext(op, o);
    AtSplit(p, pos, o.code, c.code);
    EvalCompare(q, op, l, r, ctx);
    var t := Eval(q, Compare(op, l, r), ctx).trace;
    var regs1 := OperandsRun(q, l, r, p, ctx, pos, ra, regs, trace);
    regs' := CompareTailRuns(op, o, p, ctx, pos + |o.code|, ra, regs1, trace + t);
    TraceUnit(trace + t);
    ReachesTrans(p, ctx, Running(pos, regs, trace), Running(pos + |o.code|, regs1, trace + t),
                 Running(pos + |o.code| + |c.code|, regs', trace + t));
  }

  lemma CompareTailNext(op: CmpOp, o: Operands)
    requires ValidAlloc(o.ra) && Live(o.ra, o.l) && Live(o.ra, o.r) && o.l != o.r && CompareTail(op, o).Ok?
    ensures o.ra.next <= CompareTail(op, o).value.ra.next
  {
    hide Coerce, GenBinary;
    CoerceLive(o);
    var c := Coerce(o).value;
    BinarySize(CmpCode(op), VBool, c.hi, c.lo, c.ra);
  }

  lemma OperandsTypes(q: Qualifiers, l: Expr, r: Expr, pos: nat, ra: Alloc)
    requires ValidAlloc(ra) && GenOperands(q, l, r, pos, ra).Ok?
    ensures var o := GenOperands(q, l, r, pos, ra).value; o.lt == TypeOf(q, l) && o.rt == TypeOf(q, r)
  {
    hide GenOperands, WellTyped, OffsetsFit, JumpsFit, TypeOf, Need, Size;
    OperandsShape(q, l, r, pos, ra);
  }

  lemma EvalCompare(q: Qualifiers, op: CmpOp, l: Expr, r: Expr, ctx: Context)
    requires WellFormed(q) && TypeOf(q, l) != VIpv6
    ensures var x, y := Eval(q, l, ctx), Eval(q, r, ctx);
      var v := Coerced(TypeOf(q, l), x.value, TypeOf(q, r), y.value);
      Eval(q, Compare(op, l, r), ctx) == Evaluation(Truth(Holds(op, v.0, v.1)), x.trace + y.trace)
  {
    hide WellFormed, TypeOf, Coerced;
  }

  lemma {:induction false} CompareRuns(
    q: Qualifiers, op: CmpOp, l: Expr, r: Expr, p: Program, ctx: Context, pos: nat, ra: Alloc,
    regs: Registers, trace: seq<FieldRead>)
    returns (regs': Registers)
    requires WellFormed(q) && ValidAlloc(ra) && GenCompare(q, op, l, r, pos, ra).Ok?
    requires Placed(p, pos, GenCompare(q, op, l, r, pos, ra).value)
    ensures Yields(p, ctx, pos, ra, regs, trace, regs', GenCompare(q, op, l, r, pos, ra).value,
                   Eval(q, Compare(op, l, r), ctx))
    decreases Nodes(l) + Nodes(r), 2
  {
    hide GenPlainCompare, GenIpv6Compare, At, Computes, ValidAlloc, WellFormed, Ipv6Bytes, Ipv6Reads, Truth, Coerced;
    ResolveAgrees(q, l, pos);
    if TypeOf(q, l) == VIpv6 {
      regs' := Ipv6CompareRuns(q, op, l, r, p, ctx, pos, ra, regs, trace);
    } else {
      regs' := PlainCompareRuns(q, op, l, r, p, ctx, pos, ra, regs, trace);
    }
  }

  // ----- short circuits -----

  /** The right operand of `&&`, its move to the result register and the jump over the load. */
  lemma {:induction false} AndTrueRuns(
    q: Qualifiers, r: Expr, p: Program, ctx: Context, at: nat, mid: Alloc, d: byte, end: nat,
    regs: Registers, trace: seq<FieldRead>)
    returns (regs': Registers)
    requires WellFormed(q) && ValidAlloc(mid) && Live(mid, d) && GenBool(q, r, at, mid).Ok?
    requires var g := GenBool(q, r, at, mid).value;
      && Placed(p, at, g) && end == at + |g.code| + 4 && FitsI32(end)
      && At(p, at + |g.code|, AndTail(d, g.dst, end))
    ensures var v := EvalBool(q, r, ctx);
      && Reaches(p, ctx, Running(at, regs, trace), Running(end, regs', trace + v.trace))
      && regs'[d] == v.value
      && forall x: byte :: Live(mid, x) && x != d ==> regs'[x] == regs[x]
    decreases Nodes(r), 2
  {
    hide GenBool, At, Reaches, EvalBool, Logical, ValidAlloc, WellFormed, MakeLoadImm, Ins;
    GenBoolFrames(q, r, at, mid);
    var g := GenBool(q, r, at, mid).value;
    var v := EvalBool(q, r, ctx);
    var move := at + |g.code|;
    AtTail(p, move, d, g.dst, end);
    var regs1 := GenBoolRuns(q, r, p, ctx, at, mid, regs, trace);
    regs' := regs1[d := regs1[g.dst]];
    var t := trace + v.trace;
    RunMove(p, ctx, move, d, g.dst, regs1, t);
    RunJump(p, ctx, move + 1, end, regs', t);
    ReachesTrans(p, ctx, Running(at, regs, trace), Running(move, regs1, t), Running(move + 1, regs', t));
    ReachesTrans(p, ctx, Running(at, regs, trace), Running(move + 1, regs', t), Running(end, regs', t));
  }

  /** The four last slots of `&&`. */
  lemma AtTail(p: Program, pos: nat, d: byte, r: byte, end: int64)
    requires At(p, pos, AndTail(d, r, end))
    ensures At(p, pos, [Ins(MOVE, d, r, 0, 0)]) && At(p, pos + 1, [Ins(JUMP, 0, 0, 0, end)])
    ensures At(p, pos + 2, MakeLoadImm(d, 0)) && pos + 4 <= |p.code| && |AndTail(d, r, end)| == 4
  {
    hide Ins, DataSlot;
    var move, jump, load := [Ins(MOVE, d, r, 0, 0)], [Ins(JUMP, 0, 0, 0, end)], MakeLoadImm(d, 0);
    assert AndTail(d, r, end) == move + jump + load;
    AtSplit(p, pos, move + jump, load);
    AtSplit(p, pos, move, jump);
  }

  /** Where the parts of `l && r` stand: `l`, a jump to the load taken when it is false, `r`, and
      the tail. The result register `d` is new and live while `r` is computed above `mid`. */
  ghost predicate AndLaid(
    q: Qualifiers, l: Expr, r: Expr, p: Program, pos: nat, ra: Alloc, f: Frag, d: byte, mid: Alloc, g: Frag)
  {
    var p1 := pos + |f.code|;
    var no := p1 + 1 + |g.code| + 2;
    && GenBool(q, l, pos, ra) == Ok(f) && Placed(p, pos, f) && f.dst < p.registerCount
    && NewAbove(ra, d, mid) && d < p.registerCount
    && GenBool(q, r, p1 + 1, mid) == Ok(g) && Placed(p, p1 + 1, g) && g.dst < p.registerCount
    && FitsI32(no + 2) && no + 2 <= |p.code|
    && At(p, p1, [Ins(JUMP_IF_FALSE, f.dst, 0, 0, no)]) && At(p, no - 2, AndTail(d, g.dst, no + 2))
  }

  /** `d` was not live in `ra` and is live in `mid`, with all that was live in `ra`. */
  ghost predicate NewAbove(ra: Alloc, d: byte, mid: Alloc) {
    ValidAlloc(mid) && Live(mid, d) && !Live(ra, d) && forall x :: Live(ra, x) ==> Live(mid, x)
  }

  /** The operands of a logical operator: the left one's register is released into `mid` once
      the result register `d` is taken. */
  ghost predicate Operated(
    q: Qualifiers, l: Expr, r: Expr, pos: nat, gap: nat, ra: Alloc, f: Frag, d: byte, mid: Alloc, g: Frag)
  {
    && GenBool(q, l, pos, ra) == Ok(f) && GenBool(q, r, pos + |f.code| + gap, mid) == Ok(g) && NewAbove(ra, d, mid)
    && f.dst < f.ra.next <= mid.next <= g.ra.next && d < mid.next && g.dst < g.ra.next
  }

  lemma AndOperands(q: Qualifiers, l: Expr, r: Expr, pos: nat, ra: Alloc)
    returns (f: Frag, d: byte, mid: Alloc, g: Frag)
    requires ValidAlloc(ra) && GenAnd(q, l, r, pos, ra).Ok?
    ensures Operated(q, l, r, pos, 1, ra, f, d, mid, g) && GenAnd(q, l, r, pos, ra) == AndFrag(f, d, g, pos)
  {
    hide GenBool, ValidAlloc, Logical, AndFrag, TakeReg, Live;
    f := GenBool(q, l, pos, ra).value;
    GenBoolFrames(q, l, pos, ra);
    LeftDone(ra, f);
    d, mid := TakeReg(f.ra).value.0, Give(TakeReg(f.ra).value.1, f.dst);
    g := GenBool(q, r, pos + |f.code| + 1, mid).value;
    GenBoolFrames(q, r, pos + |f.code| + 1, mid);
  }

  /** The slots of `&&` and where each part of them stands. */
  lemma AndPlaced(p: Program, pos: nat, f: Frag, d: byte, g: Frag)
    requires AndFrag(f, d, g, pos).Ok? && At(p, pos, AndFrag(f, d, g, pos).value.code)
    ensures var p1 := pos + |f.code|;
      var no := p1 + 1 + |g.code| + 2;
      && FitsI32(no + 2) && no + 2 <= |p.code| && |AndFrag(f, d, g, pos).value.code| == no + 2 - pos
      && At(p, pos, f.code) && At(p, p1, [Ins(JUMP_IF_FALSE, f.dst, 0, 0, no)]) && At(p, p1 + 1, g.code)
      && At(p, no - 2, AndTail(d, g.dst, no + 2))
  {
    hide At, AndTail, Ins, PatchError, Give;
    var p1 := pos + |f.code|;
    var jump := [Ins(JUMP_IF_FALSE, f.dst, 0, 0, p1 + 1 + |g.code| + 2)];
    var tail := AndTail(d, g.dst, p1 + 1 + |g.code| + 4);
    AtSplit(p, pos, f.code + jump + g.code, tail);
    AtSplit(p, pos, f.code + jump, g.code);
    AtSplit(p, pos, f.code, jump);
    AtTail(p, p1 + 1 + |g.code|, d, g.dst, p1 + 1 + |g.code| + 4);
  }

  lemma AndParts(q: Qualifiers, l: Expr, r: Expr, p: Program, pos: nat, ra: Alloc)
    returns (f: Frag, d: byte, mid: Alloc, g: Frag)
    requires ValidAlloc(ra) && GenAnd(q, l, r, pos, ra).Ok? && Placed(p, pos, GenAnd(q, l, r, pos, ra).value)
    ensures AndLaid(q, l, r, p, pos, ra, f, d, mid, g)
    ensures var a := GenAnd(q, l, r, pos, ra).value; a.dst == d && |a.code| == |f.code| + |g.code| + 5
  {
    hide GenAnd, GenBool, At, AndTail, Ins, NewAbove, PatchError;
    f, d, mid, g := AndOperands(q, l, r, pos, ra);
    AndPlaced(p, pos, f, d, g);
  }

  lemma EvalAnd(q: Qualifiers, l: Expr, r: Expr, ctx: Context)
    requires WellFormed(q)
    ensures var x, y := EvalBool(q, l, ctx), EvalBool(q, r, ctx);
      Eval(q, And(l, r), ctx) == if x.value == 0 then Evaluation(0, x.trace) else Evaluation(y.value, x.trace + y.trace)
  {
    hide EvalBool;
  }

  lemma EvalOr(q: Qualifiers, l: Expr, r: Expr, ctx: Context)
    requires WellFormed(q)
    ensures var x, y := EvalBool(q, l, ctx), EvalBool(q, r, ctx);
      Eval(q, Or(l, r), ctx) == if x.value != 0 then Evaluation(1, x.trace) else Evaluation(y.value, x.trace + y.trace)
  {
    hide EvalBool;
  }

  lemma {:induction false} AndRuns(
    q: Qualifiers, l: Expr, r: Expr, p: Program, ctx: Context, pos: nat, ra: Alloc,
    regs: Registers, trace: seq<FieldRead>)
    returns (regs': Registers)
    requires WellFormed(q) && ValidAlloc(ra) && GenAnd(q, l, r, pos, ra).Ok?
    requires Placed(p, pos, GenAnd(q, l, r, pos, ra).value)
    ensures Yields(p, ctx, pos, ra, regs, trace, regs', GenAnd(q, l, r, pos, ra).value, Eval(q, And(l, r), ctx))
    decreases Nodes(l) + Nodes(r), 0
  {
    hide GenBool, GenAnd, At, Reaches, Eval, EvalBool, ValidAlloc, WellFormed, MakeLoadImm, AndTail, Ins, Live;
    EvalAnd(q, l, r, ctx);
    var f, d, mid, g := AndParts(q, l, r, p, pos, ra);
    var p1 := pos + |f.code|;
    var no := p1 + 1 + |g.code| + 2;
    AtTail(p, no - 2, d, g.dst, no + 2);
    var x := EvalBool(q, l, ctx);
    var t := trace + x.trace;
    var regs1 := GenBoolRuns(q, l, p, ctx, pos, ra, regs, trace);
    RunJumpIfFalse(p, ctx, p1, f.dst, no, regs1, t);
    if x.value == 0 {
      RunImm(p, ctx, no, d, 0, regs1, t);
      regs' := regs1[d := 0];
      ReachesTrans(p, ctx, Running(pos, regs, trace), Running(p1, regs1, t), Running(no, regs1, t));
      ReachesTrans(p, ctx, Running(pos, regs, trace), Running(no, regs1, t), Running(no + 2, regs', t));
    } else {
      regs' := AndTrueRuns(q, r, p, ctx, p1 + 1, mid, d, no + 2, regs1, t);
      var y := EvalBool(q, r, ctx);
      TraceAssoc(trace, x.trace, y.trace);
      ReachesTrans(p, ctx, Running(pos, regs, trace), Running(p1, regs1, t), Running(p1 + 1, regs1, t));
      ReachesTrans(p, ctx, Running(pos, regs, trace), Running(p1 + 1, regs1, t), Running(no + 2, regs', t + y.trace));
    }
  }

  lemma TraceAssoc(a: seq<FieldRead>, b: seq<FieldRead>, c: seq<FieldRead>)
    ensures a + b + c == a + (b + c)
  {
  }

  /** After the left operand of `&&` or `||`: the result register is new and stays live. */
  lemma LeftDone(ra: Alloc, f: Frag)
    requires ValidAlloc(ra) && Frames(ra, f) && TakeReg(f.ra).Ok?
    ensures var d, mid := TakeReg(f.ra).value.0, Give(TakeReg(f.ra).value.1, f.dst);
      && ValidAlloc(mid) && f.ra.next <= mid.next && d < mid.next && Live(mid, d) && !Live(ra, d)
      && forall x :: Live(ra, x) ==> Live(mid, x)
  {
    TakeAddsOne(f.ra);
    GiveRemovesOne(Take(f.ra), f.dst);
  }

  /** Where the parts of `l || r` stand: `l`, the true branch, `r` and its move. */
  ghost predicate OrLaid(
    q: Qualifiers, l: Expr, r: Expr, p: Program, pos: nat, ra: Alloc, f: Frag, d: byte, mid: Alloc, g: Frag)
  {
    var p1 := pos + |f.code|;
    var end := p1 + 4 + |g.code| + 1;
    && GenBool(q, l, pos, ra) == Ok(f) && Placed(p, pos, f) && f.dst < p.registerCount
    && NewAbove(ra, d, mid) && d < p.registerCount
    && GenBool(q, r, p1 + 4, mid) == Ok(g) && Placed(p, p1 + 4, g) && g.dst < p.registerCount
    && FitsI32(end) && end <= |p.code|
    && At(p, p1, OrHead(d, f.dst, p1 + 4, end)) && At(p, end - 1, [Ins(MOVE, d, g.dst, 0, 0)])
  }

  lemma OrOperands(q: Qualifiers, l: Expr, r: Expr, pos: nat, ra: Alloc)
    returns (f: Frag, d: byte, mid: Alloc, g: Frag)
    requires ValidAlloc(ra) && GenOr(q, l, r, pos, ra).Ok?
    ensures Operated(q, l, r, pos, 4, ra, f, d, mid, g) && GenOr(q, l, r, pos, ra) == OrFrag(f, d, g, pos)
  {
    hide GenBool, ValidAlloc, Logical, OrFrag, TakeReg, Live, PatchError;
    f := GenBool(q, l, pos, ra).value;
    GenBoolFrames(q, l, pos, ra);
    LeftDone(ra, f);
    d, mid := TakeReg(f.ra).value.0, Give(TakeReg(f.ra).value.1, f.dst);
    g := GenBool(q, r, pos + |f.code| + 4, mid).value;
    GenBoolFrames(q, r, pos + |f.code| + 4, mid);
  }

  /** The slots of `||` and where each part of them stands. */
  lemma OrPlaced(p: Program, pos: nat, f: Frag, d: byte, g: Frag)
    requires OrFrag(f, d, g, pos).Ok? && At(p, pos, OrFrag(f, d, g, pos).value.code)
    ensures var p1 := pos + |f.code|;
      var end := p1 + 4 + |g.code| + 1;
      && FitsI32(end) && end <= |p.code| && |OrFrag(f, d, g, pos).value.code| == end - pos
      && At(p, pos, f.code) && At(p, p1, OrHead(d, f.dst, p1 + 4, end)) && At(p, p1 + 4, g.code)
      && At(p, end - 1, [Ins(MOVE, d, g.dst, 0, 0)])
  {
    hide At, OrHead, Ins, Give;
    var p1 := pos + |f.code|;
    var end := p1 + 4 + |g.code| + 1;
    var head := OrHead(d, f.dst, p1 + 4, end);
    HeadLength(d, f.dst, p1 + 4, end);
    AtSplit(p, pos, f.code + head + g.code, [Ins(MOVE, d, g.dst, 0, 0)]);
    AtSplit(p, pos, f.code + head, g.code);
    AtSplit(p, pos, f.code, head);
    AtOne(p, end - 1, Ins(MOVE, d, g.dst, 0, 0));
  }

  lemma OrParts(q: Qualifiers, l: Expr, r: Expr, p: Program, pos: nat, ra: Alloc)
    returns (f: Frag, d: byte, mid: Alloc, g: Frag)
    requires ValidAlloc(ra) && GenOr(q, l, r, pos, ra).Ok? && Placed(p, pos, GenOr(q, l, r, pos, ra).value)
    ensures OrLaid(q, l, r, p, pos, ra, f, d, mid, g)
    ensures var a := GenOr(q, l, r, pos, ra).value; a.dst == d && |a.code| == |f.code| + |g.code| + 5
  {
    hide GenOr, GenBool, At, OrHead, Ins, NewAbove;
    f, d, mid, g := OrOperands(q, l, r, pos, ra);
    OrPlaced(p, pos, f, d, g);
  }

  lemma HeadLength(d: byte, l: byte, rhs: int64, end: int64)
    ensures |OrHead(d, l, rhs, end)| == 4
  {
    hide Ins, DataSlot;
  }

  lemma {:induction false} OrRuns(
    q: Qualifiers, l: Expr, r: Expr, p: Program, ctx: Context, pos: nat, ra: Alloc,
    regs: Registers, trace: seq<FieldRead>)
    returns (regs': Registers)
    requires WellFormed(q) && ValidAlloc(ra) && GenOr(q, l, r, pos, ra).Ok?
    requires Placed(p, pos, GenOr(q, l, r, pos, ra).value)
    ensures Yields(p, ctx, pos, ra, regs, trace, regs', GenOr(q, l, r, pos, ra).value, Eval(q, Or(l, r), ctx))
    decreases Nodes(l) + Nodes(r), 0
  {
    hide GenBool, GenOr, At, Reaches, Eval, EvalBool, ValidAlloc, WellFormed, MakeLoadImm, OrHead, Ins, Live;
    EvalOr(q, l, r, ctx);
    var f, d, mid, g := OrParts(q, l, r, p, pos, ra);
    var p1 := pos + |f.code|;
    var end := p1 + 4 + |g.code| + 1;
    AtHead(p, p1, d, f.dst, p1 + 4, end);
    var x := EvalBool(q, l, ctx);
    var t := trace + x.trace;
    var regs1 := GenBoolRuns(q, l, p, ctx, pos, ra, regs, trace);
    RunJumpIfFalse(p, ctx, p1, f.dst, p1 + 4, regs1, t);
    if x.value != 0 {
      regs' := regs1[d := 1];
      RunImm(p, ctx, p1 + 1, d, 1, regs1, t);
      RunJump(p, ctx, p1 + 3, end, regs', t);
      ReachesTrans(p, ctx, Running(pos, regs, trace), Running(p1, regs1, t), Running(p1 + 1, regs1, t));
      ReachesTrans(p, ctx, Running(pos, regs, trace), Running(p1 + 1, regs1, t), Running(p1 + 3, regs', t));
      ReachesTrans(p, ctx, Running(pos, regs, trace), Running(p1 + 3, regs', t), Running(end, regs', t));
    } else {
      regs' := OrFalseRuns(q, r, p, ctx, p1 + 4, mid, d, regs1, t);
      var y := EvalBool(q, r, ctx);
      TraceAssoc(trace, x.trace, y.trace);
      ReachesTrans(p, ctx, Running(pos, regs, trace), Running(p1, regs1, t), Running(p1 + 4, regs1, t));
      ReachesTrans(p, ctx, Running(pos, regs, trace), Running(p1 + 4, regs1, t), Running(end, regs', t + y.trace));
    }
  }

  /** The slots of `||` between its operands. */
  lemma AtHead(p: Program, pos: nat, d: byte, l: byte, rhs: int64, end: int64)
    requires At(p, pos, OrHead(d, l, rhs, end))
    ensures At(p, pos, [Ins(JUMP_IF_FALSE, l, 0, 0, rhs)]) && At(p, pos + 1, MakeLoadImm(d, 1))
    ensures At(p, pos + 3, [Ins(JUMP, 0, 0, 0, end)]) && |OrHead(d, l, rhs, end)| == 4
  {
    hide Ins, DataSlot;
    var test, load, jump := [Ins(JUMP_IF_FALSE, l, 0, 0, rhs)], MakeLoadImm(d, 1), [Ins(JUMP, 0, 0, 0, end)];
    AtSplit(p, pos, test + load, jump);
    AtSplit(p, pos, test, load);
  }

  /** The right operand of `||` and its move to the result register. */
  lemma {:induction false} OrFalseRuns(
    q: Qualifiers, r: Expr, p: Program, ctx: Context, at: nat, mid: Alloc, d: byte,
    regs: Registers, trace: seq<FieldRead>)
    returns (regs': Registers)
    requires WellFormed(q) && ValidAlloc(mid) && Live(mid, d) && GenBool(q, r, at, mid).Ok?
    requires var g := GenBool(q, r, at, mid).value;
      Placed(p, at, g) && At(p, at + |g.code|, [Ins(MOVE, d, g.dst, 0, 0)])
    ensures var g, v := GenBool(q, r, at, mid).value, EvalBool(q, r, ctx);
      && Reaches(p, ctx, Running(at, regs, trace), Running(at + |g.code| + 1, regs', trace + v.trace))
      && regs'[d] == v.value
      && forall x: byte :: Live(mid, x) && x != d ==> regs'[x] == regs[x]
    decreases Nodes(r), 2
  {
    hide GenBool, At, Reaches, EvalBool, Logical, ValidAlloc, WellFormed, Ins;
    GenBoolFrames(q, r, at, mid);
    var g := GenBool(q, r, at, mid).value;
    var v := EvalBool(q, r, ctx);
    var move, t := at + |g.code|, trace + v.trace;
    var regs1 := GenBoolRuns(q, r, p, ctx, at, mid, regs, trace);
    regs' := regs1[d := regs1[g.dst]];
    RunMove(p, ctx, move, d, g.dst, regs1, t);
    ReachesTrans(p, ctx, Running(at, regs, trace), Running(move, regs1, t), Running(move + 1, regs', t));
  }
}
