/** The code of an expression as a value. `Gen` names the slots, the result register and the
    allocator after an expression, or the first failure. Unlike the compiler it has no patching,
    no bitset and no sticky flag: jump targets are computed from the lengths of the parts, and
    a failure stops the generation. `Compiler` is proved to produce exactly this. */
module CodeGen {
  import opened Words
  import opened Common
  import opened Bytecode
  import opened Registry
  import opened Ast
  import opened Allocator

  datatype ValueType = VBool | VInt | VIpv4 | VIpv6

  /** The messages of the compiler. The last three report broken internal invariants. */
  datatype CompileError =
    | EmptyNode
    | UnknownQualifier
    | Ipv6AsValue
    | BadIpv4
    | BadIpv6
    | Ipv6NeedsQualifier
    | Ipv6NeedsOperands
    | IpTypesDiffer
    | IpNeedsEquality
    | IncompatibleOperands
    | BitwiseNeedsIntegers
    | LogicNeedsTruth
    | RegisterLimit
    | PayloadRange
    | JumpRange
    | InternalRelease
    | InternalDoubleRelease
    | InternalPatch

  function StatusOf(e: CompileError): Status {
    match e
    case UnknownQualifier => QualifierNotFound
    case BadIpv4 => ParseError
    case BadIpv6 => ParseError
    case Ipv6AsValue => TypeMismatch
    case Ipv6NeedsQualifier => TypeMismatch
    case Ipv6NeedsOperands => TypeMismatch
    case IpTypesDiffer => TypeMismatch
    case IpNeedsEquality => TypeMismatch
    case IncompatibleOperands => TypeMismatch
    case BitwiseNeedsIntegers => TypeMismatch
    case LogicNeedsTruth => TypeMismatch
    case _ => CodegenError
  }

  datatype Result<+T> = Ok(value: T) | Err(error: CompileError) {
    predicate IsFailure() {
      Err?
    }

    function PropagateFailure<U>(): Result<U>
      requires Err?
    {
      Err(error)
    }

    function Extract(): T
      requires Ok?
    {
      value
    }
  }

  /** Some emitted slots, the register and type of their value, and the allocator after them. */
  datatype Frag = Frag(code: seq<Instruction>, dst: byte, ty: ValueType, ra: Alloc)

  /** The two registers of an IPv6 value. */
  datatype Pair = Pair(code: seq<Instruction>, hi: byte, lo: byte, ra: Alloc)

  function CodeOf(r: Result<Frag>): seq<Instruction> {
    if r.Ok? then r.value.code else []
  }

  /** The slots of two operands and their registers and types. */
  datatype Operands =
    Operands(code: seq<Instruction>, l: byte, lt: ValueType, r: byte, rt: ValueType, ra: Alloc)

  function QualifierType(t: FieldType): ValueType {
    match t
    case BoolT => VBool
    case Ipv4T => VIpv4
    case Ipv6T => VIpv6
    case _ => VInt
  }

  predicate IsIp(t: ValueType) {
    t == VIpv4 || t == VIpv6
  }

  function CmpCode(op: CmpOp): byte {
    match op
    case Eq => CMP_EQ
    case Ne => CMP_NE
    case Gt => CMP_GT
    case Lt => CMP_LT
    case Ge => CMP_GE
    case Le => CMP_LE
  }

  function BitCode(op: BitOp): byte {
    match op
    case BitAnd => AND
    case BitOr => OR
  }

  /** The type an operand will have, found before anything is emitted for it. */
  function Resolve(q: Qualifiers, e: Expr): Result<ValueType> {
    match e
    case Null => Err(EmptyNode)
    case Ident(n) => if n in q then Ok(QualifierType(q[n].ty)) else Err(UnknownQualifier)
    case Integer(_) => Ok(VInt)
    case Ipv4(_) => Ok(VIpv4)
    case Ipv6(_) => Ok(VIpv6)
    case Bits(_, _, _) => Ok(VInt)
    case _ => Ok(VBool)
  }

  function TakeReg(ra: Alloc): Result<(byte, Alloc)> {
    if CanTake(ra) then Ok((Taken(ra), Take(ra))) else Err(RegisterLimit)
  }

  function GenImm(value: int64, ty: ValueType, ra: Alloc): Result<Frag> {
    var (d, ra1) :- TakeReg(ra);
    Ok(Frag(MakeLoadImm(d, value), d, ty, ra1))
  }

  function GenLoad(offset: uint32, size: byte, sign: byte, ty: ValueType, ra: Alloc): Result<Frag> {
    var (d, ra1) :- TakeReg(ra);
    if FitsI32(offset) then Ok(Frag([Ins(LOAD_FIELD, d, size, sign, offset)], d, ty, ra1))
    else Err(PayloadRange)
  }

  function GenIdent(q: Qualifiers, name: string, ra: Alloc): Result<Frag> {
    if name !in q then Err(UnknownQualifier)
    else if q[name].ty == Ipv6T then Err(Ipv6AsValue)
    else
      GenLoad(q[name].offset, q[name].size, if IsSigned(q[name].ty) then 1 else 0, QualifierType(q[name].ty), ra)
  }

  function GenIpv4(addr: Option<Bytes4>, ra: Alloc): Result<Frag> {
    if addr == None then Err(BadIpv4) else
      LEBound(addr.value); Pow256Values();
      GenImm(LE(addr.value), VIpv4, ra)
  }

  /** One half of an IPv6 literal as the word `memcpy` makes of its 8 bytes. */
  function Word64(bs: seq<byte>): uint64
    requires |bs| == 8
  {
    LEBound(bs); Pow256Values();
    LE(bs)
  }

  function GenIpv6Literal(addr: Option<Bytes16>, ra: Alloc): Result<Pair> {
    if addr == None then Err(BadIpv6) else
      var hi :- GenImm(ToI64(Word64(addr.value[..8])), VInt, ra);
      var lo :- GenImm(ToI64(Word64(addr.value[8..])), VInt, hi.ra);
      Ok(Pair(hi.code + lo.code, hi.dst, lo.dst, lo.ra))
  }

  function GenIpv6Ident(q: Qualifiers, name: string, ra: Alloc): Result<Pair> {
    if name !in q then Err(UnknownQualifier)
    else if q[name].ty != Ipv6T then Err(Ipv6NeedsQualifier)
    else
      var hi :- GenLoad(q[name].offset, 8, 0, VInt, ra);
      var lo :- GenLoad((q[name].offset + 8) % 0x1_0000_0000, 8, 0, VInt, hi.ra);
      Ok(Pair(hi.code + lo.code, hi.dst, lo.dst, lo.ra))
  }

  function GenIpv6Value(q: Qualifiers, e: Expr, ra: Alloc): Result<Pair> {
    match e
    case Null => Err(EmptyNode)
    case Ident(n) => GenIpv6Ident(q, n, ra)
    case Ipv6(a) => GenIpv6Literal(a, ra)
    case _ => Err(Ipv6NeedsOperands)
  }

  /** A three-register instruction that consumes its two operands. */
  function GenBinary(op: byte, ty: ValueType, a: byte, b: byte, ra: Alloc): Result<Frag> {
    var (d, ra1) :- TakeReg(ra);
    Ok(Frag([Ins(op, d, a, b, 0)], d, ty, Give(Give(ra1, a), b)))
  }

  function GenNegate(a: byte, ra: Alloc): Result<Frag> {
    var (d, ra1) :- TakeReg(ra);
    Ok(Frag([Ins(NOT, d, a, 0, 0)], d, VBool, Give(ra1, a)))
  }

  /** The equality of each half of two IPv6 values, in two registers. */
  function GenHalves(l: Pair, r: Pair): Result<Pair> {
    var hi :- GenBinary(CMP_EQ, VBool, l.hi, r.hi, r.ra);
    var lo :- GenBinary(CMP_EQ, VBool, l.lo, r.lo, hi.ra);
    Ok(Pair(hi.code + lo.code, hi.dst, lo.dst, lo.ra))
  }

  /** Both halves equal, or for `!=` the negation of that. */
  function GenBoth(op: CmpOp, halves: Pair): Result<Frag> {
    var both :- GenBinary(AND, VBool, halves.hi, halves.lo, halves.ra);
    if op == Eq then Ok(both) else
      var ne :- GenNegate(both.dst, both.ra);
      Ok(Frag(both.code + ne.code, ne.dst, ne.ty, ne.ra))
  }

  function GenIpv6Compare(q: Qualifiers, op: CmpOp, l: Expr, r: Expr, ra: Alloc): Result<Frag> {
    var lp :- GenIpv6Value(q, l, ra);
    var rp :- GenIpv6Value(q, r, lp.ra);
    var h :- GenHalves(lp, rp);
    var t :- GenBoth(op, h);
    Ok(Frag(lp.code + rp.code + h.code + t.code, t.dst, t.ty, t.ra))
  }

  /** The slots that make a truth value of `v`, which they consume unless it is one already. */
  function EnsureBool(v: byte, ty: ValueType, ra: Alloc): Result<Frag> {
    match ty
    case VBool => Ok(Frag([], v, VBool, ra))
    case VInt =>
      var zero :- GenImm(0, VInt, ra);
      var ne :- GenBinary(CMP_NE, VBool, v, zero.dst, zero.ra);
      Ok(Frag(zero.code + ne.code, ne.dst, ne.ty, ne.ra))
    case _ => Err(LogicNeedsTruth)
  }

  function Gen(q: Qualifiers, e: Expr, pos: nat, ra: Alloc): Result<Frag>
    decreases Nodes(e), 0
  {
    match e
    case Null => Err(EmptyNode)
    case Ident(n) => GenIdent(q, n, ra)
    case Integer(v) => GenImm(v, VInt, ra)
    case Boolean(b) => GenImm(Truth(b), VBool, ra)
    case Ipv4(a) => GenIpv4(a, ra)
    case Ipv6(_) => Err(Ipv6AsValue)
    case Not(x) => GenNot(q, x, pos, ra)
    case And(l, r) => GenAnd(q, l, r, pos, ra)
    case Or(l, r) => GenOr(q, l, r, pos, ra)
    case Compare(op, l, r) => GenCompare(q, op, l, r, pos, ra)
    case Bits(op, l, r) => GenBits(q, op, l, r, pos, ra)
  }

  /** An operand of a logical operator: its code and the coercion to a truth value. */
  function GenBool(q: Qualifiers, e: Expr, pos: nat, ra: Alloc): Result<Frag>
    decreases Nodes(e), 1
  {
    var f :- Gen(q, e, pos, ra);
    var g :- EnsureBool(f.dst, f.ty, f.ra);
    Ok(Frag(f.code + g.code, g.dst, g.ty, g.ra))
  }

  function GenNot(q: Qualifiers, x: Expr, pos: nat, ra: Alloc): Result<Frag>
    decreases Nodes(x), 2
  {
    var f :- GenBool(q, x, pos, ra);
    var g :- GenNegate(f.dst, f.ra);
    Ok(Frag(f.code + g.code, g.dst, g.ty, g.ra))
  }

  function GenAnd(q: Qualifiers, l: Expr, r: Expr, pos: nat, ra: Alloc): Result<Frag>
    decreases Nodes(l) + Nodes(r), 0
  {
    var f :- GenBool(q, l, pos, ra);
    GenAndRight(q, f, r, pos)
  }

  function GenAndRight(q: Qualifiers, f: Frag, r: Expr, pos: nat): Result<Frag>
    decreases Nodes(r), 2
  {
    var (d, ra1) :- TakeReg(f.ra);
    var g :- GenBool(q, r, pos + |f.code| + 1, Give(ra1, f.dst));
    AndFrag(f, d, g, pos)
  }

  /** The failure of patching the jump at slot `index` to a target beyond 32 signed bits: the
      compiler keeps indices as `int`, so from slot 2^31 on it may not recognise its own jump. */
  function PatchError(index: nat): CompileError {
    if CastI32(index) < 0 then InternalPatch else JumpRange
  }

  /** `l`; if false go to `no`; `r`; move; go to the end; `no`: load 0. */
  function AndFrag(l: Frag, d: byte, r: Frag, pos: nat): Result<Frag> {
    var no := pos + |l.code| + 1 + |r.code| + 2;
    if !FitsI32(no + 2) then Err(PatchError(pos + |l.code|)) else
      Ok(Frag(l.code + [Ins(JUMP_IF_FALSE, l.dst, 0, 0, no)] + r.code + AndTail(d, r.dst, no + 2),
              d, VBool, Give(r.ra, r.dst)))
  }

  function AndTail(d: byte, r: byte, end: int64): seq<Instruction> {
    [Ins(MOVE, d, r, 0, 0), Ins(JUMP, 0, 0, 0, end)] + MakeLoadImm(d, 0)
  }

  function GenOr(q: Qualifiers, l: Expr, r: Expr, pos: nat, ra: Alloc): Result<Frag>
    decreases Nodes(l) + Nodes(r), 0
  {
    var f :- GenBool(q, l, pos, ra);
    GenOrRight(q, f, r, pos)
  }

  function GenOrRight(q: Qualifiers, f: Frag, r: Expr, pos: nat): Result<Frag>
    decreases Nodes(r), 2
  {
    var (d, ra1) :- TakeReg(f.ra);
    var rhs := pos + |f.code| + 4;
    if !FitsI32(rhs) then Err(PatchError(pos + |f.code|)) else
      var g :- GenBool(q, r, rhs, Give(ra1, f.dst));
      OrFrag(f, d, g, pos)
  }

  /** `l`; if false go to `rhs`; load 1; go to the end; `rhs`: `r`; move. */
  function OrFrag(l: Frag, d: byte, r: Frag, pos: nat): Result<Frag> {
    var rhs := pos + |l.code| + 4;
    var end := rhs + |r.code| + 1;
    if !FitsI32(end) then Err(JumpRange) else
      Ok(Frag(l.code + OrHead(d, l.dst, rhs, end) + r.code + [Ins(MOVE, d, r.dst, 0, 0)],
              d, VBool, Give(r.ra, r.dst)))
  }

  function OrHead(d: byte, l: byte, rhs: int64, end: int64): seq<Instruction> {
    [Ins(JUMP_IF_FALSE, l, 0, 0, rhs)] + MakeLoadImm(d, 1) + [Ins(JUMP, 0, 0, 0, end)]
  }

  /** The operands of a comparison or a bitwise operator, left to right. */
  function GenOperands(q: Qualifiers, l: Expr, r: Expr, pos: nat, ra: Alloc): Result<Operands>
    decreases Nodes(l) + Nodes(r), 0
  {
    var f :- Gen(q, l, pos, ra);
    var g :- Gen(q, r, pos + |f.code|, f.ra);
    Ok(Operands(f.code + g.code, f.dst, f.ty, g.dst, g.ty, g.ra))
  }

  function GenCompare(q: Qualifiers, op: CmpOp, l: Expr, r: Expr, pos: nat, ra: Alloc): Result<Frag>
    decreases Nodes(l) + Nodes(r), 3
  {
    var lt :- Resolve(q, l);
    var rt :- Resolve(q, r);
    GenTypedCompare(q, op, l, lt, r, rt, pos, ra)
  }

  /** The choice between the comparisons, from the types found before emission. */
  function GenTypedCompare(
    q: Qualifiers, op: CmpOp, l: Expr, lt: ValueType, r: Expr, rt: ValueType, pos: nat, ra: Alloc): Result<Frag>
    decreases Nodes(l) + Nodes(r), 2
  {
    if (IsIp(lt) || IsIp(rt)) && lt != rt then Err(IpTypesDiffer)
    else if IsIp(lt) && op != Eq && op != Ne then Err(IpNeedsEquality)
    else if lt == VIpv6 then GenIpv6Compare(q, op, l, r, ra)
    else GenPlainCompare(q, op, l, r, pos, ra)
  }

  /** A comparison that is not of IPv6 values. */
  function GenPlainCompare(q: Qualifiers, op: CmpOp, l: Expr, r: Expr, pos: nat, ra: Alloc): Result<Frag>
    decreases Nodes(l) + Nodes(r), 1
  {
    var o :- GenOperands(q, l, r, pos, ra);
    var t :- CompareTail(op, o);
    Ok(Frag(o.code + t.code, t.dst, t.ty, t.ra))
  }

  /** The coercions before a comparison, given the operands' emitted types. */
  function Coerce(o: Operands): Result<Pair> {
    if o.lt == VBool && o.rt == VInt then
      var g :- EnsureBool(o.r, o.rt, o.ra);
      Ok(Pair(g.code, o.l, g.dst, g.ra))
    else if o.lt == VInt && o.rt == VBool then
      var g :- EnsureBool(o.l, o.lt, o.ra);
      Ok(Pair(g.code, g.dst, o.r, g.ra))
    else if o.lt != o.rt then Err(IncompatibleOperands)
    else Ok(Pair([], o.l, o.r, o.ra))
  }

  /** The comparison of two operands already in registers. */
  function CompareTail(op: CmpOp, o: Operands): Result<Frag> {
    var p :- Coerce(o);
    var h :- GenBinary(CmpCode(op), VBool, p.hi, p.lo, p.ra);
    Ok(Frag(p.code + h.code, h.dst, h.ty, h.ra))
  }

  function GenBits(q: Qualifiers, op: BitOp, l: Expr, r: Expr, pos: nat, ra: Alloc): Result<Frag>
    decreases Nodes(l) + Nodes(r), 1
  {
    var o :- GenOperands(q, l, r, pos, ra);
    if o.lt != VInt || o.rt != VInt then Err(BitwiseNeedsIntegers) else
      var h :- GenBinary(BitCode(op), VInt, o.l, o.r, o.ra);
      Ok(Frag(o.code + h.code, h.dst, h.ty, h.ra))
  }

  /** The whole program: the root as a truth value, then Ret. */
  function GenProgram(q: Qualifiers, root: Expr): Result<Program> {
    var f :- GenBool(q, root, 0, Alloc([], 0));
    Ok(Program(f.code + [Ins(RET, f.dst, 0, 0, 0)], f.ra.next))
  }
}
