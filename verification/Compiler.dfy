/** The one-pass code generator. It appends slots, emits jumps with the placeholder -1 and
    overwrites them later, hands out registers from a released stack and a bitset, and carries
    on after a failure that it never forgets. Every method is tied to a value of `CodeGen`. */
module CompilerState {
  import opened Words
  import opened Common
  import opened Bytecode
  import opened Registry
  import opened Ast
  import opened Allocator
  import opened CodeGen
  import opened Conditions
  import Diagnosis
  import FirstFault

  datatype EmitValue = EmitValue(reg: byte, ty: ValueType)

  /** Three stages of one buffer, the later ones extending the earlier. */
  lemma AssocPair(a: seq<Instruction>, b: seq<Instruction>, c: seq<Instruction>)
    ensures a <= b <= c ==> c == a + (b[|a|..] + c[|b|..])
  {
  }

  datatype EmitIpv6Value = EmitIpv6Value(hi: byte, lo: byte)

  /** A generation result appended to the slots already there. */
  function After(prefix: seq<Instruction>, r: Result<Frag>): Result<Frag> {
    if r.Ok? then Ok(r.value.(code := prefix + r.value.code)) else r
  }

  function AfterPair(prefix: seq<Instruction>, r: Result<Pair>): Result<Pair> {
    if r.Ok? then Ok(r.value.(code := prefix + r.value.code)) else r
  }

  function AfterOperands(prefix: seq<Instruction>, r: Result<Operands>): Result<Operands> {
    if r.Ok? then Ok(r.value.(code := prefix + r.value.code)) else r
  }

  lemma AfterAfter(a: seq<Instruction>, b: seq<Instruction>, r: Result<Frag>)
    ensures After(a + b, r) == After(a, After(b, r))
  {
    if r.Ok? {
      assert a + b + r.value.code == a + (b + r.value.code);
    }
  }

  /** Two operands from the left one and the result of the right one. */
  function Join(f: Frag, g: Result<Frag>): Result<Operands> {
    if g.Err? then Err(g.error) else
      Ok(Operands(f.code + g.value.code, f.dst, f.ty, g.value.dst, g.value.ty, g.value.ra))
  }

  lemma OperandsIs(q: Qualifiers, l: Expr, r: Expr, pos: nat, ra: Alloc)
    ensures var f := Gen(q, l, pos, ra);
      GenOperands(q, l, r, pos, ra) ==
      if f.Err? then Err(f.error) else Join(f.value, Gen(q, r, pos + |f.value.code|, f.value.ra))
  {
    hide Gen;
  }

  lemma JoinAppended(prefix: seq<Instruction>, f: Frag, g: Result<Frag>)
    ensures var code := prefix + f.code;
      var g' := After(code, g);
      AfterOperands(prefix, Join(f, g)) ==
      if g'.Err? then Err(g'.error) else
        Ok(Operands(g'.value.code, f.dst, f.ty, g'.value.dst, g'.value.ty, g'.value.ra))
  {
    if g.Ok? {
      AssocThree(prefix, f.code, g.value.code);
    }
  }

  lemma AssocThree(a: seq<Instruction>, b: seq<Instruction>, c: seq<Instruction>)
    ensures a + (b + c) == a + b + c
  {
  }

  lemma FailedOperands(prefix: seq<Instruction>, r: Result<Operands>)
    ensures r.Err? ==> AfterOperands(prefix, r) == r && After(prefix, Err(r.error)) == Err(r.error)
  {
  }

  lemma CompareIs(q: Qualifiers, op: CmpOp, l: Expr, r: Expr, pos: nat, ra: Alloc)
    ensures var lt, rt := Resolve(q, l), Resolve(q, r);
      GenCompare(q, op, l, r, pos, ra) ==
      if lt.Err? then Err(lt.error) else if rt.Err? then Err(rt.error)
      else GenTypedCompare(q, op, l, lt.value, r, rt.value, pos, ra)
  {
    hide Resolve, GenTypedCompare;
  }

  lemma PlainCompareIs(q: Qualifiers, op: CmpOp, l: Expr, r: Expr, pos: nat, ra: Alloc)
    ensures var o := GenOperands(q, l, r, pos, ra);
      GenPlainCompare(q, op, l, r, pos, ra) ==
      if o.Ok? then After(o.value.code, CompareTail(op, o.value)) else Err(o.error)
  {
    hide GenOperands, CompareTail;
  }

  lemma BitsIs(q: Qualifiers, op: BitOp, l: Expr, r: Expr, pos: nat, ra: Alloc)
    ensures var o := GenOperands(q, l, r, pos, ra);
      GenBits(q, op, l, r, pos, ra) ==
      if o.Err? then Err(o.error)
      else if o.value.lt != VInt || o.value.rt != VInt then Err(BitwiseNeedsIntegers)
      else After(o.value.code, GenBinary(BitCode(op), VInt, o.value.l, o.value.r, o.value.ra))
  {
    hide GenOperands, GenBinary;
  }

  lemma AfterError(prefix: seq<Instruction>, e: CompileError)
    ensures After(prefix, Err(e)) == Err(e)
  {
  }

  lemma PatchOne(a: seq<Instruction>, x: Instruction, b: seq<Instruction>, y: Instruction)
    ensures (a + [x] + b)[|a| := y] == a + [y] + b
  {
  }

  /** The two patches of `&&`, one before and one after the load, give the slots of `AndFrag`. */
  lemma PatchAnd(
    a: seq<Instruction>, j: Instruction, j': Instruction, b: seq<Instruction>,
    m: Instruction, e: Instruction, e': Instruction, load: seq<Instruction>)
    ensures var c := (a + [j] + b + [m] + [e])[|a| := j'] + load;
      |a| + 2 + |b| < |c| && c[|a| + 2 + |b| := e'] == a + [j'] + b + ([m, e'] + load)
  {
    assert a + [j] + b + [m] + [e] == a + [j] + (b + [m] + [e]);
    PatchOne(a, j, b + [m] + [e], j');
    assert a + [j'] + (b + [m] + [e]) + load == (a + [j'] + b + [m]) + [e] + load;
    PatchOne(a + [j'] + b + [m], e, load, e');
  }

  /** Patching a placeholder gives the jump emitted with its target. */
  lemma JumpPatched(target: nat)
    requires FitsI32(target)
    ensures Ins(JUMP, 0, 0, 0, -1).(aux := target) == Ins(JUMP, 0, 0, 0, target)
  {
  }

  lemma TestPatched(a: byte, target: nat)
    requires FitsI32(target)
    ensures Ins(JUMP_IF_FALSE, a, 0, 0, -1).(aux := target) == Ins(JUMP_IF_FALSE, a, 0, 0, target)
  {
  }

  /** The slots of `&&` as they are emitted and patched are those of `AndFrag`. */
  lemma AndFragPatched(prefix: seq<Instruction>, f: Frag, d: byte, g: Frag)
    ensures var jump, no := |prefix| + |f.code|, |prefix| + |f.code| + 1 + |g.code| + 2;
      FitsI32(no + 2) ==>
        var start := prefix + f.code + [Ins(JUMP_IF_FALSE, f.dst, 0, 0, -1)] + g.code;
        var emitted := start + [Ins(MOVE, d, g.dst, 0, 0)] + [Ins(JUMP, 0, 0, 0, -1)];
        var patched := emitted[jump := Ins(JUMP_IF_FALSE, f.dst, 0, 0, no)] + MakeLoadImm(d, 0);
        After(prefix, AndFrag(f, d, g, |prefix|)) ==
          Ok(Frag(patched[no - 1 := Ins(JUMP, 0, 0, 0, no + 2)], d, VBool, Give(g.ra, g.dst)))
  {
    var no := |prefix| + |f.code| + 1 + |g.code| + 2;
    if FitsI32(no + 2) {
      hide Give, DataSlot, Ins;
      PatchAnd(prefix + f.code, Ins(JUMP_IF_FALSE, f.dst, 0, 0, -1), Ins(JUMP_IF_FALSE, f.dst, 0, 0, no), g.code,
               Ins(MOVE, d, g.dst, 0, 0), Ins(JUMP, 0, 0, 0, -1), Ins(JUMP, 0, 0, 0, no + 2), MakeLoadImm(d, 0));
      AssocFour(prefix, f.code, [Ins(JUMP_IF_FALSE, f.dst, 0, 0, no)], g.code, AndTail(d, g.dst, no + 2));
    }
  }

  lemma AndFragTooLong(prefix: seq<Instruction>, f: Frag, d: byte, g: Frag)
    ensures !FitsI32(|prefix| + |f.code| + |g.code| + 5) ==>
      After(prefix, AndFrag(f, d, g, |prefix|)) == Err(PatchError(|prefix| + |f.code|))
  {
  }

  /** The slots of `||` after its last patch are those of `OrFrag`. */
  lemma OrFragPatched(prefix: seq<Instruction>, f: Frag, d: byte, g: Frag)
    ensures var rhs := |prefix| + |f.code| + 4;
      var end := rhs + |g.code| + 1;
      FitsI32(end) ==>
        var emitted := prefix + f.code + OrHead(d, f.dst, rhs, -1) + g.code + [Ins(MOVE, d, g.dst, 0, 0)];
        After(prefix, OrFrag(f, d, g, |prefix|)) ==
          Ok(Frag(emitted[rhs - 1 := Ins(JUMP, 0, 0, 0, end)], d, VBool, Give(g.ra, g.dst)))
  {
    var rhs := |prefix| + |f.code| + 4;
    var end := rhs + |g.code| + 1;
    if FitsI32(end) {
      hide Give, DataSlot, Ins;
      var before := prefix + f.code + ([Ins(JUMP_IF_FALSE, f.dst, 0, 0, rhs)] + MakeLoadImm(d, 1));
      var rest := g.code + [Ins(MOVE, d, g.dst, 0, 0)];
      assert prefix + f.code + OrHead(d, f.dst, rhs, -1) + g.code + [Ins(MOVE, d, g.dst, 0, 0)] ==
             before + [Ins(JUMP, 0, 0, 0, -1)] + rest;
      PatchOne(before, Ins(JUMP, 0, 0, 0, -1), rest, Ins(JUMP, 0, 0, 0, end));
      assert before + [Ins(JUMP, 0, 0, 0, end)] + rest ==
             prefix + (f.code + OrHead(d, f.dst, rhs, end) + g.code + [Ins(MOVE, d, g.dst, 0, 0)]);
    }
  }

  lemma OrFragTooLong(prefix: seq<Instruction>, f: Frag, d: byte, g: Frag)
    ensures !FitsI32(|prefix| + |f.code| + |g.code| + 5) ==> After(prefix, OrFrag(f, d, g, |prefix|)) == Err(JumpRange)
  {
  }

  lemma OrHeadJump(d: byte, l: byte, rhs: nat)
    requires FitsI32(rhs)
    ensures var head := OrHead(d, l, rhs, -1); |head| == 4 && head[3] == Ins(JUMP, 0, 0, 0, -1)
  {
    hide Ins, DataSlot;
  }

  lemma AssocFour(
    p: seq<Instruction>, a: seq<Instruction>, b: seq<Instruction>, c: seq<Instruction>, d: seq<Instruction>)
    ensures p + a + b + c + d == p + (a + b + c + d)
  {
  }

  lemma MarkReleased(ra: Alloc, r: byte)
    requires ValidAlloc(ra) && Live(ra, r)
    ensures ValidAlloc(Give(ra, r)) && LiveBits(Give(ra, r)) == LiveBits(ra)[r := false]
  {
    GiveRemovesOne(ra, r);
  }

  lemma StillLive(ra: Alloc, a: byte, b: byte)
    requires ValidAlloc(ra) && CanTake(ra) && Live(ra, a) && Live(ra, b) && a != b
    ensures Live(Take(ra), a) && Live(Give(Take(ra), a), b)
  {
    TakeAddsOne(ra);
  }

  lemma MarkTaken(ra: Alloc)
    requires ValidAlloc(ra) && CanTake(ra)
    ensures ValidAlloc(Take(ra)) && LiveBits(Take(ra)) == LiveBits(ra)[Taken(ra) := true]
  {
    TakeAddsOne(ra);
  }

  class Compiler {
    const registry: QualifierRegistry
    /** What the registry holds; it is not written while a tree is compiled. */
    ghost const q: Qualifiers
    var code: seq<Instruction>
    var registerCount: int
    var nextReg: nat
    var freeRegs: seq<byte>
    var regUsed: seq<bool>
    /** The first failure, with its message and status, once there is one. */
    var failure: Option<CompileError>

    constructor (registry: QualifierRegistry)
      requires registry.Valid()
      ensures Valid() && failure == None && code == [] && Regs() == Alloc([], 0) && q == registry.qualifiers
    {
      this.registry, q := registry, registry.qualifiers;
      code, registerCount := [], 0;
      nextReg, freeRegs, failure := 0, [], None;
      regUsed := seq(MAX_REGISTER_COUNT, i => false);
      new;
      assert regUsed == LiveBits(Regs());
    }

    /** The allocator's state as a value. */
    function Regs(): Alloc
      reads `nextReg, `freeRegs
    {
      Alloc(freeRegs, nextReg)
    }

    /** The allocator invariant, which holds whether or not there was a failure: the released
        registers are distinct, and the bitset marks exactly the live ones. */
    ghost predicate Valid()
      reads `nextReg, `freeRegs, `regUsed, registry
    {
      && ValidAlloc(Regs()) && regUsed == LiveBits(Regs())
      && registry.Valid() && registry.qualifiers == q
    }

    /** Everything a caller sees of an emission that answered `v`. */
    function Outcome(v: EmitValue): Result<Frag>
      reads `code, `nextReg, `freeRegs, `failure
    {
      if failure.Some? then Err(failure.value) else Ok(Frag(code, v.reg, v.ty, Regs()))
    }

    function OutcomePair(v: EmitIpv6Value): Result<Pair>
      reads `code, `nextReg, `freeRegs, `failure
    {
      if failure.Some? then Err(failure.value) else Ok(Pair(code, v.hi, v.lo, Regs()))
    }

    function OutcomeOperands(l: EmitValue, r: EmitValue): Result<Operands>
      reads `code, `nextReg, `freeRegs, `failure
    {
      if failure.Some? then Err(failure.value) else Ok(Operands(code, l.reg, l.ty, r.reg, r.ty, Regs()))
    }

    // ----- failures, registers and slots -----

    /** Only the first failure is kept. */
    method Fail(e: CompileError)
      modifies `failure
      ensures failure == if old(failure).Some? then old(failure) else Some(e)
    {
      if failure == None {
        failure := Some(e);
      }
    }

    method Status() returns (status: Status)
      ensures status == if failure.Some? then StatusOf(failure.value) else CodegenError
    {
      status := if failure.Some? then StatusOf(failure.value) else CodegenError;
    }

    method AllocReg() returns (reg: byte)
      requires Valid()
      modifies this
      ensures Valid() && code == old(code)
      ensures old(failure).Some? ==> failure == old(failure)
      ensures old(failure) == None ==>
        TakeReg(old(Regs())) == if failure == None then Ok((reg, Regs())) else Err(failure.value)
      ensures old(freeRegs) != [] ==>
        var last := |old(freeRegs)| - 1;
        reg == old(freeRegs)[last] && freeRegs == old(freeRegs)[..last] && nextReg == old(nextReg)
      ensures old(freeRegs) == [] && old(nextReg) < 256 ==>
        reg == old(nextReg) && freeRegs == [] && nextReg == old(nextReg) + 1
    {
      hide ValidAlloc, LiveBits;
      if CanTake(Regs()) {
        MarkTaken(Regs());
      }
      if freeRegs != [] {
        reg := freeRegs[|freeRegs| - 1];
        freeRegs := freeRegs[..|freeRegs| - 1];
        regUsed := regUsed[reg := true];
      } else if nextReg >= MAX_REGISTER_COUNT {
        Fail(RegisterLimit);
        reg := 0;
      } else {
        reg, nextReg := nextReg, nextReg + 1;
        regUsed := regUsed[reg := true];
      }
    }

    /** Releases a live register; releasing any other is an internal error. */
    method ReleaseReg(reg: byte)
      requires Valid()
      modifies this
      ensures Valid() && code == old(code)
      ensures old(failure).Some? ==> failure == old(failure)
      ensures Live(old(Regs()), reg) ==> failure == old(failure) && Regs() == Give(old(Regs()), reg)
      ensures Live(old(Regs()), reg) ==> freeRegs == old(freeRegs) + [reg] && nextReg == old(nextReg)
      ensures old(failure) == None && !Live(old(Regs()), reg) ==>
        failure == Some(if reg >= nextReg then InternalRelease else InternalDoubleRelease)
    {
      if reg >= nextReg {
        Fail(InternalRelease);
      } else if !regUsed[reg] {
        Fail(InternalDoubleRelease);
      } else {
        MarkReleased(Regs(), reg);
        regUsed := regUsed[reg := false];
        freeRegs := freeRegs + [reg];
      }
    }

    /** Appends one instruction, or two slots for LoadImm; answers the index of the first, cast
        to `int`. */
    method Emit(op: byte, a: byte, b: byte, c: byte, imm: int64) returns (index: int)
      modifies `code, `failure
      ensures old(failure).Some? ==> failure == old(failure) && code == old(code) && index == -1
      ensures old(failure) == None && op == LOAD_IMM ==>
        failure == None && code == old(code) + MakeLoadImm(a, imm) && index == CastI32(|old(code)|)
      ensures old(failure) == None && op != LOAD_IMM && FitsI32(imm) ==>
        failure == None && code == old(code) + [Ins(op, a, b, c, imm)] && index == CastI32(|old(code)|)
      ensures old(failure) == None && op != LOAD_IMM && !FitsI32(imm) ==> failure == Some(PayloadRange)
    {
      if failure.Some? {
        return -1;
      }
      if op == LOAD_IMM {
        var wide := MakeLoadImm(a, imm);
        code := code + [wide[0]];
        code := code + [wide[1]];
        return CastI32(|code| - 2);
      }
      if !FitsI32(imm) {
        Fail(PayloadRange);
        return -1;
      }
      code := code + [Ins(op, a, b, c, imm)];
      return CastI32(|code| - 1);
    }

    /** Overwrites the target of the jump at `index`, keeping its other fields. */
    method PatchJump(index: int, target: nat)
      modifies `code, `failure
      ensures old(failure).Some? ==> failure == old(failure)
      ensures old(failure) == None && 0 <= index < |old(code)| && FitsI32(target) ==>
        failure == None && code == old(code)[index := old(code)[index].(aux := target)]
      ensures old(failure) == None && 0 <= index < |old(code)| && !FitsI32(target) ==> failure == Some(JumpRange)
      ensures old(failure) == None && !(0 <= index < |old(code)|) ==> failure == Some(InternalPatch)
    {
      if index < 0 || index >= |code| {
        Fail(InternalPatch);
        return;
      }
      if !FitsI32(target) {
        Fail(JumpRange);
        return;
      }
      var i := code[index];
      code := code[index := Ins(i.op, i.a, i.b, i.c, target)];
    }

    // ----- leaves -----

    method ResolveExprType(e: Expr) returns (ty: ValueType)
      requires Valid()
      modifies `failure
      ensures old(failure).Some? ==> failure == old(failure)
      ensures old(failure) == None ==>
        Resolve(q, e) == if failure == None then Ok(ty) else Err(failure.value)
    {
      match e
      case Null =>
        Fail(EmptyNode);
        ty := VBool;
      case Ident(n) =>
        var info := registry.Find(n);
        if info == None {
          Fail(UnknownQualifier);
          return VInt;
        }
        ty := QualifierType(info.value.ty);
      case Integer(_) => ty := VInt;
      case Boolean(_) => ty := VBool;
      case Ipv4(_) => ty := VIpv4;
      case Ipv6(_) => ty := VIpv6;
      case Bits(_, _, _) => ty := VInt;
      case _ => ty := VBool;
    }

    method EmitLoadFieldReg(offset: uint32, size: byte, sign: byte) returns (dst: byte)
      requires Valid()
      modifies this
      ensures Valid()
      ensures old(failure).Some? ==> failure == old(failure)
      ensures old(failure) == None ==> forall ty ::
        Outcome(EmitValue(dst, ty)) == After(old(code), GenLoad(offset, size, sign, ty, old(Regs())))
    {
      dst := AllocReg();
      if failure.Some? {
        return 0;
      }
      var _ := Emit(LOAD_FIELD, dst, size, sign, offset);
    }

    method EmitIdentifier(name: string) returns (v: EmitValue)
      requires Valid()
      modifies this
      ensures Valid()
      ensures old(failure).Some? ==> failure == old(failure)
      ensures old(failure) == None ==> Outcome(v) == After(old(code), GenIdent(q, name, old(Regs())))
    {
      var found := registry.Find(name);
      if found == None {
        Fail(UnknownQualifier);
        return EmitValue(0, VInt);
      }
      var info := found.value;
      var ty := QualifierType(info.ty);
      if ty == VIpv6 {
        Fail(Ipv6AsValue);
        return EmitValue(0, VIpv6);
      }
      var sign := if IsSigned(info.ty) then 1 else 0;
      var dst := EmitLoadFieldReg(info.offset, info.size, sign);
      v := EmitValue(dst, ty);
    }

    method EmitImmediate(value: int64, ty: ValueType) returns (v: EmitValue)
      requires Valid()
      modifies this
      ensures Valid()
      ensures old(failure).Some? ==> failure == old(failure)
      ensures old(failure) == None ==> Outcome(v) == After(old(code), GenImm(value, ty, old(Regs())))
    {
      var dst := AllocReg();
      if failure.Some? {
        return EmitValue(0, ty);
      }
      var _ := Emit(LOAD_IMM, dst, 0, 0, value);
      v := EmitValue(dst, ty);
    }

    method EmitIpv4(addr: Option<Bytes4>) returns (v: EmitValue)
      requires Valid()
      modifies this
      ensures Valid()
      ensures old(failure).Some? ==> failure == old(failure)
      ensures old(failure) == None ==> Outcome(v) == After(old(code), GenIpv4(addr, old(Regs())))
    {
      hide GenImm;
      if addr == None {
        Fail(BadIpv4);
        return EmitValue(0, VIpv4);
      }
      LEBound(addr.value); Pow256Values();
      v := EmitImmediate(LE(addr.value), VIpv4);
    }

    // ----- IPv6 values, split over two registers -----

    method EmitIpv6Literal(addr: Option<Bytes16>) returns (v: EmitIpv6Value)
      requires Valid()
      modifies this
      ensures Valid()
      ensures old(failure).Some? ==> failure == old(failure)
      ensures old(failure) == None ==> OutcomePair(v) == AfterPair(old(code), GenIpv6Literal(addr, old(Regs())))
    {
      hide GenImm, ValidAlloc, LiveBits, ToI64, Word64;
      v := EmitIpv6Value(0, 0);
      if addr == None {
        Fail(BadIpv6);
      } else {
        var hi := EmitImmediate(ToI64(Word64(addr.value[..8])), VInt);
        ghost var middle := code;
        var lo := EmitImmediate(ToI64(Word64(addr.value[8..])), VInt);
        v := EmitIpv6Value(hi.reg, lo.reg);
        AssocPair(old(code), middle, code);
      }
    }

    method EmitIpv6Identifier(name: string) returns (v: EmitIpv6Value)
      requires Valid()
      modifies this
      ensures Valid()
      ensures old(failure).Some? ==> failure == old(failure)
      ensures old(failure) == None ==> OutcomePair(v) == AfterPair(old(code), GenIpv6Ident(q, name, old(Regs())))
    {
      hide GenLoad, ValidAlloc, LiveBits;
      v := EmitIpv6Value(0, 0);
      var info := registry.Find(name);
      if info == None {
        Fail(UnknownQualifier);
      } else if info.value.ty != Ipv6T {
        Fail(Ipv6NeedsQualifier);
      } else {
        var hi := EmitLoadFieldReg(info.value.offset, 8, 0);
        ghost var middle := code;
        var lo := EmitLoadFieldReg((info.value.offset + 8) % 0x1_0000_0000, 8, 0);
        v := EmitIpv6Value(hi, lo);
        AssocPair(old(code), middle, code);
      }
    }

    method EmitIpv6Operand(e: Expr) returns (v: EmitIpv6Value)
      requires Valid()
      modifies this
      ensures Valid()
      ensures old(failure).Some? ==> failure == old(failure)
      ensures old(failure) == None ==> OutcomePair(v) == AfterPair(old(code), GenIpv6Value(q, e, old(Regs())))
    {
      hide GenIpv6Ident, GenIpv6Literal, ValidAlloc, LiveBits;
      match e
      case Null =>
        Fail(EmptyNode);
        v := EmitIpv6Value(0, 0);
      case Ident(n) => v := EmitIpv6Identifier(n);
      case Ipv6(a) => v := EmitIpv6Literal(a);
      case _ =>
        Fail(Ipv6NeedsOperands);
        v := EmitIpv6Value(0, 0);
    }

    // ----- instructions that consume registers -----

    /** A three-register instruction; both operands are released after it. */
    method EmitBinary(op: byte, ty: ValueType, lhs: byte, rhs: byte) returns (v: EmitValue)
      requires Valid() && op != LOAD_IMM
      modifies this
      ensures Valid()
      ensures old(failure).Some? ==> failure == old(failure)
      ensures old(failure) == None && Live(old(Regs()), lhs) && Live(old(Regs()), rhs) && lhs != rhs ==>
        Outcome(v) == After(old(code), GenBinary(op, ty, lhs, rhs, old(Regs())))
      ensures old(failure) == None && Live(old(Regs()), lhs) && Live(old(Regs()), rhs) && lhs != rhs &&
              failure == None ==>
        && code == old(code) + [Ins(op, v.reg, lhs, rhs, 0)]
        && |freeRegs| >= 2 && freeRegs[|freeRegs| - 2] == lhs && freeRegs[|freeRegs| - 1] == rhs
    {
      hide ValidAlloc, LiveBits;
      ghost var ra := Regs();
      var dst := AllocReg();
      var _ := Emit(op, dst, lhs, rhs, 0);
      if failure == None && Live(ra, lhs) && Live(ra, rhs) && lhs != rhs {
        StillLive(ra, lhs, rhs);
      }
      ReleaseReg(lhs);
      ReleaseReg(rhs);
      v := EmitValue(dst, ty);
    }

    method EmitNegation(operand: byte) returns (v: EmitValue)
      requires Valid()
      modifies this
      ensures Valid()
      ensures old(failure).Some? ==> failure == old(failure)
      ensures old(failure) == None && Live(old(Regs()), operand) ==>
        Outcome(v) == After(old(code), GenNegate(operand, old(Regs())))
    {
      hide ValidAlloc, LiveBits;
      ghost var ra := Regs();
      var dst := AllocReg();
      var _ := Emit(NOT, dst, operand, 0, 0);
      if failure == None && Live(ra, operand) {
        TakeAddsOne(ra);
      }
      ReleaseReg(operand);
      v := EmitValue(dst, VBool);
    }

    method EmitEnsureBool(value: EmitValue) returns (v: EmitValue)
      requires Valid()
      modifies this
      ensures Valid()
      ensures old(failure).Some? ==> failure == old(failure)
      ensures old(failure) == None && Live(old(Regs()), value.reg) ==>
        Outcome(v) == After(old(code), EnsureBool(value.reg, value.ty, old(Regs())))
    {
      hide ValidAlloc, LiveBits, GenBinary, GenImm;
      if value.ty == VBool {
        v := value;
        assert code == code + [];
      } else if value.ty != VInt {
        Fail(LogicNeedsTruth);
        v := EmitValue(0, VBool);
      } else {
        ImmShape(0, VInt, Regs());
        var zero := EmitImmediate(0, VInt);
        ghost var middle := code;
        v := EmitBinary(CMP_NE, VBool, value.reg, zero.reg);
        AssocPair(old(code), middle, code);
      }
    }

    // ----- comparisons of IPv6 values -----

    /** The equality of each half of two IPv6 values. */
    method EmitHalves(l: EmitIpv6Value, r: EmitIpv6Value, ghost lp: Pair, ghost rp: Pair, ghost ra: Alloc)
      returns (v: EmitIpv6Value)
      requires Valid() && failure == None && ValidAlloc(ra) && AddsTwo(ra, lp) && AddsTwo(lp.ra, rp)
      requires Regs() == rp.ra && l == EmitIpv6Value(lp.hi, lp.lo) && r == EmitIpv6Value(rp.hi, rp.lo)
      modifies this
      ensures Valid()
      ensures OutcomePair(v) == AfterPair(old(code), GenHalves(lp, rp))
    {
      hide ValidAlloc, LiveBits, GenBinary;
      HighShape(lp, rp, ra);
      var hi := EmitBinary(CMP_EQ, VBool, l.hi, r.hi);
      ghost var middle := code;
      var lo := EmitBinary(CMP_EQ, VBool, l.lo, r.lo);
      v := EmitIpv6Value(hi.reg, lo.reg);
      AssocPair(old(code), middle, code);
    }

    /** Whether both halves are equal, negated for `!=`. */
    method EmitBoth(op: CmpOp, h: EmitIpv6Value, ghost hp: Pair, ghost ra: Alloc) returns (v: EmitValue)
      requires Valid() && failure == None && LeavesTwo(ra, hp)
      requires Regs() == hp.ra && h == EmitIpv6Value(hp.hi, hp.lo)
      modifies this
      ensures Valid()
      ensures Outcome(v) == After(old(code), GenBoth(op, hp))
    {
      hide ValidAlloc, LiveBits, GenBinary, GenNegate;
      BinaryShape(AND, VBool, hp.hi, hp.lo, hp.ra);
      v := EmitBinary(AND, VBool, h.hi, h.lo);
      ghost var middle := code;
      if op != Eq {
        v := EmitNegation(v.reg);
        AssocPair(old(code), middle, code);
      }
    }

    method EmitIpv6Compare(op: CmpOp, lhs: Expr, rhs: Expr) returns (v: EmitValue)
      requires Valid()
      modifies this
      ensures Valid()
      ensures old(failure).Some? ==> failure == old(failure)
      ensures old(failure) == None ==> Outcome(v) == After(old(code), GenIpv6Compare(q, op, lhs, rhs, old(Regs())))
    {
      hide GenIpv6Value, GenHalves, GenBoth, Live, AddsTwo, LeavesTwo, Valid, ValidAlloc;
      ValidRegs();
      v := EmitValue(0, VBool);
      ghost var ra := Regs();
      var l := EmitIpv6Operand(lhs);
      var r := EmitIpv6Operand(rhs);
      if failure == None {
        ghost var lp := GenIpv6Value(q, lhs, ra).value;
        ghost var rp := GenIpv6Value(q, rhs, lp.ra).value;
        Ipv6OperandsLive(q, lhs, rhs, ra);
        var h := EmitHalves(l, r, lp, rp, ra);
        if failure == None {
          ghost var hp := GenHalves(lp, rp).value;
          v := EmitBoth(op, h, hp, ra);
          AssocFour(old(code), lp.code, rp.code, hp.code, CodeOf(GenBoth(op, hp)));
        }
      }
    }

    lemma ValidRegs()
      requires Valid()
      ensures ValidAlloc(Regs())
    {
    }

    // ----- expressions -----

    method EmitExpr(e: Expr) returns (v: EmitValue)
      requires Valid()
      modifies this
      ensures Valid()
      ensures old(failure).Some? ==> failure == old(failure)
      ensures old(failure) == None ==> Outcome(v) == After(old(code), Gen(q, e, |old(code)|, old(Regs())))
      decreases Nodes(e), 0
    {
      hide GenIdent, GenImm, GenIpv4, GenNot, GenAnd, GenOr, GenCompare, GenBits, Valid;
      match e
      case Null =>
        Fail(EmptyNode);
        v := EmitValue(0, VBool);
      case Ident(n) => v := EmitIdentifier(n);
      case Integer(i) => v := EmitImmediate(i, VInt);
      case Boolean(b) => v := EmitImmediate(if b then 1 else 0, VBool);
      case Ipv4(a) => v := EmitIpv4(a);
      case Ipv6(_) =>
        Fail(Ipv6AsValue);
        v := EmitValue(0, VIpv6);
      case Not(x) => v := EmitNot(x);
      case And(l, r) => v := EmitLogicalAnd(l, r);
      case Or(l, r) => v := EmitLogicalOr(l, r);
      case Compare(op, l, r) => v := EmitCompare(op, l, r);
      case Bits(op, l, r) => v := EmitBitwise(op, l, r);
    }

    /** An operand of a logical operator, as a truth value. */
    method EmitOperand(e: Expr) returns (v: EmitValue)
      requires Valid()
      modifies this
      ensures Valid()
      ensures old(failure).Some? ==> failure == old(failure)
      ensures old(failure) == None ==> Outcome(v) == After(old(code), GenBool(q, e, |old(code)|, old(Regs())))
      decreases Nodes(e), 1
    {
      hide Gen, EnsureBool, Live, Valid, ValidAlloc;
      ValidRegs();
      ghost var ra := Regs();
      v := EmitExpr(e);
      if failure == None {
        ExprLive(q, e, |old(code)|, ra);
      }
      ghost var middle := code;
      v := EmitEnsureBool(v);
      AssocPair(old(code), middle, code);
    }

    method EmitNot(operand: Expr) returns (v: EmitValue)
      requires Valid()
      modifies this
      ensures Valid()
      ensures old(failure).Some? ==> failure == old(failure)
      ensures old(failure) == None ==> Outcome(v) == After(old(code), GenNot(q, operand, |old(code)|, old(Regs())))
      decreases Nodes(operand), 2
    {
      hide GenBool, GenNegate, Live, Valid, ValidAlloc;
      ValidRegs();
      ghost var ra := Regs();
      v := EmitOperand(operand);
      if failure == None {
        OperandLive(q, operand, |old(code)|, ra);
        ghost var middle := code;
        v := EmitNegation(v.reg);
        AssocPair(old(code), middle, code);
      }
    }

    /** Two operands, left to right; the second is emitted even after a failure in the first. */
    method EmitOperands(lhs: Expr, rhs: Expr) returns (l: EmitValue, r: EmitValue)
      requires Valid()
      modifies this
      ensures Valid()
      ensures old(failure).Some? ==> failure == old(failure)
      ensures old(failure) == None ==>
        OutcomeOperands(l, r) == AfterOperands(old(code), GenOperands(q, lhs, rhs, |old(code)|, old(Regs())))
      decreases Nodes(lhs) + Nodes(rhs), 1
    {
      hide Gen, GenOperands, Join, Valid, Regs;
      ghost var f := Gen(q, lhs, |code|, Regs());
      OperandsIs(q, lhs, rhs, |code|, Regs());
      l := EmitExpr(lhs);
      ghost var g := Gen(q, rhs, |code|, Regs());
      r := EmitExpr(rhs);
      if f.Ok? {
        JoinAppended(old(code), f.value, g);
      }
    }

    method EmitBitwise(op: BitOp, lhs: Expr, rhs: Expr) returns (v: EmitValue)
      requires Valid()
      modifies this
      ensures Valid()
      ensures old(failure).Some? ==> failure == old(failure)
      ensures old(failure) == None ==>
        Outcome(v) == After(old(code), GenBits(q, op, lhs, rhs, |old(code)|, old(Regs())))
      decreases Nodes(lhs) + Nodes(rhs), 2
    {
      hide GenBits, GenOperands, GenBinary, Live, Valid, ValidAlloc, After;
      BitsIs(q, op, lhs, rhs, |code|, Regs());
      ValidRegs();
      ghost var ra, o := Regs(), GenOperands(q, lhs, rhs, |code|, Regs());
      v := EmitValue(0, VInt);
      var l, r := EmitOperands(lhs, rhs);
      FailedOperands(old(code), o);
      if failure == None {
        OperandsLive(q, lhs, rhs, |old(code)|, ra);
        if l.ty != VInt || r.ty != VInt {
          Fail(BitwiseNeedsIntegers);
          AfterError(old(code), BitwiseNeedsIntegers);
        } else {
          v := EmitBinary(BitCode(op), VInt, l.reg, r.reg);
          AfterAfter(old(code), o.value.code, GenBinary(BitCode(op), VInt, l.reg, r.reg, o.value.ra));
        }
      }
    }

    /** The types of both operands of a comparison, before anything is emitted for them. */
    method ResolveTypes(lhs: Expr, rhs: Expr) returns (lt: ValueType, rt: ValueType)
      requires Valid()
      modifies `failure
      ensures old(failure).Some? ==> failure == old(failure)
      ensures old(failure) == None && failure == None ==> Resolve(q, lhs) == Ok(lt) && Resolve(q, rhs) == Ok(rt)
      ensures old(failure) == None && failure.Some? ==>
        Err(failure.value) == if Resolve(q, lhs).Err? then Resolve(q, lhs) else Resolve(q, rhs)
    {
      hide Resolve, Valid;
      lt := ResolveExprType(lhs);
      rt := ResolveExprType(rhs);
    }

    method EmitCompare(op: CmpOp, lhs: Expr, rhs: Expr) returns (v: EmitValue)
      requires Valid()
      modifies this
      ensures Valid()
      ensures old(failure).Some? ==> failure == old(failure)
      ensures old(failure) == None ==>
        Outcome(v) == After(old(code), GenCompare(q, op, lhs, rhs, |old(code)|, old(Regs())))
      decreases Nodes(lhs) + Nodes(rhs), 4
    {
      hide GenCompare, GenTypedCompare, Resolve, Valid, Regs, After;
      CompareIs(q, op, lhs, rhs, |code|, Regs());
      v := EmitValue(0, VBool);
      var lt, rt := ResolveTypes(lhs, rhs);
      if failure == None {
        v := EmitTypedCompare(op, lhs, lt, rhs, rt);
      } else {
        AfterError(old(code), failure.value);
      }
    }

    method EmitTypedCompare(op: CmpOp, lhs: Expr, lt: ValueType, rhs: Expr, rt: ValueType) returns (v: EmitValue)
      requires Valid() && failure == None
      modifies this
      ensures Valid()
      ensures Outcome(v) == After(old(code), GenTypedCompare(q, op, lhs, lt, rhs, rt, |old(code)|, old(Regs())))
      decreases Nodes(lhs) + Nodes(rhs), 3
    {
      hide GenPlainCompare, GenIpv6Compare, Valid, Regs;
      v := EmitValue(0, VBool);
      if (IsIp(lt) || IsIp(rt)) && lt != rt {
        Fail(IpTypesDiffer);
      } else if IsIp(lt) && op != Eq && op != Ne {
        Fail(IpNeedsEquality);
      } else if lt == VIpv6 {
        v := EmitIpv6Compare(op, lhs, rhs);
      } else {
        v := EmitPlainCompare(op, lhs, rhs);
      }
    }

    method EmitPlainCompare(op: CmpOp, lhs: Expr, rhs: Expr) returns (v: EmitValue)
      requires Valid()
      modifies this
      ensures Valid()
      ensures old(failure).Some? ==> failure == old(failure)
      ensures old(failure) == None ==>
        Outcome(v) == After(old(code), GenPlainCompare(q, op, lhs, rhs, |old(code)|, old(Regs())))
      decreases Nodes(lhs) + Nodes(rhs), 2
    {
      hide GenPlainCompare, GenOperands, CompareTail, Live, Valid, ValidAlloc, After;
      PlainCompareIs(q, op, lhs, rhs, |code|, Regs());
      ValidRegs();
      ghost var ra := Regs();
      v := EmitValue(0, VBool);
      var l, r := EmitOperands(lhs, rhs);
      FailedOperands(old(code), GenOperands(q, lhs, rhs, |old(code)|, ra));
      if failure == None {
        OperandsLive(q, lhs, rhs, |old(code)|, ra);
        ghost var o := GenOperands(q, lhs, rhs, |old(code)|, ra).value;
        v := EmitCompareTail(op, l, r, o);
        AfterAfter(old(code), o.code, CompareTail(op, o));
      }
    }

    /** The coercions of a comparison and its instruction. */
    method EmitCompareTail(op: CmpOp, lhs: EmitValue, rhs: EmitValue, ghost o: Operands) returns (v: EmitValue)
      requires Valid() && failure == None
      requires Regs() == o.ra && lhs == EmitValue(o.l, o.lt) && rhs == EmitValue(o.r, o.rt)
      requires Live(o.ra, o.l) && Live(o.ra, o.r) && o.l != o.r
      modifies this
      ensures Valid()
      ensures Outcome(v) == After(old(code), CompareTail(op, o))
    {
      hide EnsureBool, GenBinary, Live, Valid, ValidAlloc;
      ValidRegs();
      v := EmitValue(0, VBool);
      var l, r := lhs, rhs;
      if lhs.ty == VBool && rhs.ty == VInt {
        r := EmitEnsureBool(rhs);
      } else if lhs.ty == VInt && rhs.ty == VBool {
        l := EmitEnsureBool(lhs);
      } else if lhs.ty != rhs.ty {
        Fail(IncompatibleOperands);
        return;
      }
      CoerceLive(o);
      ghost var middle := code;
      v := EmitBinary(CmpCode(op), VBool, l.reg, r.reg);
      AssocPair(old(code), middle, code);
    }

    /** The start of `&&` and `||` after the left operand: the result register, which stays
        live, and a jump taken when the operand is false, to be patched. */
    method EmitJumpOver(l: EmitValue) returns (dst: byte, jump: int)
      requires Valid() && failure == None && Live(Regs(), l.reg)
      modifies this
      ensures Valid()
      ensures match TakeReg(old(Regs()))
              case Ok(t) =>
                && failure == None && dst == t.0 && Regs() == Give(t.1, l.reg)
                && jump == CastI32(|old(code)|) && code == old(code) + [Ins(JUMP_IF_FALSE, l.reg, 0, 0, -1)]
              case Err(e) => failure == Some(e)
    {
      hide ValidAlloc, LiveBits;
      ghost var ra := Regs();
      dst := AllocReg();
      jump := Emit(JUMP_IF_FALSE, l.reg, 0, 0, -1);
      if failure == None {
        TakeAddsOne(ra);
      }
      ReleaseReg(l.reg);
    }

    method EmitLogicalAnd(lhs: Expr, rhs: Expr) returns (v: EmitValue)
      requires Valid()
      modifies this
      ensures Valid()
      ensures old(failure).Some? ==> failure == old(failure)
      ensures old(failure) == None ==> Outcome(v) == After(old(code), GenAnd(q, lhs, rhs, |old(code)|, old(Regs())))
      decreases Nodes(lhs) + Nodes(rhs), 1
    {
      hide GenBool, Live, Valid, ValidAlloc, GenAndRight;
      ValidRegs();
      ghost var ra := Regs();
      v := EmitValue(0, VBool);
      var l := EmitOperand(lhs);
      if failure == None {
        OperandLive(q, lhs, |old(code)|, ra);
        v := EmitAndRight(l, rhs, old(code), GenBool(q, lhs, |old(code)|, ra).value);
      }
    }

    method EmitAndRight(l: EmitValue, rhs: Expr, ghost prefix: seq<Instruction>, ghost f: Frag) returns (v: EmitValue)
      requires Valid() && failure == None && Live(f.ra, f.dst) && Outcome(l) == After(prefix, Ok(f))
      modifies this
      ensures Valid()
      ensures Outcome(v) == After(prefix, GenAndRight(q, f, rhs, |prefix|))
      decreases Nodes(rhs), 2
    {
      hide GenBool, Live, Valid, ValidAlloc, AndFrag, TakeReg, Give;
      v := EmitValue(0, VBool);
      var dst, jump := EmitJumpOver(l);
      ValidRegs();
      ghost var mid, at := Regs(), |code|;
      var r := EmitOperand(rhs);
      if failure == None {
        OperandLive(q, rhs, at, mid);
        v := EmitAndTail(dst, r, jump, prefix, f, GenBool(q, rhs, at, mid).value);
      }
    }

    /** The rest of `&&` after both operands, with its two patches. */
    method EmitAndTail(dst: byte, r: EmitValue, jump: int, ghost prefix: seq<Instruction>, ghost f: Frag, ghost g: Frag)
      returns (v: EmitValue)
      requires Valid() && failure == None && Regs() == g.ra && r == EmitValue(g.dst, VBool) && Live(g.ra, g.dst)
      requires jump == CastI32(|prefix| + |f.code|)
      requires code == prefix + f.code + [Ins(JUMP_IF_FALSE, f.dst, 0, 0, -1)] + g.code
      modifies this
      ensures Valid()
      ensures Outcome(v) == After(prefix, AndFrag(f, dst, g, |prefix|))
    {
      hide Live, Valid, Give, DataSlot, After, AndFrag, Ins, CastI32;
      CastKeeps(|prefix| + |f.code|);
      CastKeeps(|code| + 1);
      AndFragPatched(prefix, f, dst, g);
      AndFragTooLong(prefix, f, dst, g);
      if FitsI32(|code| + 4) {
        TestPatched(f.dst, |code| + 2);
        JumpPatched(|code| + 4);
      }
      var _ := Emit(MOVE, dst, r.reg, 0, 0);
      ReleaseReg(r.reg);
      var jumpEnd := Emit(JUMP, 0, 0, 0, -1);
      PatchJump(jump, |code|);
      var _ := Emit(LOAD_IMM, dst, 0, 0, 0);
      PatchJump(jumpEnd, |code|);
      v := EmitValue(dst, VBool);
    }

    method EmitLogicalOr(lhs: Expr, rhs: Expr) returns (v: EmitValue)
      requires Valid()
      modifies this
      ensures Valid()
      ensures old(failure).Some? ==> failure == old(failure)
      ensures old(failure) == None ==> Outcome(v) == After(old(code), GenOr(q, lhs, rhs, |old(code)|, old(Regs())))
      decreases Nodes(lhs) + Nodes(rhs), 1
    {
      hide GenBool, Live, Valid, ValidAlloc, GenOrRight;
      ValidRegs();
      ghost var ra := Regs();
      v := EmitValue(0, VBool);
      var l := EmitOperand(lhs);
      if failure == None {
        OperandLive(q, lhs, |old(code)|, ra);
        v := EmitOrRight(l, rhs, old(code), GenBool(q, lhs, |old(code)|, ra).value);
      }
    }

    method EmitOrRight(l: EmitValue, rhs: Expr, ghost prefix: seq<Instruction>, ghost f: Frag) returns (v: EmitValue)
      requires Valid() && failure == None && Live(f.ra, f.dst) && Outcome(l) == After(prefix, Ok(f))
      modifies this
      ensures Valid()
      ensures Outcome(v) == After(prefix, GenOrRight(q, f, rhs, |prefix|))
      decreases Nodes(rhs), 2
    {
      hide GenBool, Live, Valid, ValidAlloc, OrFrag, TakeReg, Give;
      v := EmitValue(0, VBool);
      var dst, jump := EmitJumpOver(l);
      var jumpEnd := EmitOrHead(dst, jump, prefix, f);
      ValidRegs();
      ghost var mid, at := Regs(), |code|;
      var r := EmitOperand(rhs);
      if failure == None {
        OperandLive(q, rhs, at, mid);
        v := EmitOrTail(dst, r, jumpEnd, prefix, f, GenBool(q, rhs, at, mid).value);
      }
    }

    /** The true branch of `||`: load 1 and leave; the first jump is patched to what follows. */
    method EmitOrHead(dst: byte, jump: int, ghost prefix: seq<Instruction>, ghost f: Frag) returns (jumpEnd: int)
      requires failure == None ==>
        jump == CastI32(|prefix| + |f.code|) && code == prefix + f.code + [Ins(JUMP_IF_FALSE, f.dst, 0, 0, -1)]
      modifies `code, `failure
      ensures old(failure).Some? ==> failure == old(failure)
      ensures old(failure) == None ==>
        var rhs := |prefix| + |f.code| + 4;
        if FitsI32(rhs) then
          failure == None && jumpEnd == rhs - 1 && code == prefix + f.code + OrHead(dst, f.dst, rhs, -1)
        else failure == Some(PatchError(|prefix| + |f.code|))
    {
      hide DataSlot, CastI32;
      CastKeeps(|prefix| + |f.code|);
      CastKeeps(|prefix| + |f.code| + 3);
      var _ := Emit(LOAD_IMM, dst, 0, 0, 1);
      jumpEnd := Emit(JUMP, 0, 0, 0, -1);
      PatchJump(jump, |code|);
    }

    /** The rest of `||` after the right operand. */
    method EmitOrTail(
        dst: byte, r: EmitValue, jumpEnd: int, ghost prefix: seq<Instruction>, ghost f: Frag, ghost g: Frag)
      returns (v: EmitValue)
      requires Valid() && failure == None && Regs() == g.ra && r == EmitValue(g.dst, VBool) && Live(g.ra, g.dst)
      requires jumpEnd == |prefix| + |f.code| + 3 && FitsI32(jumpEnd + 1)
      requires code == prefix + f.code + OrHead(dst, f.dst, jumpEnd + 1, -1) + g.code
      modifies this
      ensures Valid()
      ensures Outcome(v) == After(prefix, OrFrag(f, dst, g, |prefix|))
    {
      hide Live, Valid, Give, DataSlot, After, OrFrag, OrHead, Ins;
      OrFragPatched(prefix, f, dst, g);
      OrFragTooLong(prefix, f, dst, g);
      OrHeadJump(dst, f.dst, jumpEnd + 1);
      var _ := Emit(MOVE, dst, r.reg, 0, 0);
      ReleaseReg(r.reg);
      if FitsI32(|code|) {
        JumpPatched(|code|);
      }
      PatchJump(jumpEnd, |code|);
      v := EmitValue(dst, VBool);
    }

    // ----- the whole program -----

    method Compile(root: Expr) returns (done: bool)
      requires Valid() && failure == None && code == [] && Regs() == Alloc([], 0)
      modifies this
      ensures done <==> failure == None
      ensures GenProgram(q, root) ==
              if failure == None then Ok(Program(code, registerCount)) else Err(failure.value)
    {
      hide GenBool, Live, Valid, ValidAlloc;
      ValidRegs();
      ghost var ra := Regs();
      var result := EmitOperand(root);
      if failure.Some? {
        return false;
      }
      OperandLive(q, root, 0, ra);
      var _ := Emit(RET, result.reg, 0, 0, 0);
      ReleaseReg(result.reg);
      registerCount := nextReg;
      done := true;
      assert [] + GenBool(q, root, 0, ra).value.code == GenBool(q, root, 0, ra).value.code;
    }
  }

  /** Compilation of a tree under a registry: the program, or the status of the first failure.
      A null root is refused before anything else. */
  method CompileAstToProgram(root: Expr, registry: QualifierRegistry) returns (status: Status, program: Program)
    requires registry.Valid()
    ensures root.Null? ==> status == InvalidArg
    ensures !root.Null? ==>
      match GenProgram(registry.qualifiers, root)
      case Ok(p) => status == Success && program == p
      case Err(e) => status == StatusOf(e)
    ensures !root.Null? ==> status == Diagnosis.StatusFor(registry.qualifiers, root)
    ensures !root.Null? ==>
      FirstFault.AnswersFault(status, FirstFault.FaultBool(registry.qualifiers, root, 0, 0))
  {
    FirstFault.StatusAnswersFault(registry.qualifiers, root);
    program := Program([], 0);
    if root.Null? {
      return InvalidArg, program;
    }
    var compiler := new Compiler(registry);
    var done := compiler.Compile(root);
    if !done {
      status := compiler.Status();
      return;
    }
    return Success, Program(compiler.code, compiler.registerCount);
  }
}
