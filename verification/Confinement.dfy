/** What acceptance confines a program to, and what the machine does for each opcode number. The
    opcodes are written as the numbers of their enumeration, and nothing here refers to the checks
    the verifier and the machine share. */
module Confinement {
  import opened Words
  import opened Bytecode
  import opened Vm
  import opened Verifier

  /** The rules for the operands of one instruction. */
  predicate OperandRules(p: Program, i: nat)
    requires i < |p.code|
  {
    var ins, n := p.code[i], p.registerCount;
    && ins.op <= 14
    && (ins.op == 0 ==>
          ins.a < n && (ins.b == 1 || ins.b == 2 || ins.b == 4 || ins.b == 8) && (ins.c == 0 || ins.c == 1))
    && (ins.op == 1 ==> ins.a < n && i + 2 <= |p.code|)
    && (ins.op == 2 || ins.op == 9 ==> ins.a < n && ins.b < n)
    && (3 <= ins.op <= 8 || ins.op == 13 || ins.op == 14 ==> ins.a < n && ins.b < n && ins.c < n)
    && (ins.op == 10 || ins.op == 12 ==> ins.a < n)
    && (ins.op == 10 || ins.op == 11 ==> ins.aux <= 0x7fff_ffff && ins.aux <= |p.code|)
  }

  lemma ChecksAreRules(p: Program, i: nat)
    requires i < |p.code|
    ensures Checked(p, i) <==> OperandRules(p, i)
  {
  }

  /** Instruction `i` obeys the rules, and a jump goes to the start of an instruction or the end. */
  predicate Ruled(p: Program, i: nat)
    requires i < |p.code|
  {
    OperandRules(p, i) && (p.code[i].op == 10 || p.code[i].op == 11 ==> IsStart(p.code, p.code[i].aux))
  }

  lemma SoundIsRuled(p: Program, i: nat)
    requires i < |p.code|
    ensures Sound(p, i) <==> Ruled(p, i)
  {
    hide IsStart, Checked;
    ChecksAreRules(p, i);
  }

  /** The verifier accepts exactly the programs of at most 256 registers whose walk lands on the end
      and whose instructions on it obey the rules. */
  lemma AcceptsExactly(p: Program)
    ensures Verified(p) <==>
            && 0 <= p.registerCount <= 256 && |p.code| > 0 && IsStart(p.code, |p.code|)
            && forall i :: 0 <= i < |p.code| && IsStart(p.code, i) ==> Ruled(p, i)
  {
    hide IsStart, Sound, Ruled;
    forall i | 0 <= i < |p.code| ensures Sound(p, i) <==> Ruled(p, i) {
      SoundIsRuled(p, i);
    }
  }

  /** The walk: an instruction with opcode 1 takes two slots, every other takes one. */
  lemma WalkExactly(code: seq<Instruction>, i: nat)
    requires i <= |code|
    ensures IsStart(code, i) <==>
            || i == 0
            || (IsStart(code, i - 1) && code[i - 1].op != 1)
            || (i >= 2 && IsStart(code, i - 2) && code[i - 2].op == 1)
  {
  }

  // ----- the machine by opcode number -----

  /** The effect of an instruction that computes a value into register `a`. */
  function Computed(op: byte, x: int64, y: int64): int64
    requires 2 <= op <= 9
  {
    if op == 2 then x
    else if op == 3 then (if x == y then 1 else 0)
    else if op == 4 then (if x != y then 1 else 0)
    else if op == 5 then (if x > y then 1 else 0)
    else if op == 6 then (if x < y then 1 else 0)
    else if op == 7 then (if x >= y then 1 else 0)
    else if op == 8 then (if x <= y then 1 else 0)
    else (if x == 0 then 1 else 0)
  }

  /** One step by opcode number. An instruction that breaks a rule faults. */
  lemma StepByNumber(p: Program, ctx: Context, pc: nat, regs: Registers, trace: seq<FieldRead>)
    requires pc < |p.code|
    ensures var i, m := p.code[pc], Step(p, ctx, Running(pc, regs, trace));
      && (!OperandRules(p, pc) ==> m == Faulted(trace))
      && (OperandRules(p, pc) && i.op == 0 ==>
            m == Running(pc + 1, regs[i.a := LoadValue(ctx, i.aux, i.b, i.c == 1)],
                         trace + [FieldRead(i.aux, i.b, i.c == 1)]))
      && (OperandRules(p, pc) && i.op == 1 ==>
            m == Running(pc + 2, regs[i.a := p.code[pc + 1].RawWideData()], trace))
      && (OperandRules(p, pc) && 2 <= i.op <= 9 ==>
            m == Running(pc + 1, regs[i.a := Computed(i.op, regs[i.b], regs[i.c])], trace))
      && (OperandRules(p, pc) && i.op == 10 ==>
            m == Running(if regs[i.a] == 0 then i.aux else pc + 1, regs, trace))
      && (OperandRules(p, pc) && i.op == 11 ==> m == Running(i.aux, regs, trace))
      && (OperandRules(p, pc) && i.op == 12 ==> m == Returned(regs[i.a] != 0, trace))
      && (OperandRules(p, pc) && i.op == 13 ==>
            m == Running(pc + 1, regs[i.a := AndI64(regs[i.b], regs[i.c])], trace))
      && (OperandRules(p, pc) && i.op == 14 ==>
            m == Running(pc + 1, regs[i.a := OrI64(regs[i.b], regs[i.c])], trace))
  {
    hide LoadValue, AndI64, OrI64, Checked, OperandRules;
    ChecksAreRules(p, pc);
    TargetIsAux(p, pc);
    NumberedOpcodes(p, pc);
  }

  lemma NumberedOpcodes(p: Program, i: nat)
    requires i < |p.code|
    ensures OperandRules(p, i) ==> p.code[i].op <= 14
  {
  }

  lemma TargetIsAux(p: Program, i: nat)
    requires i < |p.code|
    ensures OperandRules(p, i) && (p.code[i].op == 10 || p.code[i].op == 11) ==> p.code[i].AuxI32() == p.code[i].aux
  {
  }

  /** A run begins at slot 0 with nothing read and every register 0. */
  lemma RunsBeginAtZero(p: Program, ctx: Context)
    ensures exists regs: Registers ::
      Steps(p, ctx, Start(), 0) == Running(0, regs, []) && forall r: byte :: regs[r] == 0
  {
    assert Steps(p, ctx, Start(), 0) == Start();
    assert forall r: byte :: Start().regs[r] == 0;
  }

  // ----- registers beyond the declared ones -----

  predicate SameBelow(n: int, a: Registers, b: Registers) {
    forall r: byte :: r < n ==> a[r] == b[r]
  }

  /** Two machines that differ at most in registers at and above `n`. */
  ghost predicate Twins(n: int, a: Machine, b: Machine) {
    match (a, b)
    case (Running(pc, regs, trace), Running(pc', regs', trace')) =>
      pc == pc' && trace == trace' && SameBelow(n, regs, regs')
    case _ => a == b && !a.Running?
  }

  lemma RunningRuled(p: Program, m: Machine)
    requires Verified(p) && Safe(p, m) && m.Running? && m.pc < |p.code|
    ensures OperandRules(p, m.pc)
  {
    hide IsStart, OperandRules;
    AcceptsExactly(p);
    assert Ruled(p, m.pc);
  }

  lemma StepTwins(p: Program, ctx: Context, a: Machine, b: Machine)
    requires Verified(p) && Safe(p, a) && Twins(p.registerCount, a, b)
    ensures Twins(p.registerCount, Step(p, ctx, a), Step(p, ctx, b))
  {
    hide Verified, Safe, LoadValue, AndI64, OrI64, Checked, Computed;
    if a.Running? && a.pc < |p.code| {
      RunningRuled(p, a);
      StepByNumber(p, ctx, a.pc, a.regs, a.trace);
      StepByNumber(p, ctx, b.pc, b.regs, b.trace);
    }
  }

  /** Two runs of an accepted program from register files that agree on the declared registers stay
      at the same slot with the same reads, end with the same result, and agree there throughout. */
  lemma {:induction false} UndeclaredRegistersDoNotMatter(p: Program, ctx: Context, a: Machine, b: Machine, k: nat)
    requires Verified(p) && Safe(p, a) && Twins(p.registerCount, a, b)
    ensures Safe(p, Steps(p, ctx, a, k)) && Twins(p.registerCount, Steps(p, ctx, a, k), Steps(p, ctx, b, k))
  {
    hide Verified, Safe, Twins, Step;
    if k > 0 {
      UndeclaredRegistersDoNotMatter(p, ctx, a, b, k - 1);
      SafeStep(p, ctx, Steps(p, ctx, a, k - 1));
      StepTwins(p, ctx, Steps(p, ctx, a, k - 1), Steps(p, ctx, b, k - 1));
    }
  }

  predicate SameAbove(n: int, a: Registers, b: Registers) {
    forall r: byte :: r >= n ==> a[r] == b[r]
  }

  lemma StepKeepsUndeclared(p: Program, ctx: Context, m: Machine)
    requires Verified(p) && Safe(p, m) && m.Running? && Step(p, ctx, m).Running?
    ensures SameAbove(p.registerCount, m.regs, Step(p, ctx, m).regs)
  {
    hide Verified, Safe, LoadValue, AndI64, OrI64, Checked, Computed;
    if m.pc < |p.code| {
      RunningRuled(p, m);
      StepByNumber(p, ctx, m.pc, m.regs, m.trace);
    }
  }

  /** A run of an accepted program never changes a register it did not declare. */
  lemma {:induction false} UndeclaredRegistersStay(p: Program, ctx: Context, m: Machine, k: nat)
    requires Verified(p) && Safe(p, m) && m.Running? && Steps(p, ctx, m, k).Running?
    ensures Safe(p, Steps(p, ctx, m, k)) && SameAbove(p.registerCount, m.regs, Steps(p, ctx, m, k).regs)
  {
    hide Verified, Safe, Step;
    if k > 0 {
      var before := Steps(p, ctx, m, k - 1);
      WasRunning(p, ctx, before);
      UndeclaredRegistersStay(p, ctx, m, k - 1);
      SafeStep(p, ctx, before);
      StepKeepsUndeclared(p, ctx, before);
    }
  }

  lemma WasRunning(p: Program, ctx: Context, m: Machine)
    ensures Step(p, ctx, m).Running? ==> m.Running?
  {
  }
}
