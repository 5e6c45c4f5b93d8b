/** The bytecode verifier, the declarative property it decides, and what that property means
    for every run. */
module Verifier {
  import opened Words
  import opened Common
  import opened Bytecode
  import opened Vm

  /** Slot `i` begins an instruction, or is the end of the program: the walk from slot 0 by
      instruction lengths reaches it. */
  predicate IsStart(code: seq<Instruction>, i: nat)
    requires i <= |code|
  {
    || i == 0
    || (IsStart(code, i - 1) && Slots(code[i - 1].op) == 1)
    || (i >= 2 && IsStart(code, i - 2) && Slots(code[i - 2].op) == 2)
  }

  /** An instruction whose operands are valid and whose jump, if it is one, goes to the start
      of an instruction or to the end. */
  predicate Sound(p: Program, i: nat)
    requires i < |p.code|
  {
    Checked(p, i) && (IsJump(p.code[i].op) ==> IsStart(p.code, p.code[i].AuxI32()))
  }

  /** What the verifier decides: the walk from slot 0 lands exactly on the end, and every
      instruction on it is sound. */
  ghost predicate Verified(p: Program) {
    && 0 <= p.registerCount <= MAX_REGISTER_COUNT
    && |p.code| > 0
    && IsStart(p.code, |p.code|)
    && forall i :: 0 <= i < |p.code| && IsStart(p.code, i) ==> Sound(p, i)
  }

  /** The data slot of a two-slot instruction does not begin an instruction. */
  lemma {:induction false} DataIsNoStart(code: seq<Instruction>, i: nat)
    requires i < |code| && IsStart(code, i) && Slots(code[i].op) == 2
    ensures !IsStart(code, i + 1)
  {
    if i > 0 && IsStart(code, i - 1) && Slots(code[i - 1].op) == 2 {
      DataIsNoStart(code, i - 1);
    }
  }

  /** `targets` are the targets of the jumps that start below `i`; `from` names the jump each
      one belongs to. */
  ghost predicate Targets(p: Program, i: nat, targets: seq<nat>, from: seq<nat>)
    requires i <= |p.code|
  {
    && |from| == |targets|
    && (forall k :: 0 <= k < |from| ==>
          && from[k] < i && IsStart(p.code, from[k]) && IsJump(p.code[from[k]].op)
          && p.code[from[k]].AuxI32() == targets[k] <= |p.code|)
    && (forall j :: 0 <= j < i && IsStart(p.code, j) && IsJump(p.code[j].op) ==> p.code[j].AuxI32() in targets)
  }

  /** The table of starts is right below `i` and empty from there on, except for slot 0. */
  ghost predicate Marked(p: Program, starts: seq<bool>, i: nat)
    requires i <= |p.code|
  {
    && |starts| == |p.code| + 1
    && (forall j :: 0 <= j < i ==> (starts[j] <==> IsStart(p.code, j)))
    && (forall j :: i <= j <= |p.code| && j > 0 ==> !starts[j])
  }

  /** The instruction after `i` starts where `i` ends, and nothing starts in between. */
  lemma NextStart(code: seq<Instruction>, i: nat)
    requires i < |code| && i + Slots(code[i].op) <= |code| && IsStart(code, i)
    ensures var next := i + Slots(code[i].op);
      IsStart(code, next) && forall j :: i < j < next ==> !IsStart(code, j)
  {
    if Slots(code[i].op) == 2 {
      DataIsNoStart(code, i);
    }
  }

  /** One instruction of the sweep: its start is marked and its length skipped. */
  lemma MarkedStep(p: Program, starts: seq<bool>, i: nat, next: nat)
    requires i < |p.code| && IsStart(p.code, i) && Marked(p, starts, i) && i < next <= |p.code|
    requires forall j :: i < j < next ==> !IsStart(p.code, j)
    ensures Marked(p, starts[i := true], next)
  {
    hide IsStart;
  }

  lemma NoTargets(p: Program)
    ensures Targets(p, 0, [], [])
  {
  }

  /** A checked instruction ends within the program, and so does its jump. */
  lemma CheckedBounds(p: Program, i: nat)
    requires i < |p.code| && Checked(p, i)
    ensures i + Slots(p.code[i].op) <= |p.code|
    ensures IsJump(p.code[i].op) ==> 0 <= p.code[i].AuxI32() <= |p.code|
  {
  }

  lemma TargetsStep(p: Program, i: nat, next: nat, targets: seq<nat>, from: seq<nat>)
    requires i < next <= |p.code| && IsStart(p.code, i) && Checked(p, i) && Targets(p, i, targets, from)
    requires forall j :: i < j < next ==> !IsStart(p.code, j)
    ensures IsJump(p.code[i].op) ==> Targets(p, next, targets + [p.code[i].AuxI32()], from + [i])
    ensures !IsJump(p.code[i].op) ==> Targets(p, next, targets, from)
  {
    hide IsStart;
  }

  /** The verifier's own checks of one instruction, opcode by opcode: the slot after it and its jump
      target. They are the machine's run-time checks, no more and no fewer. */
  method VerifyInstruction(p: Program, i: nat) returns (ok: bool, next: nat, target: Option<nat>)
    requires i < |p.code|
    ensures ok <==> Checked(p, i)
    ensures ok ==> next == i + Slots(p.code[i].op) && (target.Some? <==> IsJump(p.code[i].op))
    ensures ok && target.Some? ==> target.value == p.code[i].AuxI32()
  {
    var ins, count := p.code[i], p.registerCount;
    ok, next, target := false, i + 1, None;
    if ins.op == LOAD_FIELD {
      if ins.a >= count {
        return;
      }
      if !(ins.b == 1 || ins.b == 2 || ins.b == 4 || ins.b == 8) {
        return;
      }
      if ins.c > 1 {
        return;
      }
    } else if ins.op == LOAD_IMM {
      if ins.a >= count || i + 1 >= |p.code| {
        return;
      }
      next := i + 2;
    } else if ins.op == MOVE || ins.op == NOT {
      if ins.a >= count || ins.b >= count {
        return;
      }
    } else if CMP_EQ <= ins.op <= CMP_LE || ins.op == AND || ins.op == OR {
      if ins.a >= count || ins.b >= count || ins.c >= count {
        return;
      }
    } else if ins.op == JUMP_IF_FALSE || ins.op == JUMP {
      if ins.op == JUMP_IF_FALSE && ins.a >= count {
        return;
      }
      if ins.AuxI32() < 0 || ins.AuxI32() > |p.code| {
        return;
      }
      target := Some(ins.AuxI32());
    } else if ins.op == RET {
      if ins.a >= count {
        return;
      }
    } else {
      return;
    }
    ok := true;
  }

  /** The linear sweep: marks the start of every instruction and collects the jump targets,
      until the end or an invalid instruction. */
  method Sweep(p: Program, starts: array<bool>) returns (ok: bool, targets: seq<nat>, ghost from: seq<nat>)
    requires |p.code| > 0 && starts.Length == |p.code| + 1 && Marked(p, starts[..], 0)
    modifies starts
    ensures !ok ==> !Verified(p)
    ensures ok ==>
      && IsStart(p.code, |p.code|) && Marked(p, starts[..], |p.code|) && Targets(p, |p.code|, targets, from)
      && (forall j :: 0 <= j < |p.code| && IsStart(p.code, j) ==> Checked(p, j))
  {
    hide Checked, Targets, Marked;
    targets, from := [], [];
    NoTargets(p);
    var i := 0;
    while i < |p.code|
      invariant i <= |p.code| && IsStart(p.code, i)
      invariant Marked(p, starts[..], i) && Targets(p, i, targets, from)
      invariant forall j :: 0 <= j < i && IsStart(p.code, j) ==> Checked(p, j)
    {
      ghost var table := starts[..];
      starts[i] := true;
      var passed, next, target := VerifyInstruction(p, i);
      if !passed {
        return false, [], [];
      }
      CheckedBounds(p, i);
      NextStart(p.code, i);
      MarkedStep(p, table, i, next);
      TargetsStep(p, i, next, targets, from);
      assert starts[..] == table[i := true];
      if target.Some? {
        targets, from := targets + [target.value], from + [i];
      }
      i := next;
    }
    ok := true;
  }

  method VerifyProgram(p: Program) returns (ok: bool)
    ensures ok <==> Verified(p)
  {
    if p.registerCount < 0 || p.registerCount > MAX_REGISTER_COUNT || |p.code| == 0 {
      return false;
    }
    var starts := new bool[|p.code| + 1](i => false);
    starts[0] := true;
    var swept, targets, from := Sweep(p, starts);
    if !swept {
      return false;
    }
    starts[|p.code|] := true;
    for k := 0 to |targets|
      invariant forall j :: 0 <= j < k ==> targets[j] <= |p.code| && IsStart(p.code, targets[j])
    {
      if !starts[targets[k]] {
        assert !Sound(p, from[k]);
        return false;
      }
    }
    return true;
  }

  // ----- what acceptance means for runs -----

  /** A state the machine can be in while running a verified program: the program counter is
      at the start of an instruction or at the end, never on data, and no check has failed. */
  ghost predicate Safe(p: Program, m: Machine) {
    match m
    case Running(pc, _, _) => pc <= |p.code| && IsStart(p.code, pc)
    case Returned(_, _) => true
    case Faulted(_) => false
  }

  lemma SafeStep(p: Program, ctx: Context, m: Machine)
    requires Verified(p) && Safe(p, m)
    ensures Safe(p, Step(p, ctx, m))
  {
    hide LoadValue, Compares, AndI64, OrI64;
    if m.Running? && m.pc < |p.code| {
      assert Sound(p, m.pc);
      CheckedBounds(p, m.pc);
      NextStart(p.code, m.pc);
    }
  }

  /** Soundness: no run of an accepted program fails a run-time check or reads data as code. */
  lemma {:induction false} VerifiedRunsSafely(p: Program, ctx: Context, k: nat)
    requires Verified(p)
    ensures Safe(p, Steps(p, ctx, Start(), k))
  {
    hide Verified, Step, IsStart;
    if k == 0 {
      StartIsSafe(p);
    } else {
      VerifiedRunsSafely(p, ctx, k - 1);
      SafeStep(p, ctx, Steps(p, ctx, Start(), k - 1));
    }
  }

  lemma StartIsSafe(p: Program)
    ensures Safe(p, Start())
  {
  }

  /** A halted run of an accepted program is at a Ret, or ran off the end of the program. */
  lemma VerifiedOutcome(p: Program, ctx: Context, k: nat)
    requires Verified(p)
    ensures var m := Steps(p, ctx, Start(), k);
      OutcomeOf(p, m) == Finished(VmRuntime, None) <==> m.Running? && m.pc == |p.code|
  {
    hide Verified, Steps;
    VerifiedRunsSafely(p, ctx, k);
  }

  /** The verifying execution: nothing runs unless the program is accepted. */
  method ExecuteProgram(p: Program, ctx: Context, fuel: nat) returns (outcome: Outcome)
    ensures outcome == if Verified(p) then OutcomeOf(p, Steps(p, ctx, Start(), fuel))
                       else Finished(VerificationError, None)
  {
    var ok := VerifyProgram(p);
    if !ok {
      return Finished(VerificationError, None);
    }
    outcome := Execute(p, ctx, fuel);
  }
}
