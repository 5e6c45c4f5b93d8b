/** The virtual machine: one step as a value, runs of steps, and the execution loop over a
    register array. Field reads are recorded in the machine so that runs can be compared. */
module Vm {
  import opened Words
  import opened Common
  import opened Bytecode

  /** The caller's context. The machine is given no length, so every address has a byte. */
  type Context = nat -> byte

  type Registers = s: seq<int64> | |s| == MAX_REGISTER_COUNT witness seq(MAX_REGISTER_COUNT, i => 0)

  datatype FieldRead = FieldRead(offset: uint32, size: byte, signed: bool)

  /** `Faulted` is the failure of a run-time check. */
  datatype Machine =
    | Running(pc: nat, regs: Registers, trace: seq<FieldRead>)
    | Returned(result: bool, trace: seq<FieldRead>)
    | Faulted(trace: seq<FieldRead>)

  /** How an execution ends, or that it had not ended within the steps allowed. */
  datatype Outcome = Finished(status: Status, result: Option<bool>) | StillRunning

  /** Before the first instruction every register is 0. */
  function Start(): Machine {
    Running(0, seq(MAX_REGISTER_COUNT, i => 0), [])
  }

  predicate ValidSize(n: byte) {
    n == 1 || n == 2 || n == 4 || n == 8
  }

  function FieldBytes(ctx: Context, offset: nat, n: nat): (bs: seq<byte>)
    ensures |bs| == n
  {
    seq(n, i requires 0 <= i < n => ctx(offset + i))
  }

  /** The word `memcpy` makes of `size` bytes on a little-endian host. */
  function RawField(ctx: Context, offset: uint32, size: byte): uint64
    requires ValidSize(size)
  {
    LEBound(FieldBytes(ctx, offset, size)); Pow256Values();
    LE(FieldBytes(ctx, offset, size))
  }

  /** The casts to a narrower signed type and back. */
  function SignExtend(raw: uint64, size: byte): int64 {
    if size == 1 then Narrow(raw % 0x100, 0x100)
    else if size == 2 then Narrow(raw % 0x1_0000, 0x1_0000)
    else if size == 4 then Narrow(raw % 0x1_0000_0000, 0x1_0000_0000)
    else if size == 8 then ToI64(raw)
    else 0
  }

  function Narrow(x: int, modulus: int): int64
    requires 0 <= x < modulus <= 0x1_0000_0000
  {
    if 2 * x < modulus then x else x - modulus
  }

  function LoadValue(ctx: Context, offset: uint32, size: byte, signed: bool): int64
    requires ValidSize(size)
  {
    var raw := RawField(ctx, offset, size);
    if signed then SignExtend(raw, size) else ToI64(raw)
  }

  /** The result of a comparison opcode. */
  predicate Compares(op: byte, x: int64, y: int64) {
    if op == CMP_EQ then x == y
    else if op == CMP_NE then x != y
    else if op == CMP_GT then x > y
    else if op == CMP_LT then x < y
    else if op == CMP_GE then x >= y
    else x <= y
  }

  predicate RegOk(p: Program, r: byte) {
    r < p.registerCount
  }

  predicate TargetOk(p: Program, i: Instruction) {
    0 <= i.AuxI32() <= |p.code|
  }

  /** The run-time checks of the instruction at `pc`. */
  predicate Checked(p: Program, pc: nat)
    requires pc < |p.code|
  {
    var i := p.code[pc];
    if i.op == LOAD_FIELD then RegOk(p, i.a) && ValidSize(i.b) && i.c <= 1
    else if i.op == LOAD_IMM then RegOk(p, i.a) && pc + 1 < |p.code|
    else if i.op == MOVE || i.op == NOT then RegOk(p, i.a) && RegOk(p, i.b)
    else if IsCompare(i.op) || i.op == AND || i.op == OR then RegOk(p, i.a) && RegOk(p, i.b) && RegOk(p, i.c)
    else if i.op == JUMP_IF_FALSE then RegOk(p, i.a) && TargetOk(p, i)
    else if i.op == JUMP then TargetOk(p, i)
    else i.op == RET && RegOk(p, i.a)
  }

  /** The effect of a checked instruction. */
  function Effect(p: Program, ctx: Context, pc: nat, regs: Registers, trace: seq<FieldRead>): Machine
    requires pc < |p.code| && Checked(p, pc)
  {
    var i := p.code[pc];
    if i.op == LOAD_FIELD then
      Running(pc + 1, regs[i.a := LoadValue(ctx, i.aux, i.b, i.c == 1)], trace + [FieldRead(i.aux, i.b, i.c == 1)])
    else if i.op == LOAD_IMM then
      Running(pc + 2, regs[i.a := p.code[pc + 1].RawWideData()], trace)
    else if i.op == MOVE then
      Running(pc + 1, regs[i.a := regs[i.b]], trace)
    else if IsCompare(i.op) then
      Running(pc + 1, regs[i.a := Truth(Compares(i.op, regs[i.b], regs[i.c]))], trace)
    else if i.op == NOT then
      Running(pc + 1, regs[i.a := Truth(regs[i.b] == 0)], trace)
    else if i.op == AND then
      Running(pc + 1, regs[i.a := AndI64(regs[i.b], regs[i.c])], trace)
    else if i.op == OR then
      Running(pc + 1, regs[i.a := OrI64(regs[i.b], regs[i.c])], trace)
    else if i.op == JUMP_IF_FALSE then
      Running(if regs[i.a] == 0 then i.AuxI32() else pc + 1, regs, trace)
    else if i.op == JUMP then
      Running(i.AuxI32(), regs, trace)
    else
      Returned(regs[i.a] != 0, trace)
  }

  /** Whether no further instruction runs. */
  predicate Halted(p: Program, m: Machine) {
    m.Running? ==> m.pc >= |p.code|
  }

  function Step(p: Program, ctx: Context, m: Machine): Machine {
    if Halted(p, m) then m
    else if !Checked(p, m.pc) then Faulted(m.trace)
    else Effect(p, ctx, m.pc, m.regs, m.trace)
  }

  /** The machine after `k` steps. */
  function Steps(p: Program, ctx: Context, m: Machine, k: nat): Machine {
    if k == 0 then m else Step(p, ctx, Steps(p, ctx, m, k - 1))
  }

  lemma {:induction false} StepsAdd(p: Program, ctx: Context, m: Machine, j: nat, k: nat)
    ensures Steps(p, ctx, m, j + k) == Steps(p, ctx, Steps(p, ctx, m, j), k)
  {
    if k > 0 {
      StepsAdd(p, ctx, m, j, k - 1);
      assert j + k - 1 == j + (k - 1);
    }
  }

  /** A halted machine stays as it is. */
  lemma {:induction false} HaltedStays(p: Program, ctx: Context, m: Machine, j: nat, k: nat)
    requires j <= k && Halted(p, Steps(p, ctx, m, j))
    ensures Steps(p, ctx, m, k) == Steps(p, ctx, m, j)
  {
    if j < k {
      HaltedStays(p, ctx, m, j, k - 1);
    }
  }

  /** What the caller of an execution sees. Leaving the program without Ret is an error. */
  function OutcomeOf(p: Program, m: Machine): Outcome {
    match m
    case Running(pc, _, _) => if pc >= |p.code| then Finished(VmRuntime, None) else StillRunning
    case Returned(b, _) => Finished(Success, Some(b))
    case Faulted(_) => Finished(VmRuntime, None)
  }

  // ----- the execution loop -----

  /** Where control goes after one instruction. */
  datatype Control = Goto(pc: nat) | Leave(result: bool) | Fault

  function After(c: Control, regs: Registers, trace: seq<FieldRead>): Machine {
    match c
    case Goto(pc) => Running(pc, regs, trace)
    case Leave(b) => Returned(b, trace)
    case Fault => Faulted(trace)
  }

  /** The body of the loop for the instructions that compute a value from registers. */
  method ExecuteValue(p: Program, ctx: Context, pc: nat, regs: array<int64>, ghost trace: seq<FieldRead>)
    returns (c: Control)
    requires pc < |p.code| && regs.Length == MAX_REGISTER_COUNT
    requires var op := p.code[pc].op; op == MOVE || IsCompare(op) || op == NOT || op == AND || op == OR
    modifies regs
    ensures After(c, regs[..], trace) == Step(p, ctx, Running(pc, old(regs[..]), trace))
  {
    hide AndI64, OrI64, Truth, Compares, RegOk;
    var i := p.code[pc];
    c := Goto(pc + 1);
    if i.op == MOVE {
      if !RegOk(p, i.a) || !RegOk(p, i.b) {
        return Fault;
      }
      regs[i.a] := regs[i.b];
    } else if IsCompare(i.op) {
      if !RegOk(p, i.a) || !RegOk(p, i.b) || !RegOk(p, i.c) {
        return Fault;
      }
      regs[i.a] := Truth(Compares(i.op, regs[i.b], regs[i.c]));
    } else if i.op == NOT {
      if !RegOk(p, i.a) || !RegOk(p, i.b) {
        return Fault;
      }
      regs[i.a] := Truth(regs[i.b] == 0);
    } else if i.op == AND {
      if !RegOk(p, i.a) || !RegOk(p, i.b) || !RegOk(p, i.c) {
        return Fault;
      }
      regs[i.a] := AndI64(regs[i.b], regs[i.c]);
    } else {
      if !RegOk(p, i.a) || !RegOk(p, i.b) || !RegOk(p, i.c) {
        return Fault;
      }
      regs[i.a] := OrI64(regs[i.b], regs[i.c]);
    }
  }

  /** The body of the loop for every other opcode. */
  method ExecuteOther(p: Program, ctx: Context, pc: nat, regs: array<int64>, ghost trace: seq<FieldRead>)
    returns (c: Control, ghost trace': seq<FieldRead>)
    requires pc < |p.code| && regs.Length == MAX_REGISTER_COUNT
    requires var op := p.code[pc].op; !(op == MOVE || IsCompare(op) || op == NOT || op == AND || op == OR)
    modifies regs
    ensures After(c, regs[..], trace') == Step(p, ctx, Running(pc, old(regs[..]), trace))
  {
    hide LoadValue, RegOk;
    var i := p.code[pc];
    c, trace' := Fault, trace;
    if i.op == LOAD_FIELD {
      if RegOk(p, i.a) && ValidSize(i.b) && i.c <= 1 {
        regs[i.a] := LoadValue(ctx, i.aux, i.b, i.c == 1);
        c, trace' := Goto(pc + 1), trace + [FieldRead(i.aux, i.b, i.c == 1)];
      }
    } else if i.op == LOAD_IMM {
      if RegOk(p, i.a) && pc + 1 < |p.code| {
        regs[i.a] := p.code[pc + 1].RawWideData();
        c := Goto(pc + 2);
      }
    } else if i.op == JUMP_IF_FALSE {
      if RegOk(p, i.a) && 0 <= i.AuxI32() <= |p.code| {
        c := Goto(if regs[i.a] == 0 then i.AuxI32() else pc + 1);
      }
    } else if i.op == JUMP {
      if 0 <= i.AuxI32() <= |p.code| {
        c := Goto(i.AuxI32());
      }
    } else if i.op == RET && RegOk(p, i.a) {
      c := Leave(regs[i.a] != 0);
    }
  }

  /** The execution loop, at most `fuel` instructions of it. */
  method Execute(p: Program, ctx: Context, fuel: nat) returns (outcome: Outcome)
    ensures outcome == OutcomeOf(p, Steps(p, ctx, Start(), fuel))
    ensures match Steps(p, ctx, Start(), fuel)
            case Running(pc, _, _) => outcome == if pc < |p.code| then StillRunning else Finished(VmRuntime, None)
            case Returned(b, _) => outcome == Finished(Success, Some(b))
            case Faulted(_) => outcome == Finished(VmRuntime, None)
  {
    hide Step;
    var regs := new int64[MAX_REGISTER_COUNT](i => 0);
    var pc := 0;
    var steps := 0;
    ghost var trace := [];
    assert regs[..] == Start().regs;
    while pc < |p.code| && steps < fuel
      decreases fuel - steps
      invariant steps <= fuel && Steps(p, ctx, Start(), steps) == Running(pc, regs[..], trace)
    {
      var op := p.code[pc].op;
      var c;
      if op == MOVE || IsCompare(op) || op == NOT || op == AND || op == OR {
        c := ExecuteValue(p, ctx, pc, regs, trace);
      } else {
        c, trace := ExecuteOther(p, ctx, pc, regs, trace);
      }
      steps := steps + 1;
      match c {
        case Leave(b) =>
          HaltedStays(p, ctx, Start(), steps, fuel);
          return Finished(Success, Some(b));
        case Fault =>
          HaltedStays(p, ctx, Start(), steps, fuel);
          return Finished(VmRuntime, None);
        case Goto(next) => pc := next;
      }
    }
    if pc >= |p.code| {
      HaltedStays(p, ctx, Start(), steps, fuel);
      return Finished(VmRuntime, None);
    }
    outcome := StillRunning;
  }
}
