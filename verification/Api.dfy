/** Program objects of the C API: compilation, execution behind a remembered verification,
    serialization and the two loaders. */
module Api {
  import opened Words
  import opened Common
  import opened Bytecode
  import opened Registry
  import opened Ast
  import opened CodeGen
  import opened CompilerState
  import opened Vm
  import opened Verifier
  import opened Semantics
  import opened CompilerTheorems
  import opened Serialization
  import FirstFault
  import Races

  /** `sizeof(mbpf_program_t)` on a 64-bit target. */
  const PROGRAM_OBJECT_SIZE := 32

  /** What one execution gives with `fuel` instructions when every execution verifies first. */
  ghost function AlwaysVerified(p: Program, ctx: Context, fuel: nat): Outcome {
    if p.registerCount < 0 then Finished(InvalidArg, None)
    else if Verified(p) then OutcomeOf(p, Steps(p, ctx, Start(), fuel))
    else Finished(VerificationError, None)
  }

  /** It is the outcome of the execution that verifies first, unless the register count is negative;
      and once it has ended, one that the specification of concurrent executions allows. */
  lemma AlwaysVerifiedIsExpected(p: Program, ctx: Context, fuel: nat)
    ensures var o := AlwaysVerified(p, ctx, fuel);
      && (p.registerCount < 0 ==> o == Finished(InvalidArg, None))
      && (p.registerCount >= 0 ==>
            o == if Verified(p) then OutcomeOf(p, Steps(p, ctx, Start(), fuel)) else Finished(VerificationError, None))
      && (o != StillRunning ==> Races.Expected(p, ctx, o))
  {
    hide Verified, Steps, Start;
    var m := Steps(p, ctx, Start(), fuel);
    assert OutcomeOf(p, m) != StillRunning ==> Halted(p, m);
  }

  class MbpfProgram {
    var registerCount: int
    var instructions: seq<Instruction>
    var ownsSelf: bool
    var verified: bool

    function View(): Program
      reads `registerCount, `instructions
    {
      Program(instructions, registerCount)
    }

    /** The remembered flag is never set on a program the verifier would refuse. */
    ghost predicate Valid()
      reads this
    {
      |instructions| <= UINT32_MAX && registerCount <= INT32_MAX && (verified ==> Verified(View()))
    }

    constructor ()
      ensures Valid() && View() == Program([], 0) && !ownsSelf && !verified
    {
      registerCount, instructions, ownsSelf, verified := 0, [], false, false;
    }

    /** Execution that skips the verifier once it has accepted the program. Its outcome is that
        of an execution that always verifies, and the slots are never changed by it. */
    method Execute(ctx: Context, fuel: nat) returns (outcome: Outcome)
      requires Valid()
      modifies `verified
      ensures Valid()
      ensures outcome == AlwaysVerified(View(), ctx, fuel)
      ensures registerCount < 0 ==> outcome == Finished(InvalidArg, None)
      ensures registerCount >= 0 && !Verified(View()) ==> outcome == Finished(VerificationError, None)
      ensures Verified(View()) ==> outcome == OutcomeOf(View(), Steps(View(), ctx, Start(), fuel))
      ensures verified == (old(verified) || (registerCount >= 0 && Verified(View())))
    {
      hide Steps, OutcomeOf, Verified;
      VerifiedRegisters(View());
      if registerCount < 0 {
        return Finished(InvalidArg, None);
      }
      if !verified {
        var ok := VerifyProgram(View());
        if !ok {
          return Finished(VerificationError, None);
        }
        verified := true;
      }
      outcome := Vm.Execute(View(), ctx, fuel);
    }

    /** Serialization into a buffer of `provided` bytes, or without a buffer the query for the
        size required. */
    method Serialize(hasBuffer: bool, provided: nat) returns (status: Status, required: nat, blob: seq<byte>)
      requires Valid()
      ensures registerCount < 0 ==> status == InvalidArg && blob == []
      ensures registerCount >= 0 ==>
        required == |Serialized(View())| &&
        status == (if hasBuffer && provided < required then InvalidArg else Success) &&
        blob == if hasBuffer && provided >= required then Serialized(View()) else []
      ensures registerCount >= 0 ==> required == 16 + 8 * |instructions|
      ensures hasBuffer && status == Success ==> LaidOut(View(), blob)
    {
      hide Verified, Header, SlotBytes, LaidOut;
      required, blob := 0, [];
      if registerCount < 0 {
        return InvalidArg, required, blob;
      }
      required := HEADER_SIZE + 8 * |instructions|;
      if !hasBuffer {
        return Success, required, blob;
      }
      if provided < required {
        return InvalidArg, required, blob;
      }
      blob := SerializeProgram(View());
      status := Success;
    }

    /** Freeing a program in caller memory empties it and forgets the verification. A program
        that owns itself is deleted, which is not part of this model. */
    method Free()
      requires Valid()
      modifies this
      ensures Valid()
      ensures !old(ownsSelf) ==> View() == Program([], 0) && !verified
      ensures old(ownsSelf) ==> View() == old(View()) && verified == old(verified)
      ensures ownsSelf == old(ownsSelf)
    {
      if ownsSelf {
        return;
      }
      registerCount, instructions, verified := 0, [], false;
    }

    /** Placement of a fresh program object: all fields at their defaults. */
    method Reset()
      modifies this
      ensures Valid() && View() == Program([], 0) && !ownsSelf && !verified
    {
      registerCount, instructions, ownsSelf, verified := 0, [], false, false;
    }

    /** The common end of the loaders: the parsed program is stored, then verified. */
    method Load(buffer: seq<byte>, header: (uint32, uint32), owns: bool) returns (status: Status)
      requires ParsedHeader(buffer) == Some(header) && |buffer| == HEADER_SIZE + 8 * header.1
      requires !verified
      modifies this
      ensures Valid() && View() == Parsed(buffer).value && ownsSelf == owns
      ensures status == if Verified(View()) then Success else VerificationError
      ensures verified <==> status == Success
    {
      hide Verified, SlotsFrom, ParsedHeader;
      HeaderBound(buffer);
      var slots := new Instruction[header.1](i => Instruction(0, 0, 0, 0, 0));
      LoadSerializedInstructions(buffer, slots);
      instructions := slots[..];
      registerCount, ownsSelf := header.0, owns;
      var ok := VerifyProgram(View());
      if !ok {
        return VerificationError;
      }
      verified := true;
      status := Success;
    }
  }

  lemma HeaderBound(b: seq<byte>)
    ensures ParsedHeader(b).Some? ==> ParsedHeader(b).value.0 <= INT32_MAX
    ensures ParsedHeader(b).Some? ==> |b| == HEADER_SIZE + 8 * ParsedHeader(b).value.1
  {
  }

  lemma VerifiedRegisters(p: Program)
    ensures Verified(p) ==> 0 <= p.registerCount <= MAX_REGISTER_COUNT
  {
  }

  /** The loader that allocates the program. */
  method ProgramDeserialize(buffer: seq<byte>) returns (status: Status, program: MbpfProgram?)
    ensures status == if Accepted(buffer).Some? then Success else VerificationError
    ensures status == Success <==> program != null
    ensures program != null ==>
      && fresh(program) && program.Valid() && program.verified && program.ownsSelf
      && Some(program.View()) == Accepted(buffer) && LaidOut(program.View(), buffer)
  {
    hide Verified, SlotsFrom, ParsedHeader, LaidOut;
    var header := ParseSerializedProgramHeader(buffer);
    if header == None {
      return VerificationError, null;
    }
    HeaderBound(buffer);
    var loaded := new MbpfProgram();
    status := loaded.Load(buffer, header.value, true);
    ParsedExactly(buffer, loaded.View());
    program := if status == Success then loaded else null;
  }

  /** The loader into caller memory, given as the program object placed there, or null to ask
      for the size only. Whatever the memory held is overwritten, and only when it is large enough. */
  method ProgramDeserializeToMemory(buffer: seq<byte>, memory: MbpfProgram?, provided: nat)
    returns (status: Status, required: nat, loaded: bool)
    modifies memory
    ensures memory != null && old(memory.Valid()) ==> memory.Valid()
    ensures Parsed(buffer).None? ==> status == VerificationError && !loaded
    ensures Parsed(buffer).Some? ==> required == 32 + 8 * |Parsed(buffer).value.code|
    ensures Parsed(buffer).Some? && memory == null ==> status == Success && !loaded
    ensures Parsed(buffer).Some? && memory != null && provided < required ==>
      status == InvalidArg && !loaded
    ensures memory != null && (Parsed(buffer).None? || provided < required) ==> unchanged(memory)
    ensures Parsed(buffer).Some? && memory != null && provided >= required ==>
      && status == (if Accepted(buffer).Some? then Success else VerificationError)
      && loaded == (status == Success) && memory.verified == loaded && !memory.ownsSelf
      && memory.Valid() && Some(memory.View()) == Parsed(buffer)
      && LaidOut(memory.View(), buffer) && (loaded ==> Some(memory.View()) == Accepted(buffer))
  {
    hide Verified, SlotsFrom, ParsedHeader, LaidOut;
    required, loaded := 0, false;
    var header := ParseSerializedProgramHeader(buffer);
    if header == None {
      return VerificationError, required, loaded;
    }
    HeaderBound(buffer);
    required := PROGRAM_OBJECT_SIZE + 8 * header.value.1 as int;
    if memory == null {
      return Success, required, loaded;
    }
    if provided < required {
      return InvalidArg, required, loaded;
    }
    memory.Reset();
    status := memory.Load(buffer, header.value, false);
    ParsedExactly(buffer, memory.View());
    loaded := status == Success;
  }

  /** Compilation into a new program object, not yet verified. */
  method CompileExpression(root: Expr, registry: QualifierRegistry)
    returns (status: Status, program: MbpfProgram?)
    requires registry.Valid()
    ensures root.Null? ==> status == InvalidArg
    ensures !root.Null? && GenProgram(registry.qualifiers, root).Err? ==>
      status == StatusOf(GenProgram(registry.qualifiers, root).error)
    ensures !root.Null? && GenProgram(registry.qualifiers, root).Ok? ==>
      status == if |GenProgram(registry.qualifiers, root).value.code| > 0xffff_ffff then CodegenError else Success
    ensures !root.Null? && !(status == CodegenError && GenProgram(registry.qualifiers, root).Ok?) ==>
      FirstFault.AnswersFault(status, FirstFault.FaultBool(registry.qualifiers, root, 0, 0))
    ensures status == Success <==> program != null
    ensures program != null ==>
      && fresh(program) && program.Valid() && !program.verified && program.ownsSelf
      && Ok(program.View()) == GenProgram(registry.qualifiers, root)
  {
    hide GenProgram, Verified;
    var compiled;
    status, compiled := CompileAstToProgram(root, registry);
    program := null;
    if status != Success {
      return;
    }
    if |compiled.code| > UINT32_MAX {
      return CodegenError, null;
    }
    CompiledRegisters(registry.qualifiers, root);
    program := new MbpfProgram();
    program.instructions, program.registerCount, program.ownsSelf := compiled.code, compiled.registerCount, true;
  }

  lemma CompiledRegisters(q: Qualifiers, root: Expr)
    ensures GenProgram(q, root).Ok? ==> 0 <= GenProgram(q, root).value.registerCount <= MAX_REGISTER_COUNT
  {
    hide GenProgram;
    CompilesExactlyWhen(q, root);
  }

  /** Compile, then execute with at least as many instructions as the program has: the execution
      succeeds with the truth of the expression in the context. */
  lemma CompiledExecution(q: Qualifiers, root: Expr, ctx: Context, fuel: nat)
    requires WellFormed(q) && GenProgram(q, root).Ok? && fuel >= |GenProgram(q, root).value.code|
    ensures AlwaysVerified(GenProgram(q, root).value, ctx, fuel) ==
            Finished(Success, Some(EvalBool(q, root, ctx).value != 0))
  {
    hide GenProgram, Verified, Steps, EvalBool, WellFormed, IsStart;
    var p := GenProgram(q, root).value;
    CompiledRegisters(q, root);
    CompiledIsVerified(q, root);
    CompiledComputes(q, root, ctx);
    HaltedStays(p, ctx, Start(), |p.code|, fuel);
  }

  /** A compiled program survives serialization, and behaves the same after it. */
  lemma CompiledSurvivesSerialization(q: Qualifiers, root: Expr)
    requires WellFormed(q) && GenProgram(q, root).Ok? && |GenProgram(q, root).value.code| <= UINT32_MAX
    ensures var p := GenProgram(q, root).value;
      0 <= p.registerCount <= INT32_MAX && Accepted(Serialized(p)) == Some(p)
  {
    hide GenProgram, Verified, WellFormed, Header, SlotBytes, Parsed, IsStart;
    CompiledRegisters(q, root);
    CompiledIsVerified(q, root);
    LoadOfSerialized(GenProgram(q, root).value);
  }
}
