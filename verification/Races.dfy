/** Concurrent executions of one program. Each thread checks the shape, loads the shared flag,
    verifies if it was not set, stores the flag, and then runs the machine one instruction at a
    time. The steps of all threads interleave in any order. */
module Races {
  import opened Common
  import opened Bytecode
  import opened Registry
  import opened Ast
  import opened CodeGen
  import opened Vm
  import opened Verifier
  import opened Semantics
  import opened CompilerTheorems

  datatype Phase =
    | Enter
    | LoadFlag
    | Verifying
    | StoreFlag
    | Executing(m: Machine)
    | Done(outcome: Outcome)

  datatype Thread = Thread(ctx: Context, phase: Phase)

  /** The shared flag and the threads; the program itself is never written. */
  datatype State = State(verified: bool, threads: seq<Thread>)

  /** The step a thread takes next, given the flag it may load. */
  ghost function NextPhase(p: Program, verified: bool, t: Thread): Phase {
    match t.phase
    case Enter => if p.registerCount < 0 then Done(Finished(InvalidArg, None)) else LoadFlag
    case LoadFlag => if verified then Executing(Start()) else Verifying
    case Verifying => if Verified(p) then StoreFlag else Done(Finished(VerificationError, None))
    case StoreFlag => Executing(Start())
    case Executing(m) => if Halted(p, m) then Done(OutcomeOf(p, m)) else Executing(Step(p, t.ctx, m))
    case Done(_) => t.phase
  }

  /** Thread `i` takes its step; only a store sets the flag. */
  ghost function StepOf(p: Program, s: State, i: nat): State
    requires i < |s.threads|
  {
    var t := s.threads[i];
    State(s.verified || t.phase.StoreFlag?, s.threads[i := t.(phase := NextPhase(p, s.verified, t))])
  }

  /** Before any thread has moved the flag is set only on a program the verifier accepts. */
  ghost predicate Initial(p: Program, s: State) {
    (s.verified ==> Verified(p)) && forall i :: 0 <= i < |s.threads| ==> s.threads[i].phase == Enter
  }

  /** The state after a schedule, which names the thread that moves at each moment. */
  ghost function Scheduled(p: Program, s: State, schedule: seq<nat>): (r: State)
    requires forall k :: 0 <= k < |schedule| ==> schedule[k] < |s.threads|
    ensures |r.threads| == |s.threads|
    ensures forall i :: 0 <= i < |s.threads| ==> r.threads[i].ctx == s.threads[i].ctx
  {
    if schedule == [] then s else
      var last := |schedule| - 1;
      StepOf(p, Scheduled(p, s, schedule[..last]), schedule[last])
  }

  /** An outcome an execution that always verifies can have, run to its end. */
  ghost predicate Expected(p: Program, ctx: Context, o: Outcome) {
    if p.registerCount < 0 then o == Finished(InvalidArg, None)
    else if !Verified(p) then o == Finished(VerificationError, None)
    else exists k: nat :: Halted(p, Steps(p, ctx, Start(), k)) && o == OutcomeOf(p, Steps(p, ctx, Start(), k))
  }

  /** What holds of a thread at every moment. */
  ghost predicate ThreadInv(p: Program, t: Thread) {
    match t.phase
    case Enter => true
    case LoadFlag => p.registerCount >= 0
    case Verifying => p.registerCount >= 0
    case StoreFlag => p.registerCount >= 0 && Verified(p)
    case Executing(m) =>
      p.registerCount >= 0 && Verified(p) && exists k: nat :: m == Steps(p, t.ctx, Start(), k)
    case Done(o) => Expected(p, t.ctx, o)
  }

  ghost predicate Inv(p: Program, s: State) {
    (s.verified ==> Verified(p)) && forall i :: 0 <= i < |s.threads| ==> ThreadInv(p, s.threads[i])
  }

  lemma ExecutingNext(p: Program, ctx: Context, m: Machine)
    requires exists k: nat :: m == Steps(p, ctx, Start(), k)
    ensures exists k: nat :: Step(p, ctx, m) == Steps(p, ctx, Start(), k)
  {
    hide Step;
    var k: nat :| m == Steps(p, ctx, Start(), k);
    assert Step(p, ctx, m) == Steps(p, ctx, Start(), k + 1);
  }

  lemma StartReached(p: Program, ctx: Context)
    ensures exists k: nat :: Start() == Steps(p, ctx, Start(), k)
  {
    assert Start() == Steps(p, ctx, Start(), 0);
  }

  lemma ThreadStep(p: Program, verified: bool, t: Thread)
    requires (verified ==> Verified(p)) && ThreadInv(p, t)
    ensures ThreadInv(p, t.(phase := NextPhase(p, verified, t)))
  {
    hide Verified, Step, Steps, Start;
    match t.phase
    case LoadFlag => StartReached(p, t.ctx);
    case StoreFlag => StartReached(p, t.ctx);
    case Executing(m) => ExecutingNext(p, t.ctx, m);
    case _ =>
  }

  lemma InvStep(p: Program, s: State, i: nat)
    requires Inv(p, s) && i < |s.threads|
    ensures Inv(p, StepOf(p, s, i))
  {
    hide ThreadInv, NextPhase, Verified;
    ThreadStep(p, s.verified, s.threads[i]);
    if s.threads[i].phase.StoreFlag? {
      StoringIsVerified(p, s.threads[i]);
    }
  }

  lemma StoringIsVerified(p: Program, t: Thread)
    requires ThreadInv(p, t) && t.phase.StoreFlag?
    ensures Verified(p)
  {
  }

  /** The invariant holds in every state of every interleaving. */
  lemma {:induction false} InvAlways(p: Program, s: State, schedule: seq<nat>)
    requires Initial(p, s) && forall k :: 0 <= k < |schedule| ==> schedule[k] < |s.threads|
    ensures Inv(p, Scheduled(p, s, schedule))
  {
    hide Inv, StepOf, Verified;
    if schedule == [] {
      InitialInv(p, s);
    } else {
      var last := |schedule| - 1;
      InvAlways(p, s, schedule[..last]);
      InvStep(p, Scheduled(p, s, schedule[..last]), schedule[last]);
    }
  }

  lemma InitialInv(p: Program, s: State)
    requires Initial(p, s)
    ensures Inv(p, s)
  {
    hide Verified;
  }

  /** In every state of every interleaving the flag is set only on an accepted program, and every
      thread that has finished has the outcome of an execution that always verifies. */
  lemma InterleavingsAgree(p: Program, s: State, schedule: seq<nat>)
    requires Initial(p, s) && forall k :: 0 <= k < |schedule| ==> schedule[k] < |s.threads|
    ensures var r := Scheduled(p, s, schedule);
      && (r.verified ==> Verified(p))
      && forall i :: 0 <= i < |r.threads| && r.threads[i].phase.Done? ==>
           Expected(p, s.threads[i].ctx, r.threads[i].phase.outcome)
  {
    hide Verified, Scheduled, Expected, Initial;
    InvAlways(p, s, schedule);
    var r := Scheduled(p, s, schedule);
    assert forall i :: 0 <= i < |r.threads| ==> ThreadInv(p, r.threads[i]);
  }

  /** In no interleaving does a thread's machine fail a run-time check. */
  lemma InterleavingsNeverFault(p: Program, s: State, schedule: seq<nat>, i: nat)
    requires Initial(p, s) && forall k :: 0 <= k < |schedule| ==> schedule[k] < |s.threads|
    requires i < |s.threads|
    ensures var t := Scheduled(p, s, schedule).threads[i]; t.phase.Executing? ==> Safe(p, t.phase.m)
  {
    hide Verified, Steps, Start, Safe, Scheduled, Initial;
    InvAlways(p, s, schedule);
    var t := Scheduled(p, s, schedule).threads[i];
    assert ThreadInv(p, t);
    if t.phase.Executing? {
      var n: nat :| t.phase.m == Steps(p, t.ctx, Start(), n);
      VerifiedRunsSafely(p, t.ctx, n);
    }
  }

  // ----- compiled programs: every execution finishes, whatever the others do -----

  /** How often a schedule names a thread. */
  function Turns(schedule: seq<nat>, i: nat): nat {
    if schedule == [] then 0 else
      var last := |schedule| - 1;
      Turns(schedule[..last], i) + if schedule[last] == i then 1 else 0
  }

  /** A thread that has had `turns` turns and whose machine halts within `n` steps: it is that far
      on its way, or it has finished. */
  ghost predicate Progress(p: Program, t: Thread, n: nat, turns: nat) {
    match t.phase
    case Enter => turns <= 0
    case LoadFlag => turns <= 1
    case Verifying => turns <= 2
    case StoreFlag => turns <= 3
    case Executing(m) => exists k: nat :: k <= n && turns <= 4 + k && m == Steps(p, t.ctx, Start(), k)
    case Done(_) => true
  }

  lemma ExecutingProgress(p: Program, t: Thread, n: nat, turns: nat, verified: bool)
    requires t.phase.Executing? && Progress(p, t, n, turns) && Halted(p, Steps(p, t.ctx, Start(), n))
    ensures Progress(p, t.(phase := NextPhase(p, verified, t)), n, turns + 1)
  {
    hide Step, Start, Halted, Verified;
    var k: nat :| k <= n && turns <= 4 + k && t.phase.m == Steps(p, t.ctx, Start(), k);
    if !Halted(p, t.phase.m) {
      assert k < n;
      assert Step(p, t.ctx, t.phase.m) == Steps(p, t.ctx, Start(), k + 1);
    }
  }

  lemma ThreadProgress(p: Program, t: Thread, n: nat, turns: nat, verified: bool)
    requires Progress(p, t, n, turns) && Halted(p, Steps(p, t.ctx, Start(), n))
    ensures Progress(p, t.(phase := NextPhase(p, verified, t)), n, turns + 1)
  {
    if t.phase.Executing? {
      ExecutingProgress(p, t, n, turns, verified);
    } else {
      hide Verified, Step, Halted;
      assert Steps(p, t.ctx, Start(), 0) == Start();
    }
  }

  /** Each turn of a thread brings it one step further, whatever the other threads do. */
  lemma {:induction false} TurnsAreProgress(p: Program, s: State, schedule: seq<nat>, i: nat, n: nat)
    requires Initial(p, s) && forall k :: 0 <= k < |schedule| ==> schedule[k] < |s.threads|
    requires i < |s.threads| && Halted(p, Steps(p, s.threads[i].ctx, Start(), n))
    ensures Progress(p, Scheduled(p, s, schedule).threads[i], n, Turns(schedule, i))
  {
    hide Progress, NextPhase, Verified, Halted, Steps, Start;
    if schedule == [] {
      EnterProgress(p, s.threads[i], n);
    } else {
      var last := |schedule| - 1;
      TurnsAreProgress(p, s, schedule[..last], i, n);
      var before := Scheduled(p, s, schedule[..last]);
      if schedule[last] == i {
        ThreadProgress(p, before.threads[i], n, Turns(schedule[..last], i), before.verified);
      }
    }
  }

  lemma EnterProgress(p: Program, t: Thread, n: nat)
    requires t.phase == Enter
    ensures Progress(p, t, n, 0)
  {
  }

  /** Halted runs of one program in one context end alike, however long they are. */
  lemma HaltedAlike(p: Program, ctx: Context, j: nat, k: nat)
    requires Halted(p, Steps(p, ctx, Start(), j)) && Halted(p, Steps(p, ctx, Start(), k))
    ensures Steps(p, ctx, Start(), j) == Steps(p, ctx, Start(), k)
  {
    hide Step, Start;
    HaltedStays(p, ctx, Start(), if j <= k then j else k, if j <= k then k else j);
  }

  /** In every interleaving of executions of a compiled program, each in its own context, an
      execution that has had five turns more than the program has slots has finished, and a
      finished one has succeeded with the truth of the expression in its context. */
  lemma InterleavedCompiledExecutions(q: Qualifiers, root: Expr, s: State, schedule: seq<nat>, i: nat)
    requires WellFormed(q) && GenProgram(q, root).Ok? && Initial(GenProgram(q, root).value, s)
    requires i < |s.threads| && forall k :: 0 <= k < |schedule| ==> schedule[k] < |s.threads|
    ensures var p := GenProgram(q, root).value;
      var phase := Scheduled(p, s, schedule).threads[i].phase;
      && (Turns(schedule, i) >= |p.code| + 5 ==> phase.Done?)
      && (phase.Done? ==> phase.outcome == Finished(Success, Some(EvalBool(q, root, s.threads[i].ctx).value != 0)))
  {
    hide GenProgram, Verified, Steps, Start, EvalBool, Scheduled, Initial, WellFormed, IsStart, Inv;
    var p, ctx := GenProgram(q, root).value, s.threads[i].ctx;
    CompilesExactlyWhen(q, root);
    CompiledIsVerified(q, root);
    CompiledComputes(q, root, ctx);
    TurnsAreProgress(p, s, schedule, i, |p.code|);
    InterleavingsAgree(p, s, schedule);
    var phase := Scheduled(p, s, schedule).threads[i].phase;
    if phase.Done? {
      var n: nat :| Halted(p, Steps(p, ctx, Start(), n)) && phase.outcome == OutcomeOf(p, Steps(p, ctx, Start(), n));
      HaltedAlike(p, ctx, n, |p.code|);
    }
  }
}
