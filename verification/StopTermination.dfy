/**
  Stop and UpdateEndpoint wait for the generation they stop. How long that can
  take, counted in moves of its runner and of the message processor.
 */
module StopTermination {
  import opened LifecycleSafety
  import opened ServiceLifecycle
  import opened Wrappers

  /** How many moves a runner has left. */
  function Stage(runner: Runner): nat {
    match runner
    case NotRunning => 0
    case Live => 8
    case Returned(_) => 7
    case Marked(_) => 6
    case Muted(_) => 5
    case Drained(_, _) => 4
    case Closed(_, _) => 3
    case Stopping(_, _, _) => 2
    case Stopped(_, _) => 1
    case Ended(_, _) => 0
  }

  /** The moves left: those of the runner, two for each queued message, one in flight, and the processor's exit. */
  function Pending(s: State, g: nat): nat
    requires g < |s.gens|
  {
    Stage(s.gens[g].runner) + 2 * |s.flow.queued|
    + (if s.flow.inFlight.Some? then 1 else 0) + (if s.processor.Processor? then 1 else 0)
  }

  /** Stop waits for generation g, which is not done. */
  predicate Waits(s: State, g: nat) {
    s.op.StopClosed? && s.op.run == Some(g) && g < |s.gens| && !s.gens[g].done
  }

  predicate OutputCurrent(s: State)
    requires InRange(s, s.endpointRun)
  {
    s.endpointRun.Some? ==> s.gens[s.endpointRun.value].output == s.installed
  }

  /** Once Stop has muted the current output, no message comes in until it returns. */
  predicate Hushed(s: State) {
    s.op.StopMuted? || s.op.StopClosed? ==> s.active == {}
  }

  ghost predicate Calm(s: State) {
    Inv(s) && OutputCurrent(s) && Hushed(s)
  }

  lemma CallKeepsCurrent(s: State, step: Step)
    requires Inv(s) && OutputCurrent(s) && (StartEnabled(s, step) || StopEnabled(s, step))
    ensures var after := Apply(s, step);
            InRange(after, after.endpointRun) && OutputCurrent(after)
  {
  }

  lemma CallKeepsHushed(s: State, step: Step)
    requires Inv(s) && OutputCurrent(s) && Hushed(s) && (StartEnabled(s, step) || StopEnabled(s, step))
    ensures Hushed(Apply(s, step))
  {
  }

  lemma StepKeepsCalm(s: State, step: Step)
    requires Calm(s) && Enabled(s, step)
    ensures Calm(Apply(s, step))
  {
    StepKeepsInv(s, step);
    if StartEnabled(s, step) || StopEnabled(s, step) {
      CallKeepsCurrent(s, step);
      CallKeepsHushed(s, step);
    } else {
      OthersLeaveAlone(s, step);
    }
  }

  /** A move of the runner of g, or of the processor. */
  predicate IsMove(s: State, step: Step) {
    RunnerEnabled(s, step) || step.Take? || step.FinishMessage? || step.ProcessorExits?
  }

  /** So many moves closer to the end of the wait, which goes on as long as g is not done. */
  predicate Closer(s: State, after: State, g: nat, moves: nat)
    requires g < |s.gens|
  {
    && g < |after.gens| && (after.gens[g].done || Waits(after, g))
    && Pending(after, g) + moves <= Pending(s, g)
  }

  lemma RunnerLowersPending(s: State, step: Step, g: nat)
    requires Calm(s) && Waits(s, g) && RunnerEnabled(s, step)
    ensures Closer(s, ApplyRunner(s, step), g, 1)
  {
  }

  lemma ProcessorLowersPending(s: State, step: Step, g: nat)
    requires Calm(s) && Waits(s, g) && FlowEnabled(s, step)
    ensures IsMove(s, step) && Closer(s, ApplyFlow(s, step), g, 1)
  {
  }

  /** Nothing else adds a move while Stop waits. */
  lemma OthersKeepPending(s: State, step: Step, g: nat)
    requires Calm(s) && Waits(s, g)
    requires StartEnabled(s, step) || StopEnabled(s, step) || CancelEnabled(s, step) || WatcherEnabled(s, step)
    ensures !IsMove(s, step) && Closer(s, Apply(s, step), g, 0)
  {
  }

  lemma StepLowersPending(s: State, step: Step, g: nat)
    requires Calm(s) && Waits(s, g) && Enabled(s, step)
    ensures Closer(s, Apply(s, step), g, if IsMove(s, step) then 1 else 0)
  {
    if RunnerEnabled(s, step) {
      RunnerLowersPending(s, step, g);
    } else if FlowEnabled(s, step) {
      ProcessorLowersPending(s, step, g);
    } else {
      OthersKeepPending(s, step, g);
    }
  }

  /** How many of these steps are moves. */
  function Moves(s: State, steps: seq<Step>): nat
    requires IsRun(s, steps)
    decreases |steps|
  {
    if steps == [] then 0 else (if IsMove(s, steps[0]) then 1 else 0) + Moves(Apply(s, steps[0]), steps[1..])
  }

  lemma {:induction false} DoneStays(s: State, steps: seq<Step>, g: nat)
    requires Inv(s) && IsRun(s, steps) && g < |s.gens| && s.gens[g].done
    ensures g < |After(s, steps).gens| && After(s, steps).gens[g].done
    decreases |steps|
  {
    if steps != [] {
      StepLeavesTheEnded(s, steps[0], g);
      StepKeepsInv(s, steps[0]);
      DoneStays(Apply(s, steps[0]), steps[1..], g);
    }
  }

  lemma {:induction false} MovesAreBounded(s: State, steps: seq<Step>, g: nat)
    requires Calm(s) && Waits(s, g) && IsRun(s, steps)
    requires g < |After(s, steps).gens| && !After(s, steps).gens[g].done
    ensures Waits(After(s, steps), g) && Moves(s, steps) + Pending(After(s, steps), g) <= Pending(s, g)
    decreases |steps|
  {
    if steps != [] {
      StepKeepsCalm(s, steps[0]);
      StepLowersPending(s, steps[0], g);
      if Apply(s, steps[0]).gens[g].done { DoneStays(Apply(s, steps[0]), steps[1..], g); }
      MovesAreBounded(Apply(s, steps[0]), steps[1..], g);
    }
  }

  lemma {:induction false} RunKeepsCalm(s: State, steps: seq<Step>)
    requires Calm(s) && IsRun(s, steps)
    ensures Calm(After(s, steps))
    decreases |steps|
  {
    if steps != [] {
      StepKeepsCalm(s, steps[0]);
      RunKeepsCalm(Apply(s, steps[0]), steps[1..]);
    }
  }

  lemma ReachableIsCalm(s: State)
    requires Reachable(s)
    ensures Calm(s)
  {
    var steps :| IsRun(Initial(), steps) && After(Initial(), steps) == s;
    RunKeepsCalm(Initial(), steps);
  }

  /**
    However the service is scheduled, while Stop keeps waiting for a generation
    there are at most as many moves of its runner and of the processor as were
    pending when the wait began.
   */
  lemma StopWaitIsBounded(s: State, steps: seq<Step>, g: nat)
    requires Reachable(s) && Waits(s, g) && IsRun(s, steps)
    requires g < |After(s, steps).gens| && !After(s, steps).gens[g].done
    ensures Moves(s, steps) + Pending(After(s, steps), g) <= Pending(s, g)
  {
    ReachableIsCalm(s);
    MovesAreBounded(s, steps, g);
  }

  lemma NextMoveIsMove(s: State, g: nat)
    requires Calm(s) && Waits(s, g) && !s.gens[g].runner.NotRunning? && !s.gens[g].runner.Ended?
    requires Enabled(s, NextMove(s, g))
    ensures var after := Apply(s, NextMove(s, g));
            && IsMove(s, NextMove(s, g)) && (NextMove(s, g).RunReturns? <==> s.gens[g].runner.Live?)
            && g < |after.gens| && !after.gens[g].runner.Live?
  {
  }

  /** Moves alone end the wait within that bound; the endpoint only has to return from Run if it has not yet. */
  lemma {:induction false} MovesEndTheWait(s: State, g: nat) returns (steps: seq<Step>)
    requires Calm(s) && Waits(s, g)
    ensures IsRun(s, steps) && |steps| <= Pending(s, g)
    ensures g < |After(s, steps).gens| && After(s, steps).gens[g].done
    ensures !s.gens[g].runner.Live? ==> forall i :: 0 <= i < |steps| ==> !steps[i].RunReturns?
    decreases Pending(s, g)
  {
    NextMoveIsEnabled(s, g);
    var step := NextMove(s, g);
    var after := Apply(s, step);
    StepLowersPending(s, step, g);
    StepKeepsCalm(s, step);
    var rest := [];
    NextMoveIsMove(s, g);
    if !after.gens[g].done {
      rest := MovesEndTheWait(after, g);
    }
    steps := [step] + rest;
    assert steps[1..] == rest;
    forall i | 0 <= i < |steps| && !s.gens[g].runner.Live? ensures !steps[i].RunReturns? {
      if i > 0 { assert steps[i] == rest[i - 1]; }
    }
  }

  /** In every reachable state in which Stop waits, the wait can end, within its bound and without further calls. */
  lemma StopWaitEnds(s: State, g: nat)
    requires Reachable(s) && Waits(s, g)
    ensures exists steps: seq<Step> ::
              && IsRun(s, steps) && |steps| <= Pending(s, g)
              && g < |After(s, steps).gens| && After(s, steps).gens[g].done
              && (!s.gens[g].runner.Live? ==> forall i :: 0 <= i < |steps| ==> !steps[i].RunReturns?)
  {
    ReachableIsCalm(s);
    var steps := MovesEndTheWait(s, g);
  }
}
