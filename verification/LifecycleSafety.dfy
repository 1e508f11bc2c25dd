/** What holds over every run of the service, however its goroutines interleave. */
module LifecycleSafety {
  import opened ServiceLifecycle
  import opened Wrappers

  /** A generation that is over: closed once, result fixed, nothing of it runs except perhaps its watcher. */
  predicate Finished(gen: Generation) {
    gen.done && gen.closes == 1 && gen.cancelled && (gen.runner.NotRunning? || gen.runner.Ended?)
  }

  predicate HasClosed(runner: Runner) {
    runner.Closed? || runner.Stopping? || runner.Stopped?
  }

  predicate Unfinished(gen: Generation) {
    !gen.done && gen.closes <= 1 && !gen.runner.Ended? && (HasClosed(gen.runner) ==> gen.closes == 1)
  }

  predicate InStart(op: Op) {
    op.Starting? || op.StartReturned? || op.StartFailing? || op.StartFailed?
  }

  /** The current generation, if any, is the last one started; all others are finished. */
  ghost predicate GensOk(s: State) {
    && (forall g :: 0 <= g < |s.gens| && s.endpointRun != Some(g) ==> Finished(s.gens[g]))
    && (s.endpointRun.Some? ==>
          s.endpointRun.value + 1 == |s.gens| && s.lastRun == s.endpointRun && Unfinished(s.gens[s.endpointRun.value]))
    && InRange(s, s.lastRun)
  }

  predicate OpOk(s: State)
    requires InRange(s, s.endpointRun)
  {
    && (InStart(s.op) ==> s.endpointRun == Some(s.op.g))
    && (s.endpointRun.Some? ==> (s.gens[s.endpointRun.value].runner.NotRunning? <==> InStart(s.op)))
    && (s.op.StartFailed? ==> s.gens[s.op.g].closes == 1)
    && (s.op.StopMarked? || s.op.StopMuted? || s.op.StopClosed? ==>
          && (s.endpointRun.None? || s.endpointRun == s.op.run) && InRange(s, s.op.run)
          && (s.op.run.Some? ==> s.gens[s.op.run.value].cancelled))
    && (s.op.StopWaited? || s.op.StopAwaiting? || s.op.Installing? ==> s.endpointRun.None?)
  }

  /** The processor works for the current generation, and its runner knows of it until it is gone. */
  predicate ProcessorOk(s: State)
    requires InRange(s, s.endpointRun)
  {
    && (s.processor.Processor? ==>
          && s.endpointRun == Some(s.processor.g)
          && var runner := s.gens[s.processor.g].runner;
             !runner.NotRunning? && !runner.Stopped?
             && (if runner.Stopping? then runner.waits && !s.processor.registered else s.processor.registered))
    && (s.endpointRun.Some? ==>
          var gen := s.gens[s.endpointRun.value];
          !gen.cancelled && !gen.runner.NotRunning? && !gen.runner.Stopping? && !gen.runner.Stopped?
          ==> s.processor == Processor(s.endpointRun.value, true, false))
    && (s.processor.Processor? ==> (s.processor.cancelled <==> !s.processor.registered))
  }

  /** Only the current generation's output may be active, and only until its runner has muted it. */
  predicate ActiveOk(s: State)
    requires InRange(s, s.endpointRun)
  {
    forall output :: output in s.active ==>
      s.endpointRun.Some? && var gen := s.gens[s.endpointRun.value];
      output == gen.output && (gen.runner.Live? || gen.runner.Returned? || gen.runner.Marked?)
  }

  /**
    Nothing offered is unaccounted for, messages leave in the order they were
    accepted, and the wait group counts exactly what is queued or in flight.
   */
  predicate FlowOk(flow: Flow, processor: Processor) {
    && flow.accepted == flow.gone + (if flow.inFlight.Some? then [flow.inFlight.value] else []) + flow.queued
    && |flow.gone| == flow.processed + flow.stale + flow.discarded
    && flow.waitGroup == |flow.queued| + (if flow.inFlight.Some? then 1 else 0)
    && flow.offered == |flow.accepted| + flow.rejected + flow.direct
    && (processor.NoProcessor? ==> flow.queued == [] && flow.inFlight.None?)
  }

  predicate DrainedClean(runner: Runner) {
    (runner.Drained? || HasClosed(runner) || runner.Ended?) && runner.clean
  }

  /** A generation that drained before it was cancelled has lost nothing, and neither has one still uncancelled. */
  ghost predicate CleanOk(s: State)
    requires InRange(s, s.endpointRun)
  {
    && (forall g :: 0 <= g < |s.gens| && DrainedClean(s.gens[g].runner) ==> s.gens[g].lost == 0)
    && (s.endpointRun.Some? ==>
          var gen := s.gens[s.endpointRun.value];
          && (DrainedClean(gen.runner) ==> s.flow.queued == [] && s.flow.inFlight.None?)
          && (!gen.cancelled && !gen.runner.Stopping? && !gen.runner.Stopped? ==> gen.lost == 0))
  }

  ghost predicate Inv(s: State) {
    GensOk(s) && OpOk(s) && ProcessorOk(s) && ActiveOk(s) && FlowOk(s.flow, s.processor) && CleanOk(s)
  }

  lemma BeginningKeepsInv(s: State, step: Step)
    requires Inv(s) && StartEnabled(s, step) && (step.BeginStart? || step.CreateGeneration? || step.EndpointStarts?)
    ensures Inv(ApplyStart(s, step))
  {
  }

  lemma GoingLiveKeepsInv(s: State, step: Step)
    requires Inv(s) && StartEnabled(s, step) && !step.BeginStart? && !step.CreateGeneration? && !step.EndpointStarts?
    ensures Inv(ApplyStart(s, step))
  {
  }

  predicate ChangesTarget(step: Step) {
    step.MarkCurrent? || step.CloseCurrent?
  }

  lemma TargetingKeepsInv(s: State, step: Step)
    requires Inv(s) && StopEnabled(s, step) && ChangesTarget(step)
    ensures Inv(ApplyStop(s, step))
  {
  }

  lemma WaitingKeepsInv(s: State, step: Step)
    requires Inv(s) && StopEnabled(s, step) && !ChangesTarget(step)
    ensures Inv(ApplyStop(s, step))
  {
  }

  lemma CancelKeepsInv(s: State, step: Step)
    requires Inv(s) && CancelEnabled(s, step)
    ensures Inv(ApplyCancel(s, step))
  {
  }

  predicate StillOpen(step: Step) {
    step.RunReturns? || step.RunnerMarks? || step.RunnerMutes? || step.RunnerDrains?
  }

  lemma OpenRunnerKeepsInv(s: State, step: Step)
    requires Inv(s) && RunnerEnabled(s, step) && StillOpen(step)
    ensures Inv(ApplyRunner(s, step))
  {
  }

  lemma ClosingRunnerKeepsInv(s: State, step: Step)
    requires Inv(s) && RunnerEnabled(s, step) && (step.RunnerCloses? || step.RunnerStopsProcessor?)
    ensures Inv(ApplyRunner(s, step))
  {
  }

  lemma FinishingRunnerKeepsInv(s: State, step: Step)
    requires Inv(s) && RunnerEnabled(s, step) && (step.RunnerAwaitsProcessor? || step.RunnerFinishes?)
    ensures Inv(ApplyRunner(s, step))
  {
  }

  lemma WatcherKeepsInv(s: State, step: Step)
    requires Inv(s) && WatcherEnabled(s, step)
    ensures Inv(ApplyWatcher(s, step))
  {
  }

  lemma FlowKeepsInv(s: State, step: Step)
    requires Inv(s) && FlowEnabled(s, step) && !step.ProcessorExits?
    ensures Inv(ApplyFlow(s, step))
  {
  }

  lemma ExitKeepsInv(s: State, step: Step)
    requires Inv(s) && FlowEnabled(s, step) && step.ProcessorExits?
    ensures Inv(ApplyFlow(s, step))
  {
  }

  /** Every step of every party keeps the invariant. */
  lemma StepKeepsInv(s: State, step: Step)
    requires Inv(s) && Enabled(s, step)
    ensures Inv(Apply(s, step))
  {
    if StartEnabled(s, step) {
      if step.BeginStart? || step.CreateGeneration? || step.EndpointStarts? {
        BeginningKeepsInv(s, step);
      } else {
        GoingLiveKeepsInv(s, step);
      }
    } else if StopEnabled(s, step) {
      if ChangesTarget(step) { TargetingKeepsInv(s, step); } else { WaitingKeepsInv(s, step); }
    } else if CancelEnabled(s, step) {
      CancelKeepsInv(s, step);
    } else if RunnerEnabled(s, step) {
      if StillOpen(step) {
        OpenRunnerKeepsInv(s, step);
      } else if step.RunnerCloses? || step.RunnerStopsProcessor? {
        ClosingRunnerKeepsInv(s, step);
      } else {
        FinishingRunnerKeepsInv(s, step);
      }
    } else if WatcherEnabled(s, step) {
      WatcherKeepsInv(s, step);
    } else {
      if step.ProcessorExits? { ExitKeepsInv(s, step); } else { FlowKeepsInv(s, step); }
    }
  }

  /** What only Start, Stop and UpdateEndpoint change. */
  predicate LeavesAlone(s: State, after: State) {
    && |s.gens| == |after.gens| && s.installed == after.installed && s.lastRun == after.lastRun && s.op == after.op
    && after.active <= s.active && (after.endpointRun == s.endpointRun || after.endpointRun.None?)
    && forall g :: 0 <= g < |s.gens| ==> after.gens[g].output == s.gens[g].output
  }

  lemma CancelLeavesAlone(s: State, step: Step)
    requires CancelEnabled(s, step)
    ensures LeavesAlone(s, ApplyCancel(s, step))
  {
  }

  lemma RunnerLeavesAlone(s: State, step: Step)
    requires RunnerEnabled(s, step)
    ensures LeavesAlone(s, ApplyRunner(s, step))
  {
  }

  lemma WatcherLeavesAlone(s: State, step: Step)
    requires WatcherEnabled(s, step)
    ensures LeavesAlone(s, ApplyWatcher(s, step))
  {
  }

  lemma FlowLeavesAlone(s: State, step: Step)
    requires FlowEnabled(s, step)
    ensures LeavesAlone(s, ApplyFlow(s, step))
  {
  }

  lemma OthersLeaveAlone(s: State, step: Step)
    requires Enabled(s, step) && !StartEnabled(s, step) && !StopEnabled(s, step)
    ensures LeavesAlone(s, Apply(s, step))
  {
    if CancelEnabled(s, step) {
      CancelLeavesAlone(s, step);
    } else if RunnerEnabled(s, step) {
      RunnerLeavesAlone(s, step);
    } else if WatcherEnabled(s, step) {
      WatcherLeavesAlone(s, step);
    } else {
      FlowLeavesAlone(s, step);
    }
  }

  lemma {:induction false} RunKeepsInv(s: State, steps: seq<Step>)
    requires Inv(s) && IsRun(s, steps)
    ensures Inv(After(s, steps))
    decreases |steps|
  {
    if steps != [] {
      StepKeepsInv(s, steps[0]);
      RunKeepsInv(Apply(s, steps[0]), steps[1..]);
    }
  }

  /** A run reaches s from a new service. */
  ghost predicate Reachable(s: State) {
    exists steps :: IsRun(Initial(), steps) && After(Initial(), steps) == s
  }

  lemma ReachableIsInv(s: State)
    requires Reachable(s)
    ensures Inv(s)
  {
    var steps :| IsRun(Initial(), steps) && After(Initial(), steps) == s;
    RunKeepsInv(Initial(), steps);
  }

  /** At no time do two generations run their endpoints. */
  lemma AtMostOneRunIsLive(s: State, g: nat, h: nat)
    requires Reachable(s) && g < |s.gens| && h < |s.gens| && s.gens[g].runner.Live? && s.gens[h].runner.Live?
    ensures g == h && s.endpointRun == Some(g)
  {
    ReachableIsInv(s);
  }

  /** A generation's endpoint is never closed twice, and is closed before done. */
  lemma ClosedOnceBeforeDone(s: State, g: nat)
    requires Reachable(s) && g < |s.gens|
    ensures s.gens[g].closes <= 1 && (s.gens[g].done ==> s.gens[g].closes == 1 && !s.gens[g].runner.Live?)
  {
    ReachableIsInv(s);
  }

  /** A finished generation stays as it ended. */
  predicate StaysEnded(s: State, after: State, g: nat)
    requires g < |s.gens|
  {
    && g < |after.gens| && after.gens[g].done && after.gens[g].result == s.gens[g].result
    && after.gens[g].closes == 1 && after.gens[g].runner == s.gens[g].runner
  }

  lemma StartLeavesTheEnded(s: State, step: Step, g: nat)
    requires Inv(s) && StartEnabled(s, step) && g < |s.gens| && s.gens[g].done
    ensures StaysEnded(s, ApplyStart(s, step), g)
  {
  }

  lemma StopLeavesTheEnded(s: State, step: Step, g: nat)
    requires Inv(s) && StopEnabled(s, step) && g < |s.gens| && s.gens[g].done
    ensures StaysEnded(s, ApplyStop(s, step), g)
  {
  }

  lemma CancelLeavesTheEnded(s: State, step: Step, g: nat)
    requires Inv(s) && CancelEnabled(s, step) && g < |s.gens| && s.gens[g].done
    ensures StaysEnded(s, ApplyCancel(s, step), g)
  {
  }

  lemma RunnerLeavesTheEnded(s: State, step: Step, g: nat)
    requires Inv(s) && RunnerEnabled(s, step) && g < |s.gens| && s.gens[g].done
    ensures StaysEnded(s, ApplyRunner(s, step), g)
  {
  }

  lemma WatcherLeavesTheEnded(s: State, step: Step, g: nat)
    requires Inv(s) && WatcherEnabled(s, step) && g < |s.gens| && s.gens[g].done
    ensures StaysEnded(s, ApplyWatcher(s, step), g)
  {
  }

  lemma FlowLeavesTheEnded(s: State, step: Step, g: nat)
    requires Inv(s) && FlowEnabled(s, step) && g < |s.gens| && s.gens[g].done
    ensures StaysEnded(s, ApplyFlow(s, step), g)
  {
  }

  lemma StepLeavesTheEnded(s: State, step: Step, g: nat)
    requires Inv(s) && Enabled(s, step) && g < |s.gens| && s.gens[g].done
    ensures StaysEnded(s, Apply(s, step), g)
  {
    if StartEnabled(s, step) {
      StartLeavesTheEnded(s, step, g);
    } else if StopEnabled(s, step) {
      StopLeavesTheEnded(s, step, g);
    } else if CancelEnabled(s, step) {
      CancelLeavesTheEnded(s, step, g);
    } else if RunnerEnabled(s, step) {
      RunnerLeavesTheEnded(s, step, g);
    } else if WatcherEnabled(s, step) {
      WatcherLeavesTheEnded(s, step, g);
    } else {
      FlowLeavesTheEnded(s, step, g);
    }
  }

  /** Once done, a generation's result is fixed: whoever waits for done reads the final result. */
  lemma ResultIsFixedAtDone(s: State, step: Step, g: nat)
    requires Reachable(s) && Enabled(s, step) && g < |s.gens| && s.gens[g].done
    ensures StaysEnded(s, Apply(s, step), g)
  {
    ReachableIsInv(s);
    StepLeavesTheEnded(s, step, g);
  }

  /** When Stop returns, and when UpdateEndpoint installs the next endpoint, nothing of any generation runs any more. */
  lemma StopReturnsToRest(s: State, step: Step)
    requires Reachable(s) && StopEnabled(s, step) && step.AwaitProcessor?
    ensures s.endpointRun == None && s.processor == NoProcessor && s.active == {}
    ensures s.flow.queued == [] && s.flow.inFlight == None
    ensures forall g :: 0 <= g < |s.gens| ==> s.gens[g].done && !s.gens[g].runner.Live?
  {
    ReachableIsInv(s);
  }

  /** A processor only ever works for the generation whose endpoint is current and not yet finished. */
  lemma ProcessorIsCurrent(s: State)
    requires Reachable(s) && s.processor.Processor?
    ensures s.endpointRun == Some(s.processor.g) && s.processor.g + 1 == |s.gens| && !s.gens[s.processor.g].done
  {
    ReachableIsInv(s);
  }

  /** Every message offered is accounted for, and accepted messages leave in order. */
  lemma MessagesAreConserved(s: State)
    requires Reachable(s)
    ensures var flow := s.flow;
            var inFlight := if flow.inFlight.Some? then 1 else 0;
            && |flow.accepted| == flow.processed + flow.stale + flow.discarded + |flow.queued| + inFlight
            && flow.waitGroup == |flow.queued| + inFlight
            && flow.offered == |flow.accepted| + flow.rejected + flow.direct
            && flow.gone <= flow.accepted
  {
    ReachableIsInv(s);
  }

  /** A generation whose Run returned by itself, and that drained before any cancellation, discarded no message. */
  lemma NaturalEndLosesNothing(s: State, g: nat)
    requires Reachable(s) && g < |s.gens| && s.gens[g].runner.Ended? && s.gens[g].runner.clean
    ensures s.gens[g].lost == 0
  {
    ReachableIsInv(s);
  }

  /** The next move of the current generation's runner, or of the processor it waits for. */
  function NextMove(s: State, g: nat): Step
    requires g < |s.gens| && !s.gens[g].runner.NotRunning? && !s.gens[g].runner.Ended?
  {
    match s.gens[g].runner
    case Live => RunReturns(g, false)
    case Returned(_) => RunnerMarks(g)
    case Marked(_) => RunnerMutes(g)
    case Muted(_) => RunnerDrains(g)
    case Drained(_, _) => RunnerCloses(g, false)
    case Closed(_, _) => RunnerStopsProcessor(g)
    case Stopping(_, _, waits) =>
      if !waits || s.processor.NoProcessor? then RunnerAwaitsProcessor(g)
      else if s.flow.inFlight.Some? then FinishMessage(false) else ProcessorExits
    case Stopped(_, _) => RunnerFinishes(g)
  }

  lemma NextMoveIsEnabled(s: State, g: nat)
    requires Inv(s) && s.op.StopClosed? && s.op.run == Some(g) && g < |s.gens| && !s.gens[g].done
    ensures !s.gens[g].runner.NotRunning? && !s.gens[g].runner.Ended? && Enabled(s, NextMove(s, g))
  {
  }

  /** While Stop waits for a generation, that generation's runner can move on, if need be after the processor has. */
  lemma StopIsNeverStuck(s: State)
    requires Reachable(s) && s.op.StopClosed? && s.op.run.Some?
    ensures s.op.run.value < |s.gens|
    ensures var g := s.op.run.value;
            StopEnabled(s, AwaitDone)
            || (!s.gens[g].runner.NotRunning? && !s.gens[g].runner.Ended? && Enabled(s, NextMove(s, g)))
  {
    ReachableIsInv(s);
    if !StopEnabled(s, AwaitDone) { NextMoveIsEnabled(s, s.op.run.value); }
  }

  predicate Ending(runner: Runner) {
    !runner.NotRunning? && !runner.Live? && !runner.Ended?
  }

  /** A move of the runner of g, or of the processor. */
  predicate MovesOn(s: State, step: Step, g: nat) {
    || (RunnerEnabled(s, step) && step.g == g)
    || (FlowEnabled(s, step) && (step.Take? || step.FinishMessage? || step.ProcessorExits?))
  }

  /** How the queue gets empty while a runner waits for that. */
  function DrainMove(s: State, g: nat): Step
    requires g < |s.gens|
  {
    if s.gens[g].cancelled || s.flow.waitGroup == 0 then RunnerDrains(g)
    else if s.flow.inFlight.Some? then FinishMessage(false) else Take
  }

  lemma DrainingGoesOn(s: State, g: nat)
    requires Inv(s) && g < |s.gens| && s.gens[g].runner.Muted?
    ensures MovesOn(s, DrainMove(s, g), g)
  {
  }

  lemma EndingGoesOn(s: State, g: nat)
    requires Inv(s) && g < |s.gens| && Ending(s.gens[g].runner) && !s.gens[g].runner.Muted?
    ensures MovesOn(s, NextMove(s, g), g)
  {
  }

  /** Once Run has returned, nothing but the runner's own moves and the processor's is needed for it to finish. */
  lemma EndingIsNeverStuck(s: State, g: nat)
    requires Reachable(s) && g < |s.gens| && Ending(s.gens[g].runner)
    ensures exists step :: MovesOn(s, step, g)
  {
    ReachableIsInv(s);
    if s.gens[g].runner.Muted? {
      DrainingGoesOn(s, g);
      assert MovesOn(s, DrainMove(s, g), g);
    } else {
      EndingGoesOn(s, g);
      assert MovesOn(s, NextMove(s, g), g);
    }
  }
}
