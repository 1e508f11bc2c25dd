/**
  Whether a live generation hears its endpoint. The output belongs to the
  installed endpoint, not to the generation: a restart of the same endpoint
  shares it with a generation whose goroutines may not all be over.
 */
module Restarts {
  import opened LifecycleSafety
  import opened ServiceLifecycle
  import opened Wrappers

  /** A start of an endpoint that has not been started since it was installed. */
  predicate FreshStep(s: State, step: Step) {
    step.CreateGeneration? ==> s.endpointRun.Some? || s.lastRun.None?
  }

  predicate IsFreshRun(s: State, steps: seq<Step>)
    requires IsRun(s, steps)
    decreases |steps|
  {
    steps == [] || (FreshStep(s, steps[0]) && IsFreshRun(Apply(s, steps[0]), steps[1..]))
  }

  /** No two generations share an output, and only the last run has the installed one. */
  ghost predicate OutputsOk(s: State) {
    && (forall g, h :: 0 <= g < h < |s.gens| ==> s.gens[g].output != s.gens[h].output)
    && (forall g :: 0 <= g < |s.gens| ==> s.gens[g].output <= s.installed)
    && (forall g :: 0 <= g < |s.gens| && s.lastRun != Some(g) ==> s.gens[g].output < s.installed)
  }

  /** Whoever is about to mute the output of a generation has marked it as stopping first. */
  ghost predicate MutersOk(s: State) {
    && (forall g :: g in s.mutes ==> g < |s.gens| && s.gens[g].stopping)
    && (forall g :: 0 <= g < |s.gens| && (s.gens[g].watcher.WatcherMarked? || s.gens[g].runner.Marked?) ==>
          s.gens[g].stopping)
    && (s.op.StopMarked? ==> forall g :: 0 <= g < |s.gens| && s.lastRun == Some(g) ==> s.gens[g].stopping)
  }

  predicate Tracked(s: State) {
    s.endpointRun.Some? ==> s.lastRun == s.endpointRun
  }

  /** A generation hears its endpoint while it runs and nobody has asked it to stop. */
  ghost predicate HearOk(s: State) {
    forall g :: 0 <= g < |s.gens| && s.gens[g].runner.Live? && !s.gens[g].stopping ==> s.gens[g].output in s.active
  }

  lemma StartKeepsOutputs(s: State, step: Step)
    requires StartEnabled(s, step) && FreshStep(s, step) && Tracked(s) && OutputsOk(s)
    ensures OutputsOk(ApplyStart(s, step))
  {
  }

  lemma StopKeepsOutputs(s: State, step: Step)
    requires StopEnabled(s, step) && Tracked(s) && OutputsOk(s)
    ensures OutputsOk(ApplyStop(s, step))
  {
  }

  lemma StartKeepsMuters(s: State, step: Step)
    requires StartEnabled(s, step) && Tracked(s) && MutersOk(s)
    ensures MutersOk(ApplyStart(s, step))
  {
  }

  lemma StopKeepsMuters(s: State, step: Step)
    requires StopEnabled(s, step) && Tracked(s) && MutersOk(s)
    ensures MutersOk(ApplyStop(s, step))
  {
  }

  lemma CancelKeepsMuters(s: State, step: Step)
    requires CancelEnabled(s, step) && Tracked(s) && MutersOk(s)
    ensures MutersOk(ApplyCancel(s, step))
  {
  }

  lemma OpenRunnerKeepsMuters(s: State, step: Step)
    requires RunnerEnabled(s, step) && StillOpen(step) && Tracked(s) && MutersOk(s)
    ensures MutersOk(ApplyRunner(s, step))
  {
  }

  /** One generation changes, and is not about to mute unless it was. */
  lemma SetGenKeepsMuters(s: State, g: nat, gen: Generation)
    requires g < |s.gens| && MutersOk(s) && (s.gens[g].stopping ==> gen.stopping)
    requires gen.watcher.WatcherMarked? || gen.runner.Marked? ==> gen.stopping
    ensures MutersOk(SetGen(s, g, gen))
  {
  }

  lemma ClosingRunnerKeepsMuters(s: State, step: Step)
    requires RunnerEnabled(s, step) && !StillOpen(step) && Tracked(s) && MutersOk(s)
    ensures MutersOk(ApplyRunner(s, step))
  {
    SetGenKeepsMuters(s, step.g, ApplyRunner(s, step).gens[step.g]);
  }

  lemma RunnerKeepsMuters(s: State, step: Step)
    requires RunnerEnabled(s, step) && Tracked(s) && MutersOk(s)
    ensures MutersOk(ApplyRunner(s, step))
  {
    if StillOpen(step) { OpenRunnerKeepsMuters(s, step); } else { ClosingRunnerKeepsMuters(s, step); }
  }

  lemma WatcherKeepsMuters(s: State, step: Step)
    requires WatcherEnabled(s, step) && Tracked(s) && MutersOk(s)
    ensures MutersOk(ApplyWatcher(s, step))
  {
  }

  lemma FlowKeepsMuters(s: State, step: Step)
    requires FlowEnabled(s, step) && Tracked(s) && MutersOk(s)
    ensures MutersOk(ApplyFlow(s, step))
  {
  }

  predicate IsCall(s: State, step: Step) {
    StartEnabled(s, step) || StopEnabled(s, step) || CancelEnabled(s, step)
  }

  lemma StartKeepsHearing(s: State, step: Step)
    requires StartEnabled(s, step) && OutputsOk(s) && MutersOk(s) && HearOk(s)
    ensures HearOk(ApplyStart(s, step))
  {
  }

  lemma StopKeepsHearing(s: State, step: Step)
    requires StopEnabled(s, step) && OutputsOk(s) && MutersOk(s) && HearOk(s)
    ensures HearOk(ApplyStop(s, step))
  {
  }

  lemma CancelKeepsHearing(s: State, step: Step)
    requires CancelEnabled(s, step) && OutputsOk(s) && MutersOk(s) && HearOk(s)
    ensures HearOk(ApplyCancel(s, step))
  {
  }

  lemma GoroutinesKeepHearing(s: State, step: Step)
    requires Enabled(s, step) && !IsCall(s, step) && OutputsOk(s) && MutersOk(s) && HearOk(s)
    ensures HearOk(Apply(s, step))
  {
  }

  lemma StepKeepsHearing(s: State, step: Step)
    requires Enabled(s, step) && OutputsOk(s) && MutersOk(s) && HearOk(s)
    ensures HearOk(Apply(s, step))
  {
    if StartEnabled(s, step) {
      StartKeepsHearing(s, step);
    } else if StopEnabled(s, step) {
      StopKeepsHearing(s, step);
    } else if CancelEnabled(s, step) {
      CancelKeepsHearing(s, step);
    } else {
      GoroutinesKeepHearing(s, step);
    }
  }

  lemma StepKeepsOutputs(s: State, step: Step)
    requires Enabled(s, step) && FreshStep(s, step) && Tracked(s) && OutputsOk(s)
    ensures OutputsOk(Apply(s, step))
  {
    if StartEnabled(s, step) {
      StartKeepsOutputs(s, step);
    } else if StopEnabled(s, step) {
      StopKeepsOutputs(s, step);
    } else {
      OthersLeaveAlone(s, step);
    }
  }

  lemma StepKeepsMuters(s: State, step: Step)
    requires Enabled(s, step) && Tracked(s) && MutersOk(s)
    ensures MutersOk(Apply(s, step))
  {
    if StartEnabled(s, step) {
      StartKeepsMuters(s, step);
    } else if StopEnabled(s, step) {
      StopKeepsMuters(s, step);
    } else if CancelEnabled(s, step) {
      CancelKeepsMuters(s, step);
    } else if RunnerEnabled(s, step) {
      RunnerKeepsMuters(s, step);
    } else if WatcherEnabled(s, step) {
      WatcherKeepsMuters(s, step);
    } else {
      FlowKeepsMuters(s, step);
    }
  }

  lemma {:induction false} FreshRunKeepsHearing(s: State, steps: seq<Step>)
    requires Inv(s) && OutputsOk(s) && MutersOk(s) && HearOk(s) && IsRun(s, steps) && IsFreshRun(s, steps)
    ensures HearOk(After(s, steps))
    decreases |steps|
  {
    if steps != [] {
      StepKeepsInv(s, steps[0]);
      StepKeepsOutputs(s, steps[0]);
      StepKeepsMuters(s, steps[0]);
      StepKeepsHearing(s, steps[0]);
      FreshRunKeepsHearing(Apply(s, steps[0]), steps[1..]);
    }
  }

  /**
    As long as every endpoint is started at most once between two installations,
    a live generation that nobody has asked to stop hears its endpoint, and
    through the processor unless its context was cancelled.
   */
  lemma LiveGenerationsHear(start: State, steps: seq<Step>, g: nat)
    requires start == Initial() && IsRun(start, steps) && IsFreshRun(start, steps)
    requires var s := After(start, steps); g < |s.gens| && s.gens[g].runner.Live? && !s.gens[g].stopping
    ensures var s := After(start, steps);
            s.gens[g].output in s.active && (!s.gens[g].cancelled ==> s.processor == Processor(g, true, false))
  {
    NobodyHears(start);
    HearingFrom(start, steps, g);
  }

  /** Without generations there is nobody to hear or to mute. */
  lemma NobodyHears(s: State)
    requires s.gens == [] && s.mutes == multiset{} && s.op.NoOp?
    ensures OutputsOk(s) && MutersOk(s) && HearOk(s)
  {
  }

  lemma HearingFrom(start: State, steps: seq<Step>, g: nat)
    requires Inv(start) && OutputsOk(start) && MutersOk(start) && HearOk(start)
    requires IsRun(start, steps) && IsFreshRun(start, steps)
    requires var s := After(start, steps); g < |s.gens| && s.gens[g].runner.Live? && !s.gens[g].stopping
    ensures var s := After(start, steps);
            s.gens[g].output in s.active && (!s.gens[g].cancelled ==> s.processor == Processor(g, true, false))
  {
    FreshRunKeepsHearing(start, steps);
    RunKeepsInv(start, steps);
    HearingMeans(After(start, steps), g);
  }

  lemma HearingMeans(s: State, g: nat)
    requires Inv(s) && HearOk(s) && g < |s.gens| && s.gens[g].runner.Live? && !s.gens[g].stopping
    ensures s.gens[g].output in s.active && (!s.gens[g].cancelled ==> s.processor == Processor(g, true, false))
  {
  }

  lemma {:induction false} RunKeepsMuters(s: State, steps: seq<Step>)
    requires Inv(s) && MutersOk(s) && IsRun(s, steps)
    ensures MutersOk(After(s, steps))
    decreases |steps|
  {
    if steps != [] {
      StepKeepsInv(s, steps[0]);
      StepKeepsMuters(s, steps[0]);
      RunKeepsMuters(Apply(s, steps[0]), steps[1..]);
    }
  }

  /** A live generation that hears its endpoint and that nobody has asked to stop. */
  predicate Listens(s: State, g: nat)
    requires g < |s.gens|
  {
    s.gens[g].runner.Live? && !s.gens[g].stopping && s.gens[g].output in s.active
  }

  /** The watcher or the canceller of a generation mutes this output. */
  predicate LateMute(s: State, step: Step, output: nat) {
    (step.WatcherMutes? || step.MuteCancelled?) && step.g < |s.gens| && s.gens[step.g].output == output
  }

  predicate Deafened(s: State, step: Step, g: nat)
    requires Enabled(s, step) && g < |s.gens|
  {
    var after := Apply(s, step);
    g < |after.gens| && after.gens[g].runner.Live? && !after.gens[g].stopping && after.gens[g].output !in after.active
  }

  lemma CallNeverDeafens(s: State, step: Step, g: nat)
    requires Inv(s) && MutersOk(s) && g < |s.gens| && Listens(s, g) && (StartEnabled(s, step) || StopEnabled(s, step))
    ensures !Deafened(s, step, g) && !LateMute(s, step, s.gens[g].output)
  {
  }

  lemma CancelDeafens(s: State, step: Step, g: nat)
    requires Inv(s) && MutersOk(s) && g < |s.gens| && Listens(s, g) && CancelEnabled(s, step)
    ensures Deafened(s, step, g) <==> LateMute(s, step, s.gens[g].output)
  {
  }

  lemma GoroutineDeafens(s: State, step: Step, g: nat)
    requires Inv(s) && MutersOk(s) && g < |s.gens| && Listens(s, g) && Enabled(s, step) && !IsCall(s, step)
    ensures Deafened(s, step, g) <==> LateMute(s, step, s.gens[g].output)
  {
  }

  /** In any run, a step deafens a listening generation exactly when it is a late mute of the output it shares. */
  lemma OnlyLateMutesDeafen(s: State, step: Step, g: nat)
    requires Reachable(s) && g < |s.gens| && Listens(s, g) && Enabled(s, step)
    ensures Deafened(s, step, g) <==> LateMute(s, step, s.gens[g].output)
  {
    var steps :| IsRun(Initial(), steps) && After(Initial(), steps) == s;
    RunKeepsInv(Initial(), steps);
    RunKeepsMuters(Initial(), steps);
    if StartEnabled(s, step) || StopEnabled(s, step) {
      CallNeverDeafens(s, step, g);
    } else if CancelEnabled(s, step) {
      CancelDeafens(s, step, g);
    } else {
      GoroutineDeafens(s, step, g);
    }
  }

  lemma {:induction false} RunExtends(s: State, steps: seq<Step>, step: Step)
    requires IsRun(s, steps) && Enabled(After(s, steps), step)
    ensures IsRun(s, steps + [step]) && After(s, steps + [step]) == Apply(After(s, steps), step)
    decreases |steps|
  {
    if steps == [] {
      assert [step][1..] == [];
    } else {
      RunExtends(Apply(s, steps[0]), steps[1..], step);
      assert (steps + [step])[1..] == steps[1..] + [step];
    }
  }

  lemma ReachesOn(s: State, step: Step)
    requires Reachable(s) && Enabled(s, step)
    ensures Reachable(Apply(s, step))
  {
    var steps :| IsRun(Initial(), steps) && After(Initial(), steps) == s;
    RunExtends(Initial(), steps, step);
  }

  /** A service whose only generation has this shape. */
  function WithFirst(gen: Generation, current: bool, active: set<nat>, processor: Processor): State {
    State([gen], if current then Some(0) else None, Some(0), 0, active, NoOp, multiset{}, processor, EmptyFlow())
  }

  function FirstLive(): State {
    WithFirst(Generation(0, false, false, 0, false, false, {}, Live, Waiting, 0), true, {0}, Processor(0, true, false))
  }

  /** The first generation is over, but its watcher has not muted the output yet. */
  function FirstOver(): State {
    WithFirst(
      Generation(0, true, true, 1, false, true, {}, Ended(false, false), WatcherMarked, 0), false, {}, NoProcessor)
  }

  lemma FirstStarts()
    ensures Reachable(FirstLive())
  {
    assert IsRun(Initial(), []) && After(Initial(), []) == Initial();
    var s := Initial();
    ReachesOn(s, BeginStart);
    s := Apply(s, BeginStart);
    ReachesOn(s, CreateGeneration);
    s := Apply(s, CreateGeneration);
    ReachesOn(s, EndpointStarts(true));
    s := Apply(s, EndpointStarts(true));
    ReachesOn(s, GoLive);
    assert Apply(s, GoLive) == FirstLive();
  }

  /** The first generation after its context was cancelled and its watcher has marked it, with its runner this far. */
  function FirstStopping(closes: nat, runner: Runner, active: set<nat>, processor: Processor): State {
    WithFirst(Generation(0, true, true, closes, false, false, {}, runner, WatcherMarked, 0), true, active, processor)
  }

  lemma Leads(s: State, step: Step, next: State)
    requires Reachable(s) && Enabled(s, step) && Apply(s, step) == next
    ensures Reachable(next)
  {
    ReachesOn(s, step);
  }

  lemma FirstIsCancelled()
    ensures Reachable(FirstStopping(0, Live, {0}, Processor(0, true, false)))
  {
    FirstStarts();
    ReachesOn(FirstLive(), CancelContext(0));
    Leads(Apply(FirstLive(), CancelContext(0)), WatcherMarks(0), FirstStopping(0, Live, {0}, Processor(0, true, false)));
  }

  lemma FirstIsMarked()
    ensures Reachable(FirstStopping(0, Marked(false), {0}, Processor(0, true, false)))
  {
    FirstIsCancelled();
    var processor := Processor(0, true, false);
    Leads(FirstStopping(0, Live, {0}, processor), RunReturns(0, false), FirstStopping(0, Returned(false), {0}, processor));
    Leads(FirstStopping(0, Returned(false), {0}, processor), RunnerMarks(0), FirstStopping(0, Marked(false), {0}, processor));
  }

  lemma FirstDrains()
    ensures Reachable(FirstStopping(0, Drained(false, false), {}, Processor(0, true, false)))
  {
    FirstIsMarked();
    var processor := Processor(0, true, false);
    Leads(FirstStopping(0, Marked(false), {0}, processor), RunnerMutes(0), FirstStopping(0, Muted(false), {}, processor));
    Leads(FirstStopping(0, Muted(false), {}, processor), RunnerDrains(0),
          FirstStopping(0, Drained(false, false), {}, processor));
  }

  lemma FirstStops()
    ensures Reachable(FirstStopping(1, Stopping(false, false, true), {}, Processor(0, false, true)))
  {
    FirstDrains();
    Leads(FirstStopping(0, Drained(false, false), {}, Processor(0, true, false)), RunnerCloses(0, false),
          FirstStopping(1, Closed(false, false), {}, Processor(0, true, false)));
    Leads(FirstStopping(1, Closed(false, false), {}, Processor(0, true, false)), RunnerStopsProcessor(0),
          FirstStopping(1, Stopping(false, false, true), {}, Processor(0, false, true)));
  }

  lemma FirstLosesItsProcessor()
    ensures Reachable(FirstStopping(1, Stopping(false, false, true), {}, NoProcessor))
  {
    FirstStops();
    var runner := Stopping(false, false, true);
    Leads(FirstStopping(1, runner, {}, Processor(0, false, true)), ProcessorExits, FirstStopping(1, runner, {}, NoProcessor));
  }

  lemma FirstIsStopped()
    ensures Reachable(FirstStopping(1, Stopped(false, false), {}, NoProcessor))
  {
    FirstLosesItsProcessor();
    var runner := Stopping(false, false, true);
    Leads(FirstStopping(1, runner, {}, NoProcessor), RunnerAwaitsProcessor(0),
          FirstStopping(1, Stopped(false, false), {}, NoProcessor));
  }

  /** The runner of the first generation gets all the way before its watcher mutes the output. */
  lemma FirstEnds()
    ensures Reachable(FirstOver())
  {
    FirstIsStopped();
    var s := FirstStopping(1, Stopped(false, false), {}, NoProcessor);
    assert RunResult(s.gens[0]) == {};
    assert Apply(s, RunnerFinishes(0)).gens[0] == FirstOver().gens[0];
    Leads(s, RunnerFinishes(0), FirstOver());
  }

  /**
    Restarting an endpoint can leave the new generation deaf: it is live, nobody
    has stopped or cancelled it, and its output is not active, because the
    watcher of the generation before it muted the output they share.
   */
  lemma RestartCanBeDeaf()
    ensures exists s :: Reachable(s) && |s.gens| == 2 && s.active == {}
              && s.gens[1].runner.Live? && !s.gens[1].stopping && !s.gens[1].cancelled
  {
    FirstEnds();
    var s := FirstOver();
    ReachesOn(s, BeginStart);
    s := Apply(s, BeginStart);
    ReachesOn(s, CreateGeneration);
    s := Apply(s, CreateGeneration);
    ReachesOn(s, EndpointStarts(true));
    s := Apply(s, EndpointStarts(true));
    ReachesOn(s, GoLive);
    s := Apply(s, GoLive);
    ReachesOn(s, WatcherMutes(0));
    s := Apply(s, WatcherMutes(0));
    assert s.active == {};
  }
}
