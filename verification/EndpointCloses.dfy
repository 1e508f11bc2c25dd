/** Which endpoint Stop and UpdateEndpoint close, and who closes that of a cancelled generation. */
module EndpointCloses {
  import opened LifecycleSafety
  import opened ServiceLifecycle
  import opened Wrappers

  /** The last run, if any, is of the installed endpoint, and the one Stop works on; without it none is. */
  ghost predicate LastIsInstalled(s: State) {
    && InRange(s, s.lastRun)
    && (forall g :: 0 <= g < |s.gens| ==> s.gens[g].output <= s.installed)
    && (s.lastRun.Some? ==> s.gens[s.lastRun.value].output == s.installed)
    && (s.lastRun.None? ==> forall g :: 0 <= g < |s.gens| ==> s.gens[g].output < s.installed)
    && (s.op.StopMarked? || s.op.StopMuted? || s.op.StopClosed? ==> s.op.run == s.lastRun)
  }

  lemma StartKeepsLast(s: State, step: Step)
    requires Inv(s) && LastIsInstalled(s) && StartEnabled(s, step)
    ensures LastIsInstalled(ApplyStart(s, step))
  {
  }

  lemma StopKeepsLast(s: State, step: Step)
    requires Inv(s) && LastIsInstalled(s) && StopEnabled(s, step)
    ensures LastIsInstalled(ApplyStop(s, step))
  {
  }

  lemma StepKeepsLast(s: State, step: Step)
    requires Inv(s) && LastIsInstalled(s) && Enabled(s, step)
    ensures LastIsInstalled(Apply(s, step))
  {
    if StartEnabled(s, step) {
      StartKeepsLast(s, step);
    } else if StopEnabled(s, step) {
      StopKeepsLast(s, step);
    } else {
      OthersLeaveAlone(s, step);
    }
  }

  lemma {:induction false} RunKeepsLast(s: State, steps: seq<Step>)
    requires Inv(s) && LastIsInstalled(s) && IsRun(s, steps)
    ensures LastIsInstalled(After(s, steps))
    decreases |steps|
  {
    if steps != [] {
      StepKeepsInv(s, steps[0]);
      StepKeepsLast(s, steps[0]);
      RunKeepsLast(Apply(s, steps[0]), steps[1..]);
    }
  }

  /** No generation after the last run is of the installed endpoint: the last run is the last generation on it. */
  ghost predicate LastIsLatest(s: State) {
    s.lastRun.Some? ==> s.lastRun.value + 1 == |s.gens|
  }

  lemma StepKeepsLatest(s: State, step: Step)
    requires Inv(s) && LastIsLatest(s) && Enabled(s, step)
    ensures LastIsLatest(Apply(s, step))
  {
    if StartEnabled(s, step) || StopEnabled(s, step) {
    } else {
      OthersLeaveAlone(s, step);
    }
  }

  lemma {:induction false} RunKeepsLatest(s: State, steps: seq<Step>)
    requires Inv(s) && LastIsLatest(s) && IsRun(s, steps)
    ensures LastIsLatest(After(s, steps))
    decreases |steps|
  {
    if steps != [] {
      StepKeepsInv(s, steps[0]);
      StepKeepsLatest(s, steps[0]);
      RunKeepsLatest(Apply(s, steps[0]), steps[1..]);
    }
  }

  lemma NothingIsLast(s: State)
    requires s.gens == [] && s.lastRun.None? && s.op.NoOp?
    ensures LastIsInstalled(s) && LastIsLatest(s)
  {
  }

  lemma ReachableIsLast(s: State)
    requires Reachable(s)
    ensures LastIsInstalled(s) && LastIsLatest(s)
  {
    var start := Initial();
    var steps :| IsRun(start, steps) && After(start, steps) == s;
    NothingIsLast(start);
    RunKeepsLast(start, steps);
    RunKeepsLatest(start, steps);
  }

  /**
    Stop and UpdateEndpoint close the installed endpoint: through the last
    generation that ran on it, so that it is closed once even if that generation
    has long closed it, and directly only if none ever ran on it.
   */
  lemma StopClosesTheInstalled(s: State, step: Step)
    requires Reachable(s) && StopEnabled(s, step) && step.CloseCurrent?
    ensures s.op.run.None? ==> forall g :: 0 <= g < |s.gens| ==> s.gens[g].output != s.installed
    ensures s.op.run.Some? ==>
              && s.op.run.value < |s.gens| && s.gens[s.op.run.value].output == s.installed
              && ApplyStop(s, step).gens[s.op.run.value].closes == 1
              && forall g :: s.op.run.value < g < |s.gens| ==> s.gens[g].output != s.installed
  {
    ReachableIsInv(s);
    ReachableIsLast(s);
  }

  /** Whoever runs is watched, and a watcher leaves only an endpoint that has been closed. */
  ghost predicate LeftIsClosed(s: State) {
    forall g :: 0 <= g < |s.gens| ==>
      && (s.gens[g].watcher.Left? ==> s.gens[g].closes > 0)
      && (!s.gens[g].runner.NotRunning? ==> !s.gens[g].watcher.NotWatching?)
  }

  lemma StartKeepsLeft(s: State, step: Step)
    requires Inv(s) && LeftIsClosed(s) && StartEnabled(s, step)
    ensures LeftIsClosed(ApplyStart(s, step))
  {
  }

  lemma CallKeepsLeft(s: State, step: Step)
    requires Inv(s) && LeftIsClosed(s) && (StopEnabled(s, step) || CancelEnabled(s, step))
    ensures LeftIsClosed(Apply(s, step))
  {
  }

  lemma GoroutineKeepsLeft(s: State, step: Step)
    requires Inv(s) && LeftIsClosed(s) && (RunnerEnabled(s, step) || WatcherEnabled(s, step) || FlowEnabled(s, step))
    ensures LeftIsClosed(Apply(s, step))
  {
  }

  lemma {:induction false} RunKeepsLeft(s: State, steps: seq<Step>)
    requires Inv(s) && LeftIsClosed(s) && IsRun(s, steps)
    ensures LeftIsClosed(After(s, steps))
    decreases |steps|
  {
    if steps != [] {
      StepKeepsInv(s, steps[0]);
      if StartEnabled(s, steps[0]) {
        StartKeepsLeft(s, steps[0]);
      } else if StopEnabled(s, steps[0]) || CancelEnabled(s, steps[0]) {
        CallKeepsLeft(s, steps[0]);
      } else {
        GoroutineKeepsLeft(s, steps[0]);
      }
      RunKeepsLeft(Apply(s, steps[0]), steps[1..]);
    }
  }

  /** The next move of a watcher that has something to do. */
  function WatcherMove(s: State, g: nat): Step
    requires g < |s.gens|
  {
    match s.gens[g].watcher
    case WatcherMarked => WatcherMutes(g)
    case WatcherMuted => WatcherCloses(g, false)
    case _ => WatcherMarks(g)
  }

  /**
    The endpoint of a cancelled generation gets closed even if its Run never
    returns: until it is, the generation's watcher can make its next move.
   */
  lemma CancelledGetsClosed(s: State, g: nat)
    requires Reachable(s) && g < |s.gens| && s.gens[g].cancelled && !s.gens[g].runner.NotRunning?
    ensures s.gens[g].closes == 1 || WatcherEnabled(s, WatcherMove(s, g))
  {
    ReachableIsInv(s);
    ReachableIsLeft(s);
  }

  lemma ReachableIsLeft(s: State)
    requires Reachable(s)
    ensures LeftIsClosed(s)
  {
    var start := Initial();
    var steps :| IsRun(start, steps) && After(start, steps) == s;
    RunKeepsLeft(start, steps);
  }
}
