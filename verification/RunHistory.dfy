/**
  What a state of the service says about the run that led to it: who failed, who
  closed, who was cancelled, what a generation's result is made of, and what
  became of the messages.
 */
module RunHistory {
  import opened LifecycleSafety
  import opened ServiceLifecycle
  import opened Wrappers

  lemma {:induction false} PrefixRuns(s: State, steps: seq<Step>, n: nat)
    requires IsRun(s, steps) && n <= |steps|
    ensures IsRun(s, steps[..n])
    ensures n < |steps| ==>
              && Enabled(After(s, steps[..n]), steps[n]) && IsRun(s, steps[..n + 1])
              && After(s, steps[..n + 1]) == Apply(After(s, steps[..n]), steps[n])
    decreases n
  {
    if n > 0 {
      PrefixRuns(Apply(s, steps[0]), steps[1..], n - 1);
      assert steps[..n][1..] == steps[1..][..n - 1];
      if n < |steps| { assert steps[..n + 1][1..] == steps[1..][..n]; }
    } else if |steps| > 0 {
      assert steps[..1] == [steps[0]] && steps[..1][1..] == [];
    }
  }

  /** A run of a new service. */
  predicate FromStart(steps: seq<Step>) {
    IsRun(Initial(), steps)
  }

  /** The state after the first n steps. */
  ghost function StateAt(steps: seq<Step>, n: nat): State
    requires FromStart(steps) && n <= |steps|
  {
    PrefixRuns(Initial(), steps, n);
    After(Initial(), steps[..n])
  }

  lemma InvAt(steps: seq<Step>, n: nat)
    requires FromStart(steps) && n <= |steps|
    ensures Inv(StateAt(steps, n)) && (n == 0 ==> StateAt(steps, n) == Initial())
  {
    PrefixRuns(Initial(), steps, n);
    RunKeepsInv(Initial(), steps[..n]);
  }

  lemma NextState(steps: seq<Step>, n: nat)
    requires FromStart(steps) && n < |steps|
    ensures Enabled(StateAt(steps, n), steps[n]) && StateAt(steps, n + 1) == Apply(StateAt(steps, n), steps[n])
  {
    PrefixRuns(Initial(), steps, n);
  }

  /** Run of this generation has returned an error. */
  predicate RunFailed(s: State, g: nat) {
    g < |s.gens| && !s.gens[g].runner.NotRunning? && !s.gens[g].runner.Live? && s.gens[g].runner.failed
  }

  predicate RunEnded(s: State, g: nat) {
    g < |s.gens| && s.gens[g].runner.Ended?
  }

  predicate HasBeenClosed(s: State, g: nat) {
    g < |s.gens| && s.gens[g].closes > 0
  }

  predicate CloseFailed(s: State, g: nat) {
    g < |s.gens| && s.gens[g].closeFailed
  }

  predicate HasBeenCancelled(s: State, g: nat) {
    g < |s.gens| && s.gens[g].cancelled
  }

  /** The step closes the endpoint of this generation, or finds it closed. */
  predicate Closes(s: State, step: Step, g: nat) {
    || (step.CloseUnstarted? && s.op.StartFailing? && s.op.g == g)
    || (step.CloseCurrent? && s.op.StopMuted? && s.op.run == Some(g))
    || (step.RunnerCloses? && step.g == g) || (step.WatcherCloses? && step.g == g)
  }

  /** The step cancels the context of this generation. */
  predicate Cancels(s: State, step: Step, g: nat) {
    || step == CancelContext(g) || (step.CancelCurrent? && s.endpointRun == Some(g))
    || (step.MarkCurrent? && (s.endpointRun == Some(g) || (s.endpointRun.None? && s.lastRun == Some(g))))
    || step == RunnerFinishes(g) || (step.FinishUnstarted? && s.op.StartFailed? && s.op.g == g)
  }

  /** What a step does to what a state says of one generation. */
  ghost predicate Tells(s: State, step: Step, after: State, g: nat) {
    && (RunFailed(after, g) <==> RunFailed(s, g) || step == RunReturns(g, true))
    && (RunEnded(after, g) <==> RunEnded(s, g) || step == RunnerFinishes(g))
    && (HasBeenClosed(after, g) <==> HasBeenClosed(s, g) || Closes(s, step, g))
    && (CloseFailed(after, g) <==> CloseFailed(s, g) || (!HasBeenClosed(s, g) && Closes(s, step, g) && step.fails))
    && (HasBeenCancelled(after, g) <==> HasBeenCancelled(s, g) || Cancels(s, step, g))
  }

  /** An endpoint that has not been closed has not failed to close. */
  ghost predicate Unclosed(s: State) {
    forall g :: 0 <= g < |s.gens| && s.gens[g].closes == 0 ==> !s.gens[g].closeFailed
  }

  lemma StartTells(s: State, step: Step, g: nat)
    requires Inv(s) && Unclosed(s) && StartEnabled(s, step)
    ensures Tells(s, step, ApplyStart(s, step), g)
  {
  }

  lemma StopTells(s: State, step: Step, g: nat)
    requires Inv(s) && Unclosed(s) && StopEnabled(s, step)
    ensures Tells(s, step, ApplyStop(s, step), g)
  {
  }

  lemma CancelTells(s: State, step: Step, g: nat)
    requires Inv(s) && CancelEnabled(s, step)
    ensures Tells(s, step, ApplyCancel(s, step), g)
  {
  }

  lemma OpenRunnerTells(s: State, step: Step, g: nat)
    requires Inv(s) && Unclosed(s) && RunnerEnabled(s, step) && StillOpen(step)
    ensures Tells(s, step, ApplyRunner(s, step), g)
  {
  }

  lemma ClosingRunnerTells(s: State, step: Step, g: nat)
    requires Inv(s) && Unclosed(s) && RunnerEnabled(s, step) && !StillOpen(step)
    ensures Tells(s, step, ApplyRunner(s, step), g)
  {
  }

  lemma WatcherTells(s: State, step: Step, g: nat)
    requires Inv(s) && Unclosed(s) && WatcherEnabled(s, step)
    ensures Tells(s, step, ApplyWatcher(s, step), g)
  {
  }

  lemma FlowTells(s: State, step: Step, g: nat)
    requires Inv(s) && FlowEnabled(s, step)
    ensures Tells(s, step, ApplyFlow(s, step), g)
  {
  }

  lemma StepTells(s: State, step: Step, g: nat)
    requires Inv(s) && Unclosed(s) && Enabled(s, step)
    ensures Tells(s, step, Apply(s, step), g)
  {
    if StartEnabled(s, step) {
      StartTells(s, step, g);
    } else if StopEnabled(s, step) {
      StopTells(s, step, g);
    } else if CancelEnabled(s, step) {
      CancelTells(s, step, g);
    } else if RunnerEnabled(s, step) {
      if StillOpen(step) { OpenRunnerTells(s, step, g); } else { ClosingRunnerTells(s, step, g); }
    } else if WatcherEnabled(s, step) {
      WatcherTells(s, step, g);
    } else {
      FlowTells(s, step, g);
    }
  }

  lemma StepKeepsUnclosed(s: State, step: Step)
    requires Inv(s) && Unclosed(s) && Enabled(s, step)
    ensures Unclosed(Apply(s, step))
  {
    var after := Apply(s, step);
    forall g: nat | g < |after.gens| && after.gens[g].closes == 0 ensures !after.gens[g].closeFailed {
      StepTells(s, step, g);
      assert !HasBeenClosed(after, g);
      assert CloseFailed(s, g) ==> HasBeenClosed(s, g);
    }
  }

  lemma {:induction false} StaysUnclosed(steps: seq<Step>, n: nat)
    requires FromStart(steps) && n <= |steps|
    ensures Unclosed(StateAt(steps, n))
  {
    if n == 0 {
      InvAt(steps, n);
    } else {
      InvAt(steps, n - 1);
      NextState(steps, n - 1);
      StaysUnclosed(steps, n - 1);
      StepKeepsUnclosed(StateAt(steps, n - 1), steps[n - 1]);
    }
  }

  /** The i-th step of the run closes the endpoint of g, and no step before it did. */
  ghost predicate FirstClose(steps: seq<Step>, i: nat, g: nat)
    requires FromStart(steps) && i < |steps|
  {
    Closes(StateAt(steps, i), steps[i], g) && forall j :: 0 <= j < i ==> !Closes(StateAt(steps, j), steps[j], g)
  }

  /** The one close of the endpoint by generation g, if it is among the first n steps, failed. */
  ghost predicate ClosedBadly(steps: seq<Step>, n: nat, g: nat)
    requires FromStart(steps) && n <= |steps|
  {
    exists i :: 0 <= i < n && FirstClose(steps, i, g) && steps[i].fails
  }

  ghost predicate ClosedWithin(steps: seq<Step>, n: nat, g: nat)
    requires FromStart(steps) && n <= |steps|
  {
    exists i :: 0 <= i < n && Closes(StateAt(steps, i), steps[i], g)
  }

  ghost predicate CancelledWithin(steps: seq<Step>, n: nat, g: nat)
    requires FromStart(steps) && n <= |steps|
  {
    exists i :: 0 <= i < n && Cancels(StateAt(steps, i), steps[i], g)
  }

  lemma StepOfTheRun(steps: seq<Step>, n: nat, g: nat)
    requires FromStart(steps) && n < |steps|
    ensures Tells(StateAt(steps, n), steps[n], StateAt(steps, n + 1), g)
  {
    InvAt(steps, n);
    NextState(steps, n);
    StaysUnclosed(steps, n);
    StepTells(StateAt(steps, n), steps[n], g);
  }

  /** Run of a generation has returned an error exactly if the run of the service has such a step. */
  lemma {:induction false} FailureIsTold(steps: seq<Step>, n: nat, g: nat)
    requires FromStart(steps) && n <= |steps|
    ensures RunFailed(StateAt(steps, n), g) <==> RunReturns(g, true) in steps[..n]
    ensures RunEnded(StateAt(steps, n), g) <==> RunnerFinishes(g) in steps[..n]
  {
    if n == 0 {
      InvAt(steps, n);
    } else {
      FailureIsTold(steps, n - 1, g);
      StepOfTheRun(steps, n - 1, g);
      assert steps[..n] == steps[..n - 1] + [steps[n - 1]];
    }
  }

  /** Whether its endpoint has been closed, and whether that failed, is what the first closing step says. */
  lemma {:induction false} CloseIsTold(steps: seq<Step>, n: nat, g: nat)
    requires FromStart(steps) && n <= |steps|
    ensures HasBeenClosed(StateAt(steps, n), g) <==> ClosedWithin(steps, n, g)
    ensures CloseFailed(StateAt(steps, n), g) <==> ClosedBadly(steps, n, g)
  {
    if n == 0 {
      InvAt(steps, n);
    } else {
      var last := n - 1;
      CloseIsTold(steps, last, g);
      StepOfTheRun(steps, last, g);
      if ClosedWithin(steps, n, g) && !ClosedWithin(steps, last, g) {
        assert Closes(StateAt(steps, last), steps[last], g);
      }
      if Closes(StateAt(steps, last), steps[last], g) {
        assert FirstClose(steps, last, g) <==> !ClosedWithin(steps, last, g);
      }
    }
  }

  lemma {:induction false} CancellationIsTold(steps: seq<Step>, n: nat, g: nat)
    requires FromStart(steps) && n <= |steps|
    ensures HasBeenCancelled(StateAt(steps, n), g) <==> CancelledWithin(steps, n, g)
  {
    if n == 0 {
      InvAt(steps, n);
    } else {
      CancellationIsTold(steps, n - 1, g);
      StepOfTheRun(steps, n - 1, g);
      if CancelledWithin(steps, n - 1, g) {
        var i :| 0 <= i < n - 1 && Cancels(StateAt(steps, i), steps[i], g);
        assert 0 <= i < n;
      }
    }
  }

  lemma EndedOnwards(s: State, middle: State, after: State, g: nat)
    requires g < |s.gens| && s.gens[g].done && StaysEnded(s, middle, g) && StaysEnded(middle, after, g)
    ensures StaysEnded(s, after, g)
  {
  }

  lemma {:induction false} ResultStays(steps: seq<Step>, i: nat, n: nat, g: nat)
    requires FromStart(steps) && i <= n <= |steps| && g < |StateAt(steps, i).gens| && StateAt(steps, i).gens[g].done
    ensures StaysEnded(StateAt(steps, i), StateAt(steps, n), g)
    decreases n
  {
    if i == n {
      InvAt(steps, i);
    } else {
      ResultStays(steps, i, n - 1, g);
      EndedStays(steps, n - 1, g);
      EndedOnwards(StateAt(steps, i), StateAt(steps, n - 1), StateAt(steps, n), g);
    }
  }

  lemma EndedStays(steps: seq<Step>, n: nat, g: nat)
    requires FromStart(steps) && n < |steps| && g < |StateAt(steps, n).gens| && StateAt(steps, n).gens[g].done
    ensures StaysEnded(StateAt(steps, n), StateAt(steps, n + 1), g)
  {
    InvAt(steps, n);
    NextState(steps, n);
    StepLeavesTheEnded(StateAt(steps, n), steps[n], g);
  }

  lemma FinishingMakesTheResult(s: State, g: nat)
    requires Inv(s) && RunnerEnabled(s, RunnerFinishes(g))
    ensures var result := ApplyRunner(s, RunnerFinishes(g)).gens[g].result;
            && (RunError in result <==> RunFailed(s, g) && !s.gens[g].cancelled)
            && (CloseError in result <==> s.gens[g].closeFailed)
            && StartError !in result && Cancelled !in result
    ensures ApplyRunner(s, RunnerFinishes(g)).gens[g].done && HasBeenClosed(s, g)
  {
  }

  lemma FinishedAt(steps: seq<Step>, i: nat, g: nat)
    requires FromStart(steps) && i < |steps| && steps[i] == RunnerFinishes(g)
    ensures var before, after := StateAt(steps, i), StateAt(steps, i + 1);
            && g < |after.gens| && after.gens[g].done && HasBeenClosed(before, g)
            && (RunError in after.gens[g].result <==> RunFailed(before, g) && !HasBeenCancelled(before, g))
            && (CloseError in after.gens[g].result <==> CloseFailed(before, g))
            && StartError !in after.gens[g].result && Cancelled !in after.gens[g].result
  {
    InvAt(steps, i);
    NextState(steps, i);
    FinishingMakesTheResult(StateAt(steps, i), g);
  }

  /**
    The result of a generation that went live, at any time after its runner has
    finished: an error of Run exactly if Run returned one and nothing had
    cancelled the generation before; an error of the close exactly if the one
    close of its endpoint failed; and no other.
   */
  lemma ResultTellsTheRun(steps: seq<Step>, i: nat, g: nat)
    requires FromStart(steps) && i < |steps| && steps[i] == RunnerFinishes(g)
    ensures var s := StateAt(steps, |steps|);
            && g < |s.gens| && s.gens[g].done
            && (RunError in s.gens[g].result <==> RunReturns(g, true) in steps[..i] && !CancelledWithin(steps, i, g))
            && (CloseError in s.gens[g].result <==> ClosedBadly(steps, i, g))
            && ClosedWithin(steps, i, g)
            && StartError !in s.gens[g].result && Cancelled !in s.gens[g].result
  {
    FinishedAt(steps, i, g);
    FailureIsTold(steps, i, g);
    CloseIsTold(steps, i, g);
    CancellationIsTold(steps, i, g);
    ResultStays(steps, i + 1, |steps|, g);
  }

  /** A generation is done and was live exactly if its runner has finished. */
  lemma DoneMeansFinished(steps: seq<Step>, g: nat)
    requires FromStart(steps) && g < |StateAt(steps, |steps|).gens|
    ensures var gen := StateAt(steps, |steps|).gens[g];
            gen.done && !gen.runner.NotRunning? <==> RunnerFinishes(g) in steps
  {
    InvAt(steps, |steps|);
    FailureIsTold(steps, |steps|, g);
    assert steps[..|steps|] == steps;
  }

  /** The endpoint of g has refused to start within the first n steps. */
  ghost predicate Refused(steps: seq<Step>, n: nat, g: nat)
    requires FromStart(steps) && n <= |steps|
  {
    exists j :: 0 <= j < n && steps[j] == EndpointStarts(false) && StateAt(steps, j).op == Starting(g)
  }

  /** A start of g that was given up found its context cancelled when it closed the endpoint. */
  ghost predicate FoundCancelled(steps: seq<Step>, n: nat, g: nat)
    requires FromStart(steps) && n <= |steps|
  {
    exists j :: 0 <= j < n && steps[j].CloseUnstarted? && UnwantedAt(steps, j, g)
  }

  ghost predicate UnwantedAt(steps: seq<Step>, j: nat, g: nat)
    requires FromStart(steps) && j < |steps|
  {
    var s := StateAt(steps, j);
    s.op.StartFailing? && s.op.g == g && g < |s.gens| && s.gens[g].cancelled
  }

  /** What a start that came to nothing returns. */
  ghost function StartProblems(steps: seq<Step>, n: nat, g: nat): set<Problem>
    requires FromStart(steps) && n <= |steps|
  {
    (if Refused(steps, n, g) then {StartError} else if FoundCancelled(steps, n, g) then {Cancelled} else {})
    + if ClosedBadly(steps, n, g) then {CloseError} else {}
  }

  /** How far a start is, and what went wrong with it so far. */
  ghost predicate StartIsTold(steps: seq<Step>, n: nat)
    requires FromStart(steps) && n <= |steps|
  {
    var s := StateAt(steps, n);
    && (s.op.Starting? || s.op.StartReturned? ==> !Refused(steps, n, s.op.g) && !FoundCancelled(steps, n, s.op.g))
    && (s.op.StartFailing? ==>
          s.op.problems == (if Refused(steps, n, s.op.g) then {StartError} else {}) && !FoundCancelled(steps, n, s.op.g))
    && (s.op.StartFailed? ==> s.op.problems == StartProblems(steps, n, s.op.g))
  }

  lemma RefusedNext(steps: seq<Step>, n: nat, g: nat)
    requires FromStart(steps) && n < |steps|
    ensures Refused(steps, n + 1, g) <==>
              Refused(steps, n, g) || (steps[n] == EndpointStarts(false) && StateAt(steps, n).op == Starting(g))
    ensures FoundCancelled(steps, n + 1, g) <==>
              FoundCancelled(steps, n, g) || (steps[n].CloseUnstarted? && UnwantedAt(steps, n, g))
  {
    if FoundCancelled(steps, n, g) {
      var j :| 0 <= j < n && steps[j].CloseUnstarted? && UnwantedAt(steps, j, g);
      assert 0 <= j < n + 1;
    }
  }

  lemma GenerationsStay(s: State, step: Step)
    requires Inv(s) && Enabled(s, step)
    ensures |s.gens| <= |Apply(s, step).gens| && (s.op.Starting? ==> s.op.g < |s.gens|)
  {
    if StartEnabled(s, step) || StopEnabled(s, step) {
    } else {
      OthersLeaveAlone(s, step);
    }
  }

  lemma NoneBeyondNow(steps: seq<Step>, n: nat, g: nat)
    requires FromStart(steps) && n < |steps| && g >= |StateAt(steps, n + 1).gens|
    ensures g >= |StateAt(steps, n).gens| && StateAt(steps, n).op != Starting(g) && !UnwantedAt(steps, n, g)
  {
    InvAt(steps, n);
    NextState(steps, n);
    GenerationsStay(StateAt(steps, n), steps[n]);
  }

  /** Only generations that exist are ever started. */
  lemma {:induction false} NoneBeyond(steps: seq<Step>, n: nat, g: nat)
    requires FromStart(steps) && n <= |steps| && g >= |StateAt(steps, n).gens|
    ensures !Refused(steps, n, g) && !FoundCancelled(steps, n, g)
  {
    if n > 0 {
      NoneBeyondNow(steps, n - 1, g);
      NoneBeyond(steps, n - 1, g);
      RefusedNext(steps, n - 1, g);
    }
  }

  /** How a start comes to where it is. */
  ghost predicate StartMoved(s: State, step: Step, after: State) {
    && (InStart(after.op) && after.op == s.op ==> !step.EndpointStarts? && !step.CloseUnstarted?)
    && (InStart(after.op) && after.op != s.op ==>
          match after.op
          case Starting(g) => step.CreateGeneration? && g == |s.gens|
          case StartReturned(g) => step == EndpointStarts(true) && s.op == Starting(g)
          case StartFailing(g, problems) =>
            || (step == EndpointStarts(false) && s.op == Starting(g) && problems == {StartError})
            || (step.GoLive? && s.op == StartReturned(g) && problems == {})
          case StartFailed(g, problems) =>
            && step.CloseUnstarted? && s.op.StartFailing? && s.op.g == g && g < |s.gens| && g < |after.gens|
            && problems == (if s.op.problems != {} then s.op.problems
                            else if s.gens[g].cancelled then {Cancelled} else {})
                           + (if after.gens[g].closeFailed then {CloseError} else {})
          case _ => false)
  }

  lemma StartMovesItself(s: State, step: Step)
    requires Inv(s) && StartEnabled(s, step)
    ensures StartMoved(s, step, ApplyStart(s, step))
  {
  }

  lemma StopMovesNoStart(s: State, step: Step)
    requires Inv(s) && StopEnabled(s, step)
    ensures StartMoved(s, step, ApplyStop(s, step))
  {
  }

  lemma StartMoves(s: State, step: Step)
    requires Inv(s) && Enabled(s, step)
    ensures StartMoved(s, step, Apply(s, step))
  {
    if StartEnabled(s, step) {
      StartMovesItself(s, step);
    } else if StopEnabled(s, step) {
      StopMovesNoStart(s, step);
    } else {
      OthersLeaveAlone(s, step);
    }
  }

  /** A start that has closed its endpoint does not close it again. */
  lemma ClosedStays(steps: seq<Step>, n: nat, g: nat)
    requires FromStart(steps) && n < |steps| && HasBeenClosed(StateAt(steps, n), g)
    ensures ClosedBadly(steps, n + 1, g) <==> ClosedBadly(steps, n, g)
  {
    StepOfTheRun(steps, n, g);
    CloseIsTold(steps, n, g);
    CloseIsTold(steps, n + 1, g);
  }

  lemma StartIsToldNext(steps: seq<Step>, n: nat)
    requires FromStart(steps) && n < |steps| && StartIsTold(steps, n)
    ensures StartIsTold(steps, n + 1)
  {
    var s, step, after := StateAt(steps, n), steps[n], StateAt(steps, n + 1);
    InvAt(steps, n);
    InvAt(steps, n + 1);
    NextState(steps, n);
    StartMoves(s, step);
    if InStart(after.op) {
      var g := after.op.g;
      RefusedNext(steps, n, g);
      if after.op == s.op {
        if after.op.StartFailed? { ClosedStays(steps, n, g); }
      } else if after.op.Starting? {
        NoneBeyond(steps, n, g);
      } else if after.op.StartFailed? {
        CloseIsTold(steps, n + 1, g);
      }
    }
  }

  lemma {:induction false} StartsAreTold(steps: seq<Step>, n: nat)
    requires FromStart(steps) && n <= |steps|
    ensures StartIsTold(steps, n)
  {
    if n == 0 {
      InvAt(steps, n);
    } else {
      StartsAreTold(steps, n - 1);
      StartIsToldNext(steps, n - 1);
    }
  }

  lemma UnstartedMakesTheResult(s: State)
    requires Inv(s) && StartEnabled(s, FinishUnstarted)
    ensures var after := ApplyStart(s, FinishUnstarted);
            after.gens[s.op.g].done && after.gens[s.op.g].result == s.op.problems && HasBeenClosed(s, s.op.g)
  {
  }

  lemma UnstartedAt(steps: seq<Step>, i: nat)
    requires FromStart(steps) && i < |steps| && steps[i] == FinishUnstarted
    ensures var before, after := StateAt(steps, i), StateAt(steps, i + 1);
            && before.op.StartFailed? && before.op.g < |after.gens| && after.gens[before.op.g].done
            && after.gens[before.op.g].result == before.op.problems && HasBeenClosed(before, before.op.g)
  {
    InvAt(steps, i);
    NextState(steps, i);
    UnstartedMakesTheResult(StateAt(steps, i));
  }

  lemma MakingOfProblems(steps: seq<Step>, n: nat, g: nat)
    requires FromStart(steps) && n <= |steps|
    ensures var problems := StartProblems(steps, n, g);
            && (StartError in problems <==> Refused(steps, n, g))
            && (Cancelled in problems <==> !Refused(steps, n, g) && FoundCancelled(steps, n, g))
            && (CloseError in problems <==> ClosedBadly(steps, n, g))
            && RunError !in problems
  {
  }

  lemma UnstartedResult(steps: seq<Step>, i: nat)
    requires FromStart(steps) && i < |steps| && steps[i] == FinishUnstarted
    ensures StateAt(steps, i).op.StartFailed?
    ensures var s, g := StateAt(steps, |steps|), StateAt(steps, i).op.g;
            g < |s.gens| && s.gens[g].done && s.gens[g].result == StartProblems(steps, i, g)
  {
    UnstartedAt(steps, i);
    StartsAreTold(steps, i);
    ResultStays(steps, i + 1, |steps|, StateAt(steps, i).op.g);
  }

  /**
    The result of a generation that never went live, at any time after its start
    was given up: the endpoint's refusal if it refused, else the cancellation if
    the context was cancelled by then; and the error of the close if that failed.
   */
  lemma ResultTellsTheStart(steps: seq<Step>, i: nat)
    requires FromStart(steps) && i < |steps| && steps[i] == FinishUnstarted
    ensures var s := StateAt(steps, |steps|);
            && StateAt(steps, i).op.StartFailed?
            && var g := StateAt(steps, i).op.g;
               && g < |s.gens| && s.gens[g].done && ClosedWithin(steps, i, g)
               && (StartError in s.gens[g].result <==> Refused(steps, i, g))
               && (Cancelled in s.gens[g].result <==> !Refused(steps, i, g) && FoundCancelled(steps, i, g))
               && (CloseError in s.gens[g].result <==> ClosedBadly(steps, i, g))
               && RunError !in s.gens[g].result
  {
    UnstartedAt(steps, i);
    UnstartedResult(steps, i);
    CloseIsTold(steps, i, StateAt(steps, i).op.g);
    MakingOfProblems(steps, i, StateAt(steps, i).op.g);
  }

  /** A generation goes live exactly if nobody has asked it to stop or cancelled it while its endpoint started. */
  lemma OnlyWantedGoLive(s: State)
    requires Reachable(s) && s.op.StartReturned?
    ensures s.op.g < |s.gens| && StartEnabled(s, GoLive)
    ensures ApplyStart(s, GoLive).gens[s.op.g].runner.Live? <==> !s.gens[s.op.g].stopping && !s.gens[s.op.g].cancelled
  {
    ReachableIsInv(s);
  }
}
