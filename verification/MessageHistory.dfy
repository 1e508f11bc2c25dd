/** What became of every message a run of the service has seen. */
module MessageHistory {
  import opened LifecycleSafety
  import opened RunHistory
  import opened ServiceLifecycle
  import opened Wrappers

  /** A message comes in at step i while a processor is registered. */
  predicate ComesIn(s: State, step: Step) {
    step.Deliver? && s.processor.Processor? && s.processor.registered
  }

  /** The messages that came in on time while a processor was registered, in order. */
  ghost function Timely(steps: seq<Step>, n: nat): seq<Message>
    requires FromStart(steps) && n <= |steps|
  {
    if n == 0 then []
    else
      var step := steps[n - 1];
      Timely(steps, n - 1) + if ComesIn(StateAt(steps, n - 1), step) && step.current then [step.message] else []
  }

  /** What a step does to the books. */
  ghost predicate Books(s: State, step: Step, after: State) {
    && after.flow.accepted == s.flow.accepted + (if ComesIn(s, step) && step.current then [step.message] else [])
    && after.flow.processed == s.flow.processed + (if step == FinishMessage(false) then 1 else 0)
    && after.flow.stale == s.flow.stale + (if step == FinishMessage(true) then 1 else 0)
    && after.flow.rejected == s.flow.rejected + (if ComesIn(s, step) && !step.current then 1 else 0)
    && after.flow.discarded == s.flow.discarded + (if step.ProcessorExits? then |s.flow.queued| else 0)
  }

  lemma FlowBooks(s: State, step: Step)
    requires FlowEnabled(s, step)
    ensures Books(s, step, ApplyFlow(s, step))
  {
  }

  lemma CallKeepsFlow(s: State, step: Step)
    requires StartEnabled(s, step) || StopEnabled(s, step) || CancelEnabled(s, step)
    ensures Apply(s, step).flow == s.flow
  {
  }

  lemma GoroutineKeepsFlow(s: State, step: Step)
    requires RunnerEnabled(s, step) || WatcherEnabled(s, step)
    ensures Apply(s, step).flow == s.flow
  {
  }

  lemma StepBooks(steps: seq<Step>, n: nat)
    requires FromStart(steps) && n < |steps|
    ensures Books(StateAt(steps, n), steps[n], StateAt(steps, n + 1))
  {
    NextState(steps, n);
    if FlowEnabled(StateAt(steps, n), steps[n]) {
      FlowBooks(StateAt(steps, n), steps[n]);
    } else {
      var s, step := StateAt(steps, n), steps[n];
      if StartEnabled(s, step) || StopEnabled(s, step) || CancelEnabled(s, step) {
        CallKeepsFlow(s, step);
      } else {
        GoroutineKeepsFlow(s, step);
      }
    }
  }

  lemma OneMoreCounted(steps: seq<Step>, n: nat, step: Step)
    requires n < |steps|
    ensures multiset(steps[..n + 1])[step] == multiset(steps[..n])[step] + if steps[n] == step then 1 else 0
  {
    assert steps[..n + 1] == steps[..n] + [steps[n]];
  }

  lemma TimelyNext(steps: seq<Step>, n: nat)
    requires FromStart(steps) && n < |steps| && StateAt(steps, n).flow.accepted == Timely(steps, n)
    ensures StateAt(steps, n + 1).flow.accepted == Timely(steps, n + 1)
  {
    StepBooks(steps, n);
  }

  lemma CountsNext(steps: seq<Step>, n: nat)
    requires FromStart(steps) && n < |steps|
    requires StateAt(steps, n).flow.processed == multiset(steps[..n])[FinishMessage(false)]
    requires StateAt(steps, n).flow.stale == multiset(steps[..n])[FinishMessage(true)]
    ensures StateAt(steps, n + 1).flow.processed == multiset(steps[..n + 1])[FinishMessage(false)]
    ensures StateAt(steps, n + 1).flow.stale == multiset(steps[..n + 1])[FinishMessage(true)]
  {
    StepBooks(steps, n);
    OneMoreCounted(steps, n, FinishMessage(false));
    OneMoreCounted(steps, n, FinishMessage(true));
  }

  /**
    The accepted messages are those that came in on time through a processor, in
    that order; late ones are never accepted. A message counts as processed, or as
    stale, once for every one the processor finished in time, or too late.
   */
  lemma {:induction false} BooksAreTrue(steps: seq<Step>, n: nat)
    requires FromStart(steps) && n <= |steps|
    ensures var flow := StateAt(steps, n).flow;
            && flow.accepted == Timely(steps, n)
            && flow.processed == multiset(steps[..n])[FinishMessage(false)]
            && flow.stale == multiset(steps[..n])[FinishMessage(true)]
  {
    if n == 0 {
      InvAt(steps, n);
    } else {
      BooksAreTrue(steps, n - 1);
      TimelyNext(steps, n - 1);
      CountsNext(steps, n - 1);
    }
  }
}
