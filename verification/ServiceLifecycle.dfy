/**
  The service as a state machine. One step is one section that runs under a
  mutex, one call into the endpoint, or one wait; steps of the API calls, the
  goroutines of every endpoint generation, the message processor, cancelled
  contexts and arriving messages interleave freely.
 */
module ServiceLifecycle {
  import opened Wrappers

  /** Messages are told apart by a serial number. */
  type Message = nat

  datatype Problem = StartError | RunError | CloseError | Cancelled

  /** Where runEndpoint is; clean says that the queue drained before any cancellation. */
  datatype Runner =
    | NotRunning
    | Live
    | Returned(failed: bool)
    | Marked(failed: bool)
    | Muted(failed: bool)
    | Drained(failed: bool, clean: bool)
    | Closed(failed: bool, clean: bool)
    | Stopping(failed: bool, clean: bool, waits: bool)
    | Stopped(failed: bool, clean: bool)
    | Ended(failed: bool, clean: bool)

  /** Where closeEndpointOnContext is. */
  datatype Watcher = NotWatching | Waiting | WatcherMarked | WatcherMuted | Left

  /** One endpoint generation: serviceEndpointRun and its two goroutines. */
  datatype Generation = Generation(
    output: nat, cancelled: bool, stopping: bool, closes: nat, closeFailed: bool,
    done: bool, result: set<Problem>, runner: Runner, watcher: Watcher, lost: nat)

  /** The API call that holds lifecycleOpMu, and how far it is. */
  datatype Op =
    | NoOp
    | StartBegun
    | Starting(g: nat)
    | StartReturned(g: nat)
    | StartFailing(g: nat, problems: set<Problem>)
    | StartFailed(g: nat, problems: set<Problem>)
    | StopBegun(update: bool)
    | StopMarked(update: bool, run: Option<nat>)
    | StopMuted(update: bool, run: Option<nat>)
    | StopClosed(update: bool, run: Option<nat>)
    | StopWaited(update: bool)
    | StopAwaiting(update: bool, waits: bool)
    | Installing

  /** The message processor; registered while processorCancel is its own. */
  datatype Processor = NoProcessor | Processor(g: nat, registered: bool, cancelled: bool)

  /** The queue and what became of every message offered to the service. */
  datatype Flow = Flow(
    queued: seq<Message>, inFlight: Option<Message>, waitGroup: int,
    offered: nat, accepted: seq<Message>, gone: seq<Message>,
    processed: nat, stale: nat, discarded: nat, rejected: nat, direct: nat)

  /** Every UpdateEndpoint installs an endpoint with an output of its own; both go by the installation's number. */
  datatype State = State(
    gens: seq<Generation>, endpointRun: Option<nat>, lastRun: Option<nat>, installed: nat,
    active: set<nat>, op: Op, mutes: multiset<nat>, processor: Processor, flow: Flow)

  function EmptyFlow(): Flow {
    Flow([], None, 0, 0, [], [], 0, 0, 0, 0, 0)
  }

  /** A new service. */
  function Initial(): State {
    State([], None, None, 0, {}, NoOp, multiset{}, NoProcessor, EmptyFlow())
  }

  datatype Step =
    // Start
    | BeginStart | CreateGeneration | EndpointStarts(ok: bool) | GoLive | CloseUnstarted(fails: bool) | FinishUnstarted
    // Stop and UpdateEndpoint
    | BeginStop(update: bool) | MarkCurrent | MuteCurrent | CloseCurrent(fails: bool) | AwaitDone
    | StopProcessor | AwaitProcessor | Install
    // what Stop and UpdateEndpoint do before they wait for the mutex
    | CancelCurrent | MuteCancelled(g: nat)
    // contexts
    | CancelContext(g: nat)
    // runEndpoint
    | RunReturns(g: nat, failed: bool) | RunnerMarks(g: nat) | RunnerMutes(g: nat) | RunnerDrains(g: nat)
    | RunnerCloses(g: nat, fails: bool) | RunnerStopsProcessor(g: nat) | RunnerAwaitsProcessor(g: nat) | RunnerFinishes(g: nat)
    // closeEndpointOnContext
    | WatcherMarks(g: nat) | WatcherMutes(g: nat) | WatcherCloses(g: nat, fails: bool) | WatcherLeaves(g: nat)
    // messages
    | Deliver(output: nat, message: Message, current: bool) | Take | FinishMessage(late: bool) | ProcessorExits

  /** closeOnce: only the first call closes the endpoint. */
  function CloseOnce(gen: Generation, fails: bool): Generation {
    if gen.closes > 0 then gen else gen.(closes := 1, closeFailed := fails)
  }

  function Problems(failed: bool, problem: Problem): set<Problem> {
    if failed then {problem} else {}
  }

  function SetGen(s: State, g: nat, gen: Generation): State
    requires g < |s.gens|
  {
    s.(gens := s.gens[g := gen])
  }

  /** finishEndpointRun */
  function Finish(s: State, g: nat, result: set<Problem>): State
    requires g < |s.gens|
  {
    SetGen(s, g, s.gens[g].(cancelled := true, result := result, done := true)).(
      endpointRun := if s.endpointRun == Some(g) then None else s.endpointRun)
  }

  function SignalProcessor(s: State): State {
    if s.processor.Processor? && s.processor.registered
    then s.(processor := s.processor.(registered := false, cancelled := true)) else s
  }

  predicate TakesProcessor(s: State) {
    s.processor.Processor? && s.processor.registered
  }

  /** The run Stop works on: the current one, or else the last one. */
  function StopTarget(s: State): Option<nat> {
    if s.endpointRun.Some? then s.endpointRun else s.lastRun
  }

  predicate InRange(s: State, run: Option<nat>) {
    run.Some? ==> run.value < |s.gens|
  }

  predicate StartEnabled(s: State, step: Step) {
    match step
    case BeginStart => s.op.NoOp?
    case CreateGeneration => s.op.StartBegun?
    case EndpointStarts(ok) => s.op.Starting?
    case GoLive => s.op.StartReturned? && s.op.g < |s.gens|
    case CloseUnstarted(fails) => s.op.StartFailing? && s.op.g < |s.gens|
    case FinishUnstarted => s.op.StartFailed? && s.op.g < |s.gens|
    case _ => false
  }

  function NewGeneration(s: State): State {
    s.(gens := s.gens + [Generation(s.installed, false, false, 0, false, false, {}, NotRunning, NotWatching, 0)],
       endpointRun := Some(|s.gens|), lastRun := Some(|s.gens|), op := Starting(|s.gens|))
  }

  /** output.activate, startMessageProcessor and the two goroutines. */
  function Activate(s: State, g: nat): State
    requires g < |s.gens|
  {
    SetGen(s, g, s.gens[g].(runner := Live, watcher := Waiting)).(
      active := s.active + {s.gens[g].output}, op := NoOp,
      processor := if TakesProcessor(s) then s.processor else Processor(g, true, false))
  }

  function ApplyStart(s: State, step: Step): State
    requires StartEnabled(s, step)
  {
    match step
    case BeginStart => s.(op := StartBegun)
    case CreateGeneration => if s.endpointRun.Some? then s.(op := NoOp) else NewGeneration(s)
    case EndpointStarts(ok) => s.(op := if ok then StartReturned(s.op.g) else StartFailing(s.op.g, {StartError}))
    case GoLive =>
      if s.gens[s.op.g].stopping || s.gens[s.op.g].cancelled || s.endpointRun != Some(s.op.g)
      then s.(op := StartFailing(s.op.g, {}))
      else Activate(s, s.op.g)
    case CloseUnstarted(fails) =>
      var gen := CloseOnce(s.gens[s.op.g], fails);
      var cause := if s.op.problems == {} then Problems(gen.cancelled, Cancelled) else s.op.problems;
      SetGen(s, s.op.g, gen).(op := StartFailed(s.op.g, cause + Problems(gen.closeFailed, CloseError)))
    case FinishUnstarted => Finish(s, s.op.g, s.op.problems).(op := NoOp)
  }

  predicate StopEnabled(s: State, step: Step) {
    match step
    case BeginStop(update) => s.op.NoOp?
    case MarkCurrent => s.op.StopBegun? && InRange(s, StopTarget(s))
    case MuteCurrent => s.op.StopMarked?
    case CloseCurrent(fails) => s.op.StopMuted? && InRange(s, s.op.run)
    case AwaitDone => s.op.StopClosed? && InRange(s, s.op.run) && (s.op.run.Some? ==> s.gens[s.op.run.value].done)
    case StopProcessor => s.op.StopWaited?
    case AwaitProcessor => s.op.StopAwaiting? && (s.op.waits ==> s.processor.NoProcessor?)
    case Install => s.op.Installing?
    case _ => false
  }

  function ApplyStop(s: State, step: Step): State
    requires StopEnabled(s, step)
  {
    match step
    case BeginStop(update) => s.(op := StopBegun(update))
    case MarkCurrent =>
      var run := StopTarget(s);
      var marked := s.(op := StopMarked(s.op.update, run));
      if run.Some? then SetGen(marked, run.value, s.gens[run.value].(stopping := true, cancelled := true)) else marked
    case MuteCurrent => s.(active := s.active - {s.installed}, op := StopMuted(s.op.update, s.op.run))
    case CloseCurrent(fails) =>
      var closed := s.(op := StopClosed(s.op.update, s.op.run));
      if s.op.run.Some? then SetGen(closed, s.op.run.value, CloseOnce(s.gens[s.op.run.value], fails)) else closed
    case AwaitDone => s.(op := StopWaited(s.op.update))
    case StopProcessor => SignalProcessor(s).(op := StopAwaiting(s.op.update, TakesProcessor(s)))
    case AwaitProcessor => s.(op := if s.op.update then Installing else NoOp)
    case Install => s.(installed := s.installed + 1, lastRun := None, op := NoOp)
  }

  predicate CancelEnabled(s: State, step: Step) {
    match step
    case CancelCurrent => s.endpointRun.Some? && InRange(s, s.endpointRun)
    case MuteCancelled(g) => g in s.mutes && g < |s.gens|
    case CancelContext(g) => g < |s.gens|
    case _ => false
  }

  function ApplyCancel(s: State, step: Step): State
    requires CancelEnabled(s, step)
  {
    match step
    case CancelCurrent =>
      var g := s.endpointRun.value;
      SetGen(s, g, s.gens[g].(stopping := true, cancelled := true)).(mutes := s.mutes + multiset{g})
    case MuteCancelled(g) => s.(active := s.active - {s.gens[g].output}, mutes := s.mutes - multiset{g})
    case CancelContext(g) => SetGen(s, g, s.gens[g].(cancelled := true))
  }

  predicate RunnerEnabled(s: State, step: Step) {
    match step
    case RunReturns(g, failed) => g < |s.gens| && s.gens[g].runner.Live?
    case RunnerMarks(g) => g < |s.gens| && s.gens[g].runner.Returned?
    case RunnerMutes(g) => g < |s.gens| && s.gens[g].runner.Marked?
    case RunnerDrains(g) => g < |s.gens| && s.gens[g].runner.Muted? && (s.gens[g].cancelled || s.flow.waitGroup == 0)
    case RunnerCloses(g, fails) => g < |s.gens| && s.gens[g].runner.Drained?
    case RunnerStopsProcessor(g) => g < |s.gens| && s.gens[g].runner.Closed?
    case RunnerAwaitsProcessor(g) =>
      g < |s.gens| && s.gens[g].runner.Stopping? && (s.gens[g].runner.waits ==> s.processor.NoProcessor?)
    case RunnerFinishes(g) => g < |s.gens| && s.gens[g].runner.Stopped?
    case _ => false
  }

  /** A run that was cancelled reports only its close error. */
  function RunResult(gen: Generation): set<Problem>
    requires gen.runner.Stopped?
  {
    Problems(gen.closeFailed, CloseError) + if gen.cancelled then {} else Problems(gen.runner.failed, RunError)
  }

  function ApplyRunner(s: State, step: Step): State
    requires RunnerEnabled(s, step)
  {
    var gen := s.gens[step.g];
    match step
    case RunReturns(g, failed) => SetGen(s, g, gen.(runner := Returned(failed)))
    case RunnerMarks(g) => SetGen(s, g, gen.(runner := Marked(gen.runner.failed), stopping := true))
    case RunnerMutes(g) => SetGen(s, g, gen.(runner := Muted(gen.runner.failed))).(active := s.active - {gen.output})
    case RunnerDrains(g) => SetGen(s, g, gen.(runner := Drained(gen.runner.failed, !gen.cancelled)))
    case RunnerCloses(g, fails) =>
      SetGen(s, g, CloseOnce(gen, fails).(runner := Closed(gen.runner.failed, gen.runner.clean)))
    case RunnerStopsProcessor(g) =>
      SignalProcessor(SetGen(s, g, gen.(runner := Stopping(gen.runner.failed, gen.runner.clean, TakesProcessor(s)))))
    case RunnerAwaitsProcessor(g) => SetGen(s, g, gen.(runner := Stopped(gen.runner.failed, gen.runner.clean)))
    case RunnerFinishes(g) =>
      Finish(SetGen(s, g, gen.(runner := Ended(gen.runner.failed, gen.runner.clean))), g, RunResult(gen))
  }

  predicate WatcherEnabled(s: State, step: Step) {
    match step
    case WatcherMarks(g) => g < |s.gens| && s.gens[g].watcher.Waiting? && s.gens[g].cancelled
    case WatcherMutes(g) => g < |s.gens| && s.gens[g].watcher.WatcherMarked?
    case WatcherCloses(g, fails) => g < |s.gens| && s.gens[g].watcher.WatcherMuted?
    case WatcherLeaves(g) => g < |s.gens| && s.gens[g].watcher.Waiting? && s.gens[g].done
    case _ => false
  }

  function ApplyWatcher(s: State, step: Step): State
    requires WatcherEnabled(s, step)
  {
    var gen := s.gens[step.g];
    match step
    case WatcherMarks(g) => SetGen(s, g, gen.(watcher := WatcherMarked, stopping := true))
    case WatcherMutes(g) => SetGen(s, g, gen.(watcher := WatcherMuted)).(active := s.active - {gen.output})
    case WatcherCloses(g, fails) => SetGen(s, g, CloseOnce(gen, fails).(watcher := Left))
    case WatcherLeaves(g) => SetGen(s, g, gen.(watcher := Left))
  }

  predicate FlowEnabled(s: State, step: Step) {
    match step
    case Deliver(output, message, current) => output in s.active
    case Take => s.processor.Processor? && s.flow.inFlight.None? && s.flow.queued != []
    case FinishMessage(late) => s.processor.Processor? && s.flow.inFlight.Some?
    case ProcessorExits =>
      && s.processor.Processor? && s.processor.g < |s.gens| && s.flow.inFlight.None?
      && (s.processor.cancelled || s.gens[s.processor.g].cancelled)
    case _ => false
  }

  /** HandleMessage: without a processor the caller processes the message itself. */
  function Offer(s: State, message: Message, current: bool): Flow {
    var flow := s.flow.(offered := s.flow.offered + 1);
    if !TakesProcessor(s) then flow.(direct := flow.direct + 1)
    else if current then
      flow.(queued := flow.queued + [message], accepted := flow.accepted + [message], waitGroup := flow.waitGroup + 1)
    else flow.(rejected := flow.rejected + 1)
  }

  function ApplyFlow(s: State, step: Step): State
    requires FlowEnabled(s, step)
  {
    var flow := s.flow;
    match step
    case Deliver(output, message, current) => s.(flow := Offer(s, message, current))
    case Take => s.(flow := flow.(queued := flow.queued[1..], inFlight := Some(flow.queued[0])))
    case FinishMessage(late) =>
      s.(flow := flow.(
           inFlight := None, waitGroup := flow.waitGroup - 1, gone := flow.gone + [flow.inFlight.value],
           processed := flow.processed + if late then 0 else 1, stale := flow.stale + if late then 1 else 0))
    case ProcessorExits =>
      var g := s.processor.g;
      SetGen(s, g, s.gens[g].(lost := s.gens[g].lost + |flow.queued|)).(
        processor := NoProcessor,
        flow := flow.(
                queued := [], waitGroup := flow.waitGroup - |flow.queued|, gone := flow.gone + flow.queued,
                discarded := flow.discarded + |flow.queued|))
  }

  predicate Enabled(s: State, step: Step) {
    || StartEnabled(s, step) || StopEnabled(s, step) || CancelEnabled(s, step)
    || RunnerEnabled(s, step) || WatcherEnabled(s, step) || FlowEnabled(s, step)
  }

  function Apply(s: State, step: Step): State
    requires Enabled(s, step)
  {
    if StartEnabled(s, step) then ApplyStart(s, step)
    else if StopEnabled(s, step) then ApplyStop(s, step)
    else if CancelEnabled(s, step) then ApplyCancel(s, step)
    else if RunnerEnabled(s, step) then ApplyRunner(s, step)
    else if WatcherEnabled(s, step) then ApplyWatcher(s, step)
    else ApplyFlow(s, step)
  }

  /** Whether these steps can be taken one after the other. */
  predicate IsRun(s: State, steps: seq<Step>)
    decreases |steps|
  {
    steps == [] || (Enabled(s, steps[0]) && IsRun(Apply(s, steps[0]), steps[1..]))
  }

  /** Where they lead. */
  function After(s: State, steps: seq<Step>): State
    requires IsRun(s, steps)
    decreases |steps|
  {
    if steps == [] then s else After(Apply(s, steps[0]), steps[1..])
  }
}
