/** The concurrent part of the scan executor (internal/scanexec/executor.go): one producer on an
    unbuffered jobs channel, k workers, a results channel that holds n results, and the collector.
    Every interleaving is a run of the transition system below. */
module Dispatch {
  import opened ScanScope

  /** What the plan asks for, with the reply each scope's BatchScan gives. */
  datatype Plan = Plan(scopes: seq<string>, replies: seq<Reply>, workers: nat) {
    predicate Valid() {
      |replies| == |scopes| && 0 < workers <= |scopes|
    }
  }

  datatype Worker = Idle | Scanning(index: nat) | Sending(index: nat, result: ScopeResult) | Exited

  datatype Indexed = Indexed(index: nat, result: ScopeResult)

  datatype Phase = Collecting | Done | Panicked

  datatype State = State(
    next: nat,                    // the producer's loop index
    jobsClosed: bool,
    workers: seq<Worker>,
    buffer: seq<Indexed>,         // the results channel, oldest first
    resultsClosed: bool,
    collected: seq<ScopeResult>,  // the collector's slice
    received: seq<nat>,           // the indices the collector has received
    phase: Phase)

  datatype Step =
    | HandOff(worker: nat) | Scan(worker: nat) | Send(worker: nat) | CloseJobs | Exit(worker: nat)
    | CloseResults | Receive | Finish

  function Start(plan: Plan): State {
    State(0, false, seq(plan.workers, _ => Idle), [], false, seq(|plan.scopes|, _ => ZERO), [], Collecting)
  }

  predicate Enabled(plan: Plan, s: State, step: Step) {
    match step
    case HandOff(w) => w < |s.workers| && s.workers[w].Idle? && s.next < |plan.scopes| && !s.jobsClosed
    case Scan(w) => w < |s.workers| && s.workers[w].Scanning?
    case Send(w) =>
      // A send on a closed channel does not block: it panics.
      w < |s.workers| && s.workers[w].Sending? && (|s.buffer| < |plan.scopes| || s.resultsClosed)
    case CloseJobs => s.next == |plan.scopes| && !s.jobsClosed
    case Exit(w) => w < |s.workers| && s.workers[w].Idle? && s.jobsClosed
    case CloseResults =>
      s.jobsClosed && !s.resultsClosed && forall w :: 0 <= w < |s.workers| ==> s.workers[w].Exited?
    case Receive => s.phase.Collecting? && s.buffer != []
    case Finish => s.phase.Collecting? && s.buffer == [] && s.resultsClosed
  }

  function Apply(plan: Plan, s: State, step: Step): State
    requires plan.Valid() && Enabled(plan, s, step)
  {
    match step
    case HandOff(w) => s.(workers := s.workers[w := Scanning(s.next)], next := s.next + 1)
    case Scan(w) =>
      var i := s.workers[w].index;
      if i >= |plan.scopes| then s.(phase := Panicked)
      else s.(workers := s.workers[w := Sending(i, ScanOne(plan.scopes[i], plan.replies[i]))])
    case Send(w) =>
      if s.resultsClosed then s.(phase := Panicked)
      else s.(buffer := s.buffer + [Indexed(s.workers[w].index, s.workers[w].result)],
              workers := s.workers[w := Idle])
    case CloseJobs => s.(jobsClosed := true)
    case Exit(w) => s.(workers := s.workers[w := Exited])
    case CloseResults => s.(resultsClosed := true)
    case Receive =>
      var r := s.buffer[0];
      // The collector asserts that the index is within the plan.
      if r.index >= |plan.scopes| || r.index >= |s.collected| then s.(phase := Panicked)
      else s.(buffer := s.buffer[1..], received := s.received + [r.index],
              collected := s.collected[r.index := r.result])
    case Finish =>
      // The collector asserts that every scope has a result, filed under its own scope.
      s.(phase := if |s.received| == |plan.scopes| && FiledRight(plan, s.collected) then Done else Panicked)
  }

  predicate FiledRight(plan: Plan, collected: seq<ScopeResult>) {
    |collected| == |plan.scopes|
    && forall i :: 0 <= i < |collected| ==> collected[i].scope == plan.scopes[i]
  }

  // ---------------------------------------------------------------- where each index is

  /** What a worker contributes to a sum over the workers: whether it holds index i, whether it
      holds any index, and the steps it has left. */
  datatype Tally = Holds(i: nat) | Busy | StepsLeft

  function Share(w: Worker, t: Tally): nat {
    match w
    case Exited => 0
    case Idle => if t.StepsLeft? then 1 else 0
    case Sending(j, _) => if t.StepsLeft? then 3 else if t == Busy || t == Holds(j) then 1 else 0
    case Scanning(j) => if t.StepsLeft? then 4 else if t == Busy || t == Holds(j) then 1 else 0
  }

  function Sum(workers: seq<Worker>, t: Tally): nat {
    if workers == [] then 0 else Sum(workers[..|workers| - 1], t) + Share(workers[|workers| - 1], t)
  }

  function Indices(buffer: seq<Indexed>): seq<nat> {
    seq(|buffer|, i requires 0 <= i < |buffer| => buffer[i].index)
  }

  lemma {:induction false} SumUpdate(workers: seq<Worker>, w: nat, x: Worker, t: Tally)
    requires w < |workers|
    ensures Sum(workers[w := x], t) + Share(workers[w], t) == Sum(workers, t) + Share(x, t)
  {
    var last := |workers| - 1;
    var after := workers[w := x];
    if w == last {
      assert after[..last] == workers[..last];
    } else {
      assert after[..last] == workers[..last][w := x];
      SumUpdate(workers[..last], w, x, t);
    }
  }

  lemma {:induction false} ShareInSum(workers: seq<Worker>, w: nat, t: Tally)
    requires w < |workers|
    ensures Share(workers[w], t) <= Sum(workers, t)
  {
    var last := |workers| - 1;
    if w != last {
      ShareInSum(workers[..last], w, t);
    }
  }

  lemma {:induction false} SumOfZeros(workers: seq<Worker>, t: Tally)
    requires forall w :: 0 <= w < |workers| ==> Share(workers[w], t) == 0
    ensures Sum(workers, t) == 0
  {
    if workers != [] {
      SumOfZeros(workers[..|workers| - 1], t);
    }
  }

  /** How many of the places after dispatch index i is in: held, buffered or received. */
  function Places(s: State, i: nat): nat {
    Sum(s.workers, Holds(i)) + multiset(Indices(s.buffer))[i] + multiset(s.received)[i]
  }

  function Result(plan: Plan, i: nat): ScopeResult
    requires plan.Valid() && i < |plan.scopes|
  {
    ScanOne(plan.scopes[i], plan.replies[i])
  }

  /** Each dispatched index is in exactly one place, the others in none. */
  ghost predicate Accounted(s: State) {
    && (forall i: nat :: Places(s, i) == if i < s.next then 1 else 0)
    && Sum(s.workers, Busy) + |s.buffer| + |s.received| == s.next
  }

  ghost predicate Truthful(plan: Plan, s: State)
    requires plan.Valid()
  {
    && (forall w :: 0 <= w < |s.workers| && s.workers[w].Sending? ==>
          s.workers[w].index < |plan.scopes| && s.workers[w].result == Result(plan, s.workers[w].index))
    && (forall w :: 0 <= w < |s.workers| && s.workers[w].Scanning? ==> s.workers[w].index < |plan.scopes|)
    && (forall j :: 0 <= j < |s.buffer| ==>
          s.buffer[j].index < |plan.scopes| && s.buffer[j].result == Result(plan, s.buffer[j].index))
    && |s.collected| == |plan.scopes|
    && (forall i :: i in s.received ==> i < |plan.scopes| && s.collected[i] == Result(plan, i))
  }

  ghost predicate Inv(plan: Plan, s: State)
    requires plan.Valid()
  {
    && |s.workers| == plan.workers
    && s.next <= |plan.scopes|
    && Accounted(s)
    && Truthful(plan, s)
    && (s.jobsClosed ==> s.next == |plan.scopes|)
    && (forall w :: 0 <= w < |s.workers| && s.workers[w].Exited? ==> s.jobsClosed)
    && (s.resultsClosed ==> s.jobsClosed && forall w :: 0 <= w < |s.workers| ==> s.workers[w].Exited?)
    && !s.phase.Panicked?
    && (s.phase.Done? ==> s.resultsClosed && s.buffer == [])
  }

  lemma StartInv(plan: Plan)
    requires plan.Valid()
    ensures Inv(plan, Start(plan))
  {
    var s := Start(plan);
    SumOfZeros(s.workers, Busy);
    forall i: nat ensures Places(s, i) == 0 {
      SumOfZeros(s.workers, Holds(i));
    }
  }

  /** A worker that has a result to send never finds the results channel full or closed. */
  lemma SendNeverBlocks(plan: Plan, s: State, w: nat)
    requires plan.Valid() && Inv(plan, s) && w < |s.workers| && s.workers[w].Sending?
    ensures |s.buffer| < |plan.scopes| && !s.resultsClosed
  {
    ShareInSum(s.workers, w, Busy);
  }

  lemma AccountedHandOff(s: State, w: nat)
    requires Accounted(s) && w < |s.workers| && s.workers[w].Idle?
    ensures Accounted(s.(workers := s.workers[w := Scanning(s.next)], next := s.next + 1))
  {
    var t := s.(workers := s.workers[w := Scanning(s.next)], next := s.next + 1);
    SumUpdate(s.workers, w, Scanning(s.next), Busy);
    forall i: nat ensures Places(t, i) == if i < t.next then 1 else 0 {
      SumUpdate(s.workers, w, Scanning(s.next), Holds(i));
      assert Places(s, i) == if i < s.next then 1 else 0;
    }
  }

  lemma AccountedSwap(s: State, w: nat, x: Worker)
    requires Accounted(s) && w < |s.workers|
    requires forall i: nat :: Share(s.workers[w], Holds(i)) == Share(x, Holds(i))
    requires Share(s.workers[w], Busy) == Share(x, Busy)
    ensures Accounted(s.(workers := s.workers[w := x]))
  {
    var t := s.(workers := s.workers[w := x]);
    SumUpdate(s.workers, w, x, Busy);
    forall i: nat ensures Places(t, i) == Places(s, i) {
      SumUpdate(s.workers, w, x, Holds(i));
    }
  }

  lemma AccountedSend(s: State, w: nat)
    requires Accounted(s) && w < |s.workers| && s.workers[w].Sending?
    ensures var r := Indexed(s.workers[w].index, s.workers[w].result);
      Accounted(s.(buffer := s.buffer + [r], workers := s.workers[w := Idle]))
  {
    var r := Indexed(s.workers[w].index, s.workers[w].result);
    var t := s.(buffer := s.buffer + [r], workers := s.workers[w := Idle]);
    SumUpdate(s.workers, w, Idle, Busy);
    assert Indices(t.buffer) == Indices(s.buffer) + [r.index];
    forall i: nat ensures Places(t, i) == Places(s, i) {
      SumUpdate(s.workers, w, Idle, Holds(i));
    }
  }

  lemma AccountedReceive(s: State, collected: seq<ScopeResult>)
    requires Accounted(s) && s.buffer != []
    ensures Accounted(s.(buffer := s.buffer[1..], received := s.received + [s.buffer[0].index], collected := collected))
  {
    var t := s.(buffer := s.buffer[1..], received := s.received + [s.buffer[0].index], collected := collected);
    assert Indices(s.buffer) == [s.buffer[0].index] + Indices(t.buffer);
    forall i: nat ensures Places(t, i) == Places(s, i) {
    }
  }

  lemma AccountedSame(s: State, t: State)
    requires Accounted(s)
    requires t.workers == s.workers && t.buffer == s.buffer && t.received == s.received && t.next == s.next
    ensures Accounted(t)
  {
    forall i: nat ensures Places(t, i) == Places(s, i) {
    }
  }

  lemma InvHandOff(plan: Plan, s: State, w: nat)
    requires plan.Valid() && Inv(plan, s) && Enabled(plan, s, HandOff(w))
    ensures Inv(plan, Apply(plan, s, HandOff(w)))
  {
    AccountedHandOff(s, w);
  }

  lemma InvScan(plan: Plan, s: State, w: nat)
    requires plan.Valid() && Inv(plan, s) && Enabled(plan, s, Scan(w))
    ensures Inv(plan, Apply(plan, s, Scan(w)))
  {
    var i := s.workers[w].index;
    AccountedSwap(s, w, Sending(i, Result(plan, i)));
  }

  lemma InvSend(plan: Plan, s: State, w: nat)
    requires plan.Valid() && Inv(plan, s) && Enabled(plan, s, Send(w))
    ensures Inv(plan, Apply(plan, s, Send(w)))
  {
    SendNeverBlocks(plan, s, w);
    AccountedSend(s, w);
  }

  lemma InvExit(plan: Plan, s: State, w: nat)
    requires plan.Valid() && Inv(plan, s) && Enabled(plan, s, Exit(w))
    ensures Inv(plan, Apply(plan, s, Exit(w)))
  {
    AccountedSwap(s, w, Exited);
  }

  lemma InvReceive(plan: Plan, s: State)
    requires plan.Valid() && Inv(plan, s) && Enabled(plan, s, Receive)
    ensures Inv(plan, Apply(plan, s, Receive))
  {
    AccountedReceive(s, Apply(plan, s, Receive).collected);
  }

  /** The collector's closing assertions hold: every result is there, under its own scope. */
  lemma FinishesComplete(plan: Plan, s: State)
    requires plan.Valid() && Inv(plan, s) && s.buffer == [] && s.resultsClosed
    ensures |s.received| == |plan.scopes|
    ensures forall i :: 0 <= i < |plan.scopes| ==> i in s.received
    ensures FiledRight(plan, s.collected)
  {
    SumOfZeros(s.workers, Busy);
    forall i: nat | i < |plan.scopes| ensures i in s.received {
      SumOfZeros(s.workers, Holds(i));
      assert Places(s, i) == 1;
    }
  }

  lemma InvStep(plan: Plan, s: State, step: Step)
    requires plan.Valid() && Inv(plan, s) && Enabled(plan, s, step)
    ensures Inv(plan, Apply(plan, s, step))
  {
    match step
    case HandOff(w) => InvHandOff(plan, s, w);
    case Scan(w) => InvScan(plan, s, w);
    case Send(w) => InvSend(plan, s, w);
    case CloseJobs => AccountedSame(s, Apply(plan, s, step));
    case Exit(w) => InvExit(plan, s, w);
    case CloseResults => AccountedSame(s, Apply(plan, s, step));
    case Receive => InvReceive(plan, s);
    case Finish =>
      FinishesComplete(plan, s);
      AccountedSame(s, Apply(plan, s, step));
  }

  // ---------------------------------------------------------------- progress and termination

  function Measure(plan: Plan, s: State): int {
    4 * (|plan.scopes| - s.next) + Sum(s.workers, StepsLeft) + |s.buffer|
    + (if s.jobsClosed then 0 else 1) + (if s.resultsClosed then 0 else 1) + (if s.phase.Collecting? then 1 else 0)
  }

  lemma MeasureFalls(plan: Plan, s: State, step: Step)
    requires plan.Valid() && Inv(plan, s) && Enabled(plan, s, step)
    ensures 0 <= Measure(plan, Apply(plan, s, step)) < Measure(plan, s)
  {
    InvStep(plan, s, step);
    match step
    case HandOff(w) => SumUpdate(s.workers, w, Scanning(s.next), StepsLeft);
    case Scan(w) => SumUpdate(s.workers, w, Sending(s.workers[w].index, Result(plan, s.workers[w].index)), StepsLeft);
    case Send(w) => SumUpdate(s.workers, w, Idle, StepsLeft);
    case Exit(w) => SumUpdate(s.workers, w, Exited, StepsLeft);
    case _ =>
  }

  /** No deadlock: until the collector is done, something can happen. */
  lemma Progress(plan: Plan, s: State) returns (step: Step)
    requires plan.Valid() && Inv(plan, s) && s.phase.Collecting?
    ensures Enabled(plan, s, step)
  {
    if s.buffer != [] {
      step := Receive;
    } else if s.resultsClosed {
      step := Finish;
    } else if w :| 0 <= w < |s.workers| && s.workers[w].Scanning? {
      step := Scan(w);
    } else if w :| 0 <= w < |s.workers| && s.workers[w].Sending? {
      step := Send(w);
    } else if s.next < |plan.scopes| {
      assert s.workers[0].Idle?;
      step := HandOff(0);
    } else if !s.jobsClosed {
      step := CloseJobs;
    } else if w :| 0 <= w < |s.workers| && s.workers[w].Idle? {
      step := Exit(w);
    } else {
      step := CloseResults;
    }
  }

  // ---------------------------------------------------------------- runs

  /** A run: the states reached by some interleaving from the start, in order. */
  ghost predicate IsRun(plan: Plan, run: seq<State>)
    requires plan.Valid()
  {
    && run != [] && run[0] == Start(plan)
    && forall i :: 0 <= i < |run| - 1 ==> Follows(plan, run[i], run[i + 1])
  }

  ghost predicate Follows(plan: Plan, s: State, t: State)
    requires plan.Valid()
  {
    exists step :: Enabled(plan, s, step) && t == Apply(plan, s, step)
  }

  ghost predicate Stuck(plan: Plan, s: State) {
    forall step :: !Enabled(plan, s, step)
  }

  function ScanAll(plan: Plan): seq<ScopeResult>
    requires plan.Valid()
  {
    seq(|plan.scopes|, i requires 0 <= i < |plan.scopes| => Result(plan, i))
  }

  lemma FollowsInv(plan: Plan, s: State, t: State)
    requires plan.Valid() && Inv(plan, s) && Follows(plan, s, t)
    ensures Inv(plan, t) && 0 <= Measure(plan, t) < Measure(plan, s)
  {
    var step :| Enabled(plan, s, step) && t == Apply(plan, s, step);
    InvStep(plan, s, step);
    MeasureFalls(plan, s, step);
  }

  lemma {:induction false} RunInv(plan: Plan, run: seq<State>, k: nat)
    requires plan.Valid() && IsRun(plan, run) && k < |run|
    ensures Inv(plan, run[k])
    ensures k <= Measure(plan, Start(plan)) - Measure(plan, run[k])
    decreases k
  {
    if k == 0 {
      StartInv(plan);
    } else {
      RunInv(plan, run, k - 1);
      assert Follows(plan, run[k - 1], run[k - 1 + 1]);
      FollowsInv(plan, run[k - 1], run[k]);
    }
  }

  lemma DoneHasAll(plan: Plan, s: State)
    requires plan.Valid() && Inv(plan, s) && s.phase.Done?
    ensures s.collected == ScanAll(plan)
  {
    FinishesComplete(plan, s);
  }

  /** In every state of every interleaving, each scope index is in exactly one place, the results
      channel holds at most n results, no worker is blocked on it, and no assertion has failed. */
  lemma SafeAlways(plan: Plan, run: seq<State>, k: nat, i: nat)
    requires plan.Valid() && IsRun(plan, run) && k < |run|
    ensures var s := run[k];
      && Places(s, i) == (if i < s.next then 1 else 0)
      && s.next <= |plan.scopes|
      && |s.buffer| <= |plan.scopes|
      && (i < |s.workers| && s.workers[i].Sending? ==> |s.buffer| < |plan.scopes| && !s.resultsClosed)
      && !s.phase.Panicked?
  {
    RunInv(plan, run, k);
    var s := run[k];
    assert Places(s, i) == if i < s.next then 1 else 0;
    if i < |s.workers| && s.workers[i].Sending? {
      SendNeverBlocks(plan, s, i);
    }
  }

  /** Whatever the interleaving, the executor stops within a fixed number of steps, and where no
      step is left the collector holds exactly what scanning the scopes one by one gives. */
  lemma EveryRunCollectsTheScan(plan: Plan, run: seq<State>)
    requires plan.Valid() && IsRun(plan, run)
    ensures |run| <= Measure(plan, Start(plan)) + 1
    ensures Stuck(plan, run[|run| - 1]) ==>
              run[|run| - 1].phase.Done? && run[|run| - 1].collected == ScanAll(plan)
  {
    RunInv(plan, run, |run| - 1);
    var s := run[|run| - 1];
    if s.phase.Collecting? {
      var step := Progress(plan, s);
    } else {
      DoneHasAll(plan, s);
    }
  }

  function Steps(workers: nat): set<Step> {
    {CloseJobs, CloseResults, Receive, Finish}
    + (set w: nat | w < workers :: HandOff(w)) + (set w: nat | w < workers :: Scan(w))
    + (set w: nat | w < workers :: Send(w)) + (set w: nat | w < workers :: Exit(w))
  }

  /** dispatchScopes and collectScopeResults under an arbitrary scheduler: whichever enabled step
      it picks each time, the collector ends with the sequential scan. */
  method DispatchAndCollect(plan: Plan) returns (collected: seq<ScopeResult>)
    requires plan.Valid()
    ensures collected == ScanAll(plan)
  {
    var s := Start(plan);
    StartInv(plan);
    while s.phase.Collecting?
      invariant Inv(plan, s)
      decreases Measure(plan, s)
    {
      ghost var possible := Progress(plan, s);
      assert possible in Steps(|s.workers|);
      var step :| step in Steps(|s.workers|) && Enabled(plan, s, step);
      InvStep(plan, s, step);
      MeasureFalls(plan, s, step);
      s := Apply(plan, s, step);
    }
    DoneHasAll(plan, s);
    collected := s.collected;
  }
}
