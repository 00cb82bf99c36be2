/**
 Querying all routes in parallel: workers, the goroutine that closes the
 channel, the collector and the context, as a step system over all schedules.
 */
module Collecting {
  import opened Text
  import opened RouteListing
  import opened Rollup
  import opened Pagination

  datatype Outcome = Listed(objects: seq<VirtualObject>) | Failed

  datatype RouteResult = RouteResult(routeIndex: nat, outcome: Outcome)

  /** A worker sends its one result, then tells the wait group that it is done. */
  datatype Worker = NotStarted | Running | Sent | Finished

  datatype Collector = Receiving | Returned | Aborted

  /** received is what the collector has taken from the channel, in that order. */
  datatype State = State(workers: seq<Worker>, launched: nat, waiting: nat, channel: seq<RouteResult>, closed: bool,
                         expired: bool, collector: Collector, received: seq<RouteResult>, panicked: bool)

  datatype Move =
    | Launch                           // wg.Add(1) and go, in route order
    | Send(worker: nat, outcome: Outcome)
    | Finish(worker: nat)              // the deferred wg.Done()
    | Close                            // wg.Wait() returned: close the channel
    | Receive
    | SeeClosed                        // the channel is closed and drained
    | Expire                           // the context ends, by timeout or by its parent
    | Abort                            // the collector takes the ctx.Done() branch

  function Start(n: nat): State {
    State(seq(n, _ => NotStarted), 0, 0, [], false, false, Receiving, [], false)
  }

  /** Once the context has expired, a worker's backend call may fail instead. */
  predicate MayYield(outcomes: seq<Outcome>, expired: bool, i: nat, o: Outcome)
    requires i < |outcomes|
  {
    o == outcomes[i] || (expired && o.Failed?)
  }

  /** A send blocks while the buffer, one slot a route, is full; sending on a closed channel panics instead. */
  predicate Enabled(s: State, outcomes: seq<Outcome>, m: Move)
    requires |s.workers| == |outcomes|
  {
    var n := |s.workers|;
    match m
    case Launch => s.launched < n
    case Send(i, o) =>
      i < n && s.workers[i] == Running && MayYield(outcomes, s.expired, i, o) && (s.closed || |s.channel| < n)
    case Finish(i) => i < n && s.workers[i] == Sent
    case Close => s.launched == n && s.waiting == 0 && !s.closed
    case Receive => s.launched == n && s.collector.Receiving? && s.channel != []
    case SeeClosed => s.launched == n && s.collector.Receiving? && s.channel == [] && s.closed
    case Expire => !s.expired
    case Abort => s.launched == n && s.collector.Receiving? && s.expired
  }

  function Next(s: State, outcomes: seq<Outcome>, m: Move): (t: State)
    requires |s.workers| == |outcomes| && Enabled(s, outcomes, m)
    ensures |t.workers| == |s.workers|
  {
    match m
    case Launch =>
      s.(workers := if s.launched < |s.workers| then s.workers[s.launched := Running] else s.workers,
         launched := s.launched + 1, waiting := s.waiting + 1)
    case Send(i, o) =>
      if s.closed then s.(panicked := true)
      else s.(workers := s.workers[i := Sent], channel := s.channel + [RouteResult(i, o)])
    case Finish(i) =>
      if s.waiting == 0 then s.(panicked := true)
      else s.(workers := s.workers[i := Finished], waiting := s.waiting - 1)
    case Close => s.(closed := true)
    case Receive => s.(channel := s.channel[1..], received := s.received + [s.channel[0]])
    case SeeClosed => s.(collector := Returned)
    case Expire => s.(expired := true)
    case Abort => s.(collector := Aborted)
  }

  /** The state after a schedule, or None if one of its moves was not possible. */
  function Run(s: State, outcomes: seq<Outcome>, moves: seq<Move>): (r: Option<State>)
    requires |s.workers| == |outcomes|
    ensures r.Some? ==> |r.value.workers| == |s.workers|
    decreases |moves|
  {
    if moves == [] then Some(s)
    else if !Enabled(s, outcomes, moves[0]) then None
    else Run(Next(s, outcomes, moves[0]), outcomes, moves[1..])
  }

  // ----- counting over workers -----

  predicate HasSent(w: Worker) { w == Sent || w == Finished }

  predicate Active(w: Worker) { w == Running || w == Sent }

  function Count(workers: seq<Worker>, p: Worker -> bool): (n: nat)
    ensures n <= |workers|
  {
    if workers == [] then 0
    else Count(workers[..|workers| - 1], p) + if p(workers[|workers| - 1]) then 1 else 0
  }

  lemma {:induction false} CountUpdate(workers: seq<Worker>, p: Worker -> bool, i: nat, w: Worker)
    requires i < |workers|
    ensures Count(workers[i := w], p) + (if p(workers[i]) then 1 else 0)
            == Count(workers, p) + if p(w) then 1 else 0
  {
    var n := |workers| - 1;
    if i < n {
      CountUpdate(workers[..n], p, i, w);
      assert workers[i := w][..n] == workers[..n][i := w];
    } else {
      assert workers[i := w][..n] == workers[..n];
    }
  }

  lemma {:induction false} CountBounds(workers: seq<Worker>, p: Worker -> bool, i: nat)
    requires i < |workers|
    ensures p(workers[i]) ==> Count(workers, p) > 0
    ensures !p(workers[i]) ==> Count(workers, p) < |workers|
  {
    var n := |workers| - 1;
    if i < n {
      CountBounds(workers[..n], p, i);
    }
  }

  lemma {:induction false} CountAll(workers: seq<Worker>, p: Worker -> bool)
    ensures (forall i :: 0 <= i < |workers| ==> p(workers[i])) ==> Count(workers, p) == |workers|
    ensures (forall i :: 0 <= i < |workers| ==> !p(workers[i])) ==> Count(workers, p) == 0
  {
    if workers != [] {
      CountAll(workers[..|workers| - 1], p);
    }
  }

  /** The sum of f over the workers that satisfy p. */
  function Tally<T>(workers: seq<Worker>, p: Worker -> bool, f: nat -> multiset<T>): multiset<T> {
    if workers == [] then multiset{}
    else
      var n := |workers| - 1;
      Tally(workers[..n], p, f) + if p(workers[n]) then f(n) else multiset{}
  }

  lemma {:induction false} TallySame<T>(workers: seq<Worker>, p: Worker -> bool, f: nat -> multiset<T>, i: nat,
                                        w: Worker)
    requires i < |workers| && p(w) == p(workers[i])
    ensures Tally(workers[i := w], p, f) == Tally(workers, p, f)
  {
    var n := |workers| - 1;
    if i < n {
      TallySame(workers[..n], p, f, i, w);
      assert workers[i := w][..n] == workers[..n][i := w];
    } else {
      assert workers[i := w][..n] == workers[..n];
    }
  }

  lemma {:induction false} TallyAdds<T>(workers: seq<Worker>, p: Worker -> bool, f: nat -> multiset<T>, i: nat,
                                        w: Worker)
    requires i < |workers| && p(w) && !p(workers[i])
    ensures Tally(workers[i := w], p, f) == Tally(workers, p, f) + f(i)
  {
    var n := |workers| - 1;
    if i < n {
      TallyAdds(workers[..n], p, f, i, w);
      assert workers[i := w][..n] == workers[..n][i := w];
      SumSwap(Tally(workers[..n], p, f), f(i), if p(workers[n]) then f(n) else multiset{});
    } else {
      assert workers[i := w][..n] == workers[..n];
    }
  }

  lemma SumSwap<T>(a: multiset<T>, b: multiset<T>, c: multiset<T>)
    ensures (a + b) + c == (a + c) + b
  {}

  function One(i: nat): multiset<nat> { multiset{i} }

  lemma {:induction false} TallyOne(workers: seq<Worker>, p: Worker -> bool, i: nat)
    ensures Tally(workers, p, One)[i] == if i < |workers| && p(workers[i]) then 1 else 0
  {
    if workers != [] {
      TallyOne(workers[..|workers| - 1], p, i);
    }
  }

  // ----- what the collector has and will get -----

  function Indices(results: seq<RouteResult>): multiset<nat> {
    if results == [] then multiset{} else multiset{results[0].routeIndex} + Indices(results[1..])
  }

  /** The concatenation that the collector builds from the successful results. */
  function AllObjects(results: seq<RouteResult>): seq<VirtualObject> {
    if results == [] then [] else ResultObjects(results[0]) + AllObjects(results[1..])
  }

  function FailureCount(results: seq<RouteResult>): nat {
    if results == [] then 0 else (if results[0].outcome.Failed? then 1 else 0) + FailureCount(results[1..])
  }

  function ObjectsOf(outcomes: seq<Outcome>): nat -> multiset<VirtualObject> {
    (i: nat) => if i < |outcomes| && outcomes[i].Listed? then multiset(outcomes[i].objects) else multiset{}
  }

  /** The objects of one result. */
  function ResultObjects(r: RouteResult): seq<VirtualObject> {
    match r.outcome case Listed(objects) => objects case Failed => []
  }

  lemma {:induction false} IndicesAppend(a: seq<RouteResult>, r: RouteResult)
    ensures Indices(a + [r]) == Indices(a) + multiset{r.routeIndex}
  {
    if a == [] {
      assert a + [r] == [r] && [r][1..] == [];
    } else {
      assert (a + [r])[1..] == a[1..] + [r];
      IndicesAppend(a[1..], r);
    }
  }

  lemma {:induction false} ObjectsAppend(a: seq<RouteResult>, r: RouteResult)
    ensures AllObjects(a + [r]) == AllObjects(a) + ResultObjects(r)
  {
    if a == [] {
      assert a + [r] == [r] && [r][1..] == [];
    } else {
      assert (a + [r])[1..] == a[1..] + [r];
      ObjectsAppend(a[1..], r);
      Assoc(ResultObjects(a[0]), AllObjects(a[1..]), ResultObjects(r));
    }
  }

  lemma {:induction false} FailuresAppend(a: seq<RouteResult>, r: RouteResult)
    ensures FailureCount(a + [r]) == FailureCount(a) + if r.outcome.Failed? then 1 else 0
  {
    if a == [] {
      assert a + [r] == [r] && [r][1..] == [];
    } else {
      assert (a + [r])[1..] == a[1..] + [r];
      FailuresAppend(a[1..], r);
    }
  }

  /** Everything sent so far, in the order it was sent. */
  function Log(s: State): seq<RouteResult> { s.received + s.channel }

  ghost predicate Invariant(s: State, outcomes: seq<Outcome>) {
    && |s.workers| == |outcomes| && s.launched <= |s.workers| && !s.panicked
    && (forall i :: 0 <= i < |s.workers| ==> (s.workers[i] == NotStarted <==> i >= s.launched))
    && s.waiting == Count(s.workers, Active)
    && (s.closed ==> s.launched == |s.workers| && s.waiting == 0)
    && (s.collector.Returned? ==> s.closed && s.channel == [])
    && (s.collector.Aborted? ==> s.expired)
    && |Log(s)| == Count(s.workers, HasSent)
    && Indices(Log(s)) == Tally(s.workers, HasSent, One)
    && multiset(AllObjects(Log(s))) <= Tally(s.workers, HasSent, ObjectsOf(outcomes))
    && (!s.expired ==> multiset(AllObjects(Log(s))) == Tally(s.workers, HasSent, ObjectsOf(outcomes)))
  }

  lemma {:induction false} TallyNone<T>(n: nat, p: Worker -> bool, f: nat -> multiset<T>)
    requires !p(NotStarted)
    ensures Tally(seq(n, _ => NotStarted), p, f) == multiset{}
  {
    if n > 0 {
      TallyNone(n - 1, p, f);
      assert seq(n, _ => NotStarted)[..n - 1] == seq(n - 1, _ => NotStarted);
    }
  }

  lemma {:induction false} StartInvariant(outcomes: seq<Outcome>)
    ensures Invariant(Start(|outcomes|), outcomes)
  {
    CountAll(Start(|outcomes|).workers, Active);
    CountAll(Start(|outcomes|).workers, HasSent);
    TallyNone(|outcomes|, HasSent, One);
    TallyNone(|outcomes|, HasSent, ObjectsOf(outcomes));
  }

  /** A running worker finds the channel open and a free slot, whatever the collector does. */
  lemma {:induction false} SendIsSafe(s: State, outcomes: seq<Outcome>, i: nat)
    requires Invariant(s, outcomes) && i < |s.workers| && s.workers[i] == Running
    ensures !s.closed && |s.channel| < |s.workers|
  {
    CountBounds(s.workers, Active, i);
    CountBounds(s.workers, HasSent, i);
  }

  lemma {:induction false} LaunchStep(s: State, outcomes: seq<Outcome>)
    requires Invariant(s, outcomes) && Enabled(s, outcomes, Launch)
    ensures Invariant(Next(s, outcomes, Launch), outcomes)
  {
    hide Tally, Count, Indices, AllObjects;
    CountUpdate(s.workers, Active, s.launched, Running);
    CountUpdate(s.workers, HasSent, s.launched, Running);
    TallySame(s.workers, HasSent, One, s.launched, Running);
    TallySame(s.workers, HasSent, ObjectsOf(outcomes), s.launched, Running);
  }

  lemma {:induction false} SendStep(s: State, outcomes: seq<Outcome>, i: nat, o: Outcome)
    requires Invariant(s, outcomes) && Enabled(s, outcomes, Send(i, o))
    ensures Invariant(Next(s, outcomes, Send(i, o)), outcomes)
  {
    hide Tally, Count, Indices, AllObjects;
    SendIsSafe(s, outcomes, i);
    CountUpdate(s.workers, Active, i, Sent);
    CountUpdate(s.workers, HasSent, i, Sent);
    TallyAdds(s.workers, HasSent, One, i, Sent);
    TallyAdds(s.workers, HasSent, ObjectsOf(outcomes), i, Sent);
    var r := RouteResult(i, o);
    IndicesAppend(Log(s), r);
    ObjectsAppend(Log(s), r);
    assert Log(Next(s, outcomes, Send(i, o))) == Log(s) + [r];
  }

  lemma {:induction false} FinishStep(s: State, outcomes: seq<Outcome>, i: nat)
    requires Invariant(s, outcomes) && Enabled(s, outcomes, Finish(i))
    ensures Invariant(Next(s, outcomes, Finish(i)), outcomes)
  {
    hide Tally, Count, Indices, AllObjects;
    CountBounds(s.workers, Active, i);
    CountUpdate(s.workers, Active, i, Finished);
    CountUpdate(s.workers, HasSent, i, Finished);
    TallySame(s.workers, HasSent, One, i, Finished);
    TallySame(s.workers, HasSent, ObjectsOf(outcomes), i, Finished);
  }

  /** Every move keeps the invariant. */
  lemma {:induction false} StepInvariant(s: State, outcomes: seq<Outcome>, m: Move)
    requires Invariant(s, outcomes) && Enabled(s, outcomes, m)
    ensures Invariant(Next(s, outcomes, m), outcomes)
  {
    hide Tally, Count, Indices, AllObjects;
    if m.Launch? {
      LaunchStep(s, outcomes);
    } else if m.Send? {
      SendStep(s, outcomes, m.worker, m.outcome);
    } else if m.Finish? {
      FinishStep(s, outcomes, m.worker);
    } else if m.Receive? {
      assert Log(Next(s, outcomes, m)) == Log(s);
    }
  }

  lemma {:induction false} RunInvariant(s: State, outcomes: seq<Outcome>, moves: seq<Move>)
    requires Invariant(s, outcomes) && Run(s, outcomes, moves).Some?
    ensures Invariant(Run(s, outcomes, moves).value, outcomes)
    decreases |moves|
  {
    hide Invariant, Next, Enabled;
    if moves != [] {
      InvariantWorkers(s, outcomes);
      StepInvariant(s, outcomes, moves[0]);
      RunInvariant(Next(s, outcomes, moves[0]), outcomes, moves[1..]);
    }
  }

  lemma InvariantWorkers(s: State, outcomes: seq<Outcome>)
    requires Invariant(s, outcomes)
    ensures |s.workers| == |outcomes|
  {}

  /** Reached by some schedule from the start. */
  ghost predicate Reachable(s: State, outcomes: seq<Outcome>) {
    exists moves :: Run(Start(|outcomes|), outcomes, moves) == Some(s)
  }

  lemma {:induction false} ReachableInvariant(s: State, outcomes: seq<Outcome>)
    requires Reachable(s, outcomes)
    ensures Invariant(s, outcomes)
  {
    var moves :| Run(Start(|outcomes|), outcomes, moves) == Some(s);
    StartInvariant(outcomes);
    RunInvariant(Start(|outcomes|), outcomes, moves);
  }

  /**
   In every reachable state nothing has panicked, and a worker that is about to
   send finds the channel open and not full, also after the collector returned.
   */
  lemma {:induction false} NoPanicNoBlock(s: State, outcomes: seq<Outcome>, i: nat)
    requires Reachable(s, outcomes)
    ensures !s.panicked && |s.workers| == |outcomes|
    ensures i < |s.workers| && s.workers[i] == Running ==> !s.closed && |s.channel| < |s.workers|
  {
    ReachableInvariant(s, outcomes);
    if i < |s.workers| && s.workers[i] == Running {
      SendIsSafe(s, outcomes, i);
    }
  }

  /** All objects of the routes that succeed. */
  function Everything(outcomes: seq<Outcome>): multiset<VirtualObject> {
    Tally(seq(|outcomes|, _ => Finished), HasSent, ObjectsOf(outcomes))
  }

  /**
   When the collector returns normally it has exactly one result of every
   route, so the average over the route count is defined; if the context has not
   expired it has all objects, and if it has, none that no route listed.
   */
  lemma {:induction false} ReturnIsComplete(s: State, outcomes: seq<Outcome>, i: nat)
    requires Reachable(s, outcomes) && s.collector.Returned? && i < |outcomes|
    ensures |s.received| == |outcomes| && Indices(s.received)[i] == 1
    ensures multiset(AllObjects(s.received)) <= Everything(outcomes)
    ensures !s.expired ==> multiset(AllObjects(s.received)) == Everything(outcomes)
  {
    hide Tally, Indices, AllObjects;
    ReachableInvariant(s, outcomes);
    assert Log(s) == s.received;
    AllFinished(s, outcomes);
    CountAll(s.workers, HasSent);
    TallyOne(s.workers, HasSent, i);
  }

  lemma {:induction false} AllFinished(s: State, outcomes: seq<Outcome>)
    requires Invariant(s, outcomes) && s.closed
    ensures s.workers == seq(|outcomes|, _ => Finished)
    ensures forall w :: w in s.workers ==> HasSent(w)
  {
    hide Tally, Indices, AllObjects;
    forall i | 0 <= i < |s.workers|
      ensures s.workers[i] == Finished
    {
      CountBounds(s.workers, Active, i);
    }
  }

  /** Two schedules that end without expiry collect the same objects, in some order. */
  lemma {:induction false} ScheduleIndependent(s: State, t: State, outcomes: seq<Outcome>)
    requires outcomes != [] && Reachable(s, outcomes) && Reachable(t, outcomes)
    requires s.collector.Returned? && t.collector.Returned? && !s.expired && !t.expired
    ensures multiset(AllObjects(s.received)) == multiset(AllObjects(t.received))
  {
    hide Everything, AllObjects, Reachable;
    ReturnIsComplete(s, outcomes, 0);
    ReturnIsComplete(t, outcomes, 0);
  }

  /** So the merged listing, and with it every page, is the same for every schedule. */
  lemma {:induction false} SameListing(s: State, t: State, outcomes: seq<Outcome>, delimiter: string, prefix: string,
                                       a: seq<ResponseItem>, b: seq<ResponseItem>)
    requires outcomes != [] && Reachable(s, outcomes) && Reachable(t, outcomes)
    requires s.collector.Returned? && t.collector.Returned? && !s.expired && !t.expired
    requires IsMerged(a, FilterByPrefix(AllObjects(s.received), prefix), delimiter, prefix)
    requires IsMerged(b, FilterByPrefix(AllObjects(t.received), prefix), delimiter, prefix)
    ensures a == b
  {
    hide IsMerged, AllObjects, Reachable;
    ScheduleIndependent(s, t, outcomes);
    var x, y := AllObjects(s.received), AllObjects(t.received);
    FilterElements(x, prefix);
    FilterElements(y, prefix);
    forall o
      ensures o in x <==> o in y
    {
      assert o in x <==> o in multiset(x);
      assert o in y <==> o in multiset(y);
    }
    MergedUnique(a, b, FilterByPrefix(x, prefix), FilterByPrefix(y, prefix), delimiter, prefix);
  }

  // ----- every schedule ends -----

  predicate Ended(s: State) {
    && s.launched == |s.workers| && (forall i :: 0 <= i < |s.workers| ==> s.workers[i] == Finished)
    && s.closed && !s.collector.Receiving?
  }

  /** Until everything has ended some goroutine can move, without any help from the context. */
  lemma {:induction false} NoDeadlock(s: State, outcomes: seq<Outcome>) returns (m: Move)
    requires Reachable(s, outcomes) && !Ended(s)
    ensures |s.workers| == |outcomes| && Enabled(s, outcomes, m) && !m.Expire?
  {
    hide Tally, Count, Indices, AllObjects, Run;
    ReachableInvariant(s, outcomes);
    if s.launched < |s.workers| {
      m := Launch;
    } else if i :| 0 <= i < |s.workers| && s.workers[i] == Running {
      SendIsSafe(s, outcomes, i);
      m := Send(i, outcomes[i]);
    } else if i :| 0 <= i < |s.workers| && s.workers[i] == Sent {
      m := Finish(i);
    } else if !s.closed {
      CountAll(s.workers, Active);
      m := Close;
    } else if s.channel != [] && s.collector.Receiving? {
      m := Receive;
    } else {
      m := SeeClosed;
    }
  }

  function Weight(w: Worker): nat {
    match w case NotStarted => 4 case Running => 3 case Sent => 1 case Finished => 0
  }

  function TotalWeight(workers: seq<Worker>): nat {
    if workers == [] then 0 else TotalWeight(workers[..|workers| - 1]) + Weight(workers[|workers| - 1])
  }

  lemma {:induction false} WeightUpdate(workers: seq<Worker>, i: nat, w: Worker)
    requires i < |workers|
    ensures TotalWeight(workers[i := w]) + Weight(workers[i]) == TotalWeight(workers) + Weight(w)
  {
    var n := |workers| - 1;
    if i < n {
      WeightUpdate(workers[..n], i, w);
      assert workers[i := w][..n] == workers[..n][i := w];
    } else {
      assert workers[i := w][..n] == workers[..n];
    }
  }

  /** How much there is left to do. */
  function Measure(s: State): nat {
    TotalWeight(s.workers) + |s.channel| + (if s.closed then 0 else 1) + (if s.expired then 0 else 1)
    + if s.collector.Receiving? then 1 else 0
  }

  lemma {:induction false} StepDecreases(s: State, outcomes: seq<Outcome>, m: Move)
    requires Invariant(s, outcomes) && Enabled(s, outcomes, m)
    ensures Measure(Next(s, outcomes, m)) < Measure(s)
  {
    hide TotalWeight, Tally, Count, Indices, AllObjects;
    if m.Launch? {
      WeightUpdate(s.workers, s.launched, Running);
    } else if m.Send? {
      SendIsSafe(s, outcomes, m.worker);
      WeightUpdate(s.workers, m.worker, Sent);
    } else if m.Finish? {
      CountBounds(s.workers, Active, m.worker);
      WeightUpdate(s.workers, m.worker, Finished);
    }
  }

  lemma {:induction false} RunShrinks(s: State, outcomes: seq<Outcome>, moves: seq<Move>)
    requires Invariant(s, outcomes) && Run(s, outcomes, moves).Some?
    ensures |moves| <= Measure(s)
    decreases |moves|
  {
    hide Invariant, Next, Enabled, Measure;
    if moves != [] {
      InvariantWorkers(s, outcomes);
      StepInvariant(s, outcomes, moves[0]);
      StepDecreases(s, outcomes, moves[0]);
      RunShrinks(Next(s, outcomes, moves[0]), outcomes, moves[1..]);
    }
  }

  /** No schedule is longer than four moves a route and three more. */
  lemma {:induction false} SchedulesEnd(outcomes: seq<Outcome>, moves: seq<Move>)
    requires Run(Start(|outcomes|), outcomes, moves).Some?
    ensures |moves| <= 4 * |outcomes| + 3
  {
    StartInvariant(outcomes);
    RunShrinks(Start(|outcomes|), outcomes, moves);
    StartWeight(|outcomes|);
  }

  lemma {:induction false} StartWeight(n: nat)
    ensures TotalWeight(seq(n, _ => NotStarted)) == 4 * n
  {
    if n > 0 {
      StartWeight(n - 1);
      assert seq(n, _ => NotStarted)[..n - 1] == seq(n - 1, _ => NotStarted);
    }
  }

  // ----- the collector's loop body and its result -----

  /** The error says how many routes failed. */
  datatype CollectResult = Ok(objects: seq<VirtualObject>) | AllFailed(count: nat)

  /** What ProcessRoutesParallel makes of the results it received. */
  method Summarize(results: seq<RouteResult>) returns (r: CollectResult, routeCount: nat)
    ensures routeCount == |results|
    ensures r.AllFailed? <==> FailureCount(results) > 0 && AllObjects(results) == []
    ensures r.AllFailed? ==> r.count == FailureCount(results)
    ensures r.Ok? ==> r.objects == AllObjects(results)
  {
    var allObjects: seq<VirtualObject> := [];
    var errors := 0;
    routeCount := 0;
    assert results[..|results|] == results;
    for i := 0 to |results|
      invariant routeCount == i && allObjects == AllObjects(results[..i]) && errors == FailureCount(results[..i])
    {
      assert results[..i + 1] == results[..i] + [results[i]];
      ObjectsAppend(results[..i], results[i]);
      FailuresAppend(results[..i], results[i]);
      routeCount := routeCount + 1;
      match results[i].outcome {
        case Failed => errors := errors + 1;
        case Listed(objects) => allObjects := allObjects + objects;
      }
    }
    if errors > 0 && |allObjects| == 0 {
      return AllFailed(errors), routeCount;
    }
    r := Ok(allObjects);
  }
}
