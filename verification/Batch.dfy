/** `process_batch` of `backend/app/core/batch.py` as a transition system: a batch
    of tasks at a time, each task waiting for a shared semaphore, with a barrier
    between batches. Any waiting task may be the next to acquire and any running
    task the next to finish. */
module Batch {
  import opened Numbers

  /** One item: its task is not created yet, waits for the semaphore, runs, or
      has returned. */
  datatype Status<R> = NotStarted | Waiting | Running | Returned(value: R)

  datatype State<R> = State(
    start: nat,                // first item of the batch the loop is at
    gathering: bool,           // its tasks exist and are being awaited
    items: seq<Status<R>>,
    permits: nat,              // value of the semaphore
    results: seq<R>)

  datatype Config = Config(total: nat, batchSize: nat, maxConcurrent: nat)

  datatype Step<R> = Launch | Acquire(item: nat) | Finish(item: nat, value: R) | Collect

  /** `items[start : start + batch_size]` ends here. */
  function BatchEnd(c: Config, start: nat): nat {
    Min(start + c.batchSize, c.total)
  }

  function Initial<R>(c: Config): State<R> {
    State(0, false, seq(c.total, _ => NotStarted), c.maxConcurrent, [])
  }

  predicate InBatch<R>(c: Config, s: State<R>, i: nat) {
    s.gathering && s.start <= i < BatchEnd(c, s.start) && i < |s.items|
  }

  predicate Enabled<R>(c: Config, s: State<R>, step: Step<R>) {
    match step
    case Launch => !s.gathering && s.start < c.total
    case Acquire(i) => InBatch(c, s, i) && s.items[i].Waiting? && s.permits > 0
    case Finish(i, _) => InBatch(c, s, i) && s.items[i].Running?
    case Collect => s.gathering && s.start <= BatchEnd(c, s.start) <= |s.items|
                    && forall i :: s.start <= i < BatchEnd(c, s.start) ==> s.items[i].Returned?
  }

  /** What `gather` hands back: the values in the order of the awaitables. */
  function Gathered<R>(items: seq<Status<R>>, from: nat, end: nat): seq<R>
    requires from <= end <= |items| && forall i :: from <= i < end ==> items[i].Returned?
  {
    seq(end - from, n requires 0 <= n < end - from => items[from + n].value)
  }

  function Apply<R>(c: Config, s: State<R>, step: Step<R>): State<R>
    requires Enabled(c, s, step)
  {
    match step
    case Launch =>
      s.(gathering := true,
         items := seq(|s.items|, i requires 0 <= i < |s.items| =>
           if s.start <= i < BatchEnd(c, s.start) then Waiting else s.items[i]))
    case Acquire(i) => s.(items := s.items[i := Running], permits := s.permits - 1)
    case Finish(i, value) => s.(items := s.items[i := Returned(value)], permits := s.permits + 1)
    case Collect =>
      s.(gathering := false, start := s.start + c.batchSize,
         results := s.results + Gathered(s.items, s.start, BatchEnd(c, s.start)))
  }

  predicate Final<R>(c: Config, s: State<R>) {
    !s.gathering && s.start >= c.total
  }

  // ---------------------------------------------------------------- invariant

  function RunningItems<R>(items: seq<Status<R>>): set<nat> {
    set i: nat | i < |items| && items[i].Running?
  }

  ghost predicate Invariant<R>(c: Config, s: State<R>) {
    var done := Min(s.start, c.total);
    && |s.items| == c.total
    && s.permits + |RunningItems(s.items)| == c.maxConcurrent
    && (s.gathering ==> s.start < c.total)
    && |s.results| == done
    && (forall i :: 0 <= i < done ==> s.items[i] == Returned(s.results[i]))
    && (forall i :: done <= i < c.total && !(s.gathering && i < BatchEnd(c, s.start)) ==> s.items[i].NotStarted?)
    && (s.gathering ==> forall i :: s.start <= i < BatchEnd(c, s.start) ==> !s.items[i].NotStarted?)
  }

  lemma InitialInvariant<R>(c: Config)
    ensures Invariant(c, Initial<R>(c))
  {
    assert RunningItems(Initial<R>(c).items) == {};
  }

  lemma LaunchInvariant<R>(c: Config, s: State<R>)
    requires Invariant(c, s) && Enabled(c, s, Launch)
    ensures Invariant(c, Apply(c, s, Launch))
  {
    assert RunningItems(Apply(c, s, Launch).items) == RunningItems(s.items);
  }

  lemma OneMoreRuns<R>(items: seq<Status<R>>, i: nat)
    requires i < |items| && !items[i].Running?
    ensures |RunningItems(items[i := Running])| == |RunningItems(items)| + 1
  {
    var before, after := RunningItems(items), RunningItems(items[i := Running]);
    forall j ensures j in after <==> j in before || j == i {
    }
    assert after == before + {i};
  }

  lemma OneLessRuns<R>(items: seq<Status<R>>, i: nat, value: R)
    requires i < |items| && items[i].Running?
    ensures |RunningItems(items[i := Returned(value)])| == |RunningItems(items)| - 1
  {
    var before, after := RunningItems(items), RunningItems(items[i := Returned(value)]);
    forall j ensures j in after <==> j in before && j != i {
    }
    assert after == before - {i};
  }

  lemma AcquireInvariant<R>(c: Config, s: State<R>, i: nat)
    requires Invariant(c, s) && Enabled(c, s, Acquire(i))
    ensures Invariant(c, Apply(c, s, Acquire(i)))
  {
    OneMoreRuns(s.items, i);
  }

  lemma FinishInvariant<R>(c: Config, s: State<R>, i: nat, value: R)
    requires Invariant(c, s) && Enabled(c, s, Finish(i, value))
    ensures Invariant(c, Apply(c, s, Finish(i, value)))
  {
    OneLessRuns(s.items, i, value);
  }

  lemma StepInvariant<R>(c: Config, s: State<R>, step: Step<R>)
    requires Invariant(c, s) && Enabled(c, s, step)
    ensures Invariant(c, Apply(c, s, step))
  {
    match step
    case Launch => LaunchInvariant(c, s);
    case Acquire(i) => AcquireInvariant(c, s, i);
    case Finish(i, value) => FinishInvariant(c, s, i, value);
    case Collect =>
  }

  // ---------------------------------------------------------------------- runs

  /** The state after a sequence of steps, each enabled where it is taken. */
  predicate IsRun<R>(c: Config, steps: seq<Step<R>>) {
    steps == [] || (IsRun(c, steps[..|steps| - 1]) && Enabled(c, After(c, steps[..|steps| - 1]), steps[|steps| - 1]))
  }

  function After<R>(c: Config, steps: seq<Step<R>>): State<R> {
    if steps == [] then Initial(c)
    else
      var s := After(c, steps[..|steps| - 1]);
      var step := steps[|steps| - 1];
      if Enabled(c, s, step) then Apply(c, s, step) else s
  }

  lemma {:induction false} RunInvariant<R>(c: Config, steps: seq<Step<R>>)
    requires IsRun(c, steps)
    ensures Invariant(c, After(c, steps))
  {
    if steps == [] {
      InitialInvariant<R>(c);
    } else {
      RunInvariant(c, steps[..|steps| - 1]);
      StepInvariant(c, After(c, steps[..|steps| - 1]), steps[|steps| - 1]);
    }
  }

  lemma {:induction false} IntervalSize(s: set<nat>, from: nat, end: nat)
    requires from <= end && forall i :: i in s ==> from <= i < end
    ensures |s| <= end - from
    decreases end
  {
    if from < end {
      var s' := s - {end - 1};
      IntervalSize(s', from, end - 1);
      assert end - 1 in s ==> s == s' + {end - 1};
      assert end - 1 !in s ==> s == s';
    } else {
      assert s == {};
    }
  }

  /** In every reachable state no more items run than the smaller of the batch
      size and the concurrency limit. */
  lemma BoundedConcurrency<R>(c: Config, steps: seq<Step<R>>)
    requires IsRun(c, steps)
    ensures |RunningItems(After(c, steps).items)| <= Min(c.batchSize, c.maxConcurrent)
  {
    RunInvariant(c, steps);
    var s := After(c, steps);
    if s.gathering {
      IntervalSize(RunningItems(s.items), s.start, BatchEnd(c, s.start));
    } else {
      assert RunningItems(s.items) == {};
    }
  }

  /** The batches start at multiples of the batch size. */
  lemma {:induction false} StartsAtABatch<R>(c: Config, steps: seq<Step<R>>) returns (k: nat)
    requires IsRun(c, steps)
    ensures After(c, steps).start == k * c.batchSize
  {
    k := 0;
    if steps != [] {
      var front, last := steps[..|steps| - 1], steps[|steps| - 1];
      k := StartsAtABatch(c, front);
      StartMoves(c, After(c, front), last);
      if last.Collect? {
        assert (k + 1) * c.batchSize == k * c.batchSize + c.batchSize;
        k := k + 1;
      }
    }
  }

  lemma StartMoves<R>(c: Config, s: State<R>, step: Step<R>)
    requires Enabled(c, s, step)
    ensures Apply(c, s, step).start == s.start + if step.Collect? then c.batchSize else 0
  {
  }

  lemma MultiplesGrow(p: nat, q: nat, b: nat)
    requires p <= q
    ensures p * b <= q * b
  {
  }

  lemma EarlierBatch(i: nat, j: nat, k: nat, b: nat)
    requires b >= 1 && j / b < i / b && i < k * b + b
    ensures j < k * b
  {
    if i / b >= k + 1 {
      MultiplesGrow(k + 1, i / b, b);
    }
    MultiplesGrow(j / b + 1, k, b);
  }

  /** The barrier: when an item's task exists, every item of every earlier batch
      has already returned. */
  lemma Barrier<R>(c: Config, steps: seq<Step<R>>, i: nat, j: nat)
    requires IsRun(c, steps) && c.batchSize >= 1
    requires i < c.total && j < c.total && j / c.batchSize < i / c.batchSize
    ensures i < |After(c, steps).items| && j < |After(c, steps).items|
    ensures !After(c, steps).items[i].NotStarted? ==> After(c, steps).items[j].Returned?
  {
    RunInvariant(c, steps);
    var s := After(c, steps);
    if !s.items[i].NotStarted? {
      var k := StartsAtABatch(c, steps);
      if i >= s.start {
        EarlierBatch(i, j, k, c.batchSize);
      } else {
        assert j < i by {
          if j >= i {
            DivMonotone(i, j, c.batchSize);
          }
        }
      }
    }
  }

  lemma DivMonotone(a: nat, b: nat, d: nat)
    requires d >= 1 && a <= b
    ensures a / d <= b / d
  {
    if a / d > b / d {
      MultiplesGrow(b / d + 1, a / d, d);
    }
  }

  // ------------------------------------------------------- exactly once, in order

  function Acquires<R>(steps: seq<Step<R>>, i: nat): nat {
    if steps == [] then 0
    else Acquires(steps[..|steps| - 1], i)
         + var last := steps[|steps| - 1]; if last.Acquire? && last.item == i then 1 else 0
  }

  /** The values an item has returned with, in order. */
  function Returns<R>(steps: seq<Step<R>>, i: nat): seq<R> {
    if steps == [] then []
    else Returns(steps[..|steps| - 1], i)
         + var last := steps[|steps| - 1]; if last.Finish? && last.item == i then [last.value] else []
  }

  lemma {:induction false} StatusCountsRuns<R>(c: Config, steps: seq<Step<R>>, i: nat)
    requires IsRun(c, steps) && i < c.total
    ensures i < |After(c, steps).items|
    ensures match After(c, steps).items[i]
      case NotStarted => Acquires(steps, i) == 0 && Returns(steps, i) == []
      case Waiting => Acquires(steps, i) == 0 && Returns(steps, i) == []
      case Running => Acquires(steps, i) == 1 && Returns(steps, i) == []
      case Returned(value) => Acquires(steps, i) == 1 && Returns(steps, i) == [value]
  {
    RunInvariant(c, steps);
    if steps != [] {
      var front := steps[..|steps| - 1];
      StatusCountsRuns(c, front, i);
      RunInvariant(c, front);
    }
  }

  /** A complete run acquires the semaphore for each item once, each item returns
      once, and the result lists what each returned, in the order of the items. */
  lemma CompleteRunIsAnInOrderMap<R>(c: Config, steps: seq<Step<R>>)
    requires IsRun(c, steps) && Final(c, After(c, steps))
    ensures |After(c, steps).results| == c.total
    ensures forall i: nat ::
      i < c.total ==> Acquires(steps, i) == 1 && Returns(steps, i) == [After(c, steps).results[i]]
  {
    RunInvariant(c, steps);
    forall i: nat | i < c.total ensures Acquires(steps, i) == 1 && Returns(steps, i) == [After(c, steps).results[i]] {
      StatusCountsRuns(c, steps, i);
    }
  }

  // ------------------------------------------------------------------- progress

  function Rank<R>(s: Status<R>): nat {
    match s case NotStarted => 4 case Waiting => 2 case Running => 1 case Returned(_) => 0
  }

  function Work<R>(items: seq<Status<R>>): nat {
    if items == [] then 0 else Work(items[..|items| - 1]) + Rank(items[|items| - 1])
  }

  function Measure<R>(s: State<R>): nat {
    Work(s.items) + if s.gathering then 1 else 0
  }

  /** If no rank grows, the work does not grow, and it falls by what any one item
      falls. */
  lemma {:induction false} WorkFalls<R>(before: seq<Status<R>>, after: seq<Status<R>>, k: nat)
    requires |before| == |after| && k < |before|
    requires forall i :: 0 <= i < |before| ==> Rank(after[i]) <= Rank(before[i])
    ensures Work(before) - Rank(before[k]) >= Work(after) - Rank(after[k])
  {
    var b, a := before[..|before| - 1], after[..|after| - 1];
    if k < |b| {
      WorkFalls(b, a, k);
    } else if b != [] {
      WorkFalls(b, a, 0);
    }
  }

  /** Every step strictly decreases the measure, so every run is finite. */
  lemma EveryStepDecreases<R>(c: Config, s: State<R>, step: Step<R>)
    requires Invariant(c, s) && Enabled(c, s, step) && c.batchSize >= 1
    ensures Measure(Apply(c, s, step)) < Measure(s)
  {
    var s' := Apply(c, s, step);
    match step
    case Launch =>
      assert s.start < BatchEnd(c, s.start);
      assert s.items[s.start].NotStarted?;
      assert s' == Apply(c, s, Launch);
      assert s'.items[s.start].Waiting?;
      WorkFalls(s.items, s'.items, s.start);
    case Acquire(i) => WorkFalls(s.items, s'.items, i);
    case Finish(i, _) => WorkFalls(s.items, s'.items, i);
    case Collect =>
  }

  lemma WaitingOrRunning<R>(c: Config, s: State<R>)
    requires Invariant(c, s) && s.gathering && c.maxConcurrent >= 1 && !Enabled(c, s, Collect)
    ensures exists i: nat :: InBatch(c, s, i) && (s.items[i].Running? || (s.items[i].Waiting? && s.permits > 0))
  {
    if s.permits == 0 {
      assert RunningItems(s.items) != {};
      var i :| i in RunningItems(s.items);
      assert InBatch(c, s, i) && s.items[i].Running?;
    } else {
      var i: nat :| s.start <= i < BatchEnd(c, s.start) && !s.items[i].Returned?;
      assert InBatch(c, s, i);
    }
  }

  predicate Stuck<R(!new)>(c: Config, s: State<R>, value: R) {
    !Enabled(c, s, Launch) && !Enabled(c, s, Collect)
    && forall i: nat :: i < |s.items| ==> !Enabled(c, s, Acquire(i)) && !Enabled(c, s, Finish(i, value))
  }

  /** No reachable state short of the end is stuck if the semaphore admits at
      least one; if it admits none, the system is stuck as soon as it has created
      its first task. */
  lemma DeadlockFreeIffSomethingMayRun<R(!new)>(c: Config, value: R)
    requires c.batchSize >= 1
    ensures (forall steps: seq<Step<R>> ::
      IsRun(c, steps) && !Final(c, After(c, steps)) ==> !Stuck(c, After(c, steps), value))
      <==> c.maxConcurrent >= 1 || c.total == 0
  {
    if c.maxConcurrent >= 1 || c.total == 0 {
      forall steps: seq<Step<R>> | IsRun(c, steps) && !Final(c, After(c, steps))
        ensures !Stuck(c, After(c, steps), value)
      {
        RunInvariant(c, steps);
        var s := After(c, steps);
        if s.gathering && !Enabled(c, s, Collect) {
          WaitingOrRunning(c, s);
          var i: nat :| InBatch(c, s, i) && (s.items[i].Running? || (s.items[i].Waiting? && s.permits > 0));
          assert Enabled(c, s, Acquire(i)) || Enabled(c, s, Finish(i, value));
        }
      }
    } else {
      var steps: seq<Step<R>> := [Launch];
      assert steps[..0] == [];
      assert IsRun(c, steps[..0]) && After(c, steps[..0]) == Initial<R>(c);
      var s := After(c, steps);
      assert s == Apply(c, Initial<R>(c), Launch);
      assert BatchEnd(c, 0) > 0 && s.items[0].Waiting? && s.permits == 0;
      assert IsRun(c, steps) && !Final(c, After(c, steps));
      assert Stuck(c, After(c, steps), value);
    }
  }

  // ----------------------------------------------------------------- the function

  /** The values that have been returned are the processor's. */
  ghost predicate Computed<T, R>(items: seq<T>, processor: T -> R, s: State<R>) {
    |s.items| == |items| && forall i ::
      0 <= i < |items| && s.items[i].Returned? ==> s.items[i] == Returned(processor(items[i]))
  }

  /** A step keeps the invariant and makes progress. */
  lemma Progress<R>(c: Config, s: State<R>, step: Step<R>)
    requires Invariant(c, s) && Enabled(c, s, step) && c.batchSize >= 1
    ensures Invariant(c, Apply(c, s, step)) && Measure(Apply(c, s, step)) < Measure(s)
  {
    StepInvariant(c, s, step);
    EveryStepDecreases(c, s, step);
  }

  /** Awaiting one batch: a scheduler picks any task that can move until all have
      returned. */
  method Gather<T, R>(c: Config, items: seq<T>, processor: T -> R, begun: State<R>) returns (s: State<R>)
    requires c == Config(|items|, c.batchSize, c.maxConcurrent) && c.batchSize >= 1 && c.maxConcurrent >= 1
    requires Invariant(c, begun) && begun.gathering && Computed(items, processor, begun)
    ensures Invariant(c, s) && Computed(items, processor, s) && Enabled(c, s, Collect)
    ensures Measure(s) <= Measure(begun)
  {
    s := begun;
    while exists i :: s.start <= i < BatchEnd(c, s.start) && !s.items[i].Returned?
      invariant Invariant(c, s) && s.gathering && Computed(items, processor, s)
      invariant Measure(s) <= Measure(begun)
      decreases Measure(s)
    {
      WaitingOrRunning(c, s);
      var i: nat :| i < |items| && InBatch(c, s, i) && (s.items[i].Running? || (s.items[i].Waiting? && s.permits > 0));
      var step: Step<R> := if s.items[i].Running? then Finish(i, processor(items[i])) else Acquire(i);
      Progress(c, s, step);
      s := Apply(c, s, step);
    }
  }

  /** `process_batch` itself: a loop over batches, each awaited under the shared
      semaphore. Whatever the scheduler picks, the loop ends and the results are the
      in-order map. */
  method ProcessBatch<T, R>(items: seq<T>, processor: T -> R, batchSize: nat, maxConcurrent: nat)
    returns (results: seq<R>)
    requires batchSize >= 1 && maxConcurrent >= 1
    ensures results == seq(|items|, i requires 0 <= i < |items| => processor(items[i]))
  {
    var c := Config(|items|, batchSize, maxConcurrent);
    var s: State<R> := Initial(c);
    InitialInvariant<R>(c);
    while s.start < |items|
      invariant Invariant(c, s) && !s.gathering && Computed(items, processor, s)
      decreases Measure(s)
    {
      Progress(c, s, Launch);
      s := Apply(c, s, Launch);
      s := Gather(c, items, processor, s);
      Progress(c, s, Collect);
      s := Apply(c, s, Collect);
    }
    results := s.results;
  }
}
