/**
 The concurrent script validator of pkg/blockchain/scriptval.go as interleaved steps of one dispatcher and
 several workers that meet on unbuffered channels.  `fails` is the verdict of the script engine on an item.
 */
module ScriptVal {

  datatype Worker = Idle | Has(item: nat) | Sending(item: nat, failed: bool) | Exited

  /** What Validate has returned so far. */
  datatype Verdict = Running | Passed | Failed(item: nat)

  /** `checked` and `received` record the items whose scripts ran and whose results arrived, in order. */
  datatype State = State(
    workers: seq<Worker>, current: nat, processed: nat, quit: bool, verdict: Verdict,
    checked: seq<nat>, received: seq<nat>)

  /** The dispatcher steps are Dispatch, Receive and Finish; the workers' own steps are Check, Drop and Exit. */
  datatype Step = Dispatch(w: nat) | Check(w: nat) | Receive(w: nat) | Finish | Drop(w: nat) | Exit(w: nat)

  /** Three goroutines per processor, at least one, and no more than three per item. */
  function WorkerCount(cpus: int, n: nat): (m: nat)
    ensures n > 0 ==> 1 <= m <= 3 * n
    ensures n == 0 ==> m == 0
    ensures n > 0 && cpus <= 0 ==> m == 1
    ensures 0 < cpus <= n ==> m == 3 * cpus
    ensures cpus >= n ==> m == 3 * n || n == 0
  {
    var m := if cpus * 3 <= 0 then 1 else cpus * 3;
    if m > n * 3 then n * 3 else m
  }

  function Repeat(m: nat): (s: seq<Worker>)
    ensures |s| == m && forall w :: 0 <= w < m ==> s[w] == Idle
  {
    if m == 0 then [] else Repeat(m - 1) + [Idle]
  }

  /** Without items Validate returns at once and starts no worker. */
  function Init(n: nat, cpus: int): State {
    State(Repeat(WorkerCount(cpus, n)), 0, 0, false, if n == 0 then Passed else Running, [], [])
  }

  predicate At(s: State, w: nat) {
    w < |s.workers|
  }

  predicate Enabled(s: State, n: nat, step: Step) {
    match step
    case Dispatch(w) => s.verdict.Running? && s.processed < n && s.current < n && At(s, w) && s.workers[w].Idle?
    case Check(w) => At(s, w) && s.workers[w].Has?
    case Receive(w) => s.verdict.Running? && s.processed < n && At(s, w) && s.workers[w].Sending?
    case Finish => s.verdict.Running? && s.processed >= n
    case Drop(w) => s.quit && At(s, w) && s.workers[w].Sending?
    case Exit(w) => s.quit && At(s, w) && s.workers[w].Idle?
  }

  /** A worker leaves its loop after a result that is an error, and goes on after a nil result. */
  function AfterSend(worker: Worker): Worker {
    if worker.Sending? && worker.failed then Exited else Idle
  }

  function Next(s: State, n: nat, fails: nat -> bool, step: Step): State
    requires Enabled(s, n, step)
  {
    match step
    case Dispatch(w) => s.(workers := s.workers[w := Has(s.current)], current := s.current + 1)
    case Check(w) =>
      var i := s.workers[w].item;
      s.(workers := s.workers[w := Sending(i, fails(i))], checked := s.checked + [i])
    case Receive(w) =>
      var worker := s.workers[w];
      s.(workers := s.workers[w := AfterSend(worker)], processed := s.processed + 1, received := s.received + [worker.item],
         quit := worker.failed, verdict := if worker.failed then Failed(worker.item) else Running)
    case Finish => s.(quit := true, verdict := Passed)
    case Drop(w) => s.(workers := s.workers[w := AfterSend(s.workers[w])])
    case Exit(w) => s.(workers := s.workers[w := Exited])
  }

  /** The steps can be taken one after the other. */
  ghost predicate IsRun(s: State, n: nat, fails: nat -> bool, steps: seq<Step>)
    decreases |steps|
  {
    |steps| == 0 || (Enabled(s, n, steps[0]) && IsRun(Next(s, n, fails, steps[0]), n, fails, steps[1..]))
  }

  ghost function RunEnd(s: State, n: nat, fails: nat -> bool, steps: seq<Step>): State
    requires IsRun(s, n, fails, steps)
    decreases |steps|
  {
    if |steps| == 0 then s else RunEnd(Next(s, n, fails, steps[0]), n, fails, steps[1..])
  }

  // ----- the invariant -----

  predicate Differ(s: seq<nat>, i: nat, j: nat)
    requires i < |s| && j < |s|
  {
    s[i] != s[j]
  }

  ghost predicate Distinct(s: seq<nat>) {
    forall i, j :: 0 <= i < j < |s| ==> Differ(s, i, j)
  }

  predicate Busy(worker: Worker) {
    worker.Has? || worker.Sending?
  }

  /** The item a worker holds was handed out, has no result yet, and was checked if it is being sent. */
  ghost predicate WorkerOk(s: State, fails: nat -> bool, w: nat)
    requires At(s, w)
  {
    var worker := s.workers[w];
    (Busy(worker) ==> worker.item < s.current && worker.item !in s.received) &&
    (worker.Has? ==> worker.item !in s.checked) &&
    (worker.Sending? ==> worker.item in s.checked && worker.failed == fails(worker.item)) &&
    (s.verdict.Running? ==> !worker.Exited?)
  }

  ghost predicate NotShared(s: State, w: nat, v: nat)
    requires At(s, w) && At(s, v)
  {
    Busy(s.workers[w]) && Busy(s.workers[v]) ==> s.workers[w].item != s.workers[v].item
  }

  ghost predicate Held(s: State, i: nat) {
    exists w :: 0 <= w < |s.workers| && Busy(s.workers[w]) && s.workers[w].item == i
  }

  /** While Validate runs, every item handed out is with a worker or has its result in. */
  ghost predicate Tracked(s: State, i: nat) {
    s.verdict.Running? ==> i in s.received || Held(s, i)
  }

  ghost predicate ReceivedOk(s: State, fails: nat -> bool, i: nat) {
    i < s.current && i in s.checked && (!s.verdict.Failed? ==> !fails(i))
  }

  ghost predicate Inv(s: State, n: nat, fails: nat -> bool) {
    s.current <= n && s.processed == |s.received| && Distinct(s.received) && Distinct(s.checked) &&
    (forall w :: 0 <= w < |s.workers| ==> WorkerOk(s, fails, w)) &&
    (forall w, v :: 0 <= w < v < |s.workers| ==> NotShared(s, w, v)) &&
    (forall i :: 0 <= i < s.current ==> Tracked(s, i)) &&
    (forall i {:trigger ReceivedOk(s, fails, i)} {:trigger i in s.received} :: i in s.received ==> ReceivedOk(s, fails, i)) &&
    (forall i :: i in s.checked ==> i < s.current) &&
    (s.verdict.Running? ==> !s.quit && (n > 0 ==> |s.workers| > 0)) &&
    (s.verdict.Passed? ==> s.processed >= n) &&
    (s.verdict.Failed? ==> s.verdict.item < n && fails(s.verdict.item)) &&
    (!s.verdict.Running? && n > 0 ==> s.quit)
  }

  lemma InitInv(n: nat, cpus: int, fails: nat -> bool)
    ensures Inv(Init(n, cpus), n, fails)
  {
  }

  lemma DistinctAppend(s: seq<nat>, x: nat)
    requires Distinct(s) && x !in s
    ensures Distinct(s + [x])
  {
    forall i, j | 0 <= i < j < |s| + 1 ensures Differ(s + [x], i, j) {
      if j < |s| {
        assert Differ(s, i, j);
      }
    }
  }

  lemma Apart(s: State, n: nat, fails: nat -> bool, w: nat, v: nat)
    requires Inv(s, n, fails) && At(s, w) && At(s, v) && w != v
    ensures NotShared(s, w, v)
  {
    assert w < v ==> NotShared(s, w, v);
    assert v < w ==> NotShared(s, v, w);
  }

  lemma StepWorker(s: State, n: nat, fails: nat -> bool, step: Step, w: nat)
    requires Inv(s, n, fails) && Enabled(s, n, step) && At(s, w)
    ensures WorkerOk(Next(s, n, fails, step), fails, w)
  {
    assert WorkerOk(s, fails, w);
    if !step.Finish? {
      assert WorkerOk(s, fails, step.w);
      if step.w != w {
        Apart(s, n, fails, w, step.w);
      }
    }
    forall i | i in s.received ensures i < s.current {
      assert ReceivedOk(s, fails, i);
    }
  }

  lemma StepApart(s: State, n: nat, fails: nat -> bool, step: Step, w: nat, v: nat)
    requires Inv(s, n, fails) && Enabled(s, n, step) && At(s, w) && At(s, v) && w != v
    ensures NotShared(Next(s, n, fails, step), w, v)
  {
    Apart(s, n, fails, w, v);
    assert WorkerOk(s, fails, w) && WorkerOk(s, fails, v);
  }

  lemma HeldBy(s: State, i: nat, w: nat)
    requires At(s, w) && Busy(s.workers[w]) && s.workers[w].item == i
    ensures Held(s, i)
  {
  }

  lemma StepTracked(s: State, n: nat, fails: nat -> bool, step: Step, i: nat)
    requires Inv(s, n, fails) && Enabled(s, n, step) && i < Next(s, n, fails, step).current
    ensures Tracked(Next(s, n, fails, step), i)
  {
    var t := Next(s, n, fails, step);
    if t.verdict.Running? {
      if i == s.current {
        HeldBy(t, i, step.w);
      } else {
        assert Tracked(s, i);
        if i !in s.received {
          var w :| 0 <= w < |s.workers| && Busy(s.workers[w]) && s.workers[w].item == i;
          if !step.Receive? || step.w != w {
            HeldBy(t, i, w);
          }
        }
      }
    }
  }

  lemma StepReceived(s: State, n: nat, fails: nat -> bool, step: Step, i: nat)
    requires Inv(s, n, fails) && Enabled(s, n, step) && i in Next(s, n, fails, step).received
    ensures ReceivedOk(Next(s, n, fails, step), fails, i)
  {
    if i in s.received {
      assert ReceivedOk(s, fails, i);
    }
    if step.Receive? {
      assert WorkerOk(s, fails, step.w);
    }
  }

  /** Each step keeps the invariant. */
  lemma StepInv(s: State, n: nat, fails: nat -> bool, step: Step)
    requires Inv(s, n, fails) && Enabled(s, n, step)
    ensures Inv(Next(s, n, fails, step), n, fails)
  {
    var t := Next(s, n, fails, step);
    if step.Receive? || step.Check? {
      assert WorkerOk(s, fails, step.w);
      if step.Receive? {
        DistinctAppend(s.received, s.workers[step.w].item);
      } else {
        DistinctAppend(s.checked, s.workers[step.w].item);
      }
    }
    forall w | 0 <= w < |t.workers| ensures WorkerOk(t, fails, w) {
      StepWorker(s, n, fails, step, w);
    }
    forall w, v | 0 <= w < v < |t.workers| ensures NotShared(t, w, v) {
      StepApart(s, n, fails, step, w, v);
    }
    forall i | 0 <= i < t.current ensures Tracked(t, i) {
      StepTracked(s, n, fails, step, i);
    }
    forall i | i in t.received ensures ReceivedOk(t, fails, i) {
      StepReceived(s, n, fails, step, i);
    }
  }

  lemma {:induction false} RunInv(s: State, n: nat, fails: nat -> bool, steps: seq<Step>)
    requires Inv(s, n, fails) && IsRun(s, n, fails, steps)
    ensures Inv(RunEnd(s, n, fails, steps), n, fails)
    decreases |steps|
  {
    if |steps| > 0 {
      StepInv(s, n, fails, steps[0]);
      RunInv(Next(s, n, fails, steps[0]), n, fails, steps[1..]);
    }
  }

  // ----- counting -----

  function Elements(s: seq<nat>): set<nat> {
    set x | x in s
  }

  function Below(n: nat): (r: set<nat>)
    ensures |r| == n && forall x: nat :: x in r <==> x < n
  {
    if n == 0 then {} else Below(n - 1) + {n - 1}
  }

  lemma {:induction false} DistinctCount(s: seq<nat>)
    requires Distinct(s)
    ensures |Elements(s)| == |s|
  {
    if |s| > 0 {
      var t, x := s[..|s|-1], s[|s|-1];
      forall i, j | 0 <= i < j < |t| ensures Differ(t, i, j) {
        assert Differ(s, i, j);
      }
      DistinctCount(t);
      forall i | 0 <= i < |t| ensures t[i] != x {
        assert Differ(s, i, |s| - 1);
      }
      assert Elements(s) == Elements(t) + {x};
    }
  }

  lemma SubsetCard(a: set<nat>, b: set<nat>)
    requires a <= b
    ensures |a| <= |b| && (|a| == |b| ==> a == b)
  {
    assert b == a + (b - a);
    if b - a != {} {
      assert |b - a| > 0;
    }
  }

  /** As many different items as there are items is all of them. */
  lemma AllReceived(s: seq<nat>, n: nat)
    requires Distinct(s) && forall x :: x in s ==> x < n
    ensures |s| <= n && (|s| == n ==> forall i :: 0 <= i < n ==> i in s)
  {
    DistinctCount(s);
    SubsetCard(Elements(s), Below(n));
    if |s| == n {
      forall i | 0 <= i < n ensures i in s {
        assert i in Below(n) && i in Elements(s);
      }
    }
  }

  lemma ManyReceived(s: seq<nat>, n: nat)
    requires Distinct(s) && forall i :: 0 <= i < n ==> i in s
    ensures |s| >= n
  {
    DistinctCount(s);
    assert Below(n) <= Elements(s);
    SubsetCard(Below(n), Elements(s));
  }

  // ----- what every run guarantees -----

  /** Each of the items was checked, and none of them twice. */
  ghost predicate CheckedOnce(s: State, n: nat) {
    Distinct(s.checked) && (forall i :: 0 <= i < n ==> i in s.checked) && forall i :: i in s.checked ==> i < n
  }

  /** Validate returns nil only when every item was checked exactly once and passed ... */
  lemma NilMeansAllPassed(s: State, n: nat, fails: nat -> bool)
    requires Inv(s, n, fails) && s.verdict.Passed?
    ensures CheckedOnce(s, n) && forall i :: 0 <= i < n ==> !fails(i)
  {
    forall i | i in s.received ensures i < n {
      assert ReceivedOk(s, fails, i);
    }
    AllReceived(s.received, n);
    forall i | 0 <= i < n ensures i in s.checked && !fails(i) {
      assert ReceivedOk(s, fails, i);
    }
  }

  /** In a state that is not finished some step is always possible. */
  lemma NoDeadlock(s: State, n: nat, fails: nat -> bool)
    requires Inv(s, n, fails) && n > 0
    requires s.verdict.Running? || exists w :: 0 <= w < |s.workers| && !s.workers[w].Exited?
    ensures exists step :: Enabled(s, n, step)
  {
    if w :| 0 <= w < |s.workers| && Busy(s.workers[w]) {
      if s.workers[w].Has? {
        assert Enabled(s, n, Check(w));
      } else if s.verdict.Running? && s.processed < n {
        assert Enabled(s, n, Receive(w));
      } else if s.verdict.Running? {
        assert Enabled(s, n, Finish);
      } else {
        assert Enabled(s, n, Drop(w));
      }
    } else if s.verdict.Running? {
      QuietRunning(s, n, fails);
      assert Enabled(s, n, Finish) || Enabled(s, n, Dispatch(0));
    } else {
      var w :| 0 <= w < |s.workers| && !s.workers[w].Exited?;
      assert Enabled(s, n, Exit(w));
    }
  }

  /** With every worker idle the dispatcher can hand out an item, or is done. */
  lemma QuietRunning(s: State, n: nat, fails: nat -> bool)
    requires Inv(s, n, fails) && n > 0 && s.verdict.Running? && forall w :: 0 <= w < |s.workers| ==> !Busy(s.workers[w])
    ensures |s.workers| > 0 && s.workers[0].Idle? && (s.current < n || s.processed >= n)
  {
    assert WorkerOk(s, fails, 0);
    if s.current >= n {
      forall i | 0 <= i < n ensures i in s.received {
        assert Tracked(s, i);
      }
      ManyReceived(s.received, n);
    }
  }

  // ----- termination -----

  function Rank(worker: Worker): nat {
    match worker
    case Exited => 0
    case Idle => 1
    case Sending(_, _) => 2
    case Has(_) => 3
  }

  function RankSum(workers: seq<Worker>, k: nat): nat
    requires k <= |workers|
  {
    if k == 0 then 0 else RankSum(workers, k - 1) + Rank(workers[k-1])
  }

  lemma {:induction false} RankUpdate(workers: seq<Worker>, w: nat, x: Worker, k: nat)
    requires w < |workers| && k <= |workers|
    ensures RankSum(workers[w := x], k) == RankSum(workers, k) + if w < k then Rank(x) - Rank(workers[w]) else 0
  {
    if k > 0 {
      RankUpdate(workers, w, x, k - 1);
    }
  }

  /** The steps that are left at most. */
  function Measure(s: State, n: nat): int {
    4 * (n - s.current) + RankSum(s.workers, |s.workers|) + if s.verdict.Running? then 1 else 0
  }

  lemma StepsDescend(s: State, n: nat, fails: nat -> bool, step: Step)
    requires Enabled(s, n, step)
    ensures Measure(Next(s, n, fails, step), n) < Measure(s, n)
  {
    if !step.Finish? {
      RankUpdate(s.workers, step.w, Next(s, n, fails, step).workers[step.w], |s.workers|);
    }
  }

  /** No run is longer than the measure of the state it starts in. */
  lemma {:induction false} RunsEnd(s: State, n: nat, fails: nat -> bool, steps: seq<Step>)
    requires Inv(s, n, fails) && IsRun(s, n, fails, steps)
    ensures |steps| <= Measure(s, n)
    decreases |steps|
  {
    if |steps| > 0 {
      StepsDescend(s, n, fails, steps[0]);
      StepInv(s, n, fails, steps[0]);
      RunsEnd(Next(s, n, fails, steps[0]), n, fails, steps[1..]);
    }
  }

  lemma {:induction false} AllIdle(m: nat, k: nat)
    requires k <= m
    ensures RankSum(Repeat(m), k) == k
  {
    if k > 0 {
      AllIdle(m, k - 1);
    }
  }

  /**
   Every interleaving ends within a fixed number of steps; whenever no step is left Validate has returned,
   every worker has left its loop, and the verdict is nil exactly when no item fails, whatever the interleaving.
   */
  lemma EveryInterleaving(n: nat, cpus: int, fails: nat -> bool, steps: seq<Step>)
    requires IsRun(Init(n, cpus), n, fails, steps)
    ensures |steps| <= 4 * n + WorkerCount(cpus, n) + 1
    ensures var s := RunEnd(Init(n, cpus), n, fails, steps);
      (s.verdict.Passed? ==> CheckedOnce(s, n) && forall i :: 0 <= i < n ==> !fails(i)) &&
      (s.verdict.Failed? ==> s.verdict.item < n && fails(s.verdict.item)) &&
      ((forall step :: !Enabled(s, n, step)) ==>
        !s.verdict.Running? && (s.verdict.Passed? <==> forall i :: 0 <= i < n ==> !fails(i)) &&
        forall w :: 0 <= w < |s.workers| ==> s.workers[w].Exited?)
  {
    var start := Init(n, cpus);
    var s := RunEnd(start, n, fails, steps);
    InitInv(n, cpus, fails);
    RunInv(start, n, fails, steps);
    RunsEnd(start, n, fails, steps);
    AllIdle(WorkerCount(cpus, n), WorkerCount(cpus, n));
    if s.verdict.Passed? {
      NilMeansAllPassed(s, n, fails);
    }
    if n == 0 {
      NoWorkers(start, fails, steps);
    } else if s.verdict.Running? || exists w :: 0 <= w < |s.workers| && !s.workers[w].Exited? {
      NoDeadlock(s, n, fails);
    }
  }

  lemma NoWorkers(s: State, fails: nat -> bool, steps: seq<Step>)
    requires IsRun(s, 0, fails, steps) && |s.workers| == 0 && s.verdict.Passed?
    ensures RunEnd(s, 0, fails, steps) == s
  {
  }
}
