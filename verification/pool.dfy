/** The bounded pool of `FetchRemoteCert` and `CheckRemote`, as an interleaving machine. */
module WorkerPool {
  import opened CertTypes

  /** What one target gives; a fetch leaves the issue counts at zero. */
  datatype TargetResult = TargetResult(error: string, critical: nat, warning: nat, info: nat)

  datatype Slot = Empty | Full(result: TargetResult)

  /** Where a target's goroutine is: not started, before `sem <-`, working with its token, done
      writing its slot, token given back, `wg.Done` called. */
  datatype PC = Unspawned | Waiting | Working | Written | Released | Exited

  function Stage(pc: PC): nat {
    match pc
    case Unspawned => 0
    case Waiting => 1
    case Working => 2
    case Written => 3
    case Released => 4
    case Exited => 5
  }

  /** The shared state: program counters, tokens in the semaphore channel, the wait group's count,
      the result slots, how often each was written, and whether `wg.Wait` returned. */
  datatype Pool = Pool(pcs: seq<PC>, tokens: nat, waiting: int, slots: seq<Slot>, writes: seq<nat>, finished: bool)

  datatype Step = Spawn(i: nat) | Acquire(i: nat) | Write(i: nat) | Release(i: nat) | Exit(i: nat) | Join

  function Init(n: nat): Pool {
    Pool(seq(n, _ => Unspawned), 0, 0, seq(n, _ => Empty), seq(n, _ => 0), false)
  }

  predicate Sized(s: Pool) {
    |s.slots| == |s.writes| == |s.pcs|
  }

  predicate AllSpawned(s: Pool) {
    forall k :: 0 <= k < |s.pcs| ==> s.pcs[k] != Unspawned
  }

  /** The loop spawns the goroutines in index order; a full channel blocks `sem <-`; `wg.Wait` is
      reached after the loop and returns at zero. */
  predicate Enabled(s: Pool, parallel: nat, step: Step) {
    && !s.finished
    && match step
       case Spawn(i) => i < |s.pcs| && s.pcs[i] == Unspawned && forall k :: 0 <= k < i ==> s.pcs[k] != Unspawned
       case Acquire(i) => i < |s.pcs| && s.pcs[i] == Waiting && s.tokens < parallel
       case Write(i) => i < |s.pcs| && s.pcs[i] == Working
       case Release(i) => i < |s.pcs| && s.pcs[i] == Written && s.tokens > 0
       case Exit(i) => i < |s.pcs| && s.pcs[i] == Released
       case Join => AllSpawned(s) && s.waiting == 0
  }

  function Take(s: Pool, step: Step, outcome: seq<TargetResult>): Pool
    requires Sized(s) && |outcome| == |s.pcs| && (step.Join? || step.i < |s.pcs|)
  {
    match step
    case Spawn(i) => s.(pcs := s.pcs[i := Waiting], waiting := s.waiting + 1)
    case Acquire(i) => s.(pcs := s.pcs[i := Working], tokens := s.tokens + 1)
    case Write(i) => s.(pcs := s.pcs[i := Written], slots := s.slots[i := Full(outcome[i])],
        writes := s.writes[i := s.writes[i] + 1])
    case Release(i) => s.(pcs := s.pcs[i := Released], tokens := if s.tokens > 0 then s.tokens - 1 else 0)
    case Exit(i) => s.(pcs := s.pcs[i := Exited], waiting := s.waiting - 1)
    case Join => s.(finished := true)
  }

  /** The state after these steps, `None` if one of them was not enabled when its turn came. */
  function Exec(n: nat, parallel: nat, outcome: seq<TargetResult>, steps: seq<Step>): (r: Option<Pool>)
    requires |outcome| == n
    ensures r.Some? ==> Sized(r.value) && |r.value.pcs| == n
  {
    if steps == [] then Some(Init(n))
    else
      var last := steps[|steps| - 1];
      match Exec(n, parallel, outcome, steps[..|steps| - 1])
      case None => None
      case Some(s) => if Enabled(s, parallel, last) then Some(Take(s, last, outcome)) else None
  }

  // ---------------------------------------------------------------------------------------------
  // Counting goroutines
  // ---------------------------------------------------------------------------------------------

  predicate Between(pc: PC, lo: nat, hi: nat) {
    lo <= Stage(pc) <= hi
  }

  /** How many goroutines are between two stages. */
  function Count(pcs: seq<PC>, lo: nat, hi: nat): nat {
    if pcs == [] then 0
    else Count(pcs[..|pcs| - 1], lo, hi) + if Between(pcs[|pcs| - 1], lo, hi) then 1 else 0
  }

  lemma {:induction false} CountUpdate(pcs: seq<PC>, i: nat, pc: PC, lo: nat, hi: nat)
    requires i < |pcs|
    ensures Count(pcs[i := pc], lo, hi) ==
            Count(pcs, lo, hi) - (if Between(pcs[i], lo, hi) then 1 else 0) + (if Between(pc, lo, hi) then 1 else 0)
  {
    var n := |pcs| - 1;
    if i == n {
      assert pcs[i := pc][..n] == pcs[..n];
    } else {
      assert pcs[i := pc][..n] == pcs[..n][i := pc];
      CountUpdate(pcs[..n], i, pc, lo, hi);
    }
  }

  lemma {:induction false} CountSome(pcs: seq<PC>, lo: nat, hi: nat)
    ensures Count(pcs, lo, hi) > 0 <==> exists i :: 0 <= i < |pcs| && Between(pcs[i], lo, hi)
  {
    if pcs != [] {
      CountSome(pcs[..|pcs| - 1], lo, hi);
    }
  }

  /** The total number of stages passed. */
  function Work(pcs: seq<PC>): nat {
    if pcs == [] then 0 else Work(pcs[..|pcs| - 1]) + Stage(pcs[|pcs| - 1])
  }

  lemma {:induction false} WorkUpdate(pcs: seq<PC>, i: nat, pc: PC)
    requires i < |pcs|
    ensures Work(pcs[i := pc]) == Work(pcs) - Stage(pcs[i]) + Stage(pc)
  {
    var n := |pcs| - 1;
    if i == n {
      assert pcs[i := pc][..n] == pcs[..n];
    } else {
      assert pcs[i := pc][..n] == pcs[..n][i := pc];
      WorkUpdate(pcs[..n], i, pc);
    }
  }

  lemma {:induction false} WorkBound(pcs: seq<PC>)
    ensures Work(pcs) <= 5 * |pcs|
    ensures Work(pcs) == 5 * |pcs| <==> forall i :: 0 <= i < |pcs| ==> pcs[i] == Exited
  {
    if pcs != [] {
      WorkBound(pcs[..|pcs| - 1]);
    }
  }

  lemma {:induction false} StartCounts(n: nat, lo: nat, hi: nat)
    requires lo > 0
    ensures Count(seq(n, _ => Unspawned), lo, hi) == 0 && Work(seq(n, _ => Unspawned)) == 0
  {
    if n > 0 {
      StartCounts(n - 1, lo, hi);
      assert seq(n, _ => Unspawned)[..n - 1] == seq(n - 1, _ => Unspawned);
    }
  }

  // ---------------------------------------------------------------------------------------------
  // The invariant
  // ---------------------------------------------------------------------------------------------

  /** A slot holds its own target's result exactly once its goroutine has passed the write. */
  predicate SlotOwned(s: Pool, outcome: seq<TargetResult>, i: nat)
    requires Sized(s) && |outcome| == |s.pcs| && i < |s.pcs|
  {
    if Stage(s.pcs[i]) >= 3 then s.slots[i] == Full(outcome[i]) && s.writes[i] == 1
    else s.slots[i] == Empty && s.writes[i] == 0
  }

  predicate Inv(s: Pool, parallel: nat, outcome: seq<TargetResult>) {
    && Sized(s) && |outcome| == |s.pcs|
    && s.tokens == Count(s.pcs, 2, 3) && s.tokens <= parallel
    && s.waiting == Count(s.pcs, 1, 4)
    && (forall i :: 0 <= i < |s.pcs| ==> SlotOwned(s, outcome, i))
    && (s.finished ==> forall i :: 0 <= i < |s.pcs| ==> s.pcs[i] == Exited)
  }

  function Progress(s: Pool): nat {
    Work(s.pcs) + if s.finished then 1 else 0
  }

  lemma StepKeepsSlots(s: Pool, parallel: nat, outcome: seq<TargetResult>, step: Step, i: nat)
    requires Inv(s, parallel, outcome) && Enabled(s, parallel, step) && i < |s.pcs|
    ensures SlotOwned(Take(s, step, outcome), outcome, i)
  {
    assert SlotOwned(s, outcome, i);
  }

  lemma JoinMeansExited(s: Pool)
    requires Sized(s) && Count(s.pcs, 1, 4) == 0 && forall i :: 0 <= i < |s.pcs| ==> s.pcs[i] != Unspawned
    ensures forall i :: 0 <= i < |s.pcs| ==> s.pcs[i] == Exited
  {
    CountSome(s.pcs, 1, 4);
    forall i | 0 <= i < |s.pcs|
      ensures s.pcs[i] == Exited
    {
      assert !Between(s.pcs[i], 1, 4);
    }
  }

  lemma StepKeepsInv(s: Pool, parallel: nat, outcome: seq<TargetResult>, step: Step)
    requires Inv(s, parallel, outcome) && Enabled(s, parallel, step)
    ensures Inv(Take(s, step, outcome), parallel, outcome)
    ensures Progress(Take(s, step, outcome)) == Progress(s) + 1
  {
    var s' := Take(s, step, outcome);
    forall i | 0 <= i < |s'.pcs|
      ensures SlotOwned(s', outcome, i)
    {
      StepKeepsSlots(s, parallel, outcome, step, i);
    }
    if step.Join? {
      JoinMeansExited(s);
    } else {
      CountUpdate(s.pcs, step.i, s'.pcs[step.i], 2, 3);
      CountUpdate(s.pcs, step.i, s'.pcs[step.i], 1, 4);
      WorkUpdate(s.pcs, step.i, s'.pcs[step.i]);
    }
  }

  /** Every state of every run satisfies the invariant, and every step counts. */
  lemma {:induction false} RunKeepsInv(n: nat, parallel: nat, outcome: seq<TargetResult>, steps: seq<Step>)
    requires |outcome| == n && Exec(n, parallel, outcome, steps).Some?
    ensures Inv(Exec(n, parallel, outcome, steps).value, parallel, outcome)
    ensures Progress(Exec(n, parallel, outcome, steps).value) == |steps|
  {
    if steps == [] {
      StartCounts(n, 2, 3);
      StartCounts(n, 1, 4);
    } else {
      RunKeepsInv(n, parallel, outcome, steps[..|steps| - 1]);
      StepKeepsInv(Exec(n, parallel, outcome, steps[..|steps| - 1]).value, parallel, outcome, steps[|steps| - 1]);
    }
  }

  /** Goroutines between taking a token and giving it back. */
  function InFlight(s: Pool): nat {
    Count(s.pcs, 2, 3)
  }

  /** At most `parallel` targets are in flight, at every moment of every run. */
  lemma NeverTooMany(n: nat, parallel: nat, outcome: seq<TargetResult>, steps: seq<Step>)
    requires |outcome| == n && Exec(n, parallel, outcome, steps).Some?
    ensures InFlight(Exec(n, parallel, outcome, steps).value) <= parallel
  {
    RunKeepsInv(n, parallel, outcome, steps);
  }

  /** No state short of completion is stuck. */
  lemma NeverStuck(s: Pool, parallel: nat, outcome: seq<TargetResult>) returns (step: Step)
    requires Inv(s, parallel, outcome) && parallel > 0 && !s.finished
    ensures Enabled(s, parallel, step)
  {
    CountSome(s.pcs, 2, 3);
    CountSome(s.pcs, 1, 4);
    if i :| 0 <= i < |s.pcs| && s.pcs[i] == Unspawned {
      step := FirstUnspawned(s, i);
    } else if i :| 0 <= i < |s.pcs| && s.pcs[i] == Working {
      step := Write(i);
    } else if i :| 0 <= i < |s.pcs| && s.pcs[i] == Written {
      assert Between(s.pcs[i], 2, 3);
      step := Release(i);
    } else if i :| 0 <= i < |s.pcs| && s.pcs[i] == Released {
      step := Exit(i);
    } else if i :| 0 <= i < |s.pcs| && s.pcs[i] == Waiting {
      step := Acquire(i);
    } else {
      step := Join;
    }
  }

  lemma {:induction false} FirstUnspawned(s: Pool, i: nat) returns (step: Step)
    requires i < |s.pcs| && s.pcs[i] == Unspawned
    ensures step.Spawn? && step.i <= i && s.pcs[step.i] == Unspawned && forall k :: 0 <= k < step.i ==>
        s.pcs[k] != Unspawned
  {
    if k :| 0 <= k < i && s.pcs[k] == Unspawned {
      step := FirstUnspawned(s, k);
    } else {
      step := Spawn(i);
    }
  }

  /** Every run takes at most five steps a target and one more, and has finished exactly when it
      took them all. */
  lemma RunsEnd(n: nat, parallel: nat, outcome: seq<TargetResult>, steps: seq<Step>)
    requires |outcome| == n && Exec(n, parallel, outcome, steps).Some?
    ensures |steps| <= 5 * n + 1
    ensures |steps| == 5 * n + 1 <==> Exec(n, parallel, outcome, steps).value.finished
  {
    RunKeepsInv(n, parallel, outcome, steps);
    WorkBound(Exec(n, parallel, outcome, steps).value.pcs);
  }

  /** A finished run holds in every slot what the sequential loop would have put there, written once. */
  lemma FinishedIsSequential(n: nat, parallel: nat, outcome: seq<TargetResult>, steps: seq<Step>)
    requires |outcome| == n && Exec(n, parallel, outcome, steps).Some?
        && Exec(n, parallel, outcome, steps).value.finished
    ensures var s := Exec(n, parallel, outcome, steps).value;
            forall i :: 0 <= i < n ==> s.slots[i] == Full(outcome[i]) && s.writes[i] == 1
  {
    RunKeepsInv(n, parallel, outcome, steps);
    var s := Exec(n, parallel, outcome, steps).value;
    forall i | 0 <= i < n
      ensures s.slots[i] == Full(outcome[i]) && s.writes[i] == 1
    {
      assert SlotOwned(s, outcome, i);
    }
  }

  /** A slot is changed only by its own goroutine's write. */
  lemma OnlyTheOwnerWrites(s: Pool, parallel: nat, outcome: seq<TargetResult>, step: Step, i: nat)
    requires Inv(s, parallel, outcome) && Enabled(s, parallel, step) && i < |s.pcs|
    ensures Take(s, step, outcome).slots[i] != s.slots[i] ==> step == Write(i)
    ensures Take(s, step, outcome).writes[i] <= 1
  {
    StepKeepsInv(s, parallel, outcome, step);
    assert SlotOwned(Take(s, step, outcome), outcome, i);
  }

  // ---------------------------------------------------------------------------------------------
  // The two callers
  // ---------------------------------------------------------------------------------------------

  /** The parallel branch under an arbitrary scheduler. */
  method RunParallel(outcome: seq<TargetResult>, parallel: nat) returns (results: seq<TargetResult>)
    requires parallel > 0
    ensures results == outcome
  {
    var n := |outcome|;
    var s := Init(n);
    StartCounts(n, 2, 3);
    StartCounts(n, 1, 4);
    while !s.finished
      invariant Inv(s, parallel, outcome) && |s.pcs| == n
      decreases 5 * n + 1 - Progress(s)
    {
      var some := NeverStuck(s, parallel, outcome);
      var step :| Enabled(s, parallel, step);
      StepKeepsInv(s, parallel, outcome, step);
      s := Take(s, step, outcome);
      WorkBound(s.pcs);
    }
    forall i | 0 <= i < n
      ensures s.slots[i] == Full(outcome[i])
    {
      assert SlotOwned(s, outcome, i);
    }
    results := seq(n, i requires 0 <= i < n => s.slots[i].result);
  }

  datatype Summary = Summary(total: nat, succeeded: nat, failed: nat, critical: nat, warning: nat, info: nat)

  function CountOK(results: seq<TargetResult>): nat {
    if results == [] then 0 else CountOK(results[..|results| - 1]) + if results[|results| - 1].error == "" then 1 else 0
  }

  datatype Counter = Critical | Warning | Info

  function Issues(r: TargetResult, c: Counter): nat {
    match c
    case Critical => r.critical
    case Warning => r.warning
    case Info => r.info
  }

  /** The sum of one of the issue counters. */
  function Total(results: seq<TargetResult>, c: Counter): nat {
    if results == [] then 0 else Total(results[..|results| - 1], c) + Issues(results[|results| - 1], c)
  }

  /** Each total grows by its own counter. */
  lemma TotalsExactly(results: seq<TargetResult>, r: TargetResult)
    ensures Total([], Critical) == Total([], Warning) == Total([], Info) == 0
    ensures Total(results + [r], Critical) == Total(results, Critical) + r.critical
    ensures Total(results + [r], Warning) == Total(results, Warning) + r.warning
    ensures Total(results + [r], Info) == Total(results, Info) + r.info
  {
    assert (results + [r])[..|results|] == results;
  }

  lemma {:induction false} CountOKBound(results: seq<TargetResult>)
    ensures CountOK(results) <= |results|
    ensures CountOK(results) == |results| <==> forall i :: 0 <= i < |results| ==> results[i].error == ""
  {
    if results != [] {
      CountOKBound(results[..|results| - 1]);
    }
  }

  /** Fetching or checking every target: `None` without targets. Sequential and parallel branch
      agree, and the summary accounts for every target. */
  method FetchAll(outcome: seq<TargetResult>, parallel: int) returns (results: Option<seq<TargetResult>>, sum: Summary)
    ensures results.None? <==> outcome == []
    ensures results.Some? ==> results.value == outcome
    ensures sum.total == |outcome| && sum.succeeded + sum.failed == sum.total && sum.succeeded == CountOK(outcome)
    ensures sum.critical == Total(outcome, Critical)
    ensures sum.warning == Total(outcome, Warning)
    ensures sum.info == Total(outcome, Info)
  {
    sum := Summary(|outcome|, 0, 0, 0, 0, 0);
    if |outcome| == 0 {
      return None, sum;
    }
    var workers := if parallel <= 0 then 1 else parallel;
    var all: seq<TargetResult>;
    if workers == 1 || |outcome| == 1 {
      all := [];
      for i := 0 to |outcome|
        invariant all == outcome[..i]
      {
        all := all + [outcome[i]];
      }
    } else {
      all := RunParallel(outcome, workers);
    }
    assert all == outcome;
    for i := 0 to |all|
      invariant sum.total == |outcome| && sum.succeeded + sum.failed == i && sum.succeeded == CountOK(all[..i])
      invariant sum.critical == Total(all[..i], Critical)
      invariant sum.warning == Total(all[..i], Warning)
      invariant sum.info == Total(all[..i], Info)
    {
      assert all[..i + 1][..i] == all[..i];
      if all[i].error == "" {
        sum := sum.(succeeded := sum.succeeded + 1);
      } else {
        sum := sum.(failed := sum.failed + 1);
      }
      sum := sum.(critical := sum.critical + all[i].critical, warning := sum.warning + all[i].warning,
          info := sum.info + all[i].info);
    }
    assert all[..|all|] == all;
    results := Some(all);
  }
}
