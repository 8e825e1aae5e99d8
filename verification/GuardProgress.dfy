/** The guard's two-lock protocol cannot deadlock (exporter/collectors/cardinality_guard.go). */
module GuardProgress {
  import opened Wrappers
  import opened CardinalityGuard

  /** Atomic steps that a call may still need. */
  function Remaining(pc: Pc): nat {
    match pc
    case Idle => 0
    case ReadLock => 8
    case ReadCheck => 7
    case ReadUnlock(_) => 6
    case WriteLock => 5
    case WriteInit => 4
    case WriteCheck => 3
    case WriteBound => 2
    case WriteUnlock(_) => 1
  }

  function Work(threads: seq<Thread>): nat {
    if threads == [] then 0 else Remaining(threads[0].pc) + Work(threads[1..])
  }

  lemma {:induction false} WorkUpdate(threads: seq<Thread>, t: nat, th: Thread)
    requires t < |threads|
    ensures Work(threads[t := th]) == Work(threads) - Remaining(threads[t].pc) + Remaining(th.pc)
  {
    if t == 0 {
      assert threads[0 := th][1..] == threads[1..];
    } else {
      assert threads[t := th][1..] == threads[1..][t - 1 := th];
      WorkUpdate(threads[1..], t - 1, th);
    }
  }

  lemma {:induction false} WorkIsBounded(threads: seq<Thread>)
    ensures Work(threads) <= 8 * |threads|
    ensures Work(threads) == 0 <==> forall t :: 0 <= t < |threads| ==> threads[t].pc.Idle?
  {
    if threads != [] {
      WorkIsBounded(threads[1..]);
      assert forall t :: 0 <= t < |threads| - 1 ==> threads[1..][t] == threads[t + 1];
      if forall t :: 0 <= t < |threads| ==> threads[t].pc.Idle? { assert threads[0].pc.Idle?; }
    }
  }

  /** Only goroutines that exist hold locks. */
  ghost predicate KnownHolders(s: State) {
    (forall t :: t in s.readers ==> t < |s.threads|) && (s.writer.Some? ==> s.writer.value < |s.threads|)
  }

  lemma StepKeepsHolders(s: State, a: Action)
    requires KnownHolders(s)
    ensures KnownHolders(Step(s, a)) && |Step(s, a).threads| == |s.threads|
  {
    if a.thread < |s.threads| {
      hide ReadStep, WriteStep;
      StepFrame(s, a);
      if a.Run? {
        if s.threads[a.thread].pc.InReadPart() { ReadFrame(s, a.thread); } else { WriteFrame(s, a.thread); }
      }
    }
  }

  lemma {:induction false} ExecuteKeepsHolders(s: State, schedule: seq<Action>)
    requires LockInv(s) && KnownHolders(s)
    ensures LockInv(Execute(s, schedule)) && KnownHolders(Execute(s, schedule))
    decreases |schedule|
  {
    hide LockInv, KnownHolders, Step;
    if schedule != [] {
      StepKeepsLock(s, schedule[0]);
      StepKeepsHolders(s, schedule[0]);
      ExecuteKeepsHolders(Step(s, schedule[0]), schedule[1..]);
    }
  }

  /** The goroutine is in a call and its next step is not blocked. */
  predicate Enabled(s: State, t: nat)
    requires t < |s.threads|
  {
    match s.threads[t].pc
    case Idle => false
    case ReadLock => s.writer.None?
    case WriteLock => s.writer.None? && s.readers == {}
    case _ => true
  }

  /** Where calls are in flight one of them can go on: the writer, else a reader, else whoever waits for a lock. */
  lemma SomebodyIsEnabled(s: State) returns (t: nat)
    requires LockInv(s) && KnownHolders(s) && exists u :: 0 <= u < |s.threads| && !s.threads[u].pc.Idle?
    ensures t < |s.threads| && Enabled(s, t)
  {
    if s.writer.Some? {
      t := s.writer.value;
      assert HoldsLocks(s, t);
    } else if s.readers != {} {
      t :| t in s.readers;
      assert HoldsLocks(s, t);
    } else {
      t :| 0 <= t < |s.threads| && !s.threads[t].pc.Idle?;
      assert HoldsLocks(s, t);
    }
  }

  /** A step that is not blocked brings its call closer to the end and touches no other. */
  lemma EnabledStepWorks(s: State, t: nat)
    requires t < |s.threads| && Enabled(s, t)
    ensures Work(Step(s, Run(t)).threads) < Work(s.threads)
  {
    var s' := Step(s, Run(t));
    RunTouchesOne(s, t);
    WorkUpdate(s.threads, t, s'.threads[t]);
  }

  lemma RunTouchesOne(s: State, t: nat)
    requires t < |s.threads| && Enabled(s, t)
    ensures var threads := Step(s, Run(t)).threads;
            && |threads| == |s.threads| && threads == s.threads[t := threads[t]]
            && Remaining(threads[t].pc) < Remaining(s.threads[t].pc)
  {
    StepFrame(s, Run(t));
    hide ReadStep, WriteStep;
    if s.threads[t].pc.InReadPart() { ReadWorks(s, t); } else { WriteWorks(s, t); }
  }

  lemma ReadWorks(s: State, t: nat)
    requires t < |s.threads| && Enabled(s, t) && s.threads[t].pc.InReadPart()
    ensures |ReadStep(s, t).threads| == |s.threads|
    ensures Remaining(ReadStep(s, t).threads[t].pc) < Remaining(s.threads[t].pc)
  {
  }

  lemma WriteWorks(s: State, t: nat)
    requires t < |s.threads| && Enabled(s, t) && !s.threads[t].pc.InReadPart()
    ensures |WriteStep(s, t).threads| == |s.threads|
    ensures Remaining(WriteStep(s, t).threads[t].pc) < Remaining(s.threads[t].pc)
  {
  }

  lemma {:induction false} CanFinish(s: State) returns (schedule: seq<Action>)
    requires LockInv(s) && KnownHolders(s)
    ensures |schedule| <= Work(s.threads) && forall i :: 0 <= i < |schedule| ==> schedule[i].Run?
    ensures var end := Execute(s, schedule);
            |end.threads| == |s.threads| && forall t :: 0 <= t < |end.threads| ==> end.threads[t].pc.Idle?
    decreases Work(s.threads)
  {
    hide LockInv, KnownHolders, Step, Work, Enabled;
    WorkIsBounded(s.threads);
    if forall t :: 0 <= t < |s.threads| ==> s.threads[t].pc.Idle? {
      schedule := [];
    } else {
      var t := SomebodyIsEnabled(s);
      var a := Run(t);
      StepKeepsLock(s, a);
      StepKeepsHolders(s, a);
      EnabledStepWorks(s, t);
      var rest := CanFinish(Step(s, a));
      schedule := [a] + rest;
      assert schedule[1..] == rest;
    }
  }

  /**
   * No deadlock: from whatever state a schedule has led to, at most eight further steps per goroutine, without a new
   * call, let every call in flight return.
   */
  lemma EveryCallCanReturn(max: int, threads: nat, schedule: seq<Action>, s: State) returns (more: seq<Action>)
    requires Reached(max, threads, schedule, s)
    ensures |more| <= 8 * threads && forall i :: 0 <= i < |more| ==> more[i].Run?
    ensures var end := Execute(s, more);
            |end.threads| == threads && forall t :: 0 <= t < |end.threads| ==> end.threads[t].pc.Idle?
  {
    InitialInv(max, threads);
    ExecuteKeepsHolders(Initial(max, threads), schedule);
    ExecuteKeepsThreads(Initial(max, threads), schedule);
    more := CanFinish(s);
    WorkIsBounded(s.threads);
  }

  lemma {:induction false} ExecuteKeepsThreads(s: State, schedule: seq<Action>)
    ensures |Execute(s, schedule).threads| == |s.threads|
    decreases |schedule|
  {
    if schedule != [] {
      if schedule[0].thread < |s.threads| { StepFrame(s, schedule[0]); }
      ExecuteKeepsThreads(Step(s, schedule[0]), schedule[1..]);
    }
  }

  // ----- the answers, in terms of the history -----

  /** The label sets that the first n operations of a history admitted under a metric. */
  ghost function AdmittedBefore(ops: seq<Op>, n: nat, metric: string): set<string>
    requires n <= |ops|
  {
    set j | 0 <= j < n && ops[j].metric == metric && ops[j].admitted :: ops[j].labels
  }

  lemma {:induction false} AdmittedMeaning(ops: seq<Op>, metric: string)
    ensures Admitted(ops, metric) == AdmittedBefore(ops, |ops|, metric)
  {
    if ops != [] {
      var n := |ops| - 1;
      AdmittedMeaning(ops[..n], metric);
      forall labels ensures labels in Admitted(ops, metric) <==> labels in AdmittedBefore(ops, |ops|, metric) {
        if labels in Admitted(ops[..n], metric) {
          var j :| 0 <= j < n && ops[..n][j].metric == metric && ops[..n][j].admitted && ops[..n][j].labels == labels;
          assert ops[j].metric == metric && ops[j].admitted && ops[j].labels == labels;
        }
        if j :| 0 <= j < |ops| && ops[j].metric == metric && ops[j].admitted && ops[j].labels == labels && j < n {
          assert ops[..n][j].metric == metric && ops[..n][j].admitted && ops[..n][j].labels == labels;
        }
      }
    }
  }

  /**
   * The answer to every finished call, exactly: it is admitted if its labels were among those admitted before the
   * point at which it took effect, or if these were fewer than the bound.
   */
  lemma AnsweredExactly(max: int, threads: nat, schedule: seq<Action>, s: State, i: nat)
    requires Reached(max, threads, schedule, s) && i < |s.finished|
    ensures var r := s.finished[i];
            && r.invoked <= r.point < |s.ops| && s.ops[r.point] == r.op
            && var known := AdmittedBefore(s.ops, r.point, r.op.metric);
               r.op.admitted <==> r.op.labels in known || |known| < (if max <= 0 then 1000 else max)
  {
    GuardIsLinearizable(max, threads, schedule, s);
    ExecuteKeepsMax(Initial(max, threads), schedule);
    hide Execute, Admitted;
    var r := s.finished[i];
    assert ReturnInv(s.ops, r);
    var before := s.ops[..r.point];
    AdmittedMeaning(before, r.op.metric);
    assert AdmittedBefore(before, |before|, r.op.metric) == AdmittedBefore(s.ops, r.point, r.op.metric) by {
      assert forall j :: 0 <= j < r.point ==> before[j] == s.ops[j];
    }
  }
}
