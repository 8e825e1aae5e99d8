/**
 * What one drain of the reference EDAC driver does from start to end, and that drains always can end
 * (edac-reference/edac_cortex_ref.c).
 */
module EdacProgress {
  import opened Wrappers
  import opened EdacDrain

  function Runs(d: nat, n: nat): seq<Action> { if n == 0 then [] else [Action.Run(d)] + Runs(d, n - 1) }

  lemma RunOnce(s: State, d: nat, n: nat)
    requires d < |s.drains| && n > 0
    ensures Execute(s, Runs(d, n)) == Execute(RunStep(s, d), Runs(d, n - 1))
  {
    hide RunStep;
    assert Runs(d, n)[1..] == Runs(d, n - 1);
  }

  lemma {:induction false} ExecuteConcat(s: State, a: seq<Action>, b: seq<Action>)
    ensures Execute(s, a + b) == Execute(Execute(s, a), b)
    decreases |a|
  {
    if a == [] {
      assert a + b == b;
    } else {
      assert (a + b)[1..] == a[1..] + b;
      hide Step;
      ExecuteConcat(Step(s, a[0]), a[1..], b);
    }
  }

  lemma {:induction false} RunsConcat(d: nat, m: nat, n: nat)
    ensures Runs(d, m + n) == Runs(d, m) + Runs(d, n)
  {
    if m > 0 { RunsConcat(d, m - 1, n); }
  }

  lemma {:induction false} IdleStays(s: State, d: nat, n: nat)
    requires d < |s.drains| && s.drains[d].Idle?
    ensures Execute(s, Runs(d, n)) == s
  {
    if n > 0 {
      RunOnce(s, d, n);
      IdleStays(s, d, n - 1);
    }
  }

  // ----- one drain, from start to end -----

  function Positive(n: int): int { if n > 0 then n else 0 }

  /** The report that is due for n errors taken: one for all of them on the current target, none for none. */
  function Due(s: State, k: Kind): seq<Report> {
    var n := s.pending.Get(k);
    if n > 0 then [Report(k, n, s.csrow, s.channel)] else []
  }

  /** Pending errors of the kind are gone, accounted for and reported; drain d goes on with `pc`. */
  function DoneWith(s: State, d: nat, k: Kind, pc: Pc): State
    requires d < |s.drains|
  {
    s.(pending := s.pending.Put(k, 0), total := s.total.Add(k, Positive(s.pending.Get(k))),
       reports := s.reports + Due(s, k), drains := s.drains[d := pc])
  }

  /** What the state is before each step of the drain; the last field of the chain is DoneWith. */
  function During(s: State, d: nat, k: Kind, pc: Pc, total: Pair, lock: Option<nat>): State
    requires d < |s.drains|
  {
    s.(pending := s.pending.Put(k, 0), total := total, lock := lock, drains := s.drains[d := pc])
  }

  lemma FirstSteps(s: State, d: nat, k: Kind)
    requires d < |s.drains| && s.drains[d] == Ready(k) && s.lock.None? && s.pending.Get(k) > 0
    ensures var n := s.pending.Get(k);
            && RunStep(s, d) == During(s, d, k, Drained(k, n), s.total, None)
            && RunStep(During(s, d, k, Drained(k, n), s.total, None), d)
               == During(s, d, k, Locked(k, n), s.total, Some(d))
            && RunStep(During(s, d, k, Locked(k, n), s.total, Some(d)), d)
               == During(s, d, k, Loaded(k, n, s.total.Get(k)), s.total, Some(d))
            && RunStep(During(s, d, k, Loaded(k, n, s.total.Get(k)), s.total, Some(d)), d)
               == During(s, d, k, Stored(k, n), s.total.Add(k, n), Some(d))
  {
  }

  lemma LastSteps(s: State, d: nat, k: Kind)
    requires d < |s.drains| && s.drains[d] == Ready(k) && s.lock.None? && s.pending.Get(k) > 0
    ensures var n := s.pending.Get(k);
            var total := s.total.Add(k, n);
            && RunStep(During(s, d, k, Stored(k, n), total, Some(d)), d)
               == During(s, d, k, Accounted(k, n), total, None)
            && RunStep(During(s, d, k, Accounted(k, n), total, None), d)
               == During(s, d, k, Addressed(k, n, s.csrow), total, None)
            && RunStep(During(s, d, k, Addressed(k, n, s.csrow), total, None), d)
               == DoneWith(s, d, k, AfterKind(k))
  {
  }

  lemma DrainKind(s: State, d: nat, k: Kind) returns (n: nat)
    requires d < |s.drains| && s.drains[d] == Ready(k) && s.lock.None?
    ensures n <= 7 && Execute(s, Runs(d, n)) == DoneWith(s, d, k, AfterKind(k))
  {
    if s.pending.Get(k) <= 0 {
      n := 1;
      RunOnce(s, d, 1);
      assert s.total.Add(k, 0) == s.total && s.reports + [] == s.reports;
    } else {
      n := 7;
      FirstSteps(s, d, k);
      LastSteps(s, d, k);
      var e, total := s.pending.Get(k), s.total.Add(k, s.pending.Get(k));
      RunOnce(s, d, 7);
      hide RunStep, Execute, Runs, During, DoneWith;
      RunOnce(During(s, d, k, Drained(k, e), s.total, None), d, 6);
      RunOnce(During(s, d, k, Locked(k, e), s.total, Some(d)), d, 5);
      RunOnce(During(s, d, k, Loaded(k, e, s.total.Get(k)), s.total, Some(d)), d, 4);
      RunOnce(During(s, d, k, Stored(k, e), total, Some(d)), d, 3);
      RunOnce(During(s, d, k, Accounted(k, e), total, None), d, 2);
      RunOnce(During(s, d, k, Addressed(k, e, s.csrow), total, None), d, 1);
      NoRuns(DoneWith(s, d, k, AfterKind(k)), d);
    }
  }

  lemma NoRuns(s: State, d: nat)
    ensures Execute(s, Runs(d, 0)) == s
  {
  }

  predicate Starts(s: State, a: Action, d: nat) { a == Interrupt(d) || (a == Poll(d) && !s.irqMode) }

  /** Both kinds one after the other, and whatever steps are left over. */
  lemma DrainBoth(s: State, d: nat, n: nat)
    requires d < |s.drains| && s.drains[d] == Ready(CE) && s.lock.None? && n >= 14
    ensures Execute(s, Runs(d, n)) == DoneWith(DoneWith(s, d, CE, Ready(UE)), d, UE, Idle)
  {
    hide Execute, RunStep;
    var i := DrainKind(s, d, CE);
    var half := DoneWith(s, d, CE, Ready(UE));
    var j := DrainKind(half, d, UE);
    var end := DoneWith(half, d, UE, Idle);
    RunsConcat(d, i, n - i);
    RunsConcat(d, j, n - i - j);
    hide Runs, DoneWith;
    ExecuteConcat(s, Runs(d, i), Runs(d, n - i));
    ExecuteConcat(half, Runs(d, j), Runs(d, n - i - j));
    DoneIsIdle(half, d, UE);
    IdleStays(end, d, n - i - j);
  }

  lemma DoneIsIdle(s: State, d: nat, k: Kind)
    requires d < |s.drains|
    ensures |DoneWith(s, d, k, Idle).drains| == |s.drains| && DoneWith(s, d, k, Idle).drains[d].Idle?
  {
  }

  /** The state after an undisturbed drain. */
  function AfterDrain(s: State): State {
    s.(pending := Pair(0, 0),
       total := Pair(s.total.ce + Positive(s.pending.ce), s.total.ue + Positive(s.pending.ue)),
       reports := s.reports + Due(s, CE) + Due(s, UE))
  }

  lemma BothDone(s: State, d: nat)
    requires d < |s.drains| && s.drains[d].Idle?
    ensures DoneWith(DoneWith(At(s, d, Ready(CE)), d, CE, Ready(UE)), d, UE, Idle) == AfterDrain(s)
  {
    assert s.drains[d := Ready(CE)][d := Ready(UE)][d := Idle] == s.drains;
  }

  /**
   * A drain that nothing disturbs: it takes all pending errors, adds them to the totals, and reports them once per
   * kind, correctable ones first, on the current target. Nothing else in the driver changes.
   */
  lemma WholeDrain(s: State, a: Action, d: nat, n: nat)
    requires d < |s.drains| && s.drains[d].Idle? && s.lock.None? && Starts(s, a, d) && n >= 14
    ensures Execute(s, [a] + Runs(d, n))
            == s.(pending := Pair(0, 0),
                  total := Pair(s.total.ce + Positive(s.pending.ce), s.total.ue + Positive(s.pending.ue)),
                  reports := s.reports + Due(s, CE) + Due(s, UE))
  {
    var started := At(s, d, Ready(CE));
    assert ([a] + Runs(d, n))[1..] == Runs(d, n);
    assert Execute(s, [a] + Runs(d, n)) == Execute(started, Runs(d, n));
    hide Execute, Runs, RunStep;
    DrainBoth(started, d, n);
    BothDone(s, d);
  }

  /** With interrupts on, the poll worker starts nothing. */
  lemma PollIsQuiet(s: State, d: nat)
    requires s.irqMode
    ensures Step(s, Poll(d)) == s
  {
  }

  /** What an injection does: within its range it queues as many errors as asked for, and otherwise nothing. */
  lemma InjectionMeaning(s: State, k: Kind, val: nat)
    ensures var s' := Step(s, Inject(k, val));
            var accepted := val != 0 && (k == CE ==> val <= 1000) && (k == UE ==> val <= 100);
            && (!accepted ==> s' == s)
            && (accepted ==> s'.injected.Get(k) == s.injected.Get(k) + val)
            && (accepted && s.pending.Get(k) + val <= INT_MAX && s.pending.Get(k) >= 0
                ==> s'.pending.Get(k) == s.pending.Get(k) + val)
            && (accepted ==> forall l: Kind :: l != k ==>
                               s'.pending.Get(l) == s.pending.Get(l) && s'.injected.Get(l) == s.injected.Get(l))
            && s'.total == s.total && s'.reports == s.reports && s'.drains == s.drains && s'.lock == s.lock
  {
  }

  /** The injection targets take exactly the values inside the topology. */
  lemma TargetMeaning(s: State, val: nat)
    ensures Step(s, SetCsrow(val)) == s.(csrow := if val < s.csrows then val else s.csrow)
    ensures Step(s, SetChannel(val)) == s.(channel := if val < s.channels then val else s.channel)
  {
  }

  // ----- drains can always end -----

  /** Steps that a drain may still need. */
  function Remaining(pc: Pc): nat {
    match pc
    case Idle => 0
    case Ready(k) => if k.CE? then 14 else 7
    case Drained(k, _) => if k.CE? then 13 else 6
    case Locked(k, _) => if k.CE? then 12 else 5
    case Loaded(k, _, _) => if k.CE? then 11 else 4
    case Stored(k, _) => if k.CE? then 10 else 3
    case Accounted(k, _) => if k.CE? then 9 else 2
    case Addressed(k, _, _) => if k.CE? then 8 else 1
  }

  function Work(drains: seq<Pc>): nat { if drains == [] then 0 else Remaining(drains[0]) + Work(drains[1..]) }

  lemma {:induction false} WorkUpdate(drains: seq<Pc>, d: nat, pc: Pc)
    requires d < |drains|
    ensures Work(drains[d := pc]) == Work(drains) - Remaining(drains[d]) + Remaining(pc)
  {
    if d == 0 {
      assert drains[0 := pc][1..] == drains[1..];
    } else {
      assert drains[d := pc][1..] == drains[1..][d - 1 := pc];
      WorkUpdate(drains[1..], d - 1, pc);
    }
  }

  ghost predicate KnownHolder(s: State) { s.lock.Some? ==> s.lock.value < |s.drains| }

  /** The drain is under way and its next step is not blocked. */
  predicate Enabled(s: State, d: nat)
    requires d < |s.drains|
  {
    !s.drains[d].Idle? && (s.drains[d].Drained? ==> s.lock.None?)
  }

  lemma EnabledStepWorks(s: State, d: nat)
    requires d < |s.drains| && Enabled(s, d)
    ensures var s' := RunStep(s, d);
            && |s'.drains| == |s.drains| && s'.drains == s.drains[d := s'.drains[d]]
            && Remaining(s'.drains[d]) < Remaining(s.drains[d])
            && s'.injected == s.injected && s'.irqMode == s.irqMode
  {
  }

  lemma RunKeepsHolder(s: State, d: nat)
    requires d < |s.drains| && KnownHolder(s)
    ensures KnownHolder(RunStep(s, d))
  {
  }

  lemma StepKeepsHolder(s: State, a: Action)
    requires KnownHolder(s)
    ensures KnownHolder(Step(s, a)) && |Step(s, a).drains| == |s.drains|
  {
    hide RunStep;
    if a.Run? && a.drain < |s.drains| {
      RunKeepsHolder(s, a.drain);
      RunKeepsCount(s, a.drain);
    }
  }

  lemma RunKeepsCount(s: State, d: nat)
    requires d < |s.drains|
    ensures |RunStep(s, d).drains| == |s.drains|
  {
  }

  lemma {:induction false} ExecuteKeepsHolder(s: State, schedule: seq<Action>)
    requires SafeInv(s) && KnownHolder(s)
    ensures var s' := Execute(s, schedule);
            SafeInv(s') && KnownHolder(s') && |s'.drains| == |s.drains|
    decreases |schedule|
  {
    hide SafeInv, KnownHolder, Step;
    if schedule != [] {
      StepKeepsSafe(s, schedule[0]);
      StepKeepsHolder(s, schedule[0]);
      ExecuteKeepsHolder(Step(s, schedule[0]), schedule[1..]);
    }
  }

  /** Where drains are under way one of them can go on: the holder of the lock, else anyone. */
  lemma SomebodyIsEnabled(s: State) returns (d: nat)
    requires SafeInv(s) && KnownHolder(s) && exists e :: 0 <= e < |s.drains| && !s.drains[e].Idle?
    ensures d < |s.drains| && Enabled(s, d)
  {
    if s.lock.Some? {
      d := s.lock.value;
      assert DrainInv(s, d);
    } else {
      d :| 0 <= d < |s.drains| && !s.drains[d].Idle?;
    }
  }

  /** A schedule that injects nothing. */
  ghost predicate OnlyDrains(schedule: seq<Action>) {
    forall i :: 0 <= i < |schedule| ==> schedule[i].Run? || schedule[i].Interrupt?
  }

  lemma {:induction false} CanComeToRest(s: State) returns (schedule: seq<Action>)
    requires SafeInv(s) && KnownHolder(s)
    ensures OnlyDrains(schedule)
    ensures var end := Execute(s, schedule);
            && |end.drains| == |s.drains| && (forall d :: 0 <= d < |end.drains| ==> end.drains[d].Idle?)
    decreases Work(s.drains)
  {
    hide SafeInv, KnownHolder, RunStep, Work, Enabled;
    if forall d :: 0 <= d < |s.drains| ==> s.drains[d].Idle? {
      schedule := [];
    } else {
      var d := SomebodyIsEnabled(s);
      var a := Action.Run(d);
      StepKeepsSafe(s, a);
      StepKeepsHolder(s, a);
      EnabledStepWorks(s, d);
      WorkUpdate(s.drains, d, RunStep(s, d).drains[d]);
      var rest := CanComeToRest(Step(s, a));
      schedule := [a] + rest;
      assert schedule[1..] == rest;
    }
  }

  lemma RestIsUnlocked(s: State)
    requires SafeInv(s) && KnownHolder(s) && forall d :: 0 <= d < |s.drains| ==> s.drains[d].Idle?
    ensures s.lock.None?
  {
    forall d | 0 <= d < |s.drains| ensures s.lock != Some(d) { assert DrainInv(s, d); }
  }

  lemma {:induction false} RunsOnlyDrain(d: nat, n: nat)
    ensures OnlyDrains(Runs(d, n))
  {
    if n > 0 { RunsOnlyDrain(d, n - 1); }
  }

  /**
   * From whatever state a schedule has led to, further steps without an injection bring the pending counters to zero
   * and all drains to rest.
   */
  lemma CanBeDrained(s: State) returns (more: seq<Action>)
    requires SafeInv(s) && KnownHolder(s) && |s.drains| >= 1
    ensures OnlyDrains(more)
    ensures var end := Execute(s, more);
            end.pending == Pair(0, 0) && forall d :: 0 <= d < |end.drains| ==> end.drains[d].Idle?
  {
    hide SafeInv, KnownHolder, Execute, Runs, Due;
    var first := CanComeToRest(s);
    var rested := Execute(s, first);
    ExecuteKeepsHolder(s, first);
    RestIsUnlocked(rested);
    WholeDrain(rested, Interrupt(0), 0, 14);
    RunsOnlyDrain(0, 14);
    more := first + ([Interrupt(0)] + Runs(0, 14));
    ExecuteConcat(s, first, [Interrupt(0)] + Runs(0, 14));
  }

  lemma {:induction false} DrainingFits(s: State, schedule: seq<Action>, more: seq<Action>, k: Kind)
    requires AllFit(s, schedule, k) && OnlyDrains(more)
    ensures AllFit(s, schedule + more, k)
    decreases |schedule| + |more|
  {
    hide Step;
    if schedule != [] {
      assert (schedule + more)[1..] == schedule[1..] + more;
      DrainingFits(Step(s, schedule[0]), schedule[1..], more, k);
    } else if more != [] {
      assert schedule + more == more;
      assert [] + more[1..] == more[1..];
      DrainingFits(Step(s, more[0]), [], more[1..], k);
    }
  }

  /**
   * No error need wait for ever: after any schedule in which no injection overflowed, some further steps without an
   * injection report every error that was injected.
   */
  lemma EveryErrorCanBeReported(csrows: int, channels: int, irqMode: bool, drains: nat, schedule: seq<Action>, k: Kind)
    returns (more: seq<Action>)
    requires Probe(csrows, channels, irqMode, drains).Some? && drains >= 1
    requires AllFit(Probe(csrows, channels, irqMode, drains).value, schedule, k)
    ensures OnlyDrains(more)
    ensures var end := Execute(Probe(csrows, channels, irqMode, drains).value, schedule + more);
            end.pending.Get(k) == 0 && Reported(end.reports, k) == end.injected.Get(k)
  {
    ProbeEstablishes(csrows, channels, irqMode, drains, k);
    var s0 := Probe(csrows, channels, irqMode, drains).value;
    hide Execute, SafeInv, AllFit, Reported;
    ExecuteKeepsHolder(s0, schedule);
    var s := Execute(s0, schedule);
    more := CanBeDrained(s);
    ExecuteConcat(s0, schedule, more);
    DrainingFits(s0, schedule, more, k);
    NothingIsLost(csrows, channels, irqMode, drains, schedule + more, k);
  }
}
