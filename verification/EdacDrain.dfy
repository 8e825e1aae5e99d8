/**
 * Injecting and draining simulated memory errors in the reference EDAC driver
 * (edac-reference/edac_cortex_ref.c): any number of drains run at once, started by the poll
 * worker or by an interrupt, against any number of writers to the injection files.
 */
module EdacDrain {
  import opened Wrappers

  datatype Kind = CE | UE

  /** One value for correctable and one for uncorrectable errors. */
  datatype Pair = Pair(ce: int, ue: int) {
    function Get(k: Kind): int { if k.CE? then ce else ue }

    function Add(k: Kind, x: int): Pair { Put(k, Get(k) + x) }

    function Put(k: Kind, x: int): Pair { if k.CE? then this.(ce := x) else this.(ue := x) }
  }

  const INT_MAX := 0x7FFF_FFFF

  /** The kernel's atomic_add on a 32-bit counter wraps around. */
  function Wrap32(x: int): (w: int)
    ensures -INT_MAX - 1 <= w <= INT_MAX
    ensures -INT_MAX - 1 <= x <= INT_MAX ==> w == x
    ensures (x - w) % 0x1_0000_0000 == 0
  {
    (x + INT_MAX + 1) % 0x1_0000_0000 - INT_MAX - 1
  }

  /** Where a drain is; each constructor stands before one atomic step. */
  datatype Pc =
    | Idle
    | Ready(kind: Kind)
    | Drained(kind: Kind, n: int)                // took n errors, not yet added to the total
    | Locked(kind: Kind, n: int)
    | Loaded(kind: Kind, n: int, seen: int)      // read the total, about to store the sum
    | Stored(kind: Kind, n: int)                 // added, lock still held
    | Accounted(kind: Kind, n: int)              // about to read the target csrow
    | Addressed(kind: Kind, n: int, csrow: int)  // about to read the target channel and report
  {
    predicate HoldsLock() { Locked? || Loaded? || Stored? }

    /** Errors this drain has taken but not yet added to the total. */
    function Carried(k: Kind): int { if (Drained? || Locked? || Loaded?) && kind == k then n else 0 }

    /** Errors it has added to the total but not yet reported. */
    function Unreported(k: Kind): int { if (Stored? || Accounted? || Addressed?) && kind == k then n else 0 }
  }

  datatype Report = Report(kind: Kind, count: int, csrow: int, channel: int)

  datatype State = State(
    csrows: int,
    channels: int,
    irqMode: bool,
    pending: Pair,
    total: Pair,
    csrow: int,
    channel: int,
    lock: Option<nat>,
    drains: seq<Pc>,
    injected: Pair,       // every error a writer has queued, for the statements only
    reports: seq<Report>)

  /** Probing fails on an impossible topology. */
  function Probe(csrows: int, channels: int, irqMode: bool, drains: nat): Option<State> {
    if csrows < 1 || csrows > 16 || channels < 1 || channels > 8 then None
    else Some(State(csrows, channels, irqMode, Pair(0, 0), Pair(0, 0), 0, 0, None,
                    seq(drains, _ => Idle), Pair(0, 0), []))
  }

  datatype Action =
    | Inject(kind: Kind, val: nat)
    | SetCsrow(val: nat)
    | SetChannel(val: nat)
    | SetIrqMode(on: bool)
    | Poll(drain: nat)
    | Interrupt(drain: nat)
    | Run(drain: nat)

  predicate ValidInjection(k: Kind, val: nat) { 1 <= val <= if k.CE? then 1000 else 100 }

  /** After the correctable errors come the uncorrectable ones. */
  function AfterKind(k: Kind): Pc { if k.CE? then Ready(UE) else Idle }

  /** One atomic step; an action that is refused, blocked or names an absent drain changes nothing. */
  function Step(s: State, a: Action): State {
    match a
    case Inject(k, val) =>
      if ValidInjection(k, val)
      then s.(pending := s.pending.Put(k, Wrap32(s.pending.Get(k) + val)), injected := s.injected.Add(k, val))
      else s
    case SetCsrow(val) => if val < s.csrows then s.(csrow := val) else s
    case SetChannel(val) => if val < s.channels then s.(channel := val) else s
    case SetIrqMode(on) => s.(irqMode := on)
    case Poll(d) => if d < |s.drains| && s.drains[d].Idle? && !s.irqMode then At(s, d, Ready(CE)) else s
    case Interrupt(d) => if d < |s.drains| && s.drains[d].Idle? then At(s, d, Ready(CE)) else s
    case Run(d) => if d < |s.drains| then RunStep(s, d) else s
  }

  function At(s: State, d: nat, pc: Pc): State
    requires d < |s.drains|
  {
    s.(drains := s.drains[d := pc])
  }

  function RunStep(s: State, d: nat): State
    requires d < |s.drains|
  {
    match s.drains[d]
    case Idle => s
    case Ready(k) =>
      var n := s.pending.Get(k);
      At(s, d, if n > 0 then Drained(k, n) else AfterKind(k)).(pending := s.pending.Put(k, 0))
    case Drained(k, n) => if s.lock.None? then At(s, d, Locked(k, n)).(lock := Some(d)) else s
    case Locked(k, n) => At(s, d, Loaded(k, n, s.total.Get(k)))
    case Loaded(k, n, seen) => At(s, d, Stored(k, n)).(total := s.total.Put(k, seen + n))
    case Stored(k, n) => At(s, d, Accounted(k, n)).(lock := None)
    case Accounted(k, n) => At(s, d, Addressed(k, n, s.csrow))
    case Addressed(k, n, csrow) => At(s, d, AfterKind(k)).(reports := s.reports + [Report(k, n, csrow, s.channel)])
  }

  function Execute(s: State, schedule: seq<Action>): State
    decreases |schedule|
  {
    if schedule == [] then s else Execute(Step(s, schedule[0]), schedule[1..])
  }

  // ----- sums over the drains and the reports -----

  function Carried(drains: seq<Pc>, k: Kind): int {
    if drains == [] then 0 else drains[0].Carried(k) + Carried(drains[1..], k)
  }

  function Unreported(drains: seq<Pc>, k: Kind): int {
    if drains == [] then 0 else drains[0].Unreported(k) + Unreported(drains[1..], k)
  }

  function Reported(reports: seq<Report>, k: Kind): int {
    if reports == [] then 0
    else
      var last := reports[|reports| - 1];
      Reported(reports[..|reports| - 1], k) + (if last.kind == k then last.count else 0)
  }

  lemma {:induction false} SumsUpdate(drains: seq<Pc>, d: nat, pc: Pc, k: Kind)
    requires d < |drains|
    ensures Carried(drains[d := pc], k) == Carried(drains, k) - drains[d].Carried(k) + pc.Carried(k)
    ensures Unreported(drains[d := pc], k) == Unreported(drains, k) - drains[d].Unreported(k) + pc.Unreported(k)
  {
    if d == 0 {
      assert drains[0 := pc][1..] == drains[1..];
    } else {
      assert drains[d := pc][1..] == drains[1..][d - 1 := pc];
      SumsUpdate(drains[1..], d - 1, pc, k);
    }
  }

  lemma {:induction false} IdleSums(drains: seq<Pc>, k: Kind)
    requires forall d :: 0 <= d < |drains| ==> drains[d].Idle?
    ensures Carried(drains, k) == 0 && Unreported(drains, k) == 0
  {
    if drains != [] { IdleSums(drains[1..], k); }
  }

  // ----- invariants -----

  /** No error is lost before it is accounted for. */
  ghost predicate Conserved(s: State, k: Kind) {
    s.injected.Get(k) == s.pending.Get(k) + Carried(s.drains, k) + s.total.Get(k)
  }

  /** What is accounted for has been reported, once, or is about to be. */
  ghost predicate ReportedOnce(s: State, k: Kind) {
    s.total.Get(k) == Reported(s.reports, k) + Unreported(s.drains, k)
  }

  ghost predicate DrainInv(s: State, d: nat)
    requires d < |s.drains|
  {
    var pc := s.drains[d];
    && (pc.HoldsLock() <==> s.lock == Some(d))
    && (pc.Loaded? ==> pc.seen == s.total.Get(pc.kind))
    && (!pc.Idle? && !pc.Ready? ==> pc.n > 0)
    && (pc.Addressed? ==> 0 <= pc.csrow < s.csrows)
  }

  /** The lock protects the totals, and targets stay inside the topology. */
  ghost predicate SafeInv(s: State) {
    && (forall d :: 0 <= d < |s.drains| ==> DrainInv(s, d))
    && 0 <= s.csrow < s.csrows && 0 <= s.channel < s.channels
    && forall i :: 0 <= i < |s.reports| ==> InTopology(s, s.reports[i])
  }

  ghost predicate InTopology(s: State, r: Report) {
    0 <= r.csrow < s.csrows && 0 <= r.channel < s.channels && r.count > 0
  }

  lemma StepKeepsSafe(s: State, a: Action)
    requires SafeInv(s)
    ensures SafeInv(Step(s, a))
  {
    var s' := Step(s, a);
    if a.Run? && a.drain < |s.drains| {
      RunKeepsSafe(s, a.drain);
    } else {
      forall d | 0 <= d < |s.drains| ensures DrainInv(s', d) { assert DrainInv(s, d); }
      forall i | 0 <= i < |s.reports| ensures InTopology(s', s.reports[i]) { assert InTopology(s, s.reports[i]); }
    }
  }

  lemma RunKeepsSafe(s: State, d: nat)
    requires d < |s.drains| && SafeInv(s)
    ensures SafeInv(RunStep(s, d))
  {
    var s' := RunStep(s, d);
    assert DrainInv(s, d);
    RunKeepsOwn(s, d);
    forall e | 0 <= e < |s.drains| ensures DrainInv(s', e) {
      assert DrainInv(s, e);
      if e != d { assert s'.drains[e] == s.drains[e]; }
    }
    forall i | 0 <= i < |s'.reports| ensures InTopology(s', s'.reports[i]) {
      if i < |s.reports| { assert InTopology(s, s.reports[i]); }
    }
  }

  lemma RunKeepsOwn(s: State, d: nat)
    requires d < |s.drains| && SafeInv(s)
    ensures DrainInv(RunStep(s, d), d)
  {
    assert DrainInv(s, d);
  }

  /** A step of a drain moves errors along the chain pending, carried, total, unreported, reported. */
  lemma RunMovesErrors(s: State, d: nat, k: Kind)
    requires d < |s.drains| && DrainInv(s, d) && s.pending.Get(k) >= 0
    ensures var s' := RunStep(s, d);
            && s'.drains == s.drains[d := s'.drains[d]]
            && s.pending.Get(k) + s.drains[d].Carried(k) + s.total.Get(k)
               == s'.pending.Get(k) + s'.drains[d].Carried(k) + s'.total.Get(k)
            && 0 <= s'.pending.Get(k) <= s.pending.Get(k)
            && s'.injected == s.injected
  {
    match s.drains[d] { case _ => }
  }

  lemma ReportedSnoc(reports: seq<Report>, r: Report, k: Kind)
    ensures Reported(reports + [r], k) == Reported(reports, k) + (if r.kind == k then r.count else 0)
  {
    assert (reports + [r])[..|reports|] == reports;
  }

  /** Up to the report itself, a drain only moves errors into the total, and owes the report. */
  lemma RunOwesReport(s: State, d: nat, k: Kind)
    requires d < |s.drains| && DrainInv(s, d) && !s.drains[d].Addressed?
    ensures var s' := RunStep(s, d);
            && s'.drains == s.drains[d := s'.drains[d]] && s'.reports == s.reports
            && s'.total.Get(k) - s.total.Get(k) == s'.drains[d].Unreported(k) - s.drains[d].Unreported(k)
  {
  }

  lemma RunReports(s: State, d: nat, k: Kind)
    requires d < |s.drains| && s.drains[d].Addressed?
    ensures var s' := RunStep(s, d);
            && s'.drains == s.drains[d := s'.drains[d]] && s'.total == s.total
            && Reported(s'.reports, k) - Reported(s.reports, k)
               == s.drains[d].Unreported(k) - s'.drains[d].Unreported(k)
  {
    hide Reported;
    var pc := s.drains[d];
    ReportedSnoc(s.reports, Report(pc.kind, pc.n, pc.csrow, s.channel), k);
  }

  lemma RunReportsErrors(s: State, d: nat, k: Kind)
    requires d < |s.drains| && DrainInv(s, d)
    ensures var s' := RunStep(s, d);
            && s'.drains == s.drains[d := s'.drains[d]]
            && s'.total.Get(k) - s.total.Get(k)
               == Reported(s'.reports, k) - Reported(s.reports, k)
                  + s'.drains[d].Unreported(k) - s.drains[d].Unreported(k)
  {
    hide RunStep, Reported;
    if s.drains[d].Addressed? { RunReports(s, d, k); } else { RunOwesReport(s, d, k); }
  }

  lemma StepKeepsReports(s: State, a: Action, k: Kind)
    requires SafeInv(s) && ReportedOnce(s, k)
    ensures ReportedOnce(Step(s, a), k)
  {
    hide RunStep;
    if a.Run? && a.drain < |s.drains| {
      assert DrainInv(s, a.drain);
      RunReportsErrors(s, a.drain, k);
      SumsUpdate(s.drains, a.drain, RunStep(s, a.drain).drains[a.drain], k);
    } else if (a.Poll? || a.Interrupt?) && a.drain < |s.drains| {
      SumsUpdate(s.drains, a.drain, Ready(CE), k);
    }
  }

  /** The one step that can lose errors is an injection that overflows the 32-bit counter. */
  predicate Fits(s: State, a: Action, k: Kind) {
    a.Inject? && a.kind == k && ValidInjection(k, a.val) ==> s.pending.Get(k) + a.val <= INT_MAX
  }

  ghost predicate PendingFits(s: State, k: Kind) { 0 <= s.pending.Get(k) <= INT_MAX }

  lemma StepKeepsConserved(s: State, a: Action, k: Kind)
    requires SafeInv(s) && PendingFits(s, k) && Conserved(s, k) && Fits(s, a, k)
    ensures Conserved(Step(s, a), k)
  {
    hide RunStep;
    if a.Run? && a.drain < |s.drains| {
      assert DrainInv(s, a.drain);
      RunMovesErrors(s, a.drain, k);
      SumsUpdate(s.drains, a.drain, RunStep(s, a.drain).drains[a.drain], k);
    } else if (a.Poll? || a.Interrupt?) && a.drain < |s.drains| {
      SumsUpdate(s.drains, a.drain, Ready(CE), k);
    }
  }

  lemma StepKeepsPending(s: State, a: Action, k: Kind)
    requires SafeInv(s) && PendingFits(s, k) && Fits(s, a, k)
    ensures PendingFits(Step(s, a), k)
  {
    hide RunStep;
    if a.Run? && a.drain < |s.drains| {
      assert DrainInv(s, a.drain);
      RunMovesErrors(s, a.drain, k);
    }
  }

  /** An accepted injection keeps the books exactly when the counter does not overflow. */
  lemma InjectionConservesExactly(s: State, k: Kind, val: nat)
    requires PendingFits(s, k) && Conserved(s, k) && ValidInjection(k, val)
    ensures Conserved(Step(s, Inject(k, val)), k) <==> s.pending.Get(k) + val <= INT_MAX
  {}

  /** No injection of the schedule overflows the counter of a kind. */
  ghost predicate AllFit(s: State, schedule: seq<Action>, k: Kind)
    decreases |schedule|
  {
    schedule != [] ==> Fits(s, schedule[0], k) && AllFit(Step(s, schedule[0]), schedule[1..], k)
  }

  // ----- after an overflow -----

  /** Errors that no counter and no drain knows of. */
  ghost function Missing(s: State, k: Kind): int {
    s.injected.Get(k) - s.pending.Get(k) - Carried(s.drains, k) - s.total.Get(k)
  }

  /** Each overflow takes 2^32 out of the books; a drain that finds the counter negative puts at most 2^31 back. */
  ghost predicate Lossy(s: State, k: Kind) {
    && -INT_MAX - 1 <= s.pending.Get(k) <= INT_MAX
    && Missing(s, k) > 0
    && (s.pending.Get(k) < 0 ==> Missing(s, k) >= 0x1_0000_0000)
  }

  lemma OverflowLoses(s: State, a: Action, k: Kind)
    requires PendingFits(s, k) && Conserved(s, k) && !Fits(s, a, k)
    ensures Lossy(Step(s, a), k)
  {
    WrapOnce(s.pending.Get(k) + a.val);
  }

  lemma WrapOnce(x: int)
    requires INT_MAX < x <= INT_MAX + 1000
    ensures Wrap32(x) == x - 0x1_0000_0000 < 0
  {
  }

  /** What a step of a drain does to the books, even when the counter is negative. */
  lemma RunMovesOrDrops(s: State, d: nat, k: Kind)
    requires d < |s.drains| && DrainInv(s, d)
    ensures var s' := RunStep(s, d);
            var before := s.pending.Get(k) + s.drains[d].Carried(k) + s.total.Get(k);
            var after := s'.pending.Get(k) + s'.drains[d].Carried(k) + s'.total.Get(k);
            && s'.drains == s.drains[d := s'.drains[d]] && s'.injected == s.injected
            && (s'.pending.Get(k) == s.pending.Get(k) || s'.pending.Get(k) == 0)
            && after == before - (if s'.pending.Get(k) != s.pending.Get(k) < 0 then s.pending.Get(k) else 0)
  {
    match s.drains[d] { case _ => }
  }

  lemma StepKeepsLossy(s: State, a: Action, k: Kind)
    requires SafeInv(s) && Lossy(s, k)
    ensures Lossy(Step(s, a), k)
  {
    hide RunStep, Wrap32;
    if a.Run? && a.drain < |s.drains| {
      assert DrainInv(s, a.drain);
      RunMovesOrDrops(s, a.drain, k);
      SumsUpdate(s.drains, a.drain, RunStep(s, a.drain).drains[a.drain], k);
    } else if (a.Poll? || a.Interrupt?) && a.drain < |s.drains| {
      SumsUpdate(s.drains, a.drain, Ready(CE), k);
    } else if a.Inject? && a.kind == k && ValidInjection(k, a.val) && s.pending.Get(k) + a.val > INT_MAX {
      WrapOnce(s.pending.Get(k) + a.val);
    }
  }

  lemma {:induction false} ExecuteKeepsLossy(s: State, schedule: seq<Action>, k: Kind)
    requires SafeInv(s) && Lossy(s, k)
    ensures Lossy(Execute(s, schedule), k)
    decreases |schedule|
  {
    hide SafeInv, Lossy, Step;
    if schedule != [] {
      StepKeepsSafe(s, schedule[0]);
      StepKeepsLossy(s, schedule[0], k);
      ExecuteKeepsLossy(Step(s, schedule[0]), schedule[1..], k);
    }
  }

  lemma {:induction false} ExecuteKeepsSafe(s: State, schedule: seq<Action>, k: Kind)
    requires SafeInv(s) && ReportedOnce(s, k)
    ensures SafeInv(Execute(s, schedule)) && ReportedOnce(Execute(s, schedule), k)
    decreases |schedule|
  {
    hide SafeInv, ReportedOnce, Step;
    if schedule != [] {
      StepKeepsSafe(s, schedule[0]);
      StepKeepsReports(s, schedule[0], k);
      ExecuteKeepsSafe(Step(s, schedule[0]), schedule[1..], k);
    }
  }

  /** The books are right after a schedule exactly when no injection overflowed: once lost, errors never come back. */
  lemma {:induction false} ExecuteConservesExactly(s: State, schedule: seq<Action>, k: Kind)
    requires SafeInv(s) && PendingFits(s, k) && Conserved(s, k)
    ensures Conserved(Execute(s, schedule), k) <==> AllFit(s, schedule, k)
    decreases |schedule|
  {
    hide SafeInv, PendingFits, Fits, Step;
    if schedule != [] {
      StepKeepsSafe(s, schedule[0]);
      if Fits(s, schedule[0], k) {
        StepKeepsPending(s, schedule[0], k);
        StepKeepsConserved(s, schedule[0], k);
        ExecuteConservesExactly(Step(s, schedule[0]), schedule[1..], k);
      } else {
        OverflowLoses(s, schedule[0], k);
        ExecuteKeepsLossy(Step(s, schedule[0]), schedule[1..], k);
      }
    }
  }

  lemma ProbeEstablishes(csrows: int, channels: int, irqMode: bool, drains: nat, k: Kind)
    ensures var r := Probe(csrows, channels, irqMode, drains);
            && (r.Some? <==> 1 <= csrows <= 16 && 1 <= channels <= 8)
            && (r.Some? ==>
                  && SafeInv(r.value) && PendingFits(r.value, k)
                  && Conserved(r.value, k) && ReportedOnce(r.value, k))
  {
    IdleSums(seq(drains, _ => Idle), k);
  }

  // ----- what every schedule guarantees -----

  /** Whatever overlaps, each accounted error is reported exactly once and only for slots that exist. */
  lemma NothingReportedTwice(csrows: int, channels: int, irqMode: bool, drains: nat, schedule: seq<Action>, k: Kind)
    requires Probe(csrows, channels, irqMode, drains).Some?
    ensures var s := Execute(Probe(csrows, channels, irqMode, drains).value, schedule);
            && ReportedOnce(s, k)
            && forall i :: 0 <= i < |s.reports|
                           ==> 0 <= s.reports[i].csrow < csrows && 0 <= s.reports[i].channel < channels
  {
    ProbeEstablishes(csrows, channels, irqMode, drains, k);
    var s0 := Probe(csrows, channels, irqMode, drains).value;
    ExecuteKeepsSafe(s0, schedule, k);
    ExecuteKeepsTopology(s0, schedule);
    var s := Execute(s0, schedule);
    assert forall i :: 0 <= i < |s.reports| ==> InTopology(s, s.reports[i]);
  }

  lemma {:induction false} ExecuteKeepsTopology(s: State, schedule: seq<Action>)
    ensures Execute(s, schedule).csrows == s.csrows && Execute(s, schedule).channels == s.channels
    decreases |schedule|
  {
    if schedule != [] { ExecuteKeepsTopology(Step(s, schedule[0]), schedule[1..]); }
  }

  /**
   * Under every interleaving injected errors are those pending, those in the hands of a drain and those reported,
   * if and only if no injection overflowed the counter. Then, when nothing is pending and no drain runs, all have
   * been reported.
   */
  lemma NothingIsLost(csrows: int, channels: int, irqMode: bool, drains: nat, schedule: seq<Action>, k: Kind)
    requires Probe(csrows, channels, irqMode, drains).Some?
    ensures var s0 := Probe(csrows, channels, irqMode, drains).value;
            var s := Execute(s0, schedule);
            && (AllFit(s0, schedule, k) <==>
                  s.injected.Get(k)
                  == s.pending.Get(k) + Carried(s.drains, k) + Unreported(s.drains, k) + Reported(s.reports, k))
            && (AllFit(s0, schedule, k) && s.pending.Get(k) == 0
                && (forall d :: 0 <= d < |s.drains| ==> s.drains[d].Idle?) ==>
                  Reported(s.reports, k) == s.injected.Get(k))
  {
    ProbeEstablishes(csrows, channels, irqMode, drains, k);
    var s0 := Probe(csrows, channels, irqMode, drains).value;
    ExecuteKeepsSafe(s0, schedule, k);
    ExecuteConservesExactly(s0, schedule, k);
    var s := Execute(s0, schedule);
    if forall d :: 0 <= d < |s.drains| ==> s.drains[d].Idle? { IdleSums(s.drains, k); }
  }
}
