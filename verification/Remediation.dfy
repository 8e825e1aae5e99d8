/**
 * The remediation controller's cooldown (remediation/remediation-controller.py) and the webhook that clears it
 * (remediation/webhook-server.py), both working on the same state file. The sections that load and save the file
 * do not overlap here; times are microseconds of one nondecreasing clock.
 */
module Remediation {
  import opened Wrappers

  type Time = int

  /** What a `last_action` field can hold: nothing, text that is no timestamp, or a timestamp. */
  datatype LastAction = Missing | Invalid | At(time: Time)

  datatype Entry = Entry(lastAction: LastAction, probability: real, dryRun: bool)

  type State = map<string, Entry>

  datatype File = Absent | Corrupt | Json(state: State)

  datatype Config = Config(threshold: real, cooldownHours: real, dryRun: bool)

  /**
   * One series of the query: when the cooldown is checked, when the action is recorded, and whether the patches
   * work.
   */
  datatype Series = Series(node: string, value: real, check: Time, record: Time, patched: bool)

  datatype Event = Acted(node: string, at: Time) | Confirmed(node: string)

  /** A poll with its query result (None when the query fails), or a confirmed replacement. */
  datatype Step = Poll(series: Option<seq<Series>>) | Confirm(node: string)

  function Load(file: File): State { if file.Json? then file.state else map[] }

  function ElapsedHours(now: Time, last: Time): real { (now - last) as real / 1_000_000.0 / 3600.0 }

  predicate CooldownActive(state: State, node: string, now: Time, cfg: Config) {
    && node in state
    && state[node].lastAction.At?
    && ElapsedHours(now, state[node].lastAction.time) < cfg.cooldownHours
  }

  // ----- runs as functions -----

  /** The series calls for an action, and the action is carried out and recorded. */
  predicate Acts(state: State, s: Series, cfg: Config) {
    && s.value > cfg.threshold
    && !CooldownActive(state, s.node, s.check, cfg)
    && (cfg.dryRun || s.patched)
  }

  /** The state under work in one poll and the actions of the poll. */
  datatype Work = Work(state: State, log: seq<Event>)

  function Handle(w: Work, s: Series, cfg: Config): Work {
    if Acts(w.state, s, cfg) then
      Work(w.state[s.node := Entry(At(s.record), s.value, cfg.dryRun)], w.log + [Acted(s.node, s.record)])
    else w
  }

  function HandleAll(w: Work, series: seq<Series>, cfg: Config): Work {
    if series == [] then w
    else Handle(HandleAll(w, series[..|series| - 1], cfg), series[|series| - 1], cfg)
  }

  /** The file and everything that was recorded in it or cleared from it. */
  datatype World = World(file: File, log: seq<Event>)

  function StepOf(w: World, step: Step, cfg: Config): World {
    match step
    case Poll(None) => w
    case Poll(Some(series)) =>
      var done := HandleAll(Work(Load(w.file), w.log), series, cfg);
      World(Json(done.state), done.log)
    case Confirm(node) =>
      World(if node in Load(w.file) then Json(Load(w.file) - {node}) else w.file, w.log + [Confirmed(node)])
  }

  function Run(initial: File, steps: seq<Step>, cfg: Config): World {
    if steps == [] then World(initial, [])
    else StepOf(Run(initial, steps[..|steps| - 1], cfg), steps[|steps| - 1], cfg)
  }

  lemma RunSnoc(initial: File, steps: seq<Step>, step: Step, cfg: Config)
    ensures Run(initial, steps + [step], cfg) == StepOf(Run(initial, steps, cfg), step, cfg)
  {
    assert (steps + [step])[..|steps|] == steps;
  }

  lemma CountConfirmed(log: seq<Event>, node: string)
    ensures forall n :: Count(log + [Confirmed(node)], n) == Count(log, n)
  {
    assert (log + [Confirmed(node)])[..|log|] == log;
  }

  /** What a poll reports about a node's cooldown: the finding at the last series that names it, None if none does. */
  function Shown(start: Work, series: seq<Series>, node: string, cfg: Config): Option<bool> {
    if series == [] then None
    else
      var n := |series| - 1;
      if series[n].node != node then Shown(start, series[..n], node, cfg)
      else Some(series[n].value > cfg.threshold
                && CooldownActive(HandleAll(start, series[..n], cfg).state, node, series[n].check, cfg))
  }

  function Update(gauge: map<string, bool>, node: string, shown: Option<bool>): Option<bool> {
    if shown.Some? then shown else if node in gauge then Some(gauge[node]) else None
  }

  // ----- the two programs -----

  class System {
    const cfg: Config
    var file: File
    var actionsTotal: map<string, nat>
    var pollErrors: nat
    var atRisk: nat
    var cooldownActive: map<string, bool>
    var confirmedTotal: map<string, nat>
    var retrainRequested: bool
    ghost const initial: File
    ghost var steps: seq<Step>
    ghost var log: seq<Event>

    ghost predicate Valid()
      reads this
    {
      && Run(initial, steps, cfg) == World(file, log)
      && forall node :: Actions(node) == Count(log, node)
    }

    function Actions(node: string): nat
      reads `actionsTotal
    {
      if node in actionsTotal then actionsTotal[node] else 0
    }

    function Confirmations(component: string): nat
      reads `confirmedTotal
    {
      if component in confirmedTotal then confirmedTotal[component] else 0
    }

    constructor (file: File, cfg: Config)
      ensures Valid() && this.cfg == cfg && initial == file && steps == []
    {
      this.cfg, this.file, this.initial := cfg, file, file;
      actionsTotal, pollErrors, atRisk, cooldownActive := map[], 0, 0, map[];
      confirmedTotal, retrainRequested, steps, log := map[], false, [], [];
    }

    method PollOnce(query: Option<seq<Series>>)
      requires Valid()
      modifies `file, `steps, `log, `actionsTotal, `pollErrors, `atRisk, `cooldownActive
      ensures Valid() && steps == old(steps) + [Poll(query)]
      ensures query.None? ==> file == old(file) && log == old(log) && atRisk == old(atRisk)
      ensures query.None? ==> pollErrors == old(pollErrors) + 1 && cooldownActive == old(cooldownActive)
      ensures query.Some? ==> pollErrors == old(pollErrors) && atRisk == Risky(query.value, cfg)
      ensures query.Some? ==> forall node ::
                Update(cooldownActive, node, None)
                == Update(old(cooldownActive), node, Shown(Work(Load(old(file)), old(log)), query.value, node, cfg))
    {
      hide CooldownActive, Run, Handle, Count;
      RunSnoc(initial, steps, Poll(query), cfg);
      steps := steps + [Poll(query)];
      if query.None? {
        pollErrors := pollErrors + 1;
        return;
      }
      var series := query.value;
      var state := Load(file);
      var risky := 0;
      ghost var start := Work(state, log);
      for i := 0 to |series|
        modifies `actionsTotal, `log, `cooldownActive
        invariant Work(state, log) == HandleAll(start, series[..i], cfg)
        invariant risky == Risky(series[..i], cfg)
        invariant forall node :: Actions(node) == Count(log, node)
        invariant forall node ::
                    Update(cooldownActive, node, None)
                    == Update(old(cooldownActive), node, Shown(start, series[..i], node, cfg))
      {
        assert series[..i + 1][..i] == series[..i];
        state := HandleOne(series[i], state);
        if series[i].value > cfg.threshold { risky := risky + 1; }
      }
      assert series[..|series|] == series;
      atRisk := risky;
      file := Json(state);
    }

    /** One series: the gauge of its node, and the action with its entry, log line and counter. */
    method HandleOne(s: Series, state: State) returns (after: State)
      requires forall node :: Actions(node) == Count(log, node)
      modifies `actionsTotal, `log, `cooldownActive
      ensures Work(after, log) == Handle(Work(state, old(log)), s, cfg)
      ensures forall node :: Actions(node) == Count(log, node)
      ensures cooldownActive
           == old(cooldownActive)[s.node := s.value > cfg.threshold && CooldownActive(state, s.node, s.check, cfg)]
    {
      hide CooldownActive;
      after := state;
      if s.value > cfg.threshold {
        var active := IsActive(state, s.node, s.check, cfg);
        cooldownActive := cooldownActive[s.node := active];
        if active { return; }
        if cfg.dryRun || s.patched {
          after := state[s.node := Entry(At(s.record), s.value, cfg.dryRun)];
          assert (log + [Acted(s.node, s.record)])[..|log|] == log;
          log := log + [Acted(s.node, s.record)];
          actionsTotal := actionsTotal[s.node := Actions(s.node) + 1];
        }
      } else {
        cooldownActive := cooldownActive[s.node := false];
      }
    }

    method HandleReplacementConfirmed(node: string, component: string)
      requires Valid()
      modifies `file, `steps, `log, `confirmedTotal, `retrainRequested
      ensures Valid() && steps == old(steps) + [Confirm(node)]
      ensures log == old(log) + [Confirmed(node)]
      ensures Load(file) == Load(old(file)) - {node}
      ensures node !in Load(old(file)) ==> file == old(file)
      ensures retrainRequested
      ensures confirmedTotal == old(confirmedTotal)[component := old(Confirmations(component)) + 1]
    {
      hide Run;
      RunSnoc(initial, steps, Confirm(node), cfg);
      CountConfirmed(log, node);
      hide Count;
      steps := steps + [Confirm(node)];
      var state := Load(file);
      if node in state {
        file := Json(state - {node});
      }
      retrainRequested := true;
      confirmedTotal := confirmedTotal[component := Confirmations(component) + 1];
      log := log + [Confirmed(node)];
    }
  }

  method IsActive(state: State, node: string, now: Time, cfg: Config) returns (active: bool)
    ensures active <==> CooldownActive(state, node, now, cfg)
  {
    if node !in state { return false; }
    match state[node].lastAction
    case Missing => return false;
    case Invalid => return false;
    case At(last) => return ElapsedHours(now, last) < cfg.cooldownHours;
  }

  function Count(log: seq<Event>, node: string): nat {
    if log == [] then 0
    else
      var e := log[|log| - 1];
      Count(log[..|log| - 1], node) + (if e.Acted? && e.node == node then 1 else 0)
  }

  function Risky(series: seq<Series>, cfg: Config): nat {
    if series == [] then 0
    else Risky(series[..|series| - 1], cfg) + (if series[|series| - 1].value > cfg.threshold then 1 else 0)
  }

  // ----- what holds over every run -----

  /** What the log says last about a node. */
  datatype Status = Untouched | Cleared | ActedAt(time: Time)

  function StatusOf(log: seq<Event>, node: string): Status {
    if log == [] then Untouched
    else
      var e := log[|log| - 1];
      if e.node != node then StatusOf(log[..|log| - 1], node)
      else if e.Acted? then ActedAt(e.at) else Cleared
  }

  /** At least the cooldown lies between two times; an hour has 3_600_000_000 microseconds. */
  predicate Away(now: Time, last: Time, cfg: Config) { (now - last) as real >= cfg.cooldownHours * 3_600_000_000.0 }

  lemma HoursOfMicroseconds(now: Time, last: Time, cfg: Config)
    ensures ElapsedHours(now, last) >= cfg.cooldownHours <==> Away(now, last, cfg)
  {
  }

  /** The cooldown judged by the whole log, and by the initial file for a node that the log does not mention. */
  predicate Blocked(initial: File, log: seq<Event>, node: string, now: Time, cfg: Config) {
    match StatusOf(log, node)
    case Untouched =>
      && initial.Json? && node in initial.state
      && initial.state[node].lastAction.At? && !Away(now, initial.state[node].lastAction.time, cfg)
    case Cleared => false
    case ActedAt(last) => !Away(now, last, cfg)
  }

  ghost predicate Matches(initial: State, state: State, status: Status, node: string) {
    match status
    case Untouched => (node in state <==> node in initial) && (node in state ==> state[node] == initial[node])
    case Cleared => node !in state
    case ActedAt(last) => node in state && state[node].lastAction == At(last)
  }

  ghost predicate UpTo(log: seq<Event>, now: Time) {
    && (forall i :: 0 <= i < |log| && log[i].Acted? ==> log[i].at <= now)
    && forall i, j :: 0 <= i < j < |log| && log[i].Acted? && log[j].Acted? ==> log[i].at <= log[j].at
  }

  /** Every action comes a whole cooldown after what the log then said about its node. */
  ghost predicate Spaced(log: seq<Event>, cfg: Config) {
    forall k :: 0 <= k < |log| && log[k].Acted? && StatusOf(log[..k], log[k].node).ActedAt?
      ==> Away(log[k].at, StatusOf(log[..k], log[k].node).time, cfg)
  }

  ghost predicate Inv(initial: State, state: State, log: seq<Event>, now: Time, cfg: Config) {
    && UpTo(log, now) && Spaced(log, cfg)
    && forall node :: Matches(initial, state, StatusOf(log, node), node)
  }

  ghost predicate SeriesInOrder(series: seq<Series>, from: Time) {
    && (forall i :: 0 <= i < |series| ==> from <= series[i].check <= series[i].record)
    && forall i, j :: 0 <= i < j < |series| ==> series[i].record <= series[j].check
  }

  function EndOf(series: seq<Series>, from: Time): Time {
    if series == [] then from else series[|series| - 1].record
  }

  /** The clock readings of a run never go back; the result is the last one. */
  function Clock(steps: seq<Step>, from: Time): Time {
    if steps == [] then from
    else
      var before, step := Clock(steps[..|steps| - 1], from), steps[|steps| - 1];
      if step.Poll? && step.series.Some? then EndOf(step.series.value, before) else before
  }

  ghost predicate InOrder(steps: seq<Step>, from: Time) {
    steps == []
    || var before, step := steps[..|steps| - 1], steps[|steps| - 1];
       && InOrder(before, from)
       && (step.Poll? && step.series.Some? ==> SeriesInOrder(step.series.value, Clock(before, from)))
  }

  lemma StatusSnoc(log: seq<Event>, e: Event, node: string)
    ensures StatusOf(log + [e], node)
         == if e.node != node then StatusOf(log, node) else if e.Acted? then ActedAt(e.at) else Cleared
  {
    assert (log + [e])[..|log|] == log;
  }

  /** The state that a program works on gives the same answer as the whole log. */
  lemma StateAgreesWithLog(initial: File, state: State, log: seq<Event>, node: string, now: Time, cfg: Config)
    requires Matches(Load(initial), state, StatusOf(log, node), node)
    ensures CooldownActive(state, node, now, cfg) <==> Blocked(initial, log, node, now, cfg)
  {
    hide ElapsedHours, Away;
    forall last { HoursOfMicroseconds(now, last, cfg); }
  }

  lemma AwayIsMonotone(a: Time, b: Time, c: Time, d: Time, cfg: Config)
    requires a <= b && c >= d && Away(a, c, cfg)
    ensures Away(b, d, cfg)
  {
    assert (b - d) as real >= (a - c) as real;
  }

  lemma SpacedSnoc(log: seq<Event>, e: Event, cfg: Config)
    requires Spaced(log, cfg)
    requires e.Acted? && StatusOf(log, e.node).ActedAt?
             ==> Away(e.at, StatusOf(log, e.node).time, cfg)
    ensures Spaced(log + [e], cfg)
  {
    hide Away, StatusOf;
    var after := log + [e];
    forall k | 0 <= k < |after| && after[k].Acted? && StatusOf(after[..k], after[k].node).ActedAt?
      ensures Away(after[k].at, StatusOf(after[..k], after[k].node).time, cfg) {
      if k < |log| { assert after[..k] == log[..k]; } else { assert after[..k] == log; }
    }
  }

  lemma HandleKeepsInv(initial: State, w: Work, now: Time, s: Series, cfg: Config)
    requires Inv(initial, w.state, w.log, now, cfg) && now <= s.check <= s.record
    ensures Inv(initial, Handle(w, s, cfg).state, Handle(w, s, cfg).log, s.record, cfg)
  {
    hide ElapsedHours, Away, StatusOf, Spaced;
    var after := Handle(w, s, cfg);
    if Acts(w.state, s, cfg) {
      var e := Acted(s.node, s.record);
      forall node ensures Matches(initial, after.state, StatusOf(after.log, node), node) { StatusSnoc(w.log, e, node); }
      if StatusOf(w.log, s.node).ActedAt? {
        var last := StatusOf(w.log, s.node).time;
        HoursOfMicroseconds(s.check, last, cfg);
        AwayIsMonotone(s.check, s.record, last, last, cfg);
      }
      SpacedSnoc(w.log, e, cfg);
    }
  }

  lemma {:induction false} HandleAllKeepsInv(initial: State, w: Work, now: Time, series: seq<Series>, cfg: Config)
    requires Inv(initial, w.state, w.log, now, cfg) && SeriesInOrder(series, now)
    ensures Inv(initial, HandleAll(w, series, cfg).state, HandleAll(w, series, cfg).log, EndOf(series, now), cfg)
  {
    hide Inv, Handle;
    if series != [] {
      var n := |series| - 1;
      HandleAllKeepsInv(initial, w, now, series[..n], cfg);
      HandleKeepsInv(initial, HandleAll(w, series[..n], cfg), EndOf(series[..n], now), series[n], cfg);
    }
  }

  lemma ConfirmKeepsInv(initial: State, state: State, log: seq<Event>, now: Time, node: string, cfg: Config)
    requires Inv(initial, state, log, now, cfg)
    ensures Inv(initial, state - {node}, log + [Confirmed(node)], now, cfg)
  {
    hide ElapsedHours, Away, StatusOf, Spaced;
    SpacedSnoc(log, Confirmed(node), cfg);
    forall n ensures Matches(initial, state - {node}, StatusOf(log + [Confirmed(node)], n), n) {
      StatusSnoc(log, Confirmed(node), n);
    }
  }

  lemma {:induction false} RunKeepsInv(initial: File, steps: seq<Step>, from: Time, cfg: Config)
    requires InOrder(steps, from)
    ensures var w := Run(initial, steps, cfg);
            Inv(Load(initial), Load(w.file), w.log, Clock(steps, from), cfg)
  {
    if steps != [] {
      hide Inv, HandleAll;
      var n := |steps| - 1;
      RunKeepsInv(initial, steps[..n], from, cfg);
      var w, now := Run(initial, steps[..n], cfg), Clock(steps[..n], from);
      match steps[n]
      case Poll(None) =>
      case Poll(Some(series)) =>
        HandleAllKeepsInv(Load(initial), Work(Load(w.file), w.log), now, series, cfg);
      case Confirm(node) =>
        ConfirmKeepsInv(Load(initial), Load(w.file), w.log, now, node, cfg);
        assert node !in Load(w.file) ==> Load(w.file) - {node} == Load(w.file);
    }
  }

  /** After an action on a node that nothing clears, the log keeps a time for it that is no earlier. */
  lemma {:induction false} StatusAfter(log: seq<Event>, i: nat, now: Time)
    requires i < |log| && log[i].Acted? && UpTo(log, now)
    requires forall k :: i < k < |log| ==> log[k] != Confirmed(log[i].node)
    ensures StatusOf(log, log[i].node).ActedAt? && StatusOf(log, log[i].node).time >= log[i].at
  {
    var n := |log| - 1;
    if i < n && log[n].node != log[i].node { StatusAfter(log[..n], i, now); }
  }

  /**
   * The cooldown: over every run of polls and confirmations, from any state file, two recorded actions on one node
   * without a confirmation for it in between are at least the cooldown apart.
   */
  lemma CooldownHolds(initial: File, steps: seq<Step>, from: Time, cfg: Config, i: nat, j: nat)
    requires InOrder(steps, from)
    requires var log := Run(initial, steps, cfg).log;
             && i < j < |log| && log[i].Acted? && log[j].Acted? && log[i].node == log[j].node
             && forall k :: i < k < j ==> log[k] != Confirmed(log[i].node)
    ensures var log := Run(initial, steps, cfg).log;
            (log[j].at - log[i].at) as real >= cfg.cooldownHours * 3_600_000_000.0
  {
    RunKeepsInv(initial, steps, from, cfg);
    hide Run;
    var log := Run(initial, steps, cfg).log;
    StatusAfter(log[..j], i, Clock(steps, from));
    AwayIsMonotone(log[j].at, log[j].at, StatusOf(log[..j], log[j].node).time, log[i].at, cfg);
  }

  /** The converse: the controller acts on a risky series unless the log itself blocks it. */
  lemma ActsUnlessBlocked(initial: File, steps: seq<Step>, from: Time, series: seq<Series>, i: nat, cfg: Config)
    requires InOrder(steps + [Poll(Some(series))], from) && i < |series|
    ensures var w := Run(initial, steps, cfg);
            var work := HandleAll(Work(Load(w.file), w.log), series[..i], cfg);
            var s := series[i];
            Acts(work.state, s, cfg)
            <==> s.value > cfg.threshold && (cfg.dryRun || s.patched)
                 && !Blocked(initial, work.log, s.node, s.check, cfg)
  {
    assert (steps + [Poll(Some(series))])[..|steps|] == steps;
    RunKeepsInv(initial, steps, from, cfg);
    var w := Run(initial, steps, cfg);
    HandleAllKeepsInv(Load(initial), Work(Load(w.file), w.log), Clock(steps, from), series[..i], cfg);
    hide HandleAll, Run;
    var work := HandleAll(Work(Load(w.file), w.log), series[..i], cfg);
    StateAgreesWithLog(initial, work.state, work.log, series[i].node, series[i].check, cfg);
  }

  /** A confirmation touches one entry: what the controller would decide about any other node stays as it was. */
  lemma ConfirmationIsLocal(initial: File, steps: seq<Step>, cfg: Config, node: string, other: string, now: Time)
    ensures var before := Load(Run(initial, steps, cfg).file);
            var after := Load(Run(initial, steps + [Confirm(node)], cfg).file);
            && !CooldownActive(after, node, now, cfg)
            && (other != node ==> (CooldownActive(after, other, now, cfg) <==> CooldownActive(before, other, now, cfg)))
            && after == before - {node}
  {
    assert (steps + [Confirm(node)])[..|steps|] == steps;
  }

  /** Whether series k of a poll leads to an action. */
  predicate ActsAt(start: Work, series: seq<Series>, k: nat, cfg: Config)
    requires k < |series|
  {
    Acts(HandleAll(start, series[..k], cfg).state, series[k], cfg)
  }

  /** The entry that an action records stays as it is until a series of that node acts again. */
  lemma {:induction false} EntryStays(start: Work, series: seq<Series>, i: nat, j: nat, cfg: Config)
    requires i < j <= |series| && ActsAt(start, series, i, cfg)
    requires forall k :: i < k < j && series[k].node == series[i].node ==> !ActsAt(start, series, k, cfg)
    ensures var state := HandleAll(start, series[..j], cfg).state;
            && series[i].node in state
            && state[series[i].node] == Entry(At(series[i].record), series[i].value, cfg.dryRun)
    decreases j
  {
    hide Acts;
    assert series[..j][..j - 1] == series[..j - 1];
    if i < j - 1 { EntryStays(start, series, i, j - 1, cfg); }
  }

  /**
   * When a poll acts on a node again: once a series has led to an action, the next series of its node that could
   * lead to one does so exactly when a whole cooldown has passed inside the poll. Start state and other series are
   * arbitrary.
   */
  lemma ActsTwiceInOnePoll(start: Work, series: seq<Series>, i: nat, j: nat, cfg: Config)
    requires i < j < |series| && series[i].node == series[j].node && ActsAt(start, series, i, cfg)
    requires forall k :: i < k < j && series[k].node == series[i].node ==> !ActsAt(start, series, k, cfg)
    ensures ActsAt(start, series, j, cfg)
            <==> && series[j].value > cfg.threshold && (cfg.dryRun || series[j].patched)
                 && (series[j].check - series[i].record) as real >= cfg.cooldownHours * 3_600_000_000.0
  {
    hide HandleAll, ElapsedHours;
    EntryStays(start, series, i, j, cfg);
    HoursOfMicroseconds(series[j].check, series[i].record, cfg);
  }

  /** A poll that breaks "one action per node and poll": two risky series of one node, and an hour between them. */
  lemma TwoActionsInOnePoll(node: string)
    ensures var cfg := Config(0.8, 1.0, true);
            var series := [Series(node, 0.9, 0, 0, true), Series(node, 0.9, 3_600_000_000, 3_600_000_000, true)];
            && SeriesInOrder(series, 0)
            && HandleAll(Work(map[], []), series, cfg).log == [Acted(node, 0), Acted(node, 3_600_000_000)]
  {
    var cfg := Config(0.8, 1.0, true);
    var first, second := Series(node, 0.9, 0, 0, true), Series(node, 0.9, 3_600_000_000, 3_600_000_000, true);
    var series, start := [first, second], Work(map[], []);
    assert series[..1] == [first] && series[..0] == [] && [first][..0] == [];
    assert HandleAll(start, [first], cfg) == Handle(start, first, cfg);
    assert HandleAll(start, series, cfg) == Handle(HandleAll(start, [first], cfg), second, cfg);
    assert ActsAt(start, series, 0, cfg);
    ActsTwiceInOnePoll(start, series, 0, 1, cfg);
  }

  /** Some later series of the node of series i is risky, carried out, and a whole cooldown away. */
  ghost predicate CooldownPasses(series: seq<Series>, i: nat, cfg: Config)
    requires i < |series|
  {
    exists j :: i < j < |series| && series[j].node == series[i].node && Due(series[j], series[i].record, cfg)
  }

  predicate Due(s: Series, last: Time, cfg: Config) {
    s.value > cfg.threshold && (cfg.dryRun || s.patched) && Away(s.check, last, cfg)
  }

  /**
   * Hence a poll that acted on a node acts on it again if and only if a cooldown passes before a later series of
   * it.
   */
  lemma ActsAgainExactly(start: Work, series: seq<Series>, i: nat, cfg: Config)
    requires i < |series| && ActsAt(start, series, i, cfg)
    ensures CooldownPasses(series, i, cfg)
            <==> exists j :: i < j < |series| && series[j].node == series[i].node && ActsAt(start, series, j, cfg)
  {
    hide HandleAll, ActsAt, Due;
    if j :| i < j < |series| && series[j].node == series[i].node && Due(series[j], series[i].record, cfg) {
      if forall k :: i < k < j && series[k].node == series[i].node ==> !ActsAt(start, series, k, cfg) {
        DueActs(start, series, i, j, cfg);
      }
    }
    if j :| i < j < |series| && series[j].node == series[i].node && ActsAt(start, series, j, cfg) {
      var k := FirstAgain(start, series, i, j, cfg);
      DueActs(start, series, i, k, cfg);
    }
  }

  lemma DueActs(start: Work, series: seq<Series>, i: nat, j: nat, cfg: Config)
    requires i < j < |series| && series[i].node == series[j].node && ActsAt(start, series, i, cfg)
    requires forall k :: i < k < j && series[k].node == series[i].node ==> !ActsAt(start, series, k, cfg)
    ensures ActsAt(start, series, j, cfg) <==> Due(series[j], series[i].record, cfg)
  {
    ActsTwiceInOnePoll(start, series, i, j, cfg);
  }

  lemma {:induction false} FirstAgain(start: Work, series: seq<Series>, i: nat, j: nat, cfg: Config) returns (k: nat)
    requires i < j < |series| && series[j].node == series[i].node && ActsAt(start, series, j, cfg)
    ensures i < k <= j && series[k].node == series[i].node && ActsAt(start, series, k, cfg)
    ensures forall l :: i < l < k && series[l].node == series[i].node ==> !ActsAt(start, series, l, cfg)
    decreases j
  {
    hide ActsAt;
    if l :| i < l < j && series[l].node == series[i].node && ActsAt(start, series, l, cfg) {
      k := FirstAgain(start, series, i, l, cfg);
    } else {
      k := j;
    }
  }

  /** A poll only adds actions to the log, at times between its first check and its last record. */
  lemma {:induction false} PollExtendsLog(w: Work, series: seq<Series>, from: Time, cfg: Config)
    requires SeriesInOrder(series, from)
    ensures var log := HandleAll(w, series, cfg).log;
            && |w.log| <= |log| && log[..|w.log|] == w.log
            && forall k :: |w.log| <= k < |log| ==> log[k].Acted? && from <= log[k].at <= EndOf(series, from)
  {
    hide Acts;
    if series != [] { PollExtendsLog(w, series[..|series| - 1], from, cfg); }
  }

  /** A poll that is shorter than the cooldown acts at most once on a node, however many series name it. */
  lemma OncePerPoll(initial: File, steps: seq<Step>, series: seq<Series>, from: Time, cfg: Config, i: nat, j: nat)
    requires InOrder(steps + [Poll(Some(series))], from) && series != []
    requires (series[|series| - 1].record - series[0].check) as real < cfg.cooldownHours * 3_600_000_000.0
    requires |Run(initial, steps, cfg).log| <= i < j < |Run(initial, steps + [Poll(Some(series))], cfg).log|
    ensures var log := Run(initial, steps + [Poll(Some(series))], cfg).log;
            log[i].Acted? && log[j].Acted? && log[i].node != log[j].node
  {
    var more := steps + [Poll(Some(series))];
    assert more[..|steps|] == steps;
    var w, log := Run(initial, steps, cfg), Run(initial, more, cfg).log;
    PollExtendsLog(Work(Load(w.file), w.log), series, series[0].check, cfg);
    assert log == HandleAll(Work(Load(w.file), w.log), series, cfg).log;
    hide Run, HandleAll, InOrder;
    assert (log[j].at - log[i].at) as real <= (series[|series| - 1].record - series[0].check) as real;
    if log[i].node == log[j].node { CooldownHolds(initial, more, from, cfg, i, j); }
  }

  // ----- the numbers that the programs show -----

  /** The gauge of nodes at risk counts the series above the threshold. */
  lemma {:induction false} RiskyMeaning(series: seq<Series>, cfg: Config)
    ensures Risky(series, cfg) == |Above(series, cfg)|
  {
    if series == [] {
      assert Above(series, cfg) == {};
    } else {
      var n := |series| - 1;
      RiskyMeaning(series[..n], cfg);
      var before, hit := Above(series[..n], cfg), series[n].value > cfg.threshold;
      forall i: nat ensures i in Above(series, cfg) <==> i in before || (i == n && hit) {
        if i < n { assert series[..n][i] == series[i]; }
      }
      assert Above(series, cfg) == before + (if hit then {n} else {});
      assert n !in before;
    }
  }

  ghost function Above(series: seq<Series>, cfg: Config): set<nat> {
    set i: nat | i < |series| && series[i].value > cfg.threshold
  }

  /** The action counter of a node counts its actions in the log. */
  lemma {:induction false} CountMeaning(log: seq<Event>, node: string)
    ensures Count(log, node) == |ActionsOn(log, node)|
  {
    if log == [] {
      assert ActionsOn(log, node) == {};
    } else {
      var n := |log| - 1;
      CountMeaning(log[..n], node);
      var before, hit := ActionsOn(log[..n], node), log[n].Acted? && log[n].node == node;
      forall i: nat ensures i in ActionsOn(log, node) <==> i in before || (i == n && hit) {
        if i < n { assert log[..n][i] == log[i]; }
      }
      assert ActionsOn(log, node) == before + (if hit then {n} else {});
      assert n !in before;
    }
  }

  ghost function ActionsOn(log: seq<Event>, node: string): set<nat> {
    set i: nat | i < |log| && log[i].Acted? && log[i].node == node
  }
}
