/**
 * The monitoring loop that feeds systemd's watchdog (ota-updates/systemd-watchdog-example/hw-fault-monitor.c).
 * Times are microseconds of the monotonic clock.
 */
module WatchdogMonitor {

  type Time = int

  const POLL_INTERVAL: Time := 10_000_000
  const DEFAULT_INTERVAL: Time := 15_000_000
  const CE_WARN := 100
  const CE_CRITICAL := 1000

  datatype Status = Fine(delta: int) | Warning(delta: int) | Critical(delta: int)

  /** One turn of the loop: the clock, and the error count that a poll would read (negative when it cannot be read). */
  datatype Turn = Turn(now: Time, reading: int)

  datatype State = State(lastPing: Time, lastPoll: Time, previous: int, pings: seq<Time>, statuses: seq<Status>)

  /** Half the watchdog time of the service manager, if it gave one. */
  function Interval(watchdogUsec: int): Time {
    if watchdogUsec > 0 then watchdogUsec / 2 else DEFAULT_INTERVAL
  }

  function StatusOf(delta: int): Status {
    if delta > CE_CRITICAL then Critical(delta) else if delta > CE_WARN then Warning(delta) else Fine(delta)
  }

  function Start(now: Time, reading: int): State { State(now, now, reading, [now], []) }

  predicate Polls(s: State, t: Turn) { t.now - s.lastPoll >= POLL_INTERVAL }

  predicate Measures(s: State, t: Turn) { Polls(s, t) && t.reading >= 0 && s.previous >= 0 }

  predicate Suppresses(s: State, t: Turn) { Measures(s, t) && t.reading - s.previous > CE_CRITICAL }

  function Step(s: State, t: Turn, interval: Time): State {
    var polled := if Polls(s, t) then s.(lastPoll := t.now) else s;
    var measured :=
      if Measures(s, t) then
        polled.(previous := t.reading, statuses := s.statuses + [StatusOf(t.reading - s.previous)])
      else polled;
    if !Suppresses(s, t) && t.now - s.lastPing >= interval then
      measured.(lastPing := t.now, pings := s.pings + [t.now])
    else measured
  }

  function Run(s: State, turns: seq<Turn>, interval: Time): State {
    if turns == [] then s
    else Step(Run(s, turns[..|turns| - 1], interval), turns[|turns| - 1], interval)
  }

  /** The loop of the code over its turns: the pings, with the start in front, and the status messages. */
  method Monitor(watchdogUsec: int, start: Time, initial: int, turns: seq<Turn>)
    returns (pings: seq<Time>, statuses: seq<Status>)
    ensures var end := Run(Start(start, initial), turns, Interval(watchdogUsec));
            pings == end.pings && statuses == end.statuses
  {
    var interval := if watchdogUsec > 0 then watchdogUsec / 2 else DEFAULT_INTERVAL;
    var previous := initial;
    var lastPing, lastPoll := start, start;
    pings, statuses := [start], [];
    for i := 0 to |turns|
      invariant State(lastPing, lastPoll, previous, pings, statuses) == Run(Start(start, initial), turns[..i], interval)
    {
      assert turns[..i + 1][..i] == turns[..i];
      var now := turns[i].now;
      var suppress := false;
      if now - lastPoll >= POLL_INTERVAL {
        lastPoll := now;
        var current := turns[i].reading;
        if current >= 0 && previous >= 0 {
          var delta := current - previous;
          previous := current;
          if delta > CE_CRITICAL {
            statuses := statuses + [Critical(delta)];
            suppress := true;
          } else if delta > CE_WARN {
            statuses := statuses + [Warning(delta)];
          } else {
            statuses := statuses + [Fine(delta)];
          }
        }
      }
      if !suppress && now - lastPing >= interval {
        lastPing := now;
        pings := pings + [now];
      }
    }
    assert turns[..|turns|] == turns;
  }

  // ----- the deltas -----

  function Total(statuses: seq<Status>): int {
    if statuses == [] then 0 else Total(statuses[..|statuses| - 1]) + statuses[|statuses| - 1].delta
  }

  /** When a run polled last: at turns that come a poll interval after the poll before. */
  function LastPoll(turns: seq<Turn>, start: Time): Time {
    if turns == [] then start
    else
      var before, now := LastPoll(turns[..|turns| - 1], start), turns[|turns| - 1].now;
      if now - before >= 10_000_000 then now else before
  }

  /** The reading of the last turn that polled and could read, the first reading before any. */
  function LastGood(turns: seq<Turn>, start: Time, initial: int): int {
    if turns == [] then initial
    else
      var n := |turns| - 1;
      if turns[n].now - LastPoll(turns[..n], start) >= 10_000_000 && turns[n].reading >= 0
      then turns[n].reading
      else LastGood(turns[..n], start, initial)
  }

  /**
   * The reported deltas add up to the last good reading less the first; without a first reading there are none.
   */
  lemma {:induction false} DeltasTelescope(start: Time, initial: int, turns: seq<Turn>, interval: Time)
    ensures var end := Run(Start(start, initial), turns, interval);
            && end.lastPoll == LastPoll(turns, start)
            && (initial >= 0 ==> end.previous == LastGood(turns, start, initial) >= 0)
            && (initial >= 0 ==> Total(end.statuses) == LastGood(turns, start, initial) - initial)
            && (initial < 0 ==> end.statuses == [] && end.previous == initial)
  {
    if turns != [] {
      var n := |turns| - 1;
      DeltasTelescope(start, initial, turns[..n], interval);
      var s := Run(Start(start, initial), turns[..n], interval);
      TotalSnoc(s.statuses, StatusOf(turns[n].reading - s.previous));
    }
  }

  lemma TotalSnoc(statuses: seq<Status>, s: Status)
    ensures Total(statuses + [s]) == Total(statuses) + s.delta
  {
    assert (statuses + [s])[..|statuses|] == statuses;
  }

  // ----- the pings -----

  function Clock(turns: seq<Turn>, start: Time): Time { if turns == [] then start else turns[|turns| - 1].now }

  /** No turn comes more than `period` after the one before. */
  ghost predicate Paced(turns: seq<Turn>, start: Time, period: Time) {
    forall i :: 0 <= i < |turns| ==> 0 <= turns[i].now - Clock(turns[..i], start) <= period
  }

  function Max(a: int, b: int): int { if a < b then b else a }

  /** Consecutive pings are closer than `bound`. */
  ghost predicate Close(pings: seq<Time>, bound: Time) {
    forall i :: 0 <= i < |pings| - 1 ==> pings[i + 1] - pings[i] < bound
  }

  ghost predicate NoneCritical(statuses: seq<Status>) { forall i :: 0 <= i < |statuses| ==> !statuses[i].Critical? }

  /** The last turn withheld a ping. */
  ghost predicate Withheld(start: State, turns: seq<Turn>, interval: Time) {
    turns != [] && Suppresses(Run(start, turns[..|turns| - 1], interval), turns[|turns| - 1])
  }

  /** What every turn keeps: the last ping is older than `wait` only if this turn withheld one. */
  ghost predicate Inv(s: State, now: Time, withheld: bool, wait: Time, period: Time) {
    && s.pings != [] && s.lastPing == s.pings[|s.pings| - 1] && s.lastPoll <= now
    && (withheld ==> s.lastPoll == now && now - s.lastPing < wait + period)
    && (!withheld ==> now - s.lastPing < wait)
    && Close(s.pings, wait + 2 * period)
    && (NoneCritical(s.statuses) ==> !withheld && Close(s.pings, wait + period))
  }

  lemma CloseSnoc(pings: seq<Time>, t: Time, bound: Time)
    requires pings != []
    ensures Close(pings + [t], bound) <==> Close(pings, bound) && t - pings[|pings| - 1] < bound
  {
    var after, n := pings + [t], |pings| - 1;
    assert after[n + 1] - after[n] == t - pings[n];
    if Close(after, bound) {
      forall i | 0 <= i < n ensures pings[i + 1] - pings[i] < bound { assert after[i + 1] - after[i] < bound; }
    }
  }

  lemma NoneCriticalSnoc(statuses: seq<Status>, s: Status)
    ensures NoneCritical(statuses + [s]) <==> NoneCritical(statuses) && !s.Critical?
  {
    var after := statuses + [s];
    assert after[|statuses|] == s;
    if NoneCritical(after) {
      forall i | 0 <= i < |statuses| ensures !statuses[i].Critical? { assert !after[i].Critical?; }
    }
  }

  lemma StepKeepsInv(s: State, now: Time, withheld: bool, t: Turn, interval: Time, period: Time)
    requires 0 <= period < POLL_INTERVAL && 0 <= t.now - now <= period
    requires Inv(s, now, withheld, Max(interval, 1), period)
    ensures Inv(Step(s, t, interval), t.now, Suppresses(s, t), Max(interval, 1), period)
  {
    hide Close, NoneCritical;
    var wait := Max(interval, 1);
    if Measures(s, t) { NoneCriticalSnoc(s.statuses, StatusOf(t.reading - s.previous)); }
    CloseSnoc(s.pings, t.now, wait + 2 * period);
    CloseSnoc(s.pings, t.now, wait + period);
  }

  lemma {:induction false} RunKeepsInv(start: Time, initial: int, turns: seq<Turn>, interval: Time, period: Time)
    requires 0 <= period < POLL_INTERVAL && Paced(turns, start, period)
    ensures Inv(Run(Start(start, initial), turns, interval), Clock(turns, start),
                Withheld(Start(start, initial), turns, interval), Max(interval, 1), period)
  {
    if turns != [] {
      hide Inv;
      var n := |turns| - 1;
      assert forall i :: 0 <= i < n ==> turns[..n][i] == turns[i] && turns[..n][..i] == turns[..i];
      RunKeepsInv(start, initial, turns[..n], interval, period);
      StepKeepsInv(Run(Start(start, initial), turns[..n], interval), Clock(turns[..n], start),
                   Withheld(Start(start, initial), turns[..n], interval), turns[n], interval, period);
    }
  }

  /**
   * While turns are less than a poll interval apart, a ping is late by at most one turn, and by at most two when
   * critical polls withhold pings; at no time is the last ping older than that.
   */
  lemma PingsComeInTime(start: Time, initial: int, turns: seq<Turn>, interval: Time, period: Time)
    requires 0 <= period < POLL_INTERVAL && Paced(turns, start, period)
    ensures var end := Run(Start(start, initial), turns, interval);
            && Close(end.pings + [Clock(turns, start)], Max(interval, 1) + 2 * period)
            && (NoneCritical(end.statuses) ==> Close(end.pings + [Clock(turns, start)], Max(interval, 1) + period))
  {
    RunKeepsInv(start, initial, turns, interval, period);
    hide Run, Close, NoneCritical;
    var end := Run(Start(start, initial), turns, interval);
    CloseSnoc(end.pings, Clock(turns, start), Max(interval, 1) + 2 * period);
    CloseSnoc(end.pings, Clock(turns, start), Max(interval, 1) + period);
  }

  /** Up to now no two pings are as far apart as the watchdog time, and the last one is not as old. */
  ghost predicate Fed(watchdogUsec: int, start: Time, initial: int, turns: seq<Turn>) {
    Close(Run(Start(start, initial), turns, Interval(watchdogUsec)).pings + [Clock(turns, start)], watchdogUsec)
  }

  /**
   * So withheld pings alone never let the watchdog fire: with turns of a quarter of its time it is always fed,
   * whatever the polls read.
   */
  lemma CriticalPollsDoNotRestart(watchdogUsec: int, start: Time, initial: int, turns: seq<Turn>, period: Time)
    requires 0 <= 4 * period <= watchdogUsec && watchdogUsec >= 2 && period < POLL_INTERVAL
    requires Paced(turns, start, period)
    ensures Fed(watchdogUsec, start, initial, turns)
  {
    FedInTime(watchdogUsec, start, initial, turns, period);
  }

  /** The same whenever half the watchdog time and two turns fit into the watchdog time. */
  lemma FedInTime(watchdogUsec: int, start: Time, initial: int, turns: seq<Turn>, period: Time)
    requires 0 <= period < POLL_INTERVAL && Max(Interval(watchdogUsec), 1) + 2 * period <= watchdogUsec
    requires Paced(turns, start, period)
    ensures Fed(watchdogUsec, start, initial, turns)
  {
    PingsComeInTime(start, initial, turns, Interval(watchdogUsec), period);
    Loosen(Run(Start(start, initial), turns, Interval(watchdogUsec)).pings + [Clock(turns, start)],
           Max(Interval(watchdogUsec), 1) + 2 * period, watchdogUsec);
  }

  lemma Loosen(pings: seq<Time>, bound: Time, looser: Time)
    requires Close(pings, bound) && bound <= looser
    ensures Close(pings, looser)
  {
  }

  lemma RunSnoc(s: State, turns: seq<Turn>, t: Turn, interval: Time)
    ensures Run(s, turns + [t], interval) == Step(Run(s, turns, interval), t, interval)
  {
    assert (turns + [t])[..|turns|] == turns;
  }

  // ----- turns that are too long -----

  /** After the first turn, each takes at least the poll interval and brings a critical jump of the count. */
  ghost predicate AllCritical(turns: seq<Turn>, start: Time, initial: int) {
    if |turns| <= 1 then turns == [] || turns[0].now >= start
    else
      var before, last := turns[..|turns| - 1], turns[|turns| - 1];
      && AllCritical(before, start, initial)
      && last.now - Clock(before, start) >= POLL_INTERVAL
      && last.reading - LastGood(before, start, initial) > CE_CRITICAL
  }

  lemma {:induction false} LastPollIsPast(turns: seq<Turn>, start: Time, initial: int)
    requires AllCritical(turns, start, initial)
    ensures LastPoll(turns, start) <= Clock(turns, start)
  {
    if turns != [] { LastPollIsPast(turns[..|turns| - 1], start, initial); }
  }

  /** Once turns take a whole poll interval, pings can stay away for ever: none is sent after the first turn. */
  lemma {:induction false} SlowTurnsStarve(start: Time, initial: int, turns: seq<Turn>, interval: Time)
    requires initial >= 0 && AllCritical(turns, start, initial) && turns != []
    ensures Run(Start(start, initial), turns, interval).pings == Run(Start(start, initial), turns[..1], interval).pings
  {
    if |turns| == 1 {
      assert turns[..1] == turns;
    } else {
      var before, last := turns[..|turns| - 1], turns[|turns| - 1];
      assert before[..1] == turns[..1];
      SlowTurnsStarve(start, initial, before, interval);
      LastPollIsPast(before, start, initial);
      DeltasTelescope(start, initial, before, interval);
      assert Suppresses(Run(Start(start, initial), before, interval), last);
    }
  }

  // ----- the messages -----

  /** A message is critical above 1000 new errors, a warning above 100, and fine otherwise. */
  ghost predicate RightStatus(s: Status) {
    && (s.Critical? <==> s.delta > 1000)
    && (s.Warning? <==> 100 < s.delta <= 1000)
    && (s.Fine? <==> s.delta <= 100)
  }

  lemma {:induction false} StatusesAreRight(start: Time, initial: int, turns: seq<Turn>, interval: Time)
    ensures forall i :: 0 <= i < |Run(Start(start, initial), turns, interval).statuses|
                        ==> RightStatus(Run(Start(start, initial), turns, interval).statuses[i])
  {
    if turns != [] { StatusesAreRight(start, initial, turns[..|turns| - 1], interval); }
  }

  /** Pings are due at half the time that the service manager gives, and every 15 seconds without one. */
  lemma IntervalMeaning(watchdogUsec: int)
    ensures watchdogUsec > 0 ==> 2 * Interval(watchdogUsec) <= watchdogUsec < 2 * Interval(watchdogUsec) + 2
    ensures watchdogUsec <= 0 ==> Interval(watchdogUsec) == 15_000_000
  {
  }
}
