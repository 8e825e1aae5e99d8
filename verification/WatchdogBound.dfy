/**
 * How long turns may take before withheld pings starve systemd's watchdog, exactly
 * (ota-updates/systemd-watchdog-example/hw-fault-monitor.c). Every turn of the loop ends with a sleep of one second.
 */
module WatchdogBound {
  import opened WatchdogMonitor

  const SLEEP: Time := 1_000_000

  function Min(a: int, b: int): int { if a < b then a else b }

  /** The turns that the loop can take: at most `period` apart and, after the first, at least a sleep apart. */
  ghost predicate Possible(turns: seq<Turn>, start: Time, period: Time) {
    && Paced(turns, start, period)
    && forall i :: 1 <= i < |turns| ==> turns[i].now - Clock(turns[..i], start) >= SLEEP
  }

  /**
   * How old a ping can get by the turn before the one at which a critical poll withholds the next. An interval of
   * up to two sleeps leaves room for one turn in between, one of up to a single sleep for none.
   */
  function LongestWait(interval: Time, period: Time): Time {
    if interval <= SLEEP then 0 else if interval <= 2 * SLEEP then Min(interval - 1, period) else interval - 1
  }

  /** k times x, for sums of a few turns. */
  function Times(k: nat, x: Time): Time { if k == 0 then 0 else Times(k - 1, x) + x }

  lemma {:induction false} TimesIsMonotone(k: nat, l: nat, x: Time, y: Time)
    requires k <= l && 0 <= x <= y
    ensures 0 <= Times(k, x) <= Times(l, y)
    decreases l
  {
    if l > 0 { TimesIsMonotone(if k == l then k - 1 else k, l - 1, x, y); }
  }

  // ----- short intervals: a better bound than in general -----

  /** No ping since the start, and no poll. */
  ghost predicate Early(s: State, start: Time, now: Time, interval: Time) {
    s.lastPing == start == s.lastPoll && 0 <= now - start < interval
  }

  /** Since the last ping k turns have passed: at most as many as fit into the interval, and one if it polled. */
  ghost predicate Passed(s: State, now: Time, period: Time, most: nat, k: nat) {
    && k <= most + 1
    && Times(k, SLEEP) <= now - s.lastPing <= Times(k, period)
    && (k == most + 1 ==> s.lastPoll == now)
  }

  ghost predicate Counted(s: State, start: Time, now: Time, interval: Time, period: Time, most: nat) {
    && s.pings != [] && s.lastPing == s.pings[|s.pings| - 1] && s.lastPoll <= now
    && Close(s.pings, Times(most + 2, period) + 1)
    && (Early(s, start, now, interval) || exists k: nat :: Passed(s, now, period, most, k))
  }

  lemma EarlyStep(s: State, start: Time, now: Time, t: Turn, interval: Time, period: Time, most: nat)
    requires SLEEP <= period && interval + period <= POLL_INTERVAL && 1 <= interval <= Times(most + 1, SLEEP)
    requires Counted(s, start, now, interval, period, most) && Early(s, start, now, interval)
    requires 0 <= t.now - now <= period
    ensures Counted(Step(s, t, interval), start, t.now, interval, period, most)
  {
    TimesIsMonotone(most + 1, most + 1, SLEEP, period);
    CloseSnoc(s.pings, t.now, Times(most + 2, period) + 1);
    assert Times(most + 2, period) == Times(most + 1, period) + period;
    hide Close, Times;
    var s' := Step(s, t, interval);
    assert !Polls(s, t);
    if t.now - s.lastPing >= interval { assert Passed(s', t.now, period, most, 0) by { TimesZero(); } }
  }

  lemma SmallTimes(x: Time)
    ensures Times(1, x) == x && Times(2, x) == 2 * x && Times(3, x) == 3 * x
  {
  }

  lemma TimesZero()
    ensures forall x :: Times(0, x) == 0
  {
  }

  lemma PassedStep(s: State, start: Time, now: Time, t: Turn, interval: Time, period: Time, most: nat, k: nat)
    requires SLEEP <= period < POLL_INTERVAL && 1 <= interval <= Times(most + 1, SLEEP)
    requires Counted(s, start, now, interval, period, most) && Passed(s, now, period, most, k)
    requires SLEEP <= t.now - now <= period
    ensures Counted(Step(s, t, interval), start, t.now, interval, period, most)
  {
    TimesIsMonotone(k + 1, most + 2, period, period);
    CloseSnoc(s.pings, t.now, Times(most + 2, period) + 1);
    assert Times(k + 1, period) == Times(k, period) + period && Times(k + 1, SLEEP) == Times(k, SLEEP) + SLEEP;
    TimesZero();
    hide Close, Times;
    var s' := Step(s, t, interval);
    if s'.pings == s.pings {
      assert k <= most;
      assert Passed(s', t.now, period, most, k + 1);
    } else {
      assert Passed(s', t.now, period, most, 0);
    }
  }

  lemma PossiblePrefix(turns: seq<Turn>, start: Time, period: Time)
    requires Possible(turns, start, period) && turns != []
    ensures var n := |turns| - 1;
            && Possible(turns[..n], start, period)
            && 0 <= turns[n].now - Clock(turns[..n], start) <= period
            && (n > 0 ==> SLEEP <= turns[n].now - Clock(turns[..n], start))
  {
    var n := |turns| - 1;
    assert forall i :: 0 <= i < n ==> turns[..n][i] == turns[i] && turns[..n][..i] == turns[..i];
  }

  lemma {:induction false} RunIsCounted(start: Time, initial: int, turns: seq<Turn>, interval: Time, period: Time,
                                        most: nat)
    requires SLEEP <= period && interval + period <= POLL_INTERVAL && 1 <= interval <= Times(most + 1, SLEEP)
    requires Possible(turns, start, period)
    ensures Counted(Run(Start(start, initial), turns, interval), start, Clock(turns, start), interval, period, most)
  {
    if turns == [] {
      StartIsEarly(start, initial, interval);
      TimesIsMonotone(0, most + 2, 0, period);
    } else {
      var n := |turns| - 1;
      var before, t := turns[..n], turns[n];
      PossiblePrefix(turns, start, period);
      hide Counted, Step, Times, Possible;
      RunIsCounted(start, initial, before, interval, period, most);
      var s, now := Run(Start(start, initial), before, interval), Clock(before, start);
      if n == 0 { StartIsEarly(start, initial, interval); }
      hide Run, Clock;
      CountedSplit(s, start, now, interval, period, most);
      if Early(s, start, now, interval) {
        EarlyStep(s, start, now, t, interval, period, most);
      } else {
        var k: nat :| Passed(s, now, period, most, k);
        PassedStep(s, start, now, t, interval, period, most, k);
      }
    }
  }

  lemma StartIsEarly(start: Time, initial: int, interval: Time)
    requires interval >= 1
    ensures Early(Run(Start(start, initial), [], interval), start, start, interval)
  {
  }

  lemma CountedSplit(s: State, start: Time, now: Time, interval: Time, period: Time, most: nat)
    requires Counted(s, start, now, interval, period, most)
    ensures Early(s, start, now, interval) || exists k: nat :: Passed(s, now, period, most, k)
  {
  }

  /** With an interval of at most most + 1 sleeps, pings are at most most + 2 turns apart. */
  lemma ShortIntervals(start: Time, initial: int, turns: seq<Turn>, interval: Time, period: Time, most: nat)
    requires SLEEP <= period && interval + period <= POLL_INTERVAL && 1 <= interval <= Times(most + 1, SLEEP)
    requires Possible(turns, start, period)
    ensures Close(Run(Start(start, initial), turns, interval).pings + [Clock(turns, start)],
                  Times(most + 2, period) + 1)
  {
    RunIsCounted(start, initial, turns, interval, period, most);
    var s, now := Run(Start(start, initial), turns, interval), Clock(turns, start);
    CloseSnoc(s.pings, now, Times(most + 2, period) + 1);
    TimesIsMonotone(most + 1, most + 2, SLEEP, period);
    if k: nat :| Passed(s, now, period, most, k) { TimesIsMonotone(k, most + 2, period, period); }
  }

  // ----- runs that reach the bound -----

  /** Where turn k of a run stands in a cycle of n turns. */
  function Phase(k: nat, n: int): (p: nat) {
    if k == 0 then 0 else if Phase(k - 1, n) + 1 == n then 0 else Phase(k - 1, n) + 1
  }

  lemma PhaseStep(k: nat, n: int)
    requires k > 0
    ensures Phase(k, n) == if Phase(k - 1, n) + 1 == n then 0 else Phase(k - 1, n) + 1
  {
  }

  lemma {:induction false} PhaseBound(k: nat, n: int)
    requires n >= 1
    ensures Phase(k, n) < n
  {
    if k > 0 { PhaseBound(k - 1, n); }
  }

  lemma {:induction false} PhaseAdvances(k: nat, j: nat, n: int)
    requires Phase(k, n) == 0 && j < n
    ensures Phase(k + j, n) == j
    decreases j
  {
    if j > 0 { PhaseAdvances(k, j - 1, n); }
  }

  lemma {:induction false} PhaseStartsOver(m: nat, n: nat)
    requires n >= 1
    ensures m * n >= 0 && Phase(m * n, n) == 0
  {
    if m > 0 {
      PhaseStartsOver(m - 1, n);
      assert m * n == (m - 1) * n + (n - 1) + 1;
      PhaseAdvances((m - 1) * n, n - 1, n);
    }
  }

  function Seconds(k: nat): nat { k * 1_000_000 }

  const POLL_TURNS := 10

  /** A turn each second, with a count that does not move. */
  function Steady(k: nat): seq<Turn> { if k == 0 then [] else Steady(k - 1) + [Turn(Seconds(k), 0)] }

  ghost predicate Fresh(s: State) { s.lastPing == 0 && s.lastPoll == 0 && s.previous == 0 && s.pings == [0] }

  /** The state at a time in terms of the ages of the last ping and the last poll. */
  ghost predicate Aged(s: State, now: Time, ping: Time, poll: Time) {
    && s.lastPing == now - ping && s.lastPoll == now - poll && s.previous == 0
    && s.pings != [] && s.pings[|s.pings| - 1] == s.lastPing
  }

  lemma QuietTurn(s: State, now: Time, ping: Time, poll: Time, gap: Time, interval: Time)
    requires Aged(s, now, ping, poll)
    ensures Aged(Step(s, Turn(now + gap, 0), interval), now + gap,
                 if ping + gap >= interval then 0 else ping + gap,
                 if poll + gap >= POLL_INTERVAL then 0 else poll + gap)
  {
  }

  lemma PossibleSnoc(turns: seq<Turn>, t: Turn, period: Time)
    requires Possible(turns, 0, period) && SLEEP <= t.now - Clock(turns, 0) <= period
    ensures Possible(turns + [t], 0, period) && Clock(turns + [t], 0) == t.now
  {
    var more := turns + [t];
    assert more[..|turns|] == turns;
    assert forall i :: 0 <= i < |turns| ==> more[i] == turns[i] && more[..i] == turns[..i];
  }

  /** n turns of a second fit an interval: the ping is sent with the n-th. */
  ghost predicate TurnsPerPing(interval: Time, n: nat) {
    n >= 1 && (n == 1 || Seconds(n - 1) < interval) && interval <= Seconds(n)
  }

  lemma {:induction false} SteadyIsPossible(k: nat, period: Time)
    requires SLEEP <= period
    ensures Possible(Steady(k), 0, period) && Clock(Steady(k), 0) == Seconds(k)
  {
    if k > 0 {
      SteadyIsPossible(k - 1, period);
      PossibleSnoc(Steady(k - 1), Turn(Seconds(k), 0), period);
    }
  }

  /** The next turn of a steady run sends a ping, and polls, when its place in the cycle says so. */
  lemma NextTurn(p: nat, q: nat, interval: Time, n: nat)
    requires TurnsPerPing(interval, n) && p < n && q < POLL_TURNS
    ensures (if Seconds(p) + SLEEP >= interval then 0 else Seconds(p) + SLEEP)
            == Seconds(if p + 1 == n then 0 else p + 1)
    ensures (if Seconds(q) + SLEEP >= POLL_INTERVAL then 0 else Seconds(q) + SLEEP)
            == Seconds(if q + 1 == POLL_TURNS then 0 else q + 1)
  {
  }

  lemma SteadyStart(s: State, interval: Time, n: nat)
    requires Fresh(s)
    ensures Aged(Run(s, Steady(0), interval), Seconds(0), Seconds(Phase(0, n)), Seconds(Phase(0, POLL_TURNS)))
  {
  }

  lemma RunSteady(s: State, k: nat, interval: Time)
    requires k > 0
    ensures Run(s, Steady(k), interval)
            == Step(Run(s, Steady(k - 1), interval), Turn(Seconds(k - 1) + SLEEP, 0), interval)
  {
    RunSnoc(s, Steady(k - 1), Turn(Seconds(k), 0), interval);
  }

  /** In a steady run pings and polls come at every n-th and at every tenth turn. */
  lemma {:induction false} SteadyState(s: State, k: nat, interval: Time, n: nat)
    requires interval >= 0 && Fresh(s) && TurnsPerPing(interval, n)
    ensures Aged(Run(s, Steady(k), interval), Seconds(k), Seconds(Phase(k, n)), Seconds(Phase(k, POLL_TURNS)))
  {
    hide Phase, Steady, Run, Step, Aged, Fresh;
    if k == 0 {
      SteadyStart(s, interval, n);
    } else {
      SteadyState(s, k - 1, interval, n);
      PhaseStep(k, n);
      PhaseStep(k, POLL_TURNS);
      var p, q := Phase(k - 1, n), Phase(k - 1, POLL_TURNS);
      PhaseBound(k - 1, n);
      PhaseBound(k - 1, POLL_TURNS);
      RunSteady(s, k, interval);
      NextTurn(p, q, interval, n);
      QuietTurn(Run(s, Steady(k - 1), interval), Seconds(k - 1), Seconds(p), Seconds(q), SLEEP, interval);
      assert Seconds(k - 1) + SLEEP == Seconds(k);
    }
  }

  /** A run that ends with a turn without ping or poll, the last ping `age` old and the next poll almost due. */
  ghost predicate Ready(s0: State, turns: seq<Turn>, interval: Time, period: Time, age: Time) {
    && Possible(turns, 0, period)
    && exists poll: Time :: POLL_INTERVAL - period <= poll < POLL_INTERVAL
                            && Aged(Run(s0, turns, interval), Clock(turns, 0), age, poll)
  }

  lemma AddTurn(s0: State, turns: seq<Turn>, ping: Time, poll: Time, gap: Time, interval: Time, period: Time)
    returns (more: seq<Turn>)
    requires Possible(turns, 0, period) && SLEEP <= gap <= period
    requires Aged(Run(s0, turns, interval), Clock(turns, 0), ping, poll)
    ensures Possible(more, 0, period)
    ensures Aged(Run(s0, more, interval), Clock(more, 0),
                 if ping + gap >= interval then 0 else ping + gap,
                 if poll + gap >= POLL_INTERVAL then 0 else poll + gap)
  {
    hide Step, Run, Possible, Aged, Clock;
    var t := Turn(Clock(turns, 0) + gap, 0);
    more := turns + [t];
    PossibleSnoc(turns, t, period);
    RunSnoc(s0, turns, t, interval);
    QuietTurn(Run(s0, turns, interval), Clock(turns, 0), ping, poll, gap, interval);
  }

  lemma ShortPhases(n: nat) returns (k: nat)
    requires n == 1 || n == 2
    ensures Phase(k, n) == 0 && Phase(k, POLL_TURNS) == 8
  {
    PhaseStart(POLL_TURNS);
    hide Phase;
    if n == 1 {
      k := 8;
      PhaseBound(8, 1);
      PhaseAdvances(0, 8, POLL_TURNS);
    } else {
      k := 18;
      PhaseStartsOver(9, 2);
      PhaseStartsOver(1, POLL_TURNS);
      PhaseAdvances(10, 8, POLL_TURNS);
    }
  }

  lemma PhaseStart(n: int)
    ensures Phase(0, n) == 0
  {
  }

  lemma ShortNumbers(interval: Time, period: Time) returns (n: nat, x: Time)
    requires 0 <= interval <= 2 * SLEEP <= 2 * period && period < POLL_INTERVAL
    ensures (n == 1 || n == 2) && TurnsPerPing(interval, n)
    ensures SLEEP <= x <= period && POLL_INTERVAL - period <= Seconds(8) + x < POLL_INTERVAL
    ensures (if x >= interval then 0 else x) == LongestWait(interval, period)
  {
    n := if interval <= SLEEP then 1 else 2;
    x := if n == 1 then SLEEP else Min(interval - 1, period);
  }

  lemma ShortCase(s0: State, interval: Time, period: Time) returns (turns: seq<Turn>)
    requires 0 <= interval <= 2 * SLEEP <= 2 * period && period < POLL_INTERVAL && Fresh(s0)
    ensures Ready(s0, turns, interval, period, LongestWait(interval, period))
  {
    hide Phase, Steady, Run, Possible, Aged, Clock, Seconds, TurnsPerPing, Fresh, LongestWait;
    var n, x := ShortNumbers(interval, period);
    var k := ShortPhases(n);
    SteadyState(s0, k, interval, n);
    SteadyIsPossible(k, period);
    NoSeconds();
    turns := AddTurn(s0, Steady(k), Seconds(0), Seconds(8), x, interval, period);
  }

  lemma NoSeconds()
    ensures Seconds(0) == 0
  {
  }

  /** The last turns of the long case: the numbers of turns, and the two lengths that use up the interval. */
  lemma LongNumbers(interval: Time, period: Time) returns (n: nat, x: Time, y: Time)
    requires 2 * SLEEP < interval < 2 * period && SLEEP <= period < POLL_INTERVAL
    ensures n >= 3 && TurnsPerPing(interval, n)
    ensures SLEEP <= x <= period && SLEEP <= y <= period
    ensures Seconds(n - 3) + y + x == interval - 1 && Seconds(n - 3) + y < interval
    ensures Seconds(7) + y < POLL_INTERVAL && POLL_INTERVAL - period <= Seconds(7) + y + x < POLL_INTERVAL
  {
    n := (interval + 999_999) / 1_000_000;
    var rest := interval - 1 - Seconds(n - 1);
    x := Min(period, SLEEP + rest);
    y := 2 * SLEEP + rest - x;
  }

  lemma LongPhases(n: nat) returns (k: nat)
    requires n >= 3
    ensures Phase(k, n) == n - 3 && Phase(k, POLL_TURNS) == 7
  {
    k := POLL_TURNS * n - 3;
    PhaseStartsOver(9, n);
    PhaseAdvances(9 * n, n - 3, n);
    PhaseStartsOver(n - 1, POLL_TURNS);
    PhaseAdvances((n - 1) * POLL_TURNS, 7, POLL_TURNS);
    assert k == 9 * n + (n - 3) == (n - 1) * POLL_TURNS + 7;
  }

  lemma LongCase(s0: State, interval: Time, period: Time) returns (turns: seq<Turn>)
    requires 2 * SLEEP < interval < 2 * period && SLEEP <= period < POLL_INTERVAL && Fresh(s0)
    ensures Ready(s0, turns, interval, period, interval - 1)
  {
    hide Phase, Steady, Run, Possible, Aged, Clock, Seconds, TurnsPerPing, Fresh;
    var n, x, y := LongNumbers(interval, period);
    var k := LongPhases(n);
    SteadyState(s0, k, interval, n);
    SteadyIsPossible(k, period);
    turns := AddTurn(s0, Steady(k), Seconds(n - 3), Seconds(7), y, interval, period);
    turns := AddTurn(s0, turns, Seconds(n - 3) + y, Seconds(7) + y, x, interval, period);
  }

  /** A critical poll withholds a ping and the next turn sends it: two turns more than the age before. */
  lemma TwoLateTurns(s0: State, front: seq<Turn>, interval: Time, period: Time, age: Time) returns (turns: seq<Turn>)
    requires Ready(s0, front, interval, period, age) && SLEEP <= period < POLL_INTERVAL && interval <= age + 2 * period
    ensures Possible(turns, 0, period)
    ensures var pings := Run(s0, turns, interval).pings;
            |pings| >= 2 && pings[|pings| - 1] - pings[|pings| - 2] == age + 2 * period
  {
    var now := Clock(front, 0);
    var critical, late := Turn(now + period, CE_CRITICAL + 1), Turn(now + 2 * period, 0);
    PossibleSnoc(front, critical, period);
    PossibleSnoc(front + [critical], late, period);
    turns := front + [critical] + [late];
    RunSnoc(s0, front, critical, interval);
    RunSnoc(s0, front + [critical], late, interval);
    hide Run, Possible, Clock;
    var s := Run(s0, front, interval);
    CriticalTurn(s, critical, interval);
    hide Step;
    LateTurn(Step(s, critical, interval), late, interval);
  }

  lemma CriticalTurn(s: State, t: Turn, interval: Time)
    requires Suppresses(s, t)
    ensures var s' := Step(s, t, interval);
            s'.lastPing == s.lastPing && s'.pings == s.pings && s'.lastPoll == t.now
  {
  }

  lemma LateTurn(s: State, t: Turn, interval: Time)
    requires !Polls(s, t) && t.now - s.lastPing >= interval
    ensures Step(s, t, interval).pings == s.pings + [t.now]
  {
  }

  /** For every turn length there is a run of the loop in which a ping is two turns later than it could be. */
  lemma GapIsReached(s0: State, interval: Time, period: Time) returns (turns: seq<Turn>)
    requires interval >= 0 && SLEEP <= period < POLL_INTERVAL && Fresh(s0)
    requires interval <= 2 * SLEEP || interval < 2 * period
    ensures Possible(turns, 0, period)
    ensures var pings := Run(s0, turns, interval).pings;
            && |pings| >= 2
            && pings[|pings| - 1] - pings[|pings| - 2] == LongestWait(interval, period) + 2 * period
  {
    hide Ready;
    if interval <= 2 * SLEEP {
      turns := ShortCase(s0, interval, period);
    } else {
      turns := LongCase(s0, interval, period);
    }
    turns := TwoLateTurns(s0, turns, interval, period, LongestWait(interval, period));
  }

  function Alarm(k: nat): Turn { Turn(k * 10_000_000, k * 1_001) }

  lemma NextAlarm(k: nat)
    requires k > 0
    ensures Alarm(k).now - Alarm(k - 1).now == POLL_INTERVAL && Alarm(k).reading - Alarm(k - 1).reading > CE_CRITICAL
    ensures Alarm(k).reading >= 0
  {
  }

  /** A turn at the start, and then one with a critical jump of the count each poll interval. */
  function Alarming(k: nat): seq<Turn> {
    if k == 0 then [Alarm(0)] else Alarming(k - 1) + [Alarm(k)]
  }

  lemma CriticalSnoc(before: seq<Turn>, t: Turn, start: Time, initial: int)
    requires before != [] && AllCritical(before, start, initial) && t.reading >= 0
    requires t.now - Clock(before, start) >= POLL_INTERVAL && t.reading - LastGood(before, start, initial) > CE_CRITICAL
    ensures AllCritical(before + [t], start, initial) && LastGood(before + [t], start, initial) == t.reading
  {
    LastPollIsPast(before, start, initial);
    var more := before + [t];
    assert more[..|more| - 1] == before && more[|more| - 1] == t;
  }

  lemma AlarmStart(period: Time)
    requires period >= POLL_INTERVAL
    ensures Possible(Alarming(0), 0, period) && Clock(Alarming(0), 0) == Alarm(0).now
    ensures |Alarming(0)| == 1 && Alarming(0)[0] == Turn(0, 0)
    ensures AllCritical(Alarming(0), 0, 0) && LastGood(Alarming(0), 0, 0) == Alarm(0).reading
  {
    assert Alarming(0) == [Turn(0, 0)];
  }

  lemma NextAlarming(k: nat)
    requires k > 0
    ensures Alarming(k) == Alarming(k - 1) + [Alarm(k)]
  {
  }

  lemma {:induction false} AlarmingIsPossible(k: nat, period: Time)
    requires period >= POLL_INTERVAL
    ensures Possible(Alarming(k), 0, period) && Clock(Alarming(k), 0) == Alarm(k).now
    ensures Alarming(k) != [] && Alarming(k)[0] == Turn(0, 0)
  {
    hide Possible, Clock, Alarm, Alarming;
    if k == 0 {
      AlarmStart(period);
    } else {
      AlarmingIsPossible(k - 1, period);
      NextAlarm(k);
      NextAlarming(k);
      PossibleSnoc(Alarming(k - 1), Alarm(k), period);
    }
  }

  lemma {:induction false} AlarmingIsCritical(k: nat, period: Time)
    requires period >= POLL_INTERVAL
    ensures AllCritical(Alarming(k), 0, 0) && LastGood(Alarming(k), 0, 0) == Alarm(k).reading
  {
    hide Possible, AllCritical, Clock, LastGood, Alarm, Alarming;
    if k == 0 {
      AlarmStart(period);
    } else {
      AlarmingIsPossible(k - 1, period);
      AlarmingIsCritical(k - 1, period);
      NextAlarm(k);
      NextAlarming(k);
      CriticalSnoc(Alarming(k - 1), Alarm(k), 0, 0);
    }
  }

  lemma TooLate(watchdogUsec: int, turns: seq<Turn>, pings: seq<Time>, k: nat)
    requires Run(Start(0, 0), turns, Interval(watchdogUsec)).pings + [Clock(turns, 0)] == pings
    requires k + 1 < |pings| && pings[k + 1] - pings[k] >= watchdogUsec
    ensures !Fed(watchdogUsec, 0, 0, turns)
  {
    hide Run;
  }

  /** With turns of a poll interval or more some run sends no ping for as long as one likes. */
  lemma SlowTurnsStop(watchdogUsec: int, period: Time) returns (turns: seq<Turn>)
    requires watchdogUsec > 0 && period >= POLL_INTERVAL
    ensures Possible(turns, 0, period) && !Fed(watchdogUsec, 0, 0, turns)
  {
    var interval := Interval(watchdogUsec);
    turns := Alarming(watchdogUsec);
    AlarmingIsPossible(watchdogUsec, period);
    AlarmingIsCritical(watchdogUsec, period);
    SlowTurnsStarve(0, 0, turns, interval);
    assert turns[..1] == [Turn(0, 0)];
    FirstTurn(interval);
    hide Run, Alarming, AllCritical, Possible;
    var pings := Run(Start(0, 0), turns, interval).pings;
    TooLate(watchdogUsec, turns, pings + [Clock(turns, 0)], |pings| - 1);
  }

  lemma FirstTurn(interval: Time)
    ensures var pings := Run(Start(0, 0), [Turn(0, 0)], interval).pings;
            pings != [] && pings[|pings| - 1] == 0
  {
    RunSnoc(Start(0, 0), [], Turn(0, 0), interval);
    assert [] + [Turn(0, 0)] == [Turn(0, 0)];
  }

  lemma LateTurnsStop(watchdogUsec: int, period: Time) returns (turns: seq<Turn>)
    requires watchdogUsec > 0 && SLEEP <= period < POLL_INTERVAL
    requires LongestWait(Interval(watchdogUsec), period) + 2 * period >= watchdogUsec
    ensures Possible(turns, 0, period) && !Fed(watchdogUsec, 0, 0, turns)
  {
    var interval := Interval(watchdogUsec);
    turns := GapIsReached(Start(0, 0), interval, period);
    hide Run, Possible;
    var pings := Run(Start(0, 0), turns, interval).pings;
    TooLate(watchdogUsec, turns, pings + [Clock(turns, 0)], |pings| - 2);
  }

  lemma AlwaysFed(watchdogUsec: int, period: Time, start: Time, initial: int, turns: seq<Turn>)
    requires watchdogUsec > 0 && SLEEP <= period < POLL_INTERVAL && Possible(turns, start, period)
    requires LongestWait(Interval(watchdogUsec), period) + 2 * period < watchdogUsec
    ensures Fed(watchdogUsec, start, initial, turns)
  {
    hide Run;
    SmallTimes(SLEEP);
    var interval := Interval(watchdogUsec);
    if Max(interval, 1) + 2 * period <= watchdogUsec {
      FedInTime(watchdogUsec, start, initial, turns, period);
    } else {
      var most := if interval <= SLEEP then 0 else 1;
      ShortIntervals(start, initial, turns, interval, period, most);
      SmallTimes(period);
      Loosen(Run(Start(start, initial), turns, interval).pings + [Clock(turns, start)],
             Times(most + 2, period) + 1, watchdogUsec);
    }
  }

  /**
   * Exactly which turn lengths keep the watchdog fed in every run of the loop: below a poll interval, and such that
   * two turns after the longest wait are still in time. Otherwise critical polls stop it, and already with turns far
   * shorter than a poll interval.
   */
  lemma FedExactly(watchdogUsec: int, period: Time)
    requires watchdogUsec > 0 && period >= SLEEP
    ensures (forall start, initial, turns ::
               Possible(turns, start, period) ==> Fed(watchdogUsec, start, initial, turns))
            <==> period < POLL_INTERVAL && LongestWait(Interval(watchdogUsec), period) + 2 * period < watchdogUsec
  {
    hide Fed, Possible;
    if period >= POLL_INTERVAL {
      var turns := SlowTurnsStop(watchdogUsec, period);
    } else if LongestWait(Interval(watchdogUsec), period) + 2 * period >= watchdogUsec {
      var turns := LateTurnsStop(watchdogUsec, period);
    } else {
      forall start, initial, turns | Possible(turns, start, period) ensures Fed(watchdogUsec, start, initial, turns) {
        AlwaysFed(watchdogUsec, period, start, initial, turns);
      }
    }
  }
}
