/** The operator's restart limiter (operator/main.go). Times are nanoseconds of one nondecreasing clock. */
module RestartLimiter {
  import opened Wrappers

  type Time = int

  const SECOND := 1_000_000_000
  const HOUR := 3600 * SECOND
  const COOLDOWN := 30 * SECOND

  datatype Key = Key(node: string, collector: string)

  /** The four clock readings of one call, in program order. */
  datatype Readings = Readings(check: Time, cutoff: Time, record: Time, stamp: Time) {
    predicate Ordered() { check <= cutoff <= record <= stamp }
  }

  datatype Call = Call(key: Key, maxPerHour: int, now: Readings)

  datatype Grant = Grant(key: Key, at: Time, stamp: Time)

  // ----- the reference limiter, which never forgets -----

  function After(times: seq<Time>, cutoff: Time): seq<Time> {
    if times == [] then []
    else (if times[0] > cutoff then [times[0]] else []) + After(times[1..], cutoff)
  }

  function TimesOf(log: seq<Grant>, key: Key): seq<Time> {
    if log == [] then []
    else (if log[0].key == key then [log[0].at] else []) + TimesOf(log[1..], key)
  }

  /** The decision on the whole history of grants. */
  predicate Permits(log: seq<Grant>, call: Call) {
    && (log != [] ==> call.now.check - log[|log| - 1].stamp >= COOLDOWN)
    && |After(TimesOf(log, call.key), call.now.cutoff - HOUR)| < call.maxPerHour
  }

  function Grants(calls: seq<Call>): seq<Grant> {
    if calls == [] then []
    else
      var before, call := Grants(calls[..|calls| - 1]), calls[|calls| - 1];
      if Permits(before, call) then before + [Grant(call.key, call.now.record, call.now.stamp)] else before
  }

  ghost predicate WellTimed(calls: seq<Call>) {
    && (forall i :: 0 <= i < |calls| ==> calls[i].now.Ordered())
    && (forall i, j :: 0 <= i < j < |calls| ==> calls[i].now.stamp <= calls[j].now.check)
  }

  // ----- the limiter of the code -----

  class RestartRecord {
    var events: map<Key, seq<Time>>
    var lastGlobal: Option<Time>
    /** Every call made so far. */
    ghost var calls: seq<Call>

    function Recorded(key: Key): seq<Time>
      reads `events
    {
      if key in events then events[key] else []
    }

    ghost predicate Valid()
      reads this
    {
      var log := Grants(calls);
      && WellTimed(calls)
      && lastGlobal == (if log == [] then None else Some(log[|log| - 1].stamp))
      && forall key :: Agree(calls, Recorded(key), log, key)
    }

    constructor ()
      ensures Valid() && calls == []
    {
      events, lastGlobal, calls := map[], None, [];
    }

    /** The answer is that of the reference limiter on the full history. */
    method Allowed(key: Key, maxPerHour: int, now: Readings) returns (granted: bool)
      requires Valid() && WellTimed(calls + [Call(key, maxPerHour, now)])
      modifies this
      ensures Valid()
      ensures calls == old(calls) + [Call(key, maxPerHour, now)]
      ensures granted <==> Permits(Grants(old(calls)), Call(key, maxPerHour, now))
      ensures !granted ==> events == old(events) && lastGlobal == old(lastGlobal)
    {
      hide After, TimesOf, Agree, WellTimed;
      ghost var call, log, before := Call(key, maxPerHour, now), Grants(calls), calls;
      CallKeepsAgreement(calls, call, log);
      assert (calls + [call])[..|calls|] == calls;
      calls := calls + [call];
      if lastGlobal.Some? && now.check - lastGlobal.value < COOLDOWN {
        return false;
      }
      var recent := Pruned(Recorded(key), now.cutoff - HOUR);
      SameRecentGrants(before, call, Recorded(key), log);
      if |recent| >= maxPerHour {
        return false;
      }
      GrantKeepsAgreement(before, call, Recorded(key), log);
      recent := recent + [now.record];
      events := events[key := recent];
      lastGlobal := Some(now.stamp);
      granted := true;
      forall k ensures Agree(calls, Recorded(k), Grants(calls), k) {
        if k != key { assert Recorded(k) == old(Recorded(k)); }
      }
    }
  }

  method Pruned(times: seq<Time>, cutoff: Time) returns (recent: seq<Time>)
    ensures recent == After(times, cutoff)
  {
    recent := [];
    for i := 0 to |times|
      invariant recent == After(times[..i], cutoff)
    {
      AfterSnoc(times[..i], times[i], cutoff);
      assert times[..i + 1] == times[..i] + [times[i]];
      if times[i] > cutoff {
        recent := recent + [times[i]];
      }
    }
    assert times[..|times|] == times;
  }

  /** A cutoff that a later call may use. */
  ghost predicate Upcoming(calls: seq<Call>, c: Time) {
    forall i :: 0 <= i < |calls| ==> c >= calls[i].now.stamp - HOUR
  }

  /** For every cutoff still to come, the pruned list of a key tells as much as its whole history. */
  ghost predicate Agree(calls: seq<Call>, recorded: seq<Time>, log: seq<Grant>, key: Key) {
    forall c :: Upcoming(calls, c) ==> After(recorded, c) == After(TimesOf(log, key), c)
  }

  lemma UpcomingSnoc(calls: seq<Call>, call: Call, c: Time)
    ensures Upcoming(calls + [call], c) <==> Upcoming(calls, c) && c >= call.now.stamp - HOUR
  {
    assert (calls + [call])[|calls|] == call;
    assert forall i :: 0 <= i < |calls| ==> (calls + [call])[i] == calls[i];
  }

  lemma CallKeepsAgreement(calls: seq<Call>, call: Call, log: seq<Grant>)
    ensures forall recorded, key :: Agree(calls, recorded, log, key) ==> Agree(calls + [call], recorded, log, key)
  {
    forall c ensures Upcoming(calls + [call], c) ==> Upcoming(calls, c) { UpcomingSnoc(calls, call, c); }
  }

  lemma SameRecentGrants(calls: seq<Call>, call: Call, recorded: seq<Time>, log: seq<Grant>)
    requires Agree(calls, recorded, log, call.key) && WellTimed(calls + [call])
    ensures After(recorded, call.now.cutoff - HOUR) == After(TimesOf(log, call.key), call.now.cutoff - HOUR)
  {
    assert (calls + [call])[|calls|] == call;
    assert forall i :: 0 <= i < |calls| ==> (calls + [call])[i] == calls[i];
    assert Upcoming(calls, call.now.cutoff - HOUR);
  }

  lemma GrantKeepsAgreement(calls: seq<Call>, call: Call, recorded: seq<Time>, log: seq<Grant>)
    requires Agree(calls, recorded, log, call.key) && WellTimed(calls + [call])
    ensures var log' := log + [Grant(call.key, call.now.record, call.now.stamp)];
            && Agree(calls + [call], After(recorded, call.now.cutoff - HOUR) + [call.now.record], log', call.key)
            && forall other, key ::
                 key != call.key && Agree(calls + [call], other, log, key) ==> Agree(calls + [call], other, log', key)
  {
    forall key | key != call.key
      ensures TimesOf(log + [Grant(call.key, call.now.record, call.now.stamp)], key) == TimesOf(log, key)
    {
      TimesOfSnoc(log, Grant(call.key, call.now.record, call.now.stamp), key);
    }
    assert (calls + [call])[|calls|] == call;
    var cutoff := call.now.cutoff - HOUR;
    TimesOfSnoc(log, Grant(call.key, call.now.record, call.now.stamp), call.key);
    forall c | Upcoming(calls + [call], c)
      ensures After(After(recorded, cutoff) + [call.now.record], c)
           == After(TimesOf(log, call.key) + [call.now.record], c)
    {
      UpcomingSnoc(calls, call, c);
      AfterSnoc(After(recorded, cutoff), call.now.record, c);
      AfterSnoc(TimesOf(log, call.key), call.now.record, c);
      AfterAfter(recorded, cutoff, c);
    }
  }

  lemma {:induction false} AfterSnoc(times: seq<Time>, t: Time, c: Time)
    ensures After(times + [t], c) == After(times, c) + (if t > c then [t] else [])
  {
    if times == [] {
      assert times + [t] == [t];
    } else {
      assert (times + [t])[1..] == times[1..] + [t];
      AfterSnoc(times[1..], t, c);
    }
  }

  lemma {:induction false} AfterAfter(times: seq<Time>, c: Time, c': Time)
    requires c <= c'
    ensures After(After(times, c), c') == After(times, c')
  {
    if times != [] {
      AfterAfter(times[1..], c, c');
      if times[0] > c {
        assert After(times, c)[1..] == After(times[1..], c);
      } else {
        assert After(times, c) == After(times[1..], c);
      }
    }
  }

  lemma {:induction false} TimesOfSnoc(log: seq<Grant>, g: Grant, key: Key)
    ensures TimesOf(log + [g], key) == TimesOf(log, key) + (if g.key == key then [g.at] else [])
  {
    if log == [] {
      assert log + [g] == [g];
    } else {
      assert (log + [g])[1..] == log[1..] + [g];
      TimesOfSnoc(log[1..], g, key);
    }
  }

  // ----- what the limiter guarantees over every run -----

  /** How many of the times lie in the half-open window from `lo` to `hi`. */
  function CountIn(times: seq<Time>, lo: Time, hi: Time): nat {
    if times == [] then 0
    else (if lo <= times[0] < hi then 1 else 0) + CountIn(times[1..], lo, hi)
  }

  function GrantTimes(log: seq<Grant>): (ts: seq<Time>)
    ensures |ts| == |log| && forall i :: 0 <= i < |ts| ==> ts[i] == log[i].at
  {
    seq(|log|, i requires 0 <= i < |log| => log[i].at)
  }

  lemma {:induction false} CountInSnoc(times: seq<Time>, t: Time, lo: Time, hi: Time)
    ensures CountIn(times + [t], lo, hi) == CountIn(times, lo, hi) + (if lo <= t < hi then 1 else 0)
  {
    if times == [] {
      assert times + [t] == [t];
    } else {
      assert (times + [t])[1..] == times[1..] + [t];
      CountInSnoc(times[1..], t, lo, hi);
    }
  }

  lemma {:induction false} WindowWithinRecent(times: seq<Time>, lo: Time, hi: Time, cutoff: Time)
    requires cutoff < lo
    ensures CountIn(times, lo, hi) <= |After(times, cutoff)|
  {
    if times != [] { WindowWithinRecent(times[1..], lo, hi, cutoff); }
  }

  /**
   * In every run each window of one hour, wherever it starts, holds at most `limit` grants of a key
   * whose calls all asked for at most `limit` per hour.
   */
  lemma {:induction false} HourlyLimitHolds(calls: seq<Call>, key: Key, limit: nat, start: Time)
    requires WellTimed(calls)
    requires forall i :: 0 <= i < |calls| && calls[i].key == key ==> calls[i].maxPerHour <= limit
    ensures CountIn(TimesOf(Grants(calls), key), start, start + HOUR) <= limit
  {
    if calls != [] {
      var before, call := calls[..|calls| - 1], calls[|calls| - 1];
      assert forall i :: 0 <= i < |before| ==> before[i] == calls[i];
      HourlyLimitHolds(before, key, limit, start);
      assert call.now.Ordered();
      var log := Grants(before);
      if Permits(log, call) {
        var t := call.now.record;
        assert Grants(calls) == log + [Grant(call.key, t, call.now.stamp)];
        TimesOfSnoc(log, Grant(call.key, t, call.now.stamp), key);
        if call.key == key {
          CountInSnoc(TimesOf(log, key), t, start, start + HOUR);
          if start <= t < start + HOUR {
            WindowWithinRecent(TimesOf(log, key), start, start + HOUR, call.now.cutoff - HOUR);
          }
        } else {
          assert TimesOf(Grants(calls), key) == TimesOf(log, key);
        }
      }
    }
  }

  ghost predicate Spaced(times: seq<Time>) {
    forall i, j :: 0 <= i < j < |times| ==> times[j] - times[i] >= COOLDOWN
  }

  ghost predicate Spread(log: seq<Grant>) {
    && (forall i :: 0 <= i < |log| ==> log[i].at <= log[i].stamp)
    && (forall i, j :: 0 <= i < j < |log| ==> log[j].at - log[i].stamp >= COOLDOWN)
  }

  /** In every run any two grants, whatever their keys, are at least the cooldown apart. */
  lemma {:induction false} GrantsAreSpaced(calls: seq<Call>)
    requires WellTimed(calls)
    ensures Spread(Grants(calls))
  {
    if calls != [] {
      var before, call := calls[..|calls| - 1], calls[|calls| - 1];
      GrantsAreSpaced(before);
      var log := Grants(before);
      if Permits(log, call) {
        assert call.now.Ordered();
        SpacedSnoc(log, Grant(call.key, call.now.record, call.now.stamp));
      }
    }
  }

  lemma SpacedSnoc(log: seq<Grant>, g: Grant)
    requires Spread(log) && g.at <= g.stamp
    requires log != [] ==> g.at - log[|log| - 1].stamp >= COOLDOWN
    ensures Spread(log + [g])
  {
    var n := |log|;
    forall i, j | 0 <= i < j <= n
      ensures (log + [g])[j].at - (log + [g])[i].stamp >= COOLDOWN
    {
      if j == n && i < n - 1 {
        assert log[n - 1].at - log[i].stamp >= COOLDOWN && log[n - 1].at <= log[n - 1].stamp;
      }
    }
  }

  lemma {:induction false} EarlierEnd(times: seq<Time>, lo: Time, hi: Time, hi': Time)
    requires hi' <= hi && forall i :: 0 <= i < |times| ==> times[i] < hi'
    ensures CountIn(times, lo, hi) == CountIn(times, lo, hi')
  {
    if times != [] { EarlierEnd(times[1..], lo, hi, hi'); }
  }

  lemma CooldownTimes(k: int)
    ensures COOLDOWN * k == COOLDOWN * (k - 1) + COOLDOWN
    ensures COOLDOWN * 0 == 0
  {
  }

  lemma {:induction false} SpacedCount(times: seq<Time>, lo: Time, hi: Time)
    requires Spaced(times)
    ensures var k := CountIn(times, lo, hi); k > 0 ==> COOLDOWN * (k - 1) < hi - lo
  {
    if times != [] {
      var n := |times| - 1;
      var before, t := times[..n], times[n];
      assert times == before + [t];
      CountInSnoc(before, t, lo, hi);
      hide CountIn;
      CooldownTimes(CountIn(before, lo, hi));
      if lo <= t < hi {
        var hi' := t - COOLDOWN + 1;
        forall i | 0 <= i < n ensures before[i] < hi' { assert times[n] - times[i] >= COOLDOWN; }
        EarlierEnd(before, lo, hi, hi');
        SpacedCount(before, lo, hi');
      } else {
        SpacedCount(before, lo, hi);
      }
    }
  }

  /** So the whole fleet sees at most 120 restarts in any window of one hour. */
  lemma FleetLimitHolds(calls: seq<Call>, start: Time)
    requires WellTimed(calls)
    ensures CountIn(GrantTimes(Grants(calls)), start, start + HOUR) <= 120
  {
    GrantsAreSpaced(calls);
    assert Spaced(GrantTimes(Grants(calls)));
    SpacedCount(GrantTimes(Grants(calls)), start, start + HOUR);
  }

  // ----- a run that reaches the fleet limit -----

  function Slot(i: nat): Time { COOLDOWN * i }

  /** The first k of these keys ask one after the other, a cooldown apart, and each only once. */
  function Round(keys: seq<Key>, k: nat, limit: int): seq<Call>
    requires k <= |keys|
  {
    if k == 0 then []
    else
      var t := Slot(k - 1);
      Round(keys, k - 1, limit) + [Call(keys[k - 1], limit, Readings(t, t, t, t))]
  }

  function RoundGrants(keys: seq<Key>, k: nat): (log: seq<Grant>)
    requires k <= |keys|
    ensures |log| == k && forall i :: 0 <= i < k ==> log[i] == Grant(keys[i], Slot(i), Slot(i))
  {
    if k == 0 then [] else RoundGrants(keys, k - 1) + [Grant(keys[k - 1], Slot(k - 1), Slot(k - 1))]
  }

  ghost predicate Distinct(keys: seq<Key>) { forall i, j :: 0 <= i < j < |keys| ==> keys[i] != keys[j] }

  lemma {:induction false} NewKeyHasNoTimes(log: seq<Grant>, key: Key)
    requires forall i :: 0 <= i < |log| ==> log[i].key != key
    ensures TimesOf(log, key) == []
  {
    if log != [] { NewKeyHasNoTimes(log[1..], key); }
  }

  lemma {:induction false} RoundIsGranted(keys: seq<Key>, k: nat, limit: int)
    requires Distinct(keys) && k <= |keys| && limit >= 1
    ensures Grants(Round(keys, k, limit)) == RoundGrants(keys, k)
  {
    if k > 0 {
      var calls, log := Round(keys, k - 1, limit), RoundGrants(keys, k - 1);
      var call := Call(keys[k - 1], limit, Readings(Slot(k - 1), Slot(k - 1), Slot(k - 1), Slot(k - 1)));
      RoundIsGranted(keys, k - 1, limit);
      assert (calls + [call])[..|calls|] == calls;
      NewKeyHasNoTimes(log, call.key);
      assert Permits(log, call);
    }
  }

  lemma {:induction false} RoundIsWellTimed(keys: seq<Key>, k: nat, limit: int)
    requires k <= |keys|
    ensures |Round(keys, k, limit)| == k && WellTimed(Round(keys, k, limit))
    ensures forall i :: 0 <= i < k ==> Round(keys, k, limit)[i].now == Readings(Slot(i), Slot(i), Slot(i), Slot(i))
  {
    if k > 0 { RoundIsWellTimed(keys, k - 1, limit); }
  }

  lemma {:induction false} RoundCount(keys: seq<Key>, k: nat)
    requires k <= |keys| && k <= 120
    ensures CountIn(GrantTimes(RoundGrants(keys, k)), 0, HOUR) == k
  {
    if k > 0 {
      var before := GrantTimes(RoundGrants(keys, k - 1));
      RoundCount(keys, k - 1);
      hide CountIn;
      CountInSnoc(before, Slot(k - 1), 0, HOUR);
      assert GrantTimes(RoundGrants(keys, k)) == before + [Slot(k - 1)];
      assert 0 <= Slot(k - 1) < HOUR;
    }
  }

  /** The limit of 120 is reached by 120 different keys, however few restarts each is allowed. */
  lemma FleetLimitIsReached(keys: seq<Key>, limit: int)
    requires Distinct(keys) && |keys| == 120 && limit >= 1
    ensures var calls := Round(keys, 120, limit);
            WellTimed(calls) && CountIn(GrantTimes(Grants(calls)), 0, HOUR) == 120
  {
    RoundIsWellTimed(keys, 120, limit);
    RoundIsGranted(keys, 120, limit);
    RoundCount(keys, 120);
    hide Round, Grants, CountIn, RoundGrants;
  }

  // ----- what a call is decided by -----

  /** The grants of a key that are younger than the cutoff, by their places in the log. */
  ghost function RecentGrants(log: seq<Grant>, key: Key, cutoff: Time): set<nat> {
    set i: nat | i < |log| && log[i].key == key && log[i].at > cutoff
  }

  lemma {:induction false} RecentCount(log: seq<Grant>, key: Key, cutoff: Time)
    ensures |After(TimesOf(log, key), cutoff)| == |RecentGrants(log, key, cutoff)|
  {
    if log == [] {
      assert RecentGrants(log, key, cutoff) == {};
    } else {
      var n := |log| - 1;
      var before, g := log[..n], log[n];
      assert log == before + [g];
      RecentCount(before, key, cutoff);
      TimesOfSnoc(before, g, key);
      AfterSnoc(TimesOf(before, key), g.at, cutoff);
      var hit := g.key == key && g.at > cutoff;
      forall i: nat ensures i in RecentGrants(log, key, cutoff)
                       <==> i in RecentGrants(before, key, cutoff) || (i == n && hit) {
        if i < n { assert before[i] == log[i]; }
      }
      assert RecentGrants(log, key, cutoff) == RecentGrants(before, key, cutoff) + (if hit then {n} else {});
      assert n !in RecentGrants(before, key, cutoff);
      if g.key != key { assert TimesOf(before, key) + [] == TimesOf(before, key); }
    }
  }

  /**
   * A call is granted exactly when the last grant of all is 30 seconds back and the key has fewer grants within the
   * last 3600 seconds than it may have; the grant carries the key and the later two readings.
   */
  lemma GrantedExactly(calls: seq<Call>, call: Call)
    ensures var log, now := Grants(calls), call.now;
            Grants(calls + [call])
            == if && (log == [] || now.check - log[|log| - 1].stamp >= 30_000_000_000)
                  && |RecentGrants(log, call.key, now.cutoff - 3_600_000_000_000)| < call.maxPerHour
               then log + [Grant(call.key, now.record, now.stamp)] else log
  {
    GrantsSnoc(calls, call);
    RecentCount(Grants(calls), call.key, call.now.cutoff - HOUR);
    assert HOUR == 3_600_000_000_000 && COOLDOWN == 30_000_000_000;
    hide After, TimesOf, RecentGrants, Grants;
  }

  lemma GrantsSnoc(calls: seq<Call>, call: Call)
    ensures Grants(calls + [call])
            == if Permits(Grants(calls), call)
               then Grants(calls) + [Grant(call.key, call.now.record, call.now.stamp)] else Grants(calls)
  {
    hide Permits;
    assert (calls + [call])[..|calls|] == calls;
  }

  /** Counting in a window is counting places. */
  lemma {:induction false} CountInMeaning(times: seq<Time>, lo: Time, hi: Time)
    ensures CountIn(times, lo, hi) == |InWindow(times, lo, hi)|
  {
    if times == [] {
      assert InWindow(times, lo, hi) == {};
    } else {
      var n := |times| - 1;
      var before, t := times[..n], times[n];
      assert times == before + [t];
      CountInMeaning(before, lo, hi);
      CountInSnoc(before, t, lo, hi);
      hide CountIn;
      forall i: nat ensures i in InWindow(times, lo, hi)
                       <==> i in InWindow(before, lo, hi) || (i == n && lo <= t < hi) {
        if i < n { assert before[i] == times[i]; }
      }
      assert InWindow(times, lo, hi) == InWindow(before, lo, hi) + (if lo <= t < hi then {n} else {});
      assert n !in InWindow(before, lo, hi);
    }
  }

  ghost function InWindow(times: seq<Time>, lo: Time, hi: Time): set<nat> {
    set i: nat | i < |times| && lo <= times[i] < hi
  }

  // ----- a key gets its limit -----

  /** One key asks k times, a cooldown apart. */
  function Insist(key: Key, k: nat, limit: int): seq<Call> {
    if k == 0 then []
    else
      var t := Slot(k - 1);
      Insist(key, k - 1, limit) + [Call(key, limit, Readings(t, t, t, t))]
  }

  ghost predicate AllGranted(log: seq<Grant>, key: Key, k: nat) {
    |log| == k && forall i :: 0 <= i < k ==> log[i] == Grant(key, Slot(i), Slot(i))
  }

  lemma AllAreRecent(log: seq<Grant>, key: Key, k: nat)
    requires AllGranted(log, key, k) && k <= 119
    ensures |RecentGrants(log, key, Slot(k) - 3_600_000_000_000)| == k
  {
    assert forall i: nat :: i < k ==> log[i].at > Slot(k) - 3_600_000_000_000 by {
      assert Slot(k) < 3_600_000_000_000;
    }
    FirstIndices(k);
    assert RecentGrants(log, key, Slot(k) - 3_600_000_000_000) == Below(k);
  }

  function Below(k: nat): set<nat> { if k == 0 then {} else Below(k - 1) + {k - 1} }

  lemma {:induction false} FirstIndices(k: nat)
    ensures |Below(k)| == k && forall i: nat :: i in Below(k) <==> i < k
  {
    if k > 0 { FirstIndices(k - 1); }
  }

  lemma {:induction false} InsistIsWellTimed(key: Key, k: nat, limit: nat)
    ensures WellTimed(Insist(key, k, limit)) && |Insist(key, k, limit)| == k
    ensures forall i :: 0 <= i < k ==> Insist(key, k, limit)[i].now == Readings(Slot(i), Slot(i), Slot(i), Slot(i))
  {
    if k > 0 { InsistIsWellTimed(key, k - 1, limit); }
  }

  lemma LastGrantIsBack(log: seq<Grant>, key: Key, k: nat)
    requires AllGranted(log, key, k)
    ensures log == [] || Slot(k) - log[|log| - 1].stamp >= 30_000_000_000
  {
    assert COOLDOWN == 30_000_000_000;
  }

  /** For a limit of up to 120, all calls up to the limit are granted, and the next one within the hour is not. */
  lemma {:induction false} KeyGetsItsLimit(key: Key, k: nat, limit: nat)
    requires limit <= 120 && k <= limit + 1 && k <= 120
    ensures AllGranted(Grants(Insist(key, k, limit)), key, if k <= limit then k else limit)
  {
    if k > 0 {
      KeyGetsItsLimit(key, k - 1, limit);
      var before, t := Insist(key, k - 1, limit), Slot(k - 1);
      AllAreRecent(Grants(before), key, k - 1);
      LastGrantIsBack(Grants(before), key, k - 1);
      hide RecentGrants, Grants, Slot;
      GrantedExactly(before, Call(key, limit, Readings(t, t, t, t)));
    }
  }
}
