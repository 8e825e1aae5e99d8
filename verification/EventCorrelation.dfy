/** The sliding event window, its rules, and the annotations (correlation/event_correlator.py). Times are seconds. */
module EventCorrelation {
  import opened Wrappers

  datatype Event = Event(eventType: string, timestamp: Option<real>)

  /** An event without a timestamp counts as one of time zero. */
  function TimeOf(e: Event): real { if e.timestamp.Some? then e.timestamp.value else 0.0 }

  function Recent(events: seq<Event>, cutoff: real): seq<Event> {
    if events == [] then []
    else
      var n := |events| - 1;
      Recent(events[..n], cutoff) + (if TimeOf(events[n]) >= cutoff then [events[n]] else [])
  }

  function OfType(events: seq<Event>, eventType: string): seq<Event> {
    if events == [] then []
    else
      var n := |events| - 1;
      OfType(events[..n], eventType) + (if events[n].eventType == eventType then [events[n]] else [])
  }

  /** The types in order of first appearance. */
  function Types(events: seq<Event>): seq<string> {
    if events == [] then []
    else
      var n := |events| - 1;
      var before := Types(events[..n]);
      if events[n].eventType in before then before else before + [events[n].eventType]
  }

  lemma RecentSnoc(events: seq<Event>, e: Event, cutoff: real)
    ensures Recent(events + [e], cutoff) == Recent(events, cutoff) + (if TimeOf(e) >= cutoff then [e] else [])
  {
    assert (events + [e])[..|events|] == events;
  }

  /** Dropping old events first changes nothing for a later cutoff. */
  lemma {:induction false} RecentTwice(events: seq<Event>, earlier: real, later: real)
    requires earlier <= later
    ensures Recent(Recent(events, earlier), later) == Recent(events, later)
  {
    if events != [] {
      var n := |events| - 1;
      RecentTwice(events[..n], earlier, later);
      if TimeOf(events[n]) >= earlier {
        RecentSnoc(Recent(events[..n], earlier), events[n], later);
      } else {
        assert Recent(events[..n], earlier) + [] == Recent(events[..n], earlier);
        assert Recent(events[..n], later) + [] == Recent(events[..n], later);
      }
    }
  }

  /** A late event that joins a pruned list is judged like one that joins the full list. */
  lemma RecentOfPruned(events: seq<Event>, e: Event, earlier: real, later: real)
    requires earlier <= later
    ensures Recent(Recent(events, earlier) + [e], later) == Recent(events + [e], later)
  {
    RecentTwice(events, earlier, later);
    RecentSnoc(Recent(events, earlier), e, later);
    RecentSnoc(events, e, later);
  }

  class EventBuffer {
    const window: real
    var events: seq<Event>
    /** Every event ever added, and the last reading of the clock. */
    ghost var all: seq<Event>
    ghost var now: real

    ghost predicate Valid()
      reads this
    {
      events == Recent(all, now - window)
    }

    constructor (window: real, ghost now: real)
      ensures Valid() && all == [] && this.window == window && this.now == now
    {
      this.window, this.now, events, all := window, now, [], [];
    }

    method Expire(now: real)
      modifies `events
      ensures events == Recent(old(events), now - window)
    {
      var kept := [];
      for i := 0 to |events|
        invariant kept == Recent(events[..i], now - window)
      {
        assert events[..i + 1][..i] == events[..i];
        if TimeOf(events[i]) >= now - window { kept := kept + [events[i]]; }
      }
      assert events[..|events|] == events;
      events := kept;
    }

    method Add(e: Event, now: real)
      requires Valid() && this.now <= now
      modifies this
      ensures Valid() && all == old(all) + [e] && this.now == now
    {
      RecentOfPruned(all, e, this.now - window, now - window);
      events := events + [e];
      Expire(now);
      all, this.now := all + [e], now;
    }

    /** Reading the window expires it first, so that every answer is about the events of the window at `now`. */
    method RecentEvents(now: real) returns (recent: seq<Event>)
      requires Valid() && this.now <= now
      modifies this
      ensures Valid() && all == old(all) && this.now == now
      ensures recent == Recent(all, now - window)
    {
      RecentTwice(all, this.now - window, now - window);
      Expire(now);
      this.now := now;
      recent := events;
    }

    method EventsOfType(eventType: string, now: real) returns (found: seq<Event>)
      requires Valid() && this.now <= now
      modifies this
      ensures Valid() && all == old(all) && this.now == now
      ensures found == OfType(Recent(all, now - window), eventType)
    {
      RecentTwice(all, this.now - window, now - window);
      Expire(now);
      this.now := now;
      found := SelectType(events, eventType);
    }

    /** The counter dictionary: its keys in order of insertion, and the count of each. */
    method CountByType(now: real) returns (order: seq<string>, counts: map<string, nat>)
      requires Valid() && this.now <= now
      modifies this
      ensures Valid() && all == old(all) && this.now == now
      ensures order == Types(Recent(all, now - window))
      ensures forall t :: Counted(counts, t) == |OfType(Recent(all, now - window), t)|
    {
      RecentTwice(all, this.now - window, now - window);
      Expire(now);
      this.now := now;
      order, counts := Tally(events);
    }
  }

  method SelectType(events: seq<Event>, eventType: string) returns (found: seq<Event>)
    ensures found == OfType(events, eventType)
  {
    found := [];
    for i := 0 to |events|
      invariant found == OfType(events[..i], eventType)
    {
      assert events[..i + 1][..i] == events[..i];
      if events[i].eventType == eventType { found := found + [events[i]]; }
    }
    assert events[..|events|] == events;
  }

  method Tally(events: seq<Event>) returns (order: seq<string>, counts: map<string, nat>)
    ensures order == Types(events)
    ensures forall t :: Counted(counts, t) == |OfType(events, t)|
  {
    order, counts := [], map[];
    for i := 0 to |events|
      invariant order == Types(events[..i])
      invariant forall t :: t in counts <==> t in order
      invariant forall t :: Counted(counts, t) == |OfType(events[..i], t)|
    {
      assert events[..i + 1][..i] == events[..i];
      var t := events[i].eventType;
      if t !in counts { order := order + [t]; }
      counts := counts[t := Counted(counts, t) + 1];
    }
    assert events[..|events|] == events;
  }

  function Counted(counts: map<string, nat>, t: string): nat { if t in counts then counts[t] else 0 }

  // ----- the rules -----

  datatype Correlation =
    | MemoryMultiSource(ces: nat, mces: nat)
    | PcieMemoryCascade
    | EventStorm(eventType: string, count: nat)

  const CORRECTABLE := "edac_ce"
  const UNCORRECTABLE := "edac_ue"
  const MACHINE_CHECK := "mce"
  const PCIE_FATAL := "pcie_aer_fatal"
  const STORM := 3

  function Count(window: seq<Event>, t: string): nat { |OfType(window, t)| }

  function Storms(window: seq<Event>, types: seq<string>): seq<Correlation> {
    if types == [] then []
    else
      var n := |types| - 1;
      Storms(window, types[..n])
      + (if Count(window, types[n]) >= STORM then [EventStorm(types[n], Count(window, types[n]))] else [])
  }

  function Correlations(window: seq<Event>): seq<Correlation> {
    (if Count(window, CORRECTABLE) > 0 && Count(window, MACHINE_CHECK) > 0
     then [MemoryMultiSource(Count(window, CORRECTABLE), Count(window, MACHINE_CHECK))] else [])
    + (if Count(window, PCIE_FATAL) > 0 && Count(window, UNCORRECTABLE) > 0 then [PcieMemoryCascade] else [])
    + Storms(window, Types(window))
  }

  method DetectCorrelations(buf: EventBuffer, now: real) returns (correlations: seq<Correlation>)
    requires buf.Valid() && buf.now <= now
    modifies buf
    ensures buf.Valid() && buf.all == old(buf.all) && buf.now == now
    ensures correlations == Correlations(Recent(buf.all, now - buf.window))
  {
    hide OfType, Types, Recent;
    var order, byType := buf.CountByType(now);
    ghost var window := Recent(buf.all, now - buf.window);
    correlations := [];
    if Counted(byType, CORRECTABLE) > 0 && Counted(byType, MACHINE_CHECK) > 0 {
      correlations := correlations + [MemoryMultiSource(Counted(byType, CORRECTABLE), Counted(byType, MACHINE_CHECK))];
    }
    if Counted(byType, PCIE_FATAL) > 0 && Counted(byType, UNCORRECTABLE) > 0 {
      correlations := correlations + [PcieMemoryCascade];
    }
    var storms := [];
    for k := 0 to |order|
      invariant storms == Storms(window, order[..k])
    {
      assert order[..k + 1][..k] == order[..k];
      if Counted(byType, order[k]) >= STORM { storms := storms + [EventStorm(order[k], Counted(byType, order[k]))]; }
    }
    assert order[..|order|] == order;
    correlations := correlations + storms;
  }

  /** The indices of the events of a type. */
  ghost function Indices(window: seq<Event>, t: string): set<nat> {
    set i: nat | i < |window| && window[i].eventType == t
  }

  lemma IndicesSnoc(window: seq<Event>, t: string)
    requires window != []
    ensures var n := |window| - 1;
            |Indices(window, t)| == |Indices(window[..n], t)| + (if window[n].eventType == t then 1 else 0)
  {
    var n := |window| - 1;
    var before := Indices(window[..n], t);
    assert n !in before;
    var hit := window[n].eventType == t;
    forall i: nat ensures i in Indices(window, t) <==> i in before || (i == n && hit) {
      if i < n { assert window[..n][i] == window[i]; }
    }
    assert Indices(window, t) == before + (if hit then {n} else {});
  }

  lemma {:induction false} CountMeaning(window: seq<Event>, t: string)
    ensures Count(window, t) == |Indices(window, t)|
  {
    if window == [] {
      assert Indices(window, t) == {};
    } else {
      CountMeaning(window[..|window| - 1], t);
      IndicesSnoc(window, t);
    }
  }

  lemma {:induction false} TypesMeaning(window: seq<Event>, t: string)
    ensures t in Types(window) <==> Count(window, t) > 0
  {
    if window != [] { TypesMeaning(window[..|window| - 1], t); }
  }

  lemma {:induction false} StormsMeaning(window: seq<Event>, types: seq<string>)
    ensures forall c :: c in Storms(window, types)
              <==> c.EventStorm? && c.eventType in types && c.count == Count(window, c.eventType) && c.count >= STORM
  {
    hide Count;
    if types != [] {
      var n := |types| - 1;
      assert types == types[..n] + [types[n]];
      StormsMeaning(window, types[..n]);
    }
  }

  /** When each rule fires, and with which numbers. */
  lemma DetectionMeaning(window: seq<Event>, t: string)
    ensures HasMultiSource(Correlations(window))
            <==> Indices(window, "edac_ce") != {} && Indices(window, "mce") != {}
    ensures forall n: nat, m: nat :: MemoryMultiSource(n, m) in Correlations(window)
              <==> n == |Indices(window, "edac_ce")| > 0 && m == |Indices(window, "mce")| > 0
    ensures PcieMemoryCascade in Correlations(window)
            <==> Indices(window, "pcie_aer_fatal") != {} && Indices(window, "edac_ue") != {}
    ensures forall n: nat :: EventStorm(t, n) in Correlations(window) <==> n == |Indices(window, t)| && n >= 3
  {
    CountMeaning(window, CORRECTABLE);
    CountMeaning(window, MACHINE_CHECK);
    CountMeaning(window, PCIE_FATAL);
    CountMeaning(window, UNCORRECTABLE);
    CountMeaning(window, t);
    TypesMeaning(window, t);
    StormsMeaning(window, Types(window));
    hide Count, Types, Indices, Storms;
    var multi := MemoryMultiSource(Count(window, CORRECTABLE), Count(window, MACHINE_CHECK));
    if Count(window, CORRECTABLE) > 0 && Count(window, MACHINE_CHECK) > 0 { assert multi in Correlations(window); }
    assert forall c :: c in Correlations(window) && c.MemoryMultiSource?
             ==> Count(window, CORRECTABLE) > 0 && Count(window, MACHINE_CHECK) > 0;
  }

  /** The rules read nothing of an event but its type: events of any origin count together. */
  lemma RulesReadTypesOnly(a: seq<Event>, b: seq<Event>)
    requires |a| == |b| && forall i :: 0 <= i < |a| ==> a[i].eventType == b[i].eventType
    ensures Correlations(a) == Correlations(b)
  {
    SameTypes(a, b);
    forall t ensures Count(a, t) == Count(b, t) { SameCount(a, b, t); }
    SameStorms(a, b, Types(a));
    hide Count, Types, Storms;
  }

  lemma {:induction false} SameTypes(a: seq<Event>, b: seq<Event>)
    requires |a| == |b| && forall i :: 0 <= i < |a| ==> a[i].eventType == b[i].eventType
    ensures Types(a) == Types(b)
  {
    if a != [] { SameTypes(a[..|a| - 1], b[..|b| - 1]); }
  }

  lemma {:induction false} SameCount(a: seq<Event>, b: seq<Event>, t: string)
    requires |a| == |b| && forall i :: 0 <= i < |a| ==> a[i].eventType == b[i].eventType
    ensures Count(a, t) == Count(b, t)
  {
    if a != [] { SameCount(a[..|a| - 1], b[..|b| - 1], t); }
  }

  lemma {:induction false} SameStorms(a: seq<Event>, b: seq<Event>, types: seq<string>)
    requires forall t :: Count(a, t) == Count(b, t)
    ensures Storms(a, types) == Storms(b, types)
  {
    hide Count;
    if types != [] { SameStorms(a, b, types[..|types| - 1]); }
  }

  // ----- how far apart the events of a firing can be -----

  /** No event is stamped more than `ahead` later than the clock. */
  ghost predicate StampedBy(all: seq<Event>, now: real, ahead: real) {
    forall i :: 0 <= i < |all| ==> TimeOf(all[i]) <= now + ahead
  }

  /** An event of type x and one of type y at most d apart. */
  ghost predicate ClosePair(events: seq<Event>, x: string, y: string, d: real) {
    exists i, j :: 0 <= i < |events| && 0 <= j < |events| && events[i].eventType == x && events[j].eventType == y
                   && TimeOf(events[i]) - TimeOf(events[j]) <= d && TimeOf(events[j]) - TimeOf(events[i]) <= d
  }

  ghost predicate HasMultiSource(cs: seq<Correlation>) { exists c :: c in cs && c.MemoryMultiSource? }

  /** At this clock, a firing of the rule on the buffer comes from a pair at most d apart. */
  ghost predicate MultiSourceClose(all: seq<Event>, now: real, w: real, d: real) {
    var buffered := Recent(all, now - w);
    HasMultiSource(Correlations(buffered)) ==> ClosePair(buffered, CORRECTABLE, MACHINE_CHECK, d)
  }

  ghost predicate CascadeClose(all: seq<Event>, now: real, w: real, d: real) {
    var buffered := Recent(all, now - w);
    PcieMemoryCascade in Correlations(buffered) ==> ClosePair(buffered, PCIE_FATAL, UNCORRECTABLE, d)
  }

  lemma {:induction false} RecentMeaning(events: seq<Event>, cutoff: real)
    ensures forall e :: e in Recent(events, cutoff)
                        <==> e in events && (if e.timestamp.Some? then e.timestamp.value >= cutoff else cutoff <= 0.0)
  {
    if events != [] {
      var n := |events| - 1;
      RecentMeaning(events[..n], cutoff);
      assert events == events[..n] + [events[n]];
    }
  }

  /**
   * The rules have no window of their own. Whatever distance d is asked for (10 and 30 seconds are documented), a
   * firing implies a pair within d exactly when the common window, plus what stamps may run ahead of the clock,
   * is no longer than d.
   */
  lemma RuleWindows(w: real, ahead: real, d: real)
    requires d >= 0.0
    ensures (forall all, now :: StampedBy(all, now, ahead) ==> MultiSourceClose(all, now, w, d)) <==> w + ahead <= d
    ensures (forall all, now :: StampedBy(all, now, ahead) ==> CascadeClose(all, now, w, d)) <==> w + ahead <= d
  {
    hide Correlations, Recent, StampedBy;
    if w + ahead <= d {
      forall all, now | StampedBy(all, now, ahead)
        ensures MultiSourceClose(all, now, w, d) && CascadeClose(all, now, w, d) {
        WithinSpan(all, now, w, ahead, d);
      }
    } else {
      var multi := FarPair(w, ahead, CORRECTABLE, MACHINE_CHECK, d);
      DetectionMeaning(multi, CORRECTABLE);
      assert !MultiSourceClose(multi, w, w, d);
      var cascade := FarPair(w, ahead, PCIE_FATAL, UNCORRECTABLE, d);
      DetectionMeaning(cascade, CORRECTABLE);
      assert !CascadeClose(cascade, w, w, d);
    }
  }

  lemma WithinSpan(all: seq<Event>, now: real, w: real, ahead: real, d: real)
    requires StampedBy(all, now, ahead) && w + ahead <= d
    ensures MultiSourceClose(all, now, w, d) && CascadeClose(all, now, w, d)
  {
    hide Correlations, Recent;
    var buffered := Recent(all, now - w);
    RecentMeaning(all, now - w);
    forall i | 0 <= i < |buffered| ensures now - w <= TimeOf(buffered[i]) <= now + ahead {
      assert buffered[i] in buffered;
    }
    DetectionMeaning(buffered, CORRECTABLE);
    if HasMultiSource(Correlations(buffered)) {
      PairInSpan(buffered, now - w, now + ahead, CORRECTABLE, MACHINE_CHECK, d);
    }
    if PcieMemoryCascade in Correlations(buffered) {
      PairInSpan(buffered, now - w, now + ahead, PCIE_FATAL, UNCORRECTABLE, d);
    }
  }

  lemma PairInSpan(events: seq<Event>, from: real, to: real, x: string, y: string, d: real)
    requires forall i :: 0 <= i < |events| ==> from <= TimeOf(events[i]) <= to
    requires to - from <= d && Indices(events, x) != {} && Indices(events, y) != {}
    ensures ClosePair(events, x, y, d)
  {
    var i :| i in Indices(events, x);
    var j :| j in Indices(events, y);
    assert from <= TimeOf(events[i]) <= to && from <= TimeOf(events[j]) <= to;
  }

  /** One event of each type, at the two ends of what the buffer can hold when the clock shows w. */
  lemma FarPair(w: real, ahead: real, x: string, y: string, d: real) returns (all: seq<Event>)
    requires w + ahead > d >= 0.0 && x != y
    ensures StampedBy(all, w, ahead) && Recent(all, w - w) == all && !ClosePair(all, x, y, d)
    ensures Indices(all, x) != {} && Indices(all, y) != {}
  {
    var a, b := Event(x, Some(0.0)), Event(y, Some(w + ahead));
    all := [a, b];
    assert all[0] == a && all[1] == b;
    assert 0 in Indices(all, x) && 1 in Indices(all, y);
    RecentSnoc([], a, 0.0);
    RecentSnoc([a], b, 0.0);
    assert [] + [a] == [a] && [a] + [b] == all;
  }
}
