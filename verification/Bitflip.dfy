/** Classifying correctable-error syndromes (ml/bitflip_analyzer.py). */
module Bitflip {

  datatype Pattern = StuckBit | RowHammer | RandomSeu | MultiBit

  datatype Event = Event(page: int, syndrome: int, timestamp: real, controller: string, csrow: int, channel: int)

  datatype Diagnosis = Diagnosis(page: int, pattern: Pattern, bits: seq<nat>)

  // ----- bit positions -----

  function Pow2(n: nat): (p: nat)
    ensures p > 0
  {
    if n == 0 then 1 else 2 * Pow2(n - 1)
  }

  /** Bit i of an integer in two's complement, as the masking of the code sees it. */
  predicate HasBit(x: int, i: nat) { x / Pow2(i) % 2 == 1 }

  function PositionsBelow(x: int, n: nat): seq<nat> {
    if n == 0 then [] else PositionsBelow(x, n - 1) + (if HasBit(x, n - 1) then [n - 1] else [])
  }

  function BitPositions(x: int): seq<nat> { PositionsBelow(x, 64) }

  function SumOfPowers(bits: seq<nat>): nat {
    if bits == [] then 0 else SumOfPowers(bits[..|bits| - 1]) + Pow2(bits[|bits| - 1])
  }

  ghost predicate Increasing(bits: seq<nat>) {
    forall i, j :: 0 <= i < j < |bits| ==> bits[i] < bits[j]
  }

  lemma PositiveMultiple(m: int, k: int)
    requires m > 0
    ensures k >= 1 ==> m * k >= m
    ensures m * -k == -(m * k)
  {
    if k >= 1 { assert m * k == m + m * (k - 1); }
  }

  /** Only multiple zero lies strictly between -m and m. */
  lemma SmallMultiple(m: int, k: int)
    requires m > 0 && -m < m * k < m
    ensures k == 0
  {
    PositiveMultiple(m, k);
    PositiveMultiple(m, -k);
  }

  lemma ModUnique(x: int, m: nat, h: int, r: int)
    requires m > 0 && 0 <= r < m && x == m * h + r
    ensures x % m == r
  {
    var q, s := x / m, x % m;
    assert m * (h - q) == s - r;
    SmallMultiple(m, h - q);
  }

  lemma ModDouble(x: int, p: nat)
    requires p > 0
    ensures x % (2 * p) == x % p + (if x / p % 2 == 1 then p else 0)
  {
    var q, r := x / p, x % p;
    var h, b := q / 2, q % 2;
    assert x == 2 * p * h + (p * b + r) by { assert p * (2 * h + b) == 2 * p * h + p * b; }
    assert b == 0 || b == 1;
    ModUnique(x, 2 * p, h, p * b + r);
  }

  lemma DoublePow2(x: int, n: nat)
    ensures x % Pow2(n + 1) == x % Pow2(n) + (if HasBit(x, n) then Pow2(n) else 0)
  {
    ModDouble(x, Pow2(n));
  }

  lemma EmptySum()
    ensures SumOfPowers([]) == 0
  {
  }

  lemma SumOfAppended(bits: seq<nat>, b: nat)
    ensures SumOfPowers(bits + [b]) == SumOfPowers(bits) + Pow2(b)
  {
    assert (bits + [b])[..|bits|] == bits;
  }

  /** The positions are increasing and are exactly the set bits. */
  lemma {:induction false} PositionsMeaning(x: int, n: nat)
    ensures Increasing(PositionsBelow(x, n))
    ensures forall i: nat :: i in PositionsBelow(x, n) <==> i < n && HasBit(x, i)
  {
    hide HasBit;
    if n > 0 {
      PositionsMeaning(x, n - 1);
      var before := PositionsBelow(x, n - 1);
      assert forall i :: 0 <= i < |before| ==> before[i] in before;
    }
  }

  /** Their powers of two add up to the low bits of the syndrome. */
  lemma {:induction false} PositionsSum(x: int, n: nat)
    ensures SumOfPowers(PositionsBelow(x, n)) == x % Pow2(n)
  {
    hide HasBit, SumOfPowers;
    if n == 0 {
      EmptySum();
    } else {
      PositionsSum(x, n - 1);
      DoublePow2(x, n - 1);
      var before := PositionsBelow(x, n - 1);
      SumOfAppended(before, n - 1);
      assert before + [] == before;
    }
  }

  /** For a 64-bit syndrome nothing is lost. */
  lemma SyndromeRoundTrip(x: int)
    requires 0 <= x < Pow2(64)
    ensures Increasing(BitPositions(x)) && SumOfPowers(BitPositions(x)) == x
  {
    PositionsMeaning(x, 64);
    PositionsSum(x, 64);
    ModUnique(x, Pow2(64), 0, x);
  }

  // ----- row hammer: groups, order, pairs -----

  type Group = (string, int)

  function GroupOf(e: Event): Group { (e.controller, e.channel) }

  /** The groups in order of first appearance. */
  function Groups(events: seq<Event>): seq<Group> {
    if events == [] then []
    else
      var n := |events| - 1;
      var before := Groups(events[..n]);
      if GroupOf(events[n]) in before then before else before + [GroupOf(events[n])]
  }

  /** The events of a group, by index, in list order. */
  function Members(events: seq<Event>, g: Group): seq<nat> {
    if events == [] then []
    else
      var n := |events| - 1;
      Members(events[..n], g) + (if GroupOf(events[n]) == g then [n] else [])
  }

  ghost predicate InRange(events: seq<Event>, s: seq<nat>) { forall i :: 0 <= i < |s| ==> s[i] < |events| }

  /** Time order; events of the same time keep their list order. */
  predicate Precedes(events: seq<Event>, i: nat, j: nat)
    requires i < |events| && j < |events|
  {
    events[i].timestamp < events[j].timestamp || (events[i].timestamp == events[j].timestamp && i < j)
  }

  ghost predicate Ordered(events: seq<Event>, s: seq<nat>) {
    && InRange(events, s)
    && forall a, b :: 0 <= a < b < |s| ==> Precedes(events, s[a], s[b])
  }

  /** One step of a stable sort: a later event goes behind all events that are not newer. */
  function InsertByTime(events: seq<Event>, s: seq<nat>, i: nat): (r: seq<nat>)
    requires i < |events| && InRange(events, s)
    ensures InRange(events, r) && forall x :: x in r <==> x == i || x in s
  {
    if s == [] then [i]
    else
      var n := |s| - 1;
      if events[s[n]].timestamp <= events[i].timestamp then s + [i]
      else
        var front := InsertByTime(events, s[..n], i);
        assert s == s[..n] + [s[n]];
        front + [s[n]]
  }

  function SortByTime(events: seq<Event>, s: seq<nat>): (r: seq<nat>)
    requires InRange(events, s)
    ensures InRange(events, r) && forall x :: x in r <==> x in s
  {
    if s == [] then []
    else
      var n := |s| - 1;
      assert s == s[..n] + [s[n]];
      InsertByTime(events, SortByTime(events, s[..n]), s[n])
  }

  lemma {:induction false} InsertKeepsOrder(events: seq<Event>, s: seq<nat>, i: nat)
    requires i < |events| && Ordered(events, s) && forall x :: x in s ==> x < i
    ensures Ordered(events, InsertByTime(events, s, i))
  {
    if s != [] {
      var n := |s| - 1;
      assert forall a :: 0 <= a <= n ==> s[a] in s;
      if events[s[n]].timestamp > events[i].timestamp {
        var front := InsertByTime(events, s[..n], i);
        InsertKeepsOrder(events, s[..n], i);
        forall a | 0 <= a < |front| ensures Precedes(events, front[a], s[n]) {
          assert front[a] in front;
          if front[a] != i { var b :| 0 <= b < n && s[..n][b] == front[a]; }
        }
      } else {
        forall a | 0 <= a <= n ensures Precedes(events, s[a], i) {
          if a < n { assert Precedes(events, s[a], s[n]); }
        }
      }
    }
  }

  lemma {:induction false} SortOrders(events: seq<Event>, s: seq<nat>)
    requires InRange(events, s) && Increasing(s)
    ensures Ordered(events, SortByTime(events, s))
  {
    if s != [] {
      var n := |s| - 1;
      SortOrders(events, s[..n]);
      var front := SortByTime(events, s[..n]);
      forall x | x in front ensures x < s[n] { var a :| 0 <= a < n && s[..n][a] == x; }
      InsertKeepsOrder(events, front, s[n]);
    }
  }

  lemma {:induction false} MembersMeaning(events: seq<Event>, g: Group)
    ensures Increasing(Members(events, g)) && InRange(events, Members(events, g))
    ensures forall i: nat :: i in Members(events, g) <==> i < |events| && GroupOf(events[i]) == g
  {
    if events != [] {
      var n := |events| - 1;
      var before := Members(events[..n], g);
      MembersMeaning(events[..n], g);
      assert forall i :: 0 <= i < |before| ==> before[i] in before;
      assert forall i :: 0 <= i < n ==> events[..n][i] == events[i];
    }
  }

  lemma {:induction false} GroupsMeaning(events: seq<Event>)
    ensures forall g :: g in Groups(events) <==> exists i :: 0 <= i < |events| && GroupOf(events[i]) == g
    ensures forall a, b :: 0 <= a < b < |Groups(events)| ==> Groups(events)[a] != Groups(events)[b]
  {
    if events != [] {
      var n := |events| - 1;
      GroupsMeaning(events[..n]);
      assert forall i :: 0 <= i < n ==> events[..n][i] == events[i];
      forall g ensures g in Groups(events) <==> exists i :: 0 <= i < |events| && GroupOf(events[i]) == g {
        if g in Groups(events) && g in Groups(events[..n]) {
          var i :| 0 <= i < n && GroupOf(events[..n][i]) == g;
          assert GroupOf(events[i]) == g;
        }
        if i :| 0 <= i < |events| && GroupOf(events[i]) == g {
          if i < n { assert GroupOf(events[..n][i]) == g; }
        }
      }
    }
  }

  const WINDOW := 0.064

  predicate Close(events: seq<Event>, i: nat, j: nat)
    requires i < |events| && j < |events|
  {
    events[j].timestamp - events[i].timestamp <= WINDOW
  }

  predicate Adjacent(events: seq<Event>, i: nat, j: nat)
    requires i < |events| && j < |events|
  {
    && (events[i].csrow - events[j].csrow == 1 || events[j].csrow - events[i].csrow == 1)
    && events[i].page != events[j].page
  }

  /** The pairs of position a with the positions from b on, without any early exit. */
  function Row(events: seq<Event>, s: seq<nat>, a: nat, b: nat): seq<(nat, nat)>
    requires InRange(events, s) && a < |s| && b <= |s|
    decreases |s| - b
  {
    if b == |s| then []
    else (if Close(events, s[a], s[b]) && Adjacent(events, s[a], s[b]) then [(s[a], s[b])] else [])
         + Row(events, s, a, b + 1)
  }

  function ScanFrom(events: seq<Event>, s: seq<nat>, a: nat): seq<(nat, nat)>
    requires InRange(events, s) && a <= |s|
    decreases |s| - a
  {
    if a == |s| then [] else Row(events, s, a, a + 1) + ScanFrom(events, s, a + 1)
  }

  function Sorted(events: seq<Event>, g: Group): (s: seq<nat>)
    ensures InRange(events, s)
  {
    MembersMeaning(events, g);
    SortByTime(events, Members(events, g))
  }

  /** All pairs of all groups, group by group. */
  function ScanGroups(events: seq<Event>, groups: seq<Group>): seq<(nat, nat)> {
    if groups == [] then []
    else
      var n := |groups| - 1;
      ScanGroups(events, groups[..n]) + ScanFrom(events, Sorted(events, groups[n]), 0)
  }

  function FullScan(events: seq<Event>): seq<(nat, nat)> { ScanGroups(events, Groups(events)) }

  /** The distinct positions of a list, ascending. */
  function Distinct(bits: seq<nat>, n: nat): seq<nat> {
    if n == 0 then [] else Distinct(bits, n - 1) + (if n - 1 in bits then [n - 1] else [])
  }

  /** The report about a pair names the page of the earlier event and the bits of both. */
  function PairDiagnosis(events: seq<Event>, p: (nat, nat)): Diagnosis
    requires p.0 < |events| && p.1 < |events|
  {
    Diagnosis(events[p.0].page, RowHammer,
              Distinct(BitPositions(events[p.0].syndrome) + BitPositions(events[p.1].syndrome), 64))
  }

  ghost predicate PairsInRange(events: seq<Event>, pairs: seq<(nat, nat)>) {
    forall k :: 0 <= k < |pairs| ==> pairs[k].0 < |events| && pairs[k].1 < |events|
  }

  function PairDiagnoses(events: seq<Event>, pairs: seq<(nat, nat)>): seq<Diagnosis>
    requires PairsInRange(events, pairs)
  {
    seq(|pairs|, k requires 0 <= k < |pairs| => PairDiagnosis(events, pairs[k]))
  }

  /** What a row-hammer pair is. */
  ghost predicate HammerPair(events: seq<Event>, i: nat, j: nat) {
    && i < |events| && j < |events|
    && GroupOf(events[i]) == GroupOf(events[j])
    && Precedes(events, i, j) && Close(events, i, j) && Adjacent(events, i, j)
  }

  lemma {:induction false} RowMeaning(events: seq<Event>, s: seq<nat>, a: nat, b: nat)
    requires Ordered(events, s) && a < b <= |s|
    ensures forall p :: p in Row(events, s, a, b) <==>
              exists c :: b <= c < |s| && p == (s[a], s[c]) && Close(events, s[a], s[c]) && Adjacent(events, s[a], s[c])
    ensures forall x, y :: 0 <= x < y < |Row(events, s, a, b)| ==> Row(events, s, a, b)[x] != Row(events, s, a, b)[y]
    decreases |s| - b
  {
    if b < |s| {
      RowMeaning(events, s, a, b + 1);
      var rest := Row(events, s, a, b + 1);
      forall x | 0 <= x < |rest| ensures rest[x] != (s[a], s[b]) {
        assert rest[x] in rest;
        var c :| b + 1 <= c < |s| && rest[x] == (s[a], s[c]);
        assert Precedes(events, s[b], s[c]);
      }
    }
  }

  lemma LaterIsFurther(events: seq<Event>, s: seq<nat>, a: nat, b: nat)
    requires Ordered(events, s) && a < b < |s| - 1 && !Close(events, s[a], s[b])
    ensures !Close(events, s[a], s[b + 1])
  {
    assert Precedes(events, s[b], s[b + 1]);
  }

  /** In time order the first event outside the window ends the row: nothing after it can pair. */
  lemma {:induction false} EarlyExit(events: seq<Event>, s: seq<nat>, a: nat, b: nat)
    requires InRange(events, s) && Ordered(events, s) && a < b < |s| && !Close(events, s[a], s[b])
    ensures Row(events, s, a, b) == []
    decreases |s| - b
  {
    hide Adjacent;
    if b + 1 < |s| {
      LaterIsFurther(events, s, a, b);
      hide Close, Ordered;
      EarlyExit(events, s, a, b + 1);
    }
  }

  lemma SortedMeaning(events: seq<Event>, g: Group)
    ensures Ordered(events, Sorted(events, g))
    ensures forall i: nat :: i in Sorted(events, g) <==> i < |events| && GroupOf(events[i]) == g
  {
    MembersMeaning(events, g);
    SortOrders(events, Members(events, g));
  }

  /** Pairs of list positions from a on, whatever the gap between them. */
  ghost predicate PairFrom(events: seq<Event>, s: seq<nat>, a: nat, p: (nat, nat))
    requires InRange(events, s)
  {
    exists x, y :: a <= x < y < |s| && p == (s[x], s[y]) && Close(events, s[x], s[y]) && Adjacent(events, s[x], s[y])
  }

  ghost predicate NoRepeats<T(!new)>(s: seq<T>) { forall x, y :: 0 <= x < y < |s| ==> s[x] != s[y] }

  lemma NoRepeatsConcat<T(!new)>(s: seq<T>, t: seq<T>)
    requires NoRepeats(s) && NoRepeats(t) && forall x, y :: 0 <= x < |s| && 0 <= y < |t| ==> s[x] != t[y]
    ensures NoRepeats(s + t)
  {
  }

  lemma {:induction false} ScanFromMeaning(events: seq<Event>, s: seq<nat>, a: nat)
    requires Ordered(events, s) && a <= |s|
    ensures forall p :: p in ScanFrom(events, s, a) <==> PairFrom(events, s, a, p)
    ensures NoRepeats(ScanFrom(events, s, a))
    decreases |s| - a
  {
    if a < |s| {
      ScanFromMeaning(events, s, a + 1);
      RowMeaning(events, s, a, a + 1);
      var row, rest := Row(events, s, a, a + 1), ScanFrom(events, s, a + 1);
      forall p ensures p in row + rest <==> PairFrom(events, s, a, p) {
        if p in row {
          var c :| a + 1 <= c < |s| && p == (s[a], s[c]) && Close(events, s[a], s[c]) && Adjacent(events, s[a], s[c]);
          assert PairFrom(events, s, a, p);
        }
      }
      forall x, y | 0 <= x < |row| && 0 <= y < |rest| ensures row[x] != rest[y] {
        assert row[x] in row && rest[y] in rest;
        var u, v :| a + 1 <= u < v < |s| && rest[y] == (s[u], s[v]);
        assert Precedes(events, s[a], s[u]);
      }
      NoRepeatsConcat(row, rest);
    }
  }

  lemma IndexOrder(events: seq<Event>, s: seq<nat>, x: nat, y: nat)
    requires Ordered(events, s) && x < |s| && y < |s| && s[x] != s[y]
    ensures x < y <==> Precedes(events, s[x], s[y])
  {
    if x < y { assert Precedes(events, s[x], s[y]); } else { assert Precedes(events, s[y], s[x]); }
  }

  /** In a sorted group, "earlier in the list" is "earlier in time, then in list order". */
  lemma GroupPairs(events: seq<Event>, g: Group, p: (nat, nat))
    ensures PairFrom(events, Sorted(events, g), 0, p)
            <==> HammerPair(events, p.0, p.1) && GroupOf(events[p.0]) == g
  {
    SortedMeaning(events, g);
    var s := Sorted(events, g);
    if PairFrom(events, s, 0, p) {
      var x, y :| 0 <= x < y < |s| && p == (s[x], s[y]) && Close(events, s[x], s[y]) && Adjacent(events, s[x], s[y]);
      assert s[x] in s && s[y] in s && Precedes(events, s[x], s[y]);
    }
    if HammerPair(events, p.0, p.1) && GroupOf(events[p.0]) == g {
      assert p.0 in s && p.1 in s;
      var x :| 0 <= x < |s| && s[x] == p.0;
      var y :| 0 <= y < |s| && s[y] == p.1;
      IndexOrder(events, s, x, y);
    }
  }

  lemma {:induction false} ScanGroupsMeaning(events: seq<Event>, groups: seq<Group>)
    requires NoRepeats(groups)
    ensures forall p :: p in ScanGroups(events, groups)
                        <==> HammerPair(events, p.0, p.1) && GroupOf(events[p.0]) in groups
    ensures NoRepeats(ScanGroups(events, groups))
  {
    hide PairFrom, ScanFrom, Sorted, Precedes, Close, Adjacent;
    if groups != [] {
      var n := |groups| - 1;
      var front, g := groups[..n], groups[n];
      assert groups == front + [g];
      ScanGroupsMeaning(events, front);
      SortedMeaning(events, g);
      ScanFromMeaning(events, Sorted(events, g), 0);
      var before, last := ScanGroups(events, front), ScanFrom(events, Sorted(events, g), 0);
      forall p ensures p in last <==> HammerPair(events, p.0, p.1) && GroupOf(events[p.0]) == g {
        GroupPairs(events, g, p);
      }
      forall x, y | 0 <= x < |before| && 0 <= y < |last| ensures before[x] != last[y] {
        assert before[x] in before && last[y] in last;
        assert GroupOf(events[before[x].0]) in front && g !in front;
      }
      NoRepeatsConcat(before, last);
    }
  }

  /** The scan lists every row-hammer pair of the whole event list, each exactly once, and nothing else. */
  lemma FullScanMeaning(events: seq<Event>)
    ensures forall p :: p in FullScan(events) <==> HammerPair(events, p.0, p.1)
    ensures NoRepeats(FullScan(events)) && PairsInRange(events, FullScan(events))
  {
    GroupsMeaning(events);
    ScanGroupsMeaning(events, Groups(events));
    forall p: (nat, nat) | HammerPair(events, p.0, p.1) ensures GroupOf(events[p.0]) in Groups(events) { }
    var all := FullScan(events);
    forall k | 0 <= k < |all| ensures all[k].0 < |events| && all[k].1 < |events| { assert all[k] in all; }
  }

  // ----- the row-hammer scan as the code runs it -----

  /** The dictionary of groups in insertion order: the keys and, for each, its events. */
  method GroupEvents(events: seq<Event>) returns (order: seq<Group>, members: map<Group, seq<nat>>)
    ensures order == Groups(events)
    ensures forall g :: g in members <==> g in order
    ensures forall g :: g in members ==> members[g] == Members(events, g)
  {
    order, members := [], map[];
    for i := 0 to |events|
      invariant order == Groups(events[..i])
      invariant forall g :: g in members <==> g in order
      invariant forall g :: Members(events[..i], g) == if g in members then members[g] else []
    {
      assert events[..i + 1][..i] == events[..i];
      var g := GroupOf(events[i]);
      if g !in members {
        order := order + [g];
        members := members[g := []];
      }
      members := members[g := members[g] + [i]];
    }
    assert events[..|events|] == events;
  }

  /** The nested loops with their early `break` report what the unbroken scan of all pairs reports. */
  method CheckRowHammer(events: seq<Event>) returns (results: seq<Diagnosis>)
    ensures PairsInRange(events, FullScan(events)) && results == PairDiagnoses(events, FullScan(events))
  {
    hide PairDiagnosis, Row, Sorted, Close, Adjacent, Precedes;
    results := [];
    var order, members := GroupEvents(events);
    ghost var pairs := [];
    for k := 0 to |order|
      invariant pairs == ScanGroups(events, order[..k])
      invariant PairsInRange(events, pairs) && results == PairDiagnoses(events, pairs)
    {
      assert order[..k + 1][..k] == order[..k];
      assert order[k] in order;
      results, pairs := ScanGroup(events, order[k], members[order[k]], results, pairs);
    }
    assert order[..|order|] == order;
  }

  /** The inner loop: the events behind position i, up to the first one outside the window. */
  method ScanRow(events: seq<Event>, s: seq<nat>, i: nat, earlier: seq<Diagnosis>, ghost known: seq<(nat, nat)>)
    returns (results: seq<Diagnosis>, ghost pairs: seq<(nat, nat)>)
    requires Ordered(events, s) && i < |s|
    requires PairsInRange(events, known) && earlier == PairDiagnoses(events, known)
    ensures pairs == known + Row(events, s, i, i + 1)
    ensures PairsInRange(events, pairs) && results == PairDiagnoses(events, pairs)
  {
    hide PairDiagnosis, Precedes;
    results, pairs := earlier, known;
    var j := i + 1;
    while j < |s|
      invariant i < j <= |s|
      invariant pairs + Row(events, s, i, j) == known + Row(events, s, i, i + 1)
      invariant PairsInRange(events, pairs) && results == PairDiagnoses(events, pairs)
    {
      var a, b := s[i], s[j];
      if events[b].timestamp - events[a].timestamp > WINDOW {
        EarlyExit(events, s, i, j);
        break;
      }
      if Adjacent(events, a, b) {
        Prepend(pairs, (a, b), Row(events, s, i, j + 1));
        results := results + [PairDiagnosis(events, (a, b))];
        pairs := pairs + [(a, b)];
      }
      j := j + 1;
    }
    assert pairs + [] == pairs;
  }

  lemma Prepend<T>(s: seq<T>, x: T, t: seq<T>)
    ensures s + ([x] + t) == (s + [x]) + t
  {
  }

  method ScanGroup(events: seq<Event>, g: Group, members: seq<nat>, earlier: seq<Diagnosis>,
                   ghost known: seq<(nat, nat)>)
    returns (results: seq<Diagnosis>, ghost pairs: seq<(nat, nat)>)
    requires members == Members(events, g)
    requires PairsInRange(events, known) && earlier == PairDiagnoses(events, known)
    ensures pairs == known + ScanFrom(events, Sorted(events, g), 0)
    ensures PairsInRange(events, pairs) && results == PairDiagnoses(events, pairs)
  {
    hide PairDiagnosis, PairDiagnoses, Sorted, Ordered, Row;
    SortedMeaning(events, g);
    SortedIs(events, g);
    var s := SortByTime(events, members);
    results, pairs := earlier, known;
    for i := 0 to |s|
      invariant pairs + ScanFrom(events, s, i) == known + ScanFrom(events, s, 0)
      invariant PairsInRange(events, pairs) && results == PairDiagnoses(events, pairs)
    {
      ghost var before := pairs;
      results, pairs := ScanRow(events, s, i, results, pairs);
      Associate(before, Row(events, s, i, i + 1), ScanFrom(events, s, i + 1));
    }
    assert pairs + [] == pairs;
  }

  lemma Associate<T>(s: seq<T>, t: seq<T>, u: seq<T>)
    ensures s + (t + u) == (s + t) + u
  {
  }

  lemma SortedIs(events: seq<Event>, g: Group)
    ensures InRange(events, Members(events, g)) && Sorted(events, g) == SortByTime(events, Members(events, g))
  {
    MembersMeaning(events, g);
  }

  /** Written out: one controller and channel, in time order, at most 0.064 s apart, neighbouring rows, two pages. */
  lemma HammerPairMeaning(events: seq<Event>, i: nat, j: nat)
    requires i < |events| && j < |events|
    ensures var a, b := events[i], events[j];
            HammerPair(events, i, j)
            <==> && a.controller == b.controller && a.channel == b.channel
                 && (a.timestamp < b.timestamp || (a.timestamp == b.timestamp && i < j))
                 && b.timestamp - a.timestamp <= 0.064
                 && (a.csrow == b.csrow + 1 || b.csrow == a.csrow + 1) && a.page != b.page
  {
  }
}
