/** The whole analysis and what its diagnoses mean (ml/bitflip_analyzer.py). */
module BitflipAnalysis {

  import opened Bitflip

  const STUCK_MORE_THAN := 5

  // ----- the report as a function of the events -----

  /** One diagnosis for each event with several flipped bits, in list order. */
  function MultiBits(events: seq<Event>): seq<Diagnosis> {
    if events == [] then []
    else
      var n := |events| - 1;
      var bits := BitPositions(events[n].syndrome);
      MultiBits(events[..n]) + (if |bits| > 1 then [Diagnosis(events[n].page, MultiBit, bits)] else [])
  }

  /** The pages in order of first appearance. */
  function Pages(events: seq<Event>): seq<int> {
    if events == [] then []
    else
      var n := |events| - 1;
      var before := Pages(events[..n]);
      if events[n].page in before then before else before + [events[n].page]
  }

  /** All flipped bits of a page, one after the other. */
  function PageBits(events: seq<Event>, page: int): seq<nat> {
    if events == [] then []
    else
      var n := |events| - 1;
      PageBits(events[..n], page) + (if events[n].page == page then BitPositions(events[n].syndrome) else [])
  }

  /** The positions below n that a list names more than five times. */
  function Repeated(bits: seq<nat>, n: nat): seq<nat> {
    if n == 0 then []
    else Repeated(bits, n - 1) + (if multiset(bits)[n - 1] > STUCK_MORE_THAN then [n - 1] else [])
  }

  function StuckBits(events: seq<Event>, page: int): seq<nat> { Repeated(PageBits(events, page), 64) }

  function Stuck(events: seq<Event>, pages: seq<int>): seq<Diagnosis> {
    if pages == [] then []
    else
      var n := |pages| - 1;
      var bits := StuckBits(events, pages[n]);
      Stuck(events, pages[..n]) + (if bits != [] then [Diagnosis(pages[n], StuckBit, bits)] else [])
  }

  function Named(ds: seq<Diagnosis>): set<int> { set d | d in ds :: d.page }

  function Upsets(events: seq<Event>, pages: seq<int>, named: set<int>): seq<Diagnosis> {
    if pages == [] then []
    else
      var n := |pages| - 1;
      Upsets(events, pages[..n], named)
      + (if pages[n] in named then [] else [Diagnosis(pages[n], RandomSeu, Distinct(PageBits(events, pages[n]), 64))])
  }

  function Patterned(events: seq<Event>): seq<Diagnosis> {
    FullScanMeaning(events);
    MultiBits(events) + Stuck(events, Pages(events)) + PairDiagnoses(events, FullScan(events))
  }

  function Analysis(events: seq<Event>): seq<Diagnosis> {
    Patterned(events) + Upsets(events, Pages(events), Named(Patterned(events)))
  }

  // ----- the analysis as the code runs it -----

  /** Counts how often each bit occurs, then keeps the bits over the limit in ascending order. */
  method FindStuck(bits: seq<nat>) returns (stuck: seq<nat>)
    ensures stuck == Repeated(bits, 64)
  {
    var counts: map<nat, nat> := map[];
    for k := 0 to |bits|
      invariant forall b :: multiset(bits[..k])[b] == if b in counts then counts[b] else 0
    {
      assert bits[..k + 1] == bits[..k] + [bits[k]];
      var b := bits[k];
      if b !in counts { counts := counts[b := 0]; }
      counts := counts[b := counts[b] + 1];
    }
    assert bits[..|bits|] == bits;
    stuck := [];
    for b := 0 to 64
      invariant stuck == Repeated(bits, b)
    {
      if b in counts && counts[b] > STUCK_MORE_THAN { stuck := stuck + [b]; }
    }
  }

  /** The first pass: the multi-bit diagnoses, and the flipped bits of every page in a dictionary. */
  method CollectPages(events: seq<Event>)
    returns (results: seq<Diagnosis>, pages: seq<int>, pageBits: map<int, seq<nat>>)
    ensures results == MultiBits(events) && pages == Pages(events)
    ensures forall k :: 0 <= k < |pages| ==> pages[k] in pageBits && pageBits[pages[k]] == PageBits(events, pages[k])
  {
    hide BitPositions;
    results, pages, pageBits := [], [], map[];
    for i := 0 to |events|
      invariant results == MultiBits(events[..i]) && pages == Pages(events[..i])
      invariant forall page :: page in pages ==> page in pageBits
      invariant forall page :: page in pageBits ==> page in pages
      invariant forall page :: PageBits(events[..i], page) == if page in pageBits then pageBits[page] else []
    {
      assert events[..i + 1][..i] == events[..i];
      var e := events[i];
      var bits := BitPositions(e.syndrome);
      if |bits| > 1 { results := results + [Diagnosis(e.page, MultiBit, bits)]; }
      if e.page !in pageBits {
        pages := pages + [e.page];
        pageBits := pageBits[e.page := []];
      }
      pageBits := pageBits[e.page := pageBits[e.page] + bits];
    }
    assert events[..|events|] == events;
    KeysPresent(pages, pageBits);
  }

  lemma KeysPresent(pages: seq<int>, pageBits: map<int, seq<nat>>)
    requires forall page :: page in pages ==> page in pageBits
    ensures forall k :: 0 <= k < |pages| ==> pages[k] in pageBits
  {
    forall k | 0 <= k < |pages| ensures pages[k] in pageBits {
      var page := pages[k];
      assert page in pages;
    }
  }

  method AnalyzeBitflips(events: seq<Event>) returns (results: seq<Diagnosis>)
    ensures results == Analysis(events)
  {
    hide Repeated, FullScan, PairDiagnoses, Distinct, PageBits, Pages, MultiBits;
    if events == [] {
      NoEvents();
      return [];
    }
    var multi, pages, pageBits := CollectPages(events);
    var stuck := [];
    for k := 0 to |pages|
      invariant stuck == Stuck(events, pages[..k])
    {
      assert pages[..k + 1][..k] == pages[..k];
      var bits := FindStuck(pageBits[pages[k]]);
      if bits != [] { stuck := stuck + [Diagnosis(pages[k], StuckBit, bits)]; }
    }
    assert pages[..|pages|] == pages;
    var hammered := CheckRowHammer(events);
    results := multi + stuck + hammered;
    var diagnosed := Named(results);
    var upsets := [];
    for k := 0 to |pages|
      invariant upsets == Upsets(events, pages[..k], diagnosed)
    {
      assert pages[..k + 1][..k] == pages[..k];
      if pages[k] !in diagnosed {
        upsets := upsets + [Diagnosis(pages[k], RandomSeu, Distinct(pageBits[pages[k]], 64))];
      }
    }
    results := results + upsets;
  }

  lemma NoEvents()
    ensures Analysis([]) == []
  {
    FullScanMeaning([]);
    assert FullScan([]) == [];
  }

  // ----- what the diagnoses mean -----

  ghost predicate OnPage(events: seq<Event>, page: int) { exists i :: 0 <= i < |events| && events[i].page == page }

  /** The events of the page that flipped bit b. */
  ghost function Flipped(events: seq<Event>, page: int, b: nat): set<nat> {
    set i: nat | i < |events| && events[i].page == page && HasBit(events[i].syndrome, b)
  }

  ghost predicate IsStuck(events: seq<Event>, page: int, b: nat) {
    b < 64 && |Flipped(events, page, b)| > 5
  }

  ghost predicate SeveralBits(e: Event) {
    exists a, b :: 0 <= a < b < 64 && HasBit(e.syndrome, a) && HasBit(e.syndrome, b)
  }

  ghost predicate Reports(ds: seq<Diagnosis>, page: int, p: Pattern) {
    exists d :: d in ds && d.page == page && d.pattern == p
  }

  lemma CountAppended(s: seq<nat>, x: nat, b: nat)
    ensures multiset(s + [x])[b] == multiset(s)[b] + (if x == b then 1 else 0)
  {
  }

  lemma {:induction false} CountIncreasing(s: seq<nat>, b: nat)
    requires Increasing(s)
    ensures multiset(s)[b] == if b in s then 1 else 0
  {
    if s != [] {
      var n := |s| - 1;
      CountIncreasing(s[..n], b);
      CountAppended(s[..n], s[n], b);
      assert s == s[..n] + [s[n]];
      assert b in s <==> b in s[..n] || b == s[n];
      assert s[n] !in s[..n];
    }
  }

  lemma OccursOnce(x: int, b: nat)
    requires b < 64
    ensures multiset(BitPositions(x))[b] == if HasBit(x, b) then 1 else 0
  {
    PositionsMeaning(x, 64);
    CountIncreasing(BitPositions(x), b);
  }

  lemma FlippedGrows(events: seq<Event>, page: int, b: nat)
    requires events != []
    ensures var n := |events| - 1;
            |Flipped(events, page, b)| == |Flipped(events[..n], page, b)|
              + (if events[n].page == page && HasBit(events[n].syndrome, b) then 1 else 0)
  {
    hide HasBit;
    var n := |events| - 1;
    var before := Flipped(events[..n], page, b);
    var hit := events[n].page == page && HasBit(events[n].syndrome, b);
    assert n !in before;
    forall i: nat ensures i in Flipped(events, page, b) <==> i in before || (i == n && hit) {
      if i < n { assert events[..n][i] == events[i]; }
    }
    assert Flipped(events, page, b) == before + (if hit then {n} else {});
  }

  /** A bit occurs in the list of a page as often as there are events of the page that flipped it. */
  lemma {:induction false} OccurrencesAreEvents(events: seq<Event>, page: int, b: nat)
    requires b < 64
    ensures multiset(PageBits(events, page))[b] == |Flipped(events, page, b)|
  {
    hide HasBit, BitPositions;
    if events == [] {
      assert Flipped(events, page, b) == {};
    } else {
      hide Flipped;
      var n := |events| - 1;
      OccurrencesAreEvents(events[..n], page, b);
      OccursOnce(events[n].syndrome, b);
      FlippedGrows(events, page, b);
    }
  }

  lemma {:induction false} RepeatedMeaning(bits: seq<nat>, n: nat)
    ensures Increasing(Repeated(bits, n))
    ensures forall b: nat :: b in Repeated(bits, n) <==> b < n && multiset(bits)[b] > STUCK_MORE_THAN
  {
    if n > 0 {
      RepeatedMeaning(bits, n - 1);
      var before := Repeated(bits, n - 1);
      assert forall i :: 0 <= i < |before| ==> before[i] in before;
    }
  }

  /** The bits that a stuck-bit diagnosis lists are exactly those flipped by more than five events of the page. */
  lemma StuckBitsMeaning(events: seq<Event>, page: int)
    ensures Increasing(StuckBits(events, page))
    ensures forall b: nat :: b in StuckBits(events, page) <==> IsStuck(events, page, b)
  {
    RepeatedMeaning(PageBits(events, page), 64);
    forall b: nat | b < 64 ensures multiset(PageBits(events, page))[b] == |Flipped(events, page, b)| {
      OccurrencesAreEvents(events, page, b);
    }
  }

  lemma {:induction false} PagesMeaning(events: seq<Event>)
    ensures forall page :: page in Pages(events) <==> OnPage(events, page)
    ensures NoRepeats(Pages(events))
  {
    if events != [] {
      var n := |events| - 1;
      PagesMeaning(events[..n]);
      assert forall i :: 0 <= i < n ==> events[..n][i] == events[i];
      forall page ensures OnPage(events, page) <==> OnPage(events[..n], page) || events[n].page == page {
        if OnPage(events[..n], page) {
          var i :| 0 <= i < n && events[..n][i].page == page;
          assert events[i].page == page;
        }
        if i :| 0 <= i < |events| && events[i].page == page && i < n { assert events[..n][i].page == page; }
      }
    }
  }

  // ----- classification -----

  ghost predicate MultiBitOf(events: seq<Event>, d: Diagnosis) {
    && |d.bits| > 1
    && exists i :: 0 <= i < |events| && d == Diagnosis(events[i].page, MultiBit, BitPositions(events[i].syndrome))
  }

  lemma {:induction false} MultiBitsMeaning(events: seq<Event>)
    ensures forall d :: d in MultiBits(events) <==> MultiBitOf(events, d)
  {
    hide BitPositions;
    if events != [] {
      var n := |events| - 1;
      MultiBitsMeaning(events[..n]);
      assert forall i :: 0 <= i < n ==> events[..n][i] == events[i];
      var last := Diagnosis(events[n].page, MultiBit, BitPositions(events[n].syndrome));
      forall d ensures d in MultiBits(events)
                       <==> d in MultiBits(events[..n]) || (d == last && |last.bits| > 1) { }
    }
  }

  lemma {:induction false} StuckMeaning(events: seq<Event>, pages: seq<int>)
    ensures forall d :: d in Stuck(events, pages)
              <==> d.page in pages && d.pattern == StuckBit && d.bits == StuckBits(events, d.page) && d.bits != []
  {
    hide StuckBits;
    if pages != [] {
      var n := |pages| - 1;
      assert pages == pages[..n] + [pages[n]];
      StuckMeaning(events, pages[..n]);
    }
  }

  lemma {:induction false} UpsetsMeaning(events: seq<Event>, pages: seq<int>, named: set<int>)
    ensures forall d :: d in Upsets(events, pages, named)
              <==> d.page in pages && d.page !in named
                   && d.pattern == RandomSeu && d.bits == Distinct(PageBits(events, d.page), 64)
  {
    hide PageBits, Distinct;
    if pages != [] {
      var n := |pages| - 1;
      assert pages == pages[..n] + [pages[n]];
      UpsetsMeaning(events, pages[..n], named);
    }
  }

  lemma PairDiagnosesMeaning(events: seq<Event>)
    ensures PairsInRange(events, FullScan(events))
    ensures forall d :: d in PairDiagnoses(events, FullScan(events))
              <==> exists i, j :: HammerPair(events, i, j) && d == PairDiagnosis(events, (i, j))
  {
    FullScanMeaning(events);
    hide HammerPair, PairDiagnosis, FullScan;
    var pairs := FullScan(events);
    var ds := PairDiagnoses(events, pairs);
    forall d ensures d in ds <==> exists p :: p in pairs && d == PairDiagnosis(events, p) {
      if d in ds {
        var k :| 0 <= k < |ds| && ds[k] == d;
        assert pairs[k] in pairs;
      }
      if p :| p in pairs && d == PairDiagnosis(events, p) {
        var k :| 0 <= k < |pairs| && pairs[k] == p;
        assert ds[k] == d;
      }
    }
  }

  lemma SeveralMeaning(e: Event)
    ensures SeveralBits(e) <==> |BitPositions(e.syndrome)| > 1
  {
    PositionsMeaning(e.syndrome, 64);
    var bits := BitPositions(e.syndrome);
    hide HasBit, PositionsBelow, BitPositions;
    if |bits| > 1 { assert bits[0] in bits && bits[1] in bits; }
    if a, b :| 0 <= a < b < 64 && HasBit(e.syndrome, a) && HasBit(e.syndrome, b) {
      assert a in bits && b in bits;
    }
  }

  ghost predicate AllOf(ds: seq<Diagnosis>, p: Pattern) { forall d :: d in ds ==> d.pattern == p }

  lemma ReportsConcat(a: seq<Diagnosis>, b: seq<Diagnosis>, page: int, p: Pattern)
    ensures Reports(a + b, page, p) <==> Reports(a, page, p) || Reports(b, page, p)
  {
    if Reports(a, page, p) {
      var d :| d in a && d.page == page && d.pattern == p;
      assert d in a + b;
    }
    if Reports(b, page, p) {
      var d :| d in b && d.page == page && d.pattern == p;
      assert d in a + b;
    }
  }

  /** In four lists of one pattern each, the pattern tells the list. */
  lemma FourParts(a: seq<Diagnosis>, b: seq<Diagnosis>, c: seq<Diagnosis>, d: seq<Diagnosis>, page: int)
    requires AllOf(a, MultiBit) && AllOf(b, StuckBit) && AllOf(c, RowHammer) && AllOf(d, RandomSeu)
    ensures Reports(a + b + c + d, page, MultiBit) <==> Reports(a, page, MultiBit)
    ensures Reports(a + b + c + d, page, StuckBit) <==> Reports(b, page, StuckBit)
    ensures Reports(a + b + c + d, page, RowHammer) <==> Reports(c, page, RowHammer)
    ensures Reports(a + b + c + d, page, RandomSeu) <==> Reports(d, page, RandomSeu)
  {
    forall p: Pattern ensures Reports(a + b + c + d, page, p)
                     <==> Reports(a, page, p) || Reports(b, page, p) || Reports(c, page, p) || Reports(d, page, p) {
      ReportsConcat(a, b, page, p);
      ReportsConcat(a + b, c, page, p);
      ReportsConcat(a + b + c, d, page, p);
    }
  }

  lemma NamedMeaning(ds: seq<Diagnosis>, page: int)
    ensures page in Named(ds) <==> exists p :: Reports(ds, page, p)
  {
    if page in Named(ds) {
      var d :| d in ds && d.page == page;
      assert Reports(ds, page, d.pattern);
    }
  }

  ghost predicate HasMultiBit(events: seq<Event>, page: int) {
    exists i :: 0 <= i < |events| && events[i].page == page && SeveralBits(events[i])
  }

  ghost predicate HasStuck(events: seq<Event>, page: int) { exists b: nat :: IsStuck(events, page, b) }

  ghost predicate Hammered(events: seq<Event>, page: int) {
    exists i: nat, j: nat :: HammerPair(events, i, j) && events[i].page == page
  }

  lemma MultiBitReports(events: seq<Event>, page: int)
    ensures Reports(MultiBits(events), page, MultiBit) <==> HasMultiBit(events, page)
    ensures AllOf(MultiBits(events), MultiBit)
  {
    MultiBitsMeaning(events);
    hide MultiBits, BitPositions, SeveralBits;
    forall i | 0 <= i < |events| ensures SeveralBits(events[i]) <==> |BitPositions(events[i].syndrome)| > 1 {
      SeveralMeaning(events[i]);
    }
    if i :| 0 <= i < |events| && events[i].page == page && SeveralBits(events[i]) {
      assert MultiBitOf(events, Diagnosis(events[i].page, MultiBit, BitPositions(events[i].syndrome)));
    }
  }

  lemma StuckReports(events: seq<Event>, page: int)
    ensures Reports(Stuck(events, Pages(events)), page, StuckBit) <==> HasStuck(events, page)
    ensures AllOf(Stuck(events, Pages(events)), StuckBit)
  {
    StuckMeaning(events, Pages(events));
    StuckBitsMeaning(events, page);
    PagesMeaning(events);
    hide Stuck, StuckBits, Pages, HasBit;
    var bits := StuckBits(events, page);
    if b: nat :| IsStuck(events, page, b) {
      assert b in bits;
      assert OnPage(events, page) by {
        assert Flipped(events, page, b) != {};
        var i :| i in Flipped(events, page, b);
        assert events[i].page == page;
      }
      assert Diagnosis(page, StuckBit, bits) in Stuck(events, Pages(events));
    }
    if bits != [] { assert bits[0] in bits; }
  }

  lemma HammerReports(events: seq<Event>, page: int)
    ensures PairsInRange(events, FullScan(events))
    ensures Reports(PairDiagnoses(events, FullScan(events)), page, RowHammer) <==> Hammered(events, page)
    ensures AllOf(PairDiagnoses(events, FullScan(events)), RowHammer)
  {
    PairDiagnosesMeaning(events);
    hide PairDiagnoses, FullScan, Distinct, BitPositions;
    if i: nat, j: nat :| HammerPair(events, i, j) && events[i].page == page {
      assert PairDiagnosis(events, (i, j)) in PairDiagnoses(events, FullScan(events));
    }
  }

  lemma UpsetReports(events: seq<Event>, named: set<int>, page: int)
    ensures Reports(Upsets(events, Pages(events), named), page, RandomSeu) <==> OnPage(events, page) && page !in named
    ensures AllOf(Upsets(events, Pages(events), named), RandomSeu)
  {
    UpsetsMeaning(events, Pages(events), named);
    PagesMeaning(events);
    hide Upsets, Pages, Distinct, PageBits;
    if OnPage(events, page) && page !in named {
      assert Diagnosis(page, RandomSeu, Distinct(PageBits(events, page), 64)) in Upsets(events, Pages(events), named);
    }
  }

  lemma PatternedMeaning(events: seq<Event>, page: int)
    ensures page in Named(Patterned(events))
            <==> HasMultiBit(events, page) || HasStuck(events, page) || Hammered(events, page)
  {
    NamedMeaning(Patterned(events), page);
    FullScanMeaning(events);
    MultiBitReports(events, page);
    StuckReports(events, page);
    HammerReports(events, page);
    hide MultiBits, Stuck, PairDiagnoses, Pages, FullScan, Named, HasMultiBit, HasStuck, Hammered;
    FourParts(MultiBits(events), Stuck(events, Pages(events)), PairDiagnoses(events, FullScan(events)), [], page);
    assert Patterned(events) + [] == Patterned(events);
  }

  /**
   * When each of the four patterns is reported for a page: the diagnosis that is left over names exactly the
   * other pages.
   */
  lemma Classification(events: seq<Event>, page: int)
    ensures Reports(Analysis(events), page, MultiBit) <==> HasMultiBit(events, page)
    ensures Reports(Analysis(events), page, StuckBit) <==> HasStuck(events, page)
    ensures Reports(Analysis(events), page, RowHammer) <==> Hammered(events, page)
    ensures Reports(Analysis(events), page, RandomSeu)
            <==> && OnPage(events, page)
                 && !HasMultiBit(events, page) && !HasStuck(events, page) && !Hammered(events, page)
  {
    MultiBitReports(events, page);
    StuckReports(events, page);
    HammerReports(events, page);
    UpsetReports(events, Named(Patterned(events)), page);
    PatternedMeaning(events, page);
    hide MultiBits, Stuck, PairDiagnoses, Pages, FullScan, Named, HasMultiBit, HasStuck, Hammered, Upsets, OnPage;
    hide Reports, AllOf;
    FourParts(MultiBits(events), Stuck(events, Pages(events)), PairDiagnoses(events, FullScan(events)),
              Upsets(events, Pages(events), Named(Patterned(events))), page);
  }

  /** Exactly the pages of the events get a diagnosis. */
  lemma EveryPageIsDiagnosed(events: seq<Event>, page: int)
    ensures OnPage(events, page) <==> exists p :: Reports(Analysis(events), page, p)
  {
    Classification(events, page);
    assert HasMultiBit(events, page) ==> OnPage(events, page);
    assert Hammered(events, page) ==> OnPage(events, page);
    if b: nat :| IsStuck(events, page, b) {
      assert Flipped(events, page, b) != {};
      var i :| i in Flipped(events, page, b);
      assert events[i].page == page;
    }
    hide Analysis, HasMultiBit, HasStuck, Hammered, OnPage;
    assert OnPage(events, page) ==> exists p :: Reports(Analysis(events), page, p);
    if p :| Reports(Analysis(events), page, p) {
      assert p == MultiBit || p == StuckBit || p == RowHammer || p == RandomSeu;
    }
  }
}
