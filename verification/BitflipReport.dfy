/** What each diagnosis of the bit-flip report says, and how the report is arranged (ml/bitflip_analyzer.py). */
module BitflipReport {
  import opened Bitflip
  import opened BitflipAnalysis

  // ----- the bits that a diagnosis names -----

  lemma {:induction false} DistinctMeaning(bits: seq<nat>, n: nat)
    ensures Increasing(Distinct(bits, n))
    ensures forall b: nat :: b in Distinct(bits, n) <==> b < n && b in bits
  {
    if n > 0 {
      DistinctMeaning(bits, n - 1);
      var before := Distinct(bits, n - 1);
      assert forall i :: 0 <= i < |before| ==> before[i] in before;
    }
  }

  /** The bits of the list are exactly those below 64 that one of the events flipped. */
  ghost predicate BitsOfEvents(bits: seq<nat>, events: seq<Event>, who: set<nat>)
    requires forall i :: i in who ==> i < |events|
  {
    && Increasing(bits)
    && forall b: nat :: b in bits <==> b < 64 && exists i :: i in who && HasBit(events[i].syndrome, b)
  }

  ghost function OnThePage(events: seq<Event>, page: int): set<nat> {
    set i: nat | i < |events| && events[i].page == page
  }

  lemma {:induction false} PageBitsMeaning(events: seq<Event>, page: int)
    ensures forall b: nat :: b in PageBits(events, page)
              <==> b < 64 && exists i: nat :: i < |events| && events[i].page == page && HasBit(events[i].syndrome, b)
  {
    hide HasBit, PositionsBelow;
    if events != [] {
      var n := |events| - 1;
      PageBitsMeaning(events[..n], page);
      PositionsMeaning(events[n].syndrome, 64);
      assert forall i :: 0 <= i < n ==> events[..n][i] == events[i];
      forall b: nat
        ensures b in PageBits(events, page)
           <==> b < 64 && exists i: nat :: i < |events| && events[i].page == page && HasBit(events[i].syndrome, b) {
        if b in PageBits(events[..n], page) {
          var i: nat :| i < n && events[..n][i].page == page && HasBit(events[..n][i].syndrome, b);
          assert events[i].page == page && HasBit(events[i].syndrome, b);
        }
        if i: nat :| i < |events| && events[i].page == page && HasBit(events[i].syndrome, b) && b < 64 && i < n {
          assert events[..n][i].page == page && HasBit(events[..n][i].syndrome, b);
        }
      }
    }
  }

  /** What a diagnosis of each pattern is about, and exactly which bits it names. */
  ghost predicate Justified(events: seq<Event>, d: Diagnosis) {
    match d.pattern
    case MultiBit =>
      exists i: nat :: i < |events| && events[i].page == d.page && |d.bits| > 1 && BitsOfEvents(d.bits, events, {i})
    case StuckBit =>
      d.bits != [] && Increasing(d.bits) && forall b: nat :: b in d.bits <==> IsStuck(events, d.page, b)
    case RowHammer =>
      exists i: nat, j: nat ::
        HammerPair(events, i, j) && events[i].page == d.page && BitsOfEvents(d.bits, events, {i, j})
    case RandomSeu =>
      OnPage(events, d.page) && BitsOfEvents(d.bits, events, OnThePage(events, d.page))
  }

  lemma MultiBitIsJustified(events: seq<Event>, d: Diagnosis)
    requires d in MultiBits(events)
    ensures Justified(events, d)
  {
    MultiBitsMeaning(events);
    hide MultiBits, HasBit, PositionsBelow;
    var i :| 0 <= i < |events| && d == Diagnosis(events[i].page, MultiBit, BitPositions(events[i].syndrome));
    PositionsMeaning(events[i].syndrome, 64);
    assert forall b: nat :: HasBit(events[i].syndrome, b) <==> exists k :: k in {i} && HasBit(events[k].syndrome, b);
    assert BitsOfEvents(d.bits, events, {i});
  }

  lemma StuckIsJustified(events: seq<Event>, d: Diagnosis)
    requires d in Stuck(events, Pages(events))
    ensures Justified(events, d)
  {
    StuckMeaning(events, Pages(events));
    hide Stuck, StuckBits, IsStuck;
    StuckBitsMeaning(events, d.page);
  }

  lemma PairIsJustified(events: seq<Event>, i: nat, j: nat)
    requires HammerPair(events, i, j)
    ensures Justified(events, PairDiagnosis(events, (i, j)))
  {
    hide HasBit, PositionsBelow, Distinct, Adjacent, Close, Precedes;
    var d := PairDiagnosis(events, (i, j));
    var a, b := BitPositions(events[i].syndrome), BitPositions(events[j].syndrome);
    PositionsMeaning(events[i].syndrome, 64);
    PositionsMeaning(events[j].syndrome, 64);
    DistinctMeaning(a + b, 64);
    forall c: nat ensures c in d.bits <==> c < 64 && exists k :: k in {i, j} && HasBit(events[k].syndrome, c) {
      if c < 64 && (HasBit(events[i].syndrome, c) || HasBit(events[j].syndrome, c)) {
        assert i in {i, j} && j in {i, j};
      }
    }
    assert BitsOfEvents(d.bits, events, {i, j});
  }

  lemma UpsetIsJustified(events: seq<Event>, d: Diagnosis, named: set<int>)
    requires d in Upsets(events, Pages(events), named)
    ensures Justified(events, d)
  {
    UpsetsMeaning(events, Pages(events), named);
    PagesMeaning(events);
    PageBitsMeaning(events, d.page);
    hide Upsets, Pages, PageBits, Distinct, HasBit;
    DistinctMeaning(PageBits(events, d.page), 64);
    var who := OnThePage(events, d.page);
    forall b: nat ensures b in d.bits <==> b < 64 && exists i :: i in who && HasBit(events[i].syndrome, b) {
      if i: nat :| i < |events| && events[i].page == d.page && HasBit(events[i].syndrome, b) { assert i in who; }
    }
  }

  /** Every diagnosis of the report says what its pattern means, bit by bit. */
  lemma EveryDiagnosisIsJustified(events: seq<Event>, d: Diagnosis)
    requires d in Analysis(events)
    ensures Justified(events, d)
  {
    PairDiagnosesMeaning(events);
    hide MultiBits, Stuck, PairDiagnoses, Upsets, Pages, FullScan, Named, Justified, PairDiagnosis;
    assert Analysis(events) == MultiBits(events) + Stuck(events, Pages(events))
                               + PairDiagnoses(events, FullScan(events))
                               + Upsets(events, Pages(events), Named(Patterned(events)));
    if d in MultiBits(events) {
      MultiBitIsJustified(events, d);
    } else if d in Stuck(events, Pages(events)) {
      StuckIsJustified(events, d);
    } else if d in PairDiagnoses(events, FullScan(events)) {
      var i, j :| HammerPair(events, i, j) && d == PairDiagnosis(events, (i, j));
      PairIsJustified(events, i, j);
    } else {
      UpsetIsJustified(events, d, Named(Patterned(events)));
    }
  }

  // ----- how the report is arranged -----

  function Rank(p: Pattern): nat {
    match p
    case MultiBit => 0
    case StuckBit => 1
    case RowHammer => 2
    case RandomSeu => 3
  }

  ghost predicate Ranked(ds: seq<Diagnosis>) {
    forall i, j :: 0 <= i < j < |ds| ==> Rank(ds[i].pattern) <= Rank(ds[j].pattern)
  }

  /** For stuck bits and random upsets a page is named once. */
  ghost predicate OncePerPage(ds: seq<Diagnosis>, p: Pattern) {
    forall i, j :: 0 <= i < j < |ds| && ds[i].pattern == p && ds[j].pattern == p ==> ds[i].page != ds[j].page
  }

  lemma RankedConcat(a: seq<Diagnosis>, b: seq<Diagnosis>, r: nat)
    requires Ranked(a) && Ranked(b)
    requires forall i :: 0 <= i < |a| ==> Rank(a[i].pattern) <= r
    requires forall i :: 0 <= i < |b| ==> Rank(b[i].pattern) >= r
    ensures Ranked(a + b)
  {
  }

  lemma OneRank(ds: seq<Diagnosis>, p: Pattern)
    requires AllOf(ds, p)
    ensures Ranked(ds) && forall i :: 0 <= i < |ds| ==> Rank(ds[i].pattern) == Rank(p)
  {
    assert forall i :: 0 <= i < |ds| ==> ds[i] in ds;
  }

  lemma StuckLast(events: seq<Event>, pages: seq<int>)
    requires pages != []
    ensures var n := |pages| - 1;
            || Stuck(events, pages) == Stuck(events, pages[..n])
            || Stuck(events, pages)
               == Stuck(events, pages[..n]) + [Diagnosis(pages[n], StuckBit, StuckBits(events, pages[n]))]
  {
    var n := |pages| - 1;
    assert Stuck(events, pages[..n]) + [] == Stuck(events, pages[..n]);
  }

  ghost predicate PagesDiffer(ds: seq<Diagnosis>) {
    forall i, j :: 0 <= i < j < |ds| ==> ds[i].page != ds[j].page
  }

  lemma PagesDifferSnoc(ds: seq<Diagnosis>, d: Diagnosis, pages: seq<int>)
    requires PagesDiffer(ds) && pages != [] && NoRepeats(pages) && d.page == pages[|pages| - 1]
    requires forall e :: e in ds ==> e.page in pages[..|pages| - 1]
    ensures PagesDiffer(ds + [d])
  {
    var n := |pages| - 1;
    forall i | 0 <= i < |ds| ensures ds[i].page != d.page {
      assert ds[i] in ds;
      var k :| 0 <= k < n && pages[..n][k] == ds[i].page;
      assert pages[k] != pages[n];
    }
  }

  lemma {:induction false} StuckOnce(events: seq<Event>, pages: seq<int>)
    requires NoRepeats(pages)
    ensures PagesDiffer(Stuck(events, pages))
  {
    if pages != [] {
      var n := |pages| - 1;
      StuckOnce(events, pages[..n]);
      StuckMeaning(events, pages[..n]);
      StuckLast(events, pages);
      hide Stuck, StuckBits, PagesDiffer;
      PagesDifferSnoc(Stuck(events, pages[..n]), Diagnosis(pages[n], StuckBit, StuckBits(events, pages[n])), pages);
    } else {
      assert Stuck(events, pages) == [];
    }
  }

  lemma UpsetLast(events: seq<Event>, pages: seq<int>, named: set<int>)
    requires pages != []
    ensures var n := |pages| - 1;
            var d := Diagnosis(pages[n], RandomSeu, Distinct(PageBits(events, pages[n]), 64));
            || Upsets(events, pages, named) == Upsets(events, pages[..n], named)
            || Upsets(events, pages, named) == Upsets(events, pages[..n], named) + [d]
  {
    var n := |pages| - 1;
    assert Upsets(events, pages[..n], named) + [] == Upsets(events, pages[..n], named);
  }

  lemma {:induction false} UpsetOnce(events: seq<Event>, pages: seq<int>, named: set<int>)
    requires NoRepeats(pages)
    ensures PagesDiffer(Upsets(events, pages, named))
  {
    if pages != [] {
      var n := |pages| - 1;
      UpsetOnce(events, pages[..n], named);
      UpsetsMeaning(events, pages[..n], named);
      UpsetLast(events, pages, named);
      hide Upsets, PageBits, Distinct, PagesDiffer;
      PagesDifferSnoc(Upsets(events, pages[..n], named),
                      Diagnosis(pages[n], RandomSeu, Distinct(PageBits(events, pages[n]), 64)), pages);
    } else {
      assert Upsets(events, pages, named) == [];
    }
  }

  /** The events with several flipped bits. */
  ghost function SeveralBitEvents(events: seq<Event>): set<nat> { set i: nat | i < |events| && SeveralBits(events[i]) }

  lemma {:induction false} OneMultiBitPerEvent(events: seq<Event>)
    ensures |MultiBits(events)| == |SeveralBitEvents(events)|
  {
    hide SeveralBits, BitPositions;
    if events == [] {
      assert SeveralBitEvents(events) == {};
    } else {
      var n := |events| - 1;
      OneMultiBitPerEvent(events[..n]);
      SeveralMeaning(events[n]);
      var before, hit := SeveralBitEvents(events[..n]), SeveralBits(events[n]);
      forall i: nat ensures i in SeveralBitEvents(events) <==> i in before || (i == n && hit) {
        if i < n { assert events[..n][i] == events[i]; }
      }
      assert SeveralBitEvents(events) == before + (if hit then {n} else {});
      assert n !in before;
    }
  }

  /** A list in four parts of one pattern each, in order, repeats no page in the second and in the fourth. */
  lemma FourRanks(a: seq<Diagnosis>, b: seq<Diagnosis>, c: seq<Diagnosis>, d: seq<Diagnosis>)
    requires AllOf(a, MultiBit) && AllOf(b, StuckBit) && AllOf(c, RowHammer) && AllOf(d, RandomSeu)
    requires PagesDiffer(b) && PagesDiffer(d)
    ensures Ranked(a + b + c + d) && OncePerPage(a + b + c + d, StuckBit) && OncePerPage(a + b + c + d, RandomSeu)
  {
    OneRank(a, MultiBit);
    OneRank(b, StuckBit);
    OneRank(c, RowHammer);
    OneRank(d, RandomSeu);
    RankedConcat(a, b, 0);
    RankedConcat(a + b, c, 1);
    RankedConcat(a + b + c, d, 2);
    PartAt(a, b, c, d, StuckBit);
    PartAt(a, b, c, d, RandomSeu);
  }

  lemma PartAt(a: seq<Diagnosis>, b: seq<Diagnosis>, c: seq<Diagnosis>, d: seq<Diagnosis>, p: Pattern)
    requires forall i :: 0 <= i < |a| ==> a[i].pattern == MultiBit
    requires forall i :: 0 <= i < |b| ==> b[i].pattern == StuckBit
    requires forall i :: 0 <= i < |c| ==> c[i].pattern == RowHammer
    requires forall i :: 0 <= i < |d| ==> d[i].pattern == RandomSeu
    requires p == StuckBit || p == RandomSeu
    requires PagesDiffer(if p == StuckBit then b else d)
    ensures OncePerPage(a + b + c + d, p)
  {
    var all := a + b + c + d;
    var part, off := if p == StuckBit then b else d, if p == StuckBit then |a| else |a| + |b| + |c|;
    forall i | 0 <= i < |all| && all[i].pattern == p ensures off <= i < off + |part| && all[i] == part[i - off] { }
  }

  /**
   * The report lists multi-bit events, stuck bits, row-hammer pairs and random upsets, in this order: one diagnosis
   * per event with several bits, and at most one of the second and of the fourth kind per page.
   */
  lemma ReportArrangement(events: seq<Event>)
    ensures Ranked(Analysis(events))
    ensures OncePerPage(Analysis(events), StuckBit) && OncePerPage(Analysis(events), RandomSeu)
    ensures |MultiBits(events)| == |SeveralBitEvents(events)|
  {
    PagesMeaning(events);
    FullScanMeaning(events);
    var named := Named(Patterned(events));
    MultiBitReports(events, 0);
    StuckReports(events, 0);
    HammerReports(events, 0);
    UpsetReports(events, named, 0);
    StuckOnce(events, Pages(events));
    UpsetOnce(events, Pages(events), named);
    OneMultiBitPerEvent(events);
    hide MultiBits, Stuck, PairDiagnoses, Upsets, Pages, FullScan, Named, SeveralBitEvents, HammerPair, AllOf;
    FourRanks(MultiBits(events), Stuck(events, Pages(events)), PairDiagnoses(events, FullScan(events)),
              Upsets(events, Pages(events), named));
  }
}
