/**
 * The kernel log parser (replay/parse_edac_trace.py). A line is known by what the patterns of the parser find in it;
 * an event is known by its number, its kind, its line and the fields that a look-ahead can fill, for all its other
 * fields are computed from the line.
 */
module TraceParsing {
  import opened Wrappers

  datatype Kind = CE | UE | AerCE | AerUE | Mce

  datatype Location = Location(csrow: nat, channel: nat)

  /** What stands in the first pair of parentheses of an EDAC message. */
  datatype Details = Details(page: Option<nat>, offset: Option<nat>, grain: Option<nat>, syndrome: Option<string>)

  const NO_DETAILS := Details(None, None, None, None)

  /** Of a line: the patterns that decide its kind, what it says itself, and what it tells a line before it. */
  datatype Line = Line(
    text: string,
    blank: bool,
    hasEdac: bool,
    ce: bool,
    ueBeforeCe: bool,
    ue: bool,
    hasAer: bool,
    corrected: Option<string>,
    uncorrected: Option<string>,
    mce: bool,
    inlineLocation: Option<Location>,
    inlineDetails: Option<Details>,
    location: Option<Location>,
    details: Option<Details>,
    aerType: Option<string>)

  datatype Event = Event(
    number: nat,
    kind: Kind,
    line: Line,
    location: Option<Location>,
    details: Details,
    aerType: Option<string>)

  const LOCATION_LINES := 3
  const AER_LINES := 5

  function Min(a: int, b: int): int { if a < b then a else b }

  // ----- the events of a log, without a parser -----

  /** What the line reports, the first pattern that applies. */
  function KindOf(line: Line): Option<Kind> {
    if line.blank then None
    else if line.hasEdac && line.ce && !line.ueBeforeCe then Some(CE)
    else if line.hasEdac && line.ue then Some(UE)
    else if line.hasAer && line.corrected.Some? then Some(AerCE)
    else if line.hasAer && line.uncorrected.Some? then Some(AerUE)
    else if line.mce then Some(Mce)
    else None
  }

  /** The first line from j on, before `end`, that holds a location. */
  function FollowUp(lines: seq<Line>, j: nat, end: nat): (r: Option<Line>)
    requires end <= |lines|
    ensures r.Some? ==> r.value.location.Some?
    decreases end - j
  {
    if j >= end then None else if lines[j].location.Some? then Some(lines[j]) else FollowUp(lines, j + 1, end)
  }

  function AerType(lines: seq<Line>, j: nat, end: nat): Option<string>
    requires end <= |lines|
    decreases end - j
  {
    if j >= end then None else if lines[j].aerType.Some? then lines[j].aerType else AerType(lines, j + 1, end)
  }

  function WindowEnd(lines: seq<Line>, i: nat, ahead: nat): nat { Min(i + ahead + 1, |lines|) }

  /** The follow-up line is searched behind the line itself, so what the line says goes first. */
  function EdacEvent(number: nat, kind: Kind, line: Line, followUp: Option<Line>): Event {
    Event(number, kind, line,
          if line.inlineLocation.Some? then line.inlineLocation
          else if followUp.Some? then followUp.value.location else None,
          if line.inlineDetails.Some? then line.inlineDetails.value
          else if followUp.Some? && followUp.value.details.Some? then followUp.value.details.value else NO_DETAILS,
          None)
  }

  function EventOf(lines: seq<Line>, i: nat, number: nat): Event
    requires i < |lines| && KindOf(lines[i]).Some?
  {
    var kind, line := KindOf(lines[i]).value, lines[i];
    match kind
    case CE => EdacEvent(number, CE, line, FollowUp(lines, i + 1, WindowEnd(lines, i, LOCATION_LINES)))
    case UE => EdacEvent(number, UE, line, FollowUp(lines, i + 1, WindowEnd(lines, i, LOCATION_LINES)))
    case AerCE => Event(number, kind, line, None, NO_DETAILS, AerType(lines, i + 1, WindowEnd(lines, i, AER_LINES)))
    case AerUE => Event(number, kind, line, None, NO_DETAILS, AerType(lines, i + 1, WindowEnd(lines, i, AER_LINES)))
    case Mce => Event(number, kind, line, None, NO_DETAILS, None)
  }

  /** The events of the first k lines, numbered from `first` on. */
  function EventsBefore(lines: seq<Line>, k: nat, first: nat): seq<Event>
    requires k <= |lines|
  {
    if k == 0 then []
    else
      var before := EventsBefore(lines, k - 1, first);
      if KindOf(lines[k - 1]).Some? then before + [EventOf(lines, k - 1, first + |before|)] else before
  }

  function Events(lines: seq<Line>, first: nat): seq<Event> { EventsBefore(lines, |lines|, first) }

  function Select(events: seq<Event>, kinds: set<Kind>): seq<Event> {
    if events == [] then []
    else
      var n := |events| - 1;
      Select(events[..n], kinds) + (if events[n].kind in kinds then [events[n]] else [])
  }

  /** The device of the last corrected AER error that was seen. */
  function PendingDevice(lines: seq<Line>, k: nat, before: Option<string>): Option<string>
    requires k <= |lines|
  {
    if k == 0 then before
    else if KindOf(lines[k - 1]) == Some(AerCE) then lines[k - 1].corrected
    else PendingDevice(lines, k - 1, before)
  }

  // ----- the parser of the code -----

  class TraceParser {
    const eventTypes: set<Kind>
    var sequence: nat
    var pendingDevice: Option<string>

    constructor (eventTypes: Option<set<Kind>>)
      ensures this.eventTypes == match eventTypes { case Some(kinds) => kinds case None => {CE, UE, AerCE, AerUE, Mce} }
      ensures sequence == 0 && pendingDevice == None
    {
      this.eventTypes := match eventTypes { case Some(kinds) => kinds case None => {CE, UE, AerCE, AerUE, Mce} };
      sequence, pendingDevice := 0, None;
    }

    /** The numbers count the events of all kinds; the kinds of this parser are selected afterwards. */
    method ParseFile(lines: seq<Line>) returns (events: seq<Event>)
      modifies this
      ensures events == Select(Events(lines, old(sequence)), eventTypes)
      ensures sequence == old(sequence) + |Events(lines, old(sequence))|
      ensures pendingDevice == PendingDevice(lines, |lines|, old(pendingDevice))
    {
      hide EventOf, KindOf;
      events := [];
      for i := 0 to |lines|
        invariant events == Select(EventsBefore(lines, i, old(sequence)), eventTypes)
        invariant sequence == old(sequence) + |EventsBefore(lines, i, old(sequence))|
        invariant pendingDevice == PendingDevice(lines, i, old(pendingDevice))
      {
        if lines[i].blank {
          BlankReportsNothing(lines[i]);
          continue;
        }
        var event := ParseLine(lines[i], lines, i);
        if event.Some? {
          SelectSnoc(EventsBefore(lines, i, old(sequence)), event.value, eventTypes);
          KindOfEvent(lines, i, event.value.number);
          if event.value.kind in eventTypes { events := events + [event.value]; }
        }
      }
    }

    method ParseLine(line: Line, lines: seq<Line>, i: nat) returns (event: Option<Event>)
      requires i < |lines| && lines[i] == line && !line.blank
      modifies this
      ensures KindOf(line) == None ==> event == None && sequence == old(sequence)
      ensures KindOf(line) != None ==> event == Some(EventOf(lines, i, old(sequence))) && sequence == old(sequence) + 1
      ensures pendingDevice == if KindOf(line) == Some(AerCE) then line.corrected else old(pendingDevice)
    {
      if line.hasEdac {
        if line.ce && !line.ueBeforeCe {
          var followUp := LookAheadLocation(lines, i, LOCATION_LINES);
          event := MakeEdacEvent(CE, line, followUp);
          return;
        }
        if line.ue {
          var followUp := LookAheadLocation(lines, i, LOCATION_LINES);
          event := MakeEdacEvent(UE, line, followUp);
          return;
        }
      }
      if line.hasAer {
        if line.corrected.Some? {
          pendingDevice := line.corrected;
          var aerType := LookAheadAerType(lines, i, AER_LINES);
          event := MakeEvent(AerCE, line, aerType);
          return;
        }
        if line.uncorrected.Some? {
          var aerType := LookAheadAerType(lines, i, AER_LINES);
          event := MakeEvent(AerUE, line, aerType);
          return;
        }
      }
      if line.mce {
        event := MakeEvent(Mce, line, None);
        return;
      }
      event := None;
    }

    method MakeEdacEvent(kind: Kind, line: Line, followUp: Option<Line>) returns (event: Option<Event>)
      modifies `sequence
      ensures event == Some(EdacEvent(old(sequence), kind, line, followUp)) && sequence == old(sequence) + 1
    {
      var details := line.inlineDetails;
      if details.None? && followUp.Some? { details := followUp.value.details; }
      var location := line.inlineLocation;
      if location.None? && followUp.Some? { location := followUp.value.location; }
      event := Some(Event(sequence, kind, line, location, if details.Some? then details.value else NO_DETAILS, None));
      sequence := sequence + 1;
    }

    method MakeEvent(kind: Kind, line: Line, aerType: Option<string>) returns (event: Option<Event>)
      modifies `sequence
      ensures event == Some(Event(old(sequence), kind, line, None, NO_DETAILS, aerType))
      ensures sequence == old(sequence) + 1
    {
      event := Some(Event(sequence, kind, line, None, NO_DETAILS, aerType));
      sequence := sequence + 1;
    }

    method LookAheadLocation(lines: seq<Line>, i: nat, ahead: nat) returns (followUp: Option<Line>)
      requires i < |lines|
      ensures followUp == FollowUp(lines, i + 1, WindowEnd(lines, i, ahead))
    {
      var end := Min(i + ahead + 1, |lines|);
      for j := i + 1 to end
        invariant FollowUp(lines, i + 1, end) == FollowUp(lines, j, end)
      {
        if lines[j].location.Some? { return Some(lines[j]); }
      }
      followUp := None;
    }

    method LookAheadAerType(lines: seq<Line>, i: nat, ahead: nat) returns (aerType: Option<string>)
      requires i < |lines|
      ensures aerType == AerType(lines, i + 1, WindowEnd(lines, i, ahead))
    {
      var end := Min(i + ahead + 1, |lines|);
      for j := i + 1 to end
        invariant AerType(lines, i + 1, end) == AerType(lines, j, end)
      {
        if lines[j].aerType.Some? { return lines[j].aerType; }
      }
      aerType := None;
    }
  }

  lemma BlankReportsNothing(line: Line)
    requires line.blank
    ensures KindOf(line) == None
  {
  }

  lemma KindOfEvent(lines: seq<Line>, i: nat, number: nat)
    requires i < |lines| && KindOf(lines[i]).Some?
    ensures var e := EventOf(lines, i, number);
            e.kind == KindOf(lines[i]).value && e.number == number && e.line == lines[i]
  {
  }

  lemma SelectSnoc(events: seq<Event>, e: Event, kinds: set<Kind>)
    ensures Select(events + [e], kinds) == Select(events, kinds) + (if e.kind in kinds then [e] else [])
  {
    assert (events + [e])[..|events|] == events;
  }

  // ----- properties -----

  lemma AllKinds(kind: Kind)
    ensures kind in {CE, UE, AerCE, AerUE, Mce}
  {
    assert kind == CE || kind == UE || kind == AerCE || kind == AerUE || kind == Mce;
  }

  /**
   * A parser for some kinds sees what a parser for all kinds sees, less the other kinds: the same events under
   * the same numbers.
   */
  lemma {:induction false} SelectingCommutes(events: seq<Event>, more: set<Kind>, kinds: set<Kind>)
    requires kinds <= more
    ensures Select(Select(events, more), kinds) == Select(events, kinds)
    ensures more == {CE, UE, AerCE, AerUE, Mce} ==> Select(events, more) == events
  {
    if events != [] {
      var n := |events| - 1;
      SelectingCommutes(events[..n], more, kinds);
      assert events == events[..n] + [events[n]];
      if events[n].kind in more {
        SelectSnoc(Select(events[..n], more), events[n], kinds);
      } else {
        assert Select(events[..n], more) + [] == Select(events[..n], more);
        assert Select(events[..n], kinds) + [] == Select(events[..n], kinds);
      }
      AllKinds(events[n].kind);
    }
  }

  /** The number of events before line k. */
  function Position(lines: seq<Line>, k: nat): nat
    requires k <= |lines|
  {
    if k == 0 then 0 else Position(lines, k - 1) + (if KindOf(lines[k - 1]).Some? then 1 else 0)
  }

  /** Each reporting line has its event at its position, and the numbers are consecutive. */
  lemma {:induction false} EventsMeaning(lines: seq<Line>, k: nat, first: nat)
    requires k <= |lines|
    ensures |EventsBefore(lines, k, first)| == Position(lines, k)
    ensures forall i :: 0 <= i < |EventsBefore(lines, k, first)|
                        ==> EventsBefore(lines, k, first)[i].number == first + i
    ensures forall i :: 0 <= i < k && KindOf(lines[i]).Some?
              ==> Position(lines, i) < Position(lines, k)
                  && EventsBefore(lines, k, first)[Position(lines, i)] == EventOf(lines, i, first + Position(lines, i))
  {
    hide EventOf, KindOf;
    if k > 0 {
      EventsMeaning(lines, k - 1, first);
      if KindOf(lines[k - 1]).Some? { KindOfEvent(lines, k - 1, first + Position(lines, k - 1)); }
    }
  }

  lemma {:induction false} SameWindow(a: seq<Line>, i: nat, b: seq<Line>, j: nat, n: nat)
    requires i + n <= |a| && j + n <= |b| && a[i..i + n] == b[j..j + n]
    ensures FollowUp(a, i, i + n) == FollowUp(b, j, j + n) && AerType(a, i, i + n) == AerType(b, j, j + n)
    decreases n
  {
    if n > 0 {
      assert a[i] == a[i..i + n][0] && b[j] == b[j..j + n][0];
      assert a[i + 1..i + n] == a[i..i + n][1..] && b[j + 1..j + n] == b[j..j + n][1..];
      SameWindow(a, i + 1, b, j + 1, n - 1);
    }
  }

  /** The event of a line depends on the line and the next five, or as many as there are. */
  lemma EventIsLocal(a: seq<Line>, i: nat, b: seq<Line>, j: nat, number: nat)
    requires i < |a| && j < |b| && KindOf(a[i]).Some?
    requires a[i..WindowEnd(a, i, AER_LINES)] == b[j..WindowEnd(b, j, AER_LINES)]
    ensures KindOf(b[j]).Some? && EventOf(a, i, number) == EventOf(b, j, number)
  {
    hide KindOf, FollowUp, AerType;
    var s, t := a[i..WindowEnd(a, i, AER_LINES)], b[j..WindowEnd(b, j, AER_LINES)];
    var n := |s| - 1;
    var m := Min(n, LOCATION_LINES);
    assert a[i] == s[0] && b[j] == t[0];
    assert a[i + 1..i + 1 + n] == s[1..] && b[j + 1..j + 1 + n] == t[1..];
    assert a[i + 1..i + 1 + m] == s[1..][..m] && b[j + 1..j + 1 + m] == t[1..][..m];
    SameWindow(a, i + 1, b, j + 1, n);
    SameWindow(a, i + 1, b, j + 1, m);
    assert WindowEnd(a, i, AER_LINES) == i + 1 + n && WindowEnd(b, j, AER_LINES) == j + 1 + n;
    assert WindowEnd(a, i, LOCATION_LINES) == i + 1 + m && WindowEnd(b, j, LOCATION_LINES) == j + 1 + m;
  }

  ghost predicate LocationFollows(lines: seq<Line>, i: nat) { exists j :: i < j < |lines| && lines[j].location.Some? }

  ghost predicate AerTypeFollows(lines: seq<Line>, i: nat) { exists j :: i < j < |lines| && lines[j].aerType.Some? }

  /**
   * No later line can matter to line i: its look-ahead is over or has found what it looks for, or the line says
   * itself all that the look-ahead could tell.
   */
  ghost predicate Settled(lines: seq<Line>, i: nat)
    requires i < |lines| && KindOf(lines[i]).Some?
  {
    match KindOf(lines[i]).value
    case Mce => true
    case CE => EdacSettled(lines, i)
    case UE => EdacSettled(lines, i)
    case AerCE => i + AER_LINES < |lines| || AerTypeFollows(lines, i)
    case AerUE => i + AER_LINES < |lines| || AerTypeFollows(lines, i)
  }

  ghost predicate EdacSettled(lines: seq<Line>, i: nat)
    requires i < |lines|
  {
    || i + LOCATION_LINES < |lines|
    || LocationFollows(lines, i)
    || (lines[i].inlineLocation.Some? && lines[i].inlineDetails.Some?)
  }

  lemma {:induction false} LongerFollowUp(lines: seq<Line>, j: nat, end: nat, more: seq<Line>, end': nat)
    requires end == |lines| && end <= end' <= |lines + more| && j <= end
    ensures (exists k :: j <= k < end && lines[k].location.Some?)
            ==> FollowUp(lines + more, j, end') == FollowUp(lines, j, end)
    ensures !(exists k :: j <= k < end && lines[k].location.Some?)
            ==> FollowUp(lines, j, end) == None && FollowUp(lines + more, j, end') == FollowUp(lines + more, end, end')
    decreases end - j
  {
    if j < end {
      assert (lines + more)[j] == lines[j];
      LongerFollowUp(lines, j + 1, end, more, end');
    }
  }

  lemma {:induction false} LongerAerType(lines: seq<Line>, j: nat, end: nat, more: seq<Line>, end': nat)
    requires end == |lines| && end <= end' <= |lines + more| && j <= end
    ensures (exists k :: j <= k < end && lines[k].aerType.Some?)
            ==> AerType(lines + more, j, end') == AerType(lines, j, end)
    ensures !(exists k :: j <= k < end && lines[k].aerType.Some?)
            ==> AerType(lines, j, end) == None && AerType(lines + more, j, end') == AerType(lines + more, end, end')
    decreases end - j
  {
    if j < end {
      assert (lines + more)[j] == lines[j];
      LongerAerType(lines, j + 1, end, more, end');
    }
  }

  /** A complete window, or one with a find, stays as it is when the log grows. */
  lemma FollowUpStays(lines: seq<Line>, i: nat, more: seq<Line>)
    requires i < |lines| && (i + LOCATION_LINES < |lines| || LocationFollows(lines, i))
    ensures FollowUp(lines + more, i + 1, WindowEnd(lines + more, i, LOCATION_LINES))
         == FollowUp(lines, i + 1, WindowEnd(lines, i, LOCATION_LINES))
  {
    var longer := lines + more;
    if i + LOCATION_LINES < |lines| {
      assert longer[i + 1..i + 1 + LOCATION_LINES] == lines[i + 1..i + 1 + LOCATION_LINES];
      SameWindow(lines, i + 1, longer, i + 1, LOCATION_LINES);
    } else {
      var j :| i < j < |lines| && lines[j].location.Some?;
      LongerFollowUp(lines, i + 1, |lines|, more, WindowEnd(longer, i, LOCATION_LINES));
    }
  }

  lemma AerTypeStays(lines: seq<Line>, i: nat, more: seq<Line>)
    requires i < |lines| && (i + AER_LINES < |lines| || AerTypeFollows(lines, i))
    ensures AerType(lines + more, i + 1, WindowEnd(lines + more, i, AER_LINES))
         == AerType(lines, i + 1, WindowEnd(lines, i, AER_LINES))
  {
    var longer := lines + more;
    if i + AER_LINES < |lines| {
      assert longer[i + 1..i + 1 + AER_LINES] == lines[i + 1..i + 1 + AER_LINES];
      SameWindow(lines, i + 1, longer, i + 1, AER_LINES);
    } else {
      var j :| i < j < |lines| && lines[j].aerType.Some?;
      LongerAerType(lines, i + 1, |lines|, more, WindowEnd(longer, i, AER_LINES));
    }
  }

  /** Appending lines leaves the event of a settled line alone. */
  lemma SettledStays(lines: seq<Line>, i: nat, more: seq<Line>, number: nat)
    requires i < |lines| && KindOf(lines[i]).Some? && Settled(lines, i)
    ensures EventOf(lines + more, i, number) == EventOf(lines, i, number)
  {
    hide KindOf, FollowUp, AerType, LocationFollows, AerTypeFollows, WindowEnd;
    assert (lines + more)[i] == lines[i];
    match KindOf(lines[i]).value
    case Mce =>
    case AerCE => AerTypeStays(lines, i, more);
    case AerUE => AerTypeStays(lines, i, more);
    case _ => if i + LOCATION_LINES < |lines| || LocationFollows(lines, i) { FollowUpStays(lines, i, more); }
  }

  const FOLLOW_TEXT := "csrow:0 channel:0 (page:0x1)"

  /** A line of the text "[ 6] csrow:0 channel:0 (page:0x1)": a location, a detail block and an AER error type. */
  const FOLLOW_UP: Line :=
    Line("[ 6] " + FOLLOW_TEXT, false, false, false, false, false, false, None, None, false,
         Some(Location(0, 0)), Some(Details(Some(1), None, None, None)),
         Some(Location(0, 0)), Some(Details(Some(1), None, None, None)), Some(FOLLOW_TEXT))

  /** The event of a line that is not settled can be changed by the very next line. */
  lemma UnsettledCanChange(lines: seq<Line>, i: nat, number: nat)
    requires i < |lines| && KindOf(lines[i]).Some? && !Settled(lines, i)
    ensures EventOf(lines + [FOLLOW_UP], i, number) != EventOf(lines, i, number)
  {
    hide KindOf;
    var longer := lines + [FOLLOW_UP];
    var n := |lines|;
    assert longer[i] == lines[i] && longer[n] == FOLLOW_UP;
    var kind := KindOf(lines[i]).value;
    if kind == CE || kind == UE {
      LongerFollowUp(lines, i + 1, n, [FOLLOW_UP], n + 1);
      assert FollowUp(longer, n, n + 1) == Some(FOLLOW_UP);
    } else {
      LongerAerType(lines, i + 1, n, [FOLLOW_UP], n + 1);
      assert AerType(longer, n, n + 1) == FOLLOW_UP.aerType;
    }
  }

  /** Which events lines that come later can still change, exactly. */
  lemma SettledExactly(lines: seq<Line>, i: nat, number: nat)
    requires i < |lines| && KindOf(lines[i]).Some?
    ensures Settled(lines, i) <==> forall more :: EventOf(lines + more, i, number) == EventOf(lines, i, number)
  {
    hide Settled, EventOf, KindOf;
    if Settled(lines, i) {
      forall more ensures EventOf(lines + more, i, number) == EventOf(lines, i, number) {
        SettledStays(lines, i, more, number);
      }
    } else {
      UnsettledCanChange(lines, i, number);
    }
  }

  /**
   * Appending lines keeps the events, their order and their numbers; only what the look-ahead of the last five
   * lines tells may differ, and of them only for those that are not settled.
   */
  lemma AppendKeepsEvents(lines: seq<Line>, more: seq<Line>, first: nat, i: nat)
    requires i < |lines| && KindOf(lines[i]).Some?
    ensures var p, before, after := Position(lines, i), Events(lines, first), Events(lines + more, first);
            && p < |before| <= |after|
            && after[p].number == before[p].number && after[p].kind == before[p].kind && after[p].line == before[p].line
            && (i + AER_LINES < |lines| || Settled(lines, i) ==> after[p] == before[p])
  {
    var longer := lines + more;
    hide KindOf, LocationFollows, AerTypeFollows;
    SamePosition(lines, more, i);
    SamePosition(lines, more, |lines|);
    EventsMeaning(lines, |lines|, first);
    EventsMeaning(longer, |longer|, first);
    PositionIsMonotone(longer, |lines|, |longer|);
    assert longer[i] == lines[i];
    if i + AER_LINES < |lines| || Settled(lines, i) { SettledStays(lines, i, more, first + Position(lines, i)); }
    KindOfEvent(lines, i, first + Position(lines, i));
    KindOfEvent(longer, i, first + Position(lines, i));
  }

  lemma {:induction false} SamePosition(lines: seq<Line>, more: seq<Line>, k: nat)
    requires k <= |lines|
    ensures Position(lines + more, k) == Position(lines, k)
  {
    if k > 0 { SamePosition(lines, more, k - 1); }
  }

  lemma {:induction false} PositionIsMonotone(lines: seq<Line>, i: nat, j: nat)
    requires i <= j <= |lines|
    ensures Position(lines, i) <= Position(lines, j)
    decreases j
  {
    if i < j { PositionIsMonotone(lines, i, j - 1); }
  }

  // ----- kinds and fields, one by one -----

  /** Which pattern decides a line: EDAC before AER before machine checks, corrected before uncorrected. */
  lemma KindMeaning(line: Line)
    ensures var kind := KindOf(line);
            var corrected, uncorrected := line.hasEdac && line.ce && !line.ueBeforeCe, line.hasEdac && line.ue;
            var aer := line.hasAer && (line.corrected.Some? || line.uncorrected.Some?);
            && (kind == Some(CE) <==> !line.blank && corrected)
            && (kind == Some(UE) <==> !line.blank && !corrected && uncorrected)
            && (kind == Some(AerCE) <==>
                  !line.blank && !corrected && !uncorrected && line.hasAer && line.corrected.Some?)
            && (kind == Some(AerUE) <==>
                  !line.blank && !corrected && !uncorrected && aer && line.corrected.None?)
            && (kind == Some(Mce) <==> !line.blank && !corrected && !uncorrected && !aer && line.mce)
            && (kind == None <==> line.blank || (!corrected && !uncorrected && !aer && !line.mce))
  {
  }

  /** k is the first line behind i, up to `ahead` lines further, that holds a location. */
  ghost predicate FirstLocation(lines: seq<Line>, i: nat, ahead: nat, k: nat) {
    && i < k <= i + ahead && k < |lines| && lines[k].location.Some?
    && forall l :: i < l < k ==> lines[l].location.None?
  }

  ghost predicate FirstAerType(lines: seq<Line>, i: nat, ahead: nat, k: nat) {
    && i < k <= i + ahead && k < |lines| && lines[k].aerType.Some?
    && forall l :: i < l < k ==> lines[l].aerType.None?
  }

  lemma {:induction false} FollowUpFrom(lines: seq<Line>, j: nat, end: nat, k: nat)
    requires j <= k < end <= |lines| && lines[k].location.Some?
    requires forall l :: j <= l < k ==> lines[l].location.None?
    ensures FollowUp(lines, j, end) == Some(lines[k])
    decreases k - j
  {
    if j < k { FollowUpFrom(lines, j + 1, end, k); }
  }

  lemma {:induction false} NoFollowUp(lines: seq<Line>, j: nat, end: nat)
    requires end <= |lines| && forall l :: j <= l < end ==> lines[l].location.None?
    ensures FollowUp(lines, j, end) == None
    decreases end - j
  {
    if j < end { NoFollowUp(lines, j + 1, end); }
  }

  lemma {:induction false} AerTypeFrom(lines: seq<Line>, j: nat, end: nat, k: nat)
    requires j <= k < end <= |lines| && lines[k].aerType.Some?
    requires forall l :: j <= l < k ==> lines[l].aerType.None?
    ensures AerType(lines, j, end) == lines[k].aerType
    decreases k - j
  {
    if j < k { AerTypeFrom(lines, j + 1, end, k); }
  }

  lemma {:induction false} NoAerType(lines: seq<Line>, j: nat, end: nat)
    requires end <= |lines| && forall l :: j <= l < end ==> lines[l].aerType.None?
    ensures AerType(lines, j, end) == None
    decreases end - j
  {
    if j < end { NoAerType(lines, j + 1, end); }
  }

  /**
   * An EDAC event says what its line says, and where that says nothing, what the first of the next three lines with
   * a location says.
   */
  lemma EdacEventMeaning(lines: seq<Line>, i: nat, number: nat)
    requires i < |lines| && (KindOf(lines[i]) == Some(CE) || KindOf(lines[i]) == Some(UE))
    ensures var e, line := EventOf(lines, i, number), lines[i];
            && e.kind == KindOf(line).value && e.number == number && e.line == line && e.aerType == None
            && (line.inlineLocation.Some? ==> e.location == line.inlineLocation)
            && (line.inlineDetails.Some? ==> e.details == line.inlineDetails.value)
            && (forall k: nat :: FirstLocation(lines, i, 3, k) ==>
                  && (line.inlineLocation.None? ==> e.location == lines[k].location)
                  && (line.inlineDetails.None? && lines[k].details.Some? ==> e.details == lines[k].details.value)
                  && (line.inlineDetails.None? && lines[k].details.None? ==> e.details == NO_DETAILS))
            && ((forall k: nat :: !FirstLocation(lines, i, 3, k)) ==>
                  && (line.inlineLocation.None? ==> e.location == None)
                  && (line.inlineDetails.None? ==> e.details == NO_DETAILS))
  {
    hide KindOf;
    var end := WindowEnd(lines, i, LOCATION_LINES);
    forall k: nat | FirstLocation(lines, i, 3, k) ensures FollowUp(lines, i + 1, end) == Some(lines[k]) {
      FollowUpFrom(lines, i + 1, end, k);
    }
    if FollowUp(lines, i + 1, end).Some? {
      var k := PlaceOfFollowUp(lines, i + 1, end);
      assert FirstLocation(lines, i, 3, k);
    }
  }

  lemma {:induction false} PlaceOfFollowUp(lines: seq<Line>, j: nat, end: nat) returns (k: nat)
    requires end <= |lines| && FollowUp(lines, j, end).Some?
    ensures j <= k < end && lines[k].location.Some? && forall l :: j <= l < k ==> lines[l].location.None?
    decreases end - j
  {
    if lines[j].location.Some? { k := j; } else { k := PlaceOfFollowUp(lines, j + 1, end); }
  }

  lemma {:induction false} PlaceOfAerType(lines: seq<Line>, j: nat, end: nat) returns (k: nat)
    requires end <= |lines| && AerType(lines, j, end).Some?
    ensures j <= k < end && lines[k].aerType.Some? && forall l :: j <= l < k ==> lines[l].aerType.None?
    decreases end - j
  {
    if lines[j].aerType.Some? { k := j; } else { k := PlaceOfAerType(lines, j + 1, end); }
  }

  /** An AER event carries the type that the first of the next five lines with one names. */
  lemma AerEventMeaning(lines: seq<Line>, i: nat, number: nat)
    requires i < |lines| && (KindOf(lines[i]) == Some(AerCE) || KindOf(lines[i]) == Some(AerUE))
    ensures var e := EventOf(lines, i, number);
            && e.kind == KindOf(lines[i]).value && e.number == number && e.line == lines[i]
            && e.location == None && e.details == NO_DETAILS
            && (forall k: nat :: FirstAerType(lines, i, 5, k) ==> e.aerType == lines[k].aerType)
            && ((forall k: nat :: !FirstAerType(lines, i, 5, k)) ==> e.aerType == None)
  {
    hide KindOf;
    var end := WindowEnd(lines, i, AER_LINES);
    forall k: nat | FirstAerType(lines, i, 5, k) ensures AerType(lines, i + 1, end) == lines[k].aerType {
      AerTypeFrom(lines, i + 1, end, k);
    }
    if AerType(lines, i + 1, end).Some? {
      var k := PlaceOfAerType(lines, i + 1, end);
      assert FirstAerType(lines, i, 5, k);
    }
  }

  /** The pending device is that of the last corrected AER error, if there was one. */
  lemma {:induction false} PendingMeaning(lines: seq<Line>, k: nat, before: Option<string>)
    requires k <= |lines|
    ensures (forall i :: 0 <= i < k ==> KindOf(lines[i]) != Some(AerCE)) ==> PendingDevice(lines, k, before) == before
    ensures forall i :: 0 <= i < k && KindOf(lines[i]) == Some(AerCE)
                        && (forall j :: i < j < k ==> KindOf(lines[j]) != Some(AerCE))
                        ==> PendingDevice(lines, k, before) == lines[i].corrected
  {
    hide KindOf;
    if k > 0 && KindOf(lines[k - 1]) != Some(AerCE) { PendingMeaning(lines, k - 1, before); }
  }
}
