/** The labels of record severities and the counts kept under them (exporter/collectors/apei.go). */
module SeverityLabels {

  function Digits(n: nat): (s: string)
    ensures |s| >= 1 && (|s| == 1 <==> n < 10)
  {
    var last := ["0123456789"[n % 10]];
    if n < 10 then last else Digits(n / 10) + last
  }

  lemma {:induction false} DigitsAreInjective(m: nat, n: nat)
    requires Digits(m) == Digits(n)
    ensures m == n
    decreases m
  {
    var s := Digits(m);
    assert s[|s| - 1] == "0123456789"[m % 10] && s[|s| - 1] == "0123456789"[n % 10];
    assert m % 10 == n % 10;
    if m >= 10 && n >= 10 {
      assert Digits(m / 10) == s[..|s| - 1] && Digits(n / 10) == s[..|s| - 1];
      DigitsAreInjective(m / 10, n / 10);
    }
  }

  function SeverityName(s: nat): string {
    if s == 0 then "recoverable"
    else if s == 1 then "fatal"
    else if s == 2 then "corrected"
    else if s == 3 then "informational"
    else "unknown_" + Digits(s)
  }

  /** Different severities never share a label, so no count mixes two of them. */
  lemma SeverityNameIsInjective(s: nat, t: nat)
    ensures SeverityName(s) == SeverityName(t) ==> s == t
  {
    if s > 3 && t > 3 {
      assert SeverityName(s)[8..] == Digits(s) && SeverityName(t)[8..] == Digits(t);
      if SeverityName(s) == SeverityName(t) { DigitsAreInjective(s, t); }
    } else if s > 3 {
      assert SeverityName(s)[0] == 'u';
    } else if t > 3 {
      assert SeverityName(t)[0] == 'u';
    }
  }

  function CountOf(xs: seq<nat>, x: nat): nat {
    if xs == [] then 0 else (if xs[0] == x then 1 else 0) + CountOf(xs[1..], x)
  }

  lemma {:induction false} CountSnoc(xs: seq<nat>, y: nat, x: nat)
    ensures CountOf(xs + [y], x) == CountOf(xs, x) + if y == x then 1 else 0
  {
    if xs == [] {
      assert xs + [y] == [y];
    } else {
      assert (xs + [y])[1..] == xs[1..] + [y];
      CountSnoc(xs[1..], y, x);
    }
  }

  /** A label's count is the number of visited records of that severity, and labels without records are absent. */
  ghost predicate Tallies(counts: map<string, nat>, severities: seq<nat>) {
    && (forall s :: s in severities <==> SeverityName(s) in counts)
    && (forall s :: SeverityName(s) in counts ==> counts[SeverityName(s)] == CountOf(severities, s))
    && (forall name :: name in counts ==> exists s :: name == SeverityName(s))
  }

  function Bump(counts: map<string, nat>, name: string): map<string, nat> {
    counts[name := (if name in counts then counts[name] else 0) + 1]
  }

  lemma {:induction false} CountZero(xs: seq<nat>, x: nat)
    ensures CountOf(xs, x) == 0 <==> x !in xs
  {
    if xs != [] { CountZero(xs[1..], x); }
  }

  lemma BumpTallies(counts: map<string, nat>, severities: seq<nat>, s: nat)
    requires Tallies(counts, severities)
    ensures Tallies(Bump(counts, SeverityName(s)), severities + [s])
  {
    hide SeverityName;
    var counts' := Bump(counts, SeverityName(s));
    forall t
      ensures t in severities + [s] <==> SeverityName(t) in counts'
      ensures SeverityName(t) in counts' ==> counts'[SeverityName(t)] == CountOf(severities + [s], t)
    {
      SeverityNameIsInjective(s, t);
      CountSnoc(severities, s, t);
      CountZero(severities, t);
    }
  }

  lemma EmptyTally()
    ensures Tallies(map[], [])
  {}

  // ----- what the counts hold, label by label -----

  predicate IsDecimal(s: string) { s != "" && forall i :: 0 <= i < |s| ==> '0' <= s[i] <= '9' }

  /** The number that decimal digits stand for. */
  function Value(s: string): nat
    requires forall i :: 0 <= i < |s| ==> '0' <= s[i] <= '9'
  {
    if s == "" then 0 else 10 * Value(s[..|s| - 1]) + (s[|s| - 1] as int - '0' as int)
  }

  lemma DigitChar(d: nat)
    requires d < 10
    ensures '0' <= "0123456789"[d] <= '9' && "0123456789"[d] as int - '0' as int == d
  {
    var digits := "0123456789";
    assert digits[0] == '0' && digits[1] == '1' && digits[2] == '2' && digits[3] == '3' && digits[4] == '4';
    assert digits[5] == '5' && digits[6] == '6' && digits[7] == '7' && digits[8] == '8' && digits[9] == '9';
  }

  lemma {:induction false} DigitsMeaning(n: nat)
    ensures IsDecimal(Digits(n)) && Value(Digits(n)) == n && (n > 0 ==> Digits(n)[0] != '0')
  {
    DigitChar(n % 10);
    var s := Digits(n);
    if n < 10 {
      assert s[..0] == "";
      if n > 0 { assert s[0] as int - '0' as int == n; }
    } else {
      DigitsMeaning(n / 10);
      assert s[..|s| - 1] == Digits(n / 10);
    }
  }

  /** The places of a severity in the list of visited records. */
  ghost function Places(severities: seq<nat>, s: nat): set<nat> {
    set i: nat | i < |severities| && severities[i] == s
  }

  lemma {:induction false} CountMeaning(severities: seq<nat>, s: nat)
    ensures CountOf(severities, s) == |Places(severities, s)|
  {
    if severities == [] {
      assert Places(severities, s) == {};
    } else {
      var n := |severities| - 1;
      var before, hit := severities[..n], severities[n] == s;
      assert severities == before + [severities[n]];
      CountMeaning(before, s);
      CountSnoc(before, severities[n], s);
      forall i: nat ensures i in Places(severities, s) <==> i in Places(before, s) || (i == n && hit) {
        if i < n { assert before[i] == severities[i]; }
      }
      assert Places(severities, s) == Places(before, s) + (if hit then {n} else {});
      assert n !in Places(before, s);
    }
  }

  /** A label counts n records: it is absent for none. */
  ghost predicate Holds(counts: map<string, nat>, name: string, n: nat) {
    if n == 0 then name !in counts else name in counts && counts[name] == n
  }

  ghost predicate IsUnknown(name: string, s: nat) {
    |name| > 8 && name[..8] == "unknown_" && IsDecimal(name[8..]) && name[8] != '0' && Value(name[8..]) == s
  }

  predicate Known(name: string) {
    name == "recoverable" || name == "fatal" || name == "corrected" || name == "informational"
  }

  /** The four known severities under their names, any other under its number, and nothing else. */
  ghost predicate Labelled(counts: map<string, nat>, severities: seq<nat>) {
    && Holds(counts, "recoverable", |Places(severities, 0)|)
    && Holds(counts, "fatal", |Places(severities, 1)|)
    && Holds(counts, "corrected", |Places(severities, 2)|)
    && Holds(counts, "informational", |Places(severities, 3)|)
    && (forall s :: s in severities && s >= 4 ==> exists name :: name in counts && IsUnknown(name, s))
    && (forall name :: name in counts && !Known(name)
                       ==> exists s :: s >= 4 && IsUnknown(name, s) && counts[name] == |Places(severities, s)|)
  }

  lemma LabelHolds(counts: map<string, nat>, severities: seq<nat>, s: nat)
    requires Tallies(counts, severities)
    ensures Holds(counts, SeverityName(s), |Places(severities, s)|)
  {
    hide SeverityName, Places;
    CountMeaning(severities, s);
    CountZero(severities, s);
  }

  lemma UnknownName(s: nat)
    requires s >= 4
    ensures IsUnknown(SeverityName(s), s)
  {
    DigitsMeaning(s);
    hide Digits, Value;
    assert SeverityName(s) == "unknown_" + Digits(s);
    assert SeverityName(s)[8..] == Digits(s);
  }

  lemma KnownNames()
    ensures SeverityName(0) == "recoverable" && SeverityName(1) == "fatal"
    ensures SeverityName(2) == "corrected" && SeverityName(3) == "informational"
    ensures forall s :: s < 4 ==> Known(SeverityName(s))
  {
  }

  lemma LabelsMeaning(counts: map<string, nat>, severities: seq<nat>)
    requires Tallies(counts, severities)
    ensures Labelled(counts, severities)
  {
    KnownNames();
    LabelHolds(counts, severities, 0);
    LabelHolds(counts, severities, 1);
    LabelHolds(counts, severities, 2);
    LabelHolds(counts, severities, 3);
    hide SeverityName, Places, IsUnknown, Known;
    forall s | s in severities && s >= 4 ensures exists name :: name in counts && IsUnknown(name, s) {
      UnknownName(s);
      assert SeverityName(s) in counts;
    }
    forall name | name in counts && !Known(name)
      ensures exists s :: s >= 4 && IsUnknown(name, s) && counts[name] == |Places(severities, s)| {
      var s :| name == SeverityName(s);
      assert s >= 4;
      UnknownName(s);
      CountMeaning(severities, s);
    }
  }
}
