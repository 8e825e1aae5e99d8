/** Failure clusters by vendor and by date code (aging/dimm_cluster_analysis.py), over exact reals. */
module Clusters {
  import opened RealAlgebra

  datatype Dimm = Dimm(serial: string, vendor: string, partNumber: string, dateCode: string, node: string, slot: string,
                       ceCount: int, ueCount: int, failureProbability: real)

  datatype Kind = Vendor | DateCode

  datatype Severity = Critical | High | Medium

  datatype Alert = Alert(key: string, kind: Kind, affected: nat, fleetAverage: real, rate: real, severity: Severity)

  const THRESHOLD := 3.0

  function SeverityOf(ratio: real): Severity {
    if ratio >= 10.0 then Critical else if ratio >= 5.0 then High else Medium
  }

  function KeyOf(d: Dimm, kind: Kind): string {
    match kind
    case Vendor => d.vendor + "|" + d.partNumber
    case DateCode => d.dateCode
  }

  function Total(dimms: seq<Dimm>): real {
    if dimms == [] then 0.0 else Total(dimms[..|dimms| - 1]) + dimms[|dimms| - 1].failureProbability
  }

  function FleetAverage(dimms: seq<Dimm>): real {
    if dimms == [] then 0.0 else Total(dimms) / |dimms| as real
  }

  // ----- the alerts as a function of the fleet -----

  /** The group keys in order of first appearance. */
  function Keys(dimms: seq<Dimm>, kind: Kind): seq<string> {
    if dimms == [] then []
    else
      var n := |dimms| - 1;
      var before, key := Keys(dimms[..n], kind), KeyOf(dimms[n], kind);
      if key in before then before else before + [key]
  }

  function Members(dimms: seq<Dimm>, kind: Kind, key: string): seq<Dimm> {
    if dimms == [] then []
    else
      var n := |dimms| - 1;
      Members(dimms[..n], kind, key) + (if KeyOf(dimms[n], kind) == key then [dimms[n]] else [])
  }

  function AlertsFor(dimms: seq<Dimm>, kind: Kind, keys: seq<string>, average: real): seq<Alert> {
    if keys == [] then []
    else
      var n := |keys| - 1;
      AlertsFor(dimms, kind, keys[..n], average) + AlertFor(keys[n], kind, Members(dimms, kind, keys[n]), average)
  }

  function AlertFor(key: string, kind: Kind, members: seq<Dimm>, average: real): seq<Alert> {
    if members == [] || average == 0.0 then []
    else
      var rate := Total(members) / |members| as real;
      var ratio := rate / average;
      if ratio >= THRESHOLD then [Alert(key, kind, |members|, average, rate, SeverityOf(ratio))] else []
  }

  function Alerts(dimms: seq<Dimm>, kind: Kind): seq<Alert> {
    AlertsFor(dimms, kind, Keys(dimms, kind), FleetAverage(dimms))
  }

  // ----- the analysis as the code runs it -----

  /** A dictionary that starts a new list at the first use of a key: the keys in order of insertion, and the lists. */
  datatype Groups = Groups(order: seq<string>, lists: map<string, seq<Dimm>>) {
    function Append(key: string, d: Dimm): Groups {
      if key in lists then this.(lists := lists[key := lists[key] + [d]])
      else Groups(order + [key], lists[key := [d]])
    }
  }

  ghost predicate GroupsOf(g: Groups, dimms: seq<Dimm>, kind: Kind) {
    && g.order == Keys(dimms, kind)
    && (forall key :: key in g.lists <==> Members(dimms, kind, key) != [])
    && (forall key :: key in g.lists ==> g.lists[key] == Members(dimms, kind, key))
  }

  lemma MembersSnoc(dimms: seq<Dimm>, kind: Kind, d: Dimm, key: string)
    ensures Members(dimms + [d], kind, key) == Members(dimms, kind, key) + (if key == KeyOf(d, kind) then [d] else [])
  {
    assert (dimms + [d])[..|dimms|] == dimms;
  }

  lemma KeysSnoc(dimms: seq<Dimm>, kind: Kind, d: Dimm)
    ensures Keys(dimms + [d], kind)
         == if KeyOf(d, kind) in Keys(dimms, kind) then Keys(dimms, kind) else Keys(dimms, kind) + [KeyOf(d, kind)]
  {
    assert (dimms + [d])[..|dimms|] == dimms;
  }

  lemma AppendKeepsGroups(g: Groups, dimms: seq<Dimm>, kind: Kind, d: Dimm)
    requires GroupsOf(g, dimms, kind)
    ensures GroupsOf(g.Append(KeyOf(d, kind), d), dimms + [d], kind)
  {
    KeysMeaning(dimms, kind);
    KeysSnoc(dimms, kind, d);
    hide KeyOf, Members, Keys;
    var key, after := KeyOf(d, kind), g.Append(KeyOf(d, kind), d);
    assert key in g.lists <==> key in Keys(dimms, kind);
    forall k ensures k in after.lists <==> Members(dimms + [d], kind, k) != [] {
      MembersSnoc(dimms, kind, d, k);
    }
    forall k | k in after.lists ensures after.lists[k] == Members(dimms + [d], kind, k) {
      MembersSnoc(dimms, kind, d, k);
    }
  }

  method CheckGroup(groups: Groups, average: real, kind: Kind, ghost dimms: seq<Dimm>) returns (alerts: seq<Alert>)
    requires GroupsOf(groups, dimms, kind)
    ensures alerts == AlertsFor(dimms, kind, Keys(dimms, kind), average)
  {
    KeysMeaning(dimms, kind);
    hide Members, Keys, Total, SeverityOf;
    alerts := [];
    if average == 0.0 {
      NoAverageNoAlert(dimms, kind, Keys(dimms, kind));
      return;
    }
    for k := 0 to |groups.order|
      invariant alerts == AlertsFor(dimms, kind, groups.order[..k], average)
    {
      assert groups.order[..k + 1][..k] == groups.order[..k];
      var key := groups.order[k];
      assert key in groups.order;
      var members := groups.lists[key];
      var rate := Total(members) / |members| as real;
      var ratio := rate / average;
      if ratio >= THRESHOLD {
        alerts := alerts + [Alert(key, kind, |members|, average, rate, SeverityOf(ratio))];
      }
    }
    assert groups.order[..|groups.order|] == groups.order;
  }

  method AnalyzeClusters(dimms: seq<Dimm>) returns (alerts: seq<Alert>)
    ensures alerts == Alerts(dimms, Vendor) + Alerts(dimms, DateCode)
  {
    hide KeyOf, GroupsOf;
    if dimms == [] { return []; }
    var average := FleetAverage(dimms);
    var byVendor, byDate := Groups([], map[]), Groups([], map[]);
    NoGroups();
    for i := 0 to |dimms|
      invariant GroupsOf(byVendor, dimms[..i], Vendor)
      invariant GroupsOf(byDate, dimms[..i], DateCode)
    {
      var d := dimms[i];
      assert dimms[..i + 1] == dimms[..i] + [d];
      AppendKeepsGroups(byVendor, dimms[..i], Vendor, d);
      AppendKeepsGroups(byDate, dimms[..i], DateCode, d);
      byVendor := byVendor.Append(KeyOf(d, Vendor), d);
      byDate := byDate.Append(KeyOf(d, DateCode), d);
    }
    assert dimms[..|dimms|] == dimms;
    alerts := CheckGroup(byVendor, average, Vendor, dimms);
    var more := CheckGroup(byDate, average, DateCode, dimms);
    alerts := alerts + more;
  }

  lemma NoGroups()
    ensures forall kind :: GroupsOf(Groups([], map[]), [], kind)
  {
  }

  lemma {:induction false} NoAverageNoAlert(dimms: seq<Dimm>, kind: Kind, keys: seq<string>)
    ensures AlertsFor(dimms, kind, keys, 0.0) == []
  {
    if keys != [] { NoAverageNoAlert(dimms, kind, keys[..|keys| - 1]); }
  }

  ghost predicate HasAlert(alerts: seq<Alert>, key: string) {
    exists alert :: alert in alerts && alert.key == key
  }

  lemma HasAlertConcat(a: seq<Alert>, b: seq<Alert>, key: string)
    ensures HasAlert(a + b, key) <==> HasAlert(a, key) || HasAlert(b, key)
  {
    if HasAlert(a, key) {
      var alert :| alert in a && alert.key == key;
      assert alert in a + b;
    }
    if HasAlert(b, key) {
      var alert :| alert in b && alert.key == key;
      assert alert in a + b;
    }
  }

  lemma AlertNamesItsKey(key: string, kind: Kind, members: seq<Dimm>, average: real, k: string)
    ensures HasAlert(AlertFor(key, kind, members, average), k)
            <==> k == key && AlertFor(key, kind, members, average) != []
  {
    hide Total, SeverityOf;
    var alerts := AlertFor(key, kind, members, average);
    if alerts != [] { assert alerts[0] in alerts; }
  }

  lemma {:induction false} AlertsByKey(dimms: seq<Dimm>, kind: Kind, keys: seq<string>, average: real, key: string)
    ensures HasAlert(AlertsFor(dimms, kind, keys, average), key)
            <==> key in keys && AlertFor(key, kind, Members(dimms, kind, key), average) != []
  {
    hide AlertFor, Members;
    if keys == [] {
      assert !HasAlert([], key);
    } else {
      var n := |keys| - 1;
      assert keys == keys[..n] + [keys[n]];
      AlertsByKey(dimms, kind, keys[..n], average, key);
      AlertNamesItsKey(keys[n], kind, Members(dimms, kind, keys[n]), average, key);
      hide HasAlert;
      HasAlertConcat(AlertsFor(dimms, kind, keys[..n], average),
                     AlertFor(keys[n], kind, Members(dimms, kind, keys[n]), average), key);
    }
  }

  /** Comparing the ratio of two averages with t, without the divisions. */
  lemma CrossMultiply(part: real, m: real, total: real, n: real, t: real)
    requires m > 0.0 && total > 0.0 && n > 0.0
    ensures total / n > 0.0
    ensures part / m / (total / n) >= t <==> Mul(part, n) >= Mul(t, Mul(total, m))
  {
    hide Mul;
    var rate, average := part / m, total / n;
    assert average > 0.0;
    var ratio := rate / average;
    var mn := Mul(m, n);
    assert mn > 0.0 by { MulSign(m, n); }
    var w := Mul(total, m);
    assert w > 0.0 by { MulSign(total, m); }
    assert Mul(ratio, w) == Mul(part, n) by {
      Quotient(part, m, 0.0);
      Quotient(total, n, 0.0);
      Quotient(rate, average, 0.0);
      Reassociate(ratio, total, m);
      Reassociate(average, n, ratio);
      Reassociate(rate, n, m);
      Distribute(ratio, total, 0.0);
      Distribute(average, ratio, 0.0);
      Distribute(n, ratio, 0.0);
      Distribute(n, average, 0.0);
      Reassociate(ratio, average, n);
      Distribute(n, m, 0.0);
      Reassociate(rate, m, n);
    }
    Distribute(w, ratio, 0.0);
    Distribute(w, t, 0.0);
    MulMonotone(w, t, ratio);
    MulMonotone(w, ratio, t);
  }

  /** An alert for a group appears exactly when its rate is three times that of the fleet, here without divisions. */
  lemma AlertedExactly(dimms: seq<Dimm>, kind: Kind, key: string)
    requires Total(dimms) > 0.0
    ensures var members := Members(dimms, kind, key);
            HasAlert(Alerts(dimms, kind), key)
            <==> members != [] && Mul(Total(members), |dimms| as real) >= Mul(3.0, Mul(Total(dimms), |members| as real))
  {
    var members, average := Members(dimms, kind, key), FleetAverage(dimms);
    assert dimms != [];
    KeysMeaning(dimms, kind);
    AlertsByKey(dimms, kind, Keys(dimms, kind), average, key);
    hide Mul, Total, Keys, Members, AlertsFor, HasAlert, SeverityOf;
    if members != [] {
      CrossMultiply(Total(members), |members| as real, Total(dimms), |dimms| as real, 3.0);
    }
  }

  // ----- how much of the fleet can be alerted -----

  ghost predicate Nonnegative(dimms: seq<Dimm>) { forall i :: 0 <= i < |dimms| ==> dimms[i].failureProbability >= 0.0 }

  /** The DIMMs that belong to one of the groups. */
  function Covered(dimms: seq<Dimm>, kind: Kind, keys: seq<string>): seq<Dimm> {
    if dimms == [] then []
    else
      var n := |dimms| - 1;
      Covered(dimms[..n], kind, keys) + (if KeyOf(dimms[n], kind) in keys then [dimms[n]] else [])
  }

  /** The number of DIMMs that the alerts of these severities count. */
  function Affected(alerts: seq<Alert>, severities: set<Severity>): nat {
    if alerts == [] then 0
    else
      var n := |alerts| - 1;
      Affected(alerts[..n], severities) + (if alerts[n].severity in severities then alerts[n].affected else 0)
  }

  lemma TotalSnoc(dimms: seq<Dimm>, d: Dimm)
    ensures Total(dimms + [d]) == Total(dimms) + d.failureProbability
  {
    assert (dimms + [d])[..|dimms|] == dimms;
  }

  lemma {:induction false} TotalIsNonnegative(dimms: seq<Dimm>)
    requires Nonnegative(dimms)
    ensures Total(dimms) >= 0.0
  {
    if dimms != [] { TotalIsNonnegative(dimms[..|dimms| - 1]); }
  }

  /** A further group adds its own members to the covered DIMMs, in number and in probability. */
  lemma {:induction false} CoverOneMore(dimms: seq<Dimm>, kind: Kind, keys: seq<string>, key: string)
    requires key !in keys
    ensures |Covered(dimms, kind, keys + [key])| == |Covered(dimms, kind, keys)| + |Members(dimms, kind, key)|
    ensures Total(Covered(dimms, kind, keys + [key]))
            == Total(Covered(dimms, kind, keys)) + Total(Members(dimms, kind, key))
  {
    hide KeyOf, Total;
    if dimms == [] {
      NothingTotal();
    } else {
      var n := |dimms| - 1;
      CoverOneMore(dimms[..n], kind, keys, key);
      TotalSnoc(Covered(dimms[..n], kind, keys + [key]), dimms[n]);
      TotalSnoc(Covered(dimms[..n], kind, keys), dimms[n]);
      TotalSnoc(Members(dimms[..n], kind, key), dimms[n]);
      NothingAppended(Covered(dimms[..n], kind, keys + [key]));
      NothingAppended(Covered(dimms[..n], kind, keys));
      NothingAppended(Members(dimms[..n], kind, key));
    }
  }

  lemma NothingTotal()
    ensures Total([]) == 0.0
  {
  }

  lemma NothingAppended(dimms: seq<Dimm>)
    ensures dimms + [] == dimms
  {
  }

  lemma {:induction false} CoveredIsPart(dimms: seq<Dimm>, kind: Kind, keys: seq<string>)
    requires Nonnegative(dimms)
    ensures Nonnegative(Covered(dimms, kind, keys)) && Total(Covered(dimms, kind, keys)) <= Total(dimms)
  {
    hide KeyOf, Total;
    if dimms == [] {
      NothingTotal();
    } else {
      var n := |dimms| - 1;
      CoveredIsPart(dimms[..n], kind, keys);
      TotalSnoc(Covered(dimms[..n], kind, keys), dimms[n]);
      TotalSnoc(dimms[..n], dimms[n]);
      assert dimms[..n] + [dimms[n]] == dimms;
      NothingAppended(Covered(dimms[..n], kind, keys));
    }
  }

  lemma {:induction false} MembersArePart(dimms: seq<Dimm>, kind: Kind, key: string)
    requires Nonnegative(dimms)
    ensures Nonnegative(Members(dimms, kind, key))
  {
    if dimms != [] { MembersArePart(dimms[..|dimms| - 1], kind, key); }
  }

  ghost predicate Different(keys: seq<string>) { forall a, b :: 0 <= a < b < |keys| ==> keys[a] != keys[b] }

  lemma {:induction false} KeysMeaning(dimms: seq<Dimm>, kind: Kind)
    ensures Different(Keys(dimms, kind))
    ensures forall key :: key in Keys(dimms, kind) <==> Members(dimms, kind, key) != []
  {
    if dimms != [] { KeysMeaning(dimms[..|dimms| - 1], kind); }
  }

  lemma RatioBound(total: real, count: real, average: real, t: real)
    requires count > 0.0 && average > 0.0 && total / count / average >= t
    ensures total >= Mul(Mul(t, average), count)
  {
    hide Mul;
    var rate := total / count;
    Quotient(total, count, 0.0);
    Quotient(rate, average, 0.0);
    MulMonotone(average, t, rate / average);
    Distribute(t, average, 0.0);
    Distribute(rate / average, average, 0.0);
    MulMonotone(count, Mul(t, average), rate);
    Distribute(count, Mul(t, average), 0.0);
    Distribute(count, rate, 0.0);
  }

  /** Groups of these severities exceed the fleet average at least t times. */
  ghost predicate Means(severities: set<Severity>, t: real) {
    forall ratio: real :: ratio >= THRESHOLD && SeverityOf(ratio) in severities ==> ratio >= t
  }

  lemma AffectedConcat(alerts: seq<Alert>, more: seq<Alert>, severities: set<Severity>)
    requires |more| <= 1
    ensures Affected(alerts + more, severities) == Affected(alerts, severities) + Affected(more, severities)
  {
    if more == [] { assert alerts + more == alerts; } else { assert (alerts + more)[..|alerts|] == alerts; }
  }

  /** One group contributes at least t times the fleet average for each DIMM that its alert counts. */
  lemma OneGroup(key: string, kind: Kind, members: seq<Dimm>, average: real, severities: set<Severity>, t: real)
    requires average > 0.0 && Nonnegative(members) && Means(severities, t)
    ensures |AlertFor(key, kind, members, average)| <= 1
    ensures Mul(Mul(t, average), Affected(AlertFor(key, kind, members, average), severities) as real) <= Total(members)
  {
    TotalIsNonnegative(members);
    var alerts := AlertFor(key, kind, members, average);
    hide Mul, Total;
    Distribute(Mul(t, average), 0.0, 0.0);
    if Affected(alerts, severities) != 0 {
      var ratio := Total(members) / |members| as real / average;
      assert alerts[0].severity == SeverityOf(ratio);
      assert Affected(alerts, severities) == |members|;
      RatioBound(Total(members), |members| as real, average, t);
    }
  }

  lemma AddWeight(w: real, a: real, b: real, x: real, y: real)
    requires Mul(w, a) <= x && Mul(w, b) <= y
    ensures Mul(w, a + b) <= x + y
  {
    Distribute(w, a, b);
  }

  lemma {:induction false} AffectedWeight(dimms: seq<Dimm>, kind: Kind, keys: seq<string>, average: real,
                                         severities: set<Severity>, t: real)
    requires average > 0.0 && Nonnegative(dimms) && Means(severities, t)
    requires Different(keys)
    ensures Mul(Mul(t, average), Affected(AlertsFor(dimms, kind, keys, average), severities) as real)
         <= Total(Covered(dimms, kind, keys))
  {
    hide Mul, Total, Means, Nonnegative, AlertsFor, Members, Covered, Affected;
    if keys == [] {
      NoGroupNoWeight(dimms, kind, average, severities, t);
    } else {
      var n := |keys| - 1;
      var front, members := keys[..n], Members(dimms, kind, keys[n]);
      AffectedWeight(dimms, kind, front, average, severities, t);
      MembersArePart(dimms, kind, keys[n]);
      OneGroup(keys[n], kind, members, average, severities, t);
      AffectedSplit(dimms, kind, keys, average, severities);
      hide AlertFor;
      AddWeight(Mul(t, average), Affected(AlertsFor(dimms, kind, front, average), severities) as real,
                Affected(AlertFor(keys[n], kind, members, average), severities) as real,
                Total(Covered(dimms, kind, front)), Total(members));
      CoverOneMore(dimms, kind, front, keys[n]);
      assert front + [keys[n]] == keys;
    }
  }

  lemma NoGroupNoWeight(dimms: seq<Dimm>, kind: Kind, average: real, severities: set<Severity>, t: real)
    requires Nonnegative(dimms)
    ensures Mul(Mul(t, average), Affected(AlertsFor(dimms, kind, [], average), severities) as real)
         <= Total(Covered(dimms, kind, []))
  {
    CoveredIsPart(dimms, kind, []);
    TotalIsNonnegative(Covered(dimms, kind, []));
    hide Mul;
    Distribute(Mul(t, average), 0.0, 0.0);
  }

  lemma AffectedSplit(dimms: seq<Dimm>, kind: Kind, keys: seq<string>, average: real, severities: set<Severity>)
    requires keys != []
    ensures var n := |keys| - 1;
            Affected(AlertsFor(dimms, kind, keys, average), severities)
            == Affected(AlertsFor(dimms, kind, keys[..n], average), severities)
               + Affected(AlertFor(keys[n], kind, Members(dimms, kind, keys[n]), average), severities)
  {
    var n := |keys| - 1;
    AffectedConcat(AlertsFor(dimms, kind, keys[..n], average),
                   AlertFor(keys[n], kind, Members(dimms, kind, keys[n]), average), severities);
  }

  lemma CancelAverage(t: real, average: real, count: real, total: real, n: real)
    requires average > 0.0 && n > 0.0 && average == total / n && Mul(Mul(t, average), count) <= total
    ensures Mul(t, count) <= n
  {
    hide Mul;
    Quotient(total, n, 0.0);
    Reassociate(average, t, count);
    Distribute(t, average, 0.0);
    if Mul(t, count) > n { MulMonotone(average, n, Mul(t, count)); }
  }

  lemma AffectedFraction(dimms: seq<Dimm>, kind: Kind, severities: set<Severity>, t: real)
    requires Nonnegative(dimms) && Means(severities, t)
    ensures Mul(t, Affected(Alerts(dimms, kind), severities) as real) <= |dimms| as real
  {
    var average := FleetAverage(dimms);
    TotalIsNonnegative(dimms);
    hide Mul, Total, Means, Nonnegative;
    Distribute(t, 0.0, 0.0);
    if average == 0.0 {
      NoAverageNoAlert(dimms, kind, Keys(dimms, kind));
    } else {
      UnsignedAverage(Total(dimms), |dimms| as real);
      var keys := Keys(dimms, kind);
      KeysMeaning(dimms, kind);
      AffectedWeight(dimms, kind, keys, average, severities, t);
      CoveredIsPart(dimms, kind, keys);
      CancelAverage(t, average, Affected(Alerts(dimms, kind), severities) as real, Total(dimms), |dimms| as real);
    }
  }

  lemma UnsignedAverage(total: real, n: real)
    requires total >= 0.0 && n > 0.0
    ensures total / n >= 0.0
  {
  }

  /**
   * Alerts are about a minority: in each grouping at most a third of the fleet is in an alerted group, at most a
   * fifth in one that is at least high, at most a tenth in a critical one.
   */
  lemma AlertsAreRare(dimms: seq<Dimm>, kind: Kind)
    requires Nonnegative(dimms)
    ensures 3 * Affected(Alerts(dimms, kind), {Critical, High, Medium}) <= |dimms|
    ensures 5 * Affected(Alerts(dimms, kind), {Critical, High}) <= |dimms|
    ensures 10 * Affected(Alerts(dimms, kind), {Critical}) <= |dimms|
  {
    AffectedFraction(dimms, kind, {Critical, High, Medium}, 3.0);
    AffectedFraction(dimms, kind, {Critical, High}, 5.0);
    AffectedFraction(dimms, kind, {Critical}, 10.0);
  }

  lemma {:induction false} AlertsCountSomebody(dimms: seq<Dimm>, kind: Kind, keys: seq<string>, average: real)
    ensures AlertsFor(dimms, kind, keys, average) != []
            ==> Affected(AlertsFor(dimms, kind, keys, average), {Critical, High, Medium}) >= 1
  {
    if keys != [] {
      var n := |keys| - 1;
      AlertsCountSomebody(dimms, kind, keys[..n], average);
      AffectedSplit(dimms, kind, keys, average, {Critical, High, Medium});
      AlertCounts(keys[n], kind, Members(dimms, kind, keys[n]), average);
    }
  }

  lemma AlertCounts(key: string, kind: Kind, members: seq<Dimm>, average: real)
    ensures Affected(AlertFor(key, kind, members, average), {Critical, High, Medium})
            == if AlertFor(key, kind, members, average) == [] then 0 else |members|
  {
    hide Total;
    var alerts := AlertFor(key, kind, members, average);
    if alerts != [] { assert alerts[..0] == []; }
  }

  /** The bound of one third is reached: three date codes, and all the risk in one of them. */
  lemma OneThirdIsReached(a: Dimm, b: Dimm, c: Dimm)
    requires a.dateCode != b.dateCode && a.dateCode != c.dateCode
    requires a.failureProbability > 0.0 && b.failureProbability == 0.0 && c.failureProbability == 0.0
    ensures 3 * Affected(Alerts([a, b, c], DateCode), {Critical, High, Medium}) == |[a, b, c]|
  {
    var dimms, key := [a, b, c], a.dateCode;
    assert [] + [a] == [a] && [a] + [b] == [a, b] && [a, b] + [c] == dimms;
    TotalSnoc([], a);
    TotalSnoc([a], b);
    TotalSnoc([a, b], c);
    MembersSnoc([], DateCode, a, key);
    MembersSnoc([a], DateCode, b, key);
    MembersSnoc([a, b], DateCode, c, key);
    assert Members(dimms, DateCode, key) == [a];
    AlertsAreRare(dimms, DateCode);
    AlertedExactly(dimms, DateCode, key);
    AlertsCountSomebody(dimms, DateCode, Keys(dimms, DateCode), FleetAverage(dimms));
  }

  // ----- what an alert says -----

  /** The DIMMs of a group, by their places in the list. */
  ghost function Group(dimms: seq<Dimm>, kind: Kind, key: string): set<nat> {
    set i: nat | i < |dimms| && KeyOf(dimms[i], kind) == key
  }

  lemma {:induction false} MembersCount(dimms: seq<Dimm>, kind: Kind, key: string)
    ensures |Members(dimms, kind, key)| == |Group(dimms, kind, key)|
  {
    hide KeyOf;
    if dimms == [] {
      assert Group(dimms, kind, key) == {};
    } else {
      var n := |dimms| - 1;
      MembersCount(dimms[..n], kind, key);
      var before, hit := Group(dimms[..n], kind, key), KeyOf(dimms[n], kind) == key;
      forall i: nat ensures i in Group(dimms, kind, key) <==> i in before || (i == n && hit) {
        if i < n { assert dimms[..n][i] == dimms[i]; }
      }
      assert Group(dimms, kind, key) == before + (if hit then {n} else {});
      assert n !in before;
    }
  }

  lemma {:induction false} AlertComesFrom(dimms: seq<Dimm>, kind: Kind, keys: seq<string>, average: real, alert: Alert)
    requires alert in AlertsFor(dimms, kind, keys, average)
    ensures alert in AlertFor(alert.key, kind, Members(dimms, kind, alert.key), average)
  {
    hide Members, Total, SeverityOf;
    if keys != [] {
      var n := |keys| - 1;
      if alert in AlertsFor(dimms, kind, keys[..n], average) {
        AlertComesFrom(dimms, kind, keys[..n], average, alert);
      } else {
        assert alert in AlertFor(keys[n], kind, Members(dimms, kind, keys[n]), average);
      }
    }
  }

  lemma RatioIs(rate: real, average: real, t: real)
    requires average > 0.0
    ensures rate / average >= t <==> rate >= Mul(t, average)
  {
    hide Mul;
    Quotient(rate, average, 0.0);
    MulMonotone(average, t, rate / average);
    MulMonotone(average, rate / average, t);
    Distribute(average, t, 0.0);
    Distribute(average, rate / average, 0.0);
  }

  lemma FieldsOf(key: string, kind: Kind, members: seq<Dimm>, average: real, alert: Alert)
    requires alert in AlertFor(key, kind, members, average) && average > 0.0
    ensures members != [] && alert.kind == kind && alert.affected == |members| && alert.fleetAverage == average
    ensures Mul(alert.rate, |members| as real) == Total(members)
    ensures alert.rate >= Mul(3.0, average)
    ensures alert.severity == Critical <==> alert.rate >= Mul(10.0, average)
    ensures alert.severity == Medium <==> alert.rate < Mul(5.0, average)
  {
    hide Mul, Total;
    var rate := Total(members) / |members| as real;
    Quotient(Total(members), |members| as real, 0.0);
    RatioIs(rate, average, 3.0);
    RatioIs(rate, average, 5.0);
    RatioIs(rate, average, 10.0);
  }

  lemma Multiples(average: real)
    ensures Mul(3.0, average) == 3.0 * average
    ensures Mul(5.0, average) == 5.0 * average
    ensures Mul(10.0, average) == 10.0 * average
  {
  }

  /**
   * The fields of an alert: the number of DIMMs in the group, the average over the fleet and over the group, and the
   * severity, which is critical from ten times the fleet's average on, high from five times and medium below.
   */
  lemma AlertMeaning(dimms: seq<Dimm>, kind: Kind, alert: Alert)
    requires alert in Alerts(dimms, kind) && Total(dimms) > 0.0
    ensures alert.kind == kind && alert.affected == |Group(dimms, kind, alert.key)| > 0
    ensures Mul(alert.fleetAverage, |dimms| as real) == Total(dimms) && alert.fleetAverage > 0.0
    ensures Mul(alert.rate, alert.affected as real) == Total(Members(dimms, kind, alert.key))
    ensures alert.rate >= 3.0 * alert.fleetAverage
    ensures alert.severity == Critical <==> alert.rate >= 10.0 * alert.fleetAverage
    ensures alert.severity == Medium <==> alert.rate < 5.0 * alert.fleetAverage
  {
    var average := FleetAverage(dimms);
    assert dimms != [];
    PositiveAverage(Total(dimms), |dimms| as real);
    Quotient(Total(dimms), |dimms| as real, 0.0);
    AlertComesFrom(dimms, kind, Keys(dimms, kind), average, alert);
    MembersCount(dimms, kind, alert.key);
    hide Mul, Members, Total, Alerts, Group, AlertFor, Keys;
    FieldsOf(alert.key, kind, Members(dimms, kind, alert.key), average, alert);
    Multiples(average);
  }

  lemma PositiveAverage(total: real, n: real)
    requires total > 0.0 && n > 0.0
    ensures total / n > 0.0
  {
  }

  lemma {:induction false} TotalBetween(dimms: seq<Dimm>, lo: real, hi: real)
    requires forall i :: 0 <= i < |dimms| ==> lo <= dimms[i].failureProbability <= hi
    ensures Mul(lo, |dimms| as real) <= Total(dimms) <= Mul(hi, |dimms| as real)
  {
    hide Mul;
    Distribute(lo, 0.0, 0.0);
    Distribute(hi, 0.0, 0.0);
    if dimms != [] {
      var n := |dimms| - 1;
      TotalBetween(dimms[..n], lo, hi);
      Distribute(lo, n as real, 1.0);
      Distribute(hi, n as real, 1.0);
      Distribute(1.0, lo, 0.0);
      Distribute(1.0, hi, 0.0);
      Distribute(lo, 1.0, 0.0);
      Distribute(hi, 1.0, 0.0);
      assert |dimms| as real == n as real + 1.0;
    }
  }

  /** The fleet average is an average: it lies between the least and the largest probability. */
  lemma AverageIsBetween(dimms: seq<Dimm>, lo: real, hi: real)
    requires dimms != [] && forall i :: 0 <= i < |dimms| ==> lo <= dimms[i].failureProbability <= hi
    ensures lo <= FleetAverage(dimms) <= hi
  {
    TotalBetween(dimms, lo, hi);
    hide Mul, Total;
    var n := |dimms| as real;
    Quotient(Total(dimms), n, 0.0);
    Distribute(n, lo, 0.0);
    Distribute(n, hi, 0.0);
    Distribute(n, FleetAverage(dimms), 0.0);
    MulMonotone(n, FleetAverage(dimms), lo);
    MulMonotone(n, hi, FleetAverage(dimms));
  }

  /** Groups are told apart by vendor and part, as long as no vendor name holds a '|', and by date code. */
  lemma KeyMeaning(a: Dimm, b: Dimm)
    requires '|' !in a.vendor && '|' !in b.vendor
    ensures KeyOf(a, Vendor) == KeyOf(b, Vendor) <==> a.vendor == b.vendor && a.partNumber == b.partNumber
    ensures KeyOf(a, DateCode) == KeyOf(b, DateCode) <==> a.dateCode == b.dateCode
  {
    if KeyOf(a, Vendor) == KeyOf(b, Vendor) { SplitKey(a.vendor, a.partNumber, b.vendor, b.partNumber); }
  }

  lemma SplitKey(v: string, p: string, w: string, q: string)
    requires '|' !in v && '|' !in w && v + "|" + p == w + "|" + q
    ensures v == w && p == q
  {
    var s, t := v + "|" + p, w + "|" + q;
    assert forall i :: 0 <= i < |v| ==> s[i] == v[i] && v[i] in v;
    assert forall i :: 0 <= i < |w| ==> t[i] == w[i] && w[i] in w;
    assert s[|v|] == '|' && t[|w|] == '|';
    assert |v| == |w|;
    assert v == s[..|v|] && w == t[..|w|] && p == s[|v| + 1..] && q == t[|w| + 1..];
  }
}
