/** Label fingerprints (exporter/collectors/cardinality_guard.go): "key=value," for every key in sorted order. */
module Fingerprint {

  type Labels = map<string, string>

  predicate AtMost(a: string, b: string) {
    a == "" || (b != "" && (a[0] < b[0] || (a[0] == b[0] && AtMost(a[1..], b[1..]))))
  }

  lemma {:induction false} AtMostIsTotalOrder(a: string, b: string, c: string)
    ensures AtMost(a, b) || AtMost(b, a)
    ensures AtMost(a, b) && AtMost(b, a) ==> a == b
    ensures AtMost(a, b) && AtMost(b, c) ==> AtMost(a, c)
  {
    if a != "" && b != "" && a[0] == b[0] {
      AtMostIsTotalOrder(a[1..], b[1..], if c == "" then "" else c[1..]);
      assert a == [a[0]] + a[1..] && b == [b[0]] + b[1..];
    }
  }

  /** Strictly increasing: sorted and without repetition. */
  ghost predicate Increasing(keys: seq<string>) {
    forall i, j :: 0 <= i < j < |keys| ==> AtMost(keys[i], keys[j]) && keys[i] != keys[j]
  }

  ghost predicate Enumerates(keys: seq<string>, domain: set<string>) {
    && (forall k :: k in keys <==> k in domain)
    && forall i, j :: 0 <= i < j < |keys| ==> keys[i] != keys[j]
  }

  /** Insert into a sorted list, the step of the sort. */
  function Insert(keys: seq<string>, k: string): seq<string> {
    if keys == [] then [k]
    else if AtMost(k, keys[0]) then [k] + keys
    else [keys[0]] + Insert(keys[1..], k)
  }

  lemma {:induction false} InsertKeepsOrder(keys: seq<string>, k: string)
    requires Increasing(keys) && k !in keys
    ensures Increasing(Insert(keys, k))
    ensures forall x :: x in Insert(keys, k) <==> x == k || x in keys
  {
    if keys != [] {
      if AtMost(k, keys[0]) {
        hide AtMost;
        forall j | 0 <= j < |keys| ensures AtMost(k, keys[j]) && k != keys[j] {
          AtMostIsTotalOrder(k, keys[0], keys[j]);
          assert keys[j] in keys;
        }
      } else {
        var rest := Insert(keys[1..], k);
        assert keys == [keys[0]] + keys[1..];
        InsertKeepsOrder(keys[1..], k);
        AtMostIsTotalOrder(k, keys[0], k);
        hide AtMost, Insert;
        forall j | 0 <= j < |rest| ensures AtMost(keys[0], rest[j]) && keys[0] != rest[j] {
          assert rest[j] in rest;
          if rest[j] != k { var i :| 0 <= i < |keys[1..]| && keys[1..][i] == rest[j]; }
        }
      }
    }
  }

  /** Two increasing lists of the same keys are the same list. */
  lemma {:induction false} IncreasingIsUnique(a: seq<string>, b: seq<string>)
    requires Increasing(a) && Increasing(b)
    requires forall k :: k in a <==> k in b
    ensures a == b
  {
    if a == [] {
      assert forall i :: 0 <= i < |b| ==> b[i] in b;
    } else {
      assert a[0] in a && a[0] in b;
      var j :| 0 <= j < |b| && b[j] == a[0];
      assert b[0] in b && b[0] in a;
      var i :| 0 <= i < |a| && a[i] == b[0];
      AtMostIsTotalOrder(a[0], b[0], a[0]);
      assert a[0] == b[0];
      assert a == [a[0]] + a[1..] && b == [b[0]] + b[1..];
      forall k ensures k in a[1..] <==> k in b[1..] {
        if k in a[1..] { var n :| 0 <= n < |a[1..]| && a[1..][n] == k; assert a[0] != a[n + 1]; assert k in a; }
        if k in b[1..] { var n :| 0 <= n < |b[1..]| && b[1..][n] == k; assert b[0] != b[n + 1]; assert k in b; }
      }
      IncreasingIsUnique(a[1..], b[1..]);
    }
  }

  function Item(key: string, value: string): string { key + "=" + value + "," }

  function Render(labels: Labels, keys: seq<string>): string
    requires forall k :: k in keys ==> k in labels
  {
    if keys == [] then "" else Item(keys[0], labels[keys[0]]) + Render(labels, keys[1..])
  }

  lemma {:induction false} RenderConcat(labels: Labels, a: seq<string>, b: seq<string>)
    requires forall k :: k in a + b ==> k in labels
    ensures Render(labels, a + b) == Render(labels, a) + Render(labels, b)
  {
    if a == [] {
      assert a + b == b;
    } else {
      assert (a + b)[1..] == a[1..] + b;
      RenderConcat(labels, a[1..], b);
    }
  }

  /** The text of a label map, fixed by the map alone. */
  ghost predicate IsFingerprint(labels: Labels, text: string) {
    exists keys :: Increasing(keys) && Enumerates(keys, labels.Keys) && text == Render(labels, keys)
  }

  /**
   * `order` is the order in which the map happens to be iterated. The result does not depend on it:
   * a map has one fingerprint.
   */
  method Fingerprint(labels: Labels, order: seq<string>) returns (text: string)
    requires Enumerates(order, labels.Keys)
    ensures IsFingerprint(labels, text)
    ensures forall other :: IsFingerprint(labels, other) ==> other == text
  {
    var keys: seq<string> := [];
    for i := 0 to |order|
      invariant Increasing(keys)
      invariant forall k :: k in keys <==> k in order[..i]
    {
      InsertKeepsOrder(keys, order[i]);
      keys := Insert(keys, order[i]);
      assert order[..i + 1] == order[..i] + [order[i]];
    }
    assert order[..|order|] == order;
    text := "";
    for i := 0 to |keys|
      invariant text == Render(labels, keys[..i])
    {
      assert keys[i] in keys;
      assert keys[..i + 1] == keys[..i] + [keys[i]];
      RenderConcat(labels, keys[..i], [keys[i]]);
      assert [keys[i]][1..] == [];
      text := text + (keys[i] + "=" + labels[keys[i]] + ",");
    }
    assert keys[..|keys|] == keys;
    FingerprintIsUnique(labels, keys);
  }

  lemma FingerprintIsUnique(labels: Labels, keys: seq<string>)
    requires Increasing(keys) && Enumerates(keys, labels.Keys)
    ensures forall text :: IsFingerprint(labels, text) <==> text == Render(labels, keys)
  {
    forall text | IsFingerprint(labels, text) ensures text == Render(labels, keys) {
      var other :| Increasing(other) && Enumerates(other, labels.Keys) && text == Render(labels, other);
      IncreasingIsUnique(keys, other);
    }
  }

  /** No key holds a '='; Prometheus label names never do. */
  ghost predicate PlainKeys(labels: Labels) { forall k :: k in labels ==> '=' !in k }

  /** No value holds a ','. */
  ghost predicate PlainValues(labels: Labels) { forall k :: k in labels ==> ',' !in labels[k] }

  /** A prefix up to the first `stop` is determined by the whole text. */
  lemma SplitAt(a: string, b: string, x: string, y: string, stop: char)
    requires stop !in a && stop !in b && a + [stop] + x == b + [stop] + y
    ensures a == b && x == y
  {
    var s, t := a + [stop] + x, b + [stop] + y;
    assert forall i :: 0 <= i < |a| ==> s[i] == a[i] && a[i] in a;
    assert forall i :: 0 <= i < |b| ==> t[i] == b[i] && b[i] in b;
    assert s[|a|] == stop && t[|b|] == stop;
    assert |a| == |b|;
    assert a == s[..|a|] && b == t[..|b|];
    assert x == s[|a| + 1..] && y == t[|b| + 1..];
  }

  lemma SplitItem(labels: Labels, keys: seq<string>)
    requires keys != [] && forall k :: k in keys ==> k in labels
    ensures Render(labels, keys) == keys[0] + ['='] + (labels[keys[0]] + [','] + Render(labels, keys[1..]))
    ensures Render(labels, keys) != ""
  {}

  lemma {:induction false} RenderIsInjective(a: Labels, b: Labels, ka: seq<string>, kb: seq<string>)
    requires PlainKeys(a) && PlainKeys(b) && PlainValues(a) && PlainValues(b)
    requires (forall k :: k in ka ==> k in a) && (forall k :: k in kb ==> k in b)
    requires Render(a, ka) == Render(b, kb)
    ensures ka == kb && forall k :: k in ka ==> a[k] == b[k]
  {
    if ka != [] && kb != [] {
      var va, vb := a[ka[0]], b[kb[0]];
      SplitItem(a, ka);
      SplitItem(b, kb);
      SplitAt(ka[0], kb[0], va + [','] + Render(a, ka[1..]), vb + [','] + Render(b, kb[1..]), '=');
      SplitAt(va, vb, Render(a, ka[1..]), Render(b, kb[1..]), ',');
      RenderIsInjective(a, b, ka[1..], kb[1..]);
      assert ka == [ka[0]] + ka[1..] && kb == [kb[0]] + kb[1..];
    } else if ka != [] {
      SplitItem(a, ka);
    } else if kb != [] {
      SplitItem(b, kb);
    }
  }

  /** Label maps whose keys have no '=' and whose values have no ',' never share a fingerprint. */
  lemma FingerprintIsInjective(a: Labels, b: Labels, text: string)
    requires PlainKeys(a) && PlainKeys(b) && PlainValues(a) && PlainValues(b)
    requires IsFingerprint(a, text) && IsFingerprint(b, text)
    ensures a == b
  {
    hide Increasing, Render, PlainKeys, PlainValues;
    var ka :| Increasing(ka) && Enumerates(ka, a.Keys) && text == Render(a, ka);
    var kb :| Increasing(kb) && Enumerates(kb, b.Keys) && text == Render(b, kb);
    RenderIsInjective(a, b, ka, kb);
    assert forall k :: k in a <==> k in b;
  }

  /** Another label map with plain keys that the guard cannot tell from this one. */
  ghost predicate HasTwin(labels: Labels, text: string) {
    exists other :: other != labels && PlainKeys(other) && IsFingerprint(other, text)
  }

  /** Folding the last label into the value before it gives a different map with the same text. */
  lemma MergedTwin(labels: Labels, keys: seq<string>)
    requires PlainKeys(labels) && Increasing(keys) && Enumerates(keys, labels.Keys) && |keys| >= 2
    ensures HasTwin(labels, Render(labels, keys))
  {
    var n := |keys|;
    var prefix, p, q := keys[..n - 2], keys[n - 2], keys[n - 1];
    var shorter := prefix + [p];
    assert keys == shorter + [q];
    LastTwoAreNew(keys);
    MergedKeys(labels, shorter, q);
    MergedIsPlain(labels, p, q);
    hide Increasing, Merged, Render, PlainKeys;
    MergedText(labels, prefix, p, q);
    var other := Merged(labels, p, q);
    assert IsFingerprint(other, Render(other, shorter));
    assert other != labels;
  }

  lemma LastTwoAreNew(keys: seq<string>)
    requires |keys| >= 2 && forall i, j :: 0 <= i < j < |keys| ==> keys[i] != keys[j]
    ensures forall k :: k in keys[..|keys| - 2] ==> k in keys && k != keys[|keys| - 2] && k != keys[|keys| - 1]
  {
  }

  lemma MergedIsPlain(labels: Labels, p: string, q: string)
    requires PlainKeys(labels) && p in labels && q in labels
    ensures PlainKeys(Merged(labels, p, q))
  {
  }

  function Merged(labels: Labels, p: string, q: string): Labels
    requires p in labels && q in labels
  {
    (map k | k in labels && k != q :: labels[k])[p := labels[p] + "," + q + "=" + labels[q]]
  }

  lemma MergedKeys(labels: Labels, shorter: seq<string>, q: string)
    requires shorter != [] && Increasing(shorter + [q]) && Enumerates(shorter + [q], labels.Keys)
    ensures shorter[|shorter| - 1] in labels && q in labels && shorter[|shorter| - 1] != q
    ensures var other := Merged(labels, shorter[|shorter| - 1], q);
            q !in other && Increasing(shorter) && Enumerates(shorter, other.Keys)
  {
    var keys, p := shorter + [q], shorter[|shorter| - 1];
    assert keys[|shorter|] == q && keys[|shorter| - 1] == p;
    assert q in keys && p in keys;
    var other := Merged(labels, p, q);
    assert forall i :: 0 <= i < |shorter| ==> shorter[i] == keys[i] && keys[i] in keys && keys[i] != keys[|shorter|];
    forall k ensures k in shorter <==> k in other.Keys {
      if k in other { assert k in keys; }
    }
  }

  lemma MergedText(labels: Labels, prefix: seq<string>, p: string, q: string)
    requires forall k :: k in prefix ==> k in labels && k != p && k != q
    requires p in labels && q in labels && p != q
    ensures Render(labels, prefix + [p] + [q]) == Render(Merged(labels, p, q), prefix + [p])
  {
    var other := Merged(labels, p, q);
    RenderConcat(labels, prefix + [p], [q]);
    RenderConcat(labels, prefix, [p]);
    RenderConcat(other, prefix, [p]);
    SameRender(labels, other, prefix);
    RenderOne(labels, p);
    RenderOne(labels, q);
    RenderOne(other, p);
    assert Item(p, other[p]) == Item(p, labels[p]) + Item(q, labels[q]);
    assert Render(labels, prefix) + Item(p, labels[p]) + Item(q, labels[q])
        == Render(labels, prefix) + (Item(p, labels[p]) + Item(q, labels[q]));
  }

  lemma RenderOne(labels: Labels, k: string)
    requires k in labels
    ensures Render(labels, [k]) == Item(k, labels[k])
  {
    assert [k][1..] == [];
    assert Render(labels, [k]) == Item(k, labels[k]) + "";
  }

  lemma {:induction false} SameRender(a: Labels, b: Labels, keys: seq<string>)
    requires forall k :: k in keys ==> k in a && k in b && a[k] == b[k]
    ensures Render(a, keys) == Render(b, keys)
  {
    if keys != [] { SameRender(a, b, keys[1..]); }
  }

  /** A value that reads like a value, a comma and a later label: behind a ',' stand a key above k and a '='. */
  ghost predicate Foldable(k: string, v: string) {
    exists p, q :: 0 <= p < q < |v| && Fold(k, v, p, q)
  }

  ghost predicate Fold(k: string, v: string, p: nat, q: nat)
    requires p < q < |v|
  {
    && v[p] == ',' && v[q] == '='
    && '=' !in v[p + 1..q] && k != v[p + 1..q] && AtMost(k, v[p + 1..q])
  }

  /**
   * Exactly which label maps share their fingerprint with another one: those with two labels or more, and those
   * with one label whose value reads like two. Keys are plain, values arbitrary.
   */
  lemma TwinsExactly(labels: Labels, text: string)
    requires PlainKeys(labels) && IsFingerprint(labels, text)
    ensures HasTwin(labels, text) <==> |labels| >= 2 || exists k :: k in labels && Foldable(k, labels[k])
  {
    hide Increasing, Render, PlainKeys, Foldable;
    var keys :| Increasing(keys) && Enumerates(keys, labels.Keys) && text == Render(labels, keys);
    EnumerationLength(keys, labels.Keys);
    if |keys| >= 2 {
      MergedTwin(labels, keys);
    } else if keys == [] {
      assert forall k :: k in labels ==> k in keys;
      forall other | IsFingerprint(other, text) ensures other == labels { NoTwinOfNothing(labels, other, keys); }
    } else {
      var k := keys[0];
      assert k in keys;
      assert forall l :: l in labels ==> l in keys;
      if Foldable(k, labels[k]) { FoldedTwin(labels, k, keys); }
      forall other | other != labels && PlainKeys(other) && IsFingerprint(other, text)
        ensures Foldable(k, labels[k]) {
        TwinFolds(labels, other, keys);
      }
    }
  }

  lemma NoTwinOfNothing(labels: Labels, other: Labels, keys: seq<string>)
    requires keys == [] && Enumerates(keys, labels.Keys) && IsFingerprint(other, Render(labels, keys))
    ensures other == labels
  {
    var ks :| Increasing(ks) && Enumerates(ks, other.Keys) && Render(labels, keys) == Render(other, ks);
    RenderEmpty(other, ks);
    assert forall k :: k in other ==> k in ks;
    assert forall k :: k in labels ==> k in keys;
  }

  lemma FoldText(k: string, v: string, p: nat, q: nat)
    requires p < q < |v| && v[p] == ',' && v[q] == '='
    ensures Item(k, v[..p]) + Item(v[p + 1..q], v[q + 1..]) == Item(k, v)
  {
    assert v == v[..p] + "," + v[p + 1..q] + "=" + v[q + 1..];
  }

  function Pair(k: string, v: string, l: string, u: string): Labels { map[k := v, l := u] }

  lemma PairFingerprint(k: string, v: string, l: string, u: string)
    requires k != l && AtMost(k, l)
    ensures IsFingerprint(Pair(k, v, l, u), Item(k, v) + Item(l, u))
  {
    hide AtMost;
    var labels, keys := Pair(k, v, l, u), [k, l];
    assert Increasing(keys) && Enumerates(keys, labels.Keys);
    RenderConcat(labels, [k], [l]);
    RenderOne(labels, k);
    RenderOne(labels, l);
    assert [k] + [l] == keys;
  }

  /** Splitting the value at the fold gives two labels with the same text. */
  lemma FoldedTwin(labels: Labels, k: string, keys: seq<string>)
    requires keys == [k] && Enumerates(keys, labels.Keys) && PlainKeys(labels) && Foldable(k, labels[k])
    ensures HasTwin(labels, Render(labels, keys))
  {
    SingleMap(labels, keys);
    RenderOne(labels, k);
    var v := labels[k];
    var p, q :| 0 <= p < q < |v| && Fold(k, v, p, q);
    var l, u := v[p + 1..q], v[q + 1..];
    FoldText(k, v, p, q);
    PairFingerprint(k, v[..p], l, u);
    var other := Pair(k, v[..p], l, u);
    assert l in other && l !in labels;
    hide AtMost, IsFingerprint, Item, Render;
    assert PlainKeys(other);
  }

  /** In a twin of a single label the second item stands inside the value. */
  lemma TwinFolds(labels: Labels, other: Labels, keys: seq<string>)
    requires |keys| == 1 && Enumerates(keys, labels.Keys) && PlainKeys(labels) && PlainKeys(other)
    requires keys[0] in labels && other != labels && IsFingerprint(other, Render(labels, keys))
    ensures Foldable(keys[0], labels[keys[0]])
  {
    var ks :| Increasing(ks) && Enumerates(ks, other.Keys) && Render(labels, keys) == Render(other, ks);
    assert forall i :: 0 <= i < |ks| ==> ks[i] in ks;
    FirstItem(labels, other, keys, ks);
    var k := keys[0];
    if |ks| == 1 {
      SingleMap(labels, keys);
      SingleMap(other, ks);
    } else {
      SecondItemFolds(other, ks, labels[k]);
    }
  }

  lemma SingleMap(labels: Labels, keys: seq<string>)
    requires |keys| == 1 && Enumerates(keys, labels.Keys)
    ensures keys[0] in labels && labels == map[keys[0] := labels[keys[0]]]
  {
    assert keys[0] in keys;
    assert forall k :: k in labels <==> k == keys[0];
  }

  lemma FirstItem(labels: Labels, other: Labels, keys: seq<string>, ks: seq<string>)
    requires PlainKeys(labels) && PlainKeys(other)
    requires |keys| == 1 && keys[0] in labels && forall k :: k in ks ==> k in other
    requires Render(labels, keys) == Render(other, ks)
    ensures ks != [] && ks[0] == keys[0]
    ensures other[ks[0]] + [','] + Render(other, ks[1..]) == labels[keys[0]] + [',']
    ensures |ks| == 1 ==> other[ks[0]] == labels[keys[0]]
  {
    var k, v := keys[0], labels[keys[0]];
    assert keys == [k];
    RenderOne(labels, k);
    RenderEmpty(other, ks);
    hide Render, Item;
    assert ks != [] by { ItemIsNotEmpty(k, v); }
    assert ks[0] in ks && '=' !in k && '=' !in ks[0];
    SplitItem(other, ks);
    RenderEmpty(other, ks[1..]);
    FirstText(k, v, ks[0], other[ks[0]], Render(other, ks[1..]));
  }

  lemma ItemIsNotEmpty(k: string, v: string)
    ensures Item(k, v) != ""
  {
  }

  lemma FirstText(k: string, v: string, l: string, w: string, rest: string)
    requires '=' !in k && '=' !in l && Item(k, v) == l + ['='] + (w + [','] + rest)
    ensures k == l && w + [','] + rest == v + [','] && (rest == "" ==> w == v)
  {
    ItemText(k, v);
    SplitAt(k, l, v + [','], w + [','] + rest, '=');
    if rest == "" { DropComma(w, v); }
  }

  lemma ItemText(k: string, v: string)
    ensures Item(k, v) == k + ['='] + (v + [','])
  {
  }

  lemma DropComma(w: string, v: string)
    requires w + [','] + "" == v + [',']
    ensures w == v
  {
    assert (w + [','] + "")[..|w|] == w && (v + [','])[..|v|] == v;
  }

  lemma SecondItemFolds(other: Labels, ks: seq<string>, v: string)
    requires PlainKeys(other) && Increasing(ks) && |ks| >= 2 && forall k :: k in ks ==> k in other
    requires other[ks[0]] + [','] + Render(other, ks[1..]) == v + [',']
    ensures Foldable(ks[0], v)
  {
    var w, l, rest := other[ks[0]], ks[1], Render(other, ks[1..]);
    SplitItem(other, ks[1..]);
    assert ks[1..][0] == l && l in ks;
    var u := other[l] + [','] + Render(other, ks[1..][1..]);
    assert rest == l + ['='] + u;
    var p, q := |w|, |w| + 1 + |l|;
    var whole := v + [','];
    assert whole == w + [','] + (l + ['='] + u);
    assert whole[p] == ',' && whole[q] == '=' && whole[p + 1..q] == l;
    assert v[p] == whole[p] && v[q] == whole[q] && v[p + 1..q] == whole[p + 1..q];
    assert Fold(ks[0], v, p, q);
  }

  lemma RenderEmpty(labels: Labels, keys: seq<string>)
    requires forall k :: k in keys ==> k in labels
    ensures Render(labels, keys) == "" <==> keys == []
  {
    if keys != [] { SplitItem(labels, keys); }
  }

  lemma {:induction false} EnumerationLength(keys: seq<string>, domain: set<string>)
    requires Enumerates(keys, domain)
    ensures |keys| == |domain|
  {
    if keys == [] {
      assert domain == {};
    } else {
      var rest := keys[..|keys| - 1];
      var last := keys[|keys| - 1];
      assert last in keys;
      forall k ensures k in rest <==> k in domain - {last} {
        if k in domain - {last} { assert k in keys; }
        if k in rest { assert k in keys; }
      }
      EnumerationLength(rest, domain - {last});
    }
  }

  /** Keys are in dictionary order: a prefix comes first, else the first different character decides. */
  lemma {:induction false} AtMostIsLexicographic(a: string, b: string)
    ensures AtMost(a, b)
            <==> a <= b || exists k :: 0 <= k < |a| && k < |b| && a[..k] == b[..k] && a[k] < b[k]
  {
    if a != "" && b != "" {
      AtMostIsLexicographic(a[1..], b[1..]);
      assert a == [a[0]] + a[1..] && b == [b[0]] + b[1..];
      if a[0] == b[0] {
        if k :| 0 <= k < |a[1..]| && k < |b[1..]| && a[1..][..k] == b[1..][..k] && a[1..][k] < b[1..][k] {
          assert a[..k + 1] == [a[0]] + a[1..][..k] && b[..k + 1] == [b[0]] + b[1..][..k];
          assert a[k + 1] < b[k + 1];
        }
        if k :| 0 <= k < |a| && k < |b| && a[..k] == b[..k] && a[k] < b[k] {
          assert k > 0 && a[1..][..k - 1] == a[..k][1..] && b[1..][..k - 1] == b[..k][1..];
          assert a[1..][k - 1] < b[1..][k - 1];
        }
      } else if a[0] < b[0] {
        assert a[..0] == b[..0];
      } else {
        forall k | 0 < k < |a| && k < |b| ensures a[..k] != b[..k] {
          assert a[..k][0] == a[0] && b[..k][0] == b[0];
        }
      }
    }
  }
}
