/** The loop that annotates each correlation once until it forgets (correlation/event_correlator.py, main). */
module Annotations {

  import opened EventCorrelation

  /** An event of the input, with the clock readings of the two expiries that it causes. */
  datatype Input = Input(event: Event, added: real, detected: real)

  datatype Rule = MultiSource | Cascade | Storm

  type Key = (Rule, string)

  datatype Posting = Posting(step: nat, correlation: Correlation)

  const LIMIT := 100

  function KeyOf(c: Correlation): Key {
    match c
    case MemoryMultiSource(_, _) => (MultiSource, "")
    case PcieMemoryCascade => (Cascade, "")
    case EventStorm(t, _) => (Storm, t)
  }

  function KeysOf(cs: seq<Correlation>): set<Key> { set c | c in cs :: KeyOf(c) }

  function EventsUpTo(inputs: seq<Input>, k: nat): seq<Event>
    requires k <= |inputs|
  {
    if k == 0 then [] else EventsUpTo(inputs, k - 1) + [inputs[k - 1].event]
  }

  /** What the rules find at step k in the events seen so far. */
  function Found(inputs: seq<Input>, window: real, k: nat): seq<Correlation>
    requires k < |inputs|
  {
    Correlations(Recent(EventsUpTo(inputs, k + 1), inputs[k].detected - window))
  }

  /** The correlations of a list whose key is not yet known, each key once. */
  function NewOnes(cs: seq<Correlation>, seen: set<Key>): seq<Correlation> {
    if cs == [] then []
    else
      var n := |cs| - 1;
      NewOnes(cs[..n], seen) + (if KeyOf(cs[n]) in seen + KeysOf(cs[..n]) then [] else [cs[n]])
  }

  predicate Clears(inputs: seq<Input>, window: real, k: nat)
    requires k < |inputs|
  {
    |Seen(inputs, window, k) + KeysOf(Found(inputs, window, k))| > LIMIT
  }

  /** The keys that the loop remembers before step k. */
  function Seen(inputs: seq<Input>, window: real, k: nat): set<Key>
    requires k <= |inputs|
    decreases k, 0
  {
    if k == 0 then {}
    else
      var after := Seen(inputs, window, k - 1) + KeysOf(Found(inputs, window, k - 1));
      if |after| > LIMIT then {} else after
  }

  function At(step: nat, cs: seq<Correlation>): (ps: seq<Posting>)
    ensures |ps| == |cs| && forall i :: 0 <= i < |cs| ==> ps[i] == Posting(step, cs[i])
  {
    seq(|cs|, i requires 0 <= i < |cs| => Posting(step, cs[i]))
  }

  function Postings(inputs: seq<Input>, window: real, k: nat): seq<Posting>
    requires k <= |inputs|
  {
    if k == 0 then []
    else Postings(inputs, window, k - 1)
         + At(k - 1, NewOnes(Found(inputs, window, k - 1), Seen(inputs, window, k - 1)))
  }

  ghost predicate InOrder(inputs: seq<Input>, start: real) {
    && (forall i :: 0 <= i < |inputs| ==> start <= inputs[i].added <= inputs[i].detected)
    && forall i, j :: 0 <= i < j < |inputs| ==> inputs[i].detected <= inputs[j].added
  }

  lemma KeysSnoc(cs: seq<Correlation>, c: Correlation)
    ensures KeysOf(cs + [c]) == KeysOf(cs) + {KeyOf(c)}
  {
    assert forall d :: d in cs + [c] <==> d in cs || d == c;
  }

  lemma NoKeys()
    ensures KeysOf([]) == {}
  {
  }

  lemma AtSnoc(step: nat, cs: seq<Correlation>, c: Correlation)
    ensures At(step, cs + [c]) == At(step, cs) + [Posting(step, c)]
  {
  }

  method PostNew(found: seq<Correlation>, seen: set<Key>, step: nat) returns (posted: seq<Posting>, after: set<Key>)
    ensures posted == At(step, NewOnes(found, seen)) && after == seen + KeysOf(found)
  {
    hide KeysOf, At;
    NoKeys();
    posted, after := [], seen;
    for i := 0 to |found|
      invariant posted == At(step, NewOnes(found[..i], seen)) && after == seen + KeysOf(found[..i])
    {
      assert found[..i + 1] == found[..i] + [found[i]];
      KeysSnoc(found[..i], found[i]);
      var key := KeyOf(found[i]);
      if key !in after {
        after := after + {key};
        AtSnoc(step, NewOnes(found[..i], seen), found[i]);
        posted := posted + [Posting(step, found[i])];
      }
    }
    assert found[..|found|] == found;
  }

  method Correlate(inputs: seq<Input>, window: real, ghost start: real) returns (posted: seq<Posting>)
    requires InOrder(inputs, start)
    ensures posted == Postings(inputs, window, |inputs|)
  {
    hide NewOnes, At, Correlations, Recent, KeysOf;
    var buf := new EventBuffer(window, start);
    var seen := {};
    posted := [];
    for k := 0 to |inputs|
      invariant buf.Valid() && fresh(buf) && buf.all == EventsUpTo(inputs, k) && buf.window == window
      invariant buf.now == if k == 0 then start else inputs[k - 1].detected
      invariant seen == Seen(inputs, window, k) && posted == Postings(inputs, window, k)
    {
      buf.Add(inputs[k].event, inputs[k].added);
      var found := DetectCorrelations(buf, inputs[k].detected);
      var more, after := PostNew(found, seen, k);
      posted := posted + more;
      seen := if |after| > LIMIT then {} else after;
    }
  }

  // ----- once between clears -----

  /** The first step after the last clear before step k. */
  function LastClear(inputs: seq<Input>, window: real, k: nat): (c: nat)
    requires k <= |inputs|
    ensures c <= k
  {
    if k == 0 then 0 else if Clears(inputs, window, k - 1) then k else LastClear(inputs, window, k - 1)
  }

  ghost predicate HasPosting(ps: seq<Posting>, key: Key, from: nat) {
    exists i :: 0 <= i < |ps| && KeyOf(ps[i].correlation) == key && ps[i].step >= from
  }

  lemma {:induction false} NewOnesMeaning(cs: seq<Correlation>, seen: set<Key>)
    ensures KeysOf(NewOnes(cs, seen)) == KeysOf(cs) - seen
    ensures forall i, j :: 0 <= i < j < |NewOnes(cs, seen)|
                           ==> KeyOf(NewOnes(cs, seen)[i]) != KeyOf(NewOnes(cs, seen)[j])
  {
    if cs != [] {
      var n := |cs| - 1;
      NewOnesMeaning(cs[..n], seen);
      assert cs == cs[..n] + [cs[n]];
      var before := NewOnes(cs[..n], seen);
      KeysSnoc(cs[..n], cs[n]);
      if KeyOf(cs[n]) in seen + KeysOf(cs[..n]) {
        assert before + [] == before;
      } else {
        KeysSnoc(before, cs[n]);
        forall i | 0 <= i < |before|
          ensures KeyOf(before[i]) != KeyOf(cs[n]) {
          assert KeyOf(before[i]) in KeysOf(before);
        }
      }
    }
  }

  lemma {:induction false} StepsAreEarlier(inputs: seq<Input>, window: real, k: nat)
    requires k <= |inputs|
    ensures forall i :: 0 <= i < |Postings(inputs, window, k)| ==> Postings(inputs, window, k)[i].step < k
  {
    hide NewOnes, Found, Seen;
    if k > 0 { StepsAreEarlier(inputs, window, k - 1); }
  }

  lemma PostingConcat(ps: seq<Posting>, qs: seq<Posting>, key: Key, from: nat)
    ensures HasPosting(ps + qs, key, from) <==> HasPosting(ps, key, from) || HasPosting(qs, key, from)
  {
    if HasPosting(ps, key, from) {
      var i :| 0 <= i < |ps| && KeyOf(ps[i].correlation) == key && ps[i].step >= from;
      assert (ps + qs)[i] == ps[i];
    }
    if HasPosting(qs, key, from) {
      var i :| 0 <= i < |qs| && KeyOf(qs[i].correlation) == key && qs[i].step >= from;
      assert (ps + qs)[|ps| + i] == qs[i];
    }
  }

  lemma PostedAt(step: nat, cs: seq<Correlation>, key: Key, from: nat)
    ensures HasPosting(At(step, cs), key, from) <==> key in KeysOf(cs) && step >= from
  {
    var ps := At(step, cs);
    if key in KeysOf(cs) && step >= from {
      var c :| c in cs && KeyOf(c) == key;
      var i :| 0 <= i < |cs| && cs[i] == c;
      assert ps[i].correlation == c;
    }
  }

  /** The loop remembers exactly the keys that it has annotated since the last clear. */
  lemma {:induction false} SeenMeaning(inputs: seq<Input>, window: real, k: nat, key: Key)
    requires k <= |inputs|
    ensures key in Seen(inputs, window, k)
            <==> HasPosting(Postings(inputs, window, k), key, LastClear(inputs, window, k))
  {
    hide NewOnes, Found, KeysOf, At;
    if k > 0 {
      SeenMeaning(inputs, window, k - 1, key);
      StepsAreEarlier(inputs, window, k);
      var found, seen := Found(inputs, window, k - 1), Seen(inputs, window, k - 1);
      var more := At(k - 1, NewOnes(found, seen));
      var from := LastClear(inputs, window, k);
      NewOnesMeaning(found, seen);
      PostingConcat(Postings(inputs, window, k - 1), more, key, from);
      PostedAt(k - 1, NewOnes(found, seen), key, from);
      if Clears(inputs, window, k - 1) { StepsAreEarlier(inputs, window, k - 1); }
    }
  }

  /** An annotation that is new at step k was last made before the last clear, if it was made before. */
  lemma NewMeansForgotten(inputs: seq<Input>, window: real, k: nat, i: nat, c: Correlation)
    requires k < |inputs| && i < |Postings(inputs, window, k)|
    requires c in NewOnes(Found(inputs, window, k), Seen(inputs, window, k))
    requires KeyOf(Postings(inputs, window, k)[i].correlation) == KeyOf(c)
    ensures Postings(inputs, window, k)[i].step < LastClear(inputs, window, k)
  {
    NewOnesMeaning(Found(inputs, window, k), Seen(inputs, window, k));
    SeenMeaning(inputs, window, k, KeyOf(c));
    hide NewOnes, Found, Seen, Postings;
    assert KeyOf(c) in KeysOf(NewOnes(Found(inputs, window, k), Seen(inputs, window, k)));
  }

  /** Two annotations of one correlation have a clear between them. */
  lemma {:induction false} OnceBetweenClears(inputs: seq<Input>, window: real, k: nat, i: nat, j: nat)
    requires k <= |inputs| && i < j < |Postings(inputs, window, k)|
    requires KeyOf(Postings(inputs, window, k)[i].correlation) == KeyOf(Postings(inputs, window, k)[j].correlation)
    ensures var ps := Postings(inputs, window, k);
            ps[j].step < k && ps[i].step < LastClear(inputs, window, ps[j].step)
  {
    hide Found, Seen, At, NewOnes, KeysOf;
    var found, seen := Found(inputs, window, k - 1), Seen(inputs, window, k - 1);
    var before := Postings(inputs, window, k - 1);
    var new' := NewOnes(found, seen);
    NewOnesMeaning(found, seen);
    assert Postings(inputs, window, k) == before + At(k - 1, new');
    if j < |before| {
      OnceBetweenClears(inputs, window, k - 1, i, j);
    } else {
      assert i < |before|;
      NewMeansForgotten(inputs, window, k - 1, i, new'[j - |before|]);
    }
  }

  /**
   * Nothing is suppressed without reason: a correlation that is found has been annotated since the last clear,
   * at the latest now.
   */
  lemma FoundIsAnnotated(inputs: seq<Input>, window: real, k: nat, c: Correlation)
    requires k < |inputs| && c in Found(inputs, window, k)
    ensures HasPosting(Postings(inputs, window, k + 1), KeyOf(c), LastClear(inputs, window, k))
  {
    var found, seen, key := Found(inputs, window, k), Seen(inputs, window, k), KeyOf(c);
    var from := LastClear(inputs, window, k);
    SeenMeaning(inputs, window, k, key);
    NewOnesMeaning(found, seen);
    hide NewOnes, Found, Seen;
    PostingConcat(Postings(inputs, window, k), At(k, NewOnes(found, seen)), key, from);
    PostedAt(k, NewOnes(found, seen), key, from);
  }

  /** What is annotated at a step was found at that step. */
  lemma {:induction false} AnnotatedWasFound(inputs: seq<Input>, window: real, k: nat)
    requires k <= |inputs|
    ensures forall i :: 0 <= i < |Postings(inputs, window, k)|
                        ==> var p := Postings(inputs, window, k)[i];
                            p.step < k && p.correlation in Found(inputs, window, p.step)
  {
    hide NewOnes, Found, Seen, At;
    if k > 0 {
      AnnotatedWasFound(inputs, window, k - 1);
      var found := Found(inputs, window, k - 1);
      var more := NewOnes(found, Seen(inputs, window, k - 1));
      NewOnesAreFound(found, Seen(inputs, window, k - 1));
      assert forall i :: 0 <= i < |more| ==> more[i] in more;
    }
  }

  lemma {:induction false} NewOnesAreFound(cs: seq<Correlation>, seen: set<Key>)
    ensures forall c :: c in NewOnes(cs, seen) ==> c in cs
  {
    hide KeyOf, KeysOf;
    if cs != [] {
      NewOnesAreFound(cs[..|cs| - 1], seen);
      assert cs == cs[..|cs| - 1] + [cs[|cs| - 1]];
    }
  }

  // ----- keys and clears, written out -----

  /** Two correlations count as the same for one rule, and for storms of one type only. */
  lemma SameKey(c: Correlation, d: Correlation)
    ensures KeyOf(c) == KeyOf(d)
            <==> || (c.MemoryMultiSource? && d.MemoryMultiSource?)
                 || (c.PcieMemoryCascade? && d.PcieMemoryCascade?)
                 || (c.EventStorm? && d.EventStorm? && c.eventType == d.eventType)
  {
  }

  /** Before the next step the loop remembers what it remembered and what it found, or nothing if that is over 100. */
  lemma ClearsExactly(inputs: seq<Input>, window: real, k: nat)
    requires k < |inputs|
    ensures var known := Seen(inputs, window, k) + KeysOf(Found(inputs, window, k));
            && (Clears(inputs, window, k) <==> |known| > 100)
            && Seen(inputs, window, k + 1) == if |known| > 100 then {} else known
  {
    hide Found, KeysOf;
  }
}
