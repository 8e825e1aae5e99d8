/** Dictionaries keep their keys in the order of first appearance, which is the order of what the programs list. */
module Appearance {
  import EventCorrelation
  import Bitflip
  import BitflipAnalysis
  import Clusters

  /** The keys are the elements of the list, each once, and each before any that appears later. */
  ghost predicate InOrderOfAppearance<T(!new)>(keys: seq<T>, s: seq<T>) {
    && (forall x :: x in keys <==> x in s)
    && (forall a, b :: 0 <= a < b < |keys| ==> keys[a] != keys[b])
    && forall a, b :: 0 <= a < b < |keys| ==> Before(keys[a], keys[b], s)
  }

  /** Some x stands before every y. */
  ghost predicate Before<T(!new)>(x: T, y: T, s: seq<T>) { exists i :: 0 <= i < |s| && s[i] == x && y !in s[..i] }

  lemma BeforeSnoc<T(!new)>(x: T, y: T, s: seq<T>, z: T)
    requires Before(x, y, s)
    ensures Before(x, y, s + [z])
  {
    var i :| 0 <= i < |s| && s[i] == x && y !in s[..i];
    assert (s + [z])[i] == x && (s + [z])[..i] == s[..i];
  }

  lemma NewIsLast<T(!new)>(x: T, s: seq<T>, z: T)
    requires x in s && z !in s
    ensures Before(x, z, s + [z])
  {
    var i :| 0 <= i < |s| && s[i] == x;
    assert (s + [z])[i] == x && (s + [z])[..i] == s[..i];
  }

  lemma NothingInOrder<T(!new)>()
    ensures InOrderOfAppearance<T>([], [])
  {
  }

  lemma AppearanceSnoc<T(!new)>(keys: seq<T>, s: seq<T>, z: T)
    requires InOrderOfAppearance(keys, s)
    ensures InOrderOfAppearance(if z in keys then keys else keys + [z], s + [z])
  {
    var more := if z in keys then keys else keys + [z];
    forall a, b | 0 <= a < b < |more| ensures Before(more[a], more[b], s + [z]) {
      assert keys[a] in keys;
      if b < |keys| { BeforeSnoc(keys[a], keys[b], s, z); } else { NewIsLast(keys[a], s, z); }
    }
  }

  function TypesOf(events: seq<EventCorrelation.Event>): (s: seq<string>)
    ensures |s| == |events| && forall i :: 0 <= i < |s| ==> s[i] == events[i].eventType
  {
    if events == [] then [] else TypesOf(events[..|events| - 1]) + [events[|events| - 1].eventType]
  }

  /** The counter of event types. */
  lemma {:induction false} TypesInOrder(events: seq<EventCorrelation.Event>)
    ensures InOrderOfAppearance(EventCorrelation.Types(events), TypesOf(events))
  {
    if events == [] {
      NothingInOrder<string>();
    } else {
      hide InOrderOfAppearance;
      var n := |events| - 1;
      TypesInOrder(events[..n]);
      AppearanceSnoc(EventCorrelation.Types(events[..n]), TypesOf(events[..n]), events[n].eventType);
    }
  }

  function PagesOf(events: seq<Bitflip.Event>): (s: seq<int>)
    ensures |s| == |events| && forall i :: 0 <= i < |s| ==> s[i] == events[i].page
  {
    if events == [] then [] else PagesOf(events[..|events| - 1]) + [events[|events| - 1].page]
  }

  /** The dictionary of pages. */
  lemma {:induction false} PagesInOrder(events: seq<Bitflip.Event>)
    ensures InOrderOfAppearance(BitflipAnalysis.Pages(events), PagesOf(events))
  {
    if events == [] {
      NothingInOrder<int>();
    } else {
      hide InOrderOfAppearance;
      var n := |events| - 1;
      PagesInOrder(events[..n]);
      AppearanceSnoc(BitflipAnalysis.Pages(events[..n]), PagesOf(events[..n]), events[n].page);
    }
  }

  function GroupsOf(events: seq<Bitflip.Event>): (s: seq<(string, int)>)
    ensures |s| == |events| && forall i :: 0 <= i < |s| ==> s[i] == (events[i].controller, events[i].channel)
  {
    if events == [] then []
    else
      var last := events[|events| - 1];
      GroupsOf(events[..|events| - 1]) + [(last.controller, last.channel)]
  }

  /** The dictionary of controllers and channels. */
  lemma {:induction false} GroupsInOrder(events: seq<Bitflip.Event>)
    ensures InOrderOfAppearance(Bitflip.Groups(events), GroupsOf(events))
  {
    if events == [] {
      NothingInOrder<(string, int)>();
    } else {
      hide InOrderOfAppearance;
      var n := |events| - 1;
      var g := (events[n].controller, events[n].channel);
      GroupsInOrder(events[..n]);
      AppearanceSnoc(Bitflip.Groups(events[..n]), GroupsOf(events[..n]), g);
    }
  }

  function KeysOf(dimms: seq<Clusters.Dimm>, kind: Clusters.Kind): (s: seq<string>)
    ensures |s| == |dimms| && forall i :: 0 <= i < |s| ==> s[i] == Clusters.KeyOf(dimms[i], kind)
  {
    if dimms == [] then [] else KeysOf(dimms[..|dimms| - 1], kind) + [Clusters.KeyOf(dimms[|dimms| - 1], kind)]
  }

  /** The dictionaries of vendors and date codes. */
  lemma {:induction false} KeysInOrder(dimms: seq<Clusters.Dimm>, kind: Clusters.Kind)
    ensures InOrderOfAppearance(Clusters.Keys(dimms, kind), KeysOf(dimms, kind))
  {
    if dimms == [] {
      NothingInOrder<string>();
    } else {
      hide InOrderOfAppearance;
      var n := |dimms| - 1;
      var key := Clusters.KeyOf(dimms[n], kind);
      KeysInOrder(dimms[..n], kind);
      AppearanceSnoc(Clusters.Keys(dimms[..n], kind), KeysOf(dimms[..n], kind), key);
    }
  }
}
