/**
 * The in-kernel event counters (ebpf/edac_trace.bpf.c): each CPU looks its key up and then either adds one
 * to the entry it found or inserts an entry of 1 unless one exists by then. One event per CPU is in flight.
 */
module BpfCounter {

  datatype Key = Key(kind: int, severity: int, mc: int)

  /** The capacity of the map. */
  const MAX_ENTRIES := 256

  /** Between the two map operations of an event: which way the lookup went. */
  datatype Cpu = Idle | Found(key: Key) | Missed(key: Key)

  datatype State = State(
    counters: map<Key, nat>,
    cpus: seq<Cpu>,
    completed: map<Key, nat>)     // how many events of a key have run to the end, for the statements only
  {
    function Value(k: Key): nat { if k in counters then counters[k] else 0 }

    function Completed(k: Key): nat { if k in completed then completed[k] else 0 }
  }

  datatype Action = Lookup(cpu: nat, key: Key) | Update(cpu: nat)

  function Initial(cpus: nat): State { State(map[], seq(cpus, _ => Idle), map[]) }

  function Step(s: State, a: Action): State {
    if a.cpu >= |s.cpus| then s
    else
      match a
      case Lookup(c, k) =>
        if !s.cpus[c].Idle? then s
        else s.(cpus := s.cpus[c := if k in s.counters then Found(k) else Missed(k)])
      case Update(c) =>
        match s.cpus[c]
        case Idle => s
        case Found(k) => Finish(s, c, k, s.counters[k := s.Value(k) + 1])
        case Missed(k) =>
          // inserting fails when the key exists by now or the map is full
          Finish(s, c, k, if k in s.counters || |s.counters| >= MAX_ENTRIES then s.counters else s.counters[k := 1])
  }

  function Finish(s: State, c: nat, k: Key, counters: map<Key, nat>): State
    requires c < |s.cpus|
  {
    State(counters, s.cpus[c := Idle], s.completed[k := s.Completed(k) + 1])
  }

  function Execute(s: State, schedule: seq<Action>): State
    decreases |schedule|
  {
    if schedule == [] then s else Execute(Step(s, schedule[0]), schedule[1..])
  }

  /** How many CPUs are about to insert a key. */
  function Missing(cpus: seq<Cpu>, k: Key): nat {
    if cpus == [] then 0 else (if cpus[0] == Missed(k) then 1 else 0) + Missing(cpus[1..], k)
  }

  lemma {:induction false} MissingUpdate(cpus: seq<Cpu>, c: nat, cpu: Cpu, k: Key)
    requires c < |cpus|
    ensures Missing(cpus[c := cpu], k)
         == Missing(cpus, k) - (if cpus[c] == Missed(k) then 1 else 0) + (if cpu == Missed(k) then 1 else 0)
    ensures Missing(cpus, k) <= |cpus|
  {
    MissingBound(cpus, k);
    if c == 0 {
      assert cpus[0 := cpu][1..] == cpus[1..];
    } else {
      assert cpus[c := cpu][1..] == cpus[1..][c - 1 := cpu];
      MissingUpdate(cpus[1..], c - 1, cpu, k);
    }
  }

  lemma {:induction false} MissingBound(cpus: seq<Cpu>, k: Key)
    ensures Missing(cpus, k) <= |cpus|
  {
    if cpus != [] { MissingBound(cpus[1..], k); }
  }

  /**
   * Only lookups that missed before the first insert can be lost: what has been lost and what still may be
   * lost together stay below the number of CPUs.
   */
  ghost predicate KeyInv(s: State, k: Key) {
    && (k in s.counters ==>
          && 1 <= s.Value(k) <= s.Completed(k)
          && s.Completed(k) - s.Value(k) + Missing(s.cpus, k) <= |s.cpus| - 1)
    && (k !in s.counters && |s.counters| < MAX_ENTRIES ==> s.Completed(k) == 0)
    && (forall c :: 0 <= c < |s.cpus| && s.cpus[c].Found? ==> s.cpus[c].key in s.counters)
    && |s.counters| <= MAX_ENTRIES
  }

  lemma SizeAfter(counters: map<Key, nat>, k: Key, v: nat)
    ensures |counters[k := v]| == |counters| + if k in counters then 0 else 1
  {
    if k in counters {
      assert counters[k := v].Keys == counters.Keys;
    } else {
      assert counters[k := v].Keys == counters.Keys + {k};
    }
  }

  lemma StepKeepsInv(s: State, a: Action, k: Key)
    requires KeyInv(s, k)
    ensures KeyInv(Step(s, a), k)
  {
    if a.cpu < |s.cpus| {
      var s' := Step(s, a);
      if a.Update? && !s.cpus[a.cpu].Idle? {
        var key := s.cpus[a.cpu].key;
        SizeAfter(s.counters, key, s.Value(key) + 1);
        SizeAfter(s.counters, key, 1);
      }
      MissingUpdate(s.cpus, a.cpu, s'.cpus[a.cpu], k);
      assert s'.cpus == s.cpus[a.cpu := s'.cpus[a.cpu]];
    }
  }

  lemma {:induction false} ExecuteKeepsInv(s: State, schedule: seq<Action>, k: Key)
    requires KeyInv(s, k)
    ensures KeyInv(Execute(s, schedule), k)
    decreases |schedule|
  {
    hide KeyInv, Step;
    if schedule != [] {
      StepKeepsInv(s, schedule[0], k);
      ExecuteKeepsInv(Step(s, schedule[0]), schedule[1..], k);
    }
  }

  /**
   * Under every interleaving a counter never exceeds the completed events, and once its entry exists it has
   * missed at most one event per CPU but one over the whole run; without an entry nothing was missed either,
   * unless the map is full.
   */
  lemma UndercountIsBounded(cpus: nat, schedule: seq<Action>, k: Key)
    ensures var s := Execute(Initial(cpus), schedule);
            && s.Value(k) <= s.Completed(k)
            && (k in s.counters ==> s.Completed(k) - s.Value(k) <= cpus - 1)
            && (k !in s.counters && |s.counters| < 256 ==> s.Completed(k) == 0)
  {
    ExecuteKeepsInv(Initial(cpus), schedule, k);
    ExecuteKeepsCpus(Initial(cpus), schedule);
  }

  lemma {:induction false} ExecuteKeepsCpus(s: State, schedule: seq<Action>)
    ensures |Execute(s, schedule).cpus| == |s.cpus|
    decreases |schedule|
  {
    if schedule != [] { ExecuteKeepsCpus(Step(s, schedule[0]), schedule[1..]); }
  }

  /** A key that comes to a full map is never counted, however many events follow. */
  lemma {:induction false} FullMapShutsOut(s: State, schedule: seq<Action>, k: Key)
    requires |s.counters| >= MAX_ENTRIES && k !in s.counters
    requires forall c :: 0 <= c < |s.cpus| ==> s.cpus[c] != Found(k)
    ensures k !in Execute(s, schedule).counters
    decreases |schedule|
  {
    if schedule != [] {
      var s', a := Step(s, schedule[0]), schedule[0];
      if a.cpu < |s.cpus| && a.Update? && s.cpus[a.cpu].Found? {
        SizeAfter(s.counters, s.cpus[a.cpu].key, s.Value(s.cpus[a.cpu].key) + 1);
      }
      FullMapShutsOut(s', schedule[1..], k);
    }
  }

  // ----- the bound is reached -----

  /** All CPUs look the key up, then all update it. */
  function LookupAll(from: nat, cpus: nat, k: Key): seq<Action>
    requires from <= cpus
    decreases cpus - from
  {
    if from == cpus then [] else [Lookup(from, k)] + LookupAll(from + 1, cpus, k)
  }

  function UpdateAll(from: nat, cpus: nat): seq<Action>
    requires from <= cpus
    decreases cpus - from
  {
    if from == cpus then [] else [Update(from)] + UpdateAll(from + 1, cpus)
  }

  lemma {:induction false} ExecuteConcat(s: State, a: seq<Action>, b: seq<Action>)
    ensures Execute(s, a + b) == Execute(Execute(s, a), b)
    decreases |a|
  {
    hide Step;
    if a == [] {
      assert a + b == b;
    } else {
      assert (a + b)[1..] == a[1..] + b;
      ExecuteConcat(Step(s, a[0]), a[1..], b);
    }
  }

  lemma {:induction false} AllMiss(s: State, from: nat, k: Key)
    requires from <= |s.cpus| && k !in s.counters
    requires forall c :: 0 <= c < |s.cpus| ==> s.cpus[c] == if c < from then Missed(k) else Idle
    ensures Execute(s, LookupAll(from, |s.cpus|, k)) == s.(cpus := seq(|s.cpus|, _ => Missed(k)))
    decreases |s.cpus| - from
  {
    if from == |s.cpus| {
      assert s.cpus == seq(|s.cpus|, _ => Missed(k));
    } else {
      var s' := Step(s, Lookup(from, k));
      assert LookupAll(from, |s.cpus|, k)[1..] == LookupAll(from + 1, |s.cpus|, k);
      AllMiss(s', from + 1, k);
    }
  }

  lemma {:induction false} AllUpdate(s: State, from: nat, k: Key)
    requires from <= |s.cpus| && (from == 0 ==> |s.counters| < MAX_ENTRIES)
    requires forall c :: from <= c < |s.cpus| ==> s.cpus[c] == Missed(k)
    requires s.Value(k) == (if from == 0 then 0 else 1) && (k in s.counters <==> from > 0) && s.Completed(k) == from
    ensures var s' := Execute(s, UpdateAll(from, |s.cpus|));
            s'.Value(k) == (if |s.cpus| == 0 then 0 else 1) && s'.Completed(k) == |s.cpus|
    decreases |s.cpus| - from
  {
    if from < |s.cpus| {
      var s' := Step(s, Update(from));
      assert UpdateAll(from, |s.cpus|)[1..] == UpdateAll(from + 1, |s.cpus|);
      AllUpdate(s', from + 1, k);
    }
  }

  /** Every number of CPUs can lose all events but one to the race. */
  lemma BoundIsReached(cpus: nat, k: Key) returns (schedule: seq<Action>)
    requires cpus > 0
    ensures var s := Execute(Initial(cpus), schedule);
            k in s.counters && s.Completed(k) - s.Value(k) == cpus - 1
  {
    var s := Initial(cpus);
    schedule := LookupAll(0, cpus, k) + UpdateAll(0, cpus);
    ExecuteConcat(s, LookupAll(0, cpus, k), UpdateAll(0, cpus));
    AllMiss(s, 0, k);
    AllUpdate(s.(cpus := seq(cpus, _ => Missed(k))), 0, k);
  }
}
