/** The per-metric cardinality guard (exporter/collectors/cardinality_guard.go) and its double-checked locking. */
module CardinalityGuard {
  import opened Wrappers

  // ----- the specification: one atomic bounded-set insert per call -----

  /** A call as it takes effect. */
  datatype Op = Op(thread: nat, metric: string, labels: string, admitted: bool)

  /** The label sets of a metric that the operations so far have admitted. */
  function Admitted(ops: seq<Op>, metric: string): set<string> {
    if ops == [] then {}
    else
      var last := ops[|ops| - 1];
      Admitted(ops[..|ops| - 1], metric) + (if last.metric == metric && last.admitted then {last.labels} else {})
  }

  function Drops(ops: seq<Op>, metric: string): nat {
    if ops == [] then 0
    else
      var last := ops[|ops| - 1];
      Drops(ops[..|ops| - 1], metric) + (if last.metric == metric && !last.admitted then 1 else 0)
  }

  predicate Answer(ops: seq<Op>, max: nat, metric: string, labels: string) {
    labels in Admitted(ops, metric) || |Admitted(ops, metric)| < max
  }

  /** Every operation got the answer that the atomic insert gives after the operations before it. */
  ghost predicate Legal(ops: seq<Op>, max: nat) {
    forall i :: 0 <= i < |ops| ==> (ops[i].admitted <==> Answer(ops[..i], max, ops[i].metric, ops[i].labels))
  }

  lemma LegalSnoc(ops: seq<Op>, op: Op, max: nat)
    requires Legal(ops, max) && (op.admitted <==> Answer(ops, max, op.metric, op.labels))
    ensures Legal(ops + [op], max)
    ensures forall m ::
              Admitted(ops + [op], m) == Admitted(ops, m) + (if m == op.metric && op.admitted then {op.labels} else {})
    ensures forall m :: Drops(ops + [op], m) == Drops(ops, m) + (if m == op.metric && !op.admitted then 1 else 0)
  {
    assert (ops + [op])[..|ops|] == ops;
    forall i | 0 <= i < |ops| ensures (ops + [op])[..i] == ops[..i] {}
  }

  lemma LegalPrefix(ops: seq<Op>, max: nat)
    requires Legal(ops, max) && ops != []
    ensures var n := |ops| - 1;
            Legal(ops[..n], max) && (ops[n].admitted <==> Answer(ops[..n], max, ops[n].metric, ops[n].labels))
  {
    var n := |ops| - 1;
    assert forall i :: 0 <= i < n ==> ops[..n][i] == ops[i] && ops[..n][..i] == ops[..i];
  }

  lemma AddOne<T>(s: set<T>, x: T)
    ensures |s + {x}| == |s| + (if x in s then 0 else 1)
  {
    if x in s { assert s + {x} == s; }
  }

  /** What the atomic insert guarantees: the bound, and that admission is for good. */
  lemma {:induction false} LegalBound(ops: seq<Op>, max: nat, metric: string)
    requires Legal(ops, max)
    ensures |Admitted(ops, metric)| <= max
  {
    if ops != [] {
      var n := |ops| - 1;
      var before, last := ops[..n], ops[n];
      LegalPrefix(ops, max);
      hide Legal;
      LegalBound(before, max, metric);
      AddOne(Admitted(before, metric), last.labels);
    }
  }

  lemma {:induction false} AdmittedGrows(ops: seq<Op>, i: nat, metric: string)
    requires i <= |ops|
    ensures Admitted(ops[..i], metric) <= Admitted(ops, metric)
    decreases |ops|
  {
    if i == |ops| {
      assert ops[..i] == ops;
    } else {
      var before := ops[..|ops| - 1];
      assert before[..i] == ops[..i];
      AdmittedGrows(before, i, metric);
    }
  }

  lemma AdmittedForGood(ops: seq<Op>, max: nat, i: nat, j: nat)
    requires Legal(ops, max) && i < j < |ops|
    requires ops[i].admitted && ops[j].metric == ops[i].metric && ops[j].labels == ops[i].labels
    ensures ops[j].admitted
  {
    assert ops[..i + 1][..i] == ops[..i];
    assert ops[i].labels in Admitted(ops[..i + 1], ops[i].metric);
    assert ops[..j][..i + 1] == ops[..i + 1];
    AdmittedGrows(ops[..j], i + 1, ops[i].metric);
  }

  // ----- the guard's two maps, and the history they stand for -----

  function Lookup(seen: map<string, set<string>>, metric: string): set<string> {
    if metric in seen then seen[metric] else {}
  }

  function Count(dropped: map<string, nat>, metric: string): nat {
    if metric in dropped then dropped[metric] else 0
  }

  ghost predicate Tracks(seen: map<string, set<string>>, dropped: map<string, nat>, ops: seq<Op>, max: nat) {
    && Legal(ops, max)
    && (forall m :: Lookup(seen, m) == Admitted(ops, m))
    && (forall m :: Count(dropped, m) == Drops(ops, m))
  }

  lemma TracksKnown(seen: map<string, set<string>>, dropped: map<string, nat>, ops: seq<Op>, max: nat, op: Op)
    requires Tracks(seen, dropped, ops, max) && op.admitted && op.labels in Lookup(seen, op.metric)
    ensures Tracks(seen, dropped, ops + [op], max)
  {
    hide Legal, Admitted, Drops;
    LegalSnoc(ops, op, max);
  }

  lemma TracksFull(seen: map<string, set<string>>, dropped: map<string, nat>, ops: seq<Op>, max: nat, op: Op)
    requires Tracks(seen, dropped, ops, max) && !op.admitted
    requires op.labels !in Lookup(seen, op.metric) && |Lookup(seen, op.metric)| >= max
    ensures Tracks(seen, dropped[op.metric := Count(dropped, op.metric) + 1], ops + [op], max)
  {
    hide Legal, Admitted, Drops;
    LegalSnoc(ops, op, max);
  }

  lemma TracksInsert(seen: map<string, set<string>>, dropped: map<string, nat>, ops: seq<Op>, max: nat, op: Op)
    requires Tracks(seen, dropped, ops, max) && op.admitted
    requires |Lookup(seen, op.metric)| < max
    ensures Tracks(seen[op.metric := Lookup(seen, op.metric) + {op.labels}], dropped, ops + [op], max)
  {
    hide Legal, Admitted, Drops;
    LegalSnoc(ops, op, max);
  }

  lemma TracksEmptyEntry(seen: map<string, set<string>>, dropped: map<string, nat>, ops: seq<Op>, max: nat,
                         metric: string)
    requires Tracks(seen, dropped, ops, max) && metric !in seen
    ensures Tracks(seen[metric := {}], dropped, ops, max)
  {
    hide Legal, Admitted, Drops;
    assert forall m :: Lookup(seen[metric := {}], m) == Lookup(seen, m);
  }

  // ----- the guard called from one goroutine -----

  class Guard {
    const max: nat
    var seen: map<string, set<string>>
    var dropped: map<string, nat>
    /** The calls so far. */
    ghost var ops: seq<Op>

    ghost predicate Valid()
      reads this
    {
      Tracks(seen, dropped, ops, max)
    }

    constructor (max: int)
      ensures Valid() && ops == []
      ensures this.max == if max <= 0 then 1000 else max
    {
      this.max := if max <= 0 then 1000 else max;
      seen, dropped, ops := map[], map[], [];
    }

    /** `labels` is the fingerprint of the label set. */
    method AllowLabels(metric: string, labels: string) returns (admitted: bool)
      requires Valid()
      modifies this
      ensures Valid()
      ensures ops == old(ops) + [Op(0, metric, labels, admitted)]
      ensures admitted <==> labels in Lookup(old(seen), metric) || |Lookup(old(seen), metric)| < max
      ensures admitted <==> labels in Lookup(seen, metric)
    {
      hide Tracks;
      ghost var before := ops;
      if labels in Lookup(seen, metric) {
        TracksKnown(seen, dropped, ops, max, Op(0, metric, labels, true));
        ops := ops + [Op(0, metric, labels, true)];
        return true;
      }
      if metric !in seen {
        TracksEmptyEntry(seen, dropped, ops, max, metric);
        seen := seen[metric := {}];
      }
      // the second lookup of the code finds only what another goroutine inserted meanwhile
      if |seen[metric]| >= max {
        TracksFull(seen, dropped, ops, max, Op(0, metric, labels, false));
        ops := ops + [Op(0, metric, labels, false)];
        dropped := dropped[metric := Count(dropped, metric) + 1];
        return false;
      }
      TracksInsert(seen, dropped, ops, max, Op(0, metric, labels, true));
      ops := ops + [Op(0, metric, labels, true)];
      seen := seen[metric := seen[metric] + {labels}];
      return true;
    }
  }

  // ----- the concurrent guard -----

  /** Where a goroutine is inside AllowLabels; each constructor stands before one atomic step. */
  datatype Pc =
    | Idle
    | ReadLock
    | ReadCheck
    | ReadUnlock(found: bool)
    | WriteLock
    | WriteInit
    | WriteCheck
    | WriteBound
    | WriteUnlock(admitted: bool)
  {
    predicate Reading() { ReadCheck? || ReadUnlock? }

    predicate InReadPart() { ReadLock? || Reading() }

    predicate Writing() { WriteInit? || WriteCheck? || WriteBound? || WriteUnlock? }

    /** The answer of the call is settled. */
    predicate Settled() { (ReadUnlock? && found) || WriteUnlock? }

    function Result(): bool { if WriteUnlock? then admitted else true }
  }

  /**
   * A goroutine, its arguments, and the history positions of its current call: at its start and where it took
   * effect.
   */
  datatype Thread = Thread(pc: Pc, metric: string, labels: string, invoked: nat, point: nat)

  datatype Return = Return(op: Op, invoked: nat, point: nat, returned: nat)

  /** The guard's fields, its read-write lock, the goroutines, and the history of the run. */
  datatype State = State(
    max: nat,
    seen: map<string, set<string>>,
    dropped: map<string, nat>,
    readers: set<nat>,
    writer: Option<nat>,
    threads: seq<Thread>,
    ops: seq<Op>,
    finished: seq<Return>)
  {
    function Seen(metric: string): set<string> { Lookup(seen, metric) }

    function Dropped(metric: string): nat { Count(dropped, metric) }

    function At(t: nat, pc: Pc): State
      requires t < |threads|
    {
      this.(threads := threads[t := threads[t].(pc := pc)])
    }

    /** Thread t moves to `pc` and its call takes effect. */
    function Settle(t: nat, pc: Pc): State
      requires t < |threads|
    {
      var th := threads[t];
      this.(threads := threads[t := th.(pc := pc, point := |ops|)],
            ops := ops + [Op(t, th.metric, th.labels, pc.Result())])
    }

    /** The call of thread t returns. */
    function Finish(t: nat): State
      requires t < |threads|
    {
      var th := threads[t];
      var answer := Return(Op(t, th.metric, th.labels, th.pc.Result()), th.invoked, th.point, |ops|);
      At(t, Idle).(finished := finished + [answer])
    }
  }

  function Initial(max: int, threads: nat): State {
    State(if max <= 0 then 1000 else max, map[], map[], {}, None,
          seq(threads, _ => Thread(Idle, "", "", 0, 0)), [], [])
  }

  datatype Action = Call(thread: nat, metric: string, labels: string) | Run(thread: nat)

  /** One atomic step; a schedule that names a blocked or absent goroutine changes nothing. */
  function Step(s: State, a: Action): State {
    if a.thread >= |s.threads| then s
    else
      match a
      case Call(t, metric, labels) => Begin(s, t, metric, labels)
      case Run(t) => if s.threads[t].pc.InReadPart() then ReadStep(s, t) else WriteStep(s, t)
  }

  function Begin(s: State, t: nat, metric: string, labels: string): State
    requires t < |s.threads|
  {
    if s.threads[t].pc.Idle? then s.(threads := s.threads[t := Thread(ReadLock, metric, labels, |s.ops|, 0)]) else s
  }

  function ReadStep(s: State, t: nat): State
    requires t < |s.threads| && s.threads[t].pc.InReadPart()
  {
    var th := s.threads[t];
    match th.pc
    case ReadLock => if s.writer.None? then s.At(t, ReadCheck).(readers := s.readers + {t}) else s
    case ReadCheck =>
      if th.labels in s.Seen(th.metric) then s.Settle(t, ReadUnlock(true)) else s.At(t, ReadUnlock(false))
    case ReadUnlock(found) =>
      var s' := s.(readers := s.readers - {t});
      if found then s'.Finish(t) else s'.At(t, WriteLock)
  }

  function WriteStep(s: State, t: nat): State
    requires t < |s.threads| && !s.threads[t].pc.InReadPart()
  {
    var th := s.threads[t];
    match th.pc
    case Idle => s
    case WriteLock =>
      if s.writer.None? && s.readers == {} then s.At(t, WriteInit).(writer := Some(t)) else s
    case WriteInit =>
      s.At(t, WriteCheck).(seen := if th.metric in s.seen then s.seen else s.seen[th.metric := {}])
    case WriteCheck =>
      if th.labels in s.Seen(th.metric) then s.Settle(t, WriteUnlock(true)) else s.At(t, WriteBound)
    case WriteBound =>
      if |s.Seen(th.metric)| >= s.max then
        s.Settle(t, WriteUnlock(false)).(dropped := s.dropped[th.metric := s.Dropped(th.metric) + 1])
      else
        s.Settle(t, WriteUnlock(true)).(seen := s.seen[th.metric := s.Seen(th.metric) + {th.labels}])
    case WriteUnlock(_) => s.Finish(t).(writer := None)
  }

  function Execute(s: State, schedule: seq<Action>): State
    decreases |schedule|
  {
    if schedule == [] then s else Execute(Step(s, schedule[0]), schedule[1..])
  }

  // ----- invariants -----

  /** Readers hold the read lock, the writer holds the write lock, and nobody else does. */
  ghost predicate LockInv(s: State) {
    && (s.writer.Some? ==> s.readers == {})
    && forall t :: 0 <= t < |s.threads| ==> HoldsLocks(s, t)
  }

  ghost predicate HoldsLocks(s: State, t: nat)
    requires t < |s.threads|
  {
    && (s.threads[t].pc.Reading() <==> t in s.readers)
    && (s.threads[t].pc.Writing() <==> s.writer == Some(t))
  }

  /** The fields hold what the history of operations says. */
  ghost predicate DataInv(s: State) {
    && FieldsInv(s)
    && (forall t :: 0 <= t < |s.threads| ==> Checked(s, t))
  }

  ghost predicate FieldsInv(s: State) { Tracks(s.seen, s.dropped, s.ops, s.max) }

  /** Before the bound is compared the label set is known to be new. */
  ghost predicate Checked(s: State, t: nat)
    requires t < |s.threads|
  {
    s.threads[t].pc.WriteBound? ==> s.threads[t].labels !in s.Seen(s.threads[t].metric)
  }

  /** A call takes effect between its start and its return, with the result it returns. */
  ghost predicate Matches(ops: seq<Op>, op: Op, invoked: nat, point: nat) {
    invoked <= point < |ops| && ops[point] == op
  }

  ghost predicate CallInv(ops: seq<Op>, threads: seq<Thread>, t: nat)
    requires t < |threads|
  {
    var th := threads[t];
    && th.invoked <= |ops|
    && (th.pc.Settled() ==> Matches(ops, Op(t, th.metric, th.labels, th.pc.Result()), th.invoked, th.point))
  }

  ghost predicate ReturnInv(ops: seq<Op>, r: Return) {
    Matches(ops, r.op, r.invoked, r.point) && r.point < r.returned <= |ops|
  }

  /** The calls of one goroutine follow one another. */
  ghost predicate Sequential(threads: seq<Thread>, finished: seq<Return>) {
    && (forall i, j :: 0 <= i < j < |finished| && finished[i].op.thread == finished[j].op.thread ==>
          finished[i].returned <= finished[j].invoked)
    && (forall i :: 0 <= i < |finished| ==> BeforeCurrent(threads, finished[i]))
  }

  ghost predicate BeforeCurrent(threads: seq<Thread>, r: Return) {
    var t := r.op.thread;
    t < |threads| && !threads[t].pc.Idle? ==> r.returned <= threads[t].invoked
  }

  ghost function SettledThreads(threads: seq<Thread>): set<nat> {
    set t | 0 <= t < |threads| && threads[t].pc.Settled()
  }

  ghost predicate HistoryInv(ops: seq<Op>, threads: seq<Thread>, finished: seq<Return>) {
    && (forall t :: 0 <= t < |threads| ==> CallInv(ops, threads, t))
    && (forall i :: 0 <= i < |finished| ==> ReturnInv(ops, finished[i]))
    && Sequential(threads, finished)
    // every operation in the history belongs to a returned or a settled call
    && |ops| == |finished| + |SettledThreads(threads)|
  }

  ghost predicate Inv(s: State) {
    LockInv(s) && DataInv(s) && HistoryInv(s.ops, s.threads, s.finished)
  }

  lemma InitialInv(max: int, threads: nat)
    ensures Inv(Initial(max, threads))
  {
    assert SettledThreads(Initial(max, threads).threads) == {};
  }

  lemma StepKeepsLock(s: State, a: Action)
    requires LockInv(s)
    ensures LockInv(Step(s, a))
  {
    if a.thread < |s.threads| {
      assert HoldsLocks(s, a.thread);
      if a.Call? || s.threads[a.thread].pc.Idle? {
        CallKeepsLock(s, a);
      } else {
        RunKeepsLock(s, a.thread);
      }
    }
  }

  lemma CallKeepsLock(s: State, a: Action)
    requires LockInv(s) && a.thread < |s.threads| && (a.Call? || s.threads[a.thread].pc.Idle?)
    ensures LockInv(Step(s, a))
  {
    forall u | 0 <= u < |s.threads| ensures HoldsLocks(Step(s, a), u) { assert HoldsLocks(s, u); }
  }

  /** A step changes its own goroutine only. */
  ghost predicate OneThread(s: State, s': State, t: nat)
    requires t < |s.threads|
  {
    |s'.threads| == |s.threads| && s'.threads == s.threads[t := s'.threads[t]] && s'.max == s.max
  }

  lemma ReadFrame(s: State, t: nat)
    requires t < |s.threads| && s.threads[t].pc.InReadPart()
    ensures var s' := ReadStep(s, t);
            && OneThread(s, s', t) && s'.seen == s.seen && s'.dropped == s.dropped && s'.writer == s.writer
            && (s'.readers == s.readers || s'.readers == s.readers + {t} || s'.readers == s.readers - {t})
  {
  }

  lemma WriteFrame(s: State, t: nat)
    requires t < |s.threads| && !s.threads[t].pc.InReadPart()
    ensures var s' := WriteStep(s, t);
            && OneThread(s, s', t) && s'.readers == s.readers
            && (s'.writer == s.writer || (s'.writer == Some(t) && s.writer == None && s.readers == {})
                || (s'.writer == None && s.threads[t].pc.WriteUnlock?))
  {
  }

  lemma StepFrame(s: State, a: Action)
    requires a.thread < |s.threads|
    ensures OneThread(s, Step(s, a), a.thread)
  {
    hide ReadStep, WriteStep;
    if a.Run? {
      if s.threads[a.thread].pc.InReadPart() { ReadFrame(s, a.thread); } else { WriteFrame(s, a.thread); }
    }
  }

  lemma ReadLocks(s: State, t: nat)
    requires t < |s.threads| && s.threads[t].pc.InReadPart() && HoldsLocks(s, t)
    requires s.writer.Some? ==> s.readers == {}
    ensures HoldsLocks(ReadStep(s, t), t) && (ReadStep(s, t).writer.Some? ==> ReadStep(s, t).readers == {})
  {
  }

  lemma WriteLocks(s: State, t: nat)
    requires t < |s.threads| && !s.threads[t].pc.InReadPart() && HoldsLocks(s, t)
    requires s.writer.Some? ==> s.readers == {}
    ensures HoldsLocks(WriteStep(s, t), t) && (WriteStep(s, t).writer.Some? ==> WriteStep(s, t).readers == {})
  {
  }

  /** What a step of thread t does to the locks: it takes or gives up its own, and no other. */
  lemma RunAndLocks(s: State, t: nat)
    requires t < |s.threads| && HoldsLocks(s, t) && (s.writer.Some? ==> s.readers == {})
    ensures var s' := Step(s, Run(t));
            && OneThread(s, s', t) && HoldsLocks(s', t)
            && (s'.writer.Some? ==> s'.readers == {})
            && (s'.readers == s.readers || s'.readers == s.readers + {t} || s'.readers == s.readers - {t})
            && (s'.writer == s.writer || (s'.writer == Some(t) && s.writer == None)
                || (s'.writer == None && s.writer == Some(t)))
  {
    hide ReadStep, WriteStep, OneThread;
    if s.threads[t].pc.InReadPart() {
      ReadFrame(s, t);
      ReadLocks(s, t);
    } else {
      WriteFrame(s, t);
      WriteLocks(s, t);
    }
  }

  lemma RunKeepsLock(s: State, t: nat)
    requires LockInv(s) && t < |s.threads|
    ensures LockInv(Step(s, Run(t)))
  {
    assert HoldsLocks(s, t);
    RunAndLocks(s, t);
    hide Step;
    forall u | 0 <= u < |s.threads| ensures HoldsLocks(Step(s, Run(t)), u) { assert HoldsLocks(s, u); }
  }

  /** No step takes labels out, and only a writer puts some in. */
  lemma StepAndSeen(s: State, a: Action, metric: string)
    ensures var s' := Step(s, a);
            && s.Seen(metric) <= s'.Seen(metric)
            && (s'.Seen(metric) != s.Seen(metric) ==> a.thread < |s.threads| && s.threads[a.thread].pc.WriteBound?)
  {
    hide ReadStep, WriteStep;
    if a.Run? && a.thread < |s.threads| {
      if s.threads[a.thread].pc.InReadPart() {
        ReadFrame(s, a.thread);
      } else {
        WriteAndSeen(s, a.thread, metric);
      }
    }
  }

  lemma WriteAndSeen(s: State, t: nat, metric: string)
    requires t < |s.threads| && !s.threads[t].pc.InReadPart()
    ensures var s' := WriteStep(s, t);
            && s.Seen(metric) <= s'.Seen(metric)
            && (s'.Seen(metric) != s.Seen(metric) ==> s.threads[t].pc.WriteBound?)
  {
  }

  lemma StepKeepsChecked(s: State, a: Action)
    requires LockInv(s) && forall t :: 0 <= t < |s.threads| ==> Checked(s, t)
    ensures forall t :: 0 <= t < |s.threads| ==> Checked(Step(s, a), t)
  {
    var s' := Step(s, a);
    if a.thread < |s.threads| {
      OwnStepIsChecked(s, a);
      StepFrame(s, a);
      hide Step;
      forall u | 0 <= u < |s.threads| && u != a.thread ensures Checked(s', u) {
        assert HoldsLocks(s, u) && HoldsLocks(s, a.thread) && Checked(s, u);
        StepAndSeen(s, a, s.threads[u].metric);
      }
    }
  }

  lemma OwnStepIsChecked(s: State, a: Action)
    requires a.thread < |s.threads| && Checked(s, a.thread)
    ensures |Step(s, a).threads| == |s.threads| && Checked(Step(s, a), a.thread)
  {
    hide ReadStep, WriteStep;
    if a.Run? {
      if s.threads[a.thread].pc.InReadPart() { ReadIsChecked(s, a.thread); } else { WriteIsChecked(s, a.thread); }
    }
  }

  lemma ReadIsChecked(s: State, t: nat)
    requires t < |s.threads| && s.threads[t].pc.InReadPart()
    ensures |ReadStep(s, t).threads| == |s.threads| && !ReadStep(s, t).threads[t].pc.WriteBound?
  {
  }

  lemma WriteIsChecked(s: State, t: nat)
    requires t < |s.threads| && !s.threads[t].pc.InReadPart()
    ensures |WriteStep(s, t).threads| == |s.threads| && Checked(WriteStep(s, t), t)
  {
  }

  lemma StepKeepsFields(s: State, a: Action)
    requires DataInv(s)
    ensures FieldsInv(Step(s, a))
  {
    hide Tracks;
    if a.thread < |s.threads| && a.Run? {
      var t, th := a.thread, s.threads[a.thread];
      assert Checked(s, t);
      if th.labels in s.Seen(th.metric) {
        TracksKnown(s.seen, s.dropped, s.ops, s.max, Op(t, th.metric, th.labels, true));
      } else if th.pc.WriteInit? && th.metric !in s.seen {
        TracksEmptyEntry(s.seen, s.dropped, s.ops, s.max, th.metric);
      } else if |s.Seen(th.metric)| >= s.max {
        TracksFull(s.seen, s.dropped, s.ops, s.max, Op(t, th.metric, th.labels, false));
      } else {
        TracksInsert(s.seen, s.dropped, s.ops, s.max, Op(t, th.metric, th.labels, true));
      }
    }
  }

  lemma StepKeepsData(s: State, a: Action)
    requires LockInv(s) && DataInv(s)
    ensures DataInv(Step(s, a))
  {
    hide FieldsInv;
    StepKeepsChecked(s, a);
    StepKeepsFields(s, a);
  }

  lemma MoveKeepsHistory(ops: seq<Op>, threads: seq<Thread>, finished: seq<Return>, t: nat, pc: Pc)
    requires t < |threads| && HistoryInv(ops, threads, finished)
    requires !threads[t].pc.Idle? && !pc.Idle? && !threads[t].pc.Settled() && !pc.Settled()
    ensures HistoryInv(ops, threads[t := threads[t].(pc := pc)], finished)
  {
    var threads' := threads[t := threads[t].(pc := pc)];
    assert SettledThreads(threads') == SettledThreads(threads);
    forall u | 0 <= u < |threads| ensures CallInv(ops, threads', u) { assert CallInv(ops, threads, u); }
    forall i | 0 <= i < |finished| ensures BeforeCurrent(threads', finished[i]) {
      assert BeforeCurrent(threads, finished[i]);
    }
  }

  lemma CallKeepsHistory(ops: seq<Op>, threads: seq<Thread>, finished: seq<Return>, t: nat, metric: string,
                         labels: string)
    requires t < |threads| && HistoryInv(ops, threads, finished) && threads[t].pc.Idle?
    ensures HistoryInv(ops, threads[t := Thread(ReadLock, metric, labels, |ops|, 0)], finished)
  {
    var threads' := threads[t := Thread(ReadLock, metric, labels, |ops|, 0)];
    assert SettledThreads(threads') == SettledThreads(threads);
    forall u | 0 <= u < |threads| ensures CallInv(ops, threads', u) { assert CallInv(ops, threads, u); }
    forall i | 0 <= i < |finished| ensures BeforeCurrent(threads', finished[i]) {
      assert BeforeCurrent(threads, finished[i]) && ReturnInv(ops, finished[i]);
    }
  }

  lemma SettleKeepsHistory(ops: seq<Op>, threads: seq<Thread>, finished: seq<Return>, t: nat, pc: Pc)
    requires t < |threads| && HistoryInv(ops, threads, finished)
    requires !threads[t].pc.Idle? && !threads[t].pc.Settled() && pc.Settled()
    ensures HistoryInv(ops + [Op(t, threads[t].metric, threads[t].labels, pc.Result())],
                       threads[t := threads[t].(pc := pc, point := |ops|)], finished)
  {
    var ops' := ops + [Op(t, threads[t].metric, threads[t].labels, pc.Result())];
    var threads' := threads[t := threads[t].(pc := pc, point := |ops|)];
    assert SettledThreads(threads') == SettledThreads(threads) + {t};
    forall u | 0 <= u < |threads| ensures CallInv(ops', threads', u) { assert CallInv(ops, threads, u); }
    forall i | 0 <= i < |finished| ensures BeforeCurrent(threads', finished[i]) && ReturnInv(ops', finished[i]) {
      assert BeforeCurrent(threads, finished[i]) && ReturnInv(ops, finished[i]);
    }
  }

  lemma FinishKeepsHistory(ops: seq<Op>, threads: seq<Thread>, finished: seq<Return>, t: nat)
    requires t < |threads| && HistoryInv(ops, threads, finished) && threads[t].pc.Settled()
    ensures var th := threads[t];
            HistoryInv(ops, threads[t := th.(pc := Idle)],
                       finished + [Return(Op(t, th.metric, th.labels, th.pc.Result()), th.invoked, th.point, |ops|)])
  {
    var th := threads[t];
    var threads' := threads[t := th.(pc := Idle)];
    var finished' := finished + [Return(Op(t, th.metric, th.labels, th.pc.Result()), th.invoked, th.point, |ops|)];
    assert SettledThreads(threads') == SettledThreads(threads) - {t};
    assert CallInv(ops, threads, t);
    forall u | 0 <= u < |threads| ensures CallInv(ops, threads', u) { assert CallInv(ops, threads, u); }
    forall i | 0 <= i < |finished'| ensures BeforeCurrent(threads', finished'[i]) && ReturnInv(ops, finished'[i]) {
      if i < |finished| { assert BeforeCurrent(threads, finished[i]) && ReturnInv(ops, finished[i]); }
    }
    forall i, j | 0 <= i < j < |finished'| && finished'[i].op.thread == finished'[j].op.thread
      ensures finished'[i].returned <= finished'[j].invoked
    {
      assert BeforeCurrent(threads, finished[i]);
    }
  }

  lemma StepKeepsHistory(s: State, a: Action)
    requires HistoryInv(s.ops, s.threads, s.finished)
    ensures var s' := Step(s, a); HistoryInv(s'.ops, s'.threads, s'.finished)
  {
    hide HistoryInv;
    if a.thread < |s.threads| {
      var t := a.thread;
      var th := s.threads[t];
      match a {
        case Call(_, metric, labels) =>
          if th.pc.Idle? { CallKeepsHistory(s.ops, s.threads, s.finished, t, metric, labels); }
        case Run(_) =>
          var s' := Step(s, a);
          if th.pc.Settled() {
            FinishKeepsHistory(s.ops, s.threads, s.finished, t);
          } else if s'.threads[t].pc.Settled() {
            SettleKeepsHistory(s.ops, s.threads, s.finished, t, s'.threads[t].pc);
          } else if s'.threads != s.threads {
            MoveKeepsHistory(s.ops, s.threads, s.finished, t, s'.threads[t].pc);
          }
      }
    }
  }

  /** The invariants hold after every schedule. */
  lemma {:induction false} ExecuteKeepsInv(s: State, schedule: seq<Action>)
    requires Inv(s)
    ensures Inv(Execute(s, schedule))
    decreases |schedule|
  {
    hide LockInv, DataInv, HistoryInv, Step;
    if schedule != [] {
      StepKeepsLock(s, schedule[0]);
      StepKeepsData(s, schedule[0]);
      StepKeepsHistory(s, schedule[0]);
      ExecuteKeepsInv(Step(s, schedule[0]), schedule[1..]);
    }
  }

  // ----- what every schedule guarantees -----

  // a state reached from the initial one by some schedule
  ghost predicate Reached(max: int, threads: nat, schedule: seq<Action>, s: State) {
    s == Execute(Initial(max, threads), schedule)
  }

  /**
   * Linearizability: the calls take effect one at a time with the answers of the atomic bounded insert,
   * each between its start and its return and each once; a call that returned before another started
   * took effect before it. When no call is in flight the history holds the finished calls and no others.
   */
  lemma GuardIsLinearizable(max: int, threads: nat, schedule: seq<Action>, s: State)
    requires Reached(max, threads, schedule, s)
    ensures Legal(s.ops, s.max)
    ensures forall i :: 0 <= i < |s.finished| ==> ReturnInv(s.ops, s.finished[i])
    ensures forall i, j :: && 0 <= i < |s.finished| && 0 <= j < |s.finished|
                           && s.finished[i].returned <= s.finished[j].invoked
                           ==> s.finished[i].point < s.finished[j].point
    ensures forall i, j :: 0 <= i < j < |s.finished| ==> s.finished[i].point != s.finished[j].point
    ensures (forall t :: 0 <= t < |s.threads| ==> s.threads[t].pc.Idle?) ==> |s.ops| == |s.finished|
  {
    InitialInv(max, threads);
    ExecuteKeepsInv(Initial(max, threads), schedule);
    if forall t :: 0 <= t < |s.threads| ==> s.threads[t].pc.Idle? {
      assert SettledThreads(s.threads) == {};
    }
    forall i, j | 0 <= i < j < |s.finished| ensures s.finished[i].point != s.finished[j].point {
      assert ReturnInv(s.ops, s.finished[i]) && ReturnInv(s.ops, s.finished[j]);
    }
    forall i, j | 0 <= i < |s.finished| && 0 <= j < |s.finished| && s.finished[i].returned <= s.finished[j].invoked
      ensures s.finished[i].point < s.finished[j].point
    {
      assert ReturnInv(s.ops, s.finished[i]) && ReturnInv(s.ops, s.finished[j]);
    }
  }

  /** No metric ever holds more label sets than the bound. */
  lemma SeenIsBounded(max: int, threads: nat, schedule: seq<Action>, s: State, metric: string)
    requires Reached(max, threads, schedule, s)
    ensures |s.Seen(metric)| <= (if max <= 0 then 1000 else max)
  {
    InitialInv(max, threads);
    ExecuteKeepsInv(Initial(max, threads), schedule);
    ExecuteKeepsMax(Initial(max, threads), schedule);
    LegalBound(s.ops, s.max, metric);
  }

  lemma {:induction false} ExecuteKeepsMax(s: State, schedule: seq<Action>)
    ensures Execute(s, schedule).max == s.max
    decreases |schedule|
  {
    if schedule != [] {
      ExecuteKeepsMax(Step(s, schedule[0]), schedule[1..]);
    }
  }

  /** A label set stays in, whatever is scheduled next. */
  lemma {:induction false} SeenGrows(s: State, schedule: seq<Action>, metric: string)
    ensures s.Seen(metric) <= Execute(s, schedule).Seen(metric)
    decreases |schedule|
  {
    if schedule != [] {
      StepAndSeen(s, schedule[0], metric);
      hide Step;
      SeenGrows(Step(s, schedule[0]), schedule[1..], metric);
    }
  }

  /** A label set that was once admitted is admitted in every call that starts after that answer. */
  lemma AdmittedAgain(max: int, threads: nat, schedule: seq<Action>, s: State, i: nat, j: nat)
    requires Reached(max, threads, schedule, s) && i < |s.finished| && j < |s.finished|
    requires s.finished[i].returned <= s.finished[j].invoked && s.finished[i].op.admitted
    requires s.finished[i].op.metric == s.finished[j].op.metric && s.finished[i].op.labels == s.finished[j].op.labels
    ensures s.finished[j].op.admitted
  {
    GuardIsLinearizable(max, threads, schedule, s);
    assert ReturnInv(s.ops, s.finished[i]) && ReturnInv(s.ops, s.finished[j]);
    AdmittedForGood(s.ops, s.max, s.finished[i].point, s.finished[j].point);
  }

  /** How many finished calls for a metric were turned away. */
  function Refusals(finished: seq<Return>, metric: string): nat {
    if finished == [] then 0
    else
      var last := finished[|finished| - 1].op;
      Refusals(finished[..|finished| - 1], metric) + (if last.metric == metric && !last.admitted then 1 else 0)
  }

  ghost function RefusedThreads(threads: seq<Thread>, metric: string): set<nat> {
    set t | 0 <= t < |threads| && threads[t].metric == metric && threads[t].pc == WriteUnlock(false)
  }

  ghost predicate RefusalInv(ops: seq<Op>, threads: seq<Thread>, finished: seq<Return>, metric: string) {
    Drops(ops, metric) == Refusals(finished, metric) + |RefusedThreads(threads, metric)|
  }

  /** Thread t becomes, stays or stops being one that is about to return false. */
  lemma RefusedThreadsUpdate(threads: seq<Thread>, t: nat, th: Thread, metric: string)
    requires t < |threads|
    ensures var before, after := RefusedThreads(threads, metric), RefusedThreads(threads[t := th], metric);
            |after| == |before| - (if t in before then 1 else 0)
                       + (if th.metric == metric && th.pc == WriteUnlock(false) then 1 else 0)
  {
    var before, after := RefusedThreads(threads, metric), RefusedThreads(threads[t := th], metric);
    assert after - {t} == before - {t};
    assert t in after <==> th.metric == metric && th.pc == WriteUnlock(false);
    hide RefusedThreads;
    AddOne(before - {t}, t);
    AddOne(after - {t}, t);
    assert before == (before - {t}) + {t} || before == before - {t};
    assert after == (after - {t}) + {t} || after == after - {t};
  }

  lemma MoveKeepsRefusals(ops: seq<Op>, threads: seq<Thread>, finished: seq<Return>, t: nat, th: Thread, metric: string)
    requires t < |threads| && RefusalInv(ops, threads, finished, metric)
    requires !threads[t].pc.WriteUnlock? && !th.pc.WriteUnlock?
    ensures RefusalInv(ops, threads[t := th], finished, metric)
  {
    RefusedThreadsUpdate(threads, t, th, metric);
  }

  lemma SettleKeepsRefusals(ops: seq<Op>, threads: seq<Thread>, finished: seq<Return>, t: nat, pc: Pc, metric: string)
    requires t < |threads| && RefusalInv(ops, threads, finished, metric)
    requires !threads[t].pc.Settled() && pc.Settled()
    ensures RefusalInv(ops + [Op(t, threads[t].metric, threads[t].labels, pc.Result())],
                       threads[t := threads[t].(pc := pc, point := |ops|)], finished, metric)
  {
    hide Drops, Refusals;
    RefusedThreadsUpdate(threads, t, threads[t].(pc := pc, point := |ops|), metric);
    DropsSnoc(ops, Op(t, threads[t].metric, threads[t].labels, pc.Result()), metric);
  }

  lemma FinishKeepsRefusals(ops: seq<Op>, threads: seq<Thread>, finished: seq<Return>, t: nat, metric: string)
    requires t < |threads| && RefusalInv(ops, threads, finished, metric) && threads[t].pc.Settled()
    ensures var th := threads[t];
            var answer := Return(Op(t, th.metric, th.labels, th.pc.Result()), th.invoked, th.point, |ops|);
            RefusalInv(ops, threads[t := th.(pc := Idle)], finished + [answer], metric)
  {
    hide Drops, Refusals;
    var th := threads[t];
    RefusedThreadsUpdate(threads, t, th.(pc := Idle), metric);
    RefusalsSnoc(finished, Return(Op(t, th.metric, th.labels, th.pc.Result()), th.invoked, th.point, |ops|), metric);
  }

  lemma StepKeepsRefusals(s: State, a: Action, metric: string)
    requires RefusalInv(s.ops, s.threads, s.finished, metric)
    ensures var s' := Step(s, a); RefusalInv(s'.ops, s'.threads, s'.finished, metric)
  {
    hide RefusalInv;
    if a.thread < |s.threads| {
      var t := a.thread;
      var th := s.threads[t];
      match a {
        case Call(_, m, labels) =>
          if th.pc.Idle? {
            MoveKeepsRefusals(s.ops, s.threads, s.finished, t, Thread(ReadLock, m, labels, |s.ops|, 0), metric);
          }
        case Run(_) =>
          var s' := Step(s, a);
          if th.pc.Settled() {
            FinishKeepsRefusals(s.ops, s.threads, s.finished, t, metric);
          } else if s'.threads[t].pc.Settled() {
            SettleKeepsRefusals(s.ops, s.threads, s.finished, t, s'.threads[t].pc, metric);
          } else if s'.threads != s.threads {
            MoveKeepsRefusals(s.ops, s.threads, s.finished, t, s'.threads[t], metric);
          }
      }
    }
  }

  lemma DropsSnoc(ops: seq<Op>, op: Op, metric: string)
    ensures Drops(ops + [op], metric) == Drops(ops, metric) + (if op.metric == metric && !op.admitted then 1 else 0)
  {
    assert (ops + [op])[..|ops|] == ops;
  }

  lemma RefusalsSnoc(finished: seq<Return>, r: Return, metric: string)
    ensures Refusals(finished + [r], metric)
         == Refusals(finished, metric) + (if r.op.metric == metric && !r.op.admitted then 1 else 0)
  {
    assert (finished + [r])[..|finished|] == finished;
  }

  lemma {:induction false} ExecuteKeepsRefusals(s: State, schedule: seq<Action>, metric: string)
    requires RefusalInv(s.ops, s.threads, s.finished, metric)
    ensures var s' := Execute(s, schedule); RefusalInv(s'.ops, s'.threads, s'.finished, metric)
    decreases |schedule|
  {
    hide RefusalInv, Step;
    if schedule != [] {
      StepKeepsRefusals(s, schedule[0], metric);
      ExecuteKeepsRefusals(Step(s, schedule[0]), schedule[1..], metric);
    }
  }

  /** When no call is in flight the drop counter of a metric is the number of calls that were turned away. */
  lemma DroppedCountsRefusals(max: int, threads: nat, schedule: seq<Action>, s: State, metric: string)
    requires Reached(max, threads, schedule, s)
    requires forall t :: 0 <= t < |s.threads| ==> s.threads[t].pc.Idle?
    ensures s.Dropped(metric) == Refusals(s.finished, metric)
  {
    InitialInv(max, threads);
    ExecuteKeepsInv(Initial(max, threads), schedule);
    assert RefusedThreads(Initial(max, threads).threads, metric) == {};
    ExecuteKeepsRefusals(Initial(max, threads), schedule, metric);
    assert RefusedThreads(s.threads, metric) == {};
  }
}
