/**
 * Walking the boot error record table: the exporter's counter (exporter/collectors/apei.go) and the
 * textfile reader (apei/bert_reader.py) go over the same records with different header sizes.
 */
module Cper {
  import opened Wrappers
  import opened SeverityLabels

  const ACPI_HEADER := 36
  const BERT_BODY := 12

  /** The header size of the Go walk, and the one that the format string of the Python walk adds up to. */
  const GO_HEADER := 128
  const PY_HEADER := 100

  /** Where the Python walk looks for section descriptors, and the size of its descriptor format. */
  const PY_SECTIONS := 128
  const PY_DESCRIPTOR := 38

  function Le16(d: seq<byte>, o: nat): nat
    requires o + 2 <= |d|
  {
    d[o] as nat + 0x100 * d[o + 1] as nat
  }

  function Le32(d: seq<byte>, o: nat): nat
    requires o + 4 <= |d|
  {
    Le16(d, o) + 0x1_0000 * Le16(d, o + 2)
  }

  function Le64(d: seq<byte>, o: nat): nat
    requires o + 8 <= |d|
  {
    Le32(d, o) + 0x1_0000_0000 * Le32(d, o + 4)
  }

  /** "CPER" */
  predicate Signed(d: seq<byte>, o: nat)
    requires o + 4 <= |d|
  {
    d[o..o + 4] == [0x43, 0x50, 0x45, 0x52]
  }

  // ----- the Go walk -----

  /** The raw severities that the Go walk visits from `offset` on. */
  function GoWalk(region: seq<byte>, offset: nat): seq<nat>
    decreases |region| - offset
  {
    if offset + GO_HEADER > |region| || !Signed(region, offset) then []
    else
      var length := Le32(region, offset + 20);
      [Le32(region, offset + 24)] + (if length < GO_HEADER then [] else GoWalk(region, offset + length))
  }

  /** Which bytes the Go walk takes for the boot error region. */
  function GoRegion(data: seq<byte>): Result<seq<byte>> {
    if |data| < ACPI_HEADER + BERT_BODY then Err
    else
      var length, offset := Le32(data, ACPI_HEADER), Le64(data, ACPI_HEADER + 4);
      if offset > |data| then Err
      else if offset > 0 && offset + GO_HEADER <= |data| && offset < |data| && length <= |data| - offset
      then Ok(data[offset..offset + length])
      else Ok(data[ACPI_HEADER + BERT_BODY..])
  }

  method ParseBertRecordCounts(data: seq<byte>) returns (r: Result<map<string, nat>>)
    ensures r.Ok? <==> GoRegion(data).Ok?
    ensures r.Ok? ==> Tallies(r.value, GoWalk(GoRegion(data).value, 0))
    ensures r.Ok? ==> Labelled(r.value, GoWalk(GoRegion(data).value, 0))
  {
    var found := GoRegion(data);
    if found.Err? {
      return Err;
    }
    var counts := CountRecords(found.value);
    LabelsMeaning(counts, GoWalk(found.value, 0));
    return Ok(counts);
  }

  method CountRecords(region: seq<byte>) returns (counts: map<string, nat>)
    ensures Tallies(counts, GoWalk(region, 0))
  {
    hide SeverityName, Tallies, Le32, Signed, Bump, GoWalk;
    counts := map[];
    EmptyTally();
    var offset := 0;
    ghost var visited: seq<nat> := [];
    while offset + GO_HEADER <= |region|
      invariant Tallies(counts, visited)
      invariant visited + GoWalk(region, offset) == GoWalk(region, 0)
      decreases |region| - offset
    {
      GoWalkStep(region, offset);
      if !Signed(region, offset) {
        break;
      }
      var length := Le32(region, offset + 20);
      var severity := Le32(region, offset + 24);
      BumpTallies(counts, visited, severity);
      counts := Bump(counts, SeverityName(severity));
      ghost var next := visited + [severity];
      if length < GO_HEADER {
        assert next == visited + GoWalk(region, offset);
        return;
      }
      assert next + GoWalk(region, offset + length) == visited + ([severity] + GoWalk(region, offset + length));
      visited := next;
      offset := offset + length;
    }
    GoWalkStep(region, offset);
    assert visited + [] == visited;
  }

  lemma GoWalkStep(region: seq<byte>, offset: nat)
    ensures offset + GO_HEADER > |region| || !Signed(region, offset) ==> GoWalk(region, offset) == []
    ensures offset + GO_HEADER <= |region| && Signed(region, offset) ==>
              var length := Le32(region, offset + 20);
              GoWalk(region, offset)
                == [Le32(region, offset + 24)] + (if length < GO_HEADER then [] else GoWalk(region, offset + length))
  {}

  // ----- the Python walk -----

  datatype Section = Section(guid: seq<byte>, length: nat, offsetInRecord: nat)

  datatype Record = Record(severity: nat, sectionCount: nat, recordLength: nat, sections: seq<Section>)

  /** Up to `count` section descriptors from `at` on, as far as they lie inside the region. */
  function PySections(region: seq<byte>, at: nat, count: nat): (sections: seq<Section>)
    decreases count
  {
    if count == 0 || at + PY_DESCRIPTOR > |region| then []
    else [Section(region[at + 4..at + 20], Le16(region, at + 4), Le32(region, at))]
         + PySections(region, at + PY_DESCRIPTOR, count - 1)
  }

  function PyRecord(region: seq<byte>, offset: nat): Record
    requires offset + PY_HEADER <= |region|
  {
    var count := Le16(region, offset + 18);
    Record(Le32(region, offset + 24), count, Le32(region, offset + 20), PySections(region, offset + PY_SECTIONS, count))
  }

  function PyWalk(region: seq<byte>, offset: nat): seq<Record>
    decreases |region| - offset
  {
    if offset + PY_HEADER > |region| || !Signed(region, offset) then []
    else
      var record := PyRecord(region, offset);
      [record] + (if record.recordLength < PY_HEADER then [] else PyWalk(region, offset + record.recordLength))
  }

  /** The inner loop over the section descriptors of one record. */
  method ReadSections(region: seq<byte>, start: nat, count: nat) returns (sections: seq<Section>)
    ensures sections == PySections(region, start, count)
  {
    hide Le16, Le32;
    sections := [];
    var at: nat := start;
    for i := 0 to count
      invariant sections + PySections(region, at, count - i) == PySections(region, start, count)
    {
      if at + PY_DESCRIPTOR > |region| {
        assert sections + [] == sections;
        return;
      }
      sections := sections + [Section(region[at + 4..at + 20], Le16(region, at + 4), Le32(region, at))];
      at := at + PY_DESCRIPTOR;
    }
    assert sections + [] == sections;
  }

  method ParseCperRecords(region: seq<byte>) returns (records: seq<Record>)
    ensures records == PyWalk(region, 0)
  {
    hide Le16, Le32, Signed, PyWalk, PySections;
    records := [];
    var offset := 0;
    while offset + PY_HEADER <= |region|
      invariant records + PyWalk(region, offset) == PyWalk(region, 0)
      decreases |region| - offset
    {
      PyWalkStep(region, offset);
      if !Signed(region, offset) {
        break;
      }
      var count := Le16(region, offset + 18);
      var sections := ReadSections(region, offset + PY_SECTIONS, count);
      var record := Record(Le32(region, offset + 24), count, Le32(region, offset + 20), sections);
      var next := records + [record];
      if record.recordLength < PY_HEADER {
        assert next == records + PyWalk(region, offset);
        records := next;
        return;
      }
      assert next + PyWalk(region, offset + record.recordLength)
          == records + ([record] + PyWalk(region, offset + record.recordLength));
      records := next;
      offset := offset + record.recordLength;
    }
    PyWalkStep(region, offset);
    assert records + [] == records;
  }

  lemma PyWalkStep(region: seq<byte>, offset: nat)
    ensures offset + PY_HEADER > |region| || !Signed(region, offset) ==> PyWalk(region, offset) == []
    ensures offset + PY_HEADER <= |region| && Signed(region, offset) ==>
              var record := PyRecord(region, offset);
              PyWalk(region, offset)
                == [record]
                   + (if record.recordLength < PY_HEADER then [] else PyWalk(region, offset + record.recordLength))
  {}

  /**
   * A record lists as many sections as it announces, or as fit between its fixed descriptor start and the
   * region's end.
   */
  lemma {:induction false} SectionsFit(region: seq<byte>, at: nat, count: nat)
    ensures var room := if at > |region| then 0 else (|region| - at) / PY_DESCRIPTOR;
            |PySections(region, at, count)| == if count <= room then count else room
    decreases count
  {
    if count > 0 && at + PY_DESCRIPTOR <= |region| { SectionsFit(region, at + PY_DESCRIPTOR, count - 1); }
  }

  // ----- the two walks compared -----

  function Severities(records: seq<Record>): (s: seq<nat>)
    ensures |s| == |records|
  {
    if records == [] then [] else [records[0].severity] + Severities(records[1..])
  }

  /** On any bytes what the Go walk sees is the beginning of what the Python walk sees. */
  lemma {:induction false} GoWalkIsPrefix(region: seq<byte>, offset: nat)
    ensures GoWalk(region, offset) <= Severities(PyWalk(region, offset))
    decreases |region| - offset
  {
    hide Le16, Le32, Signed, PySections;
    if offset + GO_HEADER <= |region| && Signed(region, offset) {
      var length := Le32(region, offset + 20);
      var records := PyWalk(region, offset);
      assert Severities(records) == [Le32(region, offset + 24)] + Severities(records[1..]);
      if length >= GO_HEADER {
        GoWalkIsPrefix(region, offset + length);
        assert records[1..] == PyWalk(region, offset + length);
      }
    }
  }

  /** The offsets of the records that the Python walk visits. */
  function Visited(region: seq<byte>, offset: nat): seq<nat>
    decreases |region| - offset
  {
    if offset + PY_HEADER > |region| || !Signed(region, offset) then []
    else
      var length := Le32(region, offset + 20);
      [offset] + (if length < PY_HEADER then [] else Visited(region, offset + length))
  }

  lemma {:induction false} VisitedInside(region: seq<byte>, offset: nat)
    ensures forall k :: 0 <= k < |Visited(region, offset)| ==> Visited(region, offset)[k] + PY_HEADER <= |region|
    decreases |region| - offset
  {
    hide Le32, Signed;
    if Visited(region, offset) != [] && Le32(region, offset + 20) >= PY_HEADER {
      VisitedInside(region, offset + Le32(region, offset + 20));
    }
  }

  /** A visited record that the Go walk visits too, and behind which it goes on if the Python walk does. */
  ghost predicate FullRecord(region: seq<byte>, at: nat, last: bool)
    requires at + PY_HEADER <= |region|
  {
    at + GO_HEADER <= |region| && (last || Le32(region, at + 20) >= GO_HEADER)
  }

  /** Every visited record has room for a header of 128 bytes, and all but the last state at least that length. */
  ghost predicate AllFull(region: seq<byte>, offset: nat) {
    VisitedInside(region, offset);
    var visited := Visited(region, offset);
    forall k :: 0 <= k < |visited| ==> FullRecord(region, visited[k], k == |visited| - 1)
  }

  lemma AllFullStep(region: seq<byte>, offset: nat)
    requires offset + PY_HEADER <= |region| && Signed(region, offset)
    ensures var length := Le32(region, offset + 20);
            var more := if length < PY_HEADER then [] else Visited(region, offset + length);
            AllFull(region, offset)
            <==> FullRecord(region, offset, more == []) && (more != [] ==> AllFull(region, offset + length))
  {
    hide Le32, Signed, FullRecord;
    var length := Le32(region, offset + 20);
    var visited := Visited(region, offset);
    var more := if length < PY_HEADER then [] else Visited(region, offset + length);
    VisitedInside(region, offset);
    assert visited == [offset] + more;
    assert forall k :: 0 <= k < |more| ==> visited[k + 1] == more[k];
    if AllFull(region, offset) {
      assert FullRecord(region, visited[0], 0 == |visited| - 1);
      forall k | 0 <= k < |more| ensures FullRecord(region, more[k], k == |more| - 1) {
        assert FullRecord(region, visited[k + 1], k + 1 == |visited| - 1);
      }
    }
  }

  /** The two walks see the same severities exactly when all visited records are full: on any bytes, from any offset. */
  lemma {:induction false} WalksAgreeExactly(region: seq<byte>, offset: nat)
    ensures GoWalk(region, offset) == Severities(PyWalk(region, offset)) <==> AllFull(region, offset)
    ensures |Visited(region, offset)| == |PyWalk(region, offset)|
    decreases |region| - offset
  {
    hide Le16, Le32, Signed, PySections, AllFull;
    if offset + PY_HEADER <= |region| && Signed(region, offset) {
      AllFullStep(region, offset);
      var length := Le32(region, offset + 20);
      var records := PyWalk(region, offset);
      assert Severities(records) == [Le32(region, offset + 24)] + Severities(records[1..]);
      GoWalkStep(region, offset);
      if length >= PY_HEADER {
        WalksAgreeExactly(region, offset + length);
        assert records[1..] == PyWalk(region, offset + length);
        SameTail(Le32(region, offset + 24), GoWalk(region, offset + length), Severities(records[1..]));
        SameTail(Le32(region, offset + 24), [], Severities(records[1..]));
      }
    } else {
      NothingVisited(region, offset);
      GoWalkStep(region, offset);
    }
  }

  lemma SameTail<T>(x: T, a: seq<T>, b: seq<T>)
    ensures [x] + a == [x] + b <==> a == b
  {
    assert ([x] + a)[1..] == a && ([x] + b)[1..] == b;
  }

  lemma NothingVisited(region: seq<byte>, offset: nat)
    requires offset + PY_HEADER > |region| || !Signed(region, offset)
    ensures Visited(region, offset) == [] && AllFull(region, offset)
  {
  }

  predicate HeaderAt(region: seq<byte>, offset: nat) { offset + 100 <= |region| && Signed(region, offset) }

  /**
   * The two ways to differ: a record with less than 128 bytes left, which only the Python walk sees, and a record
   * that states a length of 100 to 127 and is followed by another one, where only the Python walk goes on.
   */
  lemma WalksDiffer(region: seq<byte>, offset: nat)
    requires HeaderAt(region, offset)
    ensures offset + 128 > |region| ==> GoWalk(region, offset) == [] && PyWalk(region, offset) != []
    ensures var length := Le32(region, offset + 20);
            offset + 128 <= |region| && 100 <= length < 128 && HeaderAt(region, offset + length)
            ==> |GoWalk(region, offset)| == 1 && |PyWalk(region, offset)| >= 2
  {
    hide Le32, Signed, GoWalk, PyWalk;
    GoWalkStep(region, offset);
    PyWalkStep(region, offset);
    PyWalkStep(region, offset + Le32(region, offset + 20));
  }

  // ----- well-formed records -----

  /** A signed record that states its own length. */
  predicate WellFormed(record: seq<byte>) {
    |record| >= GO_HEADER && Signed(record, 0) && Le32(record, 20) == |record|
  }

  function Concat(records: seq<seq<byte>>): seq<byte> {
    if records == [] then [] else records[0] + Concat(records[1..])
  }

  function RawSeverities(records: seq<seq<byte>>): seq<nat>
    requires forall i :: 0 <= i < |records| ==> WellFormed(records[i])
  {
    if records == [] then [] else assert WellFormed(records[0]); [Le32(records[0], 24)] + RawSeverities(records[1..])
  }

  lemma Le32Inside(prefix: seq<byte>, record: seq<byte>, rest: seq<byte>, o: nat)
    requires o + 4 <= |record|
    ensures Le32(prefix + record + rest, |prefix| + o) == Le32(record, o)
  {
    var d := prefix + record + rest;
    assert d[|prefix| + o] == record[o] && d[|prefix| + o + 1] == record[o + 1];
    assert d[|prefix| + o + 2] == record[o + 2] && d[|prefix| + o + 3] == record[o + 3];
  }

  lemma RecordInside(prefix: seq<byte>, record: seq<byte>, rest: seq<byte>)
    requires WellFormed(record)
    ensures var region, at := prefix + record + rest, |prefix|;
            && at + GO_HEADER <= |region| && Signed(region, at)
            && Le32(region, at + 20) == |record| && Le32(region, at + 24) == Le32(record, 24)
  {
    Le32Inside(prefix, record, rest, 20);
    Le32Inside(prefix, record, rest, 24);
    assert (prefix + record + rest)[|prefix|..|prefix| + 4] == record[0..4];
  }

  /** Both walks visit exactly the records of a well-formed region, in order. */
  lemma {:induction false} WalksVisitEveryRecord(prefix: seq<byte>, records: seq<seq<byte>>)
    requires forall i :: 0 <= i < |records| ==> WellFormed(records[i])
    ensures GoWalk(prefix + Concat(records), |prefix|) == RawSeverities(records)
    ensures Severities(PyWalk(prefix + Concat(records), |prefix|)) == RawSeverities(records)
    decreases |records|
  {
    hide Le16, Le32, PySections, Signed, GoWalk, PyWalk;
    var region := prefix + Concat(records);
    GoWalkStep(region, |prefix|);
    PyWalkStep(region, |prefix|);
    if records == [] {
      assert region == prefix;
    } else {
      var record, rest := records[0], Concat(records[1..]);
      assert WellFormed(record);
      assert region == prefix + record + rest;
      RecordInside(prefix, record, rest);
      assert region == (prefix + record) + rest;
      WalksVisitEveryRecord(prefix + record, records[1..]);
      hide WellFormed, Concat;
      var seen := PyWalk(region, |prefix|);
      assert seen[1..] == PyWalk(region, |prefix| + |record|);
    }
  }

  /** Which bytes the Python reader takes for the region. */
  function PyRegion(data: seq<byte>): Result<seq<byte>> {
    if |data| < ACPI_HEADER + BERT_BODY then Err
    else
      var length, offset := Le32(data, ACPI_HEADER), Le64(data, ACPI_HEADER + 4);
      if offset > 0 then Ok(Slice(data, offset, offset + length)) else Ok(data[ACPI_HEADER + BERT_BODY..])
  }

  /** A Python slice: bounds past the end are cut off. */
  function Slice(d: seq<byte>, lo: nat, hi: nat): seq<byte>
    requires lo <= hi
  {
    if lo >= |d| then [] else if hi >= |d| then d[lo..] else d[lo..hi]
  }

  /**
   * The region lies inside the table with room for one Go header, or what the Python reader cuts out is also
   * what the Go reader falls back to, the bytes behind the table header.
   */
  ghost predicate RegionsMeet(data: seq<byte>) {
    |data| >= ACPI_HEADER + BERT_BODY ==>
      var length, offset, body := Le32(data, ACPI_HEADER), Le64(data, ACPI_HEADER + 4), ACPI_HEADER + BERT_BODY;
      || offset == 0
      || (offset + GO_HEADER <= |data| && offset + length <= |data|)
      || (offset == body && offset + length >= |data|)
      || (offset < body && length == |data| - body && data[offset..offset + length] == data[body..])
  }

  /** Which tables both programs read alike, refusals included. */
  lemma RegionsAgreeExactly(data: seq<byte>)
    ensures GoRegion(data) == PyRegion(data) <==> RegionsMeet(data)
  {
    hide Le32, Le64;
    if |data| >= ACPI_HEADER + BERT_BODY {
      var length, offset, body := Le32(data, ACPI_HEADER), Le64(data, ACPI_HEADER + 4), ACPI_HEADER + BERT_BODY;
      if 0 < offset <= |data| && !(offset + GO_HEADER <= |data| && offset + length <= |data|) {
        var cut := Slice(data, offset, offset + length);
        assert GoRegion(data) == Ok(data[body..]) && PyRegion(data) == Ok(cut);
        assert |data[body..]| == |data| - body;
        assert |cut| == if offset + length >= |data| then |data| - offset else length;
      } else if offset + length == |data| && offset < |data| {
        assert data[offset..] == data[offset..offset + length];
      }
    }
  }

  /**
   * Whenever both programs read the same region and it is made of well-formed records, the one counts and the
   * other lists all of them.
   */
  lemma ProgramsAgree(data: seq<byte>, records: seq<seq<byte>>)
    requires RegionsMeet(data) && PyRegion(data) == Ok(Concat(records))
    requires forall i :: 0 <= i < |records| ==> WellFormed(records[i])
    ensures GoRegion(data) == PyRegion(data)
    ensures GoWalk(GoRegion(data).value, 0) == RawSeverities(records) == Severities(PyWalk(PyRegion(data).value, 0))
  {
    hide Le16, Le32, Le64, Signed, PyWalk, GoWalk, RegionsMeet;
    RegionsAgreeExactly(data);
    WalksVisitEveryRecord([], records);
    assert [] + Concat(records) == Concat(records);
  }
}
