/**
 * The layout that both walks read, told from the writer's side: bytes laid out like this are read back field by field
 * (exporter/collectors/apei.go, apei/bert_reader.py).
 */
module CperEncoding {
  import opened Wrappers
  import opened Cper

  // ----- little-endian numbers -----

  function Bytes16(n: nat): (b: seq<byte>)
    requires n < 0x1_0000
    ensures |b| == 2
  {
    [(n % 256) as byte, (n / 256) as byte]
  }

  function Bytes32(n: nat): (b: seq<byte>)
    requires n < 0x1_0000_0000
    ensures |b| == 4
  {
    Bytes16(n % 0x1_0000) + Bytes16(n / 0x1_0000)
  }

  function Bytes64(n: nat): (b: seq<byte>)
    requires n < 0x1_0000_0000_0000_0000
    ensures |b| == 8
  {
    Bytes32(n % 0x1_0000_0000) + Bytes32(n / 0x1_0000_0000)
  }

  /** A number is written as its least significant byte first. */
  lemma Read16(d: seq<byte>, o: nat, n: nat)
    requires n < 0x1_0000 && o + 2 <= |d| && d[o..o + 2] == Bytes16(n)
    ensures Le16(d, o) == n
  {
    assert d[o] == Bytes16(n)[0] && d[o + 1] == Bytes16(n)[1];
  }

  lemma Read32(d: seq<byte>, o: nat, n: nat)
    requires n < 0x1_0000_0000 && o + 4 <= |d| && d[o..o + 4] == Bytes32(n)
    ensures Le32(d, o) == n
  {
    var b := Bytes32(n);
    assert b[..2] == Bytes16(n % 0x1_0000) && b[2..] == Bytes16(n / 0x1_0000);
    assert d[o..o + 2] == d[o..o + 4][..2] && d[o + 2..o + 2 + 2] == d[o..o + 4][2..];
    hide Le16, Bytes16, Bytes32;
    Read16(d, o, n % 0x1_0000);
    Read16(d, o + 2, n / 0x1_0000);
  }

  lemma Read64(d: seq<byte>, o: nat, n: nat)
    requires n < 0x1_0000_0000_0000_0000 && o + 8 <= |d| && d[o..o + 8] == Bytes64(n)
    ensures Le64(d, o) == n
  {
    var b := Bytes64(n);
    assert b[..4] == Bytes32(n % 0x1_0000_0000) && b[4..] == Bytes32(n / 0x1_0000_0000);
    assert d[o..o + 4] == d[o..o + 8][..4] && d[o + 4..o + 4 + 4] == d[o..o + 8][4..];
    hide Le32, Bytes32, Bytes64;
    Read32(d, o, n % 0x1_0000_0000);
    Read32(d, o + 4, n / 0x1_0000_0000);
  }

  /** A part of the bytes that starts behind `before`. */
  lemma Part(d: seq<byte>, before: seq<byte>, part: seq<byte>, after: seq<byte>)
    requires d == before + part + after
    ensures |d| == |before| + |part| + |after| && d[|before|..|before| + |part|] == part
  {
  }

  // ----- section descriptors -----

  /** A descriptor as the Python walk reads it: an offset, then sixteen bytes whose first two are also the length. */
  datatype Descriptor = Descriptor(offset: nat, guid: seq<byte>, rest: seq<byte>) {
    ghost predicate Fits() { offset < 0x1_0000_0000 && |guid| == 16 && |rest| == 18 }

    function Bytes(): (b: seq<byte>)
      requires Fits()
      ensures |b| == 38
    {
      Bytes32(offset) + guid + rest
    }

    function Read(): Section
      requires |guid| == 16
    {
      Section(guid, guid[0] as nat + 256 * guid[1] as nat, offset)
    }
  }

  ghost predicate AllFit(ds: seq<Descriptor>) { forall i :: 0 <= i < |ds| ==> ds[i].Fits() }

  function DescriptorBytes(ds: seq<Descriptor>): (b: seq<byte>)
    requires AllFit(ds)
    ensures |b| == 38 * |ds|
  {
    if ds == [] then [] else ds[0].Bytes() + DescriptorBytes(ds[1..])
  }

  function ReadAll(ds: seq<Descriptor>): seq<Section>
    requires AllFit(ds)
  {
    if ds == [] then [] else [ds[0].Read()] + ReadAll(ds[1..])
  }

  lemma OneSection(before: seq<byte>, d: Descriptor, after: seq<byte>)
    requires d.Fits()
    ensures var region := before + d.Bytes() + after;
            var at := |before|;
            && at + 38 <= |region|
            && Section(region[at + 4..at + 20], Le16(region, at + 4), Le32(region, at)) == d.Read()
  {
    var region, at := before + d.Bytes() + after, |before|;
    var offset := Bytes32(d.offset);
    assert region == before + offset + (d.guid + d.rest + after);
    Part(region, before, offset, d.guid + d.rest + after);
    Read32(region, at, d.offset);
    assert region == (before + offset) + d.guid + (d.rest + after);
    Part(region, before + offset, d.guid, d.rest + after);
    assert region[at + 4] == d.guid[0] && region[at + 5] == d.guid[1] by {
      assert region[at + 4..at + 20] == d.guid;
      assert region[at + 4] == region[at + 4..at + 20][0] && region[at + 5] == region[at + 4..at + 20][1];
    }
  }

  /** Descriptors are read back one after the other. */
  lemma {:induction false} SectionsRoundTrip(before: seq<byte>, ds: seq<Descriptor>, after: seq<byte>)
    requires AllFit(ds)
    ensures PySections(before + DescriptorBytes(ds) + after, |before|, |ds|) == ReadAll(ds)
    decreases |ds|
  {
    hide Le16, Le32, Bytes32;
    if ds != [] {
      var region := before + DescriptorBytes(ds) + after;
      var first, rest := ds[0].Bytes(), DescriptorBytes(ds[1..]);
      assert region == before + first + (rest + after);
      OneSection(before, ds[0], rest + after);
      assert region == (before + first) + rest + after;
      SectionsRoundTrip(before + first, ds[1..], after);
    }
  }

  // ----- records -----

  /** A record: what stands in the fields that the walks read, and the bytes between them. */
  datatype Layout = Layout(severity: nat, descriptors: seq<Descriptor>, gap: seq<byte>, fill: seq<byte>,
                           body: seq<byte>) {
    ghost predicate Fits() {
      && severity < 0x1_0000_0000 && AllFit(descriptors) && |descriptors| < 0x1_0000
      && |gap| == 14 && |fill| == 100 && Size() < 0x1_0000_0000
    }

    function Size(): nat { 128 + 38 * |descriptors| + |body| }
  }

  /** "CPER", the section count at 18, the record's size at 20, the severity at 24, the descriptors at 128. */
  function HeaderBytes(r: Layout): (b: seq<byte>)
    requires r.Fits()
    ensures |b| == 128
  {
    [0x43, 0x50, 0x45, 0x52] + r.gap + Bytes16(|r.descriptors|) + Bytes32(r.Size()) + Bytes32(r.severity) + r.fill
  }

  function RecordBytes(r: Layout): (b: seq<byte>)
    requires r.Fits()
    ensures |b| == r.Size()
  {
    HeaderBytes(r) + DescriptorBytes(r.descriptors) + r.body
  }

  lemma HeaderFields(before: seq<byte>, r: Layout, after: seq<byte>)
    requires r.Fits()
    ensures var region, at := before + HeaderBytes(r) + after, |before|;
            && at + 128 <= |region| && Signed(region, at)
            && Le16(region, at + 18) == |r.descriptors|
            && Le32(region, at + 20) == r.Size() && Le32(region, at + 24) == r.severity
  {
    var region, at := before + HeaderBytes(r) + after, |before|;
    var sign: seq<byte> := [0x43, 0x50, 0x45, 0x52];
    var count, size, severity := Bytes16(|r.descriptors|), Bytes32(r.Size()), Bytes32(r.severity);
    hide Bytes16, Bytes32, Le16, Le32;
    assert region == before + sign + (r.gap + count + size + severity + r.fill + after);
    Part(region, before, sign, r.gap + count + size + severity + r.fill + after);
    assert region == (before + sign + r.gap) + count + (size + severity + r.fill + after);
    Part(region, before + sign + r.gap, count, size + severity + r.fill + after);
    assert region == (before + sign + r.gap + count) + size + (severity + r.fill + after);
    Part(region, before + sign + r.gap + count, size, severity + r.fill + after);
    assert region == (before + sign + r.gap + count + size) + severity + (r.fill + after);
    Part(region, before + sign + r.gap + count + size, severity, r.fill + after);
    Read16(region, at + 18, |r.descriptors|);
    Read32(region, at + 20, r.Size());
    Read32(region, at + 24, r.severity);
  }

  lemma RecordFields(before: seq<byte>, r: Layout, after: seq<byte>)
    requires r.Fits()
    ensures var region, at := before + RecordBytes(r) + after, |before|;
            && at + 128 <= |region| && Signed(region, at)
            && Le16(region, at + 18) == |r.descriptors|
            && Le32(region, at + 20) == r.Size() && Le32(region, at + 24) == r.severity
            && PySections(region, at + 128, |r.descriptors|) == ReadAll(r.descriptors)
  {
    hide Le16, Le32, Signed, PySections, DescriptorBytes, ReadAll, HeaderBytes;
    var sections := DescriptorBytes(r.descriptors);
    Regroup(before, HeaderBytes(r), sections, r.body, after);
    HeaderFields(before, r, sections + r.body + after);
    SectionsRoundTrip(before + HeaderBytes(r), r.descriptors, r.body + after);
  }

  /** A record laid out like this is read back by both walks, wherever it stands, and they go on behind it. */
  lemma RecordRoundTrip(before: seq<byte>, r: Layout, after: seq<byte>)
    requires r.Fits()
    ensures var region, at := before + RecordBytes(r) + after, |before|;
            && PyWalk(region, at)
               == [Record(r.severity, |r.descriptors|, r.Size(), ReadAll(r.descriptors))]
                  + PyWalk(region, at + r.Size())
            && GoWalk(region, at) == [r.severity] + GoWalk(region, at + r.Size())
  {
    hide Le16, Le32, Signed, PySections, PyWalk, GoWalk, DescriptorBytes, ReadAll, RecordBytes;
    RecordFields(before, r, after);
    PyWalkStep(before + RecordBytes(r) + after, |before|);
    GoWalkStep(before + RecordBytes(r) + after, |before|);
  }

  lemma Regroup(before: seq<byte>, h: seq<byte>, s: seq<byte>, b: seq<byte>, after: seq<byte>)
    ensures before + (h + s + b) + after == before + h + (s + b + after)
    ensures before + (h + s + b) + after == (before + h) + s + (b + after)
  {
  }

  // ----- the table -----

  /** A table: 36 bytes of header, the region's length and offset, and what follows. */
  function TableBytes(header: seq<byte>, length: nat, offset: nat, rest: seq<byte>): (b: seq<byte>)
    requires |header| == 36 && length < 0x1_0000_0000 && offset < 0x1_0000_0000_0000_0000
    ensures |b| == 48 + |rest|
  {
    header + Bytes32(length) + Bytes64(offset) + rest
  }

  /** Without an offset both programs read what follows, with one the region that it and the length name. */
  lemma TableRoundTrip(header: seq<byte>, length: nat, offset: nat, rest: seq<byte>)
    requires |header| == 36 && length < 0x1_0000_0000 && offset < 0x1_0000_0000_0000_0000
    ensures var table := TableBytes(header, length, offset, rest);
            && (offset == 0 ==> GoRegion(table) == PyRegion(table) == Ok(rest))
            && (offset > |table| ==> GoRegion(table) == Err && PyRegion(table) == Ok([]))
            && (0 < offset && offset + 128 <= |table| && offset + length <= |table|
                ==> GoRegion(table) == PyRegion(table) == Ok(table[offset..offset + length]))
            && (0 < offset <= |table| && (offset + 128 > |table| || offset + length > |table|)
                ==> GoRegion(table) == Ok(rest))
  {
    var table := TableBytes(header, length, offset, rest);
    var l, o := Bytes32(length), Bytes64(offset);
    assert table == header + l + (o + rest);
    Part(table, header, l, o + rest);
    assert table == (header + l) + o + rest;
    Part(table, header + l, o, rest);
    hide Bytes32, Bytes64, Le32, Le64;
    Read32(table, 36, length);
    Read64(table, 40, offset);
    assert table[48..] == rest;
    if 0 < offset && offset + length == |table| && offset < |table| {
      assert table[offset..] == table[offset..offset + length];
    }
  }
}
