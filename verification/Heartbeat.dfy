/** Heartbeat frames and the send loop (network-resilience/oob-heartbeat.py). */
module Heartbeat {
  import opened Wrappers
  import opened Gf2
  import opened Crc8
  import opened Crc8Detection

  /** What a frame carries. */
  datatype Beat = Beat(sequence: int, statusFlags: int, cpuLoad: int)

  function Clamp(load: int): int {
    if load < 0 then 0 else if load > 100 then 100 else load
  }

  function ByteOf(x: int): bv8
    requires 0 <= x < 256
  {
    x as bv8
  }

  function ValueOf(b: bv8): int { b as int }

  lemma BytesAreValues(b: bv8)
    ensures 0 <= ValueOf(b) < 256 && ByteOf(ValueOf(b)) == b
  {
  }

  lemma NextValue(b: bv8)
    requires b < 0xFF
    ensures ValueOf(b + 1) == ValueOf(b) + 1
  {
  }

  lemma LastValue()
    ensures ValueOf(0) == 0 && ValueOf(0xFF) == 255
  {
  }

  lemma {:induction false} ByteRoundTrip(x: int)
    requires 0 <= x < 256
    ensures ValueOf(ByteOf(x)) == x
    decreases x
  {
    hide ByteOf, ValueOf;
    LastValue();
    if x == 0 {
      BytesAreValues(0);
    } else {
      ByteRoundTrip(x - 1);
      var b := ByteOf(x - 1);
      assert b != 0xFF;
      NotLast(b);
      NextValue(b);
      BytesAreValues(b + 1);
    }
  }

  lemma NotLast(b: bv8)
    ensures b != 0xFF ==> b < 0xFF
  {
  }

  /** The receiver's reading of a frame: sync bytes, end marker and checksum must be right. */
  ghost function Decode(frame: seq<bv8>): Option<Beat> {
    if |frame| == 8 && frame[0] == 0xAA && frame[1] == 0x55 && frame[6] == 0xFF && Accepts(frame)
    then Some(Beat(ValueOf(frame[2]) * 256 + ValueOf(frame[3]), ValueOf(frame[4]), ValueOf(frame[5])))
    else None
  }

  /** Frames carry the sequence number and flags modulo their field width and the load clamped to a percentage. */
  method BuildFrame(sequence: int, statusFlags: int, cpuLoad: int) returns (frame: seq<bv8>)
    ensures |frame| == 8
    ensures Decode(frame) == Some(Beat(sequence % 0x10000, statusFlags % 0x100, Clamp(cpuLoad)))
    ensures ValueOf(frame[2]) == sequence % 0x10000 / 256 && ValueOf(frame[3]) == sequence % 256
    ensures ValueOf(frame[4]) == statusFlags % 256 && ValueOf(frame[5]) == Decode(frame).value.cpuLoad
    ensures 0 <= cpuLoad <= 100 ==> Decode(frame).value.cpuLoad == cpuLoad
    ensures cpuLoad < 0 ==> Decode(frame).value.cpuLoad == 0
    ensures cpuLoad > 100 ==> Decode(frame).value.cpuLoad == 100
  {
    hide Of, ByteOf, ValueOf, Feed, BitsOf, Decode;
    var s := sequence % 0x10000;
    var load := Clamp(cpuLoad);
    var payload := [0xAA, 0x55, ByteOf(s / 256 % 256), ByteOf(s % 256), ByteOf(statusFlags % 256), ByteOf(load), 0xFF];
    var checksum := Crc(payload);
    frame := payload + [checksum];
    SealedIsAccepted(payload, checksum);
    ByteRoundTrip(s / 256 % 256);
    ByteRoundTrip(s % 256);
    ByteRoundTrip(statusFlags % 256);
    ByteRoundTrip(load);
    DecodeFields(frame, s / 256 % 256, s % 256, statusFlags % 256, load);
    HighAndLow(sequence);
  }

  lemma SealedIsAccepted(payload: seq<bv8>, checksum: bv8)
    requires Of(checksum) == Feed(Zeros(8), BitsOf(payload))
    ensures Accepts(payload + [checksum])
  {
    hide Of, Feed, BitsOf;
    assert (payload + [checksum])[..|payload|] == payload;
  }

  lemma DecodeFields(frame: seq<bv8>, high: int, low: int, flags: int, load: int)
    requires |frame| == 8 && frame[0] == 0xAA && frame[1] == 0x55 && frame[6] == 0xFF && Accepts(frame)
    requires ValueOf(frame[2]) == high && ValueOf(frame[3]) == low
    requires ValueOf(frame[4]) == flags && ValueOf(frame[5]) == load
    ensures Decode(frame) == Some(Beat(high * 256 + low, flags, load))
  {
    hide Accepts, ValueOf;
  }

  lemma HighAndLow(x: int)
    ensures x % 0x10000 / 256 % 256 == x % 0x10000 / 256 && x % 0x10000 % 256 == x % 256
    ensures x % 0x10000 / 256 * 256 + x % 256 == x % 0x10000
  {
  }

  /** One round of health checks; `ceTotal` is absent when the platform has no EDAC counters. */
  datatype Sample = Sample(cpuLoad: int, kernelOk: bool, ceTotal: Option<int>, memoryOk: bool, watchdogOk: bool)

  /** The correctable-error total known after the given samples, 0 before any. */
  function LastTotal(samples: seq<Sample>): int {
    if samples == [] then 0
    else match samples[|samples| - 1].ceTotal
      case Some(total) => total
      case None => LastTotal(samples[..|samples| - 1])
  }

  /** The four health bits; the bits are disjoint, so adding them is or-ing them. */
  function Flags(sample: Sample, edacOk: bool): (f: int)
    ensures 0 <= f < 16
    ensures f % 2 == 1 <==> sample.kernelOk
    ensures f / 2 % 2 == 1 <==> edacOk
    ensures f / 4 % 2 == 1 <==> sample.memoryOk
    ensures f / 8 % 2 == 1 <==> sample.watchdogOk
  {
    (if sample.kernelOk then 1 else 0) + (if edacOk then 2 else 0)
    + (if sample.memoryOk then 4 else 0) + (if sample.watchdogOk then 8 else 0)
  }

  /** The error rate is normal unless the counters rose by 100 or more since the last reading. */
  predicate RateNormal(before: seq<Sample>, sample: Sample) {
    sample.ceTotal.Some? ==> sample.ceTotal.value - LastTotal(before) < 100
  }

  /** Frame k is numbered k modulo 65536 and reports the health of round k. */
  ghost predicate Reports(frame: seq<bv8>, samples: seq<Sample>, k: nat)
    requires k < |samples|
  {
    Decode(frame) == Some(Beat(k % 0x10000, Flags(samples[k], RateNormal(samples[..k], samples[k])),
                               Clamp(samples[k].cpuLoad)))
  }

  lemma SequenceWraps(k: nat)
    ensures (k % 0x10000 + 1) % 0x10000 == (k + 1) % 0x10000
    ensures k % 0x10000 % 0x10000 == k % 0x10000
  {}

  lemma FlagsFit(sample: Sample, edacOk: bool)
    ensures Flags(sample, edacOk) % 0x100 == Flags(sample, edacOk)
  {}

  /** The send loop. */
  method SendAll(samples: seq<Sample>) returns (frames: seq<seq<bv8>>)
    ensures |frames| == |samples|
    ensures forall k :: 0 <= k < |frames| ==> Reports(frames[k], samples, k)
  {
    hide Decode, Flags, Clamp;
    frames := [];
    var sequence, prevCe := 0, 0;
    for k := 0 to |samples|
      invariant |frames| == k
      invariant sequence == k % 0x10000
      invariant prevCe == LastTotal(samples[..k])
      invariant forall i :: 0 <= i < k ==> Reports(frames[i], samples, i)
    {
      var sample := samples[k];
      var edacOk := true;
      if sample.ceTotal.Some? {
        edacOk := sample.ceTotal.value - prevCe < 100;
        prevCe := sample.ceTotal.value;
      }
      var frame := BuildFrame(sequence, Flags(sample, edacOk), sample.cpuLoad);
      FlagsFit(sample, edacOk);
      SequenceWraps(k);
      assert Reports(frame, samples, k);
      frames := frames + [frame];
      sequence := (sequence + 1) % 0x10000;
      assert samples[..k + 1][..k] == samples[..k];
    }
  }

  /** Frames that the receiver decodes differently are at least four bit errors apart. */
  lemma BeatsFourBitsApart(frame: seq<bv8>, other: seq<bv8>)
    requires Decode(frame).Some? && Decode(other).Some? && Decode(frame) != Decode(other)
    ensures Ones(BitsOf(XorBytes(frame, other))) >= 4
  {
    hide Accepts, BitsOf, XorBytes, Ones;
    FramesFourBitsApart(frame, other);
  }

  /** The total that a round is compared with: that of the last round before it that could read one, or 0. */
  lemma {:induction false} LastTotalMeaning(samples: seq<Sample>)
    ensures (forall i :: 0 <= i < |samples| ==> samples[i].ceTotal.None?) ==> LastTotal(samples) == 0
    ensures forall i :: && 0 <= i < |samples| && samples[i].ceTotal.Some?
                        && (forall j :: i < j < |samples| ==> samples[j].ceTotal.None?)
                        ==> LastTotal(samples) == samples[i].ceTotal.value
  {
    if samples != [] && samples[|samples| - 1].ceTotal.None? {
      var before := samples[..|samples| - 1];
      LastTotalMeaning(before);
      assert forall i :: 0 <= i < |before| ==> before[i] == samples[i];
    }
  }

  /** The rate bit of a round that reads a total: up to 99 new errors since the last total are normal. */
  lemma RateMeaning(before: seq<Sample>, sample: Sample)
    ensures RateNormal(before, sample)
            <==> sample.ceTotal.None? || sample.ceTotal.value <= LastTotal(before) + 99
  {
  }
}
