/**
 * The heartbeat's bit-serial CRC-8 (network-resilience/oob-heartbeat.py): polynomial 0x31, MSB first, initial
 * value 0.
 */
module Crc8 {
  import opened Gf2

  /** A remainder: the coefficients of x^7 down to x^0. */
  type Register = r: Bits | |r| == 8 witness seq(8, _ => false)

  /** The generator x^8 + x^5 + x^4 + 1, without and with its leading term. */
  const LOW: Register := [false, false, true, true, false, false, false, true]
  const GENERATOR: Bits := [true] + LOW

  predicate IsSet(w: bv8, mask: bv8) { w & mask != 0 }

  function Of(w: bv8): Register {
    [IsSet(w, 0x80), IsSet(w, 0x40), IsSet(w, 0x20), IsSet(w, 0x10),
     IsSet(w, 0x08), IsSet(w, 0x04), IsSet(w, 0x02), IsSet(w, 0x01)]
  }

  /** Mix one message bit into the top of the register, then multiply by x modulo the generator. */
  function Step(r: Register, bit: bool): Register {
    Xor(r[1..] + [false], Scale(r[0] != bit, LOW))
  }

  /** The register after reading message bits one at a time. */
  function Feed(r: Register, bits: Bits): Register
    decreases |bits|
  {
    if bits == [] then r else Feed(Step(r, bits[0]), bits[1..])
  }

  /** The bits of a message in transmission order, most significant bit of each byte first. */
  function BitsOf(data: seq<bv8>): (bits: Bits)
    ensures |bits| == 8 * |data|
  {
    if data == [] then [] else Of(data[0]) + BitsOf(data[1..])
  }

  /** The byte loop of the code computes what the bit-serial register holds after all message bits. */
  method Crc(data: seq<bv8>) returns (crc: bv8)
    ensures Of(crc) == Feed(Zeros(8), BitsOf(data))
  {
    hide Of, Step, XorByte;
    crc := 0;
    OfZero();
    assert BitsOf(data[..0]) == [];
    for i := 0 to |data|
      invariant Of(crc) == Feed(Zeros(8), BitsOf(data[..i]))
    {
      ghost var before := crc;
      crc := crc ^ data[i];
      OfXor(before, data[i]);
      XorByteIs(before, data[i]);
      for k := 0 to 8
        invariant Of(crc) == Feed(Xor(Of(before), Of(data[i])), Zeros(k))
      {
        OfShift(crc);
        FeedOneMoreZero(Xor(Of(before), Of(data[i])), k);
        if crc & 0x80 != 0 {
          crc := (crc << 1) ^ 0x31;
        } else {
          crc := crc << 1;
        }
      }
      ByteIsFed(data, i, Of(before));
    }
    assert data[..|data|] == data;
  }

  /** Mixing a byte in and eight steps with zeros are the eight steps with its bits. */
  lemma ByteIsFed(data: seq<bv8>, i: nat, r: Register)
    requires i < |data| && r == Feed(Zeros(8), BitsOf(data[..i]))
    ensures Feed(Xor(r, Of(data[i])), Zeros(8)) == Feed(Zeros(8), BitsOf(data[..i + 1]))
  {
    hide Of, Step, Feed, BitsOf;
    FeedMixed(r, Of(data[i]));
    assert Of(data[i]) + Zeros(0) == Of(data[i]);
    BitsOfSnoc(data[..i], data[i]);
    FeedConcat(Zeros(8), BitsOf(data[..i]), Of(data[i]));
    assert data[..i + 1] == data[..i] + [data[i]];
  }

  // ----- the bit-vector operations of the code -----

  lemma OfZero()
    ensures Of(0) == Zeros(8)
  {}

  function XorByte(w: bv8, v: bv8): bv8 { w ^ v }

  lemma XorByteIs(w: bv8, v: bv8)
    ensures XorByte(w, v) == w ^ v
  {}

  lemma OfAt(w: bv8)
    ensures Of(w)[0] == IsSet(w, 0x80) && Of(w)[1] == IsSet(w, 0x40)
    ensures Of(w)[2] == IsSet(w, 0x20) && Of(w)[3] == IsSet(w, 0x10)
    ensures Of(w)[4] == IsSet(w, 0x08) && Of(w)[5] == IsSet(w, 0x04)
    ensures Of(w)[6] == IsSet(w, 0x02) && Of(w)[7] == IsSet(w, 0x01)
  {
    hide IsSet;
  }

  lemma SameEight(a: Register, b: Register)
    requires a[0] == b[0] && a[1] == b[1] && a[2] == b[2] && a[3] == b[3]
    requires a[4] == b[4] && a[5] == b[5] && a[6] == b[6] && a[7] == b[7]
    ensures a == b
  {}

  lemma OfXor(w: bv8, v: bv8)
    ensures Of(XorByte(w, v)) == Xor(Of(w), Of(v))
  {
    hide XorByte, IsSet, Of;
    OfAt(w);
    OfAt(v);
    OfAt(XorByte(w, v));
    XorHigh(w, v);
    XorLow(w, v);
    SameEight(Of(XorByte(w, v)), Xor(Of(w), Of(v)));
  }

  lemma XorHigh(w: bv8, v: bv8)
    ensures IsSet(XorByte(w, v), 0x80) == (IsSet(w, 0x80) != IsSet(v, 0x80))
    ensures IsSet(XorByte(w, v), 0x40) == (IsSet(w, 0x40) != IsSet(v, 0x40))
    ensures IsSet(XorByte(w, v), 0x20) == (IsSet(w, 0x20) != IsSet(v, 0x20))
    ensures IsSet(XorByte(w, v), 0x10) == (IsSet(w, 0x10) != IsSet(v, 0x10))
  {}

  lemma XorLow(w: bv8, v: bv8)
    ensures IsSet(XorByte(w, v), 0x08) == (IsSet(w, 0x08) != IsSet(v, 0x08))
    ensures IsSet(XorByte(w, v), 0x04) == (IsSet(w, 0x04) != IsSet(v, 0x04))
    ensures IsSet(XorByte(w, v), 0x02) == (IsSet(w, 0x02) != IsSet(v, 0x02))
    ensures IsSet(XorByte(w, v), 0x01) == (IsSet(w, 0x01) != IsSet(v, 0x01))
  {}

  function ShiftByte(w: bv8): bv8 {
    if w & 0x80 != 0 then (w << 1) ^ 0x31 else w << 1
  }

  lemma ShiftMasks(w: bv8)
    ensures IsSet(ShiftByte(w), 0x80) == IsSet(w, 0x40) && IsSet(ShiftByte(w), 0x40) == IsSet(w, 0x20)
    ensures IsSet(ShiftByte(w), 0x20) == (IsSet(w, 0x10) != IsSet(w, 0x80))
    ensures IsSet(ShiftByte(w), 0x10) == (IsSet(w, 0x08) != IsSet(w, 0x80))
    ensures IsSet(ShiftByte(w), 0x08) == IsSet(w, 0x04) && IsSet(ShiftByte(w), 0x04) == IsSet(w, 0x02)
    ensures IsSet(ShiftByte(w), 0x02) == IsSet(w, 0x01) && IsSet(ShiftByte(w), 0x01) == IsSet(w, 0x80)
  {}

  lemma StepAt(r: Register)
    ensures var s := Step(r, false);
            && s[0] == r[1] && s[1] == r[2] && s[2] == (r[3] != r[0]) && s[3] == (r[4] != r[0])
            && s[4] == r[5] && s[5] == r[6] && s[6] == r[7] && s[7] == r[0]
  {}

  lemma OfShift(w: bv8)
    ensures Of(ShiftByte(w)) == Step(Of(w), false)
  {
    hide IsSet, Of, Step, ShiftByte;
    OfAt(w);
    OfAt(ShiftByte(w));
    ShiftMasks(w);
    StepAt(Of(w));
    SameEight(Of(ShiftByte(w)), Step(Of(w), false));
  }

  lemma OfIsInjective(w: bv8, v: bv8)
    requires Of(w) == Of(v)
    ensures w == v
  {
    SameMasks(w, v) by {
      hide IsSet, Of;
      OfAt(w);
      OfAt(v);
    }
  }

  lemma SameMasks(w: bv8, v: bv8)
    requires IsSet(w, 0x80) == IsSet(v, 0x80) && IsSet(w, 0x40) == IsSet(v, 0x40)
    requires IsSet(w, 0x20) == IsSet(v, 0x20) && IsSet(w, 0x10) == IsSet(v, 0x10)
    requires IsSet(w, 0x08) == IsSet(v, 0x08) && IsSet(w, 0x04) == IsSet(v, 0x04)
    requires IsSet(w, 0x02) == IsSet(v, 0x02) && IsSet(w, 0x01) == IsSet(v, 0x01)
    ensures w == v
  {}

  // ----- feeding -----

  lemma {:induction false} FeedConcat(r: Register, a: Bits, b: Bits)
    ensures Feed(r, a + b) == Feed(Feed(r, a), b)
    decreases |a|
  {
    hide Step;
    if a == [] {
      assert a + b == b;
    } else {
      assert (a + b)[1..] == a[1..] + b;
      FeedConcat(Step(r, a[0]), a[1..], b);
    }
  }

  lemma FeedOneMoreZero(r: Register, k: nat)
    ensures Feed(r, Zeros(k + 1)) == Step(Feed(r, Zeros(k)), false)
  {
    hide Step;
    ConcatZeros(k, 1);
    FeedConcat(r, Zeros(k), Zeros(1));
    assert Zeros(1)[1..] == [];
  }

  lemma {:induction false} BitsOfConcat(a: seq<bv8>, b: seq<bv8>)
    ensures BitsOf(a + b) == BitsOf(a) + BitsOf(b)
  {
    hide Of;
    if a == [] {
      assert a + b == b;
    } else {
      assert (a + b)[1..] == a[1..] + b;
      BitsOfConcat(a[1..], b);
    }
  }

  lemma BitsOfSnoc(data: seq<bv8>, b: bv8)
    ensures BitsOf(data + [b]) == BitsOf(data) + Of(b)
  {
    hide Of;
    BitsOfConcat(data, [b]);
    assert BitsOf([b]) == Of(b) + BitsOf([b][1..]);
  }

  /** A step looks at the top bit only: up to eight message bits may be mixed in before their steps. */
  lemma {:induction false} FeedMixed(r: Register, w: Bits)
    requires |w| <= 8
    ensures Feed(r, w) == Feed(Xor(r, w + Zeros(8 - |w|)), Zeros(|w|))
    decreases |w|
  {
    var mixed := Xor(r, w + Zeros(8 - |w|));
    if w == [] {
      XorLaws(r, Zeros(8));
      assert w + Zeros(8) == Zeros(8);
    } else {
      MixedStep(r, w);
      hide Step;
      FeedMixed(Step(r, w[0]), w[1..]);
      assert Zeros(|w|)[1..] == Zeros(|w[1..]|);
    }
  }

  lemma MixedStep(r: Register, w: Bits)
    requires 1 <= |w| <= 8
    ensures Step(Xor(r, w + Zeros(8 - |w|)), false) == Xor(Step(r, w[0]), w[1..] + Zeros(8 - |w[1..]|))
  {
    var mixed, next, rest := Xor(r, w + Zeros(8 - |w|)), Step(r, w[0]), w[1..] + Zeros(8 - |w[1..]|);
    forall i | 0 <= i < 8 ensures Step(mixed, false)[i] == Xor(next, rest)[i] {
      if i < 7 {
        assert rest[i] == (w + Zeros(8 - |w|))[i + 1];
        assert mixed[1..][i] == mixed[i + 1] && r[1..][i] == r[i + 1];
      }
    }
  }

  // ----- linearity and the residue -----

  function XorBytes(a: seq<bv8>, b: seq<bv8>): (c: seq<bv8>)
    requires |a| == |b|
    ensures |c| == |a| && forall i :: 0 <= i < |c| ==> c[i] == XorByte(a[i], b[i])
  {
    seq(|a|, i requires 0 <= i < |a| => XorByte(a[i], b[i]))
  }

  lemma StepIsLinear(r: Register, s: Register, a: bool, b: bool)
    ensures Step(Xor(r, s), a != b) == Xor(Step(r, a), Step(s, b))
  {
    var left, right := Step(Xor(r, s), a != b), Xor(Step(r, a), Step(s, b));
    forall i | 0 <= i < 8 ensures left[i] == right[i] {
      if i < 7 {
        assert Xor(r, s)[1..][i] == Xor(r, s)[i + 1] && r[1..][i] == r[i + 1] && s[1..][i] == s[i + 1];
      }
    }
  }

  lemma {:induction false} FeedIsLinear(r: Register, s: Register, a: Bits, b: Bits)
    requires |a| == |b|
    ensures Feed(Xor(r, s), Xor(a, b)) == Xor(Feed(r, a), Feed(s, b))
    decreases |a|
  {
    hide Step;
    if a != [] {
      StepIsLinear(r, s, a[0], b[0]);
      assert Xor(a, b)[1..] == Xor(a[1..], b[1..]);
      FeedIsLinear(Step(r, a[0]), Step(s, b[0]), a[1..], b[1..]);
    }
  }

  lemma {:induction false} BitsOfXor(a: seq<bv8>, b: seq<bv8>)
    requires |a| == |b|
    ensures BitsOf(XorBytes(a, b)) == Xor(BitsOf(a), BitsOf(b))
  {
    hide Of, XorByte;
    if a != [] {
      OfXor(a[0], b[0]);
      assert XorBytes(a, b)[1..] == XorBytes(a[1..], b[1..]);
      BitsOfXor(a[1..], b[1..]);
      assert Xor(Of(a[0]) + BitsOf(a[1..]), Of(b[0]) + BitsOf(b[1..]))
          == Xor(Of(a[0]), Of(b[0])) + Xor(BitsOf(a[1..]), BitsOf(b[1..]));
    }
  }

  /** The checksum is XOR-linear on messages of equal length. */
  lemma CrcIsLinear(a: seq<bv8>, b: seq<bv8>)
    requires |a| == |b|
    ensures Feed(Zeros(8), BitsOf(XorBytes(a, b))) == Xor(Feed(Zeros(8), BitsOf(a)), Feed(Zeros(8), BitsOf(b)))
  {
    hide Of, Step;
    BitsOfXor(a, b);
    XorLaws(Zeros(8), Zeros(8));
    FeedIsLinear(Zeros(8), Zeros(8), BitsOf(a), BitsOf(b));
  }

  /** The constant term of the generator keeps a step from losing a register. */
  lemma StepZero(r: Register)
    ensures Step(r, false) == Zeros(8) <==> r == Zeros(8)
  {
    var next := Step(r, false);
    if r[0] {
      assert next[7];
    } else if i :| 0 < i < 8 && r[i] {
      assert next[i - 1] == r[1..][i - 1];
    } else {
      assert r == Zeros(8);
    }
  }

  lemma {:induction false} FeedZerosZero(r: Register, n: nat)
    ensures Feed(r, Zeros(n)) == Zeros(8) <==> r == Zeros(8)
    decreases n
  {
    hide Step;
    if n > 0 {
      StepZero(r);
      assert Zeros(n)[1..] == Zeros(n - 1);
      FeedZerosZero(Step(r, false), n - 1);
    }
  }

  /** A received frame is accepted when its last byte is the checksum of the bytes before it. */
  ghost predicate Accepts(frame: seq<bv8>) {
    && frame != []
    && Of(frame[|frame| - 1]) == Feed(Zeros(8), BitsOf(frame[..|frame| - 1]))
  }

  /** The whole frame, checksum included, leaves residue 0 exactly when it is accepted. */
  lemma AcceptedIffResidueZero(frame: seq<bv8>)
    requires frame != []
    ensures Accepts(frame) <==> Feed(Zeros(8), BitsOf(frame)) == Zeros(8)
  {
    hide Of, Step;
    var n := |frame| - 1;
    var check := Of(frame[n]);
    var crc := Feed(Zeros(8), BitsOf(frame[..n]));
    assert frame == frame[..n] + [frame[n]];
    BitsOfSnoc(frame[..n], frame[n]);
    FeedConcat(Zeros(8), BitsOf(frame[..n]), check);
    FeedMixed(crc, check);
    assert check + Zeros(0) == check;
    FeedZerosZero(Xor(crc, check), 8);
    XorLaws(crc, check);
  }

  /** What the channel adds to an accepted frame decides alone whether the result is accepted. */
  lemma ErrorDecides(frame: seq<bv8>, error: seq<bv8>)
    requires Accepts(frame) && |error| == |frame|
    ensures Accepts(XorBytes(frame, error)) <==> Feed(Zeros(8), BitsOf(error)) == Zeros(8)
  {
    hide Of, Step;
    AcceptedIffResidueZero(frame);
    AcceptedIffResidueZero(XorBytes(frame, error));
    CrcIsLinear(frame, error);
    XorLaws(Feed(Zeros(8), BitsOf(error)), Zeros(8));
  }
}
