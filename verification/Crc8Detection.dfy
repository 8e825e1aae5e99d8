/** Which corruptions of a checked frame the receiver can notice. */
module Crc8Detection {
  import opened Gf2
  import opened Crc8

  // ----- odd errors: the generator is a multiple of x + 1 -----

  lemma StepParity(r: Register, bit: bool)
    ensures Odd(Step(r, bit)) == (Odd(r) != bit)
  {
    OddXor(r[1..] + [false], Scale(r[0] != bit, LOW));
    OddConcat(r[1..], [false]);
    OddLow();
    OnesZero(Zeros(8));
    OddIsOnesParity(Zeros(8));
  }

  lemma OddLow()
    ensures Odd(LOW)
  {
    assert LOW == [false, false, true] + [true, false, false, false, true];
    OddConcat([false, false, true], [true, false, false, false, true]);
    assert [true, false, false, false, true] == [true, false] + [false, false, true];
    OddConcat([true, false], [false, false, true]);
    assert Odd([true, false]) by { assert [true, false][1..] == [false]; }
  }

  lemma {:induction false} FeedParity(r: Register, bits: Bits)
    ensures Odd(Feed(r, bits)) == (Odd(r) != Odd(bits))
    decreases |bits|
  {
    hide Step;
    if bits != [] {
      StepParity(r, bits[0]);
      FeedParity(Step(r, bits[0]), bits[1..]);
    }
  }

  /** Any odd number of flipped bits is noticed, in frames of any length. */
  lemma OddErrorsDetected(frame: seq<bv8>, error: seq<bv8>)
    requires Accepts(frame) && |error| == |frame|
    requires Ones(BitsOf(error)) % 2 == 1
    ensures !Accepts(XorBytes(frame, error))
  {
    hide Step, Accepts;
    ErrorDecides(frame, error);
    OddIsOnesParity(BitsOf(error));
    FeedParity(Zeros(8), BitsOf(error));
    OnesZero(Zeros(8));
    OddIsOnesParity(Zeros(8));
  }

  // ----- bursts -----

  lemma FeedLeadingZeros(n: nat, bits: Bits)
    ensures Feed(Zeros(8), Zeros(n) + bits) == Feed(Zeros(8), bits)
  {
    FeedConcat(Zeros(8), Zeros(n), bits);
    FeedZerosZero(Zeros(8), n);
  }

  /** Up to eight bits leave the register empty only when they are all zero. */
  lemma ShortBurst(burst: Bits)
    requires |burst| <= 8
    ensures Feed(Zeros(8), burst) == Zeros(8) <==> burst == Zeros(|burst|)
  {
    hide Step;
    var padded := burst + Zeros(8 - |burst|);
    FeedMixed(Zeros(8), burst);
    XorLaws(padded, Zeros(8));
    FeedZerosZero(padded, |burst|);
    if padded == Zeros(8) {
      assert padded[..|burst|] == burst && Zeros(8)[..|burst|] == Zeros(|burst|);
    }
    ConcatZeros(|burst|, 8 - |burst|);
  }

  lemma FirstBit()
    ensures Step(Zeros(8), true) == LOW
  {
    forall i | 0 <= i < 8 ensures Step(Zeros(8), true)[i] == LOW[i] {}
  }

  /** Nine bits starting with a set one leave it empty only when they are the generator itself. */
  lemma NineBitBurst(burst: Bits)
    requires |burst| == 9 && burst[0]
    ensures Feed(Zeros(8), burst) == Zeros(8) <==> burst == GENERATOR
  {
    hide Step;
    FirstBit();
    var rest := burst[1..];
    FeedMixed(LOW, rest);
    assert rest + Zeros(0) == rest;
    FeedZerosZero(Xor(LOW, rest), 8);
    XorLaws(LOW, rest);
    assert burst == [burst[0]] + rest;
    assert GENERATOR[1..] == LOW;
  }

  /**
   * A burst of at most nine bits is missed exactly when it changes nothing or is the generator pattern;
   * so every real burst of at most eight bits is noticed.
   */
  lemma BurstsDetected(frame: seq<bv8>, error: seq<bv8>, before: nat, burst: Bits, after: nat)
    requires Accepts(frame) && |error| == |frame|
    requires BitsOf(error) == Zeros(before) + burst + Zeros(after) && |burst| <= 9
    ensures Accepts(XorBytes(frame, error)) <==> burst == Zeros(|burst|) || burst == GENERATOR
  {
    hide Step, Accepts;
    ErrorDecides(frame, error);
    FeedConcat(Zeros(8), Zeros(before) + burst, Zeros(after));
    FeedLeadingZeros(before, burst);
    FeedZerosZero(Feed(Zeros(8), burst), after);
    if |burst| <= 8 {
      ShortBurst(burst);
    } else if burst[0] {
      NineBitBurst(burst);
    } else {
      assert burst == Zeros(1) + burst[1..];
      FeedLeadingZeros(1, burst[1..]);
      ShortBurst(burst[1..]);
      assert burst == Zeros(9) <==> burst[1..] == Zeros(8) by {
        assert Zeros(9)[1..] == Zeros(8);
        ConcatZeros(1, 8);
      }
    }
  }

  // ----- two flips: x has order 127 modulo the generator -----

  const TOP: Register := [true, false, false, false, false, false, false, false]

  /** Eight steps of the register, the effect of a zero byte. */
  function ZeroByte(w: bv8): bv8 {
    ShiftByte(ShiftByte(ShiftByte(ShiftByte(ShiftByte(ShiftByte(ShiftByte(ShiftByte(w))))))))
  }

  lemma FeedFourZeros(w: bv8)
    ensures Feed(Of(w), Zeros(4)) == Of(ShiftByte(ShiftByte(ShiftByte(ShiftByte(w)))))
  {
    hide Of, Step, ShiftByte;
    OfShift(w);
    OfShift(ShiftByte(w));
    OfShift(ShiftByte(ShiftByte(w)));
    OfShift(ShiftByte(ShiftByte(ShiftByte(w))));
    FeedOneMoreZero(Of(w), 0);
    FeedOneMoreZero(Of(w), 1);
    FeedOneMoreZero(Of(w), 2);
    FeedOneMoreZero(Of(w), 3);
  }

  lemma FeedZeroBytes(w0: bv8, w1: bv8, w2: bv8, w3: bv8, w4: bv8)
    requires w1 == ZeroByte(w0) && w2 == ZeroByte(w1) && w3 == ZeroByte(w2) && w4 == ZeroByte(w3)
    ensures Feed(Of(w0), Zeros(32)) == Of(w4)
  {
    hide Of, Step, ShiftByte, Feed;
    FeedZeroByte(w0);
    FeedZeroByte(w1);
    FeedZeroByte(w2);
    FeedZeroByte(w3);
    FeedZerosAdd(Of(w0), 8, 8);
    FeedZerosAdd(Of(w0), 16, 8);
    FeedZerosAdd(Of(w0), 24, 8);
  }

  lemma FeedZeroByte(w: bv8)
    ensures Feed(Of(w), Zeros(8)) == Of(ZeroByte(w))
  {
    hide Of, Step, ShiftByte, Feed;
    FeedFourZeros(w);
    FeedFourZeros(ShiftByte(ShiftByte(ShiftByte(ShiftByte(w)))));
    FeedZerosAdd(Of(w), 4, 4);
  }

  lemma FeedZerosAdd(r: Register, m: nat, n: nat)
    ensures Feed(r, Zeros(m + n)) == Feed(Feed(r, Zeros(m)), Zeros(n))
  {
    ConcatZeros(m, n);
    FeedConcat(r, Zeros(m), Zeros(n));
  }

  lemma FirstOrbit()
    ensures ZeroByte(0x80) == 0x7a && ZeroByte(0x7a) == 0x23 && ZeroByte(0x23) == 0xd5 && ZeroByte(0xd5) == 0xf1
  {}

  lemma SecondOrbit()
    ensures ZeroByte(0xf1) == 0xb3 && ZeroByte(0xb3) == 0xec && ZeroByte(0xec) == 0xbc && ZeroByte(0xbc) == 0xc2
  {}

  lemma ThirdOrbit()
    ensures ZeroByte(0xc2) == 0x25 && ZeroByte(0x25) == 0x73 && ZeroByte(0x73) == 0xab && ZeroByte(0xab) == 0x16
  {}

  lemma FourthOrbit()
    ensures ZeroByte(0x16) == 0xe5 && ZeroByte(0xe5) == 0x34 && ZeroByte(0x34) == 0x01 && ZeroByte(0x01) == 0x31
  {}

  lemma TopIs()
    ensures Of(0x80) == TOP && Of(0x31) == LOW
  {}

  /** x^128 is x, so x^127 is 1. */
  lemma FullPeriod()
    ensures Feed(TOP, Zeros(127)) == TOP
  {
    hide Of, Step, ShiftByte, Feed, ZeroByte;
    TopIs();
    FirstOrbit();
    SecondOrbit();
    ThirdOrbit();
    FourthOrbit();
    FeedZeroBytes(0x80, 0x7a, 0x23, 0xd5, 0xf1);
    FeedZeroBytes(0xf1, 0xb3, 0xec, 0xbc, 0xc2);
    FeedZeroBytes(0xc2, 0x25, 0x73, 0xab, 0x16);
    FeedZeroBytes(0x16, 0xe5, 0x34, 0x01, 0x31);
    FeedZerosAdd(TOP, 32, 32);
    FeedZerosAdd(TOP, 64, 32);
    FeedZerosAdd(TOP, 96, 32);
    FeedOneMoreZero(TOP, 127);
    TopStep();
    StepIsInjective(Feed(TOP, Zeros(127)), TOP);
  }

  lemma StepIsInjective(r: Register, s: Register)
    requires Step(r, false) == Step(s, false)
    ensures r == s
  {
    hide Step;
    StepIsLinear(r, s, false, false);
    XorLaws(Step(r, false), Step(s, false));
    StepZero(Xor(r, s));
    XorLaws(r, s);
  }

  lemma {:induction false} Multiples(k: nat, a: nat, rest: nat)
    ensures Feed(TOP, Zeros(a)) == TOP ==> Feed(TOP, Zeros(k * a + rest)) == Feed(TOP, Zeros(rest))
    decreases k
  {
    hide Step;
    if k > 0 {
      assert k * a + rest == a + ((k - 1) * a + rest);
      FeedZerosAdd(TOP, a, (k - 1) * a + rest);
      Multiples(k - 1, a, rest);
    }
  }

  lemma RemainderNotZero(a: nat)
    requires 2 <= a < 127
    ensures 127 % a != 0
  {
    if a <= 11 {
      assert a == 2 || a == 3 || a == 4 || a == 5 || a == 6 || a == 7 || a == 8 || a == 9 || a == 10 || a == 11;
    } else {
      var k := 127 / a;
      assert a * k + 127 % a == 127;
      if k == 0 {} else if k == 1 {} else if k == 2 {} else if k == 3 {} else if k == 4 {} else if k == 5 {}
      else if k == 6 {} else if k == 7 {} else if k == 8 {} else if k == 9 {} else if k == 10 {} else { assert false; }
    }
  }

  lemma OneIsNoPeriod()
    ensures Feed(TOP, Zeros(1)) != TOP
  {
    assert Zeros(1)[1..] == [];
    assert Step(TOP, false)[7];
    assert Feed(TOP, Zeros(1)) == Step(TOP, false);
  }

  /** 127 is prime, so a shorter period would force the period 1, which the second step refutes. */
  lemma {:induction false} NoShorterPeriod(a: nat)
    requires 1 <= a < 127
    ensures Feed(TOP, Zeros(a)) != TOP
    decreases a
  {
    hide Step;
    if a == 1 {
      OneIsNoPeriod();
    } else {
      var rest := 127 % a;
      RemainderNotZero(a);
      NoShorterPeriod(rest);
      Multiples(127 / a, a, rest);
      FullPeriod();
      assert 127 / a * a + rest == 127;
    }
  }

  lemma FeedNothing(r: Register)
    ensures Feed(r, Zeros(0)) == r
  {}

  lemma PeriodIs127(d: nat)
    ensures Feed(TOP, Zeros(d)) == TOP <==> d % 127 == 0
  {
    FullPeriod();
    hide Step, Feed;
    Multiples(d / 127, 127, d % 127);
    assert d / 127 * 127 + d % 127 == d;
    assert Feed(TOP, Zeros(0)) == TOP by { FeedNothing(TOP); }
    if d % 127 != 0 { NoShorterPeriod(d % 127); }
  }

  /** Two set bits at distance d empty the register exactly when x^d is 1. */
  lemma TwoBits(d: nat)
    requires d > 0
    ensures Feed(Zeros(8), [true] + Zeros(d - 1) + [true]) == Zeros(8) <==> d % 127 == 0
  {
    hide Step;
    var before := Feed(LOW, Zeros(d - 1));
    FirstBit();
    TopStep();
    assert Zeros(d)[1..] == Zeros(d - 1);
    assert before == Feed(TOP, Zeros(d));
    FeedConcat(Zeros(8), [true] + Zeros(d - 1), [true]);
    assert ([true] + Zeros(d - 1))[1..] == Zeros(d - 1);
    assert Feed(Zeros(8), [true] + Zeros(d - 1)) == before;
    assert [true][1..] == [];
    LastFlip(before);
    PeriodIs127(d);
  }

  lemma TopStep()
    ensures Step(TOP, false) == LOW
  {
    forall i | 0 <= i < 8 ensures Step(TOP, false)[i] == LOW[i] {
      if i < 7 { assert TOP[1..][i] == TOP[i + 1]; }
    }
  }

  lemma LastFlip(r: Register)
    ensures Step(r, true) == Zeros(8) <==> r == TOP
  {
    var flipped := Xor(r, TOP);
    assert flipped[0] == (r[0] != true) && flipped[1..] == r[1..] by {
      forall i | 0 <= i < 7 ensures flipped[1..][i] == r[1..][i] {}
    }
    assert Step(r, true) == Step(flipped, false);
    StepZero(flipped);
    XorLaws(r, TOP);
  }

  ghost predicate FlipsAt(bits: Bits, i: nat, j: nat) {
    i < j < |bits| && forall k :: 0 <= k < |bits| ==> (bits[k] <==> k == i || k == j)
  }

  /** Two flipped bits are noticed exactly when their distance is not a multiple of 127. */
  lemma TwoFlipsDetected(frame: seq<bv8>, error: seq<bv8>, i: nat, j: nat)
    requires Accepts(frame) && |error| == |frame|
    requires FlipsAt(BitsOf(error), i, j)
    ensures !Accepts(XorBytes(frame, error)) <==> (j - i) % 127 != 0
  {
    hide Step, Accepts;
    var bits, d := BitsOf(error), j - i;
    var pair := [true] + Zeros(d - 1) + [true];
    var after := Zeros(|bits| - j - 1);
    ErrorDecides(frame, error);
    assert bits == Zeros(i) + pair + after;
    FeedConcat(Zeros(8), Zeros(i) + pair, after);
    FeedLeadingZeros(i, pair);
    FeedZerosZero(Feed(Zeros(8), pair), |bits| - j - 1);
    TwoBits(d);
  }

  // ----- distance between accepted frames -----

  lemma {:induction false} OneFlip(bits: Bits) returns (i: nat)
    requires Ones(bits) == 1
    ensures i < |bits| && forall k :: 0 <= k < |bits| ==> (bits[k] <==> k == i)
  {
    if bits[0] {
      OnesZero(bits[1..]);
      i := 0;
    } else {
      i := OneFlip(bits[1..]);
      i := i + 1;
    }
    assert forall k :: 0 < k < |bits| ==> bits[k] == bits[1..][k - 1];
  }

  lemma {:induction false} TwoFlips(bits: Bits) returns (i: nat, j: nat)
    requires Ones(bits) == 2
    ensures FlipsAt(bits, i, j)
  {
    if bits[0] {
      i := 0;
      j := OneFlip(bits[1..]);
    } else {
      i, j := TwoFlips(bits[1..]);
      i := i + 1;
    }
    j := j + 1;
    assert forall k :: 0 < k < |bits| ==> bits[k] == bits[1..][k - 1];
  }

  lemma XorByteCancels(a: bv8, b: bv8)
    ensures XorByte(a, XorByte(a, b)) == b
    ensures XorByte(a, b) == 0 <==> a == b
  {}

  lemma {:induction false} NoFlips(error: seq<bv8>)
    requires BitsOf(error) == Zeros(8 * |error|)
    ensures forall i :: 0 <= i < |error| ==> error[i] == 0
  {
    hide Of;
    if error != [] {
      var n := 8 * |error|;
      assert Of(error[0]) == BitsOf(error)[..8] && Zeros(n)[..8] == Zeros(8);
      OfZero();
      OfIsInjective(error[0], 0);
      assert BitsOf(error[1..]) == BitsOf(error)[8..] && Zeros(n)[8..] == Zeros(8 * |error[1..]|);
      NoFlips(error[1..]);
    }
  }

  lemma SmallDistance(d: nat)
    requires 0 < d < 127
    ensures d % 127 != 0
  {}

  /**
   * Two different accepted frames of the same length, up to 15 bytes, differ in at least four bits:
   * no accepted frame of the 8-byte protocol becomes another one by one, two or three flipped bits.
   */
  lemma FramesFourBitsApart(frame: seq<bv8>, other: seq<bv8>)
    requires Accepts(frame) && Accepts(other)
    requires |frame| == |other| <= 15 && frame != other
    ensures Ones(BitsOf(XorBytes(frame, other))) >= 4
  {
    hide Step, Accepts, Of, XorByte;
    var error := XorBytes(frame, other);
    var bits := BitsOf(error);
    forall i | 0 <= i < |frame| ensures XorBytes(frame, error)[i] == other[i] {
      XorByteCancels(frame[i], other[i]);
    }
    assert XorBytes(frame, error) == other;
    if Ones(bits) == 0 {
      OnesZero(bits);
      NoFlips(error);
      forall i | 0 <= i < |frame| ensures frame[i] == other[i] { XorByteCancels(frame[i], other[i]); }
      assert false;
    } else if Ones(bits) == 2 {
      var i, j := TwoFlips(bits);
      SmallDistance(j - i);
      TwoFlipsDetected(frame, error, i, j);
    } else if Ones(bits) % 2 == 1 {
      OddErrorsDetected(frame, error);
    }
  }

  /** Four is the exact distance: the generator pattern turns every accepted frame into another one. */
  lemma DistanceFourIsReached(frame: seq<bv8>) returns (other: seq<bv8>)
    requires Accepts(frame) && |frame| >= 2
    ensures Accepts(other) && |other| == |frame| && Ones(BitsOf(XorBytes(frame, other))) == 4
  {
    hide Step, Accepts, XorByte;
    var error := GeneratorError(|frame| - 2);
    var bits := BitsOf(error);
    GeneratorBytes(|frame| - 2);
    BurstsDetected(frame, error, 8 * |frame| - 9, GENERATOR, 0);
    other := XorBytes(frame, error);
    forall i | 0 <= i < |frame| ensures XorBytes(frame, other)[i] == error[i] {
      XorByteCancels(frame[i], error[i]);
    }
    assert XorBytes(frame, other) == error;
  }

  /** The generator pattern in the last nine bits of a frame with `n` bytes more than two. */
  function GeneratorError(n: nat): (error: seq<bv8>)
    ensures |error| == n + 2
  {
    if n == 0 then [0x01, 0x31] else [0] + GeneratorError(n - 1)
  }

  lemma {:induction false} GeneratorBytes(n: nat)
    ensures BitsOf(GeneratorError(n)) == Zeros(8 * n + 7) + GENERATOR + Zeros(0)
    ensures Ones(BitsOf(GeneratorError(n))) == 4
    decreases n
  {
    hide Of, Step;
    if n == 0 {
      LastNineBits();
    } else {
      OfZero();
      GeneratorBytes(n - 1);
      assert GeneratorError(n)[1..] == GeneratorError(n - 1);
      assert BitsOf(GeneratorError(n)) == Zeros(8) + BitsOf(GeneratorError(n - 1));
      hide BitsOf, Zeros;
      Reassociate(Zeros(8), Zeros(8 * (n - 1) + 7), GENERATOR, Zeros(0));
      ConcatZeros(8, 8 * (n - 1) + 7);
      OddConcat(Zeros(8), BitsOf(GeneratorError(n - 1)));
      OnesZero(Zeros(8));
    }
  }

  lemma Reassociate(a: seq<bool>, b: seq<bool>, c: seq<bool>, d: seq<bool>)
    ensures a + (b + c + d) == (a + b) + c + d
  {
  }

  lemma LastNineBits()
    ensures BitsOf([0x01, 0x31]) == Zeros(7) + GENERATOR + Zeros(0)
    ensures Ones(BitsOf([0x01, 0x31])) == 4
  {
    hide Of, Step;
    OfGenerator();
    assert [0x01 as bv8, 0x31][1..] == [0x31] && [0x31 as bv8][1..] == [];
    assert BitsOf([0x31]) == LOW + BitsOf([]);
    assert BitsOf([0x01, 0x31]) == Zeros(7) + GENERATOR;
    OddConcat(Zeros(7), GENERATOR);
    OnesZero(Zeros(7));
    OnesGenerator();
  }

  lemma OfGenerator()
    ensures Of(0x01) == Zeros(7) + [true] && Of(0x31) == LOW
  {
    assert Of(0x01) == [false, false, false, false, false, false, false, true];
  }

  lemma OneSetBit()
    ensures Ones([true, false]) == 1 && Ones([false, true]) == 1 && Ones([true]) == 1 && Ones([false, false]) == 0
  {
    assert [true, false][1..] == [false] && [false, true][1..] == [true] && [false, false][1..] == [false];
    assert [false][1..] == [] && [true][1..] == [];
  }

  lemma OnesGenerator()
    ensures Ones(GENERATOR) == 4
  {
    OneSetBit();
    var tail := [false, false] + [false, true];
    OddConcat([false, false], [false, true]);
    OddConcat([true], tail);
    OddConcat([false, true], [true] + tail);
    OddConcat([true, false], [false, true] + ([true] + tail));
    assert GENERATOR == [true, false] + ([false, true] + ([true] + tail)) by {
      assert [true] + LOW == [true, false, false, true, true, false, false, false, true];
    }
  }
}
