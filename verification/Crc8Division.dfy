/** The register is the remainder of polynomial long division by the generator. */
module Crc8Division {
  import opened Gf2
  import opened Crc8

  /** The message times x^8, plus the register shifted up to the top: what is still to be divided. */
  function Dividend(r: Register, m: Bits): (d: Bits)
    ensures |d| == |m| + 8
  {
    Xor(m + Zeros(8), r + Zeros(|m|))
  }

  /** The quotient digits: the bits that the steps found at the top. */
  function Quotient(r: Register, m: Bits): (q: Bits)
    ensures |q| == |m|
    decreases |m|
  {
    if m == [] then [] else [r[0] != m[0]] + Quotient(Step(r, m[0]), m[1..])
  }

  /** One step subtracts the generator when the top coefficient is set and drops that coefficient. */
  lemma DivisionStep(r: Register, m: Bits)
    requires m != []
    ensures Dividend(r, m)
         == Xor(Scale(r[0] != m[0], GENERATOR) + Zeros(|m| - 1), [false] + Dividend(Step(r, m[0]), m[1..]))
  {
    var t := r[0] != m[0];
    var r', m' := Step(r, m[0]), m[1..];
    var left := Dividend(r, m);
    var right := Xor(Scale(t, GENERATOR) + Zeros(|m| - 1), [false] + Dividend(r', m'));
    forall i | 0 <= i < |m| + 8 ensures left[i] == right[i] {
      if i > 0 {
        assert (m + Zeros(8))[i] == (m' + Zeros(8))[i - 1];
        if i <= 8 {
          assert GENERATOR[i] == LOW[i - 1];
          if i < 8 { assert r[1..][i - 1] == r[i]; }
        }
      }
    }
  }

  /** Sums with a scaled generator on top agree exactly when scale and rest do. */
  lemma CancelTop(s: bool, t: bool, a: Bits, b: Bits)
    requires |a| == |b| >= 8
    ensures Xor(Scale(s, GENERATOR) + Zeros(|a| - 8), [false] + a)
            == Xor(Scale(t, GENERATOR) + Zeros(|a| - 8), [false] + b)
            <==> s == t && a == b
  {
    var left := Xor(Scale(s, GENERATOR) + Zeros(|a| - 8), [false] + a);
    var right := Xor(Scale(t, GENERATOR) + Zeros(|a| - 8), [false] + b);
    if left == right {
      assert left[0] == s && right[0] == t;
      forall i | 0 <= i < |a| ensures a[i] == b[i] {
        assert left[i + 1] == right[i + 1];
      }
    }
  }

  lemma ProductStep(q: Bits, g: Bits, rem: Bits)
    requires q != [] && |g| == |rem| + 1
    ensures Xor(Product(q, g), Zeros(|q|) + rem)
         == Xor(Scale(q[0], g) + Zeros(|q| - 1), [false] + Xor(Product(q[1..], g), Zeros(|q| - 1) + rem))
  {
    var top, product := Scale(q[0], g) + Zeros(|q| - 1), Product(q[1..], g);
    var low := Zeros(|q| - 1) + rem;
    assert Product(q, g) == Xor(top, [false] + product);
    hide *;
    PadStep(|q| - 1, rem);
    LowerPart(product, low);
    XorAssociates(top, [false] + product, [false] + low);
  }

  lemma PadStep(n: nat, rem: Bits)
    ensures Zeros(n + 1) + rem == [false] + (Zeros(n) + rem)
  {}

  lemma LowerPart(product: Bits, low: Bits)
    requires |product| == |low|
    ensures Xor([false] + product, [false] + low) == [false] + Xor(product, low)
  {}

  lemma XorAssociates(a: Bits, b: Bits, c: Bits)
    requires |a| == |b| == |c|
    ensures Xor(Xor(a, b), c) == Xor(a, Xor(b, c))
  {}

  lemma EmptyDivision(r: Register, rem: Register)
    ensures Dividend(r, []) == r && Xor(Product([], GENERATOR), Zeros(0) + rem) == rem
  {
    assert [] + Zeros(8) == Zeros(8) && r + Zeros(0) == r && Zeros(0) + rem == rem;
    XorLaws(r, Zeros(8));
    XorLaws(rem, Zeros(8));
  }

  /** Long division has one result: the digits and the register of the bit-serial steps. */
  lemma {:induction false} DivisionIsUnique(r: Register, m: Bits, q: Bits, rem: Register)
    requires |q| == |m|
    ensures Dividend(r, m) == Xor(Product(q, GENERATOR), Zeros(|m|) + rem)
            <==> q == Quotient(r, m) && rem == Feed(r, m)
    decreases |m|
  {
    hide Step, Dividend, Product;
    if m == [] {
      EmptyDivision(r, rem);
    } else {
      var r', m', q' := Step(r, m[0]), m[1..], q[1..];
      DivisionIsUnique(r', m', q', rem);
      DivisionStep(r, m);
      var tail := Xor(Product(q', GENERATOR), Zeros(|m'|) + rem);
      ProductStep(q, GENERATOR, rem);
      CancelTop(r[0] != m[0], q[0], Dividend(r', m'), tail);
      assert q == [q[0]] + q';
      assert q == Quotient(r, m) <==> q[0] == (r[0] != m[0]) && q' == Quotient(r', m') by {
        assert Quotient(r, m)[1..] == Quotient(r', m');
      }
    }
  }

  /** `rem` is what remains of message(x) * x^8 modulo x^8 + x^5 + x^4 + 1. */
  ghost predicate IsRemainder(m: Bits, rem: Register) {
    exists q: Bits :: |q| == |m| && m + Zeros(8) == Xor(Product(q, GENERATOR), Zeros(|m|) + rem)
  }

  /** The checksum of a message of any length is the remainder, and nothing else is. */
  lemma CrcIsRemainder(m: Bits, rem: Register)
    ensures IsRemainder(m, rem) <==> rem == Feed(Zeros(8), m)
  {
    ConcatZeros(8, |m|);
    XorLaws(m + Zeros(8), Zeros(|m| + 8));
    assert Dividend(Zeros(8), m) == m + Zeros(8);
    var q := Quotient(Zeros(8), m);
    DivisionIsUnique(Zeros(8), m, q, Feed(Zeros(8), m));
    if IsRemainder(m, rem) {
      var q' :| |q'| == |m| && m + Zeros(8) == Xor(Product(q', GENERATOR), Zeros(|m|) + rem);
      DivisionIsUnique(Zeros(8), m, q', rem);
    }
  }
}
