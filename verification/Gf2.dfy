/** Polynomials over GF(2) as coefficient lists, highest power first. */
module Gf2 {

  type Bits = seq<bool>

  function Zeros(n: nat): (z: Bits)
    ensures |z| == n && forall i :: 0 <= i < n ==> !z[i]
  {
    seq(n, _ => false)
  }

  /** Addition, which is also subtraction. */
  function Xor(a: Bits, b: Bits): (c: Bits)
    requires |a| == |b|
    ensures |c| == |a| && forall i :: 0 <= i < |c| ==> c[i] == (a[i] != b[i])
  {
    seq(|a|, i requires 0 <= i < |a| => a[i] != b[i])
  }

  function Scale(bit: bool, p: Bits): (c: Bits)
    ensures |c| == |p| && forall i :: 0 <= i < |c| ==> c[i] == (bit && p[i])
  {
    if bit then p else Zeros(|p|)
  }

  /** Schoolbook product. */
  function Product(p: Bits, q: Bits): (c: Bits)
    requires q != []
    ensures |c| == |p| + |q| - 1
  {
    if p == [] then Zeros(|q| - 1)
    else Xor(Scale(p[0], q) + Zeros(|p| - 1), [false] + Product(p[1..], q))
  }

  /** Whether an odd number of coefficients is set. */
  function Odd(bits: Bits): bool {
    if bits == [] then false else bits[0] != Odd(bits[1..])
  }

  function Ones(bits: Bits): nat {
    if bits == [] then 0 else (if bits[0] then 1 else 0) + Ones(bits[1..])
  }

  lemma {:induction false} OddIsOnesParity(bits: Bits)
    ensures Odd(bits) <==> Ones(bits) % 2 == 1
  {
    if bits != [] { OddIsOnesParity(bits[1..]); }
  }

  lemma {:induction false} OddConcat(a: Bits, b: Bits)
    ensures Odd(a + b) == (Odd(a) != Odd(b))
    ensures Ones(a + b) == Ones(a) + Ones(b)
  {
    if a == [] {
      assert a + b == b;
    } else {
      assert (a + b)[1..] == a[1..] + b;
      OddConcat(a[1..], b);
    }
  }

  lemma {:induction false} OddXor(a: Bits, b: Bits)
    requires |a| == |b|
    ensures Odd(Xor(a, b)) == (Odd(a) != Odd(b))
  {
    if a != [] {
      assert Xor(a, b)[1..] == Xor(a[1..], b[1..]);
      OddXor(a[1..], b[1..]);
    }
  }

  lemma {:induction false} OnesZero(bits: Bits)
    ensures Ones(bits) == 0 <==> bits == Zeros(|bits|)
  {
    if bits != [] {
      OnesZero(bits[1..]);
      assert bits == [bits[0]] + bits[1..];
      assert Zeros(|bits|)[1..] == Zeros(|bits[1..]|);
      if bits[1..] == Zeros(|bits[1..]|) && !bits[0] { assert bits == Zeros(|bits|); }
    }
  }

  lemma XorLaws(a: Bits, b: Bits)
    requires |a| == |b|
    ensures Xor(a, b) == Xor(b, a)
    ensures Xor(a, b) == Zeros(|a|) <==> a == b
    ensures Xor(a, Zeros(|a|)) == a == Xor(Zeros(|a|), a)
  {
    if Xor(a, b) == Zeros(|a|) {
      forall i | 0 <= i < |a| ensures a[i] == b[i] { assert Xor(a, b)[i] == Zeros(|a|)[i]; }
    }
  }

  lemma ConcatZeros(m: nat, n: nat)
    ensures Zeros(m) + Zeros(n) == Zeros(m + n)
  {}
}
