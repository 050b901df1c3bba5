/** Positional notation: a natural number as a fixed number of digits in a
    base, most significant digit first. Big-endian integer fields are base-256
    digits, and the bits that hex and base32 regroup are base-2 digits. */
module Digits {

  function Pow(b: nat, k: nat): nat
  {
    if k == 0 then 1 else b * Pow(b, k - 1)
  }

  lemma {:induction false} PowPositive(b: nat, k: nat)
    requires b >= 1
    ensures Pow(b, k) >= 1
  {
    if k > 0 {
      PowPositive(b, k - 1);
    }
  }

  /** v without its k least significant bits. */
  function DropBits(v: nat, k: nat): nat
  {
    if k == 0 then v else DropBits(v / 2, k - 1)
  }

  /** Dropping k bits undoes multiplying by 2^k. */
  lemma {:induction false} DropBitsExact(x: nat, k: nat)
    ensures DropBits(x * Pow(2, k), k) == x
  {
    if k > 0 {
      assert x * Pow(2, k) == 2 * (x * Pow(2, k - 1));
      DropBitsExact(x, k - 1);
    }
  }

  /** The k least significant base-b digits of v, most significant first. */
  function ToDigits(v: nat, b: nat, k: nat): (ds: seq<nat>)
    requires b >= 2
    ensures |ds| == k
    ensures forall i :: 0 <= i < k ==> ds[i] < b
  {
    if k == 0 then [] else ToDigits(v / b, b, k - 1) + [v % b]
  }

  /** The number that the digits ds denote in base b. */
  function FromDigits(ds: seq<nat>, b: nat): nat
  {
    if ds == [] then 0 else FromDigits(ds[..|ds| - 1], b) * b + ds[|ds| - 1]
  }

  predicate AllBelow(ds: seq<nat>, b: nat)
  {
    forall i :: 0 <= i < |ds| ==> ds[i] < b
  }

  lemma MulNat(a: nat, b: nat)
    ensures a * b >= 0
  {
  }

  lemma DivNat(a: int, d: int)
    requires a >= 0 && d > 0
    ensures a / d >= 0
  {
  }

  lemma MulMono(a: nat, c: nat, b: nat)
    ensures a <= c ==> a * b <= c * b
  {
  }

  /** Euclidean division of x * b + d by b, for a digit d. */
  lemma DivModDigit(x: nat, b: nat, d: nat)
    requires d < b
    ensures (x * b + d) / b == x && (x * b + d) % b == d
  {
    var n := x * b + d;
    var q, r := n / b, n % b;
    assert n == q * b + r;
    MulMono(q + 1, x, b);
    MulMono(x + 1, q, b);
  }

  lemma DivModIdentity(v: nat, b: nat)
    requires b >= 1
    ensures v == (v / b) * b + v % b
  {
  }

  lemma DivBelow(v: nat, b: nat, p: nat)
    requires b >= 1 && v < b * p
    ensures v / b < p
  {
    var q := v / b;
    assert v == q * b + v % b;
    MulMono(p, q, b);
  }

  /** Bounds on a quotient are bounds on a product. */
  lemma LeDivIff(x: nat, a: nat, d: nat)
    requires d > 0
    ensures x <= a / d <==> x * d <= a
  {
    DivModIdentity(a, d);
    if x <= a / d {
      MulMono(x, a / d, d);
    } else {
      MulMono(a / d + 1, x, d);
    }
  }

  lemma DivLeIff(a: nat, d: nat, y: nat)
    requires d > 0
    ensures a / d <= y <==> a < (y + 1) * d
  {
    LeDivIff(y + 1, a, d);
  }

  /** Digits never denote more than the base to the number of digits allows. */
  lemma {:induction false} FromDigitsBound(ds: seq<nat>, b: nat)
    requires b >= 2 && AllBelow(ds, b)
    ensures FromDigits(ds, b) < Pow(b, |ds|)
  {
    if ds != [] {
      var init, d := ds[..|ds| - 1], ds[|ds| - 1];
      assert AllBelow(init, b);
      FromDigitsBound(init, b);
      var x, p := FromDigits(init, b), Pow(b, |init|);
      assert x + 1 <= p;
      MulMono(x + 1, p, b);
      assert (x + 1) * b == x * b + b;
      assert FromDigits(ds, b) == x * b + d;
      assert Pow(b, |ds|) == b * p;
    }
  }

  /** Reading back the digits of a number that fits in k digits gives the number. */
  lemma {:induction false} FromToDigits(v: nat, b: nat, k: nat)
    requires b >= 2 && v < Pow(b, k)
    ensures FromDigits(ToDigits(v, b, k), b) == v
  {
    if k > 0 {
      DivBelow(v, b, Pow(b, k - 1));
      FromToDigits(v / b, b, k - 1);
      FromToDigitsStep(v, b, k);
    }
  }

  lemma FromToDigitsStep(v: nat, b: nat, k: nat)
    requires b >= 2 && k > 0
    requires FromDigits(ToDigits(v / b, b, k - 1), b) == v / b
    ensures FromDigits(ToDigits(v, b, k), b) == v
  {
    var q, r := v / b, v % b;
    var init := ToDigits(q, b, k - 1);
    assert ToDigits(v, b, k) == init + [r];
    FromDigitsSnoc(init, r, b);
    DivModIdentity(v, b);
  }

  lemma FromDigitsSnoc(ds: seq<nat>, d: nat, b: nat)
    ensures FromDigits(ds + [d], b) == FromDigits(ds, b) * b + d
  {
    assert (ds + [d])[..|ds|] == ds;
  }

  /** Writing out the number that some digits denote gives those digits back. */
  lemma {:induction false} ToFromDigits(ds: seq<nat>, b: nat)
    requires b >= 2 && AllBelow(ds, b)
    ensures ToDigits(FromDigits(ds, b), b, |ds|) == ds
  {
    if ds != [] {
      var init, d := ds[..|ds| - 1], ds[|ds| - 1];
      DivModDigit(FromDigits(init, b), b, d);
      ToFromDigits(init, b);
      assert ds == init + [d];
    }
  }
}
