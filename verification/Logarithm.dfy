/** Binary logarithms, and the constant-time one of pkg/blockchain/chainview.go. */
module Logarithm {
  import opened Radix

  /** The logarithm to base two, rounded down; zero for zero. */
  function Log2(n: nat): nat {
    if n <= 1 then 0 else 1 + Log2(n / 2)
  }

  lemma {:induction false} Log2Exact(n: nat)
    requires n > 0
    ensures Pow(2, Log2(n)) <= n < Pow(2, Log2(n) + 1)
  {
    if n > 1 {
      Log2Exact(n / 2);
    }
  }

  lemma {:induction false} Log2Shift(n: nat, e: nat)
    requires n >= Pow(2, e)
    ensures Pow(2, e) > 0 && Log2(n) == e + Log2(n / Pow(2, e))
  {
    PowPositive(2, e);
    if e > 0 {
      PowPositive(2, e - 1);
      Log2Shift(n / 2, e - 1);
      DivDiv(n, 2, Pow(2, e - 1));
    }
  }

  lemma DivDiv(n: nat, a: nat, b: nat)
    requires a > 0 && b > 0
    ensures a * b > 0 && n / (a * b) == n / a / b
  {
    var q := n / a;
    var p := q / b;
    QuotientRest(n, a);
    QuotientRest(q, b);
    var r := (q % b) * a + n % a;
    MulMonotone(0, q % b, a);
    MulMonotone(q % b, b - 1, a);
    Distribute(b, 1, a);
    Distribute(p * b, q % b, a);
    MulAssoc(p, b, a);
    MulMonotone(1, b, a);
    DivUnique(n, p, r, a * b);
  }

  /** The weights tested, from 2^16 down to 2: the mask of a weight w is (w - 1) * w. */
  function Weight(i: nat): nat
    requires i < 5
  {
    [0x10000, 0x100, 0x10, 4, 2][i]
  }

  /** What the rest is below before test `i`. */
  function Bound(i: nat): nat
    requires i < 6
  {
    [0x1_0000_0000, 0x10000, 0x100, 0x10, 4, 2][i]
  }

  function Exponent(i: nat): nat
    requires i < 6
  {
    [16, 8, 4, 2, 1, 0][i]
  }

  lemma Weights(i: nat)
    requires i < 5
    ensures Weight(i) == Pow(2, Exponent(i)) && Weight(i) * Weight(i) == Bound(i) && Bound(i + 1) == Weight(i)
    ensures Exponent(i + 1) == Exponent(i) / 2
  {
    assert Pow(2, 4) == 16;
    PowAdd(2, 4, 4);
    PowAdd(2, 8, 8);
  }

  lemma MaskTest(n: nat, w: nat)
    requires w > 0 && n < w * w
    ensures (n / w % w != 0 <==> n >= w) && n / w < w
  {
    var q := n / w;
    QuotientRest(n, w);
    if q >= w {
      MulMonotone(w, q, w);
    }
    if q >= 1 {
      MulMonotone(1, q, w);
    }
    DivUnique(q, 0, q, w);
  }

  /** The constant-time logarithm agrees with the definition on every 32-bit number. */
  method FastLog2Floor(n: nat) returns (rv: nat)
    requires n < 0x1_0000_0000
    ensures rv == Log2(n)
  {
    hide Weight, Bound, Exponent, Log2, Pow;
    rv := 0;
    FirstBound();
    var rest: nat, exponent, i := n, 16, 0;
    while i < 5
      invariant 0 <= i <= 5 && Log2(n) == rv + Log2(rest) && exponent == Exponent(i) && rest < Bound(i)
    {
      Weights(i);
      MaskTest(rest, Weight(i));
      if rest / Weight(i) % Weight(i) != 0 {
        Log2Shift(rest, exponent);
        rv := rv + exponent;
        rest := rest / Weight(i);
      }
      exponent := exponent / 2;
      i := i + 1;
    }
    LastBound(rest);
  }

  lemma FirstBound()
    ensures Bound(0) == 0x1_0000_0000 && Exponent(0) == 16
  {
  }

  lemma LastBound(rest: nat)
    requires rest < Bound(5)
    ensures Log2(rest) == 0
  {
  }

  /** Bitwise conjunction. */
  function And(a: nat, b: nat): nat {
    if a == 0 || b == 0 then 0 else a % 2 * (b % 2) + 2 * And(a / 2, b / 2)
  }

  lemma {:induction false} AndSelf(a: nat)
    ensures And(a, a) == a
  {
    if a > 0 {
      AndSelf(a / 2);
    }
  }
}
