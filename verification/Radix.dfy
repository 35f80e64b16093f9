/** Numbers as big-endian digit sequences, the way math/big reads and writes byte strings. */
module Radix {

  function Min(a: int, b: int): int {
    if a > b then b else a
  }

  function Pow(base: nat, n: nat): nat {
    if n == 0 then 1 else base * Pow(base, n - 1)
  }

  predicate Digits(s: seq<int>, base: nat) {
    forall i :: 0 <= i < |s| ==> 0 <= s[i] < base
  }

  /** The number a big-endian digit sequence stands for. */
  function Val(s: seq<int>, base: nat): int {
    if |s| == 0 then 0 else Val(s[..|s|-1], base) * base + s[|s|-1]
  }

  /** The shortest digit sequence of `n`; zero has none. */
  function ToDigits(n: nat, base: nat): (s: seq<int>)
    requires base > 1
    ensures Digits(s, base) && (n > 0 ==> |s| > 0 && s[0] != 0) && (n == 0 ==> s == [])
  {
    if n == 0 then [] else
      assert n / base < n by { Shrinks(n, base); }
      ToDigits(n / base, base) + [n % base]
  }

  lemma Shrinks(n: nat, base: nat)
    requires base > 1 && n > 0
    ensures n / base < n
  {
    var q := n / base;
    assert n == q * base + n % base;
    MulMonotone(2, base, q);
  }

  lemma PowPositive(base: nat, n: nat)
    requires base > 0
    ensures Pow(base, n) > 0
  {
  }

  lemma MulAssoc(a: int, b: int, c: int)
    ensures a * (b * c) == (a * b) * c
  {
  }

  lemma {:induction false} PowAdd(base: nat, m: nat, n: nat)
    ensures Pow(base, m + n) == Pow(base, m) * Pow(base, n)
  {
    if m > 0 {
      PowAdd(base, m - 1, n);
      MulAssoc(base, Pow(base, m - 1), Pow(base, n));
    }
  }

  lemma {:induction false} ValConcat(a: seq<int>, b: seq<int>, base: nat)
    ensures Val(a + b, base) == Val(a, base) * Pow(base, |b|) + Val(b, base)
  {
    if |b| == 0 {
      assert a + b == a;
    } else {
      var c := b[..|b|-1];
      ValConcat(a, c, base);
      assert (a + b)[..|a+b|-1] == a + c;
      var p := Pow(base, |c|);
      Distribute(Val(a, base) * p, Val(c, base), base);
      MulAssoc(Val(a, base), p, base);
    }
  }

  lemma ValSnoc(s: seq<int>, d: int, base: nat)
    ensures Val(s + [d], base) == Val(s, base) * base + d
  {
    assert (s + [d])[..|s|] == s;
  }

  lemma QuotientRest(x: int, n: nat)
    requires n > 0
    ensures x == x / n * n + x % n
  {
  }

  lemma ValPrepend(x: int, s: seq<int>, base: nat)
    ensures Val([x] + s, base) == x * Pow(base, |s|) + Val(s, base)
  {
    ValConcat([x], s, base);
    assert Val([x], base) == Val([], base) * base + x;
  }

  lemma BoundStep(v: int, p: int, d: int, base: nat)
    requires 0 <= v < p && 0 <= d < base
    ensures 0 <= v * base + d < base * p
  {
    MulMonotone(0, v, base);
    MulMonotone(v, p - 1, base);
    Distribute(p, 1, base);
  }

  lemma {:induction false} ValBound(s: seq<int>, base: nat)
    requires Digits(s, base)
    ensures 0 <= Val(s, base) < Pow(base, |s|)
  {
    if |s| > 0 {
      var t := s[..|s|-1];
      ValBound(t, base);
      BoundStep(Val(t, base), Pow(base, |t|), s[|s|-1], base);
    }
  }

  lemma {:induction false} ValToDigits(n: nat, base: nat)
    requires base > 1
    ensures Val(ToDigits(n, base), base) == n
  {
    if n > 0 {
      Shrinks(n, base);
      var q, d := n / base, n % base;
      ValToDigits(q, base);
      ValSnoc(ToDigits(q, base), d, base);
      QuotientRest(n, base);
    }
  }

  /** A digit sequence without a leading zero is the one its value is written with. */
  lemma {:induction false} ToDigitsVal(s: seq<int>, base: nat)
    requires base > 1 && Digits(s, base) && (|s| > 0 ==> s[0] != 0)
    ensures Val(s, base) >= 0 && ToDigits(Val(s, base), base) == s
  {
    ValBound(s, base);
    if |s| > 0 {
      NonZeroValue(s, base);
      var t, d := s[..|s|-1], s[|s|-1];
      ToDigitsVal(t, base);
      AppendDigit(Val(t, base), d, base);
      assert s == t + [d];
    }
  }

  lemma AppendDigit(v: nat, d: nat, base: nat)
    requires base > 1 && d < base && v * base + d > 0
    ensures ToDigits(v * base + d, base) == ToDigits(v, base) + [d]
  {
    LastDigit(v, d, base);
  }

  lemma MulMonotone(a: int, b: int, c: nat)
    requires a <= b
    ensures a * c <= b * c
  {
  }

  lemma Distribute(a: int, b: int, c: int)
    ensures (a + b) * c == a * c + b * c && (a - b) * c == a * c - b * c
  {
  }

  /** Quotient and remainder are the only way to write `x` as a multiple plus a small rest. */
  lemma DivUnique(x: int, q: int, r: int, b: nat)
    requires 0 <= r < b && x == q * b + r
    ensures x / b == q && x % b == r
  {
    var e, f := x / b, x % b;
    assert x == e * b + f && 0 <= f < b;
    Distribute(e, q, b);
    if e > q {
      MulMonotone(1, e - q, b);
    } else if e < q {
      MulMonotone(e - q, -1, b);
    }
  }

  lemma LastDigit(v: nat, d: nat, base: nat)
    requires d < base
    ensures (v * base + d) / base == v && (v * base + d) % base == d
  {
    DivUnique(v * base + d, v, d, base);
  }

  lemma {:induction false} NonZeroValue(s: seq<int>, base: nat)
    requires base > 1 && Digits(s, base) && |s| > 0 && s[0] != 0
    ensures Val(s, base) > 0
  {
    ValBound(s[1..], base);
    PowPositive(base, |s| - 1);
    assert s == [s[0]] + s[1..];
    ValPrepend(s[0], s[1..], base);
    MulMonotone(1, s[0], Pow(base, |s| - 1));
  }

  /** Leading zeros do not change the value. */
  lemma {:induction false} ValZeros(n: nat, s: seq<int>, base: nat)
    ensures Val(Zeros(n) + s, base) == Val(s, base)
  {
    if n == 0 {
      assert Zeros(n) + s == s;
    } else {
      ValZeros(n - 1, s, base);
      assert Zeros(n) + s == [0] + (Zeros(n - 1) + s);
      ValPrepend(0, Zeros(n - 1) + s, base);
    }
  }

  function Zeros(n: nat): (z: seq<int>)
    ensures |z| == n && forall i :: 0 <= i < n ==> z[i] == 0
  {
    if n == 0 then [] else [0] + Zeros(n - 1)
  }
}
