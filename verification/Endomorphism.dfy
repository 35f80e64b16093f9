/** The extended Euclidean algorithm of pkg/ecc/gensecp256k1.go that finds the two short vectors. */
module Endomorphism {
  import opened Radix
  import opened Logarithm
  import opened ScalarMult

  /** `u` is `x` times the order plus `y` times lambda. */
  predicate Combines(n: int, l: int, u: int, x: int, y: int) {
    u == x * n + y * l
  }

  lemma CombineStep(n: int, l: int, u: int, x1: int, y1: int, v: int, x2: int, y2: int, q: int)
    requires Combines(n, l, u, x1, y1) && Combines(n, l, v, x2, y2)
    ensures Combines(n, l, v - q * u, x2 - q * x1, y2 - q * y1)
  {
    assert q * (x1 * n + y1 * l) == (q * x1) * n + (q * y1) * l by {
      MulAssoc(q, x1, n);
      MulAssoc(q, y1, l);
    }
    Distribute(x2, q * x1, n);
    Distribute(y2, q * y1, l);
  }

  /** A combination gives a vector orthogonal to (1, lambda) modulo the order. */
  lemma VectorOk(n: int, l: int, u: int, x: int, y: int)
    requires n > 0 && Combines(n, l, u, x, y)
    ensures Divides(n, u + (-y) * l)
  {
    assert (-y) * l == -(y * l);
    DivUnique(x * n, x, 0, n);
  }

  lemma CrossStep(u: int, v: int, y1: int, y2: int, q: int)
    ensures (v - q * u) * y1 - u * (y2 - q * y1) == -(u * y2 - v * y1)
  {
    Distribute(v, q * u, y1);
    assert (q * u) * y1 == u * (q * y1);
  }

  /** The coefficients alternate in sign, so the two products add up to the order. */
  ghost predicate Spread(n: int, u: int, v: int, y1: int, y2: int) {
    (y1 >= 0 >= y2 && v * y1 - u * y2 == n) || (y1 <= 0 <= y2 && u * y2 - v * y1 == n)
  }

  lemma SpreadStep(n: int, u: int, v: int, y1: int, y2: int, q: nat)
    requires Spread(n, u, v, y1, y2)
    ensures Spread(n, v - q * u, u, y2 - q * y1, y1)
  {
    CrossStep(u, v, y1, y2, q);
    MulMonotone(0, if y1 >= 0 then y1 else -y1, q);
    assert q * y1 == y1 * q;
  }

  predicate Common(d: nat, u: int, v: int) {
    d > 0 && Divides(d, u) && Divides(d, v)
  }

  ghost predicate SameDivisors(u: int, v: int, n: int, l: int) {
    forall d: nat {:trigger Common(d, u, v)} {:trigger Common(d, n, l)} :: Common(d, u, v) <==> Common(d, n, l)
  }

  lemma MultipleOf(d: nat, k: int)
    requires d > 0
    ensures Divides(d, k * d)
  {
    DivUnique(k * d, k, 0, d);
  }

  lemma DividesDifference(d: nat, u: int, v: int, q: int)
    requires Common(d, u, v)
    ensures Common(d, v - q * u, u)
  {
    var a, b := u / d, v / d;
    assert v - q * u == (b - q * a) * d by {
      Distribute(b, q * a, d);
      MulAssoc(q, a, d);
    }
    MultipleOf(d, b - q * a);
  }

  lemma DivisorsStep(u: int, v: int, q: int, n: int, l: int)
    requires SameDivisors(u, v, n, l)
    ensures SameDivisors(v - q * u, u, n, l)
  {
    forall d: nat ensures Common(d, v - q * u, u) <==> Common(d, n, l) {
      if Common(d, u, v) {
        DividesDifference(d, u, v, q);
      }
      if Common(d, v - q * u, u) {
        DividesDifference(d, u, v - q * u, -q);
        assert (v - q * u) - (-q) * u == v;
      }
      assert Common(d, u, v) <==> Common(d, n, l);
    }
  }

  ghost predicate HasBigCommonDivisor(n: int, l: int, bound: int) {
    exists d: nat :: d >= bound && Common(d, n, l)
  }

  function Cross(a1: int, b1: int, a2: int, b2: int): int {
    a1 * b2 - a2 * b1
  }

  /**
   What the two vectors satisfy: both are orthogonal to (1, lambda) modulo the order, the first is short, and
   they span a lattice of index N exactly when lambda modulo N is at least the bound and no number from the
   bound up divides both N and lambda; otherwise they are dependent.
   */
  ghost predicate VectorsOk(n: nat, l: nat, bound: nat, a1: int, b1: int, a2: int, b2: int)
    requires n > 0
  {
    Divides(n, a1 + b1 * l) && Divides(n, a2 + b2 * l) &&
    0 <= a1 < bound && Abs(b1) * bound <= n &&
    if l % n >= bound && !HasBigCommonDivisor(n, l, bound) then Abs(Cross(a1, b1, a2, b2)) == n
    else Cross(a1, b1, a2, b2) == 0
  }

  /** `d` times `d` plus `e` times `e`: the square of the length. */
  predicate NoLonger(a: int, b: int, c: int, d: int) {
    a * a + b * b <= c * c + d * d
  }

  /**
   The second vector is the shorter of the two neighbours of the first one: (r, t) comes before it, has a first
   coordinate from the bound up and spans the lattice with it; the other one is what the division of r leaves.
   */
  ghost predicate SecondIsShorter(n: nat, l: nat, bound: nat, a1: int, b1: int, a2: int, b2: int)
    requires n > 0 && a1 > 0
  {
    exists r: int, t: int :: NeighbourOk(n, l, bound, a1, b1, r, t) &&
      if NoLonger(r, t, r % a1, t + r / a1 * b1) then a2 == r && b2 == -t else a2 == r % a1 && b2 == -(t + r / a1 * b1)
  }

  ghost predicate NeighbourOk(n: nat, l: nat, bound: nat, a1: int, b1: int, r: int, t: int)
    requires n > 0
  {
    r >= bound && Divides(n, r - t * l) && Abs(Cross(a1, b1, r, -t)) == n
  }

  /** The state of the Euclidean loop: two neighbouring remainders with their coefficients. */
  ghost predicate EuclidOk(n: nat, l: nat, u: int, x1: int, y1: int, v: int, x2: int, y2: int) {
    u >= 0 && v >= 0 && Combines(n, l, u, x1, y1) && Combines(n, l, v, x2, y2) &&
    Spread(n, u, v, y1, y2) && SameDivisors(u, v, n, l)
  }

  lemma EuclidStep(n: nat, l: nat, u: int, x1: int, y1: int, v: int, x2: int, y2: int)
    requires u > 0 && EuclidOk(n, l, u, x1, y1, v, x2, y2)
    ensures var q := v / u;
      EuclidOk(n, l, v - q * u, x2 - q * x1, y2 - q * y1, u, x1, y1) && 0 <= v - q * u < u
  {
    var q := v / u;
    assert q >= 0 && v - q * u == v % u;
    CombineStep(n, l, u, x1, y1, v, x2, y2, q);
    SpreadStep(n, u, v, y1, y2, q);
    DivisorsStep(u, v, q, n, l);
  }

  /** The second vector has been chosen next to the first one in the sequence of remainders. */
  lemma NeighboursSpan(n: nat, u: int, v: int, y1: int, y2: int)
    requires Spread(n, u, v, y1, y2)
    ensures Abs(Cross(u, -y1, v, -y2)) == n && Abs(Cross(v, -y2, u, -y1)) == n
  {
    assert u * (-y2) == -(u * y2) && v * (-y1) == -(v * y1);
  }

  lemma FirstIsShort(n: nat, u: int, v: int, y1: int, y2: int, bound: nat)
    requires Spread(n, u, v, y1, y2) && u >= 0 && v >= bound
    ensures Abs(y1) * bound <= n
  {
    MulMonotone(bound, v, Abs(y1));
    MulMonotone(0, u, Abs(y2));
    assert v * Abs(y1) + u * Abs(y2) == n by {
      if y1 >= 0 >= y2 {
        assert u * (-y2) == -(u * y2);
      } else {
        assert v * (-y1) == -(v * y1);
      }
    }
  }

  /** A remainder below the bound is zero exactly when some number from the bound up divides both inputs. */
  lemma ZeroRemainder(n: nat, l: nat, u: int, v: int, bound: nat)
    requires SameDivisors(u, v, n, l) && 0 <= u < bound <= v
    ensures u == 0 <==> HasBigCommonDivisor(n, l, bound)
  {
    if u == 0 {
      DivUnique(v, 1, 0, v);
      assert Common(v, u, v);
      assert Common(v, n, l);
    } else if HasBigCommonDivisor(n, l, bound) {
      var d: nat :| d >= bound && Common(d, n, l);
      assert Common(d, u, v);
      DivUnique(u, 0, u, d);
    }
  }

  lemma Dependent(a: int, b: int)
    ensures Cross(a, b, 0, 0) == 0
  {
  }

  lemma StartsOk(n: nat, l: nat)
    ensures EuclidOk(n, l, n, 1, 0, l, 0, 1)
  {
    forall d: nat ensures Common(d, n, l) <==> Common(d, n, l) {
    }
  }

  /** The remainder after the first vector is zero: there is no second vector. */
  lemma OneVector(n: nat, l: nat, bound: nat, x1: int, y1: int, v: int, x2: int, y2: int)
    requires 0 < n && 0 < bound <= v && EuclidOk(n, l, 0, x1, y1, v, x2, y2)
    ensures VectorsOk(n, l, bound, 0, -y1, 0, 0)
  {
    hide Combines, Spread, SameDivisors, Cross, HasBigCommonDivisor;
    VectorOk(n, l, 0, x1, y1);
    Zero(n, l);
    VectorOk(n, l, 0, 0, 0);
    FirstIsShort(n, 0, v, y1, y2, bound);
    ZeroRemainder(n, l, 0, v, bound);
    Dependent(0, -y1);
  }

  lemma Zero(n: int, l: int)
    ensures Combines(n, l, 0, 0, 0)
  {
  }

  /** The second vector is missing, or comes from the remainder before or after the first one. */
  lemma TwoVectors(n: nat, l: nat, bound: nat, u: int, x1: int, y1: int, v: int, x2: int, y2: int, a: int, x: int, y: int)
    requires 0 < n && 0 < u < bound <= v && EuclidOk(n, l, u, x1, y1, v, x2, y2)
    requires if l % n < bound then a == 0 && x == 0 && y == 0 else
      (a == v && x == x2 && y == y2) || EuclidOk(n, l, a, x, y, u, x1, y1)
    ensures VectorsOk(n, l, bound, u, -y1, a, -y)
  {
    hide Combines, Spread, SameDivisors, Cross, HasBigCommonDivisor;
    Zero(n, l);
    VectorOk(n, l, u, x1, y1);
    VectorOk(n, l, a, x, y);
    FirstIsShort(n, u, v, y1, y2, bound);
    ZeroRemainder(n, l, u, v, bound);
    Dependent(u, -y1);
    NeighboursSpan(n, u, v, y1, y2);
    if l % n >= bound && !(a == v && x == x2 && y == y2) {
      NeighboursSpan(n, a, u, y, y1);
    }
  }

  function Norm(r: int, t: int): (s: nat)
    ensures r == 0 && t == 0 ==> s == 0
  {
    MulMonotone(0, Abs(r), Abs(r));
    MulMonotone(0, Abs(t), Abs(t));
    assert Abs(r) * Abs(r) == r * r && Abs(t) * Abs(t) == t * t;
    r * r + t * t
  }

  /** The remainder before the first vector, and the one the next step gives. */
  lemma Chosen(n: nat, l: nat, bound: nat, u: int, x1: int, y1: int, v: int, x2: int, y2: int)
    requires 0 < n && 0 < u < bound <= v && EuclidOk(n, l, u, x1, y1, v, x2, y2)
    ensures NeighbourOk(n, l, bound, u, -y1, v, y2)
    ensures v - v / u * u == v % u && y2 - v / u * y1 == y2 + v / u * (-y1)
  {
    hide Combines, Spread, SameDivisors, Cross;
    VectorOk(n, l, v, x2, y2);
    assert v + (-y2) * l == v - y2 * l;
    NeighboursSpan(n, u, v, y1, y2);
    assert v / u * (-y1) == -(v / u * y1);
  }

  lemma IsSecond(n: nat, l: nat, bound: nat, a1: int, b1: int, a2: int, b2: int, r: int, t: int)
    requires n > 0 && a1 > 0 && NeighbourOk(n, l, bound, a1, b1, r, t)
    requires if NoLonger(r, t, r % a1, t + r / a1 * b1) then a2 == r && b2 == -t else a2 == r % a1 && b2 == -(t + r / a1 * b1)
    ensures SecondIsShorter(n, l, bound, a1, b1, a2, b2)
  {
  }

  lemma NormsCompare(a: int, b: int, c: int, d: int)
    ensures Norm(a, b) <= Norm(c, d) <==> NoLonger(a, b, c, d)
  {
  }

  /** The Euclidean loop, for a given bound in the place of the square root. */
  method VectorsBelow(n: nat, l: nat, nSqrt: nat) returns (a1: int, b1: int, a2: int, b2: int)
    requires 0 < nSqrt <= n
    ensures VectorsOk(n, l, nSqrt, a1, b1, a2, b2)
    ensures l % n >= nSqrt && a1 > 0 ==> SecondIsShorter(n, l, nSqrt, a1, b1, a2, b2)
    ensures l % n < nSqrt || a1 == 0 ==> a2 == 0 && b2 == 0
  {
    hide NoLonger, NeighbourOk, SecondIsShorter, Combines, Spread, SameDivisors, VectorsOk, EuclidOk, Norm;
    var u: int, v: int, x1: int, y1: int, x2: int, y2: int := n, l, 1, 0, 0, 1;
    var ri, ti := 0, 0;
    var found, oneMore := false, false;
    a1, b1, a2, b2 := 0, 0, 0, 0;
    ghost var first := true;
    StartsOk(n, l);
    while u != 0
      invariant EuclidOk(n, l, u, x1, y1, v, x2, y2) && found == oneMore && a2 == 0 && b2 == 0 && u >= 0
      invariant first ==> !found && u == n && v == l && ri == 0 && ti == 0
      invariant !first && !found ==> ri == u && ti == y1 && u >= nSqrt && l % n >= nSqrt
      invariant found ==> a1 == u < nSqrt <= v && b1 == -y1
      invariant found ==> if l % n >= nSqrt then ri == v && ti == y2 else ri == 0 && ti == 0
      decreases u
    {
      EuclidStep(n, l, u, x1, y1, v, x2, y2);
      var q := v / u;
      var r, s, t := v - q * u, x2 - q * x1, y2 - q * y1;
      assert r == v % u;
      if oneMore {
        ghost var x := if l % n < nSqrt then 0 else if Norm(ri, ti) <= Norm(r, t) then x2 else s;
        ghost var y := if Norm(ri, ti) <= Norm(r, t) then ti else t;
        TwoVectors(n, l, nSqrt, u, x1, y1, v, x2, y2, if Norm(ri, ti) <= Norm(r, t) then ri else r, x, y);
        Chosen(n, l, nSqrt, u, x1, y1, v, x2, y2);
        NormsCompare(ri, ti, r, t);
        if l % n >= nSqrt {
          IsSecond(n, l, nSqrt, a1, b1, if Norm(ri, ti) <= Norm(r, t) then ri else r, if Norm(ri, ti) <= Norm(r, t) then -ti else -t, ri, ti);
        }
      }
      first := false;
      v, u, x2, x1, y2, y1 := u, r, x1, s, y1, t;
      if !found && r < nSqrt {
        a1, b1 := r, -t;
        found, oneMore := true, true;
        continue;
      } else if oneMore {
        if Norm(ri, ti) <= Norm(r, t) {
          a2, b2 := ri, -ti;
        } else {
          a2, b2 := r, -t;
        }
        return;
      }
      ri, ti := r, t;
    }
    OneVector(n, l, nSqrt, x1, y1, v, x2, y2);
  }

  // ----- the square root by Newton's method -----

  predicate IsRoot(n: nat, s: nat) {
    s * s <= n < (s + 1) * (s + 1)
  }

  ghost predicate IsSquare(n: nat) {
    exists k: nat :: k * k == n
  }

  /** The square root, rounded down. */
  function FloorRoot(n: nat): (s: nat)
    ensures IsRoot(n, s)
  {
    if n == 0 then 0
    else
      var r := FloorRoot(n - 1);
      if (r + 1) * (r + 1) <= n then r + 1 else r
  }

  lemma RootIsPositive(n: nat)
    requires n > 0
    ensures 0 < FloorRoot(n) <= n
  {
    var s := FloorRoot(n);
    if s > n {
      MulMonotone(n, s, s);
      MulMonotone(1, n, s);
    }
  }

  /** The next guess. */
  function Newton(n: nat, g: nat): (r: nat)
    requires n > 0 && g > 0
    ensures r > 0
  {
    NewtonPositive(n, g);
    (g + n / g) / 2
  }

  lemma NewtonPositive(n: nat, g: nat)
    requires n > 0 && g > 0
    ensures g + n / g >= 2
  {
    if g == 1 {
      assert n / 1 == n;
    }
  }

  /** The number after the root is a square exactly when it is the next square. */
  lemma NextSquare(n: nat)
    ensures IsSquare(n + 1) <==> n + 1 == (FloorRoot(n) + 1) * (FloorRoot(n) + 1)
  {
    var s := FloorRoot(n);
    if k: nat :| k * k == n + 1 {
      SquaresAround(s, k);
    }
  }

  lemma SquareMonotone(a: nat, b: nat)
    requires a <= b
    ensures a * a <= b * b
  {
    MulMonotone(a, b, a);
    MulMonotone(a, b, b);
  }

  lemma SquaresAround(s: nat, k: nat)
    ensures k <= s ==> k * k <= s * s
    ensures k > s ==> k * k >= (s + 1) * (s + 1)
    ensures k > s + 1 ==> k * k > (s + 1) * (s + 1) + 1
  {
    if k <= s {
      SquareMonotone(k, s);
    } else {
      SquareMonotone(s + 1, k);
      if k > s + 1 {
        SquareMonotone(s + 2, k);
        assert (s + 2) * (s + 2) == (s + 1) * (s + 1) + 2 * s + 3;
      }
    }
  }

  /** No guess leads below the root. */
  lemma NeverBelow(n: nat, g: nat, s: nat)
    requires n > 0 && g > 0 && IsRoot(n, s)
    ensures Newton(n, g) >= s
  {
    var q := n / g;
    QuotientRest(n, g);
    if g + q < 2 * s {
      MulMonotone(q + 1, 2 * s - g, g);
      Distribute(q, 1, g);
      assert (2 * s - g) * g == s * s - (s - g) * (s - g);
      SquareNotNegative(s - g);
    }
  }

  lemma SquareNotNegative(x: int)
    ensures x * x >= 0
  {
  }

  /** Above the root the guesses go down. */
  lemma GoesDown(n: nat, g: nat, s: nat)
    requires n > 0 && IsRoot(n, s) && g > s
    ensures Newton(n, g) < g
  {
    var q := n / g;
    QuotientRest(n, g);
    SquareMonotone(s + 1, g);
    if q >= g {
      MulMonotone(g, q, g);
    }
  }

  /** At the root the guess stays, unless the next number is a square: then it goes up by one. */
  lemma AtRoot(n: nat, s: nat)
    requires n > 0 && s > 0 && IsRoot(n, s)
    ensures Newton(n, s) == if n + 1 == (s + 1) * (s + 1) then s + 1 else s
  {
    var q := n / s;
    QuotientRest(n, s);
    assert (s + 1) * (s + 1) == s * s + 2 * s + 1;
    if q < s {
      MulMonotone(q + 1, s, s);
      Distribute(q, 1, s);
    }
    if n + 1 == (s + 1) * (s + 1) {
      Distribute(s, 2, s);
      DivUnique(n, s + 2, 0, s);
    } else if q >= s + 2 {
      MulMonotone(s + 2, q, s);
      Distribute(s, 2, s);
    }
  }

  /** A guess that repeats is the root, and there is one exactly when the next number is no square. */
  lemma FixedIff(n: nat, g: nat)
    requires n > 0 && g > 0
    ensures Newton(n, g) == g <==> g == FloorRoot(n) && !IsSquare(n + 1)
  {
    hide Newton, FloorRoot, IsSquare;
    var s := FloorRoot(n);
    RootIsPositive(n);
    NextSquare(n);
    if g > s {
      GoesDown(n, g, s);
    } else if g < s {
      NeverBelow(n, g, s);
    } else {
      AtRoot(n, s);
    }
  }

  /** The guess after `k` rounds. */
  function Guess(n: nat, start: nat, k: nat): (g: nat)
    requires n > 0 && start > 0
    ensures g > 0
  {
    if k == 0 then start else Newton(n, Guess(n, start, k - 1))
  }

  /** From any guess the root is reached, when the next number is no square. */
  lemma {:induction false} Reaches(n: nat, start: nat, k: nat) returns (m: nat)
    requires n > 0 && start > 0 && !IsSquare(n + 1)
    ensures Guess(n, start, m) == FloorRoot(n)
    decreases if Guess(n, start, k) < FloorRoot(n) then 1 else 0, Guess(n, start, k)
  {
    hide Newton, FloorRoot, IsSquare;
    var g, s := Guess(n, start, k), FloorRoot(n);
    if g == s {
      m := k;
    } else {
      NeverBelow(n, g, s);
      if g > s {
        GoesDown(n, g, s);
      }
      assert Guess(n, start, k + 1) == Newton(n, g);
      m := Reaches(n, start, k + 1);
    }
  }

  ghost predicate StopsAfter(n: nat, start: nat, k: nat)
    requires n > 0 && start > 0
  {
    Guess(n, start, k + 1) == Guess(n, start, k)
  }

  /** The iteration ends, whatever the first guess is, if and only if the next number is no square. */
  lemma SqrtStopsIff(n: nat, start: nat)
    requires n > 0 && start > 0
    ensures (exists k: nat :: StopsAfter(n, start, k)) <==> !IsSquare(n + 1)
  {
    hide Newton, FloorRoot, IsSquare;
    if !IsSquare(n + 1) {
      var m := Reaches(n, start, 0);
      FixedIff(n, Guess(n, start, m));
      assert StopsAfter(n, start, m);
    }
    if k: nat :| StopsAfter(n, start, k) {
      FixedIff(n, Guess(n, start, k));
    }
  }

  /** For three, eight and fifteen it never ends. */
  lemma SqrtDiverges(start: nat, k: nat)
    requires start > 0
    ensures !StopsAfter(3, start, k) && !StopsAfter(8, start, k) && !StopsAfter(15, start, k)
  {
    hide StopsAfter;
    assert 2 * 2 == 3 + 1 && 3 * 3 == 8 + 1 && 4 * 4 == 15 + 1;
    SqrtStopsIff(3, start);
    SqrtStopsIff(8, start);
    SqrtStopsIff(15, start);
  }

  /** Newton's iteration from a power of two of about half the bits. */
  method Sqrt(n: nat) returns (guess: nat)
    requires n > 0 && !IsSquare(n + 1)
    ensures guess == FloorRoot(n)
  {
    hide Newton, FloorRoot, IsSquare;
    var start := Pow(2, (Log2(n) + 1) / 2);
    guess := start;
    PowPositive(2, (Log2(n) + 1) / 2);
    while true
      invariant guess > 0
      decreases if guess < FloorRoot(n) then 1 else 0, guess
    {
      var prevGuess := guess;
      FixedIff(n, guess);
      NeverBelow(n, guess, FloorRoot(n));
      if guess > FloorRoot(n) {
        GoesDown(n, guess, FloorRoot(n));
      }
      guess := Newton(n, guess);
      if guess == prevGuess {
        break;
      }
    }
  }

  /** The order of the curve is not one below a square. */
  lemma Secp256k1Stops()
    ensures SECP256K1.N > 0 && !IsSquare(SECP256K1.N + 1)
  {
    var r := 0xFFFFFFFFFFFFFFFFFFFFFFFFFFFFFFFF;
    if k: nat :| k * k == SECP256K1.N + 1 {
      SquaresAround(r, k);
    }
  }

  /** The square root first, then the Euclidean loop below it. */
  method EndomorphismVectors(n: nat, l: nat) returns (a1: int, b1: int, a2: int, b2: int)
    requires n > 0 && !IsSquare(n + 1)
    ensures VectorsOk(n, l, FloorRoot(n), a1, b1, a2, b2)
    ensures l % n >= FloorRoot(n) && a1 > 0 ==> SecondIsShorter(n, l, FloorRoot(n), a1, b1, a2, b2)
    ensures l % n < FloorRoot(n) || a1 == 0 ==> a2 == 0 && b2 == 0
  {
    hide FloorRoot, IsSquare;
    var nSqrt := Sqrt(n);
    RootIsPositive(n);
    a1, b1, a2, b2 := VectorsBelow(n, l, nSqrt);
  }
}
