/** Abelian groups and multiples of their elements; curve points are used only through this interface. */
module Group {
  import opened Radix

  datatype Group<!P(!new)> = Group(zero: P, add: (P, P) -> P, neg: P -> P)

  ghost predicate AssocAt<P(!new)>(g: Group<P>, x: P, y: P, z: P) {
    g.add(g.add(x, y), z) == g.add(x, g.add(y, z))
  }

  ghost predicate CommAt<P(!new)>(g: Group<P>, x: P, y: P) {
    g.add(x, y) == g.add(y, x)
  }

  ghost predicate UnitAt<P(!new)>(g: Group<P>, x: P) {
    g.add(x, g.zero) == x && g.add(x, g.neg(x)) == g.zero
  }

  ghost predicate Abelian<P(!new)>(g: Group<P>) {
    (forall x, y, z :: AssocAt(g, x, y, z)) && (forall x, y :: CommAt(g, x, y)) && (forall x :: UnitAt(g, x))
  }

  /** The `n`-fold sum of `p`; a negative `n` adds the inverse. */
  function Mul<P(!new)>(g: Group<P>, n: int, p: P): P
    decreases if n >= 0 then n else -n
  {
    if n == 0 then g.zero
    else if n > 0 then g.add(Mul(g, n - 1, p), p)
    else g.add(Mul(g, n + 1, p), g.neg(p))
  }

  lemma Cancel<P(!new)>(g: Group<P>, x: P, p: P)
    requires Abelian(g)
    ensures g.add(g.add(x, p), g.neg(p)) == x && g.add(g.add(x, g.neg(p)), p) == x
  {
    assert AssocAt(g, x, p, g.neg(p)) && AssocAt(g, x, g.neg(p), p);
    assert CommAt(g, p, g.neg(p)) && UnitAt(g, p) && UnitAt(g, x);
  }

  lemma MulStep<P(!new)>(g: Group<P>, n: int, p: P)
    requires Abelian(g)
    ensures Mul(g, n + 1, p) == g.add(Mul(g, n, p), p)
    ensures Mul(g, n - 1, p) == g.add(Mul(g, n, p), g.neg(p))
  {
    Cancel(g, Mul(g, n + 1, p), p);
    Cancel(g, Mul(g, n - 1, p), p);
  }

  lemma {:induction false} MulAdd<P(!new)>(g: Group<P>, m: int, n: int, p: P)
    requires Abelian(g)
    ensures Mul(g, m + n, p) == g.add(Mul(g, m, p), Mul(g, n, p))
    decreases if n >= 0 then n else -n
  {
    var x := Mul(g, m, p);
    if n == 0 {
      assert UnitAt(g, x);
    } else if n > 0 {
      MulAdd(g, m, n - 1, p);
      MulStep(g, m + n - 1, p);
      assert AssocAt(g, x, Mul(g, n - 1, p), p);
    } else {
      MulAdd(g, m, n + 1, p);
      MulStep(g, m + n + 1, p);
      assert AssocAt(g, x, Mul(g, n + 1, p), g.neg(p));
    }
  }

  lemma MulOne<P(!new)>(g: Group<P>, p: P)
    requires Abelian(g)
    ensures Mul(g, 1, p) == p
  {
    assert CommAt(g, g.zero, p) && UnitAt(g, p);
    assert Mul(g, 0, p) == g.zero;
  }

  lemma MulNeg<P(!new)>(g: Group<P>, n: int, p: P)
    requires Abelian(g)
    ensures Mul(g, -n, p) == g.neg(Mul(g, n, p))
  {
    var x, y := Mul(g, n, p), Mul(g, -n, p);
    MulAdd(g, -n, n, p);
    Cancel(g, y, x);
    assert CommAt(g, g.zero, g.neg(x)) && UnitAt(g, g.neg(x));
  }

  lemma {:induction false} MulOfOrder<P(!new)>(g: Group<P>, order: int, t: int, p: P)
    requires Abelian(g) && Mul(g, order, p) == g.zero
    ensures Mul(g, order * t, p) == g.zero
    decreases if t >= 0 then t else -t
  {
    assert UnitAt(g, g.zero);
    if t > 0 {
      MulOfOrder(g, order, t - 1, p);
      MulAdd(g, order * (t - 1), order, p);
      Distribute(t - 1, 1, order);
    } else if t < 0 {
      MulOfOrder(g, order, t + 1, p);
      MulNeg(g, order, p);
      MulAdd(g, order * (t + 1), -order, p);
      Distribute(t + 1, 1, order);
      assert CommAt(g, g.zero, g.neg(g.zero)) && UnitAt(g, g.neg(g.zero));
    }
  }

  /** Multiples by numbers that differ by a multiple of the order are equal. */
  lemma MulCongruent<P(!new)>(g: Group<P>, order: int, a: int, b: int, t: int, p: P)
    requires Abelian(g) && Mul(g, order, p) == g.zero && a == b + order * t
    ensures Mul(g, a, p) == Mul(g, b, p)
  {
    MulOfOrder(g, order, t, p);
    MulAdd(g, b, order * t, p);
    assert UnitAt(g, Mul(g, b, p));
  }
}
