/** Scalar multiplication of pkg/ecc/btcec.go: the endomorphism split and the interleaved double-and-add loop. */
module ScalarMult {
  import opened Wire
  import opened Radix
  import opened Naf
  import opened Group

  /** The curve's numbers: the group order, the eigenvalue of the endomorphism, and the two short vectors. */
  datatype Params = Params(N: nat, lambda: int, a1: int, b1: int, a2: int, b2: int, byteSize: nat)

  predicate Divides(d: int, x: int)
    requires d != 0
  {
    x % d == 0
  }

  predicate ParamsOk(c: Params) {
    c.N > 0 && Divides(c.N, c.a1 + c.b1 * c.lambda) && Divides(c.N, c.a2 + c.b2 * c.lambda)
  }

  const SECP256K1 := Params(
    0xFFFFFFFFFFFFFFFFFFFFFFFFFFFFFFFEBAAEDCE6AF48A03BBFD25E8CD0364141,
    0x5363AD4CC05C30E0A5261C028812645A122E22EA20816678DF02967C1B23BD72,
    0x3086D221A7D46BCDE86C90E49284EB15,
    -0xE4437ED6010E88286F547FA90ABFE4C3,
    0x114CA50F7A8E2F3F657C1108D9D44CFD8,
    0x3086D221A7D46BCDE86C90E49284EB15,
    32)

  function Determinant(c: Params): int {
    c.a1 * c.b2 - c.a2 * c.b1
  }

  /** The hard-coded vectors are orthogonal to (1, lambda) modulo the order and span a lattice of index N. */
  lemma Secp256k1Ok()
    ensures ParamsOk(SECP256K1) && Determinant(SECP256K1) == SECP256K1.N
    ensures SECP256K1.a1 > 0 && SECP256K1.b1 < 0 && SECP256K1.a2 > 0 && SECP256K1.b2 > 0
  {
  }

  function SplitFirst(c: Params, k: int): int
    requires c.N > 0
  {
    k - c.b2 * k / c.N * c.a1 + c.b1 * k / c.N * c.a2
  }

  function SplitSecond(c: Params, k: int): int
    requires c.N > 0
  {
    c.b1 * k / c.N * c.b2 - c.b2 * k / c.N * c.b1
  }

  lemma SplitAlgebra(k: int, c1: int, c2: int, a1: int, b1: int, a2: int, b2: int, l: int)
    ensures (k - c1 * a1 + c2 * a2) + (c2 * b2 - c1 * b1) * l == k - c1 * (a1 + b1 * l) + c2 * (a2 + b2 * l)
  {
  }

  /** Whatever the quotients are, k1 + k2 * lambda is congruent to k modulo the order. */
  lemma SplitCongruent(c: Params, k: int) returns (t: int)
    requires ParamsOk(c)
    ensures SplitFirst(c, k) + SplitSecond(c, k) * c.lambda == k + c.N * t
  {
    var c1, c2 := c.b2 * k / c.N, c.b1 * k / c.N;
    SplitAlgebra(k, c1, c2, c.a1, c.b1, c.a2, c.b2, c.lambda);
    var u, v := (c.a1 + c.b1 * c.lambda) / c.N, (c.a2 + c.b2 * c.lambda) / c.N;
    MulAssoc(c1, u, c.N);
    MulAssoc(c2, v, c.N);
    t := c2 * v - c1 * u;
    Distribute(c2 * v, c1 * u, c.N);
  }

  lemma BalanceAlgebra(k: int, n: int, c1: int, c2: int, a1: int, b1: int, a2: int, b2: int, r1: int, r2: int)
    requires b2 * k == c1 * n + r1 && b1 * k == c2 * n + r2 && n == a1 * b2 - a2 * b1
    ensures (k - c1 * a1 + c2 * a2) * n == a1 * r1 - a2 * r2
    ensures (c2 * b2 - c1 * b1) * n == b1 * r1 - b2 * r2
  {
    assert k * n == a1 * (b2 * k) - a2 * (b1 * k);
    assert a1 * (b2 * k) == a1 * (c1 * n) + a1 * r1 && a2 * (b1 * k) == a2 * (c2 * n) + a2 * r2;
    assert b2 * (b1 * k) == b2 * (c2 * n) + b2 * r2 && b1 * (b2 * k) == b1 * (c1 * n) + b1 * r1;
  }

  /** When the vectors span a lattice of index N, both halves are as short as the vectors. */
  lemma SplitBalanced(c: Params, k: int)
    requires c.N > 0 && Determinant(c) == c.N && c.a1 > 0 && c.a2 > 0 && c.b1 < 0 && c.b2 > 0
    ensures -c.a2 < SplitFirst(c, k) < c.a1 && c.b1 - c.b2 < SplitSecond(c, k) <= 0
  {
    var r1, r2 := c.b2 * k % c.N, c.b1 * k % c.N;
    BalanceAlgebra(k, c.N, c.b2 * k / c.N, c.b1 * k / c.N, c.a1, c.b1, c.a2, c.b2, r1, r2);
    Squeeze(SplitFirst(c, k), c.N, c.a1, c.a2, r1, r2);
    Squeeze(-SplitSecond(c, k), c.N, -c.b1, -c.b2, r1, r2);
  }

  lemma Compare(x: int, y: int, n: nat)
    requires x * n < y * n
    ensures x < y
  {
    if x >= y {
      MulMonotone(y, x, n);
    }
  }

  lemma Share(a: nat, r: int, n: nat)
    requires 0 <= r < n && a > 0
    ensures 0 <= a * r < a * n
  {
    MulMonotone(0, r, a);
    MulMonotone(r, n - 1, a);
    Distribute(n, 1, a);
  }

  lemma Squeeze(x: int, n: nat, a: int, b: int, r: int, s: int)
    requires n > 0 && 0 <= r < n && 0 <= s < n && x * n == a * r - b * s && a > 0 && b != 0
    ensures b > 0 ==> -b < x < a
    ensures b < 0 ==> 0 <= x < a - b
  {
    Share(a, r, n);
    if b > 0 {
      Share(b, s, n);
      Compare(x, a, n);
      assert (-b) * n == -(b * n);
      Compare(-b, x, n);
    } else {
      Share(-b, s, n);
      assert (-b) * s == -(b * s) && (-b) * n == -(b * n);
      Distribute(a, b, n);
      Compare(x, a - b, n);
      assert (-1) * n < 0;
      Compare(-1, x, n);
    }
  }

  function Sign(x: int): int {
    if x < 0 then -1 else if x == 0 then 0 else 1
  }

  function Abs(x: int): nat {
    if x < 0 then -x else x
  }

  /** The absolute value of a number as bytes; the sign is passed separately. */
  function Bytes(x: int): (s: seq<byte>) {
    var d := ToDigits(Abs(x), 256);
    assert forall i :: 0 <= i < |d| ==> 0 <= d[i] < 256;
    d
  }

  /** Splits a scalar: the two signed byte strings recombine to the scalar modulo the order. */
  method SplitK(c: Params, k: seq<byte>) returns (k1: seq<byte>, k2: seq<byte>, s1: int, s2: int, ghost t: int)
    requires ParamsOk(c)
    ensures -1 <= s1 <= 1 && -1 <= s2 <= 1 && s1 * Val(k1, 256) == SplitFirst(c, Val(k, 256)) && s2 * Val(k2, 256) == SplitSecond(c, Val(k, 256))
    ensures s1 == 0 ==> Val(k1, 256) == 0
    ensures s2 == 0 ==> Val(k2, 256) == 0
    ensures s1 * Val(k1, 256) + s2 * Val(k2, 256) * c.lambda == Val(k, 256) + c.N * t
  {
    var bigIntK := Val(k, 256);
    var c1 := c.b2 * bigIntK / c.N;
    var c2 := c.b1 * bigIntK / c.N;
    var v1 := bigIntK - c1 * c.a1 + c2 * c.a2;
    var v2 := c2 * c.b2 - c1 * c.b1;
    t := SplitCongruent(c, bigIntK);
    SignedBytes(v1);
    SignedBytes(v2);
    k1, k2, s1, s2 := Bytes(v1), Bytes(v2), Sign(v1), Sign(v2);
  }

  lemma SignedBytes(x: int)
    ensures Sign(x) * Val(Bytes(x), 256) == x && (x == 0 ==> Val(Bytes(x), 256) == 0)
  {
    ValToDigits(Abs(x), 256);
  }

  /** Reduces a scalar of more than `byteSize` bytes modulo the order. */
  method ModuloReduce(c: Params, k: seq<byte>) returns (r: seq<byte>, ghost t: int)
    requires c.N > 0
    ensures Val(k, 256) == Val(r, 256) + c.N * t
    ensures |k| <= c.byteSize ==> r == k
    ensures |k| > c.byteSize ==> 0 <= Val(r, 256) < c.N && (|r| > 0 ==> r[0] != 0)
  {
    hide Val;
    if |k| > c.byteSize {
      var tmp := Val(k, 256) % c.N;
      t := Val(k, 256) / c.N;
      QuotientRest(Val(k, 256), c.N);
      ValToDigits(tmp, 256);
      r := Bytes(tmp);
    } else {
      r, t := k, 0;
    }
  }

  /** No bit is set in both bytes. */
  ghost predicate DisjointBits(p: byte, n: byte) {
    forall i :: 0 <= i < 8 ==> !(BitOf(p, i) == 1 && BitOf(n, i) == 1)
  }

  /** A byte shifted left by one; the top bit is lost. */
  function Shl(x: int): byte {
    2 * x % 256
  }

  lemma Pow7()
    ensures Pow(2, 7) == 128
  {
    assert Pow(2, 3) == 8;
  }

  lemma ShiftBits(x: byte, i: nat)
    requires i < 7
    ensures (BitOf(x, 7) == 1 <==> x >= 128) && BitOf(Shl(x), i + 1) == BitOf(x, i) && BitOf(Shl(x), 0) == 0
  {
    Pow7();
    var y := if x < 128 then x else x - 128;
    SetBit(y, 7, 7);
    SetBit(y, 7, i);
    assert Shl(x) == 2 * y;
  }

  /** Shifting both bytes left keeps them disjoint. */
  lemma ShiftDisjoint(p: byte, n: byte)
    requires DisjointBits(p, n)
    ensures !(p >= 128 && n >= 128) && DisjointBits(Shl(p), Shl(n))
  {
    hide BitOf;
    ShiftBits(p, 0);
    ShiftBits(n, 0);
    forall i | 0 <= i < 8 ensures !(BitOf(Shl(p), i) == 1 && BitOf(Shl(n), i) == 1) {
      if i > 0 {
        ShiftBits(p, i - 1);
        ShiftBits(n, i - 1);
      }
    }
  }

  /** The digit in the top bits of the two bytes. */
  function TopDigit(p: byte, n: byte): int {
    if p >= 128 then 1 else if n >= 128 then -1 else 0
  }

  /** `t` is the value of the bits shifted out so far. */
  ghost predicate Shifted(p0: byte, n0: byte, w: nat, t: int, p: byte, n: byte) {
    (p0 - n0) * w == 256 * t + (p - n) && DisjointBits(p, n)
  }

  lemma ShiftStep(p0: byte, n0: byte, w: nat, t: int, p: byte, n: byte)
    requires Shifted(p0, n0, w, t, p, n)
    ensures Shifted(p0, n0, 2 * w, 2 * t + TopDigit(p, n), Shl(p), Shl(n))
  {
    hide DisjointBits;
    ShiftDisjoint(p, n);
    MulAssoc(p0 - n0, w, 2);
    assert (p0 - n0) * (2 * w) == 2 * (256 * t + (p - n));
    assert Shl(p) == if p >= 128 then 2 * p - 256 else 2 * p;
    assert Shl(n) == if n >= 128 then 2 * n - 256 else 2 * n;
  }

  /** The multiple reached when the scalars read so far are `t1` and `t2` and `e` was shifted by `w`. */
  ghost function Horner(e: int, w: int, c1: int, t1: int, c2: int, t2: int): int {
    e * w + c1 * t1 + c2 * t2
  }

  lemma HornerStep(e: int, w: int, c1: int, t1: int, d1: int, c2: int, t2: int, d2: int)
    ensures Horner(e, 2 * w, c1, 2 * t1 + d1, c2, 2 * t2 + d2) == Horner(e, w, c1, t1, c2, t2) * 2 + d1 * c1 + d2 * c2
  {
  }

  lemma HornerStart(e: int, c1: int, c2: int)
    ensures Horner(e, 1, c1, 0, c2, 0) == e
  {
  }

  lemma ShiftStart(p: byte, n: byte)
    requires DisjointBits(p, n)
    ensures Shifted(p, n, 1, 0, p, n)
  {
  }

  lemma ShiftEnd(p0: byte, n0: byte, t: int, p: byte, n: byte)
    requires Shifted(p0, n0, 256, t, p, n)
    ensures t == p0 - n0
  {
  }

  /** A point, its inverse, and which multiple of the base point it is. */
  ghost predicate IsMultiple<P(!new)>(g: Group<P>, base: P, c: int, p: P, n: P) {
    p == Mul(g, c, base) && n == Mul(g, -c, base)
  }

  /** Adds the point, its inverse or nothing, as the top bits say. */
  method AddTop<P(!new)>(g: Group<P>, q: P, p: P, n: P, bytePos: byte, byteNeg: byte, ghost base: P, ghost acc: int, ghost c: int) returns (r: P)
    requires Abelian(g) && q == Mul(g, acc, base) && IsMultiple(g, base, c, p, n)
    ensures r == Mul(g, acc + TopDigit(bytePos, byteNeg) * c, base)
  {
    r := q;
    MulAdd(g, acc, c, base);
    MulAdd(g, acc, -c, base);
    if bytePos >= 128 {
      r := g.add(q, p);
    } else if byteNeg >= 128 {
      r := g.add(q, n);
    }
  }

  /** The inner loop: eight doublings, each followed by the two digit additions. */
  method AddBytes<P(!new)>(g: Group<P>, q0: P, p1: P, p1Neg: P, p2: P, p2Neg: P, x1: byte, y1: byte, x2: byte, y2: byte,
                           ghost base: P, ghost e: int, ghost c1: int, ghost c2: int) returns (q: P)
    requires Abelian(g) && q0 == Mul(g, e, base)
    requires IsMultiple(g, base, c1, p1, p1Neg) && IsMultiple(g, base, c2, p2, p2Neg)
    requires DisjointBits(x1, y1) && DisjointBits(x2, y2)
    ensures q == Mul(g, Horner(e, 256, c1, Minus(x1, y1), c2, Minus(x2, y2)), base)
  {
    hide Pow, Mul, IsMultiple, Abelian, DisjointBits, Horner, Shifted, TopDigit;
    var k1Pos, k1Neg, k2Pos, k2Neg := x1, y1, x2, y2;
    ghost var t1, t2 := 0, 0;
    q := q0;
    Powers(0);
    HornerStart(e, c1, c2);
    ShiftStart(x1, y1);
    ShiftStart(x2, y2);
    var j := 0;
    while j < 8
      invariant 0 <= j <= 8
      invariant Shifted(x1, y1, Pow(2, j), t1, k1Pos, k1Neg) && Shifted(x2, y2, Pow(2, j), t2, k2Pos, k2Neg)
      invariant q == Mul(g, Horner(e, Pow(2, j), c1, t1, c2, t2), base)
    {
      ghost var w := Pow(2, j);
      ghost var acc, d1, d2 := Horner(e, w, c1, t1, c2, t2), TopDigit(k1Pos, k1Neg), TopDigit(k2Pos, k2Neg);
      MulAdd(g, acc, acc, base);
      HornerStep(e, w, c1, t1, d1, c2, t2, d2);
      ShiftStep(x1, y1, w, t1, k1Pos, k1Neg);
      ShiftStep(x2, y2, w, t2, k2Pos, k2Neg);
      Powers(j);
      q := g.add(q, q);
      q := AddTop(g, q, p1, p1Neg, k1Pos, k1Neg, base, acc + acc, c1);
      q := AddTop(g, q, p2, p2Neg, k2Pos, k2Neg, base, acc + acc + d1 * c1, c2);
      k1Pos, k1Neg, k2Pos, k2Neg := Shl(k1Pos), Shl(k1Neg), Shl(k2Pos), Shl(k2Neg);
      t1, t2 := 2 * t1 + d1, 2 * t2 + d2;
      j := j + 1;
    }
    ShiftEnd(x1, y1, t1, k1Pos, k1Neg);
    ShiftEnd(x2, y2, t2, k2Pos, k2Neg);
  }

  function Minus(x: int, y: int): int {
    x - y
  }

  /** The bytes of `s` padded in front to length `m`. */
  ghost function Padded(s: seq<byte>, m: nat): (z: seq<byte>)
    requires |s| <= m
    ensures |z| == m && Val(z, 256) == Val(s, 256)
    ensures forall i :: 0 <= i < m ==> z[i] == PadByte(s, m, i)
  {
    ValZeros(m - |s|, s, 256);
    var z := Zeros(m - |s|);
    assert forall i :: 0 <= i < |z| ==> z[i] == 0;
    z + s
  }

  function PadByte(s: seq<byte>, m: nat, i: nat): byte
    requires |s| <= m && i < m
  {
    if i < m - |s| then 0 else s[i - (m - |s|)]
  }

  lemma PaddedDisjoint(pos: seq<byte>, neg: seq<byte>, m: nat, i: nat)
    requires NonAdjacent(pos, neg) && |pos| <= m && i < m
    ensures DisjointBits(PadByte(pos, m, i), PadByte(neg, m, i))
  {
    forall j | 0 <= j < 8 ensures !(BitOf(PadByte(pos, m, i), j) == 1 && BitOf(PadByte(neg, m, i), j) == 1) {
      if i < m - |pos| {
        ZeroBits(j);
      } else {
        var t := 8 * (m - 1 - i) + j;
        assert t / 8 == m - 1 - i && t % 8 == j;
        assert !(Bit(pos, t) == 1 && Bit(neg, t) == 1);
      }
    }
  }

  lemma ValPrefix(z: seq<byte>, i: nat)
    requires i < |z|
    ensures Val(z[..i+1], 256) == Val(z[..i], 256) * 256 + z[i]
  {
    assert z[..i+1][..i] == z[..i];
  }

  ghost function Weighted(c1: int, p1: int, n1: int, c2: int, p2: int, n2: int): int {
    c1 * (p1 - n1) + c2 * (p2 - n2)
  }

  /** The multiple of the base point that the first `i` bytes of the padded strings stand for. */
  ghost function Joint(c1: int, z1: seq<byte>, y1: seq<byte>, c2: int, z2: seq<byte>, y2: seq<byte>, i: nat): int
    requires i <= |z1| && i <= |y1| && i <= |z2| && i <= |y2|
  {
    Weighted(c1, Val(z1[..i], 256), Val(y1[..i], 256), c2, Val(z2[..i], 256), Val(y2[..i], 256))
  }

  lemma JointStep(c1: int, z1: seq<byte>, y1: seq<byte>, c2: int, z2: seq<byte>, y2: seq<byte>, i: nat)
    requires i < |z1| && i < |y1| && i < |z2| && i < |y2|
    ensures Joint(c1, z1, y1, c2, z2, y2, i + 1) ==
      Horner(Joint(c1, z1, y1, c2, z2, y2, i), 256, c1, Minus(z1[i], y1[i]), c2, Minus(z2[i], y2[i]))
  {
    ValPrefix(z1, i);
    ValPrefix(y1, i);
    ValPrefix(z2, i);
    ValPrefix(y2, i);
    JoinBytes(c1, Val(z1[..i], 256), Val(y1[..i], 256), z1[i], y1[i], c2, Val(z2[..i], 256), Val(y2[..i], 256), z2[i], y2[i]);
  }

  lemma JoinBytes(c1: int, p1: int, n1: int, x1: int, y1: int, c2: int, p2: int, n2: int, x2: int, y2: int)
    ensures Horner(c1 * (p1 - n1) + c2 * (p2 - n2), 256, c1, x1 - y1, c2, x2 - y2) ==
      c1 * ((p1 * 256 + x1) - (n1 * 256 + y1)) + c2 * ((p2 * 256 + x2) - (n2 * 256 + y2))
  {
  }

  /** The outer loop: the joint left-to-right evaluation of two recoded scalars on two points. */
  method AddAll<P(!new)>(g: Group<P>, p1: P, p1Neg: P, p2: P, p2Neg: P,
                         k1Pos: seq<byte>, k1Neg: seq<byte>, k2Pos: seq<byte>, k2Neg: seq<byte>,
                         ghost base: P, ghost c1: int, ghost c2: int) returns (q: P)
    requires Abelian(g) && IsMultiple(g, base, c1, p1, p1Neg) && IsMultiple(g, base, c2, p2, p2Neg)
    requires NonAdjacent(k1Pos, k1Neg) && NonAdjacent(k2Pos, k2Neg)
    ensures q == Mul(g, Weighted(c1, Val(k1Pos, 256), Val(k1Neg, 256), c2, Val(k2Pos, 256), Val(k2Neg, 256)), base)
  {
    hide Abelian, IsMultiple, DisjointBits, PadByte, BitOf, Joint, Horner, Val, Weighted;
    var m := if |k1Pos| < |k2Pos| then |k2Pos| else |k1Pos|;
    ghost var z1, y1, z2, y2 := Padded(k1Pos, m), Padded(k1Neg, m), Padded(k2Pos, m), Padded(k2Neg, m);
    JointStart(c1, z1, y1, c2, z2, y2);
    JointEnd(c1, z1, y1, c2, z2, y2);
    q := g.zero;
    var i := 0;
    while i < m
      invariant 0 <= i <= m && q == Mul(g, Joint(c1, z1, y1, c2, z2, y2, i), base)
    {
      PaddedDisjoint(k1Pos, k1Neg, m, i);
      PaddedDisjoint(k2Pos, k2Neg, m, i);
      JointStep(c1, z1, y1, c2, z2, y2, i);
      q := AddBytes(g, q, p1, p1Neg, p2, p2Neg, PadByte(k1Pos, m, i), PadByte(k1Neg, m, i),
        PadByte(k2Pos, m, i), PadByte(k2Neg, m, i), base, Joint(c1, z1, y1, c2, z2, y2, i), c1, c2);
      i := i + 1;
    }
  }

  lemma JointStart(c1: int, z1: seq<byte>, y1: seq<byte>, c2: int, z2: seq<byte>, y2: seq<byte>)
    ensures Joint(c1, z1, y1, c2, z2, y2, 0) == 0
  {
    assert Val([], 256) == 0;
    assert z1[..0] == [] && y1[..0] == [] && z2[..0] == [] && y2[..0] == [];
  }

  lemma JointEnd(c1: int, z1: seq<byte>, y1: seq<byte>, c2: int, z2: seq<byte>, y2: seq<byte>)
    requires |z1| == |y1| == |z2| == |y2|
    ensures Joint(c1, z1, y1, c2, z2, y2, |z1|) == Weighted(c1, Val(z1, 256), Val(y1, 256), c2, Val(z2, 256), Val(y2, 256))
  {
    hide Val, Weighted;
    assert z1[..|z1|] == z1 && y1[..|z1|] == y1 && z2[..|z1|] == z2 && y2[..|z1|] == y2;
  }

  /** k times the point, for every scalar byte string. */
  method ScalarMult<P(!new)>(g: Group<P>, c: Params, phi: P -> P, point: P, k: seq<byte>) returns (q: P)
    requires Abelian(g) && ParamsOk(c) && Mul(g, c.N, point) == g.zero && phi(point) == Mul(g, c.lambda, point)
    ensures q == Mul(g, Val(k, 256), point)
  {
    hide Abelian, Mul, NonAdjacent;
    var reduced, k1, k2, signK1, signK2;
    ghost var t, t';
    reduced, t := ModuloReduce(c, k);
    k1, k2, signK1, signK2, t' := SplitK(c, reduced);
    var p1, p1Neg := point, g.neg(point);
    var p2, p2Neg := phi(point), g.neg(phi(point));
    MulOne(g, point);
    MulNeg(g, 1, point);
    MulNeg(g, c.lambda, point);
    ghost var c1, c2 := if signK1 == -1 then -1 else 1, if signK2 == -1 then -c.lambda else c.lambda;
    if signK1 == -1 {
      p1, p1Neg := p1Neg, p1;
    }
    if signK2 == -1 {
      p2, p2Neg := p2Neg, p2;
    }
    var k1Pos, k1Neg := NAF(k1);
    var k2Pos, k2Neg := NAF(k2);
    q := AddAll(g, p1, p1Neg, p2, p2Neg, k1Pos, k1Neg, k2Pos, k2Neg, point, c1, c2);
    Recombine(c, c1, c2, signK1, signK2, Val(k1, 256), Val(k2, 256));
    CongruentBack(Val(k, 256), Val(reduced, 256), c.N, t, t');
    MulCongruent(g, c.N, Val(reduced, 256) + c.N * t', Val(k, 256), t' - t, point);
  }

  lemma Recombine(c: Params, c1: int, c2: int, s1: int, s2: int, v1: int, v2: int)
    requires -1 <= s1 <= 1 && -1 <= s2 <= 1 && (s1 == 0 ==> v1 == 0) && (s2 == 0 ==> v2 == 0)
    requires c1 == (if s1 == -1 then -1 else 1) && c2 == (if s2 == -1 then -c.lambda else c.lambda)
    ensures c1 * v1 + c2 * v2 == s1 * v1 + s2 * v2 * c.lambda
  {
  }

  lemma CongruentBack(k: int, r: int, n: int, t: int, t': int)
    requires k == r + n * t
    ensures r + n * t' == k + n * (t' - t)
  {
    Distribute(t', t, n);
  }

  /** Entry `v` of window `i` is v * 256^(windows above the last one) times the base point. */
  ghost predicate TableAt<P(!new)>(g: Group<P>, base: P, table: seq<seq<P>>, i: nat, v: nat)
    requires i < |table|
  {
    v < |table[i]| && table[i][v] == Mul(g, v * Pow(256, |table| - 1 - i), base)
  }

  ghost predicate TableOk<P(!new)>(g: Group<P>, base: P, table: seq<seq<P>>) {
    forall i, v :: 0 <= i < |table| && 0 <= v < 256 ==> TableAt(g, base, table, i, v)
  }

  /** A number below 256^n is written with at most `n` bytes. */
  lemma {:induction false} DigitCount(x: nat, n: nat)
    requires x < Pow(256, n)
    ensures |ToDigits(x, 256)| <= n
  {
    if n > 0 && x > 0 {
      DigitCount(x / 256, n - 1);
    }
  }

  lemma {:induction false} PrefixShift(k: seq<byte>, i: nat)
    requires i < |k|
    ensures Val(k[..i+1], 256) * Pow(256, |k| - i - 1) == Val(k[..i], 256) * Pow(256, |k| - i) + k[i] * Pow(256, |k| - i - 1)
  {
    ValPrefix(k, i);
    var w := Pow(256, |k| - i - 1);
    Distribute(Val(k[..i], 256) * 256, k[i], w);
    MulAssoc(Val(k[..i], 256), 256, w);
  }

  lemma ReducedFits(c: Params, k: seq<byte>)
    requires c.N <= Pow(256, c.byteSize) && 0 <= Val(k, 256) < c.N && (|k| > 0 ==> k[0] != 0)
    ensures |k| <= c.byteSize
  {
    ToDigitsVal(k, 256);
    DigitCount(Val(k, 256), c.byteSize);
  }

  /** k times the base point, by adding up one table entry per byte. */
  method ScalarBaseMult<P(!new)>(g: Group<P>, c: Params, base: P, bytePoints: seq<seq<P>>, k: seq<byte>) returns (q: P)
    requires Abelian(g) && 0 < c.N <= Pow(256, c.byteSize) && Mul(g, c.N, base) == g.zero
    requires |bytePoints| == c.byteSize && TableOk(g, base, bytePoints)
    ensures q == Mul(g, Val(k, 256), base)
  {
    hide Abelian, Mul, Val, Pow;
    var newK;
    ghost var t;
    newK, t := ModuloReduce(c, k);
    if |k| > c.byteSize {
      ReducedFits(c, newK);
    }
    var diff := |bytePoints| - |newK|;
    q := g.zero;
    BaseStart(g, base, newK);
    var i := 0;
    while i < |newK|
      invariant 0 <= i <= |newK| && q == Mul(g, Val(newK[..i], 256) * Pow(256, |newK| - i), base)
    {
      assert TableAt(g, base, bytePoints, diff + i, newK[i]);
      PrefixShift(newK, i);
      MulAdd(g, Val(newK[..i], 256) * Pow(256, |newK| - i), newK[i] * Pow(256, |newK| - i - 1), base);
      q := g.add(q, bytePoints[diff+i][newK[i]]);
      i := i + 1;
    }
    BaseEnd(newK);
    CongruentBack(Val(k, 256), Val(newK, 256), c.N, t, 0);
    MulCongruent(g, c.N, Val(k, 256), Val(newK, 256), t, base);
  }

  lemma BaseStart<P(!new)>(g: Group<P>, base: P, k: seq<byte>)
    ensures Mul(g, Val(k[..0], 256) * Pow(256, |k|), base) == g.zero
  {
    assert Val(k[..0], 256) == 0;
  }

  lemma BaseEnd(k: seq<byte>)
    ensures Val(k[..|k|], 256) * Pow(256, 0) == Val(k, 256)
  {
    assert k[..|k|] == k && Pow(256, 0) == 1;
  }
}
