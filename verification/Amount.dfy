/** Amount compression of pkg/blockchain/compress.go: trailing decimal zeros become an exponent. */
module Amount {
  import opened Wire
  import opened Radix
  import opened Validate

  /** Takes up to 9 trailing zeros off, counting on from `e`. */
  function Strip(a: nat, e: nat): (r: (nat, nat))
    requires e <= 9
    ensures e <= r.1 <= 9 && (r.1 < 9 && a > 0 ==> r.0 % 10 != 0) && (a > 0 ==> r.0 > 0)
    decreases 9 - e
  {
    if a % 10 == 0 && e < 9 then Strip(a / 10, e + 1) else (a, e)
  }

  function Pack(m: nat, e: nat): nat
    requires m > 0 && (e < 9 ==> m % 10 != 0)
  {
    if e < 9 then 1 + 10 * (9 * (m / 10) + m % 10 - 1) + e else 10 + 10 * (m - 1)
  }

  /** The compressed amount, without any limit on its size. */
  function Compress(a: nat): nat {
    if a == 0 then 0 else var (m, e) := Strip(a, 0); Pack(m, e)
  }

  function Unpacked(x: nat): (m: nat)
    requires x > 0
    ensures m > 0 && ((x - 1) % 10 < 9 ==> m % 10 != 0)
  {
    var y := (x - 1) / 10;
    if (x - 1) % 10 < 9 then y / 9 * 10 + y % 9 + 1 else y + 1
  }

  function Decompress(x: nat): nat {
    if x == 0 then 0 else Unpacked(x) * Pow(10, (x - 1) % 10)
  }

  lemma UnpackPack(m: nat, e: nat)
    requires m > 0 && e <= 9 && (e < 9 ==> m % 10 != 0)
    ensures Pack(m, e) > 0 && (Pack(m, e) - 1) % 10 == e && Unpacked(Pack(m, e)) == m
  {
    if e < 9 {
      var y := m / 10 * 9 + m % 10 - 1;
      DivUnique(Pack(m, e) - 1, y, e, 10);
      DivUnique(y, m / 10, m % 10 - 1, 9);
    } else {
      DivUnique(Pack(m, e) - 1, m - 1, 9, 10);
    }
  }

  lemma PackUnpack(x: nat)
    requires x > 0
    ensures Pack(Unpacked(x), (x - 1) % 10) == x
  {
  }

  lemma TimesTen(x: nat, p: nat)
    ensures 10 * (x * p) == x * (10 * p)
  {
  }

  lemma {:induction false} StripValue(a: nat, e: nat)
    requires e <= 9
    ensures var r := Strip(a, e); a == r.0 * Pow(10, r.1 - e)
    decreases 9 - e
  {
    if a % 10 == 0 && e < 9 {
      StripValue(a / 10, e + 1);
      var r := Strip(a / 10, e + 1);
      assert a == 10 * (a / 10);
      TimesTen(r.0, Pow(10, r.1 - e - 1));
    }
  }

  lemma {:induction false} StripScaled(m: nat, k: nat, e: nat)
    requires e + k <= 9 && m > 0 && (e + k < 9 ==> m % 10 != 0)
    ensures Strip(m * Pow(10, k), e) == (m, e + k)
    decreases k
  {
    if k > 0 {
      var a := m * Pow(10, k);
      MulAssoc(m, Pow(10, k - 1), 10);
      assert a == m * Pow(10, k - 1) * 10;
      DivUnique(a, m * Pow(10, k - 1), 0, 10);
      StripScaled(m, k - 1, e + 1);
    }
  }

  /** The documented formula: an amount with last digit `d` over fewer than nine zeros ... */
  lemma AmountFormula(a: nat, n: nat, d: nat, e: nat)
    requires 1 <= d <= 9 && e < 9 && a == (10 * n + d) * Pow(10, e)
    ensures Compress(a) == 1 + 10 * (9 * n + d - 1) + e
  {
    hide Strip, Pow;
    var m := 10 * n + d;
    DivUnique(m, n, d, 10);
    StripScaled(m, e, 0);
    PowPositive(10, e);
    MulMonotone(1, Pow(10, e), m);
  }

  /** ... and one with nine zeros or more. */
  lemma RoundAmount(a: nat, n: nat)
    requires n > 0 && a == n * Pow(10, 9)
    ensures Compress(a) == 10 + 10 * (n - 1)
  {
    hide Strip, Pow;
    StripScaled(n, 9, 0);
    PowPositive(10, 9);
    MulMonotone(1, Pow(10, 9), n);
  }

  /** Every amount is recovered ... */
  lemma DecompressCompress(a: nat)
    ensures Decompress(Compress(a)) == a
  {
    if a > 0 {
      var r := Strip(a, 0);
      StripValue(a, 0);
      UnpackPack(r.0, r.1);
    }
  }

  /** ... and every number is the compressed form of an amount. */
  lemma CompressDecompress(x: nat)
    ensures Compress(Decompress(x)) == x
  {
    if x > 0 {
      var e := (x - 1) % 10;
      PowPositive(10, e);
      MulMonotone(1, Unpacked(x), Pow(10, e));
      StripScaled(Unpacked(x), e, 0);
      PackUnpack(x);
    }
  }

  /** The compressed form is at most nine times the amount, so amounts in range never wrap in 64 bits. */
  lemma NoWrap(a: nat)
    ensures Compress(a) <= 9 * a + 1
    ensures a <= MAX_SATOSHI ==> Compress(a) < TWO64
  {
    hide Strip, Pow, Pack;
    if a > 0 {
      var r := Strip(a, 0);
      StripValue(a, 0);
      PowGrows(r.1);
      ScaleGrows(r.0, r.1, Pow(10, r.1));
      PackBound(r.0, r.1);
    }
  }

  lemma PackBound(m: nat, e: nat)
    requires m > 0 && (e < 9 ==> m % 10 != 0)
    ensures Pack(m, e) <= if e < 9 then 9 * m + e + 1 else 10 * m
  {
  }

  lemma ScaleGrows(m: nat, e: nat, p: nat)
    requires m > 0 && p > e
    ensures m * p >= m + e && (e == 9 ==> m * p >= 10 * m)
  {
    MulMonotone(e + 1, p, m);
    MulMonotone(1, m, e);
    Distribute(e, 1, m);
  }

  lemma {:induction false} PowGrows(e: nat)
    ensures Pow(10, e) > e
  {
    if e > 0 {
      PowGrows(e - 1);
    }
  }

  method CompressTxOutAmount(amount: nat) returns (r: nat)
    requires amount < TWO64
    ensures r == Compress(amount) % TWO64
  {
    if amount == 0 {
      return 0;
    }
    var rest, exponent := amount, 0;
    while rest % 10 == 0 && exponent < 9
      invariant rest > 0 && 0 <= exponent <= 9 && Strip(rest, exponent) == Strip(amount, 0)
      decreases 9 - exponent
    {
      rest := rest / 10;
      exponent := exponent + 1;
    }
    if exponent < 9 {
      var lastDigit := rest % 10;
      return (1 + 10 * (9 * (rest / 10) + lastDigit - 1) + exponent) % TWO64;
    }
    return (10 + 10 * (rest - 1)) % TWO64;
  }

  method DecompressTxOutAmount(compressed: nat) returns (r: nat)
    requires compressed < TWO64
    ensures r == Decompress(compressed) % TWO64
  {
    if compressed == 0 {
      return 0;
    }
    var exponent, rest := (compressed - 1) % 10, (compressed - 1) / 10;
    var n := if exponent < 9 then rest / 9 * 10 + rest % 9 + 1 else rest + 1;
    ghost var full: nat := n;
    n := n % TWO64;
    assert full == Unpacked(compressed) && full * Pow(10, exponent) == Decompress(compressed);
    hide Decompress, Unpacked, Pow;
    while exponent > 0
      invariant 0 <= exponent < 10 && n == full % TWO64 && full * Pow(10, exponent) == Decompress(compressed)
    {
      ModTimes(full);
      TenMore(full, exponent);
      full := full * 10;
      n := n * 10 % TWO64;
      exponent := exponent - 1;
    }
    TenMore(full, 0);
    return n;
  }

  lemma TenMore(x: nat, e: nat)
    ensures if e == 0 then x * Pow(10, e) == x else x * Pow(10, e) == x * 10 * Pow(10, e - 1)
  {
    if e > 0 {
      MulAssoc(x, 10, Pow(10, e - 1));
    }
  }

  lemma ModTimes(x: nat)
    ensures x % TWO64 * 10 % TWO64 == x * 10 % TWO64
  {
    var q, r := x / TWO64, x % TWO64;
    QuotientRest(x, TWO64);
    QuotientRest(10 * r, TWO64);
    DivUnique(10 * x, 10 * q + 10 * r / TWO64, 10 * r % TWO64, TWO64);
  }
}
