/** Compact difficulty targets of pkg/bits/bits.go: a 23-bit mantissa, a sign bit and a base-256 exponent. */
module Bits {
  import opened Radix

  const MANTISSA_LIMIT := 0x80_0000
  const EXPONENT_UNIT := 0x100_0000

  /** The greatest exponent, less the three bytes of the mantissa. */
  const MAX_SHIFT: nat := 252

  /** 256 to the power of `k`. */
  function Weight(k: nat): (w: nat)
    ensures w > 0
  {
    if k == 0 then 1 else 256 * Weight(k - 1)
  }

  /** The number a compact form stands for; the sign bit is bit 23. */
  function CompactToBig(compact: nat): int {
    var mantissa := compact % MANTISSA_LIMIT;
    var exponent := compact / EXPONENT_UNIT;
    var bn := if exponent <= 3 then mantissa / Weight(3 - exponent) else mantissa * Weight(exponent - 3);
    if compact / MANTISSA_LIMIT % 2 == 1 then -bn else bn
  }

  /** The number of bytes of `n`. */
  function ByteLen(n: nat): nat {
    if n == 0 then 0 else 1 + ByteLen(n / 256)
  }

  /** The three leading bytes of `n`, zeros appended when it has fewer. */
  function Mantissa(n: nat): nat {
    var exponent := ByteLen(n);
    if exponent <= 3 then MulMonotone(0, n, Weight(3 - exponent)); n * Weight(3 - exponent)
    else Quotient(n, Weight(exponent - 3))
  }

  function Quotient(n: nat, w: nat): (q: nat)
    requires w > 0
    ensures q == n / w
  {
    n / w
  }

  /** The three leading bytes of a negative number: the shift rounds down, so its size is rounded up. */
  function MantissaUp(n: nat): nat {
    var exponent := ByteLen(n);
    if exponent <= 3 then Mantissa(n) else RoundUp(n, Weight(exponent - 3))
  }

  function RoundUp(n: nat, w: nat): (q: nat)
    requires w > 0
    ensures n <= q * w < n + w
  {
    var x: int := 0 - n;
    QuotientRest(x, w);
    0 - x / w
  }

  function BigToCompact(n: int): nat {
    if n == 0 then 0
    else if n > 0 then Adjusted(ByteLen(n), Mantissa(n))
    else WithSign(Adjusted(ByteLen(-n), MantissaUp(-n)))
  }

  /** A mantissa with the sign bit set gives a byte to the exponent. */
  function Adjusted(exponent: nat, mantissa: nat): nat {
    if mantissa / MANTISSA_LIMIT % 2 == 1 then Packed(exponent + 1, mantissa / 256) else Packed(exponent, mantissa)
  }

  /** Exponent and mantissa in 32 bits; a mantissa rounded up to 2^24 falls into the lowest exponent bit. */
  function Packed(exponent: nat, mantissa: nat): nat {
    exponent * EXPONENT_UNIT % 0x1_0000_0000 + if mantissa == EXPONENT_UNIT && exponent % 2 == 1 then 0 else mantissa
  }

  function WithSign(compact: nat): nat {
    if compact / MANTISSA_LIMIT % 2 == 1 then compact else compact + MANTISSA_LIMIT
  }

  /** `n` is below 2^23 times 256 to the power of `k`. */
  predicate Below(n: nat, k: nat) {
    n < MANTISSA_LIMIT * Weight(k)
  }

  /** The numbers with an exponent that fits into one byte. */
  predicate CompactFits(n: nat) {
    Below(n, MAX_SHIFT)
  }

  /** `n` with its low bytes cleared until 23 bits are left above them. */
  function Truncated(n: nat): nat {
    if n < MANTISSA_LIMIT then n else 256 * Truncated(n / 256)
  }

  lemma {:induction false} ByteLenBounds(n: nat)
    requires n > 0
    ensures ByteLen(n) > 0 && Weight(ByteLen(n) - 1) <= n < Weight(ByteLen(n))
  {
    if n >= 256 {
      ByteLenBounds(n / 256);
    }
  }

  lemma SmallLengths(n: nat)
    requires 0 < n < EXPONENT_UNIT
    ensures ByteLen(n) == if n < 256 then 1 else if n < 65536 then 2 else 3
  {
    assert n / 256 / 256 / 256 == 0;
  }

  /** The fields of a packed number. */
  lemma Parts(exponent: nat, mantissa: nat)
    requires exponent < 256 && mantissa < MANTISSA_LIMIT
    ensures Packed(exponent, mantissa) / EXPONENT_UNIT == exponent && Packed(exponent, mantissa) % MANTISSA_LIMIT == mantissa
    ensures Packed(exponent, mantissa) / MANTISSA_LIMIT % 2 == 0
  {
  }

  lemma SmallMantissa(n: nat)
    requires 0 < n < EXPONENT_UNIT
    ensures Mantissa(n) == if n < 256 then n * 65536 else if n < 65536 then n * 256 else n
  {
    SmallLengths(n);
    assert Weight(0) == 1 && Weight(1) == 256 && Weight(2) == 65536;
  }

  /** Small numbers are kept exactly. */
  lemma SmallExact(n: nat)
    requires 0 < n < MANTISSA_LIMIT
    ensures CompactToBig(BigToCompact(n)) == n
  {
    hide ByteLen, Mantissa, Packed, CompactToBig;
    SmallMantissa(n);
    SmallLengths(n);
    SmallDecode(if n < 128 then 1 else if n < 0x8000 then 2 else 3, if n < 128 then n * 65536 else if n < 0x8000 then n * 256 else n);
  }

  lemma SmallDecode(exponent: nat, mantissa: nat)
    requires 1 <= exponent <= 3 && mantissa < MANTISSA_LIMIT
    ensures CompactToBig(Packed(exponent, mantissa)) ==
      if exponent == 1 then mantissa / 65536 else if exponent == 2 then mantissa / 256 else mantissa
  {
    hide Packed;
    Parts(exponent, mantissa);
    assert Weight(0) == 1 && Weight(1) == 256 && Weight(2) == 65536;
  }

  /** The leading byte is never zero. */
  lemma MantissaRange(n: nat)
    requires n > 0
    ensures 65536 <= Mantissa(n) < EXPONENT_UNIT
  {
    if n < EXPONENT_UNIT {
      SmallMantissa(n);
    } else {
      LongNumber(n);
      ByteLenBounds(n);
      var l, w := ByteLen(n), Weight(ByteLen(n) - 3);
      assert Weight(l - 1) == 65536 * w && Weight(l) == EXPONENT_UNIT * w by {
        WeightStep(l - 3);
        WeightStep(l - 2);
        WeightStep(l - 1);
      }
      DivisionRange(n, w, 65536, EXPONENT_UNIT);
    }
  }

  lemma DivisionRange(n: nat, w: nat, a: nat, b: nat)
    requires w > 0 && a * w <= n < b * w
    ensures a <= n / w < b
  {
    QuotientRest(n, w);
    if n / w < a {
      MulMonotone(n / w + 1, a, w);
      Distribute(n / w, 1, w);
    } else if n / w >= b {
      MulMonotone(b, n / w, w);
    }
  }

  lemma NestedDivision(n: nat, w: nat)
    requires w > 0
    ensures n / (256 * w) == n / 256 / w
  {
    var q := n / 256;
    var p, r := q / w, q % w;
    QuotientRest(q, w);
    Distribute(p * w, r, 256);
    MulAssoc(p, w, 256);
    DivUnique(n, p, 256 * r + n % 256, 256 * w);
  }

  /** Dropping the last byte of a long number keeps its leading three. */
  lemma MantissaShift(n: nat)
    requires n >= EXPONENT_UNIT
    ensures Mantissa(n) == Mantissa(n / 256) && ByteLen(n / 256) >= 3
  {
    var q := n / 256;
    LongNumber(n);
    if q < EXPONENT_UNIT {
      SmallLengths(q);
      SmallMantissa(q);
      assert Weight(1) == 256 * Weight(0) == 256;
    } else {
      LongNumber(q);
      var w := Weight(ByteLen(q) - 3);
      assert Weight(ByteLen(n) - 3) == 256 * w;
      NestedDivision(n, w);
    }
  }

  /** The exponent written for a number that is not negative. */
  function FinalExponent(n: nat): nat {
    ByteLen(n) + if Mantissa(n) >= MANTISSA_LIMIT then 1 else 0
  }

  lemma ExponentStep(n: nat)
    requires n >= MANTISSA_LIMIT
    ensures FinalExponent(n) == FinalExponent(n / 256) + 1 && FinalExponent(n / 256) >= 3
    ensures ByteLen(n) == ByteLen(n / 256) + 1 && 65536 <= Mantissa(n / 256) < EXPONENT_UNIT
    ensures Adjusted(ByteLen(n), Mantissa(n)) == Adjusted(ByteLen(n), Mantissa(n / 256))
  {
    hide Mantissa, Adjusted, ByteLen;
    var q := n / 256;
    ByteLenStep(n);
    MantissaRange(q);
    if n < EXPONENT_UNIT {
      SmallLengths(q);
      SmallMantissa(n);
      SmallMantissa(q);
      SameAdjusted(ByteLen(n), n, 256 * q);
    } else {
      MantissaShift(n);
    }
  }

  lemma SmallExponent(n: nat)
    requires 0 < n < MANTISSA_LIMIT
    ensures FinalExponent(n) <= 3
  {
    hide ByteLen, Mantissa;
    SmallLengths(n);
    SmallMantissa(n);
  }

  lemma {:induction false} ExponentFits(n: nat, k: nat)
    requires n > 0
    ensures FinalExponent(n) <= 3 + k <==> Below(n, k)
  {
    hide FinalExponent;
    WeightGrows(0, k);
    if n < MANTISSA_LIMIT {
      SmallExponent(n);
    } else {
      ExponentStep(n);
      if k > 0 {
        ExponentFits(n / 256, k - 1);
        BelowStep(n, k);
      }
    }
  }

  lemma {:induction false} WeightGrows(i: nat, k: nat)
    requires i <= k
    ensures Weight(i) <= Weight(k)
  {
    if i < k {
      WeightGrows(i, k - 1);
    }
  }

  lemma BelowStep(n: nat, k: nat)
    requires k > 0
    ensures Below(n, k) <==> Below(n / 256, k - 1)
  {
    WeightStep(k - 1);
    MulAssoc(256, MANTISSA_LIMIT, Weight(k - 1));
  }

  /** One more byte adds one to the exponent and keeps the mantissa. */
  lemma OneMoreByte(n: nat, k: nat)
    requires n >= MANTISSA_LIMIT && Below(n, k) && k <= MAX_SHIFT
    ensures BigToCompact(n) == BigToCompact(n / 256) + EXPONENT_UNIT
    ensures BigToCompact(n / 256) / EXPONENT_UNIT >= 3
    ensures k > 0 && Below(n / 256, k - 1)
  {
    hide Mantissa, Adjusted, Packed, ByteLen, Below;
    ExponentStep(n);
    ExponentFits(n, k);
    BelowStep(n, k);
    PackedShift(ByteLen(n / 256), Mantissa(n / 256));
  }

  lemma ByteLenStep(n: nat)
    requires n > 0
    ensures ByteLen(n) == 1 + ByteLen(n / 256)
  {
  }

  lemma SameAdjusted(exponent: nat, m: nat, k: nat)
    requires MANTISSA_LIMIT <= m < EXPONENT_UNIT && MANTISSA_LIMIT <= k < EXPONENT_UNIT && m / 256 == k / 256
    ensures Adjusted(exponent, m) == Adjusted(exponent, k)
  {
  }

  lemma PackedShift(exponent: nat, mantissa: nat)
    requires mantissa < EXPONENT_UNIT && exponent + (if mantissa >= MANTISSA_LIMIT then 1 else 0) <= 254
    ensures Adjusted(exponent + 1, mantissa) == Adjusted(exponent, mantissa) + EXPONENT_UNIT
    ensures Adjusted(exponent, mantissa) / EXPONENT_UNIT >= exponent
    ensures mantissa >= MANTISSA_LIMIT ==> Adjusted(exponent, mantissa) / EXPONENT_UNIT >= exponent + 1
  {
  }

  lemma WeightStep(e: nat)
    ensures Weight(0) == 1 && Weight(e + 1) == 256 * Weight(e)
  {
  }

  lemma LongNumber(n: nat)
    requires n >= EXPONENT_UNIT
    ensures ByteLen(n) > 3
  {
    ByteLenStep(n);
    ByteLenStep(n / 256);
    ByteLenStep(n / 256 / 256);
    ByteLenStep(n / 256 / 256 / 256);
  }

  lemma {:induction false} TruncatesBelow(n: nat, k: nat)
    requires Below(n, k) && k <= MAX_SHIFT
    ensures CompactToBig(BigToCompact(n)) == Truncated(n)
  {
    hide Mantissa, Adjusted, CompactToBig, BigToCompact, Weight;
    if n >= MANTISSA_LIMIT {
      OneMoreByte(n, k);
      TruncatesBelow(n / 256, k - 1);
      ExponentUp(BigToCompact(n / 256));
      assert Truncated(n) == 256 * Truncated(n / 256);
    } else if n > 0 {
      SmallExact(n);
      assert Truncated(n) == n;
    } else {
      ZeroCompact();
    }
  }

  /** A number decoded from a compact form is kept by encoding and decoding it again. */
  lemma DecodedKept(c: nat)
    requires c < 0x1_0000_0000 && CompactToBig(c) >= 0
    ensures CompactToBig(BigToCompact(CompactToBig(c))) == CompactToBig(c)
  {
    hide CompactToBig, BigToCompact;
    DecodedFits(c);
    CompactTruncates(CompactToBig(c));
    DecodedShort(c);
  }

  lemma DecodedShort(c: nat)
    requires CompactToBig(c) >= 0
    ensures Truncated(CompactToBig(c)) == CompactToBig(c)
  {
    hide Weight;
    var mantissa, exponent := c % MANTISSA_LIMIT, c / EXPONENT_UNIT;
    if exponent <= 3 {
      Shrinks(mantissa, Weight(3 - exponent));
    } else {
      ShiftedShort(mantissa, exponent - 3);
      MulMonotone(0, mantissa, Weight(exponent - 3));
    }
  }

  lemma {:induction false} ShiftedShort(m: nat, k: nat)
    requires m < MANTISSA_LIMIT
    ensures m * Weight(k) >= 0 && Truncated(m * Weight(k)) == m * Weight(k)
  {
    if k > 0 {
      ShiftedShort(m, k - 1);
      WeightStep(k - 1);
      var n := m * Weight(k - 1);
      assert m * Weight(k) == 256 * n by {
        MulAssoc(m, 256, Weight(k - 1));
        MulAssoc(256, m, Weight(k - 1));
      }
      if 256 * n >= MANTISSA_LIMIT {
        DivUnique(256 * n, n, 0, 256);
      }
    } else {
      WeightStep(0);
    }
  }

  /** No compact form stands for more than the largest mantissa under the largest exponent. */
  lemma DecodedFits(c: nat)
    requires c < 0x1_0000_0000 && CompactToBig(c) >= 0
    ensures CompactFits(CompactToBig(c))
  {
    hide Weight;
    var mantissa, exponent := c % MANTISSA_LIMIT, c / EXPONENT_UNIT;
    WeightStep(0);
    if exponent <= 3 {
      WeightGrows(0, MAX_SHIFT);
      QuotientRest(mantissa, Weight(3 - exponent));
      WeightGrows(0, 3 - exponent);
      Shrinks(mantissa, Weight(3 - exponent));
    } else {
      WeightGrows(exponent - 3, MAX_SHIFT);
      MulMonotone(mantissa, MANTISSA_LIMIT - 1, Weight(exponent - 3));
      MulMonotone(Weight(exponent - 3), Weight(MAX_SHIFT), MANTISSA_LIMIT);
      Distribute(MANTISSA_LIMIT, 1, Weight(exponent - 3));
    }
  }

  lemma Shrinks(m: nat, w: nat)
    requires w > 0
    ensures 0 <= m / w <= m
  {
    QuotientRest(m, w);
    MulMonotone(1, w, m / w);
  }

  lemma {:induction false} PowerKept(k: nat)
    ensures Truncated(MANTISSA_LIMIT * Weight(k)) == MANTISSA_LIMIT * Weight(k)
  {
    if k == 0 {
      assert Truncated(0x8000) == 0x8000;
    } else {
      PowerKept(k - 1);
      var n := MANTISSA_LIMIT * Weight(k - 1);
      assert MANTISSA_LIMIT * Weight(k) == 256 * n;
      WeightGrows(0, k - 1);
      OneByteUp(n);
    }
  }

  lemma CompactIs32Bits(n: nat)
    ensures BigToCompact(n) < 0x1_0000_0000
  {
    hide Mantissa, ByteLen, Packed;
    if n > 0 {
      MantissaRange(n);
      PackedIs32Bits(ByteLen(n), Mantissa(n));
      PackedIs32Bits(ByteLen(n) + 1, Mantissa(n) / 256);
    }
  }

  lemma PackedIs32Bits(exponent: nat, mantissa: nat)
    requires mantissa < EXPONENT_UNIT
    ensures Packed(exponent, mantissa) < 0x1_0000_0000
  {
    var low := exponent % 256;
    DivUnique(exponent * EXPONENT_UNIT, exponent / 256, low * EXPONENT_UNIT, 0x1_0000_0000);
  }

  /** Decoding the compact form gives the truncated number exactly for the numbers whose exponent fits into a byte. */
  lemma CompactTruncates(n: nat)
    ensures CompactToBig(BigToCompact(n)) == Truncated(n) <==> CompactFits(n)
  {
    hide CompactToBig, BigToCompact, Weight;
    if CompactFits(n) {
      TruncatesBelow(n, MAX_SHIFT);
    } else {
      CompactIs32Bits(n);
      PowerKept(MAX_SHIFT);
      Monotone(MANTISSA_LIMIT * Weight(MAX_SHIFT), n);
      if CompactToBig(BigToCompact(n)) >= 0 {
        DecodedFits(BigToCompact(n));
      }
    }
  }

  lemma ZeroCompact()
    ensures CompactToBig(0) == 0 && BigToCompact(0) == 0
  {
    DivUnique(0, 0, 0, Weight(3));
  }

  lemma ExponentUp(c: nat)
    requires 3 <= c / EXPONENT_UNIT
    ensures CompactToBig(c + EXPONENT_UNIT) == 256 * CompactToBig(c)
  {
    var e, m := c / EXPONENT_UNIT, c % MANTISSA_LIMIT;
    assert (c + EXPONENT_UNIT) / EXPONENT_UNIT == e + 1 && (c + EXPONENT_UNIT) % MANTISSA_LIMIT == m;
    assert (c + EXPONENT_UNIT) / MANTISSA_LIMIT % 2 == c / MANTISSA_LIMIT % 2;
    var w := Weight(e - 3);
    assert Weight(0) == 1 && Weight(e - 2) == 256 * w;
    assert m * (256 * w) == 256 * (m * w);
    assert m / 1 == m && m * Weight(0) == m;
  }

  // ----- what truncation does -----

  lemma {:induction false} StaysLarge(n: nat)
    requires n >= 0x8000
    ensures Truncated(n) >= 0x8000
  {
    if n >= MANTISSA_LIMIT {
      StaysLarge(n / 256);
    }
  }

  /** Encoding never raises a number, and loses less than one part in 2^15. */
  lemma {:induction false} RoundsDown(n: nat)
    ensures Truncated(n) <= n
    ensures n > 0 ==> n * 0x8000 < Truncated(n) * 0x8001
  {
    if n > 0 {
      var m, u := Leading(n);
      if u > 1 {
        MulMonotone(0x8000, m, u);
        Distribute(m, 1, u);
      }
    }
  }

  lemma {:induction false} Leading(n: nat) returns (m: nat, u: nat)
    requires n > 0
    ensures u > 0 && Truncated(n) == m * u <= n < (m + 1) * u && (u == 1 || m >= 0x8000)
  {
    if n < MANTISSA_LIMIT {
      m, u := n, 1;
    } else {
      var w;
      m, w := Leading(n / 256);
      u := 256 * w;
      MulAssoc(m, w, 256);
      MulAssoc(m + 1, w, 256);
    }
  }

  lemma OneByteUp(x: nat)
    requires x >= 0x8000
    ensures 256 * x / 256 == x && ByteLen(256 * x) == 1 + ByteLen(x) && Truncated(256 * x) == 256 * Truncated(x)
  {
  }

  lemma FitsLess(m: nat, n: nat)
    requires m <= n && CompactFits(n)
    ensures CompactFits(m)
  {
  }

  /** Encoding what was decoded changes nothing more. */
  lemma {:induction false} Idempotent(n: nat, k: nat)
    requires Below(n, k) && k <= MAX_SHIFT
    ensures BigToCompact(Truncated(n)) == BigToCompact(n)
    ensures Truncated(Truncated(n)) == Truncated(n)
  {
    if n >= MANTISSA_LIMIT {
      hide Mantissa, Adjusted, BigToCompact, Weight, ByteLen, Below;
      var q := n / 256;
      OneMoreByte(n, k);
      Idempotent(q, k - 1);
      StaysLarge(q);
      OneByteUp(Truncated(q));
      RoundsDown(n);
      BelowLess(256 * Truncated(q), n, k);
      OneMoreByte(256 * Truncated(q), k);
    }
  }

  lemma BelowLess(m: nat, n: nat, k: nat)
    requires m <= n && Below(n, k)
    ensures Below(m, k)
  {
  }

  /** Encoding keeps the order. */
  lemma {:induction false} Monotone(m: nat, n: nat)
    requires m <= n
    ensures Truncated(m) <= Truncated(n)
  {
    if m >= MANTISSA_LIMIT {
      Monotone(m / 256, n / 256);
    } else if n >= MANTISSA_LIMIT {
      StaysLarge(n / 256);
    }
  }

  /**
   The compact form rounds down by less than one part in 2^15, and rounding a second time changes nothing.
   */
  lemma CompactRounding(n: nat)
    requires CompactFits(n)
    ensures var d := CompactToBig(BigToCompact(n));
      0 <= d <= n && (n > 0 ==> n * 0x8000 < d * 0x8001) && BigToCompact(d) == BigToCompact(n)
  {
    CompactTruncates(n);
    RoundsDown(n);
    Idempotent(n, MAX_SHIFT);
  }

  /** A larger number never has a smaller compact value. */
  lemma CompactMonotone(m: nat, n: nat)
    requires m <= n && CompactFits(n)
    ensures CompactToBig(BigToCompact(m)) <= CompactToBig(BigToCompact(n))
  {
    CompactTruncates(m);
    CompactTruncates(n);
    Monotone(m, n);
  }

  // ----- negative numbers -----

  /** The top three bytes are all ones and something is below them. */
  predicate CarriesOut(n: nat) {
    ByteLen(n) > 3 && n > (EXPONENT_UNIT - 1) * Weight(ByteLen(n) - 3)
  }

  /** Decoding the fields of a negative number. */
  lemma NegativeDecode(exponent: nat, mantissa: nat)
    requires 3 < exponent && mantissa <= EXPONENT_UNIT
    requires exponent + (if MANTISSA_LIMIT <= mantissa < EXPONENT_UNIT then 1 else 0) <= 255
    ensures var d := CompactToBig(WithSign(Adjusted(exponent, mantissa)));
      d == if mantissa < MANTISSA_LIMIT then -(mantissa * Weight(exponent - 3))
        else if mantissa < EXPONENT_UNIT then -(mantissa / 256 * Weight(exponent - 2))
        else 0
  {
    hide Weight, CompactToBig, WithSign, Packed;
    if mantissa < MANTISSA_LIMIT {
      SignedParts(exponent, mantissa);
    } else if mantissa < EXPONENT_UNIT {
      SignedParts(exponent + 1, mantissa / 256);
    } else {
      EmptyParts(exponent);
    }
  }

  lemma SignedParts(exponent: nat, mantissa: nat)
    requires 3 < exponent < 256 && mantissa < MANTISSA_LIMIT
    ensures CompactToBig(WithSign(Packed(exponent, mantissa))) == -(mantissa * Weight(exponent - 3))
  {
    hide Weight, WithSign, Packed;
    Parts(exponent, mantissa);
    SignTurns(Packed(exponent, mantissa));
  }

  /** A mantissa rounded up to 2^24 leaves none at all. */
  lemma EmptyParts(exponent: nat)
    requires 3 < exponent <= 255
    ensures CompactToBig(WithSign(Adjusted(exponent, EXPONENT_UNIT))) == 0
  {
    hide WithSign, CompactToBig, Weight;
    var e := if exponent % 2 == 1 then exponent else exponent + 1;
    assert Adjusted(exponent, EXPONENT_UNIT) == Packed(e, 0);
    SignedParts(e, 0);
  }

  lemma UpRange(n: nat)
    requires n >= EXPONENT_UNIT
    ensures ByteLen(n) > 3 && 65536 <= MantissaUp(n) <= EXPONENT_UNIT
    ensures MantissaUp(n) == EXPONENT_UNIT <==> CarriesOut(n)
  {
    LongNumber(n);
    ByteLenBounds(n);
    var l, w, m := ByteLen(n), Weight(ByteLen(n) - 3), MantissaUp(n);
    assert Weight(l - 1) == 65536 * w && Weight(l) == EXPONENT_UNIT * w by {
      WeightStep(l - 3);
      WeightStep(l - 2);
      WeightStep(l - 1);
    }
    if m < 65536 {
      MulMonotone(m, 65535, w);
    }
    if m > EXPONENT_UNIT {
      MulMonotone(EXPONENT_UNIT + 1, m, w);
    }
    if m < EXPONENT_UNIT {
      MulMonotone(m, EXPONENT_UNIT - 1, w);
    }
  }

  lemma SmallNegative(n: nat, x: int)
    requires 0 < n < EXPONENT_UNIT && x + n == 0
    ensures CompactToBig(BigToCompact(x)) + Truncated(n) == 0 && !CarriesOut(n)
  {
    hide Mantissa, Weight, Truncated, CompactToBig, WithSign, Adjusted;
    SmallLengths(n);
    SmallMantissa(n);
    assert Below(n, 1) by {
      WeightStep(0);
    }
    TruncatesBelow(n, 1);
    SignClear(ByteLen(n), Mantissa(n));
    SignTurns(Adjusted(ByteLen(n), Mantissa(n)));
  }

  lemma SignClear(exponent: nat, mantissa: nat)
    requires exponent <= 3 && mantissa < EXPONENT_UNIT
    ensures Adjusted(exponent, mantissa) / MANTISSA_LIMIT % 2 == 0
  {
    hide Packed;
    if mantissa < MANTISSA_LIMIT {
      Parts(exponent, mantissa);
    } else {
      Parts(exponent + 1, mantissa / 256);
    }
  }

  /** The sign bit turns the number round. */
  lemma SignTurns(c: nat)
    requires c / MANTISSA_LIMIT % 2 == 0
    ensures CompactToBig(WithSign(c)) == -CompactToBig(c)
  {
    hide Weight;
    var d, q, m := c + MANTISSA_LIMIT, c / EXPONENT_UNIT, c % MANTISSA_LIMIT;
    DivUnique(c / MANTISSA_LIMIT, q, 0, 2);
    DivUnique(d, 2 * q + 1, m, MANTISSA_LIMIT);
    DivUnique(d, q, MANTISSA_LIMIT + m, EXPONENT_UNIT);
  }

  /** How far the size of a negative number moves: at most one unit up, at most 255 units down. */
  lemma NegativeMoves(n: nat, w: nat, m: nat)
    requires w > 0 && n <= m * w < n + w && 65536 <= m < EXPONENT_UNIT
    ensures var e := if m < MANTISSA_LIMIT then m * w else m / 256 * (256 * w);
      0 < e && (e - n) * 0x8000 <= n && (n - e) * 0x8000 <= n
  {
    MulMonotone(65536, m, w);
    if m >= MANTISSA_LIMIT {
      var r := m % 256;
      assert m == m / 256 * 256 + r;
      MulAssoc(m / 256, 256, w);
      Distribute(m, r, w);
      assert m / 256 * (256 * w) == (m - r) * w == m * w - r * w;
      if m == MANTISSA_LIMIT {
        assert r == 0;
      } else {
        MulMonotone(MANTISSA_LIMIT + 1, m, w);
      }
      MulMonotone(r, 255, w);
    }
  }

  /** The result is negative and off by at most one part in 2^15. */
  predicate Close(n: int, d: int) {
    d < 0 && (d - n) * 0x8000 <= -n && (n - d) * 0x8000 <= -n
  }

  /** The sizes of negative numbers whose exponent fits into a byte after rounding up. */
  predicate NegativeFits(n: nat) {
    n <= (MANTISSA_LIMIT - 1) * Weight(MAX_SHIFT)
  }

  /** A negative number whose exponent fits comes back as zero exactly when the rounding carries out, and close otherwise. */
  lemma NegativeInRange(n: int)
    requires n < 0 && NegativeFits(-n)
    ensures var d := CompactToBig(BigToCompact(n));
      (d == 0 <==> CarriesOut(-n)) && (!CarriesOut(-n) ==> Close(n, d))
  {
    hide CompactToBig, Adjusted, WithSign, Weight, CarriesOut, Mantissa, MantissaUp, ByteLen, NegativeFits;
    if -n < EXPONENT_UNIT {
      SmallNegative(-n, n);
      RoundsDown(-n);
    } else {
      UpRange(-n);
      FitsExponent(-n);
      var l, m := ByteLen(-n), MantissaUp(-n);
      NegativeDecode(l, m);
      WeightStep(l - 3);
      if m < EXPONENT_UNIT {
        UpRounds(-n);
        NegativeMoves(-n, Weight(l - 3), m);
      }
    }
  }

  /** A number fits exactly when it has at most 254 bytes, or 255 and a mantissa below the sign bit. */
  lemma FitsExponent(n: nat)
    requires n >= EXPONENT_UNIT
    ensures NegativeFits(n) <==> ByteLen(n) <= 254 || (ByteLen(n) == 255 && MantissaUp(n) < MANTISSA_LIMIT)
  {
    hide ByteLen, MantissaUp, Weight;
    LongNumber(n);
    ByteLenBounds(n);
    UpRounds(n);
    var l, w, k := ByteLen(n), Weight(MAX_SHIFT), MAX_SHIFT;
    WeightStep(k);
    WeightStep(k + 1);
    WeightStep(k + 2);
    if l <= 254 {
      WeightGrows(l, k + 2);
    } else if l >= 256 {
      WeightGrows(k + 3, l - 1);
    } else if MantissaUp(n) < MANTISSA_LIMIT {
      MulMonotone(MantissaUp(n), MANTISSA_LIMIT - 1, w);
    } else {
      MulMonotone(MANTISSA_LIMIT, MantissaUp(n), w);
      Distribute(MANTISSA_LIMIT, 1, w);
    }
  }

  lemma SignedBelow(c: nat)
    requires c < 0x1_0000_0000
    ensures CompactToBig(c) >= 0 || CompactFits(-CompactToBig(c))
  {
    if CompactToBig(c) < 0 {
      assert c / MANTISSA_LIMIT % 2 == 1;
      var d := c - MANTISSA_LIMIT;
      assert d / MANTISSA_LIMIT % 2 == 0 && WithSign(d) == c by {
        SignBitOff(c);
      }
      SignTurns(d);
      DecodedFits(d);
    }
  }

  lemma SignBitOff(c: nat)
    requires c / MANTISSA_LIMIT % 2 == 1
    ensures c >= MANTISSA_LIMIT && (c - MANTISSA_LIMIT) / MANTISSA_LIMIT % 2 == 0
  {
  }

  lemma LargeSize(n: nat)
    requires ByteLen(n) > 3
    ensures n >= EXPONENT_UNIT
  {
    if 0 < n < EXPONENT_UNIT {
      SmallLengths(n);
    }
  }

  /** With 256 bytes or more the exponent wraps, and what comes back is less than half the size. */
  lemma WrappedIsFar(n: int)
    requires n < 0 && ByteLen(-n) >= 256
    ensures !Close(n, CompactToBig(BigToCompact(n)))
  {
    hide ByteLen, Weight, CompactToBig, Adjusted;
    var c, k := BigToCompact(n), MAX_SHIFT;
    LargeSize(-n);
    NegativeIs32Bits(n);
    SignedBelow(c);
    ByteLenBounds(-n);
    WeightGrows(k + 3, ByteLen(-n) - 1);
    WeightStep(k);
    WeightStep(k + 1);
    WeightStep(k + 2);
  }

  lemma NegativeIs32Bits(n: int)
    requires n < 0 && -n >= EXPONENT_UNIT
    ensures BigToCompact(n) < 0x1_0000_0000
  {
    hide ByteLen, MantissaUp, Adjusted, WithSign;
    UpRange(-n);
    SignedIs32Bits(ByteLen(-n), MantissaUp(-n));
  }

  lemma SignedIs32Bits(exponent: nat, mantissa: nat)
    requires mantissa <= EXPONENT_UNIT
    ensures WithSign(Adjusted(exponent, mantissa)) < 0x1_0000_0000
  {
    hide Packed;
    if mantissa == EXPONENT_UNIT {
      FullMantissa(exponent);
      PackedFields(if exponent % 2 == 1 then exponent else exponent + 1, 0);
    } else if mantissa >= MANTISSA_LIMIT {
      PackedFields(exponent + 1, mantissa / 256);
    } else {
      PackedFields(exponent, mantissa);
    }
  }

  lemma FullMantissa(exponent: nat)
    ensures Adjusted(exponent, EXPONENT_UNIT) == Packed(if exponent % 2 == 1 then exponent else exponent + 1, 0)
  {
    hide Packed;
    assert Adjusted(exponent, EXPONENT_UNIT) == Packed(exponent, EXPONENT_UNIT);
    FullPacked(exponent);
  }

  lemma FullPacked(exponent: nat)
    ensures Packed(exponent, EXPONENT_UNIT) == Packed(if exponent % 2 == 1 then exponent else exponent + 1, 0)
  {
    if exponent % 2 == 0 {
      ExponentByte(exponent);
      ExponentByte(exponent + 1);
      NextByte(exponent);
    }
  }

  lemma NextByte(exponent: nat)
    requires exponent % 2 == 0
    ensures (exponent + 1) % 256 == exponent % 256 + 1
  {
    var q, r := exponent / 256, exponent % 256;
    QuotientRest(exponent, 256);
    if r == 255 {
      DivUnique(exponent, 128 * q + 127, 1, 2);
    } else {
      DivUnique(exponent + 1, q, r + 1, 256);
    }
  }

  lemma ExponentByte(exponent: nat)
    ensures exponent * EXPONENT_UNIT % 0x1_0000_0000 == exponent % 256 * EXPONENT_UNIT
  {
    DivUnique(exponent * EXPONENT_UNIT, exponent / 256, exponent % 256 * EXPONENT_UNIT, 0x1_0000_0000);
  }

  lemma PackedFields(exponent: nat, mantissa: nat)
    requires mantissa < MANTISSA_LIMIT
    ensures Packed(exponent, mantissa) == exponent % 256 * EXPONENT_UNIT + mantissa
    ensures Packed(exponent, mantissa) / MANTISSA_LIMIT % 2 == 0
  {
    ExponentByte(exponent);
  }

  /** With 255 bytes and a mantissa from the sign bit on, nothing is left. */
  lemma JustTooLong(n: int)
    requires n < 0 && ByteLen(-n) == 255 && MantissaUp(-n) >= MANTISSA_LIMIT && -n >= EXPONENT_UNIT
    ensures CompactToBig(BigToCompact(n)) == 0
  {
    hide ByteLen, MantissaUp, Weight, CompactToBig, WithSign, Packed;
    var m := MantissaUp(-n);
    UpRange(-n);
    if m == EXPONENT_UNIT {
      EmptyParts(255);
    } else {
      PackedFields(256, m / 256);
      SmallWithoutExponent(m / 256);
      SignTurns(m / 256);
    }
  }

  lemma SmallWithoutExponent(m: nat)
    requires m < 65536
    ensures CompactToBig(m) == 0 && m / MANTISSA_LIMIT % 2 == 0
  {
    WeightStep(0);
    WeightStep(1);
    WeightStep(2);
    DivUnique(m, 0, m, Weight(3));
  }

  /**
   A negative number comes back within one part in 2^15 if and only if its size is at most (2^23 - 1) * 256^252 and
   rounding it up does not carry out of the three leading bytes.
   */
  lemma NegativeRounding(n: int)
    requires n < 0
    ensures Close(n, CompactToBig(BigToCompact(n))) <==> NegativeFits(-n) && !CarriesOut(-n)
  {
    hide CompactToBig, Weight, CarriesOut, MantissaUp, ByteLen, NegativeFits, BigToCompact;
    if NegativeFits(-n) {
      NegativeInRange(n);
    } else {
      NotSmall(-n);
      FitsExponent(-n);
      if ByteLen(-n) >= 256 {
        WrappedIsFar(n);
      } else {
        JustTooLong(n);
      }
    }
  }

  lemma NotSmall(n: nat)
    requires !NegativeFits(n)
    ensures n >= EXPONENT_UNIT
  {
    var k := MAX_SHIFT;
    WeightGrows(1, k);
    WeightStep(0);
  }

  lemma UpRounds(n: nat)
    requires ByteLen(n) > 3
    ensures n <= MantissaUp(n) * Weight(ByteLen(n) - 3) < n + Weight(ByteLen(n) - 3)
  {
  }

  lemma SmallFits()
    ensures NegativeFits(0xFFFF_FFFF)
  {
    var k := MAX_SHIFT;
    WeightGrows(2, k);
    WeightStep(0);
    WeightStep(1);
  }

  /** Such a number, one more than minus 2^32, is written as minus nothing. */
  lemma NegativeLost()
    ensures CompactToBig(BigToCompact(-0xFFFF_FFFF)) == 0
  {
    assert ByteLen(0xFFFF_FFFF) == 4 by {
      ByteLenStep(0xFFFF_FFFF);
      SmallLengths(0xFF_FFFF);
    }
    WeightStep(0);
    assert CarriesOut(0xFFFF_FFFF);
    SmallFits();
    NegativeInRange(-0xFFFF_FFFF);
  }

  // ----- the format -----

  lemma {:induction false} WeightIsPow(k: nat)
    ensures Weight(k) == Pow(256, k)
  {
    if k > 0 {
      WeightIsPow(k - 1);
    }
  }

  /** Exponent, sign bit and mantissa in one number: what it stands for. */
  lemma CompactFormula(exponent: nat, negative: bool, mantissa: nat)
    requires exponent < 256 && mantissa < 0x80_0000
    ensures var c := exponent * 0x100_0000 + (if negative then 0x80_0000 else 0) + mantissa;
      var size := if exponent <= 3 then (PowPositive(256, 3 - exponent); mantissa / Pow(256, 3 - exponent)) else mantissa * Pow(256, exponent - 3);
      CompactToBig(c) == if negative then -size else size
  {
    hide Weight, Pow;
    var c := exponent * 0x100_0000 + (if negative then 0x80_0000 else 0) + mantissa;
    var rest := c - exponent * 0x100_0000;
    DivUnique(c, exponent, rest, EXPONENT_UNIT);
    DivUnique(c, 2 * exponent + if negative then 1 else 0, mantissa, MANTISSA_LIMIT);
    assert c / MANTISSA_LIMIT % 2 == 1 <==> negative by {
      DivUnique(c / MANTISSA_LIMIT, exponent, if negative then 1 else 0, 2);
    }
    if exponent <= 3 {
      WeightIsPow(3 - exponent);
    } else {
      WeightIsPow(exponent - 3);
    }
  }

  /** The compact form of a positive number has no sign bit and no room for a smaller exponent. */
  lemma CompactIsShortest(n: nat)
    requires n > 0 && CompactFits(n)
    ensures 0x8000 <= BigToCompact(n) % 0x100_0000 < 0x80_0000
  {
    hide ByteLen, Mantissa, Packed, Adjusted;
    MantissaRange(n);
    var l, m := ByteLen(n), Mantissa(n);
    AdjustedIs(l, m);
    if m < MANTISSA_LIMIT {
      PackedFields(l, m);
      DivUnique(Packed(l, m), l % 256, m, EXPONENT_UNIT);
    } else {
      PackedFields(l + 1, m / 256);
      DivUnique(Packed(l + 1, m / 256), (l + 1) % 256, m / 256, EXPONENT_UNIT);
    }
  }

  lemma AdjustedIs(exponent: nat, mantissa: nat)
    requires mantissa < EXPONENT_UNIT
    ensures Adjusted(exponent, mantissa) == if mantissa < MANTISSA_LIMIT then Packed(exponent, mantissa) else Packed(exponent + 1, mantissa / 256)
  {
    hide Packed;
  }
}
