/** The non-adjacent form of pkg/ecc/btcec.go: a byte string recoded with digits -1, 0 and 1. */
module Naf {
  import opened Wire
  import opened Radix

  /** Bit `j` of a number, 0 being the lowest. */
  function BitOf(b: nat, j: nat): (r: int)
    ensures r == 0 || r == 1
  {
    if j == 0 then b % 2 else BitOf(b / 2, j - 1)
  }

  /** The recoded digit at bit `j` is not zero. */
  predicate NonZeroAt(p: nat, n: nat, j: nat) {
    BitOf(p, j) == 1 || BitOf(n, j) == 1
  }

  /** The lowest `t` bits of the two never hold a 1 in the same place, nor in neighbouring places. */
  predicate SparseBits(p: nat, n: nat, t: nat) {
    (forall j :: 0 <= j < t ==> !(BitOf(p, j) == 1 && BitOf(n, j) == 1)) &&
    (forall i, j :: 0 <= i < t && j == i + 1 < t ==> !(NonZeroAt(p, n, i) && NonZeroAt(p, n, j)))
  }

  function Unit(c: bool): int {
    if c then 1 else 0
  }

  /** Setting bit `j` above the others leaves the lower ones alone. */
  lemma {:induction false} SetBit(p: nat, j: nat, i: nat)
    requires p < Pow(2, j) && i <= j
    ensures BitOf(p + Pow(2, j), i) == if i == j then 1 else BitOf(p, i)
    ensures i == j ==> BitOf(p, i) == 0
  {
    if j > 0 && i > 0 {
      assert (p + Pow(2, j)) / 2 == p / 2 + Pow(2, j - 1);
      SetBit(p / 2, j - 1, i - 1);
    }
  }

  /** Turns bit `j` on when asked to. */
  function Put(x: nat, j: nat, here: bool): nat {
    if here then x + Pow(2, j) else x
  }

  /** Adding a digit above the lowest `j` keeps the pair sparse when the digit below it is zero. */
  lemma AddDigit(p: nat, n: nat, j: nat, d: int)
    requires p < Pow(2, j) && n < Pow(2, j) && SparseBits(p, n, j) && -1 <= d <= 1
    requires d != 0 && j > 0 ==> !NonZeroAt(p, n, j - 1)
    ensures var p', n' := Put(p, j, d == 1), Put(n, j, d == -1);
      p' < Pow(2, j + 1) && n' < Pow(2, j + 1) && SparseBits(p', n', j + 1) &&
      (NonZeroAt(p', n', j) <==> d != 0) && (j > 0 ==> (NonZeroAt(p', n', 0) <==> NonZeroAt(p, n, 0)))
  {
    var p', n' := Put(p, j, d == 1), Put(n, j, d == -1);
    forall i | 0 <= i <= j
      ensures BitOf(p', i) == if i < j then BitOf(p, i) else Unit(d == 1)
      ensures BitOf(n', i) == if i < j then BitOf(n, i) else Unit(d == -1)
    {
      SetBit(p, j, i);
      SetBit(n, j, i);
    }
    forall i, i' | 0 <= i <= j && i' == i + 1 <= j ensures !(NonZeroAt(p', n', i) && NonZeroAt(p', n', i')) {
      assert i' < j ==> !(NonZeroAt(p, n, i) && NonZeroAt(p, n, i'));
    }
  }

  /** With weight `w`: the digits so far and the carry stand for the part of the byte above which `rest` remains. */
  ghost predicate ReadOff(cur: int, rest: int, w: int, digits: int, c: int, c0: int) {
    digits + w * c == cur - rest * w + c0 && rest * w <= cur && rest >= 0
  }

  lemma ReadStart(cur: byte, c0: int)
    ensures ReadOff(cur, cur, 1, 0, c0, c0)
  {
  }

  lemma ReadStep(cur: int, rest: nat, j: nat, p: nat, n: nat, c: int, c0: int, d: int, c': int)
    requires ReadOff(cur, rest, Pow(2, j), p - n, c, c0) && rest % 2 + c == d + 2 * c' && -1 <= d <= 1
    ensures ReadOff(cur, rest / 2, Pow(2, j + 1), Put(p, j, d == 1) - Put(n, j, d == -1), c', c0)
  {
    var w: int := Pow(2, j);
    assert d * w == if d == 1 then w else if d == -1 then -w else 0;
    CarryBit(w, rest % 2, c, d, c');
    HalveRest(rest, w);
    MulMonotone(0, rest % 2, w);
  }

  lemma ReadEnd(cur: byte, rest: int, digits: int, c: int, c0: int)
    requires ReadOff(cur, rest, 256, digits, c, c0)
    ensures digits + 256 * c == cur + c0
  {
  }

  lemma CarryBit(w: int, bit: int, c: int, d: int, c': int)
    requires bit + c == d + 2 * c'
    ensures d * w + (2 * w) * c' == bit * w + w * c
  {
    Distribute(bit, c, w);
    Distribute(d, 2 * c', w);
  }

  lemma NothingSparse()
    ensures SparseBits(0, 0, 0)
  {
  }

  lemma Powers(j: nat)
    ensures Pow(2, 0) == 1 && Pow(2, 8) == 256 && Pow(2, j + 1) == 2 * Pow(2, j)
  {
    assert Pow(2, 4) == 16;
  }

  /** Halving the rest of the byte moves its lowest bit to the part already read. */
  lemma HalveRest(rest: nat, w: nat)
    ensures rest / 2 * (2 * w) == rest * w - rest % 2 * w
  {
    assert rest == 2 * (rest / 2) + rest % 2;
    Distribute(2 * (rest / 2), rest % 2, w);
    MulAssoc(rest / 2, 2, w);
  }

  /** The digit of a bit: none where bit and carry agree, otherwise -1 when a run of ones goes on, else 1. */
  function Recoding(carry: bool, curIsOne: bool, nextIsOne: bool): int {
    if carry == curIsOne then 0 else if nextIsOne then -1 else 1
  }

  function Carries(carry: bool, curIsOne: bool, nextIsOne: bool): bool {
    if carry == curIsOne then carry else nextIsOne
  }

  /** The branches for one bit. */
  method RecodeBit(p: nat, n: nat, carryIn: bool, curIsOne: bool, nextIsOne: bool, j: nat) returns (p': nat, n': nat, carry: bool)
    ensures var d := Recoding(carryIn, curIsOne, nextIsOne); p' == Put(p, j, d == 1) && n' == Put(n, j, d == -1)
    ensures carry == Carries(carryIn, curIsOne, nextIsOne)
    ensures Unit(curIsOne) + Unit(carryIn) == Recoding(carryIn, curIsOne, nextIsOne) + 2 * Unit(carry)
  {
    p', n', carry := p, n, carryIn;
    if carry {
      if !curIsOne {
        if nextIsOne {
          n' := n + Pow(2, j);
        } else {
          carry := false;
          p' := p + Pow(2, j);
        }
      }
    } else if curIsOne {
      if nextIsOne {
        n' := n + Pow(2, j);
        carry := true;
      } else {
        p' := p + Pow(2, j);
      }
    }
  }

  /**
   The inner loop: recodes one byte from its lowest bit up.  The digit values plus the carry equal the byte
   plus the incoming carry; the digits are sparse, a first digit appears only where bit and carry differ, and
   a last digit leaves a carry equal to the next bit.
   */
  method RecodeByte(cur: byte, next: bool, carryIn: bool) returns (pos: byte, neg: byte, carry: bool)
    ensures pos - neg + 256 * Unit(carry) == cur + Unit(carryIn)
    ensures SparseBits(pos, neg, 8)
    ensures NonZeroAt(pos, neg, 0) <==> (cur % 2 == 1) != carryIn
    ensures NonZeroAt(pos, neg, 7) ==> carry == next
  {
    hide Pow, SparseBits, BitOf, ReadOff, Put;
    var p: nat, n: nat, curByte: nat := 0, 0, cur;
    Powers(0);
    NothingSparse();
    ReadStart(cur, Unit(carryIn));
    carry := carryIn;
    var j := 0;
    while j < 8
      invariant 0 <= j <= 8 && p < Pow(2, j) && n < Pow(2, j) && SparseBits(p, n, j)
      invariant ReadOff(cur, curByte, Pow(2, j), p - n, Unit(carry), Unit(carryIn))
      invariant j == 0 ==> carry == carryIn && curByte == cur
      invariant j > 0 ==> (NonZeroAt(p, n, 0) <==> (cur % 2 == 1) != carryIn)
      invariant j > 0 && NonZeroAt(p, n, j - 1) ==> carry == if j == 8 then next else curByte % 2 == 1
    {
      var curIsOne := curByte % 2 == 1;
      var nextIsOne := if j == 7 then next else (curByte / 2) % 2 == 1;
      ghost var d, after := Recoding(carry, curIsOne, nextIsOne), Carries(carry, curIsOne, nextIsOne);
      AddDigit(p, n, j, d);
      ReadStep(cur, curByte, j, p, n, Unit(carry), Unit(carryIn), d, Unit(after));
      Powers(j);
      p, n, carry := RecodeBit(p, n, carry, curIsOne, nextIsOne, j);
      curByte := curByte / 2;
      j := j + 1;
    }
    ReadEnd(cur, curByte, p - n, Unit(carry), Unit(carryIn));
    pos, neg := p, n;
  }

  /** The bytes are sparse one by one and across their borders. */
  predicate SparseByteAt(pos: seq<byte>, neg: seq<byte>, m: nat)
    requires |pos| == |neg| && m < |pos|
  {
    SparseBits(pos[m], neg[m], 8) && (m > 0 ==> !(NonZeroAt(pos[m], neg[m], 7) && NonZeroAt(pos[m-1], neg[m-1], 0)))
  }

  predicate SparseBytes(pos: seq<byte>, neg: seq<byte>) {
    |pos| == |neg| && forall m :: 0 <= m < |pos| ==> SparseByteAt(pos, neg, m)
  }

  /** Bit `t` of a byte string, 0 being the lowest bit of the last byte. */
  function Bit(s: seq<byte>, t: nat): int
    requires t < 8 * |s|
  {
    BitOf(s[|s|-1 - t / 8], t % 8)
  }

  function DigitAt(pos: seq<byte>, neg: seq<byte>, t: nat): int
    requires |pos| == |neg| && t < 8 * |pos|
  {
    Bit(pos, t) - Bit(neg, t)
  }

  /** A non-adjacent form: no bit is set in both strings, and no two neighbouring digits are nonzero. */
  ghost predicate NonAdjacent(pos: seq<byte>, neg: seq<byte>) {
    |pos| == |neg| &&
    (forall t :: 0 <= t < 8 * |pos| ==> !(Bit(pos, t) == 1 && Bit(neg, t) == 1)) &&
    (forall t :: 0 < t < 8 * |pos| ==> DigitAt(pos, neg, t - 1) == 0 || DigitAt(pos, neg, t) == 0)
  }

  lemma BytesAreSparse(pos: seq<byte>, neg: seq<byte>)
    requires SparseBytes(pos, neg)
    ensures NonAdjacent(pos, neg)
  {
    forall t | 0 <= t < 8 * |pos|
      ensures !(Bit(pos, t) == 1 && Bit(neg, t) == 1)
      ensures t > 0 ==> DigitAt(pos, neg, t - 1) == 0 || DigitAt(pos, neg, t) == 0
    {
      var m, j := |pos| - 1 - t / 8, t % 8;
      assert SparseByteAt(pos, neg, m);
      if j > 0 {
        assert (t - 1) / 8 == t / 8 && (t - 1) % 8 == j - 1;
        assert !(NonZeroAt(pos[m], neg[m], j - 1) && NonZeroAt(pos[m], neg[m], j));
      } else if t > 0 {
        assert (t - 1) / 8 == t / 8 - 1 && (t - 1) % 8 == 7;
        assert SparseByteAt(pos, neg, m + 1);
      }
    }
  }

  lemma CarryByte(p: int, n: int, k: int, c: int, d: int, w: int)
    requires p - n + 256 * d == k + c
    ensures p * w - n * w + d * (256 * w) == k * w + c * w
  {
    Distribute(p, n, w);
    Distribute(p - n, 256 * d, w);
    Distribute(k, c, w);
  }

  lemma PrependSparse(ps: seq<byte>, ns: seq<byte>, p: byte, n: byte)
    requires SparseBits(p, n, 8) && SparseBytes(ps, ns)
    requires |ps| > 0 && NonZeroAt(ps[0], ns[0], 7) ==> !NonZeroAt(p, n, 0)
    ensures SparseBytes([p] + ps, [n] + ns)
  {
    forall m | 0 <= m < |ps| + 1 ensures SparseByteAt([p] + ps, [n] + ns, m) {
      if m > 0 {
        assert SparseByteAt(ps, ns, m - 1);
      }
    }
  }

  /** The digits and the carry stand for the number read, and the digits are sparse. */
  ghost predicate Recoded(ps: seq<byte>, ns: seq<byte>, ks: seq<byte>, carry: bool) {
    |ps| == |ns| == |ks| && SparseBytes(ps, ns) &&
    Val(ps, 256) - Val(ns, 256) + Unit(carry) * Pow(256, |ks|) == Val(ks, 256)
  }

  /** One more byte in front of the processed part keeps digits plus carry equal to the number read. */
  lemma PrependByte(ps: seq<byte>, ns: seq<byte>, ks: seq<byte>, p: byte, n: byte, k: byte, carryIn: bool, carry: bool)
    requires Recoded(ps, ns, ks, carryIn) && SparseBits(p, n, 8)
    requires p - n + 256 * Unit(carry) == k + Unit(carryIn)
    requires |ps| > 0 && NonZeroAt(ps[0], ns[0], 7) ==> !NonZeroAt(p, n, 0)
    ensures Recoded([p] + ps, [n] + ns, [k] + ks, carry)
  {
    PrependSparse(ps, ns, p, n);
    var w := Pow(256, |ks|);
    ValPrepend(p, ps, 256);
    ValPrepend(n, ns, 256);
    ValPrepend(k, ks, 256);
    CarryByte(p, n, k, Unit(carryIn), Unit(carry), w);
  }

  /**
   The non-adjacent form of a big-endian number, as one byte string of the ones and one of the minus ones.
   Both have the length of the input, or one byte more when a carry is left.
   */
  method NAF(k: seq<byte>) returns (pos: seq<byte>, neg: seq<byte>)
    ensures Val(pos, 256) - Val(neg, 256) == Val(k, 256)
    ensures NonAdjacent(pos, neg)
    ensures |pos| == |neg| && |k| <= |pos| <= |k| + 1
    ensures |pos| == |k| + 1 ==> pos[0] == 1 && neg[0] == 0
  {
    hide Val, Pow, SparseBytes, SparseBits, NonZeroAt, BitOf;
    var retPos := new byte[|k|+1](_ => 0);
    var retNeg := new byte[|k|+1](_ => 0);
    var carry := false;
    var i := |k|;
    NothingRecoded();
    assert retPos[i+1..] == [] && retNeg[i+1..] == [] && k[i..] == [];
    while i > 0
      invariant 0 <= i <= |k| && retPos[0] == 0 && retNeg[0] == 0
      invariant Recoded(retPos[i+1..], retNeg[i+1..], k[i..], carry)
      invariant i < |k| && NonZeroAt(retPos[i+1], retNeg[i+1], 7) ==> carry == (i > 0 && k[i-1] % 2 == 1)
    {
      ghost var ps, ns, ks, was := retPos[i+1..], retNeg[i+1..], k[i..], carry;
      i := i - 1;
      var p, n;
      p, n, carry := RecodeByte(k[i], i > 0 && k[i-1] % 2 == 1, carry);
      retPos[i+1] := p;
      retNeg[i+1] := n;
      assert retPos[i+1..] == [p] + ps && retNeg[i+1..] == [n] + ns && k[i..] == [k[i]] + ks;
      PrependByte(ps, ns, ks, p, n, k[i], was, carry);
    }
    assert k[0..] == k;
    if carry {
      retPos[0] := 1;
      LastCarry(retPos[1..], retNeg[1..], k);
      pos, neg := retPos[..], retNeg[..];
      assert pos == [1] + retPos[1..] && neg == [0] + retNeg[1..];
    } else {
      pos, neg := retPos[1..], retNeg[1..];
    }
    BytesAreSparse(pos, neg);
  }

  lemma NothingRecoded()
    ensures Recoded([], [], [], false)
  {
  }

  /** A carry left at the end becomes a one in front. */
  lemma LastCarry(ps: seq<byte>, ns: seq<byte>, k: seq<byte>)
    requires Recoded(ps, ns, k, true) && (|ps| > 0 ==> !NonZeroAt(ps[0], ns[0], 7))
    ensures SparseBytes([1] + ps, [0] + ns) && Val([1] + ps, 256) - Val([0] + ns, 256) == Val(k, 256)
  {
    assert BitOf(1, 0) == 1 && BitOf(1 / 2, 0) == 0;
    assert SparseBits(1, 0, 8) by {
      forall j | 0 <= j < 8 ensures BitOf(0, j) == 0 && (j > 0 ==> BitOf(1, j) == 0) {
        ZeroBits(j);
        if j > 0 {
          ZeroBits(j - 1);
        }
      }
    }
    PrependByte(ps, ns, k, 1, 0, 0, true, false);
    ValPrepend(0, k, 256);
  }

  lemma {:induction false} ZeroBits(j: nat)
    ensures BitOf(0, j) == 0
  {
    if j > 0 {
      ZeroBits(j - 1);
    }
  }
}
