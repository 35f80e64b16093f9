/** The base58 text encoding of pkg/base58: big-endian base conversion with one '1' for every leading zero byte. */
module Base58 {
  import opened Wire
  import opened Radix

  /** The alphabet, range by range: the digits and letters without 0, I, O and l. */
  function Letter(d: nat): char
    requires d < 58
  {
    if d < 9 then (d + 49) as char
    else if d < 17 then (d - 9 + 65) as char
    else if d < 22 then (d - 17 + 74) as char
    else if d < 33 then (d - 22 + 80) as char
    else if d < 44 then (d - 33 + 97) as char
    else (d - 44 + 109) as char
  }

  const INVALID := 255

  /** The decoding table, range by range. */
  function Digit(c: char): (d: int)
    ensures 0 <= d < 58 || d == INVALID
  {
    var n := c as int;
    if '1' <= c <= '9' then n - 49
    else if 'A' <= c <= 'H' then n - 65 + 9
    else if 'J' <= c <= 'N' then n - 74 + 17
    else if 'P' <= c <= 'Z' then n - 80 + 22
    else if 'a' <= c <= 'k' then n - 97 + 33
    else if 'm' <= c <= 'z' then n - 109 + 44
    else INVALID
  }

  /** The table inverts the alphabet, and only the alphabet's characters are valid. */
  lemma TableInverts(d: nat, c: char)
    ensures d < 58 ==> Digit(Letter(d)) == d
    ensures Digit(c) != INVALID ==> Letter(Digit(c)) == c
  {
  }

  function Chars(s: seq<int>): (r: string)
    requires Digits(s, 58)
    ensures |r| == |s| && forall i :: 0 <= i < |r| ==> r[i] == Letter(s[i])
  {
    seq(|s|, i requires 0 <= i < |s| => Letter(s[i]))
  }

  predicate AllValid(b: string) {
    forall i :: 0 <= i < |b| ==> Digit(b[i]) != INVALID
  }

  function DigitsOf(b: string): (r: seq<int>)
    ensures |r| == |b| && forall i :: 0 <= i < |r| ==> r[i] == Digit(b[i])
  {
    seq(|b|, i requires 0 <= i < |b| => Digit(b[i]))
  }

  // ----- changing the base, keeping leading zeros -----

  function LeadingZeros(s: seq<int>): (n: nat)
    ensures n <= |s| && (forall i :: 0 <= i < n ==> s[i] == 0) && (n < |s| ==> s[n] != 0)
  {
    if |s| == 0 || s[0] != 0 then 0 else 1 + LeadingZeros(s[1..])
  }

  /** The same number in another base, with as many leading zeros as before. */
  function Recode(s: seq<int>, base: nat, other: nat): (r: seq<int>)
    requires base > 1 && other > 1 && Digits(s, base)
    ensures Digits(r, other)
  {
    ValBound(s, base);
    Zeros(LeadingZeros(s)) + ToDigits(Val(s, base), other)
  }

  lemma ZerosCounted(s: seq<int>, n: nat)
    requires n <= |s| && (forall i :: 0 <= i < n ==> s[i] == 0) && (n < |s| ==> s[n] != 0)
    ensures LeadingZeros(s) == n
  {
  }

  /** Changing the base and back is the identity. */
  lemma RecodeBack(s: seq<int>, base: nat, other: nat)
    requires base > 1 && other > 1 && Digits(s, base)
    ensures Recode(Recode(s, base, other), other, base) == s
  {
    var n := LeadingZeros(s);
    var t := s[n..];
    ValBound(s, base);
    var v := Val(s, base);
    var d := ToDigits(v, other);
    ZerosCounted(Zeros(n) + d, n);
    ValZeros(n, d, other);
    ValToDigits(v, other);
    assert s == Zeros(n) + t;
    ValZeros(n, t, base);
    ToDigitsVal(t, base);
  }

  function Encoded(b: seq<byte>): string {
    Chars(Recode(b, 256, 58))
  }

  function Decoded(b: string): seq<byte> {
    if AllValid(b) then AsBytes(Recode(DigitsOf(b), 58, 256)) else []
  }

  function AsBytes(s: seq<int>): (r: seq<byte>)
    requires Digits(s, 256)
    ensures r == s
  {
    assert forall i :: 0 <= i < |s| ==> 0 <= s[i] < 256;
    s
  }

  /** Every byte string is recovered from its text, leading zeros included. */
  lemma DecodeEncode(b: seq<byte>)
    ensures Decoded(Encoded(b)) == b
  {
    var d := Recode(b, 256, 58);
    var s := Encoded(b);
    forall i | 0 <= i < |s| ensures Digit(s[i]) == d[i] {
      TableInverts(d[i], s[i]);
    }
    assert DigitsOf(s) == d;
    RecodeBack(b, 256, 58);
  }

  /** Every text over the alphabet is recovered from its bytes; any other text decodes to nothing. */
  lemma EncodeDecode(s: string)
    ensures if AllValid(s) then Encoded(Decoded(s)) == s else Decoded(s) == []
  {
    if AllValid(s) {
      var d := DigitsOf(s);
      assert Digits(d, 58);
      RecodeBack(d, 58, 256);
      assert Recode(Decoded(s), 256, 58) == d;
      forall i | 0 <= i < |s| ensures Chars(d)[i] == s[i] {
        TableInverts(0, s[i]);
      }
      assert Chars(d) == s;
    }
  }

  // ----- the loops -----

  method Decode(b: string) returns (r: seq<byte>)
    ensures r == Decoded(b)
  {
    hide Val, Pow, Digit;
    var answer, j := 0, 1;
    ghost var d := DigitsOf(b);
    var i := |b|;
    NothingDecoded(d);
    while i > 0
      invariant 0 <= i <= |b| && answer == Val(d[i..], 58) && j == Pow(58, |b| - i)
      invariant forall k :: i <= k < |b| ==> Digit(b[k]) != INVALID
    {
      i := i - 1;
      var tmp := Digit(b[i]);
      if tmp == INVALID {
        return [];
      }
      DigitInFront(d, i);
      answer := answer + j * tmp;
      j := j * 58;
    }
    assert d[0..] == d && AllValid(b);
    var numZeros := 0;
    OneIsZero(b, 0);
    while numZeros < |b| && b[numZeros] == '1'
      invariant 0 <= numZeros <= |b| && forall k :: 0 <= k < numZeros ==> d[k] == 0
      invariant numZeros < |b| ==> (d[numZeros] == 0 <==> b[numZeros] == '1')
    {
      numZeros := numZeros + 1;
      OneIsZero(b, numZeros);
    }
    ZerosCounted(d, numZeros);
    Assembled(b, numZeros);
    r := AsBytes(Zeros(numZeros) + ToDigits(answer, 256));
  }

  lemma OneIsZero(b: string, i: nat)
    ensures i < |b| ==> (Digit(b[i]) == 0 <==> b[i] == '1')
  {
  }

  lemma NothingDecoded(d: seq<int>)
    ensures Val(d[|d|..], 58) == 0 && Pow(58, 0) == 1
  {
  }

  lemma DigitInFront(d: seq<int>, i: nat)
    requires i < |d|
    ensures Val(d[i..], 58) == Val(d[i+1..], 58) + Pow(58, |d| - i - 1) * d[i]
    ensures Pow(58, |d| - i) == Pow(58, |d| - i - 1) * 58
  {
    assert d[i..] == [d[i]] + d[i+1..];
    ValPrepend(d[i], d[i+1..], 58);
  }

  lemma Assembled(b: string, n: nat)
    requires AllValid(b) && n == LeadingZeros(DigitsOf(b))
    ensures Digits(DigitsOf(b), 58) && Val(DigitsOf(b), 58) >= 0
    ensures Decoded(b) == Zeros(n) + ToDigits(Val(DigitsOf(b), 58), 256)
  {
    ValBound(DigitsOf(b), 58);
  }

  function Backwards(s: string): (r: string)
    ensures |r| == |s| && forall i :: 0 <= i < |s| ==> r[i] == s[|s| - 1 - i]
  {
    seq(|s|, i requires 0 <= i < |s| => s[|s| - 1 - i])
  }

  lemma BackwardsSnoc(s: string, c: char)
    ensures Backwards(s + [c]) == [c] + Backwards(s)
  {
  }

  lemma CharsSnoc(s: seq<int>, d: nat)
    requires Digits(s, 58) && d < 58
    ensures Digits(s + [d], 58) && Chars(s + [d]) == Chars(s) + [Letter(d)]
  {
  }

  lemma DigitsSnoc(x: nat)
    requires x > 0
    ensures ToDigits(x, 58) == ToDigits(x / 58, 58) + [x % 58]
  {
  }

  /** One more digit moves from the number to the answer. */
  lemma PushDigit(x: nat, answer: string)
    requires x > 0
    ensures Chars(ToDigits(x, 58)) + Backwards(answer) == Chars(ToDigits(x / 58, 58)) + Backwards(answer + [Letter(x % 58)])
  {
    hide Chars, ToDigits, Backwards, Letter;
    BackwardsSnoc(answer, Letter(x % 58));
    DigitsSnoc(x);
    CharsSnoc(ToDigits(x / 58, 58), x % 58);
  }

  lemma PushOne(n: nat, answer: string, d: string)
    requires Backwards(answer) == Chars(Zeros(n)) + d
    ensures Backwards(answer + ['1']) == Chars(Zeros(n + 1)) + d
  {
    BackwardsSnoc(answer, '1');
    assert Chars(Zeros(n + 1)) == ['1'] + Chars(Zeros(n));
  }

  method Encode(b: seq<byte>) returns (r: string)
    ensures r == Encoded(b)
  {
    hide Chars, ToDigits, Backwards, Val, Zeros;
    ValBound(b, 256);
    var x: nat := Val(b, 256);
    ghost var d := Chars(ToDigits(x, 58));
    var answer: string := "";
    assert Chars(ToDigits(x, 58)) + Backwards(answer) == d;
    while x > 0
      invariant d == Chars(ToDigits(x, 58)) + Backwards(answer)
      decreases x
    {
      PushDigit(x, answer);
      answer := answer + [Letter(x % 58)];
      x := x / 58;
    }
    assert d == Backwards(answer);
    var n := 0;
    assert Backwards(answer) == Chars(Zeros(0)) + d;
    while n < |b| && b[n] == 0
      invariant 0 <= n <= |b| && (forall k :: 0 <= k < n ==> b[k] == 0)
      invariant Backwards(answer) == Chars(Zeros(n)) + d
    {
      PushOne(n, answer, d);
      answer := answer + ['1'];
      n := n + 1;
    }
    ZerosCounted(b, n);
    assert Encoded(b) == Chars(Zeros(n)) + d;
    r := ReverseText(answer);
  }

  /** Swaps from both ends. */
  method ReverseText(s: string) returns (r: string)
    ensures r == Backwards(s)
  {
    r := s;
    var i := 0;
    while i < |s| / 2
      invariant 0 <= i <= |s| / 2 && |r| == |s|
      invariant forall k :: 0 <= k < i || |s| - i <= k < |s| ==> r[k] == s[|s| - 1 - k]
      invariant forall k :: i <= k < |s| - i ==> r[k] == s[k]
    {
      r := r[i := r[|s| - 1 - i]][|s| - 1 - i := r[i]];
      i := i + 1;
    }
  }

  // ----- what a text stands for -----

  /** The alphabet. */
  lemma AlphabetIs(d: nat)
    requires d < 58
    ensures d < 9 ==> Letter(d) == "123456789"[d]
    ensures 9 <= d < 17 ==> Letter(d) == "ABCDEFGH"[d - 9]
    ensures 17 <= d < 22 ==> Letter(d) == "JKLMN"[d - 17]
    ensures 22 <= d < 33 ==> Letter(d) == "PQRSTUVWXYZ"[d - 22]
    ensures 33 <= d < 44 ==> Letter(d) == "abcdefghijk"[d - 33]
    ensures 44 <= d < 58 ==> Letter(d) == "mnopqrstuvwxyz"[d - 44]
  {
  }

  /** The text stands for the same number as the bytes, and starts with a one for each leading zero byte and no more. */
  lemma EncodedValue(b: seq<byte>)
    ensures var s := Encoded(b);
      Val(DigitsOf(s), 58) == Val(b, 256) && LeadingZeros(b) <= |s| &&
      (forall i :: 0 <= i < LeadingZeros(b) ==> s[i] == '1') && (LeadingZeros(b) < |s| ==> s[LeadingZeros(b)] != '1')
  {
    var n := LeadingZeros(b);
    ValBound(b, 256);
    var d := Recode(b, 256, 58);
    var s := Encoded(b);
    ValZeros(n, ToDigits(Val(b, 256), 58), 58);
    ValToDigits(Val(b, 256), 58);
    forall i | 0 <= i < |s| ensures Digit(s[i]) == d[i] {
      TableInverts(d[i], s[i]);
    }
    assert DigitsOf(s) == d && Digit('1') == 0;
    var t := ToDigits(Val(b, 256), 58);
    assert d == Zeros(n) + t;
    if n < |s| {
      assert d[n] == t[0] != 0;
    }
  }

  /** Every digit counts for its place: the number is the sum over the digits from the right. */
  lemma PlaceValue(s: seq<int>, x: int, base: nat)
    ensures Val([], base) == 0 && Val([x], base) == x && Val([x] + s, base) == Val([x], base) * Pow(base, |s|) + Val(s, base)
  {
    ValConcat([x], s, base);
    ValSnoc([], x, base);
    assert [] + [x] == [x];
    NothingTimes(Val([], base), base);
  }

  lemma NothingTimes(x: int, y: int)
    requires x == 0
    ensures x * y == 0
  {
  }
}
