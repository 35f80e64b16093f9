/** Variable-length quantities of pkg/blockchain/compress.go: base-128 digits, most significant first, with an offset. */
module Vlq {
  import opened Wire

  /** The continuation bytes in front of the last byte: each has its high bit set. */
  function Lead(n: nat): (s: seq<byte>)
    ensures |s| > 0
  {
    if n < 128 then [128 + n] else Lead(n / 128 - 1) + [128 + n % 128]
  }

  /** The encoding of `n`. */
  function Code(n: nat): (s: seq<byte>)
    ensures |s| > 0
  {
    if n < 128 then [n] else Lead(n / 128 - 1) + [n % 128]
  }

  /** The uint64 value and the number of bytes read, reading on from byte `i` with `n` read so far. */
  function ReadFrom(s: seq<byte>, i: nat, n: nat): (r: (nat, nat))
    requires i <= |s|
    ensures i <= r.1 <= |s|
    decreases |s| - i
  {
    if i == |s| then (n, i)
    else
      var m := Extend(n, s[i]);
      if s[i] < 128 then (m, i + 1) else ReadFrom(s, i + 1, (m + 1) % TWO64)
  }

  /** Shifts seven more bits in, in 64 bits. */
  function Extend(n: nat, b: int): nat {
    n * 128 % TWO64 + b % 128
  }

  lemma ExtendQuotient(n: nat, b: int)
    requires n < TWO64 && b % 128 == n % 128
    ensures Extend(n / 128, b) == n
  {
  }

  function Read(s: seq<byte>): (nat, nat) {
    ReadFrom(s, 0, 0)
  }

  /** Reading the continuation bytes of `n` accumulates n + 1. */
  lemma {:induction false} ReadLead(n: nat, t: seq<byte>)
    requires n < TWO64 - 1
    ensures ReadFrom(Lead(n) + t, 0, 0) == ReadFrom(Lead(n) + t, |Lead(n)|, n + 1)
  {
    hide Extend;
    if n >= 128 {
      var m := n / 128 - 1;
      var tail := [128 + n % 128] + t;
      ReadLead(m, tail);
      assert Lead(n) + t == Lead(m) + tail;
      assert (Lead(m) + tail)[|Lead(m)|] == 128 + n % 128;
      ExtendQuotient(n, 128 + n % 128);
    } else {
      assert (Lead(n) + t)[0] == 128 + n;
      ExtendQuotient(n, 128 + n);
    }
  }

  /** Decoding inverts encoding whatever bytes follow, and reads exactly the bytes written. */
  lemma RoundTrip(n: nat, t: seq<byte>)
    requires n < TWO64
    ensures Read(Code(n) + t) == (n, |Code(n)|)
  {
    hide Extend;
    if n >= 128 {
      var m := n / 128 - 1;
      var tail := [n % 128] + t;
      ReadLead(m, tail);
      assert Code(n) + t == Lead(m) + tail;
      assert (Lead(m) + tail)[|Lead(m)|] == n % 128;
      ExtendQuotient(n, n % 128);
    } else {
      assert (Code(n) + t)[0] == n;
      ExtendQuotient(n, n);
    }
  }

  /** No code is a prefix of another one: the rest of the data follows at a fixed place. */
  lemma PrefixFree(a: nat, b: nat, s: seq<byte>, t: seq<byte>)
    requires a < TWO64 && b < TWO64 && Code(a) + s == Code(b) + t
    ensures a == b && s == t
  {
    RoundTrip(a, s);
    RoundTrip(b, t);
    assert s == (Code(a) + s)[|Code(a)|..] && t == (Code(b) + t)[|Code(b)|..];
  }

  /** Bytes with the high bit set, then one without: the shape of a code. */
  predicate IsCode(s: seq<byte>) {
    |s| > 0 && s[|s|-1] < 128 && forall i :: 0 <= i < |s| - 1 ==> s[i] >= 128
  }

  lemma {:induction false} LeadShape(n: nat)
    ensures forall i :: 0 <= i < |Lead(n)| ==> Lead(n)[i] >= 128
  {
    if n >= 128 {
      LeadShape(n / 128 - 1);
    }
  }

  lemma {:induction false} LeadOf(s: seq<byte>) returns (n: nat)
    requires |s| > 0 && forall i :: 0 <= i < |s| ==> s[i] >= 128
    ensures Lead(n) == s
  {
    var d := s[|s|-1] - 128;
    if |s| == 1 {
      n := d;
    } else {
      var m := LeadOf(s[..|s|-1]);
      n := (m + 1) * 128 + d;
      assert n / 128 - 1 == m && n % 128 == d;
      assert s == s[..|s|-1] + [s[|s|-1]];
    }
  }

  /** Every number has one code and every code stands for one number. */
  lemma CodesAreExactly(s: seq<byte>)
    ensures IsCode(s) <==> exists n: nat :: Code(n) == s
  {
    if IsCode(s) {
      var d := s[|s|-1];
      if |s| == 1 {
        assert Code(d) == s;
      } else {
        var m := LeadOf(s[..|s|-1]);
        var n: nat := (m + 1) * 128 + d;
        assert n / 128 - 1 == m && n % 128 == d;
        assert s == s[..|s|-1] + [d];
        assert Code(n) == s;
      }
    }
    if n: nat :| Code(n) == s {
      if n >= 128 {
        LeadShape(n / 128 - 1);
      }
    }
  }

  method SerializeSizeVLQ(n: nat) returns (size: nat)
    ensures size == |Code(n)|
  {
    size := 1;
    var rest := n;
    while rest > 0x7f
      invariant |Code(n)| == size - 1 + |Code(rest)|
      decreases rest
    {
      SameLength(rest / 128 - 1);
      rest := rest / 128 - 1;
      size := size + 1;
    }
  }

  lemma SameLength(n: nat)
    ensures |Lead(n)| == |Code(n)|
  {
  }

  /** Reads a number off the front of the bytes; runs off the end of the data without an error. */
  method DeserializeVLQ(serialized: seq<byte>) returns (n: nat, size: nat)
    ensures (n, size) == Read(serialized)
  {
    n, size := 0, 0;
    while size < |serialized|
      invariant 0 <= size <= |serialized|
      invariant Read(serialized) == ReadFrom(serialized, size, n)
    {
      var val := serialized[size];
      size := size + 1;
      n := Extend(n, val);
      if val < 0x80 {
        break;
      }
      n := (n + 1) % TWO64;
    }
  }

  function Reversed(s: seq<byte>): (r: seq<byte>)
    ensures |r| == |s| && forall i :: 0 <= i < |s| ==> r[i] == s[|s| - 1 - i]
  {
    if |s| == 0 then [] else Reversed(s[1..]) + [s[0]]
  }

  /** The bytes `t` with `s` written over them from `start` on. */
  function Splice(t: seq<byte>, start: nat, s: seq<byte>): (r: seq<byte>)
    requires start + |s| <= |t|
    ensures |r| == |t|
  {
    t[..start] + s + t[start+|s|..]
  }

  /** Writing two pieces next to each other writes their concatenation. */
  lemma SpliceTwice(t: seq<byte>, start: nat, a: seq<byte>, b: seq<byte>)
    requires start + |a| + |b| <= |t|
    ensures Splice(Splice(t, start, a), start + |a|, b) == Splice(t, start, a + b)
  {
    var u := Splice(t, start, a);
    assert u[..start+|a|] == t[..start] + a;
    assert u[start+|a|+|b|..] == t[start+|a|+|b|..];
  }

  lemma SpliceOver(t: seq<byte>, start: nat, a: seq<byte>, b: seq<byte>)
    requires start + |a| <= |t| && |a| == |b|
    ensures Splice(t, start, a)[start..start+|a|] == a
    ensures Splice(Splice(t, start, a), start, b) == Splice(t, start, b)
  {
    var u := Splice(t, start, a);
    assert u[..start] == t[..start] && u[start+|a|..] == t[start+|a|..];
  }

  lemma SpliceNothing(t: seq<byte>, start: nat)
    requires start <= |t|
    ensures Splice(t, start, []) == t
  {
  }

  method PutByte(target: array<byte>, i: nat, x: byte)
    requires i < target.Length
    modifies target
    ensures target[..] == Splice(old(target[..]), i, [x])
  {
    target[i] := x;
  }

  /** The groups not written yet, most significant first. */
  function Todo(offset: nat, rest: nat): (s: seq<byte>)
    ensures |s| > 0
  {
    if offset == 0 then Code(rest) else Lead(rest)
  }

  function Group(offset: nat, rest: nat): int {
    rest % 128 + if offset == 0 then 0 else 0x80
  }

  lemma GroupStep(offset: nat, rest: nat, written: seq<byte>)
    ensures 0 <= Group(offset, rest) < 256
    ensures Todo(offset, rest) + Reversed(written) ==
      (if rest <= 0x7f then [] else Todo(offset + 1, rest / 128 - 1)) + Reversed(written + [Group(offset, rest)])
  {
    ReverseSnoc(written, Group(offset, rest));
  }

  /** Writes the low-order group first, then reverses in place. */
  method PutVLQ(target: array<byte>, start: nat, n: nat) returns (size: nat)
    requires start + |Code(n)| <= target.Length
    modifies target
    ensures size == |Code(n)| && target[..] == Splice(old(target[..]), start, Code(n))
  {
    hide Code, Lead, Reversed, Todo, Group, Splice;
    var offset, rest := 0, n;
    ghost var written: seq<byte>, was := [], target[..];
    StartGroups(n);
    SpliceNothing(was, start);
    while true
      invariant Code(n) == Todo(offset, rest) + Reversed(written) && |written| == offset
      invariant start + offset < |was| == target.Length && target[..] == Splice(was, start, written)
      decreases rest
    {
      GroupStep(offset, rest, written);
      PutByte(target, start + offset, Group(offset, rest));
      SpliceTwice(was, start, written, [Group(offset, rest)]);
      written := written + [Group(offset, rest)];
      if rest <= 0x7f {
        break;
      }
      rest := rest / 128 - 1;
      offset := offset + 1;
    }
    assert Code(n) == Reversed(written);
    SpliceOver(was, start, written, Code(n));
    assert target[start..start+offset+1] == target[..][start..start+offset+1];
    ReverseRange(target, start, offset);
    size := offset + 1;
  }

  lemma StartGroups(n: nat)
    ensures Code(n) == Todo(0, n) + Reversed([])
  {
  }

  lemma {:induction false} ReverseSnoc(s: seq<byte>, x: byte)
    ensures Reversed(s + [x]) == [x] + Reversed(s)
  {
  }

  /** Reverses the bytes at `start` .. `start + last`. */
  method ReverseRange(target: array<byte>, start: nat, last: nat)
    requires start + last < target.Length
    modifies target
    ensures target[..] == Splice(old(target[..]), start, Reversed(old(target[start..start+last+1])))
  {
    hide Reversed;
    var i, j := start, start + last;
    ghost var was := target[..];
    while i < j
      invariant start <= i && i + j == 2 * start + last && i <= j + 1
      invariant forall k :: start <= k < i || j < k <= start + last ==> target[k] == was[2 * start + last - k]
      invariant forall k :: 0 <= k < start || i <= k <= j || start + last < k < target.Length ==> target[k] == was[k]
    {
      target[i], target[j] := target[j], target[i];
      i, j := i + 1, j - 1;
    }
    ghost var now, r := target[..], Splice(was, start, Reversed(was[start..start+last+1]));
    forall k | 0 <= k < |was| ensures now[k] == r[k] {
    }
  }
}
