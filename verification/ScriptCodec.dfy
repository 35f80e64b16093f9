/** Script and output compression of pkg/blockchain/compress.go. */
module ScriptCodec {
  import opened Wire
  import opened Vlq
  import opened Radix

  const OP_DATA_20 := 0x14
  const OP_DATA_33 := 0x21
  const OP_DATA_65 := 0x41
  const OP_DUP := 0x76
  const OP_EQUAL := 0x87
  const OP_EQUALVERIFY := 0x88
  const OP_HASH160 := 0xa9
  const OP_CHECKSIG := 0xac

  const NUM_SPECIAL_SCRIPTS := 6

  /** With the bytes in front of it such a script still fits a slice, whose length is a 63-bit number. */
  const SCRIPT_LIMIT := 0x7FFF_FFFF_FFFF_FFF0

  /** Public-key parsing: the uncompressed 65-byte form of the key, or nothing when the bytes are no key. */
  datatype Curve = Curve(parse: seq<byte> -> Option<seq<byte>>)

  /** A key's compressed form: the oddness of Y and the X coordinate. */
  function CompressedKey(k: seq<byte>): seq<byte>
    requires |k| == 65
  {
    [2 + k[64] % 2] + k[1..33]
  }

  /** Parsing gives 65 bytes, and a valid uncompressed key is recovered from its compressed form. */
  ghost predicate KeyAt(curve: Curve, k: seq<byte>) {
    var u := curve.parse(k);
    (u.Some? ==> |u.value| == 65) &&
    (u.Some? && |k| == 65 && k[0] == 4 ==> curve.parse(CompressedKey(k)) == Some(k))
  }

  ghost predicate CurveOk(curve: Curve) {
    forall k :: KeyAt(curve, k)
  }

  predicate IsPubKeyHash(s: Script) {
    |s| == 25 && s[0] == OP_DUP && s[1] == OP_HASH160 && s[2] == OP_DATA_20 && s[23] == OP_EQUALVERIFY && s[24] == OP_CHECKSIG
  }

  predicate IsScriptHash(s: Script) {
    |s| == 23 && s[0] == OP_HASH160 && s[1] == OP_DATA_20 && s[22] == OP_EQUAL
  }

  predicate IsCompressedKey(curve: Curve, s: Script) {
    |s| == 35 && s[0] == OP_DATA_33 && s[34] == OP_CHECKSIG && (s[1] == 2 || s[1] == 3) && curve.parse(s[1..34]).Some?
  }

  predicate IsUncompressedKey(curve: Curve, s: Script) {
    |s| == 67 && s[0] == OP_DATA_65 && s[66] == OP_CHECKSIG && s[1] == 4 && curve.parse(s[1..66]).Some?
  }

  /** The compressed form of a script. */
  function CompressScript(curve: Curve, s: Script): (r: seq<byte>)
    ensures |r| > 0
  {
    if IsPubKeyHash(s) then [0] + s[3..23]
    else if IsScriptHash(s) then [1] + s[2..22]
    else if IsCompressedKey(curve, s) then [s[1]] + s[2..34]
    else if IsUncompressedKey(curve, s) then [4 + s[65] % 2] + s[2..34]
    else Code(|s| + NUM_SPECIAL_SCRIPTS) + s
  }

  method CompressedScriptSize(curve: Curve, s: Script) returns (n: nat)
    ensures n == |CompressScript(curve, s)|
  {
    if IsPubKeyHash(s) || IsScriptHash(s) {
      return 21;
    }
    if IsCompressedKey(curve, s) || IsUncompressedKey(curve, s) {
      return 33;
    }
    n := SerializeSizeVLQ(|s| + NUM_SPECIAL_SCRIPTS);
    n := n + |s|;
  }

  /** Go's copy into a slice of the target. */
  method CopyBytes(target: array<byte>, start: nat, s: seq<byte>)
    requires start + |s| <= target.Length
    modifies target
    ensures target[..] == Splice(old(target[..]), start, s)
  {
    hide Splice;
    ghost var was := target[..];
    SpliceNothing(was, start);
    var i := 0;
    while i < |s|
      invariant 0 <= i <= |s| && |was| == target.Length && target[..] == Splice(was, start, s[..i])
    {
      PutByte(target, start + i, s[i]);
      SpliceTwice(was, start, s[..i], [s[i]]);
      assert s[..i+1] == s[..i] + [s[i]];
      i := i + 1;
    }
    assert s[..|s|] == s;
  }

  method PutTagged(target: array<byte>, start: nat, tag: byte, body: seq<byte>) returns (n: nat)
    requires start + 1 + |body| <= target.Length
    modifies target
    ensures n == 1 + |body| && target[..] == Splice(old(target[..]), start, [tag] + body)
  {
    hide Splice;
    ghost var was := target[..];
    PutByte(target, start, tag);
    CopyBytes(target, start + 1, body);
    SpliceTwice(was, start, [tag], body);
    n := 1 + |body|;
  }

  method PutCompressedScript(curve: Curve, target: array<byte>, start: nat, s: Script) returns (n: nat)
    requires start + |CompressScript(curve, s)| <= target.Length
    modifies target
    ensures n == |CompressScript(curve, s)| && target[..] == Splice(old(target[..]), start, CompressScript(curve, s))
  {
    hide Splice;
    if IsPubKeyHash(s) {
      n := PutTagged(target, start, 0, s[3..23]);
    } else if IsScriptHash(s) {
      n := PutTagged(target, start, 1, s[2..22]);
    } else if IsCompressedKey(curve, s) {
      n := PutTagged(target, start, s[1], s[2..34]);
    } else if IsUncompressedKey(curve, s) {
      n := PutTagged(target, start, 4 + s[65] % 2, s[2..34]);
    } else {
      ghost var was := target[..];
      var vlqSizeLen := PutVLQ(target, start, |s| + NUM_SPECIAL_SCRIPTS);
      CopyBytes(target, start + vlqSizeLen, s);
      SpliceTwice(was, start, Code(|s| + NUM_SPECIAL_SCRIPTS), s);
      n := vlqSizeLen + |s|;
    }
  }

  /** How many bytes the compressed script at the front of the data takes; 0 when there is no data. */
  function DecodeCompressedScriptSize(serialized: seq<byte>): int {
    var (scriptSize, bytesRead) := Read(serialized);
    if bytesRead == 0 then 0
    else if scriptSize == 0 || scriptSize == 1 then 21
    else if 2 <= scriptSize <= 5 then 33
    else Wrap(scriptSize - NUM_SPECIAL_SCRIPTS + bytesRead)
  }

  /** The script in the measured bytes; nothing when a slice would run past their end. */
  function DecompressScript(curve: Curve, c: seq<byte>): Option<Script> {
    var (size, bytesRead) := Read(c);
    if |c| == 0 then Some([])
    else if size == 0 && bytesRead + 20 <= |c| then
      Some([OP_DUP, OP_HASH160, OP_DATA_20] + c[bytesRead..bytesRead+20] + [OP_EQUALVERIFY, OP_CHECKSIG])
    else if size == 1 && bytesRead + 20 <= |c| then
      Some([OP_HASH160, OP_DATA_20] + c[bytesRead..bytesRead+20] + [OP_EQUAL])
    else if (size == 2 || size == 3) && bytesRead + 32 <= |c| then
      Some([OP_DATA_33, size] + c[bytesRead..bytesRead+32] + [OP_CHECKSIG])
    else if (size == 4 || size == 5) && |c| >= 33 then
      match curve.parse([size - 2] + c[1..33])
      case None => Some([])
      case Some(key) => Some([OP_DATA_65] + key + [OP_CHECKSIG])
    else if size >= NUM_SPECIAL_SCRIPTS && bytesRead + size - NUM_SPECIAL_SCRIPTS <= |c| then
      Some(c[bytesRead..bytesRead+size-NUM_SPECIAL_SCRIPTS])
    else None
  }

  lemma FirstByte(b: byte, t: seq<byte>)
    requires b < 128
    ensures Read([b] + t) == (b, 1)
  {
    assert Code(b) == [b];
    RoundTrip(b, t);
  }

  /** The number at the front of a compressed script, whatever follows. */
  lemma ReadScriptTag(curve: Curve, s: Script, t: seq<byte>)
    requires |s| < SCRIPT_LIMIT
    ensures var c := CompressScript(curve, s);
      Read(c + t) == if IsPubKeyHash(s) || IsScriptHash(s) || IsCompressedKey(curve, s) || IsUncompressedKey(curve, s)
        then (c[0], 1) else (|s| + NUM_SPECIAL_SCRIPTS, |Code(|s| + NUM_SPECIAL_SCRIPTS)|)
  {
    var c := CompressScript(curve, s);
    hide Read, Code;
    if IsPubKeyHash(s) || IsScriptHash(s) || IsCompressedKey(curve, s) || IsUncompressedKey(curve, s) {
      FirstByte(c[0], c[1..] + t);
      assert c + t == [c[0]] + (c[1..] + t);
    } else {
      RoundTrip(|s| + NUM_SPECIAL_SCRIPTS, s + t);
      assert c + t == Code(|s| + NUM_SPECIAL_SCRIPTS) + (s + t);
    }
  }

  lemma {:induction false} LeadLength(n: nat, k: nat)
    requires k > 0 && n < Pow(128, k)
    ensures |Lead(n)| <= k
  {
    if n >= 128 {
      assert k > 1 && n / 128 < Pow(128, k - 1);
      LeadLength(n / 128 - 1, k - 1);
    }
  }

  /** No 64-bit number takes more than ten bytes. */
  lemma CodeLength(n: nat)
    requires n < TWO64
    ensures |Code(n)| <= 10
  {
    assert Pow(128, 3) == 0x20_0000;
    PowAdd(128, 3, 3);
    PowAdd(128, 6, 3);
    if n >= 128 {
      LeadLength(n / 128 - 1, 9);
    }
  }

  /** The measured size is the size written, whatever follows. */
  lemma ScriptSizeExact(curve: Curve, s: Script, t: seq<byte>)
    requires |s| < SCRIPT_LIMIT
    ensures DecodeCompressedScriptSize(CompressScript(curve, s) + t) == |CompressScript(curve, s)|
  {
    ReadScriptTag(curve, s, t);
    CodeLength(|s| + NUM_SPECIAL_SCRIPTS);
  }

  /** Decompressing gives the script back. */
  lemma ScriptRoundTrip(curve: Curve, s: Script)
    requires CurveOk(curve) && |s| < SCRIPT_LIMIT
    ensures DecompressScript(curve, CompressScript(curve, s)) == Some(s)
  {
    var c := CompressScript(curve, s);
    assert c + [] == c;
    ReadScriptTag(curve, s, []);
    if IsPubKeyHash(s) {
      assert c[1..21] == s[3..23];
      assert s == [s[0], s[1], s[2]] + s[3..23] + [s[23], s[24]];
    } else if IsScriptHash(s) {
      assert c[1..21] == s[2..22];
      assert s == [s[0], s[1]] + s[2..22] + [s[22]];
    } else if IsCompressedKey(curve, s) {
      assert c[1..33] == s[2..34];
      assert s == [s[0], s[1]] + s[2..34] + [s[34]];
    } else if IsUncompressedKey(curve, s) {
      var k := s[1..66];
      assert KeyAt(curve, k);
      assert k[1..33] == s[2..34] && c[1..33] == s[2..34];
      assert CompressedKey(k) == [c[0] - 2] + c[1..33];
      assert s == [s[0]] + k + [s[66]];
    }
  }

  // ----- the bytes -----

  /** Pay to a public key hash: a zero and the hash. */
  lemma PubKeyHashBytes(curve: Curve, hash: seq<byte>)
    requires |hash| == 20
    ensures CompressScript(curve, [0x76, 0xa9, 0x14] + hash + [0x88, 0xac]) == [0x00] + hash
    ensures DecompressScript(curve, [0x00] + hash) == Some([0x76, 0xa9, 0x14] + hash + [0x88, 0xac])
  {
    var s, c := [0x76, 0xa9, 0x14] + hash + [0x88, 0xac], [0x00] + hash;
    assert s[3..23] == hash && c[1..21] == hash;
    FirstByte(0, hash);
  }

  /** Pay to a script hash: a one and the hash. */
  lemma ScriptHashBytes(curve: Curve, hash: seq<byte>)
    requires |hash| == 20
    ensures CompressScript(curve, [0xa9, 0x14] + hash + [0x87]) == [0x01] + hash
    ensures DecompressScript(curve, [0x01] + hash) == Some([0xa9, 0x14] + hash + [0x87])
  {
    var s, c := [0xa9, 0x14] + hash + [0x87], [0x01] + hash;
    assert s[2..22] == hash && c[1..21] == hash;
    FirstByte(1, hash);
  }

  /** Pay to a compressed key: the key itself. */
  lemma CompressedKeyBytes(curve: Curve, tag: byte, x: seq<byte>)
    requires |x| == 32 && (tag == 2 || tag == 3) && curve.parse([tag] + x).Some?
    ensures CompressScript(curve, [0x21, tag] + x + [0xac]) == [tag] + x
    ensures DecompressScript(curve, [tag] + x) == Some([0x21, tag] + x + [0xac])
  {
    var s, c := [0x21, tag] + x + [0xac], [tag] + x;
    assert s[1..34] == [tag] + x && s[2..34] == x && c[1..33] == x;
    FirstByte(tag, x);
  }

  /** Pay to an uncompressed key: four or five, by the oddness of Y, and the X coordinate. */
  lemma UncompressedKeyBytes(curve: Curve, x: seq<byte>, y: seq<byte>)
    requires |x| == 32 && |y| == 32 && curve.parse([0x04] + x + y).Some?
    ensures CompressScript(curve, [0x41, 0x04] + x + y + [0xac]) == [if y[31] % 2 == 0 then 0x04 else 0x05] + x
  {
    var s := [0x41, 0x04] + x + y + [0xac];
    assert s[1..66] == [0x04] + x + y && s[2..34] == x && s[65] == y[31];
  }

  /** The script is `front`, `n` more bytes, and `end`. */
  predicate HasPrefixAndEnd(s: Script, front: seq<byte>, n: nat, end: seq<byte>) {
    |s| == |front| + n + |end| && s[..|front|] == front && s[|front|+n..] == end
  }

  /** None of the special forms. */
  predicate IsOrdinary(curve: Curve, s: Script) {
    !HasPrefixAndEnd(s, [0x76, 0xa9, 0x14], 20, [0x88, 0xac]) && !HasPrefixAndEnd(s, [0xa9, 0x14], 20, [0x87]) &&
    !((HasPrefixAndEnd(s, [0x21, 0x02], 32, [0xac]) || HasPrefixAndEnd(s, [0x21, 0x03], 32, [0xac])) && curve.parse(s[1..34]).Some?) &&
    !(HasPrefixAndEnd(s, [0x41, 0x04], 64, [0xac]) && curve.parse(s[1..66]).Some?)
  }

  /** Any other script is preceded by the number of its length plus six. */
  lemma OrdinaryBytes(curve: Curve, s: Script)
    requires IsOrdinary(curve, s)
    ensures CompressScript(curve, s) == Code(|s| + 6) + s
  {
    FormsAre(curve, s);
  }

  lemma FormsAre(curve: Curve, s: Script)
    ensures IsPubKeyHash(s) <==> HasPrefixAndEnd(s, [0x76, 0xa9, 0x14], 20, [0x88, 0xac])
    ensures IsScriptHash(s) <==> HasPrefixAndEnd(s, [0xa9, 0x14], 20, [0x87])
    ensures IsCompressedKey(curve, s) <==>
      ((HasPrefixAndEnd(s, [0x21, 0x02], 32, [0xac]) || HasPrefixAndEnd(s, [0x21, 0x03], 32, [0xac])) && curve.parse(s[1..34]).Some?)
    ensures IsUncompressedKey(curve, s) <==> (HasPrefixAndEnd(s, [0x41, 0x04], 64, [0xac]) && curve.parse(s[1..66]).Some?)
  {
    if |s| == 25 {
      assert s[..3] == [s[0], s[1], s[2]] && s[23..] == [s[23], s[24]];
    } else if |s| == 23 {
      assert s[..2] == [s[0], s[1]] && s[22..] == [s[22]];
    } else if |s| == 35 {
      assert s[..2] == [s[0], s[1]] && s[34..] == [s[34]];
    } else if |s| == 67 {
      assert s[..2] == [s[0], s[1]] && s[66..] == [s[66]];
    }
  }

  /** A string that starts with a number from six on decompresses to that many bytes less six. */
  lemma OrdinaryBack(curve: Curve, n: nat, s: Script)
    requires n >= 6 && n < TWO64 && n - 6 <= |s|
    ensures DecompressScript(curve, Code(n) + s) == Some(s[..n-6])
  {
    hide Code, Read;
    var c := Code(n) + s;
    RoundTrip(n, s);
    assert c[|Code(n)|..|Code(n)|+n-6] == s[..n-6];
  }
}
