/** What decoding makes of a journal record that is cut short. */
module Truncation {
  import opened Wire
  import opened Ledger
  import opened Vlq
  import opened Amount
  import opened ScriptCodec
  import opened ChainIo

  /** Continuation bytes are all read, and nothing else. */
  lemma {:induction false} ReadsAll(s: seq<byte>, i: nat, n: nat)
    requires i <= |s| && forall k :: i <= k < |s| ==> s[k] >= 128
    ensures ReadFrom(s, i, n).1 == |s|
    decreases |s| - i
  {
    if i < |s| {
      ReadsAll(s, i + 1, (Extend(n, s[i]) + 1) % TWO64);
    }
  }

  /** Part of a number is read to its end. */
  lemma PartRead(n: nat, k: nat)
    requires k < |Code(n)|
    ensures Read(Code(n)[..k]).1 == k
  {
    CodeShape(n);
    ReadsAll(Code(n)[..k], 0, 0);
  }

  lemma CodeShape(n: nat)
    ensures forall i :: 0 <= i < |Code(n)| - 1 ==> Code(n)[i] >= 128
  {
    if n >= 128 {
      LeadShape(n / 128 - 1);
    }
  }

  /** The first `k` bytes of continuation bytes are the continuation bytes of a smaller number. */
  lemma {:induction false} LeadPart(n: nat, k: nat) returns (m: nat)
    requires 0 < k <= |Lead(n)|
    ensures m <= n && Lead(m) == Lead(n)[..k]
  {
    if k == |Lead(n)| {
      m := n;
      assert Lead(n)[..k] == Lead(n);
    } else {
      m := LeadPart(n / 128 - 1, k);
    }
  }

  /** Part of a number reads as the number of its continuation bytes and one more. */
  lemma PartValue(n: nat, k: nat) returns (m: nat)
    requires 0 < k < |Code(n)| && n < TWO64
    ensures m < n && Code(n)[..k] == Lead(m) && |Lead(m)| == k && Read(Code(n)[..k]) == (m + 1, k)
  {
    m := LeadPart(n / 128 - 1, k);
    assert Code(n)[..k] == Lead(n / 128 - 1)[..k];
    assert Lead(m) + [] == Lead(m);
    ReadLead(m, []);
  }

  // ----- scripts -----

  /**
   A compressed script that is cut short is measured as longer than what is left, unless the cut is after a first byte
   0x85: that reads as the number six, the size of an empty script.
   */
  lemma ScriptCut(curve: Curve, s: Script, k: nat)
    requires |s| < SCRIPT_LIMIT && 0 < k < |CompressScript(curve, s)|
    ensures var c := CompressScript(curve, s);
      if k == 1 && c[0] == 0x85 then DecodeCompressedScriptSize(c[..k]) == 1 && DecompressScript(curve, c[..k]) == Some([])
      else DecodeCompressedScriptSize(c[..k]) > k
  {
    hide Code, Read, Lead;
    var c := CompressScript(curve, s);
    if IsPubKeyHash(s) || IsScriptHash(s) || IsCompressedKey(curve, s) || IsUncompressedKey(curve, s) {
      FirstByte(c[0], c[1..k]);
      assert c[..k] == [c[0]] + c[1..k];
    } else {
      OrdinaryCut(curve, s, k);
    }
  }

  lemma OrdinaryCut(curve: Curve, s: Script, k: nat)
    requires |s| < SCRIPT_LIMIT && CompressScript(curve, s) == Code(|s| + 6) + s && 0 < k < |CompressScript(curve, s)|
    ensures var c := CompressScript(curve, s);
      if k == 1 && c[0] == 0x85 then DecodeCompressedScriptSize(c[..k]) == 1 && DecompressScript(curve, c[..k]) == Some([])
      else DecodeCompressedScriptSize(c[..k]) > k
  {
    hide Code, Read, Lead, CompressScript, DecompressScript;
    var n, a := |s| + 6, Code(|s| + 6);
    CodeLength(n);
    if k < |a| {
      assert (a + s)[..k] == a[..k];
      var m := PartValue(n, k);
      SmallLead(m, k);
      assert a[..k][0] == a[0];
      if m == 5 {
        EmptyScript(curve, a[..k]);
      }
    } else {
      assert (a + s)[..k] == a + s[..k-|a|];
      RoundTrip(n, s[..k-|a|]);
      CodeStart(n);
    }
  }

  lemma EmptyScript(curve: Curve, c: seq<byte>)
    requires Read(c) == (6, 1) && |c| == 1
    ensures DecompressScript(curve, c) == Some([])
  {
    assert c[1..1] == [];
  }

  lemma SmallLead(m: nat, k: nat)
    requires |Lead(m)| == k
    ensures k == 1 && Lead(m)[0] == 0x85 <==> m == 5
    ensures m < 128 ==> k == 1
  {
    if m >= 128 {
      assert |Lead(m)| == |Lead(m / 128 - 1)| + 1;
    }
  }

  /** A code of one byte starts below 128. */
  lemma CodeStart(n: nat)
    ensures |Code(n)| == 1 ==> Code(n)[0] < 128
  {
  }

  // ----- records -----

  /** An output cut after `k` bytes. */
  lemma OutputCut(curve: Curve, amount: nat, script: Script, k: nat)
    requires Compress(amount) < TWO64 && amount < TWO64 && |script| < SCRIPT_LIMIT && k < |TxOutBytes(curve, amount, script)|
    ensures var a := |Code(Compress(amount))|;
      DecodeTxOut(curve, TxOutBytes(curve, amount, script)[..k]) ==
        if k <= a then Err(EndAfterAmount)
        else if k == a + 1 && CompressScript(curve, script)[0] == 0x85 then Ok((amount, [], k))
        else Err(EndAfterSize)
  {
    hide Code, Read, Compress, Decompress, CompressScript, DecompressScript, DecodeCompressedScriptSize;
    var a, c := Code(Compress(amount)), CompressScript(curve, script);
    var s := TxOutBytes(curve, amount, script)[..k];
    if k <= |a| {
      assert s == a[..k];
      CodePartRead(Compress(amount), k);
    } else {
      var j := k - |a|;
      assert s == a + c[..j] && s[|a|..] == c[..j];
      RoundTrip(Compress(amount), c[..j]);
      ScriptCut(curve, script, j);
      DecompressCompress(amount);
      assert j == 1 ==> c[..j][..1] == c[..j];
    }
  }

  lemma CodePartRead(n: nat, k: nat)
    requires k <= |Code(n)| && n < TWO64
    ensures Read(Code(n)[..k]).1 == k
  {
    if k < |Code(n)| {
      PartRead(n, k);
    } else {
      assert Code(n)[..k] + [] == Code(n) + [] == Code(n)[..k];
      RoundTrip(n, []);
    }
  }

  /**
   A journal record cut after `n` bytes is refused by the part that is missing. The exception is a cut after the first
   byte of the script size when that byte is 0x85: it reads as an output with an empty script.
   */
  lemma RecordCut(curve: Curve, c: Coin, n: nat)
    requires Fits(c) && n < |SpentBytes(curve, c)|
    ensures var h, a := |Code(HeaderCode(c))|, |Code(Compress(c.amount))|;
      var z := if c.height > 0 then 1 else 0;
      DecodeSpent(curve, SpentBytes(curve, c)[..n]) ==
        if n == 0 then Err(NoBytes)
        else if n <= h then Err(EndAfterHeader)
        else if n == h + 1 && c.height > 0 then Err(EndAfterReserved)
        else if n <= h + z + a then Err(EndAfterAmount)
        else if n == h + z + a + 1 && CompressScript(curve, c.script)[0] == 0x85 then Ok((c.(script := []), n))
        else Err(EndAfterSize)
  {
    hide Read, TxOutBytes, DecodeTxOut, HeaderCode, Int32, Compress, CompressScript, Code;
    var a, z, o := Code(HeaderCode(c)), if c.height > 0 then Code(0) else [], TxOutBytes(curve, c.amount, c.script);
    var s := SpentBytes(curve, c)[..n];
    HeaderBack(c);
    ZeroCode();
    if n <= |a| {
      assert s == a[..n];
      CodePartRead(HeaderCode(c), n);
    } else {
      var rest := (z + o)[..n-|a|];
      assert s == a + rest && s[|a|..] == rest;
      RoundTrip(HeaderCode(c), rest);
      if n > |a| + |z| {
        var j := n - |a| - |z|;
        assert rest == z + o[..j] && s[|a|+|z|..] == o[..j];
        if c.height > 0 {
          RoundTrip(0, o[..j]);
        }
        OutputCut(curve, c.amount, c.script, j);
        assert Wrap(c.amount) == c.amount;
      } else {
        assert rest == z;
        assert z + [] == z;
        RoundTrip(0, []);
      }
    }
  }

  lemma ZeroCode()
    ensures |Code(0)| == 1
  {
  }

  /** Scripts of 762 to 889 bytes that are of no special form have such a size. */
  lemma SizeByteOf(curve: Curve, s: Script)
    requires 762 <= |s| <= 889
    ensures CompressScript(curve, s)[0] == 0x85
  {
    var m := (|s| + 6) / 128 - 1;
    assert m == 5;
    assert Lead(5) == [0x85];
  }
}
