/** The stored records of pkg/blockchain/chainio.go: outputs, spend journal entries, unspent entries and keys. */
module ChainIo {
  import opened Wire
  import opened Ledger
  import opened Vlq
  import opened Amount
  import opened ScriptCodec
  import opened Validate

  datatype CodecError = NoBytes | EndAfterHeader | EndAfterReserved | EndAfterAmount | EndAfterSize | OutOfRange | Mismatched

  /** Coins the formats are made for: no negative numbers, and nothing that wraps on the way. */
  predicate Fits(c: Coin) {
    c.amount >= 0 && Compress(c.amount) < TWO64 && 0 <= c.height < 0x8000_0000 && |c.script| < SCRIPT_LIMIT
  }

  /** Every coin a validated block can create fits. */
  lemma ValidCoinsFit(c: Coin)
    requires 0 <= c.amount <= MAX_SATOSHI && 0 <= c.height < 0x8000_0000 && |c.script| < SCRIPT_LIMIT
    ensures Fits(c)
  {
    NoWrap(c.amount);
  }

  function TxOutBytes(curve: Curve, amount: nat, script: Script): (r: seq<byte>)
    ensures |r| > 0
  {
    Code(Compress(amount) % TWO64) + CompressScript(curve, script)
  }

  method CompressedTxOutSize(curve: Curve, amount: nat, script: Script) returns (n: nat)
    requires amount < TWO64
    ensures n == |TxOutBytes(curve, amount, script)|
  {
    var compressed := CompressTxOutAmount(amount);
    n := SerializeSizeVLQ(compressed);
    var m := CompressedScriptSize(curve, script);
    n := n + m;
  }

  method PutCompressedTxOut(curve: Curve, target: array<byte>, start: nat, amount: nat, script: Script) returns (n: nat)
    requires amount < TWO64 && start + |TxOutBytes(curve, amount, script)| <= target.Length
    modifies target
    ensures n == |TxOutBytes(curve, amount, script)| && target[..] == Splice(old(target[..]), start, TxOutBytes(curve, amount, script))
  {
    hide Splice, Code, Compress;
    ghost var was := target[..];
    var compressed := CompressTxOutAmount(amount);
    var offset := PutVLQ(target, start, compressed);
    n := PutCompressedScript(curve, target, start + offset, script);
    SpliceTwice(was, start, Code(compressed), CompressScript(curve, script));
    n := offset + n;
  }

  /** Amount, script and the number of bytes read. */
  function DecodeTxOut(curve: Curve, s: seq<byte>): (r: Result<(nat, Script, nat), CodecError>)
    ensures r.Ok? ==> r.value.2 <= |s|
  {
    var (compressed, bytesRead) := Read(s);
    if bytesRead >= |s| then Err(EndAfterAmount)
    else
      var rest := s[bytesRead..];
      var size := DecodeCompressedScriptSize(rest);
      if |rest| < size then Err(EndAfterSize)
      else if size < 0 then Err(OutOfRange)
      else
        match DecompressScript(curve, rest[..size])
        case None => Err(OutOfRange)
        case Some(script) => Ok((Decompress(compressed) % TWO64, script, bytesRead + size))
  }

  lemma TxOutRoundTrip(curve: Curve, amount: nat, script: Script, t: seq<byte>)
    requires CurveOk(curve) && amount < TWO64 && Compress(amount) < TWO64 && |script| < SCRIPT_LIMIT
    ensures var b := TxOutBytes(curve, amount, script); DecodeTxOut(curve, b + t) == Ok((amount, script, |b|))
  {
    hide Code, Read, Compress, Decompress, CompressScript, DecompressScript, DecodeCompressedScriptSize, CurveOk;
    var a, c := Code(Compress(amount)), CompressScript(curve, script);
    var s := TxOutBytes(curve, amount, script) + t;
    assert s == a + (c + t);
    RoundTrip(Compress(amount), c + t);
    assert s[|a|..] == c + t && (c + t)[..|c|] == c;
    ScriptSizeExact(curve, script, t);
    ScriptRoundTrip(curve, script);
    DecompressCompress(amount);
  }

  function HeaderCode(c: Coin): nat
    requires c.height >= 0
  {
    2 * c.height + if c.coinbase then 1 else 0
  }

  /** Two's complement conversion to a 32-bit signed number. */
  function Int32(x: nat): int {
    var m := x % 0x1_0000_0000;
    if m < 0x8000_0000 then m else m - 0x1_0000_0000
  }

  // ----- spend journal -----

  /** A spent output; a reserved zero byte follows the header when the height is positive. */
  function SpentBytes(curve: Curve, c: Coin): (r: seq<byte>)
    requires c.height >= 0 && c.amount >= 0
    ensures |r| > 0
  {
    Code(HeaderCode(c)) + (if c.height > 0 then Code(0) else []) + TxOutBytes(curve, c.amount, c.script)
  }

  method SpentTxOutSerializeSize(curve: Curve, c: Coin) returns (n: nat)
    requires c.height >= 0 && c.amount >= 0
    ensures n == |SpentBytes(curve, c)|
  {
    n := SerializeSizeVLQ(HeaderCode(c));
    if c.height > 0 {
      var m := SerializeSizeVLQ(0);
      n := n + m;
    }
    var m := CompressedTxOutSize(curve, c.amount, c.script);
    n := n + m;
  }

  method PutSpentTxOut(curve: Curve, target: array<byte>, start: nat, c: Coin) returns (n: nat)
    requires c.height >= 0 && c.amount >= 0 && start + |SpentBytes(curve, c)| <= target.Length
    modifies target
    ensures n == |SpentBytes(curve, c)| && target[..] == Splice(old(target[..]), start, SpentBytes(curve, c))
  {
    hide Splice, Code, TxOutBytes, HeaderCode;
    ghost var was, head := target[..], Code(HeaderCode(c));
    var offset := PutVLQ(target, start, HeaderCode(c));
    if c.height > 0 {
      var m := PutVLQ(target, start + offset, 0);
      SpliceTwice(was, start, head, Code(0));
      head := head + Code(0);
      offset := offset + m;
    }
    n := PutCompressedTxOut(curve, target, start + offset, c.amount, c.script);
    SpliceTwice(was, start, head, TxOutBytes(curve, c.amount, c.script));
    assert head + TxOutBytes(curve, c.amount, c.script) == SpentBytes(curve, c);
    n := offset + n;
  }

  /** A spent output and the number of bytes read. */
  function DecodeSpent(curve: Curve, s: seq<byte>): (r: Result<(Coin, nat), CodecError>)
    ensures r.Ok? ==> r.value.1 <= |s|
  {
    if |s| == 0 then Err(NoBytes)
    else
      var (code, header) := Read(s);
      if header >= |s| then Err(EndAfterHeader)
      else
        var height := Int32(code / 2);
        var offset := header + if height > 0 then Read(s[header..]).1 else 0;
        if height > 0 && offset >= |s| then Err(EndAfterReserved)
        else
          match DecodeTxOut(curve, s[offset..])
          case Err(e) => Err(e)
          case Ok(out) => Ok((Coin(Wrap(out.0), out.1, height, code % 2 == 1), offset + out.2))
  }

  lemma HeaderBack(c: Coin)
    requires Fits(c)
    ensures HeaderCode(c) < TWO64 && Int32(HeaderCode(c) / 2) == c.height && (HeaderCode(c) % 2 == 1 <==> c.coinbase)
  {
    hide Compress;
    assert HeaderCode(c) / 2 == c.height;
  }

  /** A decoded spent output is the one encoded, and exactly its bytes are read, whatever follows. */
  lemma SpentRoundTrip(curve: Curve, c: Coin, t: seq<byte>)
    requires CurveOk(curve) && Fits(c)
    ensures DecodeSpent(curve, SpentBytes(curve, c) + t) == Ok((c, |SpentBytes(curve, c)|))
  {
    hide Code, Read, TxOutBytes, DecodeTxOut, HeaderCode, Int32, CurveOk, Compress;
    assert Wrap(c.amount) == c.amount;
    var a, z, o := Code(HeaderCode(c)), if c.height > 0 then Code(0) else [], TxOutBytes(curve, c.amount, c.script);
    var s := SpentBytes(curve, c) + t;
    HeaderBack(c);
    assert s == a + (z + (o + t));
    RoundTrip(HeaderCode(c), z + (o + t));
    assert s[|a|..] == z + (o + t);
    if c.height > 0 {
      RoundTrip(0, o + t);
    }
    assert s[|a|+|z|..] == o + t;
    TxOutRoundTrip(curve, c.amount, c.script, t);
  }

  ghost predicate AllFit(stxos: seq<Coin>) {
    forall i :: 0 <= i < |stxos| ==> Fits(stxos[i])
  }

  predicate AllNonNegative(stxos: seq<Coin>) {
    forall i :: 0 <= i < |stxos| ==> stxos[i].height >= 0 && stxos[i].amount >= 0
  }

  /** The journal entry: the records of the first `k` outputs, the last one spent first. */
  function JournalBytes(curve: Curve, stxos: seq<Coin>, k: nat): seq<byte>
    requires k <= |stxos| && AllNonNegative(stxos)
  {
    if k == 0 then [] else SpentBytes(curve, stxos[k-1]) + JournalBytes(curve, stxos, k - 1)
  }

  /** Reads `n` records, which come last first. */
  function ReadJournal(curve: Curve, s: seq<byte>, offset: nat, n: nat): Result<seq<Coin>, CodecError>
    requires offset <= |s|
    decreases n
  {
    if n == 0 then Ok([])
    else
      match DecodeSpent(curve, s[offset..])
      case Err(e) => Err(e)
      case Ok(r) =>
        match ReadJournal(curve, s, offset + r.1, n - 1)
        case Err(e) => Err(e)
        case Ok(coins) => Ok(coins + [r.0])
  }

  /** Reading a journal entry gives the spent outputs in the order they were spent, whatever follows it. */
  lemma {:induction false} JournalRoundTrip(curve: Curve, stxos: seq<Coin>, k: nat, front: seq<byte>, t: seq<byte>)
    requires CurveOk(curve) && k <= |stxos| && AllFit(stxos) && AllNonNegative(stxos)
    ensures ReadJournal(curve, front + JournalBytes(curve, stxos, k) + t, |front|, k) == Ok(stxos[..k])
  {
    hide DecodeSpent, CurveOk, Fits, SpentBytes;
    var s := front + JournalBytes(curve, stxos, k) + t;
    if k > 0 {
      var a, rest := SpentBytes(curve, stxos[k-1]), JournalBytes(curve, stxos, k - 1);
      assert s[|front|..] == a + (rest + t);
      SpentRoundTrip(curve, stxos[k-1], rest + t);
      assert s == (front + a) + rest + t;
      JournalRoundTrip(curve, stxos, k - 1, front + a, t);
      assert stxos[..k] == stxos[..k-1] + [stxos[k-1]];
    }
  }

  function InputCount(txns: seq<Tx>, k: nat): nat
    requires k <= |txns|
  {
    if k == 0 then 0 else InputCount(txns, k - 1) + |txns[k-1].ins|
  }

  /** What deserialisation yields: an empty entry only fits a block that spends nothing. */
  function DecodeJournal(curve: Curve, s: seq<byte>, txns: seq<Tx>): Result<seq<Coin>, CodecError> {
    if |s| == 0 then (if InputCount(txns, |txns|) != 0 then Err(Mismatched) else Ok([]))
    else ReadJournal(curve, s, 0, InputCount(txns, |txns|))
  }

  lemma JournalNotEmpty(curve: Curve, stxos: seq<Coin>, k: nat)
    requires k <= |stxos| && AllNonNegative(stxos)
    ensures |JournalBytes(curve, stxos, k)| == 0 <==> k == 0
  {
  }

  /** The journal entry of a block reads back as the records, for the transactions that spent them. */
  lemma JournalEntryRoundTrip(curve: Curve, stxos: seq<Coin>, txns: seq<Tx>)
    requires CurveOk(curve) && AllFit(stxos) && AllNonNegative(stxos) && |stxos| == InputCount(txns, |txns|)
    ensures DecodeJournal(curve, JournalBytes(curve, stxos, |stxos|), txns) == Ok(stxos)
  {
    hide JournalBytes, ReadJournal, CurveOk, Fits, InputCount;
    var s := JournalBytes(curve, stxos, |stxos|);
    JournalNotEmpty(curve, stxos, |stxos|);
    JournalRoundTrip(curve, stxos, |stxos|, [], []);
    assert [] + s + [] == s && stxos[..|stxos|] == stxos;
  }

  /** The later outputs come first: the entry of two lists is the entry of the second and then that of the first. */
  lemma {:induction false} JournalReversed(curve: Curve, a: seq<Coin>, b: seq<Coin>)
    requires AllNonNegative(a) && AllNonNegative(b)
    ensures AllNonNegative(a + b) && JournalBytes(curve, a + b, |a + b|) == JournalBytes(curve, b, |b|) + JournalBytes(curve, a, |a|)
    decreases |b|
  {
    hide SpentBytes;
    if |b| == 0 {
      assert a + b == a;
    } else {
      var init := b[..|b|-1];
      JournalReversed(curve, a, init);
      JournalLocal(curve, a + init, a + b, |a + init|);
      JournalLocal(curve, init, b, |init|);
    }
  }

  lemma {:induction false} JournalLocal(curve: Curve, a: seq<Coin>, b: seq<Coin>, k: nat)
    requires k <= |a| && k <= |b| && a[..k] == b[..k] && AllNonNegative(a) && AllNonNegative(b)
    ensures JournalBytes(curve, a, k) == JournalBytes(curve, b, k)
  {
    hide SpentBytes;
    if k > 0 {
      assert a[..k-1] == a[..k][..k-1] == b[..k][..k-1] == b[..k-1] && a[k-1] == a[..k][k-1] == b[..k][k-1] == b[k-1];
      JournalLocal(curve, a, b, k - 1);
    }
  }

  method SerializeSpendJournalEntry(curve: Curve, stxos: seq<Coin>) returns (serialized: seq<byte>)
    requires AllNonNegative(stxos)
    ensures serialized == JournalBytes(curve, stxos, |stxos|)
  {
    hide Splice, SpentBytes;
    if |stxos| == 0 {
      return [];
    }
    var size, k := 0, 0;
    while k < |stxos|
      invariant 0 <= k <= |stxos| && size == |JournalBytes(curve, stxos, k)|
    {
      var m := SpentTxOutSerializeSize(curve, stxos[k]);
      size := size + m;
      k := k + 1;
    }
    var target := new byte[size](_ => 0);
    ghost var was, whole, front := target[..], JournalBytes(curve, stxos, |stxos|), [];
    var offset, i := 0, |stxos|;
    SpliceNothing(was, 0);
    while i > 0
      invariant 0 <= i <= |stxos| && fresh(target) && target.Length == |was| == |whole|
      invariant offset == |front| && whole == front + JournalBytes(curve, stxos, i) && target[..] == Splice(was, 0, front)
    {
      i := i - 1;
      ghost var a := SpentBytes(curve, stxos[i]);
      assert whole == (front + a) + JournalBytes(curve, stxos, i);
      var m := PutSpentTxOut(curve, target, offset, stxos[i]);
      SpliceTwice(was, 0, front, a);
      front := front + a;
      offset := offset + m;
    }
    assert front == whole;
    SpliceAll(was, whole);
    serialized := target[..];
  }

  lemma SpliceAll(t: seq<byte>, s: seq<byte>)
    requires |t| == |s|
    ensures Splice(t, 0, s) == s
  {
  }

  /** Reads the records backwards through the transactions and their inputs. */
  method DeserializeSpendJournalEntry(curve: Curve, serialized: seq<byte>, txns: seq<Tx>) returns (r: Result<seq<Coin>, CodecError>)
    ensures r == DecodeJournal(curve, serialized, txns)
  {
    hide DecodeSpent;
    var numStxos, k := 0, 0;
    while k < |txns|
      invariant 0 <= k <= |txns| && numStxos == InputCount(txns, k)
    {
      numStxos := numStxos + |txns[k].ins|;
      k := k + 1;
    }
    if |serialized| == 0 {
      return if numStxos != 0 then Err(Mismatched) else Ok([]);
    }
    var stxos: seq<Coin>, offset: nat := [], 0;
    var txIdx: nat := |txns|;
    FinishNothing(ReadJournal(curve, serialized, 0, numStxos));
    ghost var whole := ReadJournal(curve, serialized, 0, numStxos);
    while txIdx > 0
      invariant 0 <= txIdx <= |txns| && offset <= |serialized|
      invariant whole == Finish(ReadJournal(curve, serialized, offset, InputCount(txns, txIdx)), stxos)
    {
      txIdx := txIdx - 1;
      var txInIdx: nat := |txns[txIdx].ins|;
      while txInIdx > 0
        invariant 0 <= txInIdx <= |txns[txIdx].ins| && offset <= |serialized|
        invariant whole == Finish(ReadJournal(curve, serialized, offset, InputCount(txns, txIdx) + txInIdx), stxos)
      {
        txInIdx := txInIdx - 1;
        match DecodeSpent(curve, serialized[offset..]) {
          case Err(e) => return Err(e);
          case Ok(p) =>
            FinishStep(curve, serialized, offset, InputCount(txns, txIdx) + txInIdx, p.0, p.1, stxos);
            offset := offset + p.1;
            stxos := [p.0] + stxos;
        }
      }
    }
    assert [] + stxos == stxos;
    r := Ok(stxos);
  }

  function Finish(r: Result<seq<Coin>, CodecError>, later: seq<Coin>): Result<seq<Coin>, CodecError> {
    match r
    case Err(e) => Err(e)
    case Ok(coins) => Ok(coins + later)
  }

  lemma FinishNothing(r: Result<seq<Coin>, CodecError>)
    ensures Finish(r, []) == r
  {
    if r.Ok? {
      assert r.value + [] == r.value;
    }
  }

  lemma FinishStep(curve: Curve, s: seq<byte>, offset: nat, n: nat, c: Coin, k: nat, later: seq<Coin>)
    requires offset <= |s| && DecodeSpent(curve, s[offset..]) == Ok((c, k))
    ensures Finish(ReadJournal(curve, s, offset, n + 1), later) == Finish(ReadJournal(curve, s, offset + k, n), [c] + later)
  {
    hide DecodeSpent;
    var r := ReadJournal(curve, s, offset + k, n);
    if r.Ok? {
      assert r.value + [c] + later == r.value + ([c] + later);
    }
  }

  // ----- unspent entries -----

  /** The stored form of an unspent entry; a spent one has none. */
  function EntryBytes(curve: Curve, c: Coin, spent: bool): seq<byte>
    requires c.height >= 0 && c.amount >= 0
  {
    if spent then [] else Code(HeaderCode(c)) + TxOutBytes(curve, c.amount, c.script)
  }

  method SerializeUtxoEntry(curve: Curve, c: Coin, spent: bool) returns (serialized: seq<byte>)
    requires c.height >= 0 && c.amount >= 0
    ensures serialized == EntryBytes(curve, c, spent)
  {
    hide Splice, Code, TxOutBytes, HeaderCode;
    if spent {
      return [];
    }
    var size := SerializeSizeVLQ(HeaderCode(c));
    var rest := CompressedTxOutSize(curve, c.amount, c.script);
    var target := new byte[size+rest](_ => 0);
    ghost var was := target[..];
    var offset := PutVLQ(target, 0, HeaderCode(c));
    var _ := PutCompressedTxOut(curve, target, offset, c.amount, c.script);
    SpliceTwice(was, 0, Code(HeaderCode(c)), TxOutBytes(curve, c.amount, c.script));
    SpliceAll(was, Code(HeaderCode(c)) + TxOutBytes(curve, c.amount, c.script));
    serialized := target[..];
  }

  function DecodeEntry(curve: Curve, s: seq<byte>): Result<Coin, CodecError> {
    var (code, offset) := Read(s);
    if offset >= |s| then Err(EndAfterHeader)
    else
      match DecodeTxOut(curve, s[offset..])
      case Err(e) => Err(e)
      case Ok(out) => Ok(Coin(Wrap(out.0), out.1, Int32(code / 2), code % 2 == 1))
  }

  /** A stored unspent entry reads back as the same coin. */
  lemma EntryRoundTrip(curve: Curve, c: Coin)
    requires CurveOk(curve) && Fits(c)
    ensures DecodeEntry(curve, EntryBytes(curve, c, false)) == Ok(c)
  {
    hide Code, Read, TxOutBytes, DecodeTxOut, HeaderCode, Int32, CurveOk, Compress;
    assert Wrap(c.amount) == c.amount;
    var a, o := Code(HeaderCode(c)), TxOutBytes(curve, c.amount, c.script);
    HeaderBack(c);
    RoundTrip(HeaderCode(c), o);
    assert (a + o)[|a|..] == o && o + [] == o;
    TxOutRoundTrip(curve, c.amount, c.script, []);
  }

  // ----- keys -----

  const HASH_SIZE := 32

  /** The key of an output: the hash, then the index. */
  function OutpointKey(hash: seq<byte>, index: nat): seq<byte> {
    hash + Code(index)
  }

  /** Different outputs have different keys. */
  lemma KeyInjective(h1: seq<byte>, i1: nat, h2: seq<byte>, i2: nat)
    requires |h1| == HASH_SIZE && |h2| == HASH_SIZE && i1 < TWO64 && i2 < TWO64
    requires OutpointKey(h1, i1) == OutpointKey(h2, i2)
    ensures h1 == h2 && i1 == i2
  {
    var k1, k2 := OutpointKey(h1, i1), OutpointKey(h2, i2);
    assert h1 == k1[..HASH_SIZE] && h2 == k2[..HASH_SIZE];
    assert Code(i1) == k1[HASH_SIZE..] && Code(i2) == k2[HASH_SIZE..];
    assert Code(i1) + [] == Code(i1) && Code(i2) + [] == Code(i2);
    PrefixFree(i1, i2, [], []);
  }

  /** The order of the database's keys. */
  predicate LexLe(a: seq<byte>, b: seq<byte>) {
    |a| == 0 || (|b| > 0 && (a[0] < b[0] || (a[0] == b[0] && LexLe(a[1..], b[1..]))))
  }

  /** What lies between two keys of one hash is a key with that hash. */
  lemma {:induction false} Sandwich(p: seq<byte>, a: seq<byte>, b: seq<byte>, c: seq<byte>)
    requires LexLe(p + a, b) && LexLe(b, p + c)
    ensures |p| <= |b| && b[..|p|] == p
  {
    if |p| > 0 {
      assert (p + a)[1..] == p[1..] + a && (p + c)[1..] == p[1..] + c;
      Sandwich(p[1..], a, b[1..], c);
      assert b == [b[0]] + b[1..] && p == [p[0]] + p[1..];
    }
  }

  lemma {:induction false} LexPrefix(p: seq<byte>, a: seq<byte>, b: seq<byte>)
    ensures LexLe(p + a, p + b) <==> LexLe(a, b)
  {
    if |p| > 0 {
      assert (p + a)[1..] == p[1..] + a && (p + b)[1..] == p[1..] + b;
      LexPrefix(p[1..], a, b);
    } else {
      assert p + a == a && p + b == b;
    }
  }

  /** The key with index zero comes first among the keys of a hash. */
  lemma ZeroIndexFirst(hash: seq<byte>, index: nat)
    ensures LexLe(OutpointKey(hash, 0), OutpointKey(hash, index))
  {
    assert Code(0) == [0] && LexLe([], Code(index)[1..]);
    LexPrefix(hash, Code(0), Code(index));
  }

  lemma {:induction false} LexSnoc(p: seq<byte>, q: seq<byte>, x: byte, y: byte)
    requires |p| == |q|
    ensures LexLe(p + [x], q + [y]) <==> if p == q then x <= y else LexLe(p, q)
  {
    if |p| > 0 {
      assert (p + [x])[1..] == p[1..] + [x] && (q + [y])[1..] == q[1..] + [y];
      assert p == [p[0]] + p[1..] && q == [q[0]] + q[1..];
      LexSnoc(p[1..], q[1..], x, y);
    }
  }

  lemma {:induction false} LexSelf(p: seq<byte>)
    ensures LexLe(p, p)
  {
    if |p| > 0 {
      LexSelf(p[1..]);
    }
  }

  lemma {:induction false} LeadOrder(a: nat, b: nat)
    requires |Lead(a)| == |Lead(b)|
    ensures LexLe(Lead(a), Lead(b)) <==> a <= b
    ensures Lead(a) == Lead(b) ==> a == b
  {
    if a >= 128 && b >= 128 {
      var p, q := Lead(a / 128 - 1), Lead(b / 128 - 1);
      LeadOrder(a / 128 - 1, b / 128 - 1);
      LexSnoc(p, q, 128 + a % 128, 128 + b % 128);
      LastApart(p, q, 128 + a % 128, 128 + b % 128);
    }
  }

  lemma LastApart(p: seq<byte>, q: seq<byte>, x: byte, y: byte)
    ensures p + [x] == q + [y] ==> p == q && x == y
  {
    if p + [x] == q + [y] {
      assert p == (p + [x])[..|p|] && q == (q + [y])[..|q|];
      assert x == (p + [x])[|p|];
    }
  }

  /** Among codes of one length the byte-wise order is the order of the numbers ... */
  lemma OrderWithinLength(a: nat, b: nat)
    requires |Code(a)| == |Code(b)|
    ensures LexLe(Code(a), Code(b)) <==> a <= b
  {
    if a >= 128 && b >= 128 {
      LeadOrder(a / 128 - 1, b / 128 - 1);
      LexSnoc(Lead(a / 128 - 1), Lead(b / 128 - 1), a % 128, b % 128);
    }
  }

  /** ... but not across lengths: the code of 16511 sorts after the code of 16512. */
  lemma OrderFails()
    ensures Code(16511) == [0xff, 0x7f] && Code(16512) == [0x80, 0x80, 0x00]
    ensures !LexLe(Code(16511), Code(16512))
  {
    assert Lead(127) == [0xff] && Lead(0) == [0x80] && Lead(128) == Lead(0) + [0x80];
  }

  /** Codes of one and two bytes are in order. */
  lemma ShortOrder(a: nat, b: nat)
    requires a < 16512 && b < 16512
    ensures LexLe(Code(a), Code(b)) <==> a <= b
  {
    ShortCode(a);
    ShortCode(b);
    if |Code(a)| == |Code(b)| {
      OrderWithinLength(a, b);
    }
  }

  lemma ShortCode(a: nat)
    requires a < 16512
    ensures |Code(a)| == if a < 128 then 1 else 2
    ensures Code(a)[0] >= 128 <==> a >= 128
  {
    if a >= 128 {
      assert Lead(a / 128 - 1) == [128 + (a / 128 - 1)];
    }
  }

  predicate KeysInOrder(hash: seq<byte>, a: nat, b: nat) {
    LexLe(OutpointKey(hash, a), OutpointKey(hash, b)) <==> a <= b
  }

  /** The keys of a transaction's outputs are in the order of the indexes if and only if all indexes are below 16512. */
  lemma KeyOrderIff(hash: seq<byte>, bound: nat)
    ensures (forall a: nat, b: nat :: a < bound && b < bound ==> KeysInOrder(hash, a, b)) <==> bound <= 16512
  {
    if bound <= 16512 {
      forall a: nat, b: nat | a < bound && b < bound ensures KeysInOrder(hash, a, b) {
        LexPrefix(hash, Code(a), Code(b));
        ShortOrder(a, b);
      }
    } else {
      LexPrefix(hash, Code(16511), Code(16512));
      OrderFails();
      assert !KeysInOrder(hash, 16511, 16512);
    }
  }

  /** What a cursor gives for a key: the first entry at or after it. */
  ghost predicate IsSeek(keys: set<seq<byte>>, key: seq<byte>, found: Option<seq<byte>>) {
    (found.Some? ==> found.value in keys && LexLe(key, found.value)) &&
    forall k :: k in keys && LexLe(key, k) ==> found.Some? && LexLe(found.value, k)
  }

  ghost predicate IsKey(k: seq<byte>) {
    exists hash: seq<byte>, index: nat :: |hash| == HASH_SIZE && k == OutpointKey(hash, index)
  }

  function Found(r: Result<Coin, CodecError>): Result<Option<Coin>, CodecError> {
    match r
    case Err(e) => Err(e)
    case Ok(c) => Ok(Some(c))
  }

  /**
   The lookup by hash: `cursor` is what the database's seek returned.  It finds an entry of the hash if and
   only if the bucket has one.
   */
  method FetchUtxoEntryByHash(curve: Curve, bucket: map<seq<byte>, seq<byte>>, hash: seq<byte>, cursor: Option<seq<byte>>)
      returns (r: Result<Option<Coin>, CodecError>, ghost index: nat)
    requires |hash| == HASH_SIZE && (forall k :: k in bucket ==> IsKey(k))
    requires IsSeek(bucket.Keys, OutpointKey(hash, 0), cursor)
    ensures r == Ok(None) <==> forall i: nat :: OutpointKey(hash, i) !in bucket
    ensures r != Ok(None) ==> OutpointKey(hash, index) in bucket && r == Found(DecodeEntry(curve, bucket[OutpointKey(hash, index)]))
  {
    hide DecodeEntry, Code;
    index := 0;
    forall i: nat | OutpointKey(hash, i) in bucket
      ensures cursor.Some? && |cursor.value| >= HASH_SIZE && cursor.value[..HASH_SIZE] == hash
    {
      ZeroIndexFirst(hash, i);
      Sandwich(hash, Code(0), cursor.value, Code(i));
    }
    if cursor.None? || |cursor.value| < HASH_SIZE || cursor.value[..HASH_SIZE] != hash {
      return Ok(None), 0;
    }
    assert IsKey(cursor.value);
    ghost var h: seq<byte>, i: nat :| |h| == HASH_SIZE && cursor.value == OutpointKey(h, i);
    assert h == cursor.value[..HASH_SIZE];
    index := i;
    r := Found(DecodeEntry(curve, bucket[cursor.value]));
  }
}
