/** The stored formats on the examples that the source documents (pkg/blockchain/compress.go and chainio.go). */
module Formats {
  import opened Wire
  import opened Radix
  import opened Ledger
  import opened Vlq
  import opened Amount
  import opened ScriptCodec
  import opened ChainIo

  /** compress.go:468-479. */
  lemma NumberExamples()
    ensures Code(0) == [0x00] && Code(1) == [0x01] && Code(127) == [0x7f]
    ensures Code(128) == [0x80, 0x00] && Code(129) == [0x80, 0x01] && Code(255) == [0x80, 0x7f] && Code(256) == [0x81, 0x00]
    ensures Code(16511) == [0xff, 0x7f] && Code(16512) == [0x80, 0x80, 0x00] && Code(32895) == [0x80, 0xff, 0x7f]
  {
    assert Lead(0) == [0x80] && Lead(1) == [0x81] && Lead(127) == [0xff] && Lead(128) == Lead(0) + [0x80] && Lead(255) == Lead(0) + [0xff];
  }

  /** compress.go:77-86, where the source says 47 for half a coin: the formula of its lines 62-71 and the code give 48. */
  lemma AmountExamples()
    ensures Compress(0) == 0 && Compress(1_000) == 4 && Compress(10_000) == 5 && Compress(12_345_678) == 111_111_101
    ensures Compress(50_000_000) == 48 && Compress(100_000_000) == 9 && Compress(500_000_000) == 49 && Compress(1_000_000_000) == 10
  {
    hide Compress, Pow;
    Powers();
    AmountFormula(1_000, 0, 1, 3);
    AmountFormula(10_000, 0, 1, 4);
    AmountFormula(12_345_678, 1_234_567, 8, 0);
    AmountFormula(50_000_000, 0, 5, 7);
    AmountFormula(100_000_000, 0, 1, 8);
    AmountFormula(500_000_000, 0, 5, 8);
    RoundAmount(1_000_000_000, 1);
    NoAmount();
  }

  lemma NoAmount()
    ensures Compress(0) == 0
  {
  }

  lemma Powers()
    ensures Pow(10, 0) == 1 && Pow(10, 3) == 1_000 && Pow(10, 4) == 10_000 && Pow(10, 6) == 1_000_000 && Pow(10, 7) == 10_000_000
    ensures Pow(10, 8) == 100_000_000 && Pow(10, 9) == 1_000_000_000
  {
    assert Pow(10, 1) == 10 && Pow(10, 2) == 100 && Pow(10, 5) == 100_000;
  }

  /** A coinbase of block 1 with fifty coins, paid to an uncompressed key with an even Y; chainio.go:446-457. */
  lemma EntryOfBlockOne(curve: Curve, x: seq<byte>, y: seq<byte>)
    requires |x| == 32 && |y| == 32 && y[31] % 2 == 0 && curve.parse([0x04] + x + y).Some?
    ensures EntryBytes(curve, Coin(5_000_000_000, [0x41, 0x04] + x + y + [0xac], 1, true), false) == [0x03, 0x32, 0x04] + x
  {
    hide CompressScript, Compress, Pow;
    Powers();
    RoundAmount(5_000_000_000, 5);
    UncompressedKeyBytes(curve, x, y);
    assert Code(3) == [0x03] && Code(50) == [0x32];
  }

  /** Fifteen million units of block 113931 for a key hash; chainio.go:458-470. */
  lemma EntryForKeyHash(curve: Curve, hash: seq<byte>)
    requires |hash| == 20
    ensures EntryBytes(curve, Coin(15_000_000, [0x76, 0xa9, 0x14] + hash + [0x88, 0xac], 113931, false), false) ==
      [0x8c, 0xf3, 0x16, 0x80, 0x09, 0x00] + hash
  {
    hide CompressScript, Compress, Pow;
    Powers();
    AmountFormula(15_000_000, 1, 5, 6);
    PubKeyHashBytes(curve, hash);
    assert Lead(12) == [0x8c] && Lead(1779) == Lead(12) + [0xf3] && Code(227_862) == Lead(1779) + [0x16];
    assert Lead(0) == [0x80] && Code(137) == [0x80, 0x09];
  }

  /** An amount without trailing zeros, of block 338156, for a script hash; chainio.go:471-484. */
  lemma EntryForScriptHash(curve: Curve, hash: seq<byte>)
    requires |hash| == 20
    ensures EntryBytes(curve, Coin(366_875_659, [0xa9, 0x14] + hash + [0x87], 338156, false), false) ==
      [0xa8, 0xa2, 0x58, 0x8b, 0xa5, 0xb9, 0xe7, 0x63, 0x01] + hash
  {
    hide CompressScript, Compress, Pow, Code;
    Powers();
    AmountFormula(366_875_659, 36_687_565, 9, 0);
    ScriptHashBytes(curve, hash);
    LongHeader();
    LongAmount();
  }

  lemma LongHeader()
    ensures Code(676_312) == [0xa8, 0xa2, 0x58]
  {
    assert Lead(40) == [0xa8] && Lead(5282) == Lead(40) + [0xa2] && Code(676_312) == Lead(5282) + [0x58];
  }

  lemma LongAmount()
    ensures Code(3_301_880_931) == [0x8b, 0xa5, 0xb9, 0xe7, 0x63]
  {
    hide Code;
    assert Lead(11) == [0x8b] && Lead(1573) == Lead(11) + [0xa5];
    NextLead(1573, 57);
    NextLead(201_529, 103);
    LastGroup(25_795_943, 99);
  }

  lemma NextLead(n: nat, d: nat)
    requires d < 128
    ensures Lead(128 * (n + 1) + d) == Lead(n) + [128 + d]
  {
    DivUnique(128 * (n + 1) + d, n + 1, d, 128);
  }

  lemma LastGroup(n: nat, d: nat)
    requires d < 128
    ensures Code(128 * (n + 1) + d) == Lead(n) + [d]
  {
    hide Lead;
    DivUnique(128 * (n + 1) + d, n + 1, d, 128);
  }

  /** The journal record of a coinbase output of block 9, with the reserved byte; chainio.go:144-156. */
  lemma RecordOfBlockNine(curve: Curve, x: seq<byte>, y: seq<byte>)
    requires |x| == 32 && |y| == 32 && y[31] % 2 == 1 && curve.parse([0x04] + x + y).Some?
    ensures SpentBytes(curve, Coin(5_000_000_000, [0x41, 0x04] + x + y + [0xac], 9, true)) == [0x13, 0x00, 0x32, 0x05] + x
  {
    hide CompressScript, Compress, Pow;
    Powers();
    RoundAmount(5_000_000_000, 5);
    UncompressedKeyBytes(curve, x, y);
    assert Code(19) == [0x13] && Code(0) == [0x00] && Code(50) == [0x32];
  }

  /** Two outputs of block 100024: the last one spent comes first; chainio.go:157-178. */
  lemma JournalOfTwo(curve: Curve, first: seq<byte>, last: seq<byte>)
    requires |first| == 20 && |last| == 20
    ensures var a := Coin(13_761_000_000, [0x76, 0xa9, 0x14] + first + [0x88, 0xac], 100024, false);
      var b := Coin(34_405_000_000, [0x76, 0xa9, 0x14] + last + [0x88, 0xac], 100024, false);
      JournalBytes(curve, [a, b], 2) ==
        [0x8b, 0x99, 0x70, 0x00, 0x91, 0xf2, 0x0f, 0x00] + last + [0x8b, 0x99, 0x70, 0x00, 0x86, 0xc6, 0x47, 0x00] + first
  {
    hide SpentBytes;
    var a := Coin(13_761_000_000, [0x76, 0xa9, 0x14] + first + [0x88, 0xac], 100024, false);
    var b := Coin(34_405_000_000, [0x76, 0xa9, 0x14] + last + [0x88, 0xac], 100024, false);
    RecordOne(curve, first);
    RecordTwo(curve, last);
    assert JournalBytes(curve, [a, b], 0) == [] && JournalBytes(curve, [a, b], 1) == SpentBytes(curve, a) + [];
  }

  lemma Header()
    ensures Code(200_048) == [0x8b, 0x99, 0x70] && Code(0) == [0x00]
  {
    assert Lead(11) == [0x8b] && Lead(1561) == Lead(11) + [0x99] && Code(200_048) == Lead(1561) + [0x70];
  }

  lemma RecordOne(curve: Curve, hash: seq<byte>)
    requires |hash| == 20
    ensures SpentBytes(curve, Coin(13_761_000_000, [0x76, 0xa9, 0x14] + hash + [0x88, 0xac], 100024, false)) ==
      [0x8b, 0x99, 0x70, 0x00, 0x86, 0xc6, 0x47, 0x00] + hash
  {
    hide CompressScript, Compress, Pow;
    Header();
    Powers();
    AmountFormula(13_761_000_000, 1376, 1, 6);
    PubKeyHashBytes(curve, hash);
    assert Lead(6) == [0x86] && Lead(966) == Lead(6) + [0xc6] && Code(123_847) == Lead(966) + [0x47];
  }

  lemma RecordTwo(curve: Curve, hash: seq<byte>)
    requires |hash| == 20
    ensures SpentBytes(curve, Coin(34_405_000_000, [0x76, 0xa9, 0x14] + hash + [0x88, 0xac], 100024, false)) ==
      [0x8b, 0x99, 0x70, 0x00, 0x91, 0xf2, 0x0f, 0x00] + hash
  {
    hide CompressScript, Compress, Pow;
    Header();
    Powers();
    AmountFormula(34_405_000_000, 3440, 5, 6);
    PubKeyHashBytes(curve, hash);
    assert Lead(17) == [0x91] && Lead(2418) == Lead(17) + [0xf2] && Code(309_647) == Lead(2418) + [0x0f];
  }
}
