/** The Huffman tables in the segment that `memcpy_picture` inserts, and the autofocus decoder. */
module StandardTables {
  import opened Words
  import opened BitStreams
  import opened HuffmanTables
  import opened EntropyDecoder
  import opened EntropyEncoder
  import opened BaselineCoding
  import opened ScanRoundTrip

  // The length counts of the four tables in huffman.h.
  const DC_LUMA: seq<byte> := [0, 1, 5, 1, 1, 1, 1, 1, 1, 0, 0, 0, 0, 0, 0, 0]
  const DC_CHROMA: seq<byte> := [0, 3, 1, 1, 1, 1, 1, 1, 1, 1, 1, 0, 0, 0, 0, 0]
  const AC_LUMA: seq<byte> := [0, 2, 1, 3, 3, 2, 4, 3, 5, 5, 4, 4, 0, 0, 1, 0x7D]
  const AC_CHROMA: seq<byte> := [0, 2, 1, 2, 4, 4, 3, 4, 7, 5, 4, 4, 0, 1, 2, 0x77]

  /** The share of the code space taken by the codes of up to `l` bits, in units of 2^-16. */
  function Share(counts: seq<byte>, l: nat): (r: nat)
    requires l <= |counts| == 16
  {
    if l == 0 then 0 else Share(counts, l - 1) + Times(counts[l - 1], Pow2(16 - l))
  }

  function Times(n: nat, m: nat): (r: nat) {
    if n == 0 then 0 else Times(n - 1, m) + m
  }

  lemma {:induction false} KraftOfFront(a: seq<nat>, b: seq<nat>, k: nat)
    requires k <= |a| && (forall j :: 0 <= j < |a + b| ==> (a + b)[j] <= 16)
    ensures (forall j :: 0 <= j < |a| ==> a[j] <= 16) && Kraft(a + b, k) == Kraft(a, k)
  {
    forall j | 0 <= j < |a|
      ensures a[j] <= 16
    {
      assert (a + b)[j] == a[j];
    }
    if k > 0 {
      KraftOfFront(a, b, k - 1);
    }
  }

  lemma {:induction false} KraftOfEqual(a: seq<nat>, l: nat, n: nat, k: nat)
    requires l <= 16 && k <= n && forall j :: 0 <= j < |a| ==> a[j] <= 16
    ensures var s := a + seq(n, _ => l);
            (forall j :: 0 <= j < |s| ==> s[j] <= 16) && Kraft(s, |a| + k) == Kraft(a, |a|) + Times(k, Pow2(16 - l))
  {
    hide Pow2;
    if k == 0 {
      KraftOfFront(a, seq(n, _ => l), |a|);
    } else {
      KraftOfEqual(a, l, n, k - 1);
    }
  }

  lemma {:induction false} KraftIsShare(counts: seq<byte>, l: nat)
    requires l <= |counts| == 16
    ensures Kraft(Sizes(counts, l), |Sizes(counts, l)|) == Share(counts, l)
  {
    hide Pow2;
    if l > 0 {
      KraftIsShare(counts, l - 1);
      KraftOfEqual(Sizes(counts, l - 1), l, counts[l - 1], counts[l - 1]);
    }
  }

  lemma {:induction false} TimesIs(n: nat, m: nat)
    ensures Times(n, m) == n * m
  {
    if n > 0 {
      TimesIs(n - 1, m);
    }
  }

  lemma Powers()
    ensures Pow2(0) == 1 && Pow2(1) == 2 && Pow2(2) == 4 && Pow2(3) == 8 && Pow2(4) == 16 && Pow2(5) == 32
    ensures Pow2(6) == 64 && Pow2(7) == 128 && Pow2(8) == 256 && Pow2(9) == 512 && Pow2(10) == 1024
    ensures Pow2(11) == 2048 && Pow2(12) == 4096 && Pow2(13) == 8192 && Pow2(14) == 16384 && Pow2(15) == 32768
    ensures Pow2(16) == 65536
  {
  }

  /** The share of all 16 lengths, written out. */
  lemma ShareIs(c: seq<byte>, n: nat)
    requires n == |c| == 16
    ensures Share(c, n) ==
            32768 * (c[0] as int) + 16384 * (c[1] as int) + 8192 * (c[2] as int) + 4096 * (c[3] as int) +
            2048 * (c[4] as int) + 1024 * (c[5] as int) + 512 * (c[6] as int) + 256 * (c[7] as int) +
            128 * (c[8] as int) + 64 * (c[9] as int) + 32 * (c[10] as int) + 16 * (c[11] as int) +
            8 * (c[12] as int) + 4 * (c[13] as int) + 2 * (c[14] as int) + (c[15] as int)
  {
    Powers();
    hide Pow2, Times;
    ShareSteps(c, 1, 32768);
    ShareSteps(c, 2, 16384);
    ShareSteps(c, 3, 8192);
    ShareSteps(c, 4, 4096);
    ShareSteps(c, 5, 2048);
    ShareSteps(c, 6, 1024);
    ShareSteps(c, 7, 512);
    ShareSteps(c, 8, 256);
    ShareSteps(c, 9, 128);
    ShareSteps(c, 10, 64);
    ShareSteps(c, 11, 32);
    ShareSteps(c, 12, 16);
    ShareSteps(c, 13, 8);
    ShareSteps(c, 14, 4);
    ShareSteps(c, 15, 2);
    ShareSteps(c, 16, 1);
  }

  lemma ShareSteps(c: seq<byte>, l: nat, m: nat)
    requires 1 <= l <= |c| == 16 && m == Pow2(16 - l)
    ensures Share(c, l) == Share(c, l - 1) + m * c[l - 1]
  {
    TimesIs(c[l - 1], m);
  }

  lemma SharesFit(n: nat)
    requires n == 16
    ensures Share(DC_LUMA, n) <= 65536 && Share(DC_CHROMA, n) <= 65536
    ensures Share(AC_LUMA, n) <= 65536 && Share(AC_CHROMA, n) <= 65536
  {
    hide Share;
    ShareIs(DC_LUMA, n);
    ShareIs(DC_CHROMA, n);
    ShareIs(AC_LUMA, n);
    ShareIs(AC_CHROMA, n);
  }

  /** Every table of the inserted segment can be decoded with: the decoder's mask matching is
      unambiguous on it, whatever the symbols are. */
  lemma InsertedTablesDecodable(counts: seq<byte>, symbols: seq<byte>)
    requires |counts| == 16 && |AllSizes(counts)| <= |symbols|
    requires counts == DC_LUMA || counts == DC_CHROMA || counts == AC_LUMA || counts == AC_CHROMA
    ensures Decodable(Canonical(counts, symbols))
  {
    hide Decodable, Canonical, Kraft, Share, Sizes;
    Powers();
    hide Pow2;
    SharesFit(|counts|);
    ShareOfSizes(counts);
    CanonicalDecodable(counts, symbols);
  }

  lemma ShareOfSizes(counts: seq<byte>)
    requires |counts| == 16 && Share(counts, |counts|) <= Pow2(16)
    ensures KraftHolds(AllSizes(counts))
  {
    hide Kraft, Share, Sizes, Pow2;
    KraftIsShare(counts, |counts|);
  }

  // ---------------------------------------------------------------- the symbols of huffman.h

  const DC_SYMBOLS: seq<byte> := [0, 1, 2, 3, 4, 5, 6, 7, 8, 9, 10, 11]

  const LUMA_1: seq<byte> :=
    [0x01, 0x02, 0x03, 0x00, 0x04, 0x11, 0x05, 0x12, 0x21, 0x31, 0x41, 0x06, 0x13, 0x51, 0x61, 0x07]
  const LUMA_2: seq<byte> :=
    [0x22, 0x71, 0x14, 0x32, 0x81, 0x91, 0xA1, 0x08, 0x23, 0x42, 0xB1, 0xC1, 0x15, 0x52, 0xD1, 0xF0]
  const LUMA_3: seq<byte> :=
    [0x24, 0x33, 0x62, 0x72, 0x82, 0x09, 0x0A, 0x16, 0x17, 0x18, 0x19, 0x1A, 0x25, 0x26, 0x27, 0x28]
  const LUMA_4: seq<byte> :=
    [0x29, 0x2A, 0x34, 0x35, 0x36, 0x37, 0x38, 0x39, 0x3A, 0x43, 0x44, 0x45, 0x46, 0x47, 0x48, 0x49]
  const LUMA_5: seq<byte> :=
    [0x4A, 0x53, 0x54, 0x55, 0x56, 0x57, 0x58, 0x59, 0x5A, 0x63, 0x64, 0x65, 0x66, 0x67, 0x68, 0x69]
  const LUMA_6: seq<byte> :=
    [0x6A, 0x73, 0x74, 0x75, 0x76, 0x77, 0x78, 0x79, 0x7A, 0x83, 0x84, 0x85, 0x86, 0x87, 0x88, 0x89]
  const LUMA_7: seq<byte> :=
    [0x8A, 0x92, 0x93, 0x94, 0x95, 0x96, 0x97, 0x98, 0x99, 0x9A, 0xA2, 0xA3, 0xA4, 0xA5, 0xA6, 0xA7]
  const LUMA_8: seq<byte> :=
    [0xA8, 0xA9, 0xAA, 0xB2, 0xB3, 0xB4, 0xB5, 0xB6, 0xB7, 0xB8, 0xB9, 0xBA, 0xC2, 0xC3, 0xC4, 0xC5]
  const LUMA_9: seq<byte> :=
    [0xC6, 0xC7, 0xC8, 0xC9, 0xCA, 0xD2, 0xD3, 0xD4, 0xD5, 0xD6, 0xD7, 0xD8, 0xD9, 0xDA, 0xE1, 0xE2]
  const LUMA_10: seq<byte> :=
    [0xE3, 0xE4, 0xE5, 0xE6, 0xE7, 0xE8, 0xE9, 0xEA, 0xF1, 0xF2, 0xF3, 0xF4, 0xF5, 0xF6, 0xF7, 0xF8]
  const LUMA_11: seq<byte> := [0xF9]

  /** All symbols of the luma AC table but the last. */
  const LUMA_FRONT: seq<byte> :=
    LUMA_1 + LUMA_2 + LUMA_3 + LUMA_4 + LUMA_5 + LUMA_6 +
    LUMA_7 + LUMA_8 + LUMA_9 + LUMA_10 + LUMA_11

  const CHROMA_1: seq<byte> :=
    [0x00, 0x01, 0x02, 0x03, 0x11, 0x04, 0x05, 0x21, 0x31, 0x06, 0x12, 0x41, 0x51, 0x07, 0x61, 0x71]
  const CHROMA_2: seq<byte> :=
    [0x13, 0x22, 0x32, 0x81, 0x08, 0x14, 0x42, 0x91, 0xA1, 0xB1, 0xC1, 0x09, 0x23, 0x33, 0x52, 0xF0]
  const CHROMA_3: seq<byte> :=
    [0x15, 0x62, 0x72, 0xD1, 0x0A, 0x16, 0x24, 0x34, 0xE1, 0x25, 0xF1, 0x17, 0x18, 0x19, 0x1A, 0x26]
  const CHROMA_4: seq<byte> :=
    [0x27, 0x28, 0x29, 0x2A, 0x35, 0x36, 0x37, 0x38, 0x39, 0x3A, 0x43, 0x44, 0x45, 0x46, 0x47, 0x48]
  const CHROMA_5: seq<byte> :=
    [0x49, 0x4A, 0x53, 0x54, 0x55, 0x56, 0x57, 0x58, 0x59, 0x5A, 0x63, 0x64, 0x65, 0x66, 0x67, 0x68]
  const CHROMA_6: seq<byte> :=
    [0x69, 0x6A, 0x73, 0x74, 0x75, 0x76, 0x77, 0x78, 0x79, 0x7A, 0x82, 0x83, 0x84, 0x85, 0x86, 0x87]
  const CHROMA_7: seq<byte> :=
    [0x88, 0x89, 0x8A, 0x92, 0x93, 0x94, 0x95, 0x96, 0x97, 0x98, 0x99, 0x9A, 0xA2, 0xA3, 0xA4, 0xA5]
  const CHROMA_8: seq<byte> :=
    [0xA6, 0xA7, 0xA8, 0xA9, 0xAA, 0xB2, 0xB3, 0xB4, 0xB5, 0xB6, 0xB7, 0xB8, 0xB9, 0xBA, 0xC2, 0xC3]
  const CHROMA_9: seq<byte> :=
    [0xC4, 0xC5, 0xC6, 0xC7, 0xC8, 0xC9, 0xCA, 0xD2, 0xD3, 0xD4, 0xD5, 0xD6, 0xD7, 0xD8, 0xD9, 0xDA]
  const CHROMA_10: seq<byte> :=
    [0xE2, 0xE3, 0xE4, 0xE5, 0xE6, 0xE7, 0xE8, 0xE9, 0xEA, 0xF2, 0xF3, 0xF4, 0xF5, 0xF6, 0xF7, 0xF8]
  const CHROMA_11: seq<byte> := [0xF9]

  /** All symbols of the chroma AC table but the last. */
  const CHROMA_FRONT: seq<byte> :=
    CHROMA_1 + CHROMA_2 + CHROMA_3 + CHROMA_4 + CHROMA_5 + CHROMA_6 +
    CHROMA_7 + CHROMA_8 + CHROMA_9 + CHROMA_10 + CHROMA_11

  const LAST_AC: byte := 0xFA
  const LAST_DC: byte := 11

  lemma LumaSymbols(s: int)
    requires BaselineSymbol(s)
    ensures s in LUMA_FRONT || s == LAST_AC
  {
    if s < 64 {
      assert s in LUMA_FRONT;
    } else if s < 128 {
      assert s in LUMA_FRONT;
    } else if s < 192 {
      assert s in LUMA_FRONT;
    } else {
      assert s in LUMA_FRONT || s == LAST_AC;
    }
  }

  lemma ChromaSymbols(s: int)
    requires BaselineSymbol(s)
    ensures s in CHROMA_FRONT || s == LAST_AC
  {
    if s < 64 {
      assert s in CHROMA_FRONT;
    } else if s < 128 {
      assert s in CHROMA_FRONT;
    } else if s < 192 {
      assert s in CHROMA_FRONT;
    } else {
      assert s in CHROMA_FRONT || s == LAST_AC;
    }
  }

  lemma FrontLengths()
    ensures |LUMA_FRONT| == |CHROMA_FRONT| == 161
  {
  }

  // ---------------------------------------------------------------- tables and their symbols

  function Total(counts: seq<byte>, l: nat): (r: nat)
    requires l <= |counts|
  {
    if l == 0 then 0 else Total(counts, l - 1) + counts[l - 1]
  }

  lemma {:induction false} SizesTotal(counts: seq<byte>, l: nat)
    requires l <= |counts| == 16
    ensures |Sizes(counts, l)| == Total(counts, l)
  {
    if l > 0 {
      SizesTotal(counts, l - 1);
    }
  }

  lemma NextFour(c: seq<byte>, l: nat)
    requires l + 4 <= |c|
    ensures Total(c, l + 4) ==
            Total(c, l) + (c[l] as int) + (c[l + 1] as int) + (c[l + 2] as int) + (c[l + 3] as int)
  {
    assert Total(c, l + 1) == Total(c, l) + c[l];
    assert Total(c, l + 2) == Total(c, l + 1) + c[l + 1];
    assert Total(c, l + 3) == Total(c, l + 2) + c[l + 2];
  }

  lemma TotalIs(c: seq<byte>, n: nat)
    requires n == |c| == 16
    ensures Total(c, n) == FirstHalf(c) + (c[8] as int) + (c[9] as int) + (c[10] as int) + (c[11] as int) +
                           (c[12] as int) + (c[13] as int) + (c[14] as int) + (c[15] as int)
  {
    assert Total(c, n - 16) == 0;
    hide Total;
    NextFour(c, 0);
    NextFour(c, 4);
    NextFour(c, 8);
    NextFour(c, 12);
  }

  function FirstHalf(c: seq<byte>): (r: nat)
    requires |c| == 16
  {
    (c[0] as int) + (c[1] as int) + (c[2] as int) + (c[3] as int) +
    (c[4] as int) + (c[5] as int) + (c[6] as int) + (c[7] as int)
  }

  lemma Totals()
    ensures |AllSizes(DC_LUMA)| == |AllSizes(DC_CHROMA)| == 12
    ensures |AllSizes(AC_LUMA)| == |AllSizes(AC_CHROMA)| == 162
  {
    hide Total, Sizes;
    SizesTotal(DC_LUMA, |DC_LUMA|);
    TotalIs(DC_LUMA, |DC_LUMA|);
    SizesTotal(DC_CHROMA, |DC_CHROMA|);
    TotalIs(DC_CHROMA, |DC_CHROMA|);
    SizesTotal(AC_LUMA, |AC_LUMA|);
    TotalIs(AC_LUMA, |AC_LUMA|);
    SizesTotal(AC_CHROMA, |AC_CHROMA|);
    TotalIs(AC_CHROMA, |AC_CHROMA|);
  }

  lemma {:induction false} NotBefore(t: seq<Entry>, sym: int, k: nat)
    requires k < IndexOf(t, sym)
    ensures t[k].symbol != sym
  {
    if k > 0 {
      NotBefore(t[1..], sym, k - 1);
    }
  }

  /** A symbol has a code if it is listed, and the last code if it is listed last and only there. */
  lemma ListedSymbols(counts: seq<byte>, front: seq<byte>, last: byte, s: int)
    requires |counts| == 16 && |AllSizes(counts)| == |front| + 1
    ensures Coded(Canonical(counts, front + [last]), s) <==> s in front || s == last
    ensures last !in front ==> (CodedLast(Canonical(counts, front + [last]), s) <==> s == last)
  {
    hide Sizes, IndexOf;
    var t := Canonical(counts, front + [last]);
    assert forall k :: 0 <= k < |front| ==> t[k].symbol == front[k];
    assert t[|front|].symbol == last;
    var i := IndexOf(t, s);
    if s in front || s == last {
      var k :| 0 <= k < |t| && t[k].symbol == s;
      if k < i {
        NotBefore(t, s, k);
      }
    }
  }

  /** The DC and AC tables for luma, or those for chroma. */
  ghost function DcTable(luma: bool): (t: seq<Entry>) {
    Totals();
    Canonical(if luma then DC_LUMA else DC_CHROMA, DC_SYMBOLS[..11] + [LAST_DC])
  }

  ghost function AcTable(luma: bool): (t: seq<Entry>) {
    Totals();
    FrontLengths();
    if luma then Canonical(AC_LUMA, LUMA_FRONT + [LAST_AC]) else Canonical(AC_CHROMA, CHROMA_FRONT + [LAST_AC])
  }

  lemma DcSymbolsListed(s: int)
    ensures 0 <= s <= 11 <==> s in DC_SYMBOLS[..11] || s == LAST_DC
    ensures LAST_DC !in DC_SYMBOLS[..11]
  {
    assert DC_SYMBOLS[..11] == [0, 1, 2, 3, 4, 5, 6, 7, 8, 9, 10];
  }

  lemma InsertedDc(luma: bool, s: int)
    ensures 0 <= s <= 11 ==> Coded(DcTable(luma), s)
    ensures CodedLast(DcTable(luma), s) <==> s == LAST_DC
  {
    hide Coded, CodedLast, Canonical, Sizes;
    Totals();
    DcSymbolsListed(s);
    ListedSymbols(if luma then DC_LUMA else DC_CHROMA, DC_SYMBOLS[..11], LAST_DC, s);
  }

  lemma InsertedAc(luma: bool, s: int)
    ensures |AcTable(luma)| == 162 && AcTable(luma)[161].symbol == LAST_AC
    ensures BaselineSymbol(s) ==> Coded(AcTable(luma), s)
  {
    hide Coded, CodedLast, BaselineSymbol, Sizes;
    Totals();
    FrontLengths();
    if luma {
      ListedSymbols(AC_LUMA, LUMA_FRONT, LAST_AC, s);
      if BaselineSymbol(s) {
        LumaSymbols(s);
      }
    } else {
      ListedSymbols(AC_CHROMA, CHROMA_FRONT, LAST_AC, s);
      if BaselineSymbol(s) {
        ChromaSymbols(s);
      }
    }
  }

  /** The last codes are those of size 11 and, since all 162 codes are needed for as many symbols, of
      run 15 with size 10. */
  lemma InsertedLast(luma: bool, s: int)
    ensures CodedLast(DcTable(luma), s) <==> s == LAST_DC
    ensures CodedLast(AcTable(luma), s) <==> s == LAST_AC
  {
    hide DcTable, AcTable, BaselineSymbol;
    InsertedDc(luma, s);
    forall x
      ensures BaselineSymbol(x) ==> Coded(AcTable(luma), x)
    {
      InsertedAc(luma, x);
    }
    InsertedAc(luma, s);
    var lost := OneSymbolIsLost(AcTable(luma));
  }

  /** The tables of huffman.h are baseline tables. */
  lemma InsertedAreBaseline(luma: bool)
    ensures BaselineTables(DcTable(luma), AcTable(luma))
  {
    hide Coded, CodedLast, Canonical, BaselineSymbol, Sizes, Decodable;
    Totals();
    FrontLengths();
    InsertedTablesDecodable(if luma then DC_LUMA else DC_CHROMA, DC_SYMBOLS[..11] + [LAST_DC]);
    if luma {
      InsertedTablesDecodable(AC_LUMA, LUMA_FRONT + [LAST_AC]);
    } else {
      InsertedTablesDecodable(AC_CHROMA, CHROMA_FRONT + [LAST_AC]);
    }
    hide DcTable, AcTable;
    forall s
      ensures 0 <= s <= 11 ==> Coded(DcTable(luma), s)
      ensures BaselineSymbol(s) ==> Coded(AcTable(luma), s)
    {
      InsertedDc(luma, s);
      InsertedAc(luma, s);
    }
  }

  /** With the tables of huffman.h a baseline block is decoded if and only if its DC difference does
      not have 11 bits and no coefficient of 10 bits follows a run of 15, 31 or 47 zeros. */
  lemma InsertedRoundTrip(luma: bool, b: Stream, pos: nat, zz: Coefficients, pred: int, table: Table)
    requires BaselineBlock(zz, pred)
    ensures BlockCodable(DcTable(luma), AcTable(luma), zz, pred)
    ensures At(b, pos, EncodeBlock(DcTable(luma), AcTable(luma), zz, pred)) ==>
              var r := DecodeBlock(DcTable(luma), AcTable(luma), b, pos, pred, table);
              && (r.ok <==> Category(zz[0] - pred) != 11 && !exists i :: 0 < i < 64 && CodedAs(zz, i, 15, 10))
              && (r.ok ==> r.table[..64] == zz && r.lastDC == zz[0])
  {
    hide DcTable, AcTable, BaselineTables, CodedLast, AcSymbols, EncodeBlock, DecodeBlock, BlockCodable, BaselineBlock;
    hide Category, CodedAs;
    SizesFit(zz, pred);
    SymbolNeededIff(zz, 15, 10);
    InsertedAreBaseline(luma);
    BaselineRoundTrip(DcTable(luma), AcTable(luma), b, pos, zz, pred, table);
    InsertedLast(luma, Category(zz[0] - pred));
    forall s
      ensures CodedLast(AcTable(luma), s) <==> s == LAST_AC
    {
      InsertedLast(luma, s);
    }
  }

  lemma SizesFit(zz: Coefficients, pred: int)
    requires BaselineBlock(zz, pred)
    ensures forall i :: 0 < i < 64 ==> Category(zz[i]) <= 15
  {
  }

  lemma {:induction false} ZerosInFront(zz: Coefficients, k: nat)
    requires 0 < k <= 64 && forall i :: 0 < i < k ==> zz[i] == 0
    ensures ZerosBefore(zz, k) == k - 1
  {
    if k > 1 {
      ZerosInFront(zz, k - 1);
    }
  }

  lemma Needs512()
    ensures BaselineBlock(Single(16, 512), 0) && CodedAs(Single(16, 512), 16, 15, 10)
  {
    SizeOf512();
    hide Category;
    ZerosInFront(Single(16, 512), 16);
  }

  /** A block that the decoder refuses: the value 512 behind 15 zeros. */
  lemma RefusedBlock(luma: bool, b: Stream, pos: nat, table: Table)
    ensures BlockCodable(DcTable(luma), AcTable(luma), Single(16, 512), 0)
    ensures At(b, pos, EncodeBlock(DcTable(luma), AcTable(luma), Single(16, 512), 0)) ==>
              !DecodeBlock(DcTable(luma), AcTable(luma), b, pos, 0, table).ok
  {
    hide DcTable, AcTable, EncodeBlock, DecodeBlock, BlockCodable, BaselineBlock, Category, CodedAs, Single;
    Needs512();
    InsertedRoundTrip(luma, b, pos, Single(16, 512), 0, table);
  }

  lemma SizeOf512()
    ensures Category(512) == 10 && Category(0) == 0
  {
    Powers();
    PowerCategory(10);
  }
}
