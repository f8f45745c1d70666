/** Which baseline blocks the autofocus decoder accepts: all but those that need the last code of a
    table, and with the 162 symbols of baseline coding every table has such a code. */
module BaselineCoding {
  import opened Words
  import opened BitStreams
  import opened Sequences
  import opened HuffmanTables
  import opened EntropyDecoder
  import opened EntropyEncoder

  /** The run/size symbols of baseline coding (Table F.1 of ITU-T T.81). */
  predicate BaselineSymbol(s: int) {
    s == EOB || s == ZRL || (0 <= s < 256 && 1 <= s % 16 <= 10)
  }

  /** Sizes up to 11 for the DC difference and up to 10 for the AC coefficients. */
  ghost predicate BaselineBlock(zz: Coefficients, pred: int) {
    Category(zz[0] - pred) <= 11 && forall i :: 0 < i < 64 ==> Category(zz[i]) <= 10
  }

  /** Tables with a code for every symbol of baseline coding. */
  ghost predicate BaselineTables(dc: seq<Entry>, ac: seq<Entry>) {
    && Decodable(dc) && Decodable(ac)
    && (forall s :: 0 <= s <= 11 ==> Coded(dc, s))
    && (forall s :: BaselineSymbol(s) ==> Coded(ac, s))
  }

  lemma CategoryPositive(v: int)
    requires v != 0
    ensures Category(v) >= 1
  {
  }

  lemma {:induction false} SymbolsAreBaseline(zz: Coefficients, k: nat, r: nat)
    requires 0 < k <= 64 && forall i :: 0 < i < 64 ==> Category(zz[i]) <= 10
    ensures forall s :: s in AcSymbols(zz, k, r) ==> BaselineSymbol(s)
    decreases 64 - k, r
  {
    hide Category;
    if k < 64 {
      if zz[k] == 0 {
        SymbolsAreBaseline(zz, k + 1, r + 1);
      } else if r >= 16 {
        SymbolsAreBaseline(zz, k, r - 16);
      } else {
        SymbolsAreBaseline(zz, k + 1, 0);
        CategoryPositive(zz[k]);
        var sym := 16 * r + Category(zz[k]);
        assert sym % 16 == Category(zz[k]) && BaselineSymbol(sym);
      }
    }
  }

  /** With baseline tables every baseline block can be coded, and it is decoded if and only if it
      does not need the last code of a table. */
  lemma BaselineRoundTrip(
    dc: seq<Entry>, ac: seq<Entry>, b: Stream, pos: nat, zz: Coefficients, pred: int, table: Table)
    requires BaselineTables(dc, ac) && BaselineBlock(zz, pred)
    ensures BlockCodable(dc, ac, zz, pred)
    ensures At(b, pos, EncodeBlock(dc, ac, zz, pred)) ==>
              var r := DecodeBlock(dc, ac, b, pos, pred, table);
              && (r.ok <==> BlockAvoidsLast(dc, ac, zz, pred))
              && (r.ok ==> r.table[..64] == zz && r.lastDC == zz[0]
                           && r.next == pos + |EncodeBlock(dc, ac, zz, pred)|)
  {
    hide Decodable, Coded, CodedLast, Category, AcSymbols, BaselineSymbol, EncodeBlock, DecodeBlock;
    SymbolsAreBaseline(zz, 1, 0);
    if At(b, pos, EncodeBlock(dc, ac, zz, pred)) {
      BlockRoundTrip(dc, ac, b, pos, zz, pred, table);
    }
  }

  // ---------------------------------------------------------------- which symbols a block needs

  /** How many zeros stand right in front of coefficient `k`, not counting the DC one. */
  function ZerosBefore(zz: Coefficients, k: nat): (n: nat)
    requires 0 < k <= 64
  {
    if k == 1 || zz[k - 1] != 0 then 0 else 1 + ZerosBefore(zz, k - 1)
  }

  /** Coefficient `i` is coded with the symbol for run `run` and size `size`. */
  predicate CodedAs(zz: Coefficients, i: nat, run: nat, size: nat)
    requires 0 < i < 64
  {
    zz[i] != 0 && Category(zz[i]) == size && ZerosBefore(zz, i) % 16 == run
  }

  lemma {:induction false} NeededFrom(zz: Coefficients, k: nat, r: nat, run: nat, size: nat)
    requires 0 < k <= 64 && r % 16 == ZerosBefore(zz, k) % 16 && run < 16 && 1 <= size <= 15
    requires forall i :: 0 < i < 64 ==> Category(zz[i]) <= 15
    ensures 16 * run + size in AcSymbols(zz, k, r) <==> exists i :: k <= i < 64 && CodedAs(zz, i, run, size)
    decreases 64 - k, r
  {
    hide Category;
    if k < 64 {
      if zz[k] == 0 {
        NextRun(zz, k, r);
        NeededFrom(zz, k + 1, r + 1, run, size);
      } else if r >= 16 {
        NeededFrom(zz, k, r - 16, run, size);
      } else {
        NeededFrom(zz, k + 1, 0, run, size);
        SameSymbol(r, Category(zz[k]), run, size);
        assert CodedAs(zz, k, run, size) <==> 16 * run + size == 16 * r + Category(zz[k]);
        assert AcSymbols(zz, k, r) == [16 * r + Category(zz[k])] + AcSymbols(zz, k + 1, 0);
      }
    }
  }

  lemma NextRun(zz: Coefficients, k: nat, r: nat)
    requires 0 < k < 64 && zz[k] == 0 && r % 16 == ZerosBefore(zz, k) % 16
    ensures (r + 1) % 16 == ZerosBefore(zz, k + 1) % 16
  {
  }

  lemma SameSymbol(r: nat, s: nat, run: nat, size: nat)
    requires r < 16 && run < 16 && s <= 15 && size <= 15
    ensures 16 * r + s == 16 * run + size <==> r == run && s == size
  {
  }

  /** A block needs the symbol for a run and a size if and only if some coefficient of that size has
      that many zeros in front of it, modulo 16. */
  lemma SymbolNeededIff(zz: Coefficients, run: nat, size: nat)
    requires run < 16 && 1 <= size <= 15 && forall i :: 0 < i < 64 ==> Category(zz[i]) <= 15
    ensures 16 * run + size in AcSymbols(zz, 1, 0) <==> exists i :: 0 < i < 64 && CodedAs(zz, i, run, size)
  {
    NeededFrom(zz, 1, 0, run, size);
  }

  // ---------------------------------------------------------------- one symbol is always lost

  /** The baseline symbols with a run below `n`. */
  ghost function SymbolsBelow(n: nat): (r: set<int>) {
    set s | 0 <= s < 16 * n && BaselineSymbol(s)
  }

  ghost function RowOf(n: nat): (r: set<int>) {
    {16 * n + 1, 16 * n + 2, 16 * n + 3, 16 * n + 4, 16 * n + 5,
     16 * n + 6, 16 * n + 7, 16 * n + 8, 16 * n + 9, 16 * n + 10}
  }

  lemma RowCount(n: nat)
    ensures |RowOf(n)| == 10
  {
    var a := {16 * n + 1, 16 * n + 2, 16 * n + 3, 16 * n + 4, 16 * n + 5};
    var b := {16 * n + 6, 16 * n + 7, 16 * n + 8, 16 * n + 9, 16 * n + 10};
    assert RowOf(n) == a + b && a !! b;
  }

  lemma RowMembers(n: nat, s: int)
    requires 16 * n <= s < 16 * n + 16
    ensures s in RowOf(n) <==> 1 <= s % 16 <= 10
  {
    assert s % 16 == s - 16 * n;
  }

  /** EOB and ZRL, in their rows. */
  ghost function ExtraOf(n: nat): (r: set<int>) {
    if n == 0 then {EOB} else if n == 15 then {ZRL} else {}
  }

  lemma NextMember(n: nat, s: int)
    requires n <= 15
    ensures s in SymbolsBelow(n + 1) <==> s in SymbolsBelow(n) || s in RowOf(n) || s in ExtraOf(n)
    ensures s in RowOf(n) || s in ExtraOf(n) ==> s >= 16 * n
    ensures s in RowOf(n) ==> s !in ExtraOf(n)
  {
    if 16 * n <= s < 16 * n + 16 {
      RowMembers(n, s);
    }
  }

  lemma {:induction false} SymbolCount(n: nat)
    requires n <= 16
    ensures |SymbolsBelow(n)| == 10 * n + (if n > 0 then 1 else 0) + (if n == 16 then 1 else 0)
  {
    hide RowOf, BaselineSymbol;
    if n == 0 {
      assert SymbolsBelow(n) == {};
    } else {
      SymbolCount(n - 1);
      RowCount(n - 1);
      var before, row, extra := SymbolsBelow(n - 1), RowOf(n - 1), ExtraOf(n - 1);
      forall s
        ensures s in SymbolsBelow(n) <==> s in before + row + extra
        ensures !(s in before && s in row) && !(s in before + row && s in extra)
      {
        NextMember(n - 1, s);
      }
      assert SymbolsBelow(n) == before + row + extra;
      assert before !! row && before + row !! extra;
    }
  }

  lemma {:induction false} IndexOfBelow(t: seq<Entry>, sym: int, n: nat)
    requires n <= |t| && IndexOf(t, sym) < n
    ensures sym in seq(n, i requires 0 <= i < |t| => t[i].symbol as int)
  {
    var s := seq(n, i requires 0 <= i < |t| => t[i].symbol as int);
    assert s[IndexOf(t, sym)] == sym;
  }

  /** A table of at most 162 entries, which is all that the lookup arrays hold, has exactly that many
      and a baseline symbol at the last of them. */
  lemma OneSymbolIsLost(ac: seq<Entry>) returns (lost: int)
    requires |ac| <= MAX_ENTRIES && forall s :: BaselineSymbol(s) ==> Coded(ac, s)
    ensures |ac| == MAX_ENTRIES && BaselineSymbol(lost) && CodedLast(ac, lost)
  {
    hide IndexOf, BaselineSymbol;
    SymbolCount(16);
    var all := SymbolsBelow(16);
    var n := if |ac| > 0 then |ac| - 1 else 0;
    var front := seq(n, i requires 0 <= i < |ac| => ac[i].symbol as int);
    if s :| s in all && s !in front {
      assert Coded(ac, s);
      if IndexOf(ac, s) < n {
        IndexOfBelow(ac, s, n);
      }
      lost := s;
      var whole := seq(|ac|, i requires 0 <= i < |ac| => ac[i].symbol as int);
      forall x | x in all
        ensures x in whole
      {
        assert Coded(ac, x);
        IndexOfBelow(ac, x, |ac|);
      }
      SetOfSeq(whole, all);
    } else {
      SetOfSeq(front, all);
      assert false;
    }
  }

  lemma BitLengthOf(a: nat, s: nat)
    requires s > 0 && Pow2(s - 1) <= a < Pow2(s)
    ensures BitLength(a) == s
  {
    var l := BitLength(a);
    if l < s {
      Pow2Mono(l, s - 1);
    } else if s < l {
      Pow2Mono(s, l - 1);
    }
  }

  lemma {:induction false} ZeroRun(zz: Coefficients, k: nat, r: nat, m: nat)
    requires k + m <= 64 && forall i :: k <= i < k + m ==> zz[i] == 0
    ensures AcSymbols(zz, k, r) == AcSymbols(zz, k + m, r + m)
    decreases m
  {
    if m > 0 {
      ZeroRun(zz, k + 1, r + 1, m - 1);
    }
  }

  /** A block of zeros with the value `v` at index `at`. */
  function Single(at: nat, v: int): (zz: Coefficients)
    requires 0 < at < 64
  {
    seq(64, i => if i == at then v else 0)
  }

  lemma ZeroCategory()
    ensures Category(0) == 0
  {
  }

  /** Every baseline symbol is needed by some baseline block. */
  lemma BlockNeeding(sym: int) returns (zz: Coefficients)
    requires BaselineSymbol(sym)
    ensures BaselineBlock(zz, 0) && sym in AcSymbols(zz, 1, 0)
  {
    ZeroCategory();
    hide Category;
    if sym == EOB {
      zz := Single(1, 0);
      ZeroRun(zz, 1, 0, 63);
    } else if sym == ZRL {
      zz := Single(17, 1);
      assert Category(1) == 1 by { PowerCategory(1); }
      ZeroRun(zz, 1, 0, 16);
      assert AcSymbols(zz, 17, 16) == [ZRL] + AcSymbols(zz, 17, 0);
    } else {
      var r, s := sym / 16, sym % 16;
      PowerCategory(s);
      zz := Single(r + 1, Pow2(s - 1));
      ZeroRun(zz, 1, 0, r);
      assert AcSymbols(zz, r + 1, r) == [16 * r + Category(zz[r + 1])] + AcSymbols(zz, r + 2, 0);
    }
  }

  lemma PowerCategory(s: nat)
    requires s > 0
    ensures Pow2(s - 1) > 0 && Category(Pow2(s - 1)) == s
  {
    Pow2Mono(0, s - 1);
    BitLengthOf(Pow2(s - 1), s);
  }

  /** Whatever baseline tables a picture has, the decoder refuses one of the blocks they code. */
  lemma SomeBlockRefused(dc: seq<Entry>, ac: seq<Entry>) returns (zz: Coefficients)
    requires BaselineTables(dc, ac) && |ac| <= MAX_ENTRIES
    ensures BaselineBlock(zz, 0) && BlockCodable(dc, ac, zz, 0)
    ensures forall b: Stream, pos: nat, table: Table ::
              At(b, pos, EncodeBlock(dc, ac, zz, 0)) ==> !DecodeBlock(dc, ac, b, pos, 0, table).ok
  {
    hide Decodable, Coded, CodedLast, AcSymbols, BaselineSymbol, EncodeBlock, DecodeBlock, BaselineBlock;
    var lost := OneSymbolIsLost(ac);
    zz := BlockNeeding(lost);
    BaselineRoundTrip(dc, ac, _ => 0, 0, zz, 0, seq(128, _ => 0));
    forall b: Stream, pos: nat, table: Table | At(b, pos, EncodeBlock(dc, ac, zz, 0))
      ensures !DecodeBlock(dc, ac, b, pos, 0, table).ok
    {
      BaselineRoundTrip(dc, ac, b, pos, zz, 0, table);
    }
  }
}
