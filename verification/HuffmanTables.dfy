/** Canonical Huffman tables: the lookup arrays built from a DHT segment, the codes that
    Annex C of ITU-T T.81 assigns, and when a table can be decoded without ambiguity. */
module HuffmanTables {
  import opened Words

  type CodeLength = x: int | 1 <= x <= 16 witness 1

  /** One code word: its length, its value and the symbol it stands for. */
  datatype Entry = Entry(len: CodeLength, code: nat, symbol: byte) {
    predicate Ok() {
      code < Pow2(len)
    }

    /** The code left-justified in a word. */
    function Bits(): (r: nat) {
      Up(code, 32 - len)
    }

    /** Ones over the top `len` bits of a word. */
    function Mask(): (r: nat) {
      Up(Pow2(len) - 1, 32 - len)
    }

    /** The test made for each entry against the bit window. */
    predicate Matches(w: nat) {
      And(w, Mask()) == Bits()
    }
  }

  const MAX_ENTRIES := 162

  // ---------------------------------------------------------------- Annex C

  /** HUFFSIZE (Figure C.1): `counts[l - 1]` codes of each length `l`, shortest first. */
  function Sizes(counts: seq<byte>, l: nat): (s: seq<nat>)
    requires l <= |counts|
    ensures forall k :: 0 <= k < |s| ==> 1 <= s[k] <= l
    ensures forall j, k :: 0 <= j <= k < |s| ==> s[j] <= s[k]
  {
    if l == 0 then [] else Sizes(counts, l - 1) + seq(counts[l - 1], _ => l)
  }

  function AllSizes(counts: seq<byte>): (s: seq<nat>)
    requires |counts| == 16
  {
    Sizes(counts, |counts|)
  }

  /** HUFFCODE (Figure C.2): count up, and shift left when the length grows. */
  function Code(sizes: seq<nat>, k: nat): (c: nat)
    requires k < |sizes|
    requires forall i, j :: 0 <= i <= j < |sizes| ==> sizes[i] <= sizes[j]
  {
    if k == 0 then 0 else Up(Code(sizes, k - 1) + 1, sizes[k] - sizes[k - 1])
  }

  ghost predicate IsSizes(sizes: seq<nat>) {
    && (forall k :: 0 <= k < |sizes| ==> 1 <= sizes[k] <= 16)
    && (forall i, j :: 0 <= i <= j < |sizes| ==> sizes[i] <= sizes[j])
  }

  /** The share of the code space used by the first `k` codes, in units of 2^-16. */
  function Kraft(sizes: seq<nat>, k: nat): (r: nat)
    requires k <= |sizes|
    requires forall j :: 0 <= j < |sizes| ==> sizes[j] <= 16
  {
    if k == 0 then 0 else Kraft(sizes, k - 1) + Pow2(16 - sizes[k - 1])
  }

  /** The Kraft inequality. */
  ghost predicate KraftHolds(sizes: seq<nat>)
    requires IsSizes(sizes)
  {
    Kraft(sizes, |sizes|) <= Pow2(16)
  }

  ghost predicate CodesFit(sizes: seq<nat>)
    requires IsSizes(sizes)
  {
    forall k :: 0 <= k < |sizes| ==> Code(sizes, k) < Pow2(sizes[k])
  }

  /** A left-justified code is the share of the code space in front of it. */
  lemma {:induction false} CodeIsKraft(sizes: seq<nat>, k: nat)
    requires IsSizes(sizes) && k < |sizes|
    ensures Up(Code(sizes, k), 16 - sizes[k]) == Kraft(sizes, k)
    ensures Up(Code(sizes, k) + 1, 16 - sizes[k]) == Kraft(sizes, k + 1)
  {
    hide Up;
    if k == 0 {
      UpZero(16 - sizes[0]);
    } else {
      CodeIsKraft(sizes, k - 1);
      UpUp(Code(sizes, k - 1) + 1, sizes[k] - sizes[k - 1], 16 - sizes[k]);
    }
    UpAdd(Code(sizes, k), 1, 16 - sizes[k]);
  }

  lemma {:induction false} KraftMono(sizes: seq<nat>, j: nat, k: nat)
    requires IsSizes(sizes) && j <= k <= |sizes|
    ensures Kraft(sizes, j) <= Kraft(sizes, k)
  {
    if j < k {
      KraftMono(sizes, j, k - 1);
    }
  }

  lemma ScaledFits(c: nat, s: nat, n: nat)
    requires s <= n
    ensures c < Pow2(s) <==> Up(c + 1, n - s) <= Pow2(n)
  {
    UpUp(1, s, n - s);
    if c < Pow2(s) {
      UpMono(c + 1, Pow2(s), n - s);
    } else {
      UpMono(Pow2(s), c + 1, n - s);
    }
  }

  lemma CodeFits(sizes: seq<nat>, k: nat, c: nat, used: nat)
    requires IsSizes(sizes) && k < |sizes|
    requires c == Code(sizes, k) && used == Kraft(sizes, k + 1)
    ensures c < Pow2(sizes[k]) <==> used <= Pow2(16)
  {
    CodeIsKraft(sizes, k);
    ScaledFits(c, sizes[k], 16);
  }

  /** Every code fits its length exactly when the Kraft inequality holds. */
  lemma CodesFitIffKraft(sizes: seq<nat>)
    requires IsSizes(sizes)
    ensures CodesFit(sizes) <==> KraftHolds(sizes)
  {
    if KraftHolds(sizes) {
      forall k | 0 <= k < |sizes|
        ensures Code(sizes, k) < Pow2(sizes[k])
      {
        KraftMono(sizes, k + 1, |sizes|);
        CodeFits(sizes, k, Code(sizes, k), Kraft(sizes, k + 1));
      }
    } else if |sizes| > 0 {
      CodeFits(sizes, |sizes| - 1, Code(sizes, |sizes| - 1), Kraft(sizes, |sizes|));
    }
  }

  // ---------------------------------------------------------------- matching

  lemma MatchesIffTop(e: Entry, w: word)
    requires e.Ok()
    ensures e.Matches(w) <==> Down(w, 32 - e.len) == e.code
  {
    hide Up, Down, Low, And;
    var k := 32 - e.len;
    AndHighMask(w, Pow2(e.len) - 1, k);
    AndLowMask(Down(w, k), e.len);
    Pow2Values();
    SplitAt(w, k);
    if Down(w, k) >= Pow2(e.len) {
      UpMono(Pow2(e.len), Down(w, k), k);
      UpUp(1, e.len, k);
    }
    LowSmall(Down(w, k), e.len);
    if Up(Down(w, k), k) == Up(e.code, k) {
      UpZero(k);
      SplitUnique(Down(w, k), 0, k);
      SplitUnique(e.code, 0, k);
    }
  }

  /** What the build loop stores for code `k`: the code is cut to its length by the shift. */
  ghost function EntryOf(sizes: seq<nat>, symbols: seq<byte>, k: nat): (e: Entry)
    requires k < |sizes| <= |symbols| && IsSizes(sizes)
  {
    Entry(sizes[k], Low(Code(sizes, k), sizes[k]), symbols[k])
  }

  /** The table for a DHT segment's length counts and symbols. */
  ghost function Canonical(counts: seq<byte>, symbols: seq<byte>): (t: seq<Entry>)
    requires |counts| == 16 && |AllSizes(counts)| <= |symbols|
    ensures |t| == |AllSizes(counts)|
    ensures forall k :: 0 <= k < |t| ==> t[k].Ok()
  {
    var sizes := AllSizes(counts);
    seq(|sizes|, k requires 0 <= k < |sizes| => EntryOf(sizes, symbols, k))
  }

  /** Row `k` has the `k`-th length and the `k`-th symbol. */
  lemma CanonicalRows(counts: seq<byte>, symbols: seq<byte>)
    requires |counts| == 16 && |AllSizes(counts)| <= |symbols|
    ensures forall k :: 0 <= k < |AllSizes(counts)| ==>
              && Canonical(counts, symbols)[k].symbol == symbols[k]
              && Canonical(counts, symbols)[k].len == AllSizes(counts)[k]
  {
  }

  ghost predicate Unambiguous(t: seq<Entry>)
  {
    forall w: word, j, k :: 0 <= j < |t| && 0 <= k < |t| && t[j].Matches(w) && t[k].Matches(w) ==> j == k
  }

  lemma TopRange(w: word, c: nat, s: nat)
    requires 1 <= s <= 16 && Down(w, 32 - s) == c
    ensures Up(c, 16 - s) <= Down(w, 16) < Up(c + 1, 16 - s)
  {
    hide Up, Down, Low;
    DownDown(w, 16, 16 - s);
    assert 16 + (16 - s) == 32 - s;
    SplitAt(Down(w, 16), 16 - s);
    UpAdd(c, 1, 16 - s);
  }

  /** No window matches two entries, because code `k` owns the values from `Kraft(k)` up to
      `Kraft(k + 1)` of a window's top 16 bits. */
  lemma WindowRange(sizes: seq<nat>, symbols: seq<byte>, k: nat, w: word)
    requires IsSizes(sizes) && KraftHolds(sizes) && k < |sizes| <= |symbols|
    requires EntryOf(sizes, symbols, k).Matches(w)
    ensures Kraft(sizes, k) <= Down(w, 16) < Kraft(sizes, k + 1)
  {
    hide Up, Down, Low, And, Code, Kraft;
    CodesFitIffKraft(sizes);
    LowSmall(Code(sizes, k), sizes[k]);
    MatchesIffTop(EntryOf(sizes, symbols, k), w);
    CodeIsKraft(sizes, k);
    TopRange(w, Code(sizes, k), sizes[k]);
  }

  /** A window of zeros matches the first entry. */
  lemma ZeroMatches(e: Entry)
    requires e.Ok() && e.code == 0
    ensures e.Matches(0)
  {
    MatchesIffTop(e, 0);
    UpZero(32 - e.len);
    SplitUnique(0, 0, 32 - e.len);
  }

  /** The first code that does not fit is exactly one past its length, so it is cut to zero. */
  lemma {:induction false} OverflowWrapsToZero(sizes: seq<nat>, n: nat) returns (k: nat)
    requires IsSizes(sizes) && n <= |sizes| && Kraft(sizes, n) > Pow2(16)
    ensures 0 < k < n && Low(Code(sizes, k), sizes[k]) == 0
  {
    hide Up, Low;
    if Kraft(sizes, n - 1) > Pow2(16) {
      k := OverflowWrapsToZero(sizes, n - 1);
    } else {
      k := n - 1;
      FirstOverflow(Code(sizes, k), sizes[k], Kraft(sizes, k), Kraft(sizes, n)) by {
        CodeIsKraft(sizes, k);
      }
    }
  }

  lemma FirstOverflow(c: nat, s: nat, before: nat, after: nat)
    requires s <= 16 && Up(c, 16 - s) == before <= Pow2(16) && Up(c + 1, 16 - s) == after > Pow2(16)
    ensures Low(c, s) == 0
    ensures before > 0
  {
    hide Up, Low;
    ScaledFits(c, s, 16);
    UpUp(1, s, 16 - s);
    if c > Pow2(s) {
      UpMono(Pow2(s), c, 16 - s);
    }
    SplitUnique(1, 0, s);
  }

  lemma OneMatch(sizes: seq<nat>, symbols: seq<byte>, w: word, j: nat, k: nat)
    requires IsSizes(sizes) && KraftHolds(sizes) && j < k < |sizes| <= |symbols|
    ensures !EntryOf(sizes, symbols, j).Matches(w) || !EntryOf(sizes, symbols, k).Matches(w)
  {
    hide EntryOf, Kraft;
    if EntryOf(sizes, symbols, j).Matches(w) && EntryOf(sizes, symbols, k).Matches(w) {
      WindowRange(sizes, symbols, j, w);
      WindowRange(sizes, symbols, k, w);
      KraftMono(sizes, j + 1, k);
    }
  }

  /** Any 32-bit window matches at most one entry exactly when the Kraft inequality holds. */
  lemma UnambiguousIffKraft(counts: seq<byte>, symbols: seq<byte>)
    requires |counts| == 16 && |AllSizes(counts)| <= |symbols|
    ensures Unambiguous(Canonical(counts, symbols)) <==> KraftHolds(AllSizes(counts))
  {
    var sizes := AllSizes(counts);
    var t := Canonical(counts, symbols);
    if KraftHolds(sizes) {
      forall w: word, j, k | 0 <= j < |t| && 0 <= k < |t| && t[j].Matches(w) && t[k].Matches(w)
        ensures j == k
      {
        if j < k {
          OneMatch(sizes, symbols, w, j, k);
        } else if k < j {
          OneMatch(sizes, symbols, w, k, j);
        }
      }
    } else {
      var k := OverflowWrapsToZero(sizes, |sizes|);
      LowSmall(0, sizes[0]);
      ZeroMatches(t[0]);
      ZeroMatches(t[k]);
    }
  }

  /** Left-justified codes strictly increase along the table. */
  lemma LeftJustifiedIncrease(counts: seq<byte>, symbols: seq<byte>, j: nat, k: nat)
    requires |counts| == 16 && |AllSizes(counts)| <= |symbols|
    requires KraftHolds(AllSizes(counts)) && j < k < |AllSizes(counts)|
    ensures Canonical(counts, symbols)[j].Bits() < Canonical(counts, symbols)[k].Bits()
  {
    hide Up;
    var sizes := AllSizes(counts);
    JustifiedBits(sizes, symbols, j);
    JustifiedBits(sizes, symbols, k);
    KraftMono(sizes, j + 1, k);
    assert Pow2(16 - sizes[j]) >= 1;
    UpMono(Kraft(sizes, j), Kraft(sizes, k), 16);
    assert Pow2(16) >= 1;
  }

  lemma JustifiedBits(sizes: seq<nat>, symbols: seq<byte>, k: nat)
    requires IsSizes(sizes) && KraftHolds(sizes) && k < |sizes| <= |symbols|
    ensures EntryOf(sizes, symbols, k).Bits() == Up(Kraft(sizes, k), 16)
  {
    var c, s := Code(sizes, k), sizes[k];
    assert c < Pow2(s) by { CodesFitIffKraft(sizes); }
    assert Low(c, s) == c by { LowSmall(c, s); }
    assert Up(c, 16 - s) == Kraft(sizes, k) by { CodeIsKraft(sizes, k); }
    assert Up(Up(c, 16 - s), 16) == Up(c, 32 - s) by { UpUp(c, 16 - s, 16); }
  }

  // ---------------------------------------------------------------- the lookup arrays

  lemma StoredWords(c: nat, len: nat)
    requires 1 <= len <= 16
    ensures Shl32(c, 32 - len) == Up(Low(c, len), 32 - len)
    ensures Shl32(Pow2(len) - 1, 32 - len) == Up(Pow2(len) - 1, 32 - len)
  {
    hide Up, Low;
    LowUp(c, len, 32 - len);
    LowUp(Pow2(len) - 1, len, 32 - len);
    LowSmall(Pow2(len) - 1, len);
  }

  lemma {:induction false} SizesPrefix(counts: seq<byte>, l: nat, m: nat)
    requires l <= m <= |counts|
    ensures Sizes(counts, l) <= Sizes(counts, m)
  {
    if l < m {
      SizesPrefix(counts, l, m - 1);
    }
  }

  /** Position `i` of the codes of length `l` in the size list. */
  lemma SizeAt(counts: seq<byte>, l: nat, i: nat)
    requires |counts| == 16 && 1 <= l <= 16 && i < counts[l - 1]
    ensures |Sizes(counts, l - 1)| + i < |Sizes(counts, l)| <= |AllSizes(counts)|
    ensures AllSizes(counts)[|Sizes(counts, l - 1)| + i] == l
  {
    SizesPrefix(counts, l, |counts|);
    assert Sizes(counts, l)[|Sizes(counts, l - 1)| + i] == l;
  }

  /** The code the build loop holds in `code_val` when it is at index `k` and length `l`. */
  ghost function NextCode(sizes: seq<nat>, k: nat, l: nat): (c: nat)
    requires IsSizes(sizes) && k <= |sizes|
    requires k > 0 ==> sizes[k - 1] <= l
  {
    if k == 0 then 0 else Up(Code(sizes, k - 1) + 1, l - sizes[k - 1])
  }

  lemma NextCodeStep(sizes: seq<nat>, k: nat, l: nat)
    requires IsSizes(sizes) && k < |sizes| && sizes[k] == l
    ensures NextCode(sizes, k, l) == Code(sizes, k)
    ensures NextCode(sizes, k + 1, l) == Code(sizes, k) + 1
  {
  }

  lemma LongerCodes(sizes: seq<nat>, k: nat, l: nat)
    requires IsSizes(sizes) && k <= |sizes| && (k > 0 ==> sizes[k - 1] <= l)
    ensures NextCode(sizes, k, l + 1) == Up(NextCode(sizes, k, l), 1)
  {
    if k > 0 {
      UpUp(Code(sizes, k - 1) + 1, l - sizes[k - 1], 1);
    }
  }

  /** The build loop's variables after all codes up to length `done`, when it is at length `l`. */
  ghost predicate Reached(counts: seq<byte>, done: nat, l: nat, ind: nat, val: nat)
    requires |counts| == 16 && done <= 16
  {
    var sizes := AllSizes(counts);
    && ind == |Sizes(counts, done)| <= |sizes|
    && (ind > 0 ==> sizes[ind - 1] <= l)
    && val == NextCode(sizes, ind, l)
  }

  class HuffmanTable {
    const bitlen: array<byte>
    const bits: array<word>
    const mask: array<word>
    const code: array<byte>
    var size: byte

    /** The code words that the arrays hold. */
    ghost var entries: seq<Entry>

    ghost predicate Valid()
      reads this, bitlen, bits, mask, code
    {
      && Allocated()
      && size == |entries| <= MAX_ENTRIES
      && forall k :: 0 <= k < size ==> entries[k].Ok() && Row(k, entries[k])
    }

    ghost predicate Allocated() {
      && bitlen.Length == bits.Length == mask.Length == code.Length == MAX_ENTRIES
      && bitlen != code && bits != mask
    }

    /** Row `k` of the arrays holds code word `e`. */
    ghost predicate Row(k: nat, e: Entry)
      requires Allocated() && k < MAX_ENTRIES
      reads bitlen, bits, mask, code
    {
      && bitlen[k] == e.len && code[k] == e.symbol
      && bits[k] == e.Bits() && mask[k] == e.Mask()
    }

    constructor ()
      ensures Valid() && entries == []
      ensures fresh(bitlen) && fresh(bits) && fresh(mask) && fresh(code)
    {
      bitlen := new byte[MAX_ENTRIES];
      bits := new word[MAX_ENTRIES];
      mask := new word[MAX_ENTRIES];
      code := new byte[MAX_ENTRIES];
      size := 0;
      entries := [];
    }

    /** One pass of the inner loop: the four stores of row `k`. */
    method StoreRow(k: nat, iLen: CodeLength, codeVal: nat, symbol: byte)
      requires Allocated() && k < MAX_ENTRIES
      modifies bitlen, bits, mask, code
      ensures Row(k, Entry(iLen, Low(codeVal, iLen), symbol))
      ensures forall j, e :: 0 <= j < k && old(Row(j, e)) ==> Row(j, e)
    {
      code[k] := symbol;
      StoredWords(codeVal, iLen);
      bits[k] := Shl32(codeVal, 32 - iLen);
      mask[k] := Shl32(Pow2(iLen) - 1, 32 - iLen);
      bitlen[k] := iLen;
    }

    /** The inner loop: the rows for the codes of length `iLen`. */
    method BuildLength(counts: seq<byte>, symbols: seq<byte>, iLen: CodeLength, ind: nat, val: nat)
      returns (tableInd: nat, codeVal: nat)
      requires Allocated() && |counts| == 16
      requires |AllSizes(counts)| <= MAX_ENTRIES && |AllSizes(counts)| <= |symbols|
      requires Reached(counts, iLen - 1, iLen, ind, val)
      requires forall k :: 0 <= k < ind ==> Row(k, Canonical(counts, symbols)[k])
      modifies bitlen, bits, mask, code
      ensures Reached(counts, iLen, iLen, tableInd, codeVal)
      ensures forall k :: 0 <= k < tableInd ==> Row(k, Canonical(counts, symbols)[k])
    {
      hide Code, Low;
      ghost var sizes := AllSizes(counts);
      tableInd, codeVal := ind, val;
      for indCode := 0 to counts[iLen - 1]
        invariant tableInd == ind + indCode <= |sizes|
        invariant tableInd > 0 ==> sizes[tableInd - 1] <= iLen
        invariant codeVal == NextCode(sizes, tableInd, iLen)
        invariant forall k :: 0 <= k < tableInd ==> Row(k, Canonical(counts, symbols)[k])
      {
        SizeAt(counts, iLen, indCode);
        NextCodeStep(sizes, tableInd, iLen);
        StoreRow(tableInd, iLen, codeVal, symbols[tableInd]);
        tableInd := tableInd + 1;
        codeVal := codeVal + 1;
      }
    }

    /** The build loop: `counts` are the 16 length bytes of the segment, `symbols` what follows. */
    method Build(counts: seq<byte>, symbols: seq<byte>)
      requires Allocated()
      requires |counts| == 16 && |AllSizes(counts)| <= MAX_ENTRIES
      requires |AllSizes(counts)| <= |symbols|
      modifies this, bitlen, bits, mask, code
      ensures Valid() && entries == Canonical(counts, symbols)
      ensures |entries| == |AllSizes(counts)|
      ensures forall k :: 0 <= k < |entries| ==>
                entries[k].symbol == symbols[k] && entries[k].len == AllSizes(counts)[k]
    {
      hide Canonical;
      var tableInd := 0;
      var codeVal := 0;
      for iLen := 1 to 17
        invariant Reached(counts, iLen - 1, iLen, tableInd, codeVal)
        invariant forall k :: 0 <= k < tableInd ==> Row(k, Canonical(counts, symbols)[k])
      {
        tableInd, codeVal := BuildLength(counts, symbols, iLen, tableInd, codeVal);
        LongerCodes(AllSizes(counts), tableInd, iLen);
        codeVal := Up(codeVal, 1);
      }
      size := tableInd;
      entries := Canonical(counts, symbols);
      CanonicalRows(counts, symbols);
    }
  }
}
