/** The encoder of ITU-T T.81 (sections F.1.2.1 to F.1.2.3), as a specification, and the proof
    that the decoder inverts it. */
module EntropyEncoder {
  import opened Words
  import opened Division
  import opened BitStreams
  import opened HuffmanTables
  import opened EntropyDecoder

  // ---------------------------------------------------------------- magnitudes

  function BitLength(a: nat): (s: nat)
    ensures a < Pow2(s) && (a > 0 ==> s > 0 && Pow2(s - 1) <= a)
  {
    if a == 0 then 0 else 1 + BitLength(a / 2)
  }

  /** SSSS of Tables F.1 and F.2: the number of bits of the magnitude. */
  function Category(v: int): (s: nat) {
    BitLength(if v >= 0 then v else -v)
  }

  /** The additional bits: `v` itself, or for a negative `v` the low bits of `v - 1`. */
  function Magnitude(v: int): (m: nat) {
    if v >= 0 then v else v + Pow2(Category(v)) - 1
  }

  /** EXTEND of section F.2.2.1 undoes the magnitude coding of Table F.1: the size is the number of bits
      of the absolute value, and the bits are those of `v` itself or, if it is negative, of `v - 1` in
      two's complement. */
  lemma ExtendInverts(v: int)
    ensures var a := if v < 0 then -v else v;
            a < Pow2(Category(v)) && (v != 0 ==> Category(v) > 0 && Pow2(Category(v) - 1) <= a)
    ensures Magnitude(v) == (if v < 0 then v - 1 else v) % Pow2(Category(v))
    ensures Extend(Magnitude(v), Category(v)) == v
  {
    Reduced(if v < 0 then v - 1 + Pow2(Category(v)) else v, if v < 0 then 1 else 0, Pow2(Category(v)));
    var s := Category(v);
    if v != 0 {
      assert Pow2(s) == 2 * Pow2(s - 1);
    }
  }

  lemma Reduced(m: nat, q: int, n: nat)
    requires m < n
    ensures (m - q * n) % n == m
  {
    DivMod(m - q * n, -q, n, m);
  }

  // ---------------------------------------------------------------- symbols

  /** Tables on which mask matching is decoding. */
  ghost predicate Decodable(t: seq<Entry>) {
    (forall k :: 0 <= k < |t| ==> t[k].Ok()) && Unambiguous(t)
  }

  function IndexOf(t: seq<Entry>, sym: int): (k: nat)
    ensures k <= |t|
    ensures k < |t| ==> t[k].symbol == sym
  {
    if t == [] || t[0].symbol == sym then 0 else 1 + IndexOf(t[1..], sym)
  }

  /** The symbol has a code. */
  predicate Coded(t: seq<Entry>, sym: int) {
    IndexOf(t, sym) < |t|
  }

  /** The symbol's code is the last one of the table. */
  predicate CodedLast(t: seq<Entry>, sym: int) {
    IndexOf(t, sym) + 1 == |t|
  }

  function EncodeSymbol(t: seq<Entry>, sym: int): (s: seq<bit>)
    requires Coded(t, sym)
  {
    var e := t[IndexOf(t, sym)];
    BitsOf(e.code, e.len)
  }

  ghost predicate CodeAt(t: seq<Entry>, k: nat, b: Stream, pos: nat)
    requires k < |t|
  {
    At(b, pos, BitsOf(t[k].code, t[k].len))
  }

  lemma SameCode(t: seq<Entry>, b: Stream, pos: nat, j: nat, k: nat)
    requires Decodable(t) && j < |t| && k < |t|
    requires Val(b, pos, t[j].len) == t[j].code && Val(b, pos, t[k].len) == t[k].code
    ensures j == k
  {
    WindowIsWord(b, pos, 16);
    var w: word := Window(b, pos, 16);
    MatchesIffTop(t[j], w);
    MatchesIffTop(t[k], w);
    WindowTop(b, pos, 16, t[j].len);
    WindowTop(b, pos, 16, t[k].len);
  }

  /** Wherever the code of an entry stands, `readXC` returns its symbol and moves past the code,
      unless the entry is the last one; without such a code it fails. */
  lemma SymbolDecoding(t: seq<Entry>, b: Stream, pos: nat)
    requires Decodable(t)
    ensures forall k :: 0 <= k < |t| - 1 && CodeAt(t, k, b, pos) ==>
              ReadSymbol(t, b, pos) == Symbol(t[k].symbol, pos + t[k].len)
    ensures (forall k :: 0 <= k < |t| - 1 ==> !CodeAt(t, k, b, pos)) ==> ReadSymbol(t, b, pos) == NoSymbol
    ensures |t| > 0 && CodeAt(t, |t| - 1, b, pos) ==> ReadSymbol(t, b, pos) == NoSymbol
  {
    var r := FirstMatch(t, b, pos, 0);
    if r < |t| {
      AtBitsOf(b, pos, t[r].code, t[r].len);
      assert CodeAt(t, r, b, pos);
    }
    forall k | 0 <= k < |t| && CodeAt(t, k, b, pos)
      ensures k == r
    {
      AtBitsOf(b, pos, t[k].code, t[k].len);
      SameCode(t, b, pos, r, k);
    }
  }

  /** Reading an encoded symbol gives it back, unless its code is the last one of the table. */
  lemma DecodesSymbol(t: seq<Entry>, sym: int, b: Stream, pos: nat, rest: seq<bit>)
    requires Decodable(t) && Coded(t, sym)
    requires At(b, pos, EncodeSymbol(t, sym) + rest)
    ensures 0 <= sym < 256
    ensures ReadSymbol(t, b, pos) ==
            if CodedLast(t, sym) then NoSymbol else Symbol(sym, pos + |EncodeSymbol(t, sym)|)
    ensures At(b, pos + |EncodeSymbol(t, sym)|, rest)
  {
    AtAppend(b, pos, EncodeSymbol(t, sym), rest);
    SymbolDecoding(t, b, pos);
    assert CodeAt(t, IndexOf(t, sym), b, pos);
  }

  /** A symbol that announces `Category(v)` additional bits, and those bits. */
  function EncodeValue(t: seq<Entry>, sym: int, v: int): (s: seq<bit>)
    requires Coded(t, sym)
  {
    EncodeSymbol(t, sym) + BitsOf(Magnitude(v), Category(v))
  }

  lemma DecodesValue(t: seq<Entry>, sym: int, v: int, b: Stream, pos: nat, rest: seq<bit>, p: nat)
    requires Decodable(t) && Coded(t, sym) && p == pos + |EncodeSymbol(t, sym)|
    requires At(b, pos, EncodeValue(t, sym, v) + rest)
    ensures 0 <= sym < 256
    ensures ReadSymbol(t, b, pos) == if CodedLast(t, sym) then NoSymbol else Symbol(sym, p)
    ensures Extend(Val(b, p, Category(v)), Category(v)) == v
    ensures At(b, p + Category(v), rest) && p + Category(v) == pos + |EncodeValue(t, sym, v)|
  {
    var m := BitsOf(Magnitude(v), Category(v));
    assert EncodeValue(t, sym, v) + rest == EncodeSymbol(t, sym) + (m + rest);
    DecodesSymbol(t, sym, b, pos, m + rest);
    AtAppend(b, p, m, rest);
    ExtendInverts(v);
    AtBitsOf(b, p, Magnitude(v), Category(v));
  }

  /** A coded difference `d` is added to the predictor. */
  lemma DcPrediction(dc: seq<Entry>, b: Stream, pos: nat, pred: int, d: int)
    requires Decodable(dc) && Coded(dc, Category(d)) && !CodedLast(dc, Category(d))
    requires At(b, pos, EncodeSymbol(dc, Category(d)) + BitsOf(Magnitude(d), Category(d)))
    ensures DecodeDc(dc, b, pos, pred) == Dc(pred + d, pos + |EncodeSymbol(dc, Category(d))| + Category(d))
  {
    hide ReadSymbol, EncodeSymbol, Coded, CodedLast, Unambiguous, Val, Extend, Category;
    var code := EncodeValue(dc, Category(d), d);
    assert code + [] == code;
    DecodesValue(dc, Category(d), d, b, pos, [], pos + |EncodeSymbol(dc, Category(d))|);
  }

  // ---------------------------------------------------------------- blocks

  type Coefficients = z: seq<int> | |z| == 64 witness seq(64, _ => 0)

  const EOB := 0x00
  const ZRL := 0xF0

  /** The run/size symbols for coefficients `k` on, behind a run of `r` zeros: section F.1.2.2
      (Figures F.2 and F.3), with ZRL for 16 zeros and EOB for zeros at the end. */
  function AcSymbols(zz: Coefficients, k: nat, r: nat): (s: seq<int>)
    requires k <= 64
    decreases 64 - k, r, |zz|
  {
    if k == 64 then if r > 0 then [EOB] else []
    else if zz[k] == 0 then AcSymbols(zz, k + 1, r + 1)
    else if r >= 16 then [ZRL] + AcSymbols(zz, k, r - 16)
    else [16 * r + Category(zz[k])] + AcSymbols(zz, k + 1, 0)
  }

  /** Sizes have four bits, and every symbol needed has a code. */
  ghost predicate AcCodable(ac: seq<Entry>, zz: Coefficients, k: nat, r: nat)
    requires k <= 64
  {
    && (forall i :: k <= i < 64 ==> Category(zz[i]) <= 15)
    && forall s :: s in AcSymbols(zz, k, r) ==> Coded(ac, s)
  }

  /** No symbol needed has the table's last code. */
  ghost predicate AcAvoidsLast(ac: seq<Entry>, zz: Coefficients, k: nat, r: nat)
    requires k <= 64
  {
    forall s :: s in AcSymbols(zz, k, r) ==> !CodedLast(ac, s)
  }

  /** The codes of those symbols, each with its additional bits. */
  ghost function EncodeAc(ac: seq<Entry>, zz: Coefficients, k: nat, r: nat): (s: seq<bit>)
    requires k <= 64 && AcCodable(ac, zz, k, r)
    decreases 64 - k, r, |ac|
  {
    if k == 64 then if r > 0 then EncodeSymbol(ac, EOB) else []
    else if zz[k] == 0 then EncodeAc(ac, zz, k + 1, r + 1)
    else if r >= 16 then EncodeSymbol(ac, ZRL) + EncodeAc(ac, zz, k, r - 16)
    else EncodeValue(ac, 16 * r + Category(zz[k]), zz[k]) + EncodeAc(ac, zz, k + 1, 0)
  }

  /** The table holds coefficients up to `j` and zeros behind. */
  ghost predicate Rebuilt(table: Table, zz: Coefficients, j: int)
    requires j <= 63
  {
    && (forall i :: 0 <= i <= j ==> table[i] == zz[i])
    && (forall i :: 0 <= i < 64 && j < i ==> table[i] == 0)
  }

  lemma PassesEob(ac: seq<Entry>, b: Stream, pos: nat, j: nat, table: Table)
    requires Decodable(ac) && Coded(ac, EOB) && j < 63 && At(b, pos, EncodeSymbol(ac, EOB))
    ensures AcPass(ac, b, pos, j, table) ==
            if CodedLast(ac, EOB) then NoCode else Pass(j, true, table, pos + |EncodeSymbol(ac, EOB)|)
  {
    hide ReadSymbol, EncodeSymbol, Coded, CodedLast, Unambiguous;
    assert EncodeSymbol(ac, EOB) + [] == EncodeSymbol(ac, EOB);
    DecodesSymbol(ac, EOB, b, pos, []);
  }

  lemma PassesZrl(ac: seq<Entry>, b: Stream, pos: nat, j: nat, table: Table, rest: seq<bit>)
    requires Decodable(ac) && Coded(ac, ZRL) && j < 63 && At(b, pos, EncodeSymbol(ac, ZRL) + rest)
    ensures AcPass(ac, b, pos, j, table) ==
            if CodedLast(ac, ZRL) then NoCode else Pass(j + 16, false, table, pos + |EncodeSymbol(ac, ZRL)|)
    ensures At(b, pos + |EncodeSymbol(ac, ZRL)|, rest)
  {
    hide ReadSymbol, EncodeSymbol, Coded, CodedLast, Unambiguous;
    DecodesSymbol(ac, ZRL, b, pos, rest);
  }

  lemma PassesValue(ac: seq<Entry>, b: Stream, pos: nat, j: nat, r: nat, v: int, table: Table, rest: seq<bit>)
    requires Decodable(ac) && v != 0 && Category(v) <= 15 && r <= 15 && j < 63
    requires Coded(ac, 16 * r + Category(v)) && At(b, pos, EncodeValue(ac, 16 * r + Category(v), v) + rest)
    ensures var q := pos + |EncodeValue(ac, 16 * r + Category(v), v)|;
            && AcPass(ac, b, pos, j, table) ==
               (if CodedLast(ac, 16 * r + Category(v)) then NoCode
                else Pass(j + r + 1, false, table[j + r + 1 := v], q))
            && At(b, q, rest)
  {
    hide ReadSymbol, EncodeSymbol, Coded, CodedLast, Unambiguous, Val, Extend;
    var s := Category(v);
    var sym := 16 * r + s;
    DecodesValue(ac, sym, v, b, pos, rest, pos + |EncodeSymbol(ac, sym)|);
    assert sym % 16 == s && sym / 16 == r && s > 0;
  }

  /** What the AC loop makes of the code of coefficients `k` on behind `r` zeros: the block, if and
      only if the code does not use the table's last entry. */
  ghost predicate AcRestored(res: Block, ac: seq<Entry>, pos: nat, zz: Coefficients, k: nat, r: nat)
    requires k <= 64 && AcCodable(ac, zz, k, r)
  {
    && (res.ok <==> AcAvoidsLast(ac, zz, k, r))
    && (res.ok ==> res.next == pos + |EncodeAc(ac, zz, k, r)| && Rebuilt(res.table, zz, 63))
  }

  /** The code of coefficients `k` on stands at `pos`; those up to `j` are rebuilt, and `r` zeros are
      pending. */
  ghost predicate AcReady(
    ac: seq<Entry>, b: Stream, pos: nat, zz: Coefficients, k: nat, r: nat, j: nat, table: Table)
  {
    && Decodable(ac) && k <= 64 && AcCodable(ac, zz, k, r) && j + 1 + r == k
    && At(b, pos, EncodeAc(ac, zz, k, r))
    && Rebuilt(table, zz, j) && forall i :: j < i < k ==> zz[i] == 0
  }

  lemma {:induction false} AcRoundTrip(
    ac: seq<Entry>, b: Stream, pos: nat, zz: Coefficients, k: nat, r: nat, j: nat, table: Table, dc: int)
    requires AcReady(ac, b, pos, zz, k, r, j, table)
    ensures AcRestored(AcLoop(ac, b, pos, j, table, dc), ac, pos, zz, k, r)
    decreases 64 - k, r
  {
    hide AcPass, EncodeSymbol, EncodeValue, Coded, CodedLast, Decodable, Category, AcSymbols, AcCodable, AcAvoidsLast;
    NeededSymbols(ac, zz, k, r);
    if k == 64 {
      if r > 0 {
        PassesEob(ac, b, pos, j, table);
      }
    } else if zz[k] == 0 {
      AcRoundTrip(ac, b, pos, zz, k + 1, r + 1, j, table, dc);
    } else if r >= 16 {
      PassesZrl(ac, b, pos, j, table, EncodeAc(ac, zz, k, r - 16));
      if !CodedLast(ac, ZRL) {
        AcRoundTrip(ac, b, pos + |EncodeSymbol(ac, ZRL)|, zz, k, r - 16, j + 16, table, dc);
      }
    } else {
      var sym := 16 * r + Category(zz[k]);
      PassesValue(ac, b, pos, j, r, zz[k], table, EncodeAc(ac, zz, k + 1, 0));
      if !CodedLast(ac, sym) {
        AcRoundTrip(ac, b, pos + |EncodeValue(ac, sym, zz[k])|, zz, k + 1, 0, k, table[k := zz[k]], dc);
      }
    }
  }

  /** What is asked of the symbols is asked of the first one and of the rest. */
  lemma NeededSymbols(ac: seq<Entry>, zz: Coefficients, k: nat, r: nat)
    requires k <= 64 && AcCodable(ac, zz, k, r)
    ensures k == 64 && r == 0 ==> AcAvoidsLast(ac, zz, k, r)
    ensures k == 64 && r > 0 ==> Coded(ac, EOB) && (AcAvoidsLast(ac, zz, k, r) <==> !CodedLast(ac, EOB))
    ensures k < 64 && zz[k] == 0 ==>
              AcCodable(ac, zz, k + 1, r + 1) && (AcAvoidsLast(ac, zz, k, r) <==> AcAvoidsLast(ac, zz, k + 1, r + 1))
    ensures k < 64 && zz[k] != 0 && r >= 16 ==>
              && Coded(ac, ZRL) && AcCodable(ac, zz, k, r - 16)
              && (AcAvoidsLast(ac, zz, k, r) <==> !CodedLast(ac, ZRL) && AcAvoidsLast(ac, zz, k, r - 16))
    ensures k < 64 && zz[k] != 0 && r < 16 ==>
              var sym := 16 * r + Category(zz[k]);
              && Category(zz[k]) <= 15 && Coded(ac, sym) && AcCodable(ac, zz, k + 1, 0)
              && (AcAvoidsLast(ac, zz, k, r) <==> !CodedLast(ac, sym) && AcAvoidsLast(ac, zz, k + 1, 0))
  {
    hide Coded, CodedLast, Category;
    if k == 64 {
    } else if zz[k] == 0 {
      assert AcSymbols(zz, k, r) == AcSymbols(zz, k + 1, r + 1);
    } else if r >= 16 {
      OneMore(ac, zz, k, r, ZRL, k, r - 16);
    } else {
      OneMore(ac, zz, k, r, 16 * r + Category(zz[k]), k + 1, 0);
    }
  }

  lemma OneMore(ac: seq<Entry>, zz: Coefficients, k: nat, r: nat, sym: int, k': nat, r': nat)
    requires k <= k' <= 64 && AcSymbols(zz, k, r) == [sym] + AcSymbols(zz, k', r')
    ensures AcCodable(ac, zz, k, r) ==> Coded(ac, sym) && AcCodable(ac, zz, k', r')
    ensures AcAvoidsLast(ac, zz, k, r) <==> !CodedLast(ac, sym) && AcAvoidsLast(ac, zz, k', r')
  {
    hide AcSymbols, CodedLast, Coded, Category;
    var tail := AcSymbols(zz, k', r');
    assert forall s :: s in [sym] + tail <==> s == sym || s in tail;
  }

  /** The symbols of a block all have codes. */
  ghost predicate BlockCodable(dc: seq<Entry>, ac: seq<Entry>, zz: Coefficients, pred: int) {
    Coded(dc, Category(zz[0] - pred)) && AcCodable(ac, zz, 1, 0)
  }

  /** None of them has the last code of its table. */
  ghost predicate BlockAvoidsLast(dc: seq<Entry>, ac: seq<Entry>, zz: Coefficients, pred: int) {
    !CodedLast(dc, Category(zz[0] - pred)) && AcAvoidsLast(ac, zz, 1, 0)
  }

  /** Section F.1.2.1: the difference from the predictor, then the AC coefficients. */
  ghost function EncodeBlock(dc: seq<Entry>, ac: seq<Entry>, zz: Coefficients, pred: int): (s: seq<bit>)
    requires BlockCodable(dc, ac, zz, pred)
  {
    EncodeValue(dc, Category(zz[0] - pred), zz[0] - pred) + EncodeAc(ac, zz, 1, 0)
  }

  /** `readTable` accepts an encoded block if and only if none of its symbols has the last code of
      its table, and then restores the block, its DC value and its position in the stream. */
  lemma BlockRoundTrip(
    dc: seq<Entry>, ac: seq<Entry>, b: Stream, pos: nat, zz: Coefficients, pred: int, table: Table)
    requires Decodable(dc) && Decodable(ac) && BlockCodable(dc, ac, zz, pred)
    requires At(b, pos, EncodeBlock(dc, ac, zz, pred))
    ensures var r := DecodeBlock(dc, ac, b, pos, pred, table);
            && (r.ok <==> BlockAvoidsLast(dc, ac, zz, pred))
            && (r.ok ==> r.table[..64] == zz && r.lastDC == zz[0]
                         && r.next == pos + |EncodeBlock(dc, ac, zz, pred)|)
  {
    hide ReadSymbol, EncodeSymbol, Coded, CodedLast, Unambiguous, Val, Extend, AcLoop, AcCodable, EncodeAc, Category;
    hide AcAvoidsLast;
    var diff := zz[0] - pred;
    var s := Category(diff);
    var p := pos + |EncodeSymbol(dc, s)|;
    DecodesValue(dc, s, diff, b, pos, EncodeAc(ac, zz, 1, 0), p);
    if !CodedLast(dc, s) {
      assert DecodeDc(dc, b, pos, pred) == Dc(zz[0], p + s);
      AcRoundTrip(ac, b, p + s, zz, 1, 0, 0, Zeroed(table)[0 := zz[0]], zz[0]);
    }
  }
}
