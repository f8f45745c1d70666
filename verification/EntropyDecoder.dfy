/** The entropy decoder of processJPEG_onlyCenter.c: a 32-bit window over destuffed bytes,
    symbols found by mask matching, and blocks of 64 coefficients rebuilt from run/size symbols. */
module EntropyDecoder {
  import opened Options
  import opened Words
  import opened BitStreams
  import opened HuffmanTables

  // ---------------------------------------------------------------- what is decoded, on the bit stream

  datatype Symbol = NoSymbol | Symbol(value: byte, next: nat)

  /** The first entry from `k` on whose code stands at `pos`, or the table's length. */
  function FirstMatch(t: seq<Entry>, b: Stream, pos: nat, k: nat): (r: nat)
    requires k <= |t|
    ensures k <= r <= |t|
    ensures r < |t| ==> Val(b, pos, t[r].len) == t[r].code
    ensures forall i :: k <= i < r ==> Val(b, pos, t[i].len) != t[i].code
    decreases |t| - k
  {
    if k == |t| || Val(b, pos, t[k].len) == t[k].code then k else FirstMatch(t, b, pos, k + 1)
  }

  /** `readXC`: the symbol at `pos`. A match on the last entry is not returned. */
  function ReadSymbol(t: seq<Entry>, b: Stream, pos: nat): (r: Symbol) {
    var k := FirstMatch(t, b, pos, 0);
    if k + 1 >= |t| then NoSymbol else Symbol(t[k].symbol, pos + t[k].len)
  }

  /** `HUFF_EXTEND`; a difference of size 0 is 0. */
  function Extend(x: nat, s: nat): (r: int) {
    if s == 0 then 0 else if x < Pow2(s - 1) then x - Pow2(s) + 1 else x
  }

  const TABLE_LENGTH := 128

  type Table = t: seq<int> | |t| == 128 witness seq(128, _ => 0)

  /** What `readTable` leaves behind: its verdict, the table, the predictor and the bit position. */
  datatype Block = Block(ok: bool, table: Table, lastDC: int, next: nat)

  /** One pass of the AC loop: where it leaves `j`, the end-of-block mark, the table and the position. */
  datatype Pass = NoCode | Pass(j: nat, eob: bool, table: Table, next: nat)

  function AcPass(ac: seq<Entry>, b: Stream, pos: nat, j: nat, table: Table): (r: Pass)
    requires j < 63
    ensures r.Pass? ==> if r.eob then r.j == j else j < r.j <= 78
  {
    match ReadSymbol(ac, b, pos)
    case NoSymbol => NoCode
    case Symbol(comb, p) =>
      var val, repeat := comb % 16, comb / 16;
      if val == 0 then
        if repeat == 15 then Pass(j + 16, false, table, p) else Pass(j, true, table, p)
      else
        Pass(j + repeat + 1, false, table[j + repeat + 1 := Extend(Val(b, p, val), val)], p + val)
  }

  /** The AC loop of `readTable` with `j` coefficients behind the DC one already placed. */
  function AcLoop(ac: seq<Entry>, b: Stream, pos: nat, j: nat, table: Table, dc: int): (r: Block)
    requires j <= 78
    ensures r.lastDC == dc
    decreases 78 - j, |ac|
  {
    if j >= 63 then Block(j <= 63, table, dc, pos)
    else match AcPass(ac, b, pos, j, table)
      case NoCode => Block(false, table, dc, pos)
      case Pass(j', eob, table', next) =>
        if eob then Block(true, table', dc, next) else AcLoop(ac, b, next, j', table', dc)
  }

  function Zeroed(table: Table): (r: Table) {
    seq(64, _ => 0) + table[64..]
  }

  datatype Dc = NoDc | Dc(value: int, next: nat)

  /** The DC part of a block: a size, that many bits, and the predictor. */
  function DecodeDc(dc: seq<Entry>, b: Stream, pos: nat, lastDC: int): (r: Dc) {
    match ReadSymbol(dc, b, pos)
    case NoSymbol => NoDc
    case Symbol(size, p) => Dc(Extend(Val(b, p, size), size) + lastDC, p + size)
  }

  /** `readTable`. */
  function DecodeBlock(dc: seq<Entry>, ac: seq<Entry>, b: Stream, pos: nat, lastDC: int, table: Table): (r: Block) {
    match DecodeDc(dc, b, pos, lastDC)
    case NoDc => Block(false, Zeroed(table), lastDC, pos)
    case Dc(d, p) => AcLoop(ac, b, p, 0, Zeroed(table)[0 := d], d)
  }

  ghost predicate Agree(s: Table, t: Table, lo: nat, hi: nat) {
    forall i :: lo <= i < hi && i < 128 ==> s[i] == t[i]
  }

  /** On any tables and any bits: no index above 78 is written, and an accepted block wrote
      nothing beyond index 63. */
  lemma {:induction false} AcLoopBounds(ac: seq<Entry>, b: Stream, pos: nat, j: nat, table: Table, dc: int, r: Block)
    requires j <= 78 && r == AcLoop(ac, b, pos, j, table, dc)
    ensures Agree(r.table, table, 0, j + 1) && Agree(r.table, table, 79, 128)
    ensures r.ok ==> j <= 63 && Agree(r.table, table, 64, 128)
    ensures r.next >= pos
    decreases 78 - j
  {
    if j < 63 {
      match AcPass(ac, b, pos, j, table)
      case NoCode =>
      case Pass(j', eob, table', next) =>
        if !eob {
          AcLoopBounds(ac, b, next, j', table', dc, r);
        }
    }
  }

  lemma DecodeBlockBounds(dc: seq<Entry>, ac: seq<Entry>, b: Stream, pos: nat, lastDC: int, table: Table, r: Block)
    requires r == DecodeBlock(dc, ac, b, pos, lastDC, table)
    ensures Agree(r.table, table, 79, 128)
    ensures r.ok ==> Agree(r.table, table, 64, 128) && r.table[0] == r.lastDC
    ensures r.next >= pos
  {
    match DecodeDc(dc, b, pos, lastDC)
    case NoDc =>
    case Dc(d, p) =>
      var t := Zeroed(table)[0 := d];
      assert Agree(t, table, 64, 128);
      AcLoopBounds(ac, b, p, 0, t, d, r);
  }

  // ---------------------------------------------------------------- a whole scan

  datatype Component = Y | Cr | Cb

  datatype Tables = Tables(dcY: seq<Entry>, acY: seq<Entry>, dcC: seq<Entry>, acC: seq<Entry>) {
    function Dc(c: Component): (t: seq<Entry>)
      ensures c == Y ==> t == dcY
      ensures c == Cr || c == Cb ==> t == dcC
    {
      if c.Y? then dcY else dcC
    }

    function Ac(c: Component): (t: seq<Entry>)
      ensures c == Y ==> t == acY
      ensures c == Cr || c == Cb ==> t == acC
    {
      if c.Y? then acY else acC
    }
  }

  /** The bit position, the predictors, the block storage and the luma blocks seen so far. */
  datatype Scan = Scan(next: nat, dcY: int, dcCr: int, dcCb: int, table: Table, lumas: seq<seq<int>>) {
    function Predictor(c: Component): (r: int) {
      match c case Y => dcY case Cr => dcCr case Cb => dcCb
    }

    function Took(c: Component, r: Block): (s: Scan) {
      match c
      case Y => Scan(r.next, r.lastDC, dcCr, dcCb, r.table, lumas + [r.table[..64]])
      case Cr => Scan(r.next, dcY, r.lastDC, dcCb, r.table, lumas)
      case Cb => Scan(r.next, dcY, dcCr, r.lastDC, r.table, lumas)
    }
  }

  function DecodeComponent(ts: Tables, b: Stream, s: Scan, c: Component): (r: Option<Scan>) {
    var block := DecodeBlock(ts.Dc(c), ts.Ac(c), b, s.next, s.Predictor(c), s.table);
    if block.ok then Some(s.Took(c, block)) else None
  }

  function Then(ts: Tables, b: Stream, s: Option<Scan>, c: Component): (r: Option<Scan>) {
    match s
    case None => None
    case Some(s') => DecodeComponent(ts, b, s', c)
  }

  /** Decode one block for each component listed; the first bad block ends the scan. */
  function DecodePlan(ts: Tables, b: Stream, s: Scan, plan: seq<Component>): (r: Option<Scan>) {
    if plan == [] then Some(s) else Then(ts, b, DecodePlan(ts, b, s, plan[..|plan| - 1]), plan[|plan| - 1])
  }

  /** One MCU: two luma blocks, then one of each chroma component. */
  function DecodeMcu(ts: Tables, b: Stream, s: Scan): (r: Option<Scan>) {
    Then(ts, b, Then(ts, b, Then(ts, b, Then(ts, b, Some(s), Y), Y), Cr), Cb)
  }

  /** The order of blocks in `cnt` MCUs. */
  function McuPlan(cnt: nat): (plan: seq<Component>)
    ensures |plan| == 4 * cnt
    ensures forall i :: 0 <= i < 4 * cnt ==> plan[i] == (if i % 4 < 2 then Y else if i % 4 == 2 then Cr else Cb)
  {
    if cnt == 0 then [] else McuPlan(cnt - 1) + [Y] + [Y] + [Cr] + [Cb]
  }

  lemma PlanStart(ts: Tables, b: Stream, s: Scan, cnt: nat)
    requires cnt == 0
    ensures DecodePlan(ts, b, s, McuPlan(cnt)) == Some(s)
  {
  }

  lemma PlanSnoc(ts: Tables, b: Stream, s: Scan, plan: seq<Component>, c: Component)
    ensures DecodePlan(ts, b, s, plan + [c]) == Then(ts, b, DecodePlan(ts, b, s, plan), c)
  {
    assert (plan + [c])[..|plan|] == plan;
  }

  lemma PlanMcu(ts: Tables, b: Stream, s: Scan, cnt: nat)
    ensures DecodePlan(ts, b, s, McuPlan(cnt + 1)) ==
            match DecodePlan(ts, b, s, McuPlan(cnt))
            case None => None
            case Some(s') => DecodeMcu(ts, b, s')
  {
    var p := McuPlan(cnt);
    PlanSnoc(ts, b, s, p, Y);
    PlanSnoc(ts, b, s, p + [Y], Y);
    PlanSnoc(ts, b, s, p + [Y] + [Y], Cr);
    PlanSnoc(ts, b, s, p + [Y] + [Y] + [Cr], Cb);
  }

  lemma {:induction false} PlanStaysBad(ts: Tables, b: Stream, s: Scan, i: nat, cnt: nat)
    requires i <= cnt && DecodePlan(ts, b, s, McuPlan(i)).None?
    ensures DecodePlan(ts, b, s, McuPlan(cnt)).None?
  {
    hide DecodeMcu, DecodePlan, McuPlan;
    if i < cnt {
      PlanStaysBad(ts, b, s, i, cnt - 1);
      PlanMcu(ts, b, s, cnt - 1);
    }
  }

  // ---------------------------------------------------------------- the window

  /** The window word: `n` unread bits from `pos` on, left-justified, zeros below. */
  function Window(b: Stream, pos: nat, n: nat): (w: nat)
    requires n <= 32
  {
    Up(Val(b, pos, n), 32 - n)
  }

  lemma WindowIsWord(b: Stream, pos: nat, n: nat)
    requires n <= 32
    ensures Window(b, pos, n) < 0x1_0000_0000
  {
    Pow2Values();
    UpMono(Val(b, pos, n), Pow2(n), 32 - n);
    UpUp(1, n, 32 - n);
  }

  lemma ShiftedByte(c: byte, k: nat)
    requires k <= 24
    ensures Shl32(c, k) == Up(c, k) < Pow2(8 + k)
  {
    assert Up(c, k) < Pow2(8 + k) by {
      Pow2Values();
      UpMono(c, Pow2(8), k);
      UpUp(1, 8, k);
    }
    assert Pow2(8 + k) <= Pow2(32) by { Pow2Mono(8 + k, 32); }
    LowSmall(Up(c, k), 32);
  }

  /** Or-ing the next byte below the unread bits extends the window by it. */
  lemma PutByte(b: Stream, pos: nat, n: nat, c: byte)
    requires n <= 24 && Val(b, pos + n, 8) == c
    ensures Or(Window(b, pos, n), Shl32(c, 24 - n)) == Window(b, pos, n + 8)
  {
    hide Up, Or, Val, Shl32;
    var v := Val(b, pos, n);
    ShiftedByte(c, 24 - n);
    assert 8 + (24 - n) == 32 - n;
    OrDisjoint(v, Up(c, 24 - n), 32 - n);
    ValSplit(b, pos, n, 8);
    UpUp(v, 8, 24 - n);
    UpAdd(Up(v, 8), c, 24 - n);
  }

  /** The top `s` bits of the window are the next `s` bits of the stream. */
  lemma WindowTop(b: Stream, pos: nat, n: nat, s: nat)
    requires s <= n <= 32
    ensures Down(Window(b, pos, n), 32 - s) == Val(b, pos, s)
  {
    hide Up, Down, Low, Val;
    ValSplit(b, pos, s, n - s);
    var hi, lo := Val(b, pos, s), Val(b, pos + s, n - s);
    assert s + (n - s) == n;
    UpAdd(Up(hi, n - s), lo, 32 - n);
    UpUp(hi, n - s, 32 - n);
    assert n - s + (32 - n) == 32 - s;
    UpMono(lo, Pow2(n - s), 32 - n);
    UpUp(1, n - s, 32 - n);
    SplitUnique(hi, Up(lo, 32 - n), 32 - s);
  }

  /** Shifting the window left by `s` drops the `s` bits read. */
  lemma WindowDrop(b: Stream, pos: nat, n: nat, s: nat)
    requires s <= n <= 32
    ensures Shl32(Window(b, pos, n), s) == Window(b, pos + s, n - s)
  {
    hide Up, Down, Low, Val;
    ValSplit(b, pos, s, n - s);
    var hi, lo := Val(b, pos, s), Val(b, pos + s, n - s);
    assert s + (n - s) == n;
    UpUp(Val(b, pos, n), 32 - n, s);
    UpAdd(Up(hi, n - s), lo, 32 - n + s);
    UpUp(hi, n - s, 32 - n + s);
    assert n - s + (32 - n + s) == 32;
    UpMono(lo, Pow2(n - s), 32 - n + s);
    UpUp(1, n - s, 32 - n + s);
    SplitUnique(hi, Up(lo, 32 - n + s), 32);
    assert 32 - n + s == 32 - (n - s);
  }

  /** The first entry from `k` on that the window matches, or the table's length. */
  function FirstInWindow(t: seq<Entry>, w: nat, k: nat): (r: nat)
    requires k <= |t|
    ensures k <= r <= |t|
    decreases |t| - k
  {
    if k == |t| || t[k].Matches(w) then k else FirstInWindow(t, w, k + 1)
  }

  /** With 16 bits in the window, matching it is matching the stream. */
  lemma {:induction false} WindowFinds(t: seq<Entry>, b: Stream, pos: nat, n: nat, k: nat)
    requires 16 <= n <= 32 && k <= |t| && forall i :: 0 <= i < |t| ==> t[i].Ok()
    ensures FirstInWindow(t, Window(b, pos, n), k) == FirstMatch(t, b, pos, k)
    decreases |t| - k
  {
    if k < |t| {
      WindowFinds(t, b, pos, n, k + 1);
      WindowIsWord(b, pos, n);
      MatchesIffTop(t[k], Window(b, pos, n));
      WindowTop(b, pos, n, t[k].len);
    }
  }
}
