/** Whole scans: what a T.81 encoder writes for a sequence of blocks, byte by byte, and what the
    decoder makes of it. */
module ScanRoundTrip {
  import opened Words
  import opened BitStreams
  import opened Stuffing
  import opened HuffmanTables
  import opened EntropyDecoder
  import opened EntropyEncoder

  datatype CodedBlock = CodedBlock(component: Component, zz: Coefficients)

  /** The DC value of the last block of a component: what the next difference is taken from. */
  function PredictorAfter(blocks: seq<CodedBlock>, c: Component): (p: int) {
    if blocks == [] then 0
    else if blocks[|blocks| - 1].component == c then blocks[|blocks| - 1].zz[0]
    else PredictorAfter(blocks[..|blocks| - 1], c)
  }

  /** Block `i` of a scan, coded against the last DC value of its component, has all its codes. */
  ghost predicate CodableAt(ts: Tables, blocks: seq<CodedBlock>, i: nat)
    requires i < |blocks|
  {
    var c := blocks[i].component;
    BlockCodable(ts.Dc(c), ts.Ac(c), blocks[i].zz, PredictorAfter(blocks[..i], c))
  }

  /** None of the codes of block `i` is the last one of its table. */
  ghost predicate AvoidsLastAt(ts: Tables, blocks: seq<CodedBlock>, i: nat)
    requires i < |blocks|
  {
    var c := blocks[i].component;
    BlockAvoidsLast(ts.Dc(c), ts.Ac(c), blocks[i].zz, PredictorAfter(blocks[..i], c))
  }

  ghost predicate ScanCodable(ts: Tables, blocks: seq<CodedBlock>) {
    blocks == [] || (ScanCodable(ts, blocks[..|blocks| - 1]) && CodableAt(ts, blocks, |blocks| - 1))
  }

  ghost predicate ScanAvoidsLast(ts: Tables, blocks: seq<CodedBlock>) {
    blocks == [] || (ScanAvoidsLast(ts, blocks[..|blocks| - 1]) && AvoidsLastAt(ts, blocks, |blocks| - 1))
  }

  ghost function EncodeScan(ts: Tables, blocks: seq<CodedBlock>): (s: seq<bit>)
    requires ScanCodable(ts, blocks)
  {
    if blocks == [] then []
    else
      var n := |blocks| - 1;
      var c := blocks[n].component;
      EncodeScan(ts, blocks[..n]) + EncodeBlock(ts.Dc(c), ts.Ac(c), blocks[n].zz, PredictorAfter(blocks[..n], c))
  }

  /** A scan can be coded, and avoids the last codes, exactly when each of its blocks does. */
  lemma {:induction false} BlocksMakeScan(ts: Tables, blocks: seq<CodedBlock>)
    ensures ScanCodable(ts, blocks) <==> forall i :: 0 <= i < |blocks| ==> CodableAt(ts, blocks, i)
    ensures ScanAvoidsLast(ts, blocks) <==> forall i :: 0 <= i < |blocks| ==> AvoidsLastAt(ts, blocks, i)
  {
    hide CodableAt, AvoidsLastAt;
    if blocks != [] {
      var n := |blocks| - 1;
      BlocksMakeScan(ts, blocks[..n]);
      forall i | 0 <= i < n
        ensures CodableAt(ts, blocks[..n], i) == CodableAt(ts, blocks, i)
        ensures AvoidsLastAt(ts, blocks[..n], i) == AvoidsLastAt(ts, blocks, i)
      {
        SameInFront(ts, blocks, n, i);
      }
    }
  }

  lemma SameInFront(ts: Tables, blocks: seq<CodedBlock>, n: nat, i: nat)
    requires i < n <= |blocks|
    ensures CodableAt(ts, blocks[..n], i) == CodableAt(ts, blocks, i)
    ensures AvoidsLastAt(ts, blocks[..n], i) == AvoidsLastAt(ts, blocks, i)
  {
    hide BlockCodable, BlockAvoidsLast, PredictorAfter;
    assert blocks[..n][..i] == blocks[..i];
  }

  function PlanOf(blocks: seq<CodedBlock>): (plan: seq<Component>) {
    seq(|blocks|, i requires 0 <= i < |blocks| => blocks[i].component)
  }

  function Lumas(blocks: seq<CodedBlock>): (r: seq<seq<int>>) {
    if blocks == [] then []
    else Lumas(blocks[..|blocks| - 1]) + (if blocks[|blocks| - 1].component.Y? then [blocks[|blocks| - 1].zz] else [])
  }

  lemma LumasOfLast(blocks: seq<CodedBlock>)
    requires blocks != []
    ensures var n := |blocks| - 1;
            Lumas(blocks) == Lumas(blocks[..n]) + (if blocks[n].component.Y? then [blocks[n].zz] else [])
  {
  }

  lemma NoBlocks()
    ensures Lumas([]) == []
  {
  }

  ghost predicate DecodableTables(ts: Tables) {
    Decodable(ts.dcY) && Decodable(ts.acY) && Decodable(ts.dcC) && Decodable(ts.acC)
  }

  /** The decoder's state after `blocks`, read from bit 0 on. */
  ghost predicate ReadBack(s: Scan, blocks: seq<CodedBlock>, next: nat) {
    && s.next == next && s.lumas == Lumas(blocks)
    && forall c :: s.Predictor(c) == PredictorAfter(blocks, c)
  }

  lemma ComponentRoundTrip(ts: Tables, b: Stream, s: Scan, c: Component, zz: Coefficients)
    requires DecodableTables(ts) && BlockCodable(ts.Dc(c), ts.Ac(c), zz, s.Predictor(c))
    requires At(b, s.next, EncodeBlock(ts.Dc(c), ts.Ac(c), zz, s.Predictor(c)))
    ensures var r := DecodeComponent(ts, b, s, c);
            && (r.Some? <==> BlockAvoidsLast(ts.Dc(c), ts.Ac(c), zz, s.Predictor(c)))
            && (r.Some? ==>
                  && r.value.next == s.next + |EncodeBlock(ts.Dc(c), ts.Ac(c), zz, s.Predictor(c))|
                  && r.value.lumas == s.lumas + (if c.Y? then [zz] else [])
                  && r.value.Predictor(c) == zz[0]
                  && forall c' :: c' != c ==> r.value.Predictor(c') == s.Predictor(c'))
  {
    hide DecodeBlock, EncodeBlock, BlockCodable, BlockAvoidsLast, Decodable;
    BlockRoundTrip(ts.Dc(c), ts.Ac(c), b, s.next, zz, s.Predictor(c), s.table);
  }

  /** Decoding the bits of any sequence of blocks gives back every block, with each component's
      running DC value, if and only if no block needs the last code of its tables. */
  lemma {:induction false} PlanRoundTrip(ts: Tables, b: Stream, blocks: seq<CodedBlock>, table: Table)
    requires DecodableTables(ts) && ScanCodable(ts, blocks) && At(b, 0, EncodeScan(ts, blocks))
    ensures var r := DecodePlan(ts, b, Scan(0, 0, 0, 0, table, []), PlanOf(blocks));
            && (r.Some? <==> ScanAvoidsLast(ts, blocks))
            && (r.Some? ==> ReadBack(r.value, blocks, |EncodeScan(ts, blocks)|))
  {
    hide DecodeComponent, EncodeBlock, BlockCodable, BlockAvoidsLast, DecodableTables, Lumas;
    if blocks == [] {
      NoBlocks();
    }
    if blocks != [] {
      var n := |blocks| - 1;
      var init, c, zz := blocks[..n], blocks[n].component, blocks[n].zz;
      var head := EncodeScan(ts, init);
      var pred := PredictorAfter(init, c);
      AtAppend(b, 0, head, EncodeBlock(ts.Dc(c), ts.Ac(c), zz, pred));
      PlanRoundTrip(ts, b, init, table);
      var start := Scan(0, 0, 0, 0, table, []);
      var before := DecodePlan(ts, b, start, PlanOf(init));
      if before.Some? {
        ComponentRoundTrip(ts, b, before.value, c, zz);
      }
      LumasOfLast(blocks);
      assert PlanOf(blocks) == PlanOf(init) + [c];
      PlanSnoc(ts, b, start, PlanOf(init), c);
    }
  }

  // ---------------------------------------------------------------- bytes

  /** Section F.1.2.3: the last byte is filled up with 1-bits. */
  function PadStream(s: seq<bit>): (b: Stream) {
    (i: nat) => if i < |s| then s[i] else 1
  }

  function Pack(s: seq<bit>): (d: seq<byte>)
    ensures |d| == (|s| + 7) / 8
  {
    Pow2Values();
    seq((|s| + 7) / 8, i requires 0 <= i => Val(PadStream(s), 8 * i, 8))
  }

  lemma ValBit(b: Stream, pos: nat, n: nat, k: nat)
    requires k < n
    ensures Down(Val(b, pos, n), n - 1 - k) % 2 == b(pos + k)
  {
    hide Up, Down, Low, Val;
    var m := n - 1 - k;
    var high := Val(b, pos, k + 1);
    assert Down(Val(b, pos, n), m) == high by {
      ValSplit(b, pos, k + 1, m);
      assert k + 1 + m == n;
      SplitUnique(high, Val(b, pos + (k + 1), m), m);
    }
    LastBit(b, pos, k);
  }

  lemma LastBit(b: Stream, pos: nat, k: nat)
    ensures Val(b, pos, k + 1) % 2 == b(pos + k)
  {
  }

  /** If the packed bytes reach the window, their bits are what it is filled with. */
  lemma PackedBits(mem: Memory, p: nat, s: seq<bit>)
    requires Undone(mem, p, Pack(s))
    ensures At(StreamOf(mem, p), 0, s)
  {
    forall i | 0 <= i < |s|
      ensures StreamOf(mem, p)(0 + i) == s[i]
    {
      var j, k := i / 8, i % 8;
      assert FedByte(mem, p, j) == Pack(s)[j] == Val(PadStream(s), 8 * j, 8);
      ValBit(PadStream(s), 8 * j, 8, k);
      assert 8 * j + k == i && 8 - 1 - k == 7 - k;
    }
  }

  /** The entropy-coded bytes of a scan. */
  ghost function ScanBytes(ts: Tables, blocks: seq<CodedBlock>): (d: seq<byte>)
    requires ScanCodable(ts, blocks)
  {
    Pack(EncodeScan(ts, blocks))
  }

  /** From the stuffed bytes of any encoded scan, whatever follows them in memory, the decoder
      restores every block, if and only if none needs the last code of its tables. */
  lemma ScanRoundTrip(ts: Tables, mem: Memory, p: nat, blocks: seq<CodedBlock>, table: Table)
    requires DecodableTables(ts) && ScanCodable(ts, blocks)
    requires HoldsAt(mem, p, Stuff(ScanBytes(ts, blocks))) && StuffingSafe(ScanBytes(ts, blocks))
    ensures var r := DecodePlan(ts, StreamOf(mem, p), Scan(0, 0, 0, 0, table, []), PlanOf(blocks));
            && (r.Some? <==> ScanAvoidsLast(ts, blocks))
            && (r.Some? ==> ReadBack(r.value, blocks, |EncodeScan(ts, blocks)|))
  {
    hide DecodePlan, EncodeScan, ScanCodable, ScanAvoidsLast, DecodableTables, Pack, ReadBack, StreamOf;
    UndoneIffSafe(mem, p, ScanBytes(ts, blocks));
    PackedBits(mem, p, EncodeScan(ts, blocks));
    PlanRoundTrip(ts, StreamOf(mem, p), blocks, table);
  }

  /** Tables built from DHT counts that satisfy the Kraft inequality can be decoded with. */
  lemma CanonicalDecodable(counts: seq<byte>, symbols: seq<byte>)
    requires |counts| == 16 && |AllSizes(counts)| <= |symbols|
    ensures Decodable(Canonical(counts, symbols)) <==> KraftHolds(AllSizes(counts))
  {
    UnambiguousIffKraft(counts, symbols);
  }
}
