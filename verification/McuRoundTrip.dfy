/** Scans of 4:2:2 pictures: what a T.81 encoder writes for a list of MCUs, with the tables of each
    component named outright, and what the decoder's code returns for it. */
module McuRoundTrip {
  import opened BitStreams
  import opened Stuffing
  import opened HuffmanTables
  import opened EntropyDecoder
  import opened EntropyEncoder
  import opened ScanDecoder
  import opened ScanRoundTrip

  /** Two luma blocks side by side and the chroma blocks that they share. */
  datatype Mcu = Mcu(y1: Coefficients, y2: Coefficients, cr: Coefficients, cb: Coefficients)

  // The DC values that the first block of each component in the next MCU is coded against.

  function LastY(mcus: seq<Mcu>): (dc: int) {
    if mcus == [] then 0 else mcus[|mcus| - 1].y2[0]
  }

  function LastCr(mcus: seq<Mcu>): (dc: int) {
    if mcus == [] then 0 else mcus[|mcus| - 1].cr[0]
  }

  function LastCb(mcus: seq<Mcu>): (dc: int) {
    if mcus == [] then 0 else mcus[|mcus| - 1].cb[0]
  }

  /** Every symbol of every MCU has a code in the tables of its component. */
  ghost predicate McusCodable(
    dcY: seq<Entry>, acY: seq<Entry>, dcC: seq<Entry>, acC: seq<Entry>, mcus: seq<Mcu>)
  {
    mcus == [] ||
    var before, m := mcus[..|mcus| - 1], mcus[|mcus| - 1];
    && McusCodable(dcY, acY, dcC, acC, before)
    && BlockCodable(dcY, acY, m.y1, LastY(before)) && BlockCodable(dcY, acY, m.y2, m.y1[0])
    && BlockCodable(dcC, acC, m.cr, LastCr(before)) && BlockCodable(dcC, acC, m.cb, LastCb(before))
  }

  /** No symbol of any MCU has the last code of its table. */
  ghost predicate McusAvoidLast(
    dcY: seq<Entry>, acY: seq<Entry>, dcC: seq<Entry>, acC: seq<Entry>, mcus: seq<Mcu>)
  {
    mcus == [] ||
    var before, m := mcus[..|mcus| - 1], mcus[|mcus| - 1];
    && McusAvoidLast(dcY, acY, dcC, acC, before)
    && BlockAvoidsLast(dcY, acY, m.y1, LastY(before)) && BlockAvoidsLast(dcY, acY, m.y2, m.y1[0])
    && BlockAvoidsLast(dcC, acC, m.cr, LastCr(before)) && BlockAvoidsLast(dcC, acC, m.cb, LastCb(before))
  }

  /** Section A.2.3 of T.81: the interleaved blocks Y, Y, Cr, Cb of each MCU, one MCU after the other. */
  ghost function EncodeMcus(
    dcY: seq<Entry>, acY: seq<Entry>, dcC: seq<Entry>, acC: seq<Entry>, mcus: seq<Mcu>): (s: seq<bit>)
    requires McusCodable(dcY, acY, dcC, acC, mcus)
  {
    if mcus == [] then []
    else
      var before, m := mcus[..|mcus| - 1], mcus[|mcus| - 1];
      EncodeMcus(dcY, acY, dcC, acC, before) +
      EncodeBlock(dcY, acY, m.y1, LastY(before)) + EncodeBlock(dcY, acY, m.y2, m.y1[0]) +
      EncodeBlock(dcC, acC, m.cr, LastCr(before)) + EncodeBlock(dcC, acC, m.cb, LastCb(before))
  }

  // ---------------------------------------------------------------- MCUs as blocks

  function BlocksOf(mcus: seq<Mcu>): (blocks: seq<CodedBlock>) {
    if mcus == [] then []
    else
      var m := mcus[|mcus| - 1];
      BlocksOf(mcus[..|mcus| - 1]) + [CodedBlock(Y, m.y1)] + [CodedBlock(Y, m.y2)] +
      [CodedBlock(Cr, m.cr)] + [CodedBlock(Cb, m.cb)]
  }

  /** One more block at the end of a scan. */
  lemma ScanSnoc(blocks: seq<CodedBlock>, b: CodedBlock)
    ensures PlanOf(blocks + [b]) == PlanOf(blocks) + [b.component]
    ensures forall c :: PredictorAfter(blocks + [b], c) ==
                        if c == b.component then b.zz[0] else PredictorAfter(blocks, c)
    ensures Lumas(blocks + [b]) == Lumas(blocks) + (if b.component.Y? then [b.zz] else [])
  {
    assert (blocks + [b])[..|blocks|] == blocks;
  }

  lemma CodeSnoc(ts: Tables, blocks: seq<CodedBlock>, b: CodedBlock, dc: seq<Entry>, ac: seq<Entry>, pred: int)
    requires dc == ts.Dc(b.component) && ac == ts.Ac(b.component) && pred == PredictorAfter(blocks, b.component)
    ensures ScanCodable(ts, blocks + [b]) <==> ScanCodable(ts, blocks) && BlockCodable(dc, ac, b.zz, pred)
    ensures ScanAvoidsLast(ts, blocks + [b]) <==> ScanAvoidsLast(ts, blocks) && BlockAvoidsLast(dc, ac, b.zz, pred)
    ensures ScanCodable(ts, blocks + [b]) ==>
              EncodeScan(ts, blocks + [b]) == EncodeScan(ts, blocks) + EncodeBlock(dc, ac, b.zz, pred)
  {
    hide BlockCodable, BlockAvoidsLast, EncodeBlock, PredictorAfter;
    assert (blocks + [b])[..|blocks|] == blocks;
  }

  /** The blocks of a list of MCUs come in the order Y, Y, Cr, Cb. */
  lemma {:induction false} McuBlocks(mcus: seq<Mcu>)
    ensures PlanOf(BlocksOf(mcus)) == McuPlan(|mcus|)
    ensures PredictorAfter(BlocksOf(mcus), Y) == LastY(mcus)
    ensures PredictorAfter(BlocksOf(mcus), Cr) == LastCr(mcus)
    ensures PredictorAfter(BlocksOf(mcus), Cb) == LastCb(mcus)
    ensures var lumas := Lumas(BlocksOf(mcus));
            |lumas| == 2 * |mcus| &&
            forall i :: 0 <= i < |mcus| ==> lumas[2 * i] == mcus[i].y1 && lumas[2 * i + 1] == mcus[i].y2
  {
    if mcus != [] {
      var before, m := mcus[..|mcus| - 1], mcus[|mcus| - 1];
      McuBlocks(before);
      hide PlanOf, PredictorAfter, Lumas;
      FourMore(BlocksOf(before), m);
    }
  }

  lemma FourMore(b: seq<CodedBlock>, m: Mcu)
    ensures var all := b + [CodedBlock(Y, m.y1)] + [CodedBlock(Y, m.y2)] +
                       [CodedBlock(Cr, m.cr)] + [CodedBlock(Cb, m.cb)];
            && PlanOf(all) == PlanOf(b) + [Y] + [Y] + [Cr] + [Cb]
            && Lumas(all) == Lumas(b) + [m.y1, m.y2]
            && PredictorAfter(all, Y) == m.y2[0] && PredictorAfter(all, Cr) == m.cr[0]
            && PredictorAfter(all, Cb) == m.cb[0]
  {
    hide PlanOf, PredictorAfter, Lumas;
    var y1, y2, cr, cb := CodedBlock(Y, m.y1), CodedBlock(Y, m.y2), CodedBlock(Cr, m.cr), CodedBlock(Cb, m.cb);
    ScanSnoc(b, y1);
    ScanSnoc(b + [y1], y2);
    ScanSnoc(b + [y1] + [y2], cr);
    ScanSnoc(b + [y1] + [y2] + [cr], cb);
  }

  /** Coding the MCUs is coding their blocks, each with the tables and the predictor of its component. */
  lemma {:induction false} McusAreScan(ts: Tables, mcus: seq<Mcu>)
    ensures McusCodable(ts.dcY, ts.acY, ts.dcC, ts.acC, mcus) <==> ScanCodable(ts, BlocksOf(mcus))
    ensures McusAvoidLast(ts.dcY, ts.acY, ts.dcC, ts.acC, mcus) <==> ScanAvoidsLast(ts, BlocksOf(mcus))
    ensures McusCodable(ts.dcY, ts.acY, ts.dcC, ts.acC, mcus) ==>
              EncodeMcus(ts.dcY, ts.acY, ts.dcC, ts.acC, mcus) == EncodeScan(ts, BlocksOf(mcus))
  {
    hide PredictorAfter, ScanCodable, ScanAvoidsLast, EncodeScan, BlockCodable, BlockAvoidsLast, EncodeBlock;
    if mcus == [] {
      EmptyScan(ts);
    } else {
      var before, m := mcus[..|mcus| - 1], mcus[|mcus| - 1];
      McusAreScan(ts, before);
      McuBlocks(before);
      var b := BlocksOf(before);
      var y1, y2, cr, cb := CodedBlock(Y, m.y1), CodedBlock(Y, m.y2), CodedBlock(Cr, m.cr), CodedBlock(Cb, m.cb);
      ScanSnoc(b, y1);
      ScanSnoc(b + [y1], y2);
      ScanSnoc(b + [y1] + [y2], cr);
      CodeSnoc(ts, b, y1, ts.dcY, ts.acY, LastY(before));
      CodeSnoc(ts, b + [y1], y2, ts.dcY, ts.acY, m.y1[0]);
      CodeSnoc(ts, b + [y1] + [y2], cr, ts.dcC, ts.acC, LastCr(before));
      CodeSnoc(ts, b + [y1] + [y2] + [cr], cb, ts.dcC, ts.acC, LastCb(before));
    }
  }

  lemma EmptyScan(ts: Tables)
    ensures ScanCodable(ts, []) && ScanAvoidsLast(ts, []) && EncodeScan(ts, []) == []
  {
  }

  /** The scan branch of the decoder on a picture whose scan holds the code of `cnt` MCUs: it succeeds
      exactly when none of them needs the last code of a table, and then returns the luma blocks. */
  method DecodeEncodedScan(mem: Memory, p: nat, ht: ScanTables, cnt: nat, ghost mcus: seq<Mcu>)
    returns (ok: bool, lumas: seq<seq<int>>)
    requires ht.Valid() && cnt == |mcus|
    requires Decodable(ht.dcY.entries) && Decodable(ht.acY.entries)
    requires Decodable(ht.dcC.entries) && Decodable(ht.acC.entries)
    requires McusCodable(ht.dcY.entries, ht.acY.entries, ht.dcC.entries, ht.acC.entries, mcus)
    requires var bytes := Pack(EncodeMcus(ht.dcY.entries, ht.acY.entries, ht.dcC.entries, ht.acC.entries, mcus));
             HoldsAt(mem, p, Stuff(bytes)) && StuffingSafe(bytes)
    ensures ok <==> McusAvoidLast(ht.dcY.entries, ht.acY.entries, ht.dcC.entries, ht.acC.entries, mcus)
    ensures ok ==>
              |lumas| == 2 * cnt &&
              forall i :: 0 <= i < cnt ==> lumas[2 * i] == mcus[i].y1 && lumas[2 * i + 1] == mcus[i].y2
  {
    hide DecodePlan, EncodeScan, ScanCodable, ScanAvoidsLast, Pack, StreamOf, EncodeMcus, McusCodable, McusAvoidLast;
    hide Stuff, HoldsAt, StuffingSafe, McuPlan, BlocksOf, Lumas, Decodable;
    ghost var ts := ht.Entries();
    McusAreScan(ts, mcus);
    McuBlocks(mcus);
    var table := new int[TABLE_LENGTH];
    ScanRoundTrip.ScanRoundTrip(ts, mem, p, BlocksOf(mcus), table[..]);
    var reader := new BitReader(mem, p);
    ok, lumas := reader.DecodeScan(ht, cnt, table);
  }
}
