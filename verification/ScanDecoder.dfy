/** The decoder's code, proved against the bit-stream functions of EntropyDecoder. */
module ScanDecoder {
  import opened Options
  import opened Words
  import opened BitStreams
  import opened Stuffing
  import opened HuffmanTables
  import opened EntropyDecoder

  /** The largest size that `mask` has an entry for. */
  ghost predicate DcSymbols(t: seq<Entry>) {
    forall k :: 0 <= k < |t| ==> t[k].symbol <= 16
  }

  /** The matching loop of `readXC` over the lookup arrays. */
  method Lookup(t: HuffmanTable, data: word) returns (res: int, bitsUsed: nat)
    requires t.Valid()
    ensures var k := FirstInWindow(t.entries, data, 0);
            if k + 1 < |t.entries| then res == t.entries[k].symbol && bitsUsed == t.entries[k].len
            else res == -1 && bitsUsed == 0
  {
    var ind := 0;
    var done := false;
    bitsUsed := 0;
    res := -1;
    while !done
      invariant ind == 0 || ind < t.size
      invariant !done ==> FirstInWindow(t.entries, data, 0) == FirstInWindow(t.entries, data, ind)
      invariant done ==> ind > 0 && FirstInWindow(t.entries, data, 0) == ind - 1
      invariant done ==> bitsUsed == t.entries[ind - 1].len && res == t.entries[ind - 1].symbol
      decreases !done, t.size - ind
    {
      if And(data, t.mask[ind]) == t.bits[ind] {
        res := t.code[ind];
        bitsUsed := t.bitlen[ind];
        done := true;
      }
      assert ind < t.size ==> t.Row(ind, t.entries[ind]);
      ind := ind + 1;
      if ind >= t.size {
        return -1, 0;
      }
    }
  }

  class BitReader {
    const mem: Memory
    const start: nat
    var gpos: nat
    var data: word
    var bitlen: nat
    /** How many bits of the stream have been consumed, and how many bytes went into the window. */
    ghost var used: nat
    ghost var fed: nat

    ghost function Bits(): (b: Stream) {
      StreamOf(mem, start)
    }

    ghost predicate Valid()
      reads this
    {
      && bitlen <= 31 && used + bitlen == 8 * fed && fed >= 2
      && CursorAt(mem, start, fed) == Cursor(gpos, false)
      && data == Window(Bits(), used, bitlen)
    }

    /** The first two bytes are loaded without looking for stuffing. */
    constructor (mem: Memory, start: nat)
      ensures Valid() && bitlen == 16 && used == 0
      ensures this.mem == mem && this.start == start
    {
      hide Window, StreamOf, CursorAt;
      FirstCursor(mem, start);
      this.mem := mem;
      this.start := start;
      data := LoadTwo(mem, start, 16);
      gpos := start + 2;
      bitlen := 16;
      used := 0;
      fed := 2;
    }

    method Fgetc() returns (uc: byte)
      modifies this`gpos
      ensures uc == mem(old(gpos)) && gpos == old(gpos) + 1
    {
      uc := mem(gpos);
      gpos := gpos + 1;
    }

    /** One byte below the unread bits. */
    method Place(uc: byte)
      requires bitlen <= 24 && data == Window(Bits(), used, bitlen)
      requires used + bitlen == 8 * fed && uc == FedByte(mem, start, fed)
      modifies this`data, this`bitlen, this`fed
      ensures bitlen == old(bitlen) + 8 && fed == old(fed) + 1
      ensures data == Window(Bits(), used, bitlen)
    {
      FedIntoWindow(mem, start, used, bitlen, fed);
      data := Or(data, Shl32(uc, 24 - bitlen));
      bitlen := bitlen + 8;
      fed := fed + 1;
    }

    /** One pass of the refill loop: a byte, and the one behind it if that was a 0xFF. */
    method RefillOnce()
      requires Valid() && bitlen < 16
      modifies this`gpos, this`data, this`bitlen, this`fed
      ensures Valid() && bitlen > old(bitlen)
    {
      hide Val, StreamOf;
      CursorStep(mem, start, fed);
      var uc := Fgetc();
      Place(uc);
      if uc == 0xFF {
        CursorStep(mem, start, fed);
        uc := Fgetc();
        if uc == 0 {
          uc := Fgetc();
        }
        Place(uc);
      }
    }

    /** The refill loop that `readXC` runs before and after matching. */
    method Refill()
      requires Valid()
      modifies this`gpos, this`data, this`bitlen, this`fed
      ensures Valid() && bitlen >= 16
    {
      while bitlen < 16
        invariant Valid()
        decreases 31 - bitlen
      {
        RefillOnce();
      }
    }

    method Drop(n: nat)
      requires Valid() && n <= bitlen
      modifies this`data, this`bitlen, this`used
      ensures Valid() && bitlen == old(bitlen) - n && used == old(used) + n
    {
      hide CursorAt, Window, StreamOf;
      WindowDrop(Bits(), used, bitlen, n);
      data := Shl32(data, n);
      bitlen := bitlen - n;
      used := used + n;
    }

    /** `readXC`: find the entry that the window starts with, and consume its code. */
    method ReadXC(t: HuffmanTable) returns (res: int)
      requires Valid() && t.Valid()
      modifies this`gpos, this`data, this`bitlen, this`used, this`fed
      ensures Valid() && 16 <= bitlen
      ensures match ReadSymbol(t.entries, Bits(), old(used))
              case NoSymbol => res == -1 && used == old(used)
              case Symbol(v, next) => res == v && used == next
    {
      Refill();
      WindowFinds(t.entries, Bits(), used, bitlen, 0);
      var bitsUsed;
      res, bitsUsed := Lookup(t, data);
      if res == -1 {
        return;
      }
      Drop(bitsUsed);
      Refill();
    }

    /** `(data >> (32 - n)) & mask[n]`, and `n` bits consumed. */
    method TakeBits(n: nat) returns (v: nat)
      requires Valid() && n <= 16 <= bitlen
      modifies this`data, this`bitlen, this`used
      ensures Valid() && used == old(used) + n && v == Val(Bits(), old(used), n)
    {
      TopBits(data, n);
      WindowTop(Bits(), used, bitlen, n);
      v := And(Asr32(data, 32 - n), Pow2(n) - 1);
      Drop(n);
    }

    /** One pass of the run/size loop: a symbol, and the coefficient that it announces. */
    method AcStep(ac: HuffmanTable, table: array<int>, at: nat) returns (j: nat, eob: bool, failed: bool)
      requires Valid() && ac.Valid() && table.Length == TABLE_LENGTH && at < 63
      modifies this`gpos, this`data, this`bitlen, this`used, this`fed, table
      ensures Valid()
      ensures AcPass(ac.entries, Bits(), old(used), at, old(table[..])) ==
              if failed then NoCode else Pass(j, eob, table[..], used)
      ensures failed ==> table[..] == old(table[..]) && used == old(used)
    {
      hide CursorAt, Window, StreamOf, FirstMatch, ReadSymbol, Extend;
      j, eob, failed := at, false, false;
      var comb := ReadXC(ac);
      if comb < 0 {
        failed := true;
        return;
      }
      var val := comb % 16;
      var repeat := comb / 16;
      if val == 0 {
        if repeat == 0x0F {
          j := j + 16;
        } else {
          eob := true;
        }
      } else {
        j := j + repeat;
        var x := TakeBits(val);
        table[j + 1] := Extend(x, val);
        j := j + 1;
        assert table[..] == old(table[..])[j := Extend(x, val)];
      }
    }

    /** The run/size loop of `readTable`. */
    method ReadAC(ac: HuffmanTable, table: array<int>, ghost dc: int) returns (res: int)
      requires Valid() && ac.Valid() && table.Length == TABLE_LENGTH
      modifies this`gpos, this`data, this`bitlen, this`used, this`fed, table
      ensures Valid()
      ensures AcLoop(ac.entries, Bits(), old(used), 0, old(table[..]), dc) == Block(res == 0, table[..], dc, used)
      ensures res == 0 || res == -1
    {
      var j := 0;
      var eob, failed := false, false;
      ghost var whole := AcLoop(ac.entries, Bits(), used, j, table[..], dc);
      while j < 63 && !eob
        invariant Valid() && j <= 78
        invariant !eob ==> whole == AcLoop(ac.entries, Bits(), used, j, table[..], dc)
        invariant eob ==> j <= 63 && whole == Block(true, table[..], dc, used)
        decreases !eob, 78 - j
      {
        j, eob, failed := AcStep(ac, table, j);
        if failed {
          return -1;
        }
      }
      return if j <= 63 then 0 else -1;
    }

    /** The DC part of `readTable`. */
    method ReadDC(dc: HuffmanTable, lastDC: int) returns (ok: bool, newDC: int)
      requires Valid() && dc.Valid() && DcSymbols(dc.entries)
      modifies this`gpos, this`data, this`bitlen, this`used, this`fed
      ensures Valid() && (!ok ==> used == old(used))
      ensures DecodeDc(dc.entries, Bits(), old(used), lastDC) == if ok then Dc(newDC, used) else NoDc
    {
      var size := ReadXC(dc);
      if size < 0 {
        return false, lastDC;
      }
      var x := TakeBits(size);
      return true, Extend(x, size) + lastDC;
    }

    /** `readTable`. */
    method ReadTable(dc: HuffmanTable, ac: HuffmanTable, lastDC: int, table: array<int>)
      returns (res: int, newDC: int)
      requires Valid() && dc.Valid() && ac.Valid() && DcSymbols(dc.entries)
      requires table.Length == TABLE_LENGTH
      modifies this`gpos, this`data, this`bitlen, this`used, this`fed, table
      ensures Valid()
      ensures DecodeBlock(dc.entries, ac.entries, Bits(), old(used), lastDC, old(table[..]))
              == Block(res == 0, table[..], newDC, used)
      ensures res == 0 || res == -1
    {
      ClearCoefficients(table);
      var ok;
      ok, newDC := ReadDC(dc, lastDC);
      if !ok {
        return -1, lastDC;
      }
      table[0] := newDC;
      assert table[..] == Zeroed(old(table[..]))[0 := newDC];
      res := ReadAC(ac, table, newDC);
    }
  
    /** `readTable` for one component, with its predictor. */
    method ReadComponent(c: Component, ht: ScanTables, pred: int, table: array<int>, ghost s: Scan)
      returns (ok: bool, newPred: int, ghost s': Scan)
      requires Valid() && ht.Valid() && table.Length == TABLE_LENGTH
      requires s.next == used && s.table == table[..] && s.Predictor(c) == pred
      modifies this`gpos, this`data, this`bitlen, this`used, this`fed, table
      ensures Valid()
      ensures DecodeComponent(ht.Entries(), Bits(), s, c) == if ok then Some(s') else None
      ensures ok ==> s' == s.Took(c, Block(true, table[..], newPred, used))
    {
      var res;
      if c.Y? {
        res, newPred := ReadTable(ht.dcY, ht.acY, pred, table);
      } else {
        res, newPred := ReadTable(ht.dcC, ht.acC, pred, table);
      }
      ok := res == 0;
      s' := s.Took(c, Block(true, table[..], newPred, used));
    }

    /** The two luma blocks of an MCU. */
    method ReadLumas(ht: ScanTables, pred: int, table: array<int>, ghost s: Scan)
      returns (ok: bool, newPred: int, lumas: seq<seq<int>>, ghost s': Scan)
      requires Valid() && ht.Valid() && table.Length == TABLE_LENGTH
      requires s.next == used && s.table == table[..] && s.dcY == pred
      modifies this`gpos, this`data, this`bitlen, this`used, this`fed, table
      ensures Valid()
      ensures Then(ht.Entries(), Bits(), Then(ht.Entries(), Bits(), Some(s), Y), Y) == if ok then Some(s') else None
      ensures ok ==> s'.next == used && s'.table == table[..] && s'.dcY == newPred && s'.lumas == s.lumas + lumas
      ensures ok ==> s'.dcCr == s.dcCr && s'.dcCb == s.dcCb
    {
      hide DecodeComponent;
      lumas, s' := [], s;
      ok, newPred, s' := ReadComponent(Component.Y, ht, pred, table, s');
      if !ok {
        return;
      }
      lumas := lumas + [table[..64]];
      ok, newPred, s' := ReadComponent(Component.Y, ht, newPred, table, s');
      lumas := lumas + [table[..64]];
    }

    /** The two chroma blocks of an MCU. */
    method ReadChromas(ht: ScanTables, preds: (int, int), table: array<int>, ghost s: Scan)
      returns (ok: bool, news: (int, int), ghost s': Scan)
      requires Valid() && ht.Valid() && table.Length == TABLE_LENGTH
      requires s.next == used && s.table == table[..] && preds == (s.dcCr, s.dcCb)
      modifies this`gpos, this`data, this`bitlen, this`used, this`fed, table
      ensures Valid()
      ensures Then(ht.Entries(), Bits(), Then(ht.Entries(), Bits(), Some(s), Cr), Cb) == if ok then Some(s') else None
      ensures ok ==> s'.next == used && s'.table == table[..] && news == (s'.dcCr, s'.dcCb)
      ensures ok ==> s'.dcY == s.dcY && s'.lumas == s.lumas
    {
      hide DecodeComponent;
      var cr, cb := preds.0, preds.1;
      news, s' := preds, s;
      ok, cr, s' := ReadComponent(Component.Cr, ht, cr, table, s');
      if !ok {
        return;
      }
      ok, cb, s' := ReadComponent(Component.Cb, ht, cb, table, s');
      news := (cr, cb);
    }

    /** The body of the MCU loop. */
    method ReadMcu(ht: ScanTables, preds: (int, int, int), table: array<int>, ghost s: Scan)
      returns (ok: bool, news: (int, int, int), lumas: seq<seq<int>>, ghost s': Scan)
      requires Valid() && ht.Valid() && table.Length == TABLE_LENGTH
      requires s.next == used && s.table == table[..] && preds == (s.dcY, s.dcCr, s.dcCb)
      modifies this`gpos, this`data, this`bitlen, this`used, this`fed, table
      ensures Valid()
      ensures DecodeMcu(ht.Entries(), Bits(), s) == if ok then Some(s') else None
      ensures ok ==> s'.next == used && s'.table == table[..] && news == (s'.dcY, s'.dcCr, s'.dcCb)
      ensures ok ==> s'.lumas == s.lumas + lumas
    {
      hide DecodeComponent;
      var y, c := preds.0, (preds.1, preds.2);
      news := preds;
      ok, y, lumas, s' := ReadLumas(ht, y, table, s);
      if !ok {
        return;
      }
      ok, c, s' := ReadChromas(ht, c, table, s');
      news := (y, c.0, c.1);
    }

    /** The MCU loop: the luma blocks of `cnt` MCUs, or an error. */
    method DecodeScan(ht: ScanTables, cnt: nat, table: array<int>) returns (ok: bool, lumas: seq<seq<int>>)
      requires Valid() && ht.Valid() && table.Length == TABLE_LENGTH
      modifies this`gpos, this`data, this`bitlen, this`used, this`fed, table
      ensures match DecodePlan(ht.Entries(), Bits(), Scan(old(used), 0, 0, 0, old(table[..]), []), McuPlan(cnt))
              case None => !ok
              case Some(s) => ok && lumas == s.lumas
    {
      hide DecodeMcu, DecodePlan, McuPlan;
      PlanStart(ht.Entries(), Bits(), Scan(used, 0, 0, 0, table[..], []), 0);
      var preds := (0, 0, 0);
      lumas, ok := [], true;
      ghost var first := Scan(used, 0, 0, 0, table[..], []);
      ghost var s := first;
      for i := 0 to cnt
        invariant Valid()
        invariant ok && DecodePlan(ht.Entries(), Bits(), first, McuPlan(i)) == Some(s)
        invariant s.next == used && s.table == table[..] && preds == (s.dcY, s.dcCr, s.dcCb) && s.lumas == lumas
      {
        PlanMcu(ht.Entries(), Bits(), first, i);
        var more;
        ok, preds, more, s := ReadMcu(ht, preds, table, s);
        if !ok {
          PlanStaysBad(ht.Entries(), Bits(), first, i + 1, cnt);
          return;
        }
        lumas := lumas + more;
      }
    }
  }

  /** The four lookup tables a scan uses. */
  datatype ScanTables = ScanTables(dcY: HuffmanTable, acY: HuffmanTable, dcC: HuffmanTable, acC: HuffmanTable) {
    ghost predicate Valid()
      reads dcY, dcY.bitlen, dcY.bits, dcY.mask, dcY.code
      reads acY, acY.bitlen, acY.bits, acY.mask, acY.code
      reads dcC, dcC.bitlen, dcC.bits, dcC.mask, dcC.code
      reads acC, acC.bitlen, acC.bits, acC.mask, acC.code
    {
      && dcY.Valid() && acY.Valid() && dcC.Valid() && acC.Valid()
      && DcSymbols(dcY.entries) && DcSymbols(dcC.entries)
    }

    ghost function Entries(): (ts: Tables)
      ensures ts.dcY == dcY.entries && ts.acY == acY.entries && ts.dcC == dcC.entries && ts.acC == acC.entries
      reads dcY, acY, dcC, acC
    {
      Tables(dcY.entries, acY.entries, dcC.entries, acC.entries)
    }
  }

  method ClearCoefficients(table: array<int>)
    requires table.Length == TABLE_LENGTH
    modifies table
    ensures table[..] == Zeroed(old(table[..]))
  {
    for j := 0 to 64
      invariant forall i :: 0 <= i < j ==> table[i] == 0
      invariant forall i :: j <= i < TABLE_LENGTH ==> table[i] == old(table[i])
    {
      table[j] := 0;
    }
  }

  lemma FirstCursor(mem: Memory, p: nat)
    ensures CursorAt(mem, p, 2) == Cursor(p + 2, false)
  {
  }

  lemma CursorStep(mem: Memory, p: nat, n: nat)
    requires n >= 2
    ensures CursorAt(mem, p, n + 1) == Advance(mem, CursorAt(mem, p, n))
  {
  }

  lemma FedIntoWindow(mem: Memory, p: nat, used: nat, n: nat, fed: nat)
    requires n <= 24 && used + n == 8 * fed
    ensures Or(Window(StreamOf(mem, p), used, n), Shl32(FedByte(mem, p, fed), 24 - n))
            == Window(StreamOf(mem, p), used, n + 8) < 0x1_0000_0000
  {
    hide StreamOf, Val, Or;
    ByteVal(mem, p, fed);
    PutByte(StreamOf(mem, p), used, n, FedByte(mem, p, fed));
    WindowIsWord(StreamOf(mem, p), used, n + 8);
  }

  /** The word loaded from the first two bytes. */
  function LoadTwo(mem: Memory, p: nat, n: nat): (r: word)
    requires n == 16
    ensures r == Window(StreamOf(mem, p), 0, n)
  {
    FirstTwo(mem, p, n);
    Or(Shl32(mem(p), 24), Shl32(mem(p + 1), 16))
  }

  lemma FirstTwo(mem: Memory, p: nat, n: nat)
    requires n == 16
    ensures Or(Shl32(mem(p), 24), Shl32(mem(p + 1), 16)) == Window(StreamOf(mem, p), 0, n) < 0x1_0000_0000
  {
    var b := StreamOf(mem, p);
    assert Val(b, 0, 8) == mem(p) by { ByteVal(mem, p, 0); }
    FedIntoWindow(mem, p, 0, n - 8, 1);
    ShiftedByte(mem(p), 24);
  }
}
