/** Byte stuffing of entropy-coded data (ITU-T T.81, section F.1.2.3) and the way
    processJPEG_onlyCenter.c undoes it. */
module Stuffing {
  import opened Words
  import opened BitStreams

  /** The bytes from the picture pointer on. `fgetc_` has no bounds check, so every index has a byte. */
  type Memory = nat -> byte

  ghost predicate HoldsAt(mem: Memory, p: nat, s: seq<byte>) {
    forall i :: 0 <= i < |s| ==> mem(p + i) == s[i]
  }

  // ---------------------------------------------------------------- the standard's side

  function StuffByte(c: byte): (s: seq<byte>) {
    if c == 0xFF then [c, 0] else [c]
  }

  /** Section F.1.2.3: a zero byte follows every 0xFF data byte. */
  function Stuff(d: seq<byte>): (s: seq<byte>) {
    if d == [] then [] else Stuff(d[..|d| - 1]) + StuffByte(d[|d| - 1])
  }

  /** Where data byte `i` lies in the stuffed text. */
  function Offset(d: seq<byte>, i: nat): (r: nat)
    requires i <= |d|
  {
    |Stuff(d[..i])|
  }

  lemma OffsetStart(d: seq<byte>)
    ensures Offset(d, 0) == 0
  {
  }

  lemma OffsetStep(d: seq<byte>, i: nat)
    requires i < |d|
    ensures Offset(d, i + 1) == Offset(d, i) + |StuffByte(d[i])|
  {
    assert d[..i + 1][..i] == d[..i];
  }

  lemma {:induction false} StuffedAt(d: seq<byte>, i: nat, mem: Memory, p: nat)
    requires i < |d| && HoldsAt(mem, p, Stuff(d))
    ensures mem(p + Offset(d, i)) == d[i]
    ensures d[i] == 0xFF ==> mem(p + Offset(d, i) + 1) == 0
  {
    var n := |d| - 1;
    var s := Stuff(d);
    assert s == Stuff(d[..n]) + StuffByte(d[n]);
    if i < n {
      forall k | 0 <= k < |Stuff(d[..n])|
        ensures mem(p + k) == Stuff(d[..n])[k]
      {
        assert s[k] == Stuff(d[..n])[k];
      }
      StuffedAt(d[..n], i, mem, p);
      assert d[..n][..i] == d[..i];
    } else {
      var o := |Stuff(d[..n])|;
      assert s[o] == d[n] && mem(p + o) == s[o];
      if d[n] == 0xFF {
        assert s[o + 1] == 0;
        assert mem(p + (o + 1)) == s[o + 1];
        assert p + (o + 1) == p + o + 1;
      }
    }
  }

  // ---------------------------------------------------------------- the decoder's side

  /** Where the decoder reads next, and whether the byte it put into the window last was a 0xFF
      that it checks for stuffing. */
  datatype Cursor = Cursor(pos: nat, afterFF: bool)

  /** The byte that goes into the window next. */
  function Emitted(mem: Memory, c: Cursor): (r: byte) {
    if c.afterFF && mem(c.pos) == 0 then mem(c.pos + 1) else mem(c.pos)
  }

  /** The byte placed after a checked 0xFF is not itself checked. */
  function Advance(mem: Memory, c: Cursor): (r: Cursor) {
    if c.afterFF then
      Cursor(if mem(c.pos) == 0 then c.pos + 2 else c.pos + 1, false)
    else
      Cursor(c.pos + 1, mem(c.pos) == 0xFF)
  }

  /** The cursor after `i` bytes went into the window; the first two go in unchecked. */
  function CursorAt(mem: Memory, p: nat, i: nat): (c: Cursor) {
    if i <= 2 then Cursor(p + i, false) else Advance(mem, CursorAt(mem, p, i - 1))
  }

  /** Byte `i` of the stream the window is filled from. */
  function FedByte(mem: Memory, p: nat, i: nat): (r: byte) {
    Emitted(mem, CursorAt(mem, p, i))
  }

  function BitOfByte(c: byte, k: nat): (r: bit)
    requires k < 8
  {
    Down(c, 7 - k) % 2
  }

  /** The bit stream that the decoder consumes. */
  function StreamOf(mem: Memory, p: nat): (b: Stream) {
    (i: nat) => BitOfByte(FedByte(mem, p, i / 8), i % 8)
  }

  lemma {:induction false} BytePrefix(b: Stream, pos: nat, c: byte, n: nat)
    requires n <= 8
    requires forall k :: 0 <= k < 8 ==> b(pos + k) == BitOfByte(c, k)
    ensures Val(b, pos, n) == Down(c, 8 - n)
  {
    if n == 0 {
      Pow2Values();
      LowSmall(c, 8);
    } else {
      BytePrefix(b, pos, c, n - 1);
      assert b(pos + (n - 1)) == BitOfByte(c, n - 1);
      assert pos + (n - 1) == pos + n - 1;
      DownDown(c, 8 - n, 1);
      assert 8 - n + 1 == 8 - (n - 1);
      assert Down(Down(c, 8 - n), 1) == Down(c, 8 - n) / 2;
    }
  }

  /** Eight bits from a byte boundary on spell the byte. */
  lemma ByteVal(mem: Memory, p: nat, i: nat)
    ensures Val(StreamOf(mem, p), 8 * i, 8) == FedByte(mem, p, i)
  {
    var b := StreamOf(mem, p);
    forall k | 0 <= k < 8
      ensures b(8 * i + k) == BitOfByte(FedByte(mem, p, i), k)
    {
      assert (8 * i + k) / 8 == i && (8 * i + k) % 8 == k;
    }
    BytePrefix(b, 8 * i, FedByte(mem, p, i), 8);
  }

  // ---------------------------------------------------------------- when the two agree

  /** A 0xFF data byte whose stuffed zero the decoder does not remove. */
  predicate Unhandled(d: seq<byte>, i: nat)
    requires i < |d|
  {
    d[i] == 0xFF && (i < 2 || d[i - 1] == 0xFF)
  }

  predicate StuffingSafe(d: seq<byte>) {
    forall i, k :: 0 <= i < k < |d| && Unhandled(d, i) ==> d[k] == 0
  }

  ghost predicate Undone(mem: Memory, p: nat, d: seq<byte>) {
    forall i :: 0 <= i < |d| ==> FedByte(mem, p, i) == d[i]
  }

  /** While no 0xFF was left unhandled, the decoder is in step with the data. */
  lemma {:induction false} InStep(mem: Memory, p: nat, d: seq<byte>, i: nat)
    requires HoldsAt(mem, p, Stuff(d)) && i <= |d|
    requires forall k :: 0 <= k < i ==> !Unhandled(d, k)
    ensures CursorAt(mem, p, i) ==
            if i > 0 && d[i - 1] == 0xFF then Cursor(p + Offset(d, i) - 1, true)
            else Cursor(p + Offset(d, i), false)
    ensures i < |d| ==> FedByte(mem, p, i) == d[i]
  {
    hide Stuff;
    OffsetStart(d);
    if i > 0 {
      assert !Unhandled(d, i - 1);
      InStep(mem, p, d, i - 1);
      OffsetStep(d, i - 1);
      StuffedAt(d, i - 1, mem, p);
      if i > 1 {
        OffsetStep(d, i - 2);
        StuffedAt(d, i - 2, mem, p);
      }
    }
    if i < |d| {
      StuffedAt(d, i, mem, p);
    }
  }

  /** After the first unhandled 0xFF the decoder lags one byte behind, so as long as the data
      stays zero it feeds zeros. */
  lemma {:induction false} OneBehind(mem: Memory, p: nat, d: seq<byte>, u: nat, i: nat)
    requires HoldsAt(mem, p, Stuff(d)) && u < i <= |d| && Unhandled(d, u)
    requires forall k :: 0 <= k < u ==> !Unhandled(d, k)
    requires forall k :: u < k < i ==> d[k] == 0
    ensures CursorAt(mem, p, i) == Cursor(p + Offset(d, i) - 1, false)
    ensures FedByte(mem, p, i) == 0
  {
    hide Stuff;
    OffsetStep(d, i - 1);
    StuffedAt(d, i - 1, mem, p);
    if i == u + 1 {
      InStep(mem, p, d, u);
      if u >= 2 {
        OffsetStep(d, u - 1);
        StuffedAt(d, u - 1, mem, p);
      } else if u == 1 {
        assert !Unhandled(d, 0);
      }
    } else {
      OneBehind(mem, p, d, u, i - 1);
      if i <= 2 {
        assert i == 2 && u == 0;
      }
    }
  }

  lemma {:induction false} FirstUnhandled(d: seq<byte>, i: nat) returns (u: nat)
    requires i < |d| && Unhandled(d, i)
    ensures u <= i && Unhandled(d, u) && forall k :: 0 <= k < u ==> !Unhandled(d, k)
  {
    if k :| 0 <= k < i && Unhandled(d, k) {
      u := FirstUnhandled(d, k);
    } else {
      u := i;
    }
  }

  lemma {:induction false} ZerosAfter(mem: Memory, p: nat, d: seq<byte>, u: nat, i: nat)
    requires HoldsAt(mem, p, Stuff(d)) && u < i <= |d| && Unhandled(d, u)
    requires forall k :: 0 <= k < u ==> !Unhandled(d, k)
    requires Undone(mem, p, d)
    ensures forall k :: u < k < i ==> d[k] == 0
  {
    if i > u + 1 {
      ZerosAfter(mem, p, d, u, i - 1);
      OneBehind(mem, p, d, u, i - 1);
    }
  }

  /** The decoder recovers stuffed data exactly when every 0xFF among the first two bytes, and
      every 0xFF right after another one, has nothing but zero bytes behind it. */
  lemma UndoneIffSafe(mem: Memory, p: nat, d: seq<byte>)
    requires HoldsAt(mem, p, Stuff(d))
    ensures Undone(mem, p, d) <==> StuffingSafe(d)
  {
    if StuffingSafe(d) {
      forall i | 0 <= i < |d|
        ensures FedByte(mem, p, i) == d[i]
      {
        if k :| 0 <= k < i && Unhandled(d, k) {
          var u := FirstUnhandled(d, k);
          OneBehind(mem, p, d, u, i);
        } else {
          InStep(mem, p, d, i);
        }
      }
    }
    if Undone(mem, p, d) {
      forall i, k | 0 <= i < k < |d| && Unhandled(d, i)
        ensures d[k] == 0
      {
        var u := FirstUnhandled(d, i);
        ZerosAfter(mem, p, d, u, |d|);
      }
    }
  }
}
