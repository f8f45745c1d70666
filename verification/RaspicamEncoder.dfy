/** The raspicam encoder callback: a frame arrives in pieces, and the frame mutex is held from the
    first piece to the one that ends the frame. */
module RaspicamEncoder {
  import opened Words
  import opened Sequences

  /** One buffer from the encoder at some time; `end` is FRAME_END or TRANSMISSION_FAILED. */
  datatype Piece = Piece(payload: seq<byte>, end: bool, time: int)

  /** The shared frame, how much of the next one is stored, and whether the callback has the mutex. */
  datatype Shared = Shared(buf: seq<byte>, size: nat, stamp: int, offset: nat, held: bool) {
    predicate Valid() {
      offset <= |buf| && (held <==> offset > 0)
    }
  }

  /** `memcpy` to an offset of the shared buffer. */
  function CopyInto(buf: seq<byte>, offset: nat, data: seq<byte>): (r: seq<byte>)
    requires offset <= |buf|
    ensures |r| >= offset + |data| && r[..offset + |data|] == buf[..offset] + data
  {
    buf[..offset] + data + (if offset + |data| < |buf| then buf[offset + |data|..] else [])
  }

  /** The payload is stored, under the mutex. */
  function Collect(s: Shared, payload: seq<byte>): (r: Shared)
    requires s.Valid()
    ensures r.Valid()
  {
    if payload == [] then s
    else Shared(CopyInto(s.buf, s.offset, payload), s.size, s.stamp, s.offset + |payload|, true)
  }

  /** The frame is complete: its size, its time if wanted, and the mutex is free. */
  function Finish(s: Shared, time: int, want: bool): (r: Shared)
    requires s.Valid()
    ensures r.Valid() && r.size <= |r.buf|
  {
    Shared(s.buf, s.offset, if want then time else s.stamp, 0, false)
  }

  function Take(s: Shared, piece: Piece, want: bool): (r: Shared)
    requires s.Valid()
    ensures r.Valid() && (piece.end ==> r.size <= |r.buf|)
  {
    var c := Collect(s, piece.payload);
    if piece.end then Finish(c, piece.time, want) else c
  }

  /** The state after the first `n` pieces. */
  function TakeAll(s: Shared, pieces: seq<Piece>, n: nat, want: bool): (r: Shared)
    requires s.Valid() && n <= |pieces|
    ensures r.Valid()
  {
    if n == 0 then s else Take(TakeAll(s, pieces, n - 1, want), pieces[n - 1], want)
  }

  // ---------------------------------------------------------------- frames of a piece sequence

  /** All payloads from piece `lo` up to piece `hi`, in order. */
  function Joined(pieces: seq<Piece>, lo: nat, hi: nat): (r: seq<byte>)
    requires lo <= hi <= |pieces|
  {
    if lo == hi then [] else Joined(pieces, lo, hi - 1) + pieces[hi - 1].payload
  }

  /** The piece behind the last end flag among the first `n`. */
  function FrameStart(pieces: seq<Piece>, n: nat): (r: nat)
    requires n <= |pieces|
    ensures r <= n
  {
    if n == 0 then 0 else if pieces[n - 1].end then n else FrameStart(pieces, n - 1)
  }

  /** One frame for each end flag: the payloads since the end flag before it. */
  function Frames(pieces: seq<Piece>, n: nat): (r: seq<seq<byte>>)
    requires n <= |pieces|
  {
    if n == 0 then []
    else if pieces[n - 1].end then
      Frames(pieces, n - 1) + [Joined(pieces, FrameStart(pieces, n - 1), n)]
    else Frames(pieces, n - 1)
  }

  /** The times at which frames end. */
  function EndTimes(pieces: seq<Piece>, n: nat): (r: seq<int>)
    requires n <= |pieces|
    ensures |r| == |Frames(pieces, n)|
  {
    if n == 0 then []
    else if pieces[n - 1].end then EndTimes(pieces, n - 1) + [pieces[n - 1].time]
    else EndTimes(pieces, n - 1)
  }

  /** End flags that find nothing collected: each releases a mutex that is not held. */
  function EmptyEnds(pieces: seq<Piece>, n: nat): (r: nat)
    requires n <= |pieces|
  {
    if n == 0 then 0
    else
      EmptyEnds(pieces, n - 1) +
      (if pieces[n - 1].end && Joined(pieces, FrameStart(pieces, n - 1), n) == [] then 1 else 0)
  }

  lemma {:induction false} JoinedSplit(pieces: seq<Piece>, lo: nat, mid: nat, hi: nat)
    requires lo <= mid <= hi <= |pieces|
    ensures Joined(pieces, lo, hi) == Joined(pieces, lo, mid) + Joined(pieces, mid, hi)
  {
    if mid < hi {
      JoinedSplit(pieces, lo, mid, hi - 1);
    }
  }

  /** No byte of the encoder is lost, repeated or moved: the frames and what is pending are the
      payloads in order. */
  lemma {:induction false} FramesConserve(pieces: seq<Piece>, n: nat)
    requires n <= |pieces|
    ensures Flatten(Frames(pieces, n)) + Joined(pieces, FrameStart(pieces, n), n) == Joined(pieces, 0, n)
  {
    if n > 0 {
      FramesConserve(pieces, n - 1);
      var start := FrameStart(pieces, n - 1);
      JoinedSplit(pieces, start, n - 1, n);
      if pieces[n - 1].end {
        var frames := Frames(pieces, n - 1);
        assert Frames(pieces, n)[..|frames|] == frames;
        assert Flatten(Frames(pieces, n)) == Flatten(frames) + Joined(pieces, start, n);
      }
    }
  }

  /** There is no such end flag exactly when every frame has bytes. */
  lemma {:induction false} NoEmptyEndsIffNoEmptyFrame(pieces: seq<Piece>, n: nat)
    requires n <= |pieces|
    ensures EmptyEnds(pieces, n) == 0 <==> [] !in Frames(pieces, n)
  {
    if n > 0 {
      NoEmptyEndsIffNoEmptyFrame(pieces, n - 1);
    }
  }

  // ---------------------------------------------------------------- the callback

  /** Between callbacks the mutex is held exactly when part of a frame is stored, and that part is
      what came since the last end flag. */
  lemma {:induction false} StoredPart(s: Shared, pieces: seq<Piece>, n: nat, want: bool)
    requires s.Valid() && s.offset == 0 && n <= |pieces|
    ensures var r := TakeAll(s, pieces, n, want);
            (r.held <==> r.offset > 0) && r.buf[..r.offset] == Joined(pieces, FrameStart(pieces, n), n)
  {
    if n > 0 {
      StoredPart(s, pieces, n - 1, want);
    }
  }

  /** A piece that ends a frame leaves it in the shared buffer, with its size. */
  lemma FinishedFrame(s: Shared, pieces: seq<Piece>, n: nat, want: bool)
    requires s.Valid() && s.offset == 0 && n < |pieces| && pieces[n].end
    ensures var r := TakeAll(s, pieces, n + 1, want);
            r.size <= |r.buf| && r.buf[..r.size] == Joined(pieces, FrameStart(pieces, n), n + 1)
  {
    StoredPart(s, pieces, n, want);
    var before := TakeAll(s, pieces, n, want);
    assert TakeAll(s, pieces, n + 1, want) == Take(before, pieces[n], want);
  }

  /** A frame is empty when nothing is stored and nothing more comes. */
  lemma EmptyFrameIff(s: Shared, pieces: seq<Piece>, n: nat, want: bool)
    requires s.Valid() && s.offset == 0 && n < |pieces|
    ensures Joined(pieces, FrameStart(pieces, n), n + 1) == [] <==>
            pieces[n].payload == [] && !TakeAll(s, pieces, n, want).held
  {
    StoredPart(s, pieces, n, want);
    assert Joined(pieces, FrameStart(pieces, n), n + 1)
        == Joined(pieces, FrameStart(pieces, n), n) + pieces[n].payload;
  }

  class Encoder {
    const want: bool
    var offset: nat
    var held: bool
    var buf: seq<byte>
    var size: nat
    var stamp: int
    /** Every frame that was broadcast, and how often the mutex was released without being held. */
    ghost var published: seq<seq<byte>>
    ghost var stamps: seq<int>
    ghost var badReleases: nat

    ghost function Abs(): (s: Shared)
      reads this
    {
      Shared(buf, size, stamp, offset, held)
    }

    constructor (want: bool)
      ensures this.want == want && Abs() == Shared([], 0, 0, 0, false)
      ensures published == [] && stamps == [] && badReleases == 0
    {
      this.want := want;
      offset, held, buf, size, stamp := 0, false, [], 0, 0;
      published, stamps, badReleases := [], [], 0;
    }

    /** `encoder_buffer_callback`. */
    method Callback(piece: Piece)
      requires Abs().Valid()
      modifies this
      ensures Abs() == Take(old(Abs()), piece, want)
      ensures if piece.end then
                published == old(published) + [buf[..size]] && stamps == old(stamps) + [stamp]
              else published == old(published) && stamps == old(stamps)
      ensures !want ==> stamp == old(stamp)
      ensures want && piece.end ==> stamp == piece.time
      ensures badReleases == old(badReleases) + if piece.end && piece.payload == [] && !old(held) then 1 else 0
    {
      if |piece.payload| > 0 {
        if offset == 0 {
          held := true;
        }
        buf := CopyInto(buf, offset, piece.payload);
        offset := offset + |piece.payload|;
      }
      if piece.end {
        size := offset;
        if want {
          stamp := piece.time;
        }
        published, stamps := published + [buf[..size]], stamps + [stamp];
        offset := 0;
        if !held {
          badReleases := badReleases + 1;
        }
        held := false;
      }
    }

    /** Between any two callbacks the mutex is held exactly when part of a frame is stored; each
        broadcast frame is the payloads since the end flag before it. */
    method Session(pieces: seq<Piece>)
      requires Abs().Valid() && offset == 0 && published == [] && stamps == [] && badReleases == 0
      modifies this
      ensures Abs() == TakeAll(old(Abs()), pieces, |pieces|, want)
      ensures held <==> offset > 0
      ensures published == Frames(pieces, |pieces|)
      ensures stamps == if want then EndTimes(pieces, |pieces|) else seq(|published|, _ => old(stamp))
      ensures badReleases == 0 <==> [] !in published
    {
      hide Take, Joined, FrameStart;
      ghost var start := Abs();
      for n := 0 to |pieces|
        invariant Abs() == TakeAll(start, pieces, n, want)
        invariant published == Frames(pieces, n) && badReleases == EmptyEnds(pieces, n)
        invariant stamps == if want then EndTimes(pieces, n) else seq(|published|, _ => start.stamp)
        invariant !want ==> stamp == start.stamp
        invariant Abs().Valid()
      {
        EmptyFrameIff(start, pieces, n, want);
        if pieces[n].end {
          FinishedFrame(start, pieces, n, want);
        }
        Callback(pieces[n]);
      }
      NoEmptyEndsIffNoEmptyFrame(pieces, |pieces|);
    }
  }
}
