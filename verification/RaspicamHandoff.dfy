/** The raspicam callback as the writer of the hand-off protocol. */
module RaspicamHandoff {
  import opened Words
  import opened FrameHandoff
  import R = RaspicamEncoder

  /** The steps of one callback. An end flag stores the size and the time, broadcasts and unlocks,
      whether or not the mutex was locked. */
  function Steps(s: R.Shared, piece: R.Piece, want: bool): (run: seq<Action>)
    requires s.Valid()
  {
    var c := R.Collect(s, piece.payload);
    (if piece.payload == [] then []
     else (if s.offset == 0 then [WLock] else []) + [WStore(c.buf, c.size, c.stamp)]) +
    (if !piece.end then []
     else
       var f := R.Finish(c, piece.time, want);
       [WStore(f.buf, f.size, f.stamp), WBroadcast, WUnlock])
  }

  function AllSteps(s: R.Shared, pieces: seq<R.Piece>, n: nat, want: bool): (run: seq<Action>)
    requires s.Valid() && n <= |pieces|
  {
    if n == 0 then []
    else AllSteps(s, pieces, n - 1, want) + Steps(R.TakeAll(s, pieces, n - 1, want), pieces[n - 1], want)
  }

  // ---------------------------------------------------------------- the writer's part of a run

  /** The steps of a run that the writer makes. */
  function WriterPart(run: seq<Action>): (w: seq<Action>) {
    if run == [] then []
    else WriterPart(run[..|run| - 1]) + (if Actor(run[|run| - 1]) == Writer then [run[|run| - 1]] else [])
  }

  /** What only the writer changes. */
  datatype Board = Board(pc: WriterPc, buf: seq<byte>, size: nat, stamp: int, published: seq<Publication>)

  function BoardOf(h: State): (b: Board) {
    Board(h.writer, h.buf, h.size, h.stamp, h.published)
  }

  /** Whether the writer is at the right place for a step; the mutex is another matter. */
  predicate InTurn(b: Board, a: Action) {
    match a
    case WLock => b.pc.Outside?
    case WStore(_, _, _) => b.pc.Storing?
    case WBroadcast => b.pc.Storing? && b.size <= |b.buf|
    case WUnlock => b.pc.Signalled?
    case _ => false
  }

  function Written(b: Board, a: Action): (r: Board)
    requires InTurn(b, a)
  {
    match a
    case WLock => b.(pc := Storing)
    case WStore(buf, size, stamp) => b.(buf := buf, size := size, stamp := stamp)
    case WBroadcast => b.(pc := Signalled, published := b.published + [Publication(b.buf[..b.size], b.stamp)])
    case WUnlock => b.(pc := Outside)
  }

  predicate AllInTurn(b: Board, run: seq<Action>)
    decreases |run|, 0
  {
    run == [] || (AllInTurn(b, run[..|run| - 1]) && InTurn(WrittenAll(b, run[..|run| - 1]), run[|run| - 1]))
  }

  function WrittenAll(b: Board, run: seq<Action>): (r: Board)
    requires AllInTurn(b, run)
    decreases |run|, 1
  {
    if run == [] then b else Written(WrittenAll(b, run[..|run| - 1]), run[|run| - 1])
  }

  lemma OneOnBoard(h: State, a: Action)
    requires Enabled(h, a)
    ensures if Actor(a) == Writer then InTurn(BoardOf(h), a) && BoardOf(Apply(h, a)) == Written(BoardOf(h), a)
            else BoardOf(Apply(h, a)) == BoardOf(h)
  {
  }

  lemma TurnSnoc(b: Board, run: seq<Action>, a: Action)
    requires AllInTurn(b, run)
    ensures AllInTurn(b, run + [a]) <==> InTurn(WrittenAll(b, run), a)
    ensures InTurn(WrittenAll(b, run), a) ==> WrittenAll(b, run + [a]) == Written(WrittenAll(b, run), a)
  {
    assert (run + [a])[..|run|] == run;
  }

  /** In every interleaving the frame and the publications are those of the writer's steps alone. */
  lemma {:induction false} BoardOfRun(h: State, run: seq<Action>)
    requires Possible(h, run)
    ensures AllInTurn(BoardOf(h), WriterPart(run))
    ensures BoardOf(After(h, run)) == WrittenAll(BoardOf(h), WriterPart(run))
  {
    hide Enabled, Apply, InTurn, Written, Actor;
    if run != [] {
      var n := |run| - 1;
      BoardOfRun(h, run[..n]);
      OneOnBoard(After(h, run[..n]), run[n]);
      TurnSnoc(BoardOf(h), WriterPart(run[..n]), run[n]);
      if Actor(run[n]) != Writer {
        assert WriterPart(run) == WriterPart(run[..n]);
      }
    }
  }

  // ---------------------------------------------------------------- the callback's steps

  /** The writer has the mutex exactly when the callback does. */
  predicate Shows(b: Board, s: R.Shared) {
    b.pc == (if s.held then Storing else Outside) && b.buf == s.buf && b.size == s.size && b.stamp == s.stamp
  }

  predicate EmptyEnd(s: R.Shared, piece: R.Piece) {
    piece.end && piece.payload == [] && !s.held
  }

  lemma NoSteps(b: Board)
    ensures AllInTurn(b, []) && WrittenAll(b, []) == b
  {
  }

  lemma CollectSteps(b: Board, run: seq<Action>, s: R.Shared, payload: seq<byte>, lock: seq<Action>, store: Action)
    requires AllInTurn(b, run) && s.Valid() && Shows(WrittenAll(b, run), s) && payload != []
    requires lock == (if s.offset == 0 then [WLock] else [])
    requires store == WStore(R.Collect(s, payload).buf, s.size, s.stamp)
    ensures AllInTurn(b, run + lock + [store])
    ensures Shows(WrittenAll(b, run + lock + [store]), R.Collect(s, payload))
    ensures WrittenAll(b, run + lock + [store]).published == WrittenAll(b, run).published
  {
    hide AllInTurn, WrittenAll;
    if s.offset == 0 {
      TurnSnoc(b, run, WLock);
    } else {
      assert run + lock == run;
    }
    TurnSnoc(b, run + lock, store);
  }

  lemma FinishSteps(b: Board, run: seq<Action>, s: R.Shared, f: R.Shared)
    requires AllInTurn(b, run) && s.Valid() && Shows(WrittenAll(b, run), s)
    requires !f.held && f.size <= |f.buf|
    ensures var ends := [WStore(f.buf, f.size, f.stamp), WBroadcast, WUnlock];
            && (AllInTurn(b, run + ends) <==> s.held)
            && (s.held ==> Shows(WrittenAll(b, run + ends), f)
                           && WrittenAll(b, run + ends).published ==
                              WrittenAll(b, run).published + [Publication(f.buf[..f.size], f.stamp)])
  {
    hide AllInTurn, WrittenAll;
    var store := WStore(f.buf, f.size, f.stamp);
    var ends := [store, WBroadcast, WUnlock];
    TurnSnoc(b, run, store);
    assert run + ends == run + [store] + [WBroadcast] + [WUnlock];
    if s.held {
      TurnSnoc(b, run + [store], WBroadcast);
      TurnSnoc(b, run + [store] + [WBroadcast], WUnlock);
    } else {
      OutOfTurn(b, run + [store], [WBroadcast, WUnlock]);
      assert run + ends == run + [store] + [WBroadcast, WUnlock];
    }
  }

  lemma {:induction false} OutOfTurn(b: Board, run: seq<Action>, more: seq<Action>)
    requires !AllInTurn(b, run)
    ensures !AllInTurn(b, run + more)
  {
    if more == [] {
      assert run + more == run;
    } else {
      OutOfTurn(b, run, more[..|more| - 1]);
      assert (run + more)[..|run + more| - 1] == run + more[..|more| - 1];
    }
  }

  /** A callback's steps are steps of the protocol's writer unless it is an empty end. */
  lemma CallbackSteps(b: Board, run: seq<Action>, s: R.Shared, piece: R.Piece, want: bool)
    requires AllInTurn(b, run) && s.Valid() && Shows(WrittenAll(b, run), s)
    ensures AllInTurn(b, run + Steps(s, piece, want)) <==> !EmptyEnd(s, piece)
    ensures !EmptyEnd(s, piece) ==>
              var w, t := WrittenAll(b, run + Steps(s, piece, want)), R.Take(s, piece, want);
              && Shows(w, t)
              && w.published == WrittenAll(b, run).published +
                                if piece.end then [Publication(t.buf[..t.size], t.stamp)] else []
  {
    hide AllInTurn, WrittenAll;
    var c := R.Collect(s, piece.payload);
    var before := run;
    if piece.payload != [] {
      var lock := if s.offset == 0 then [WLock] else [];
      var store := WStore(c.buf, c.size, c.stamp);
      CollectSteps(b, run, s, piece.payload, lock, store);
      before := run + lock + [store];
    }
    if piece.end {
      var f := R.Finish(c, piece.time, want);
      FinishSteps(b, before, c, f);
      assert run + Steps(s, piece, want) == before + [WStore(f.buf, f.size, f.stamp), WBroadcast, WUnlock];
    } else {
      assert run + Steps(s, piece, want) == before;
    }
  }

  // ---------------------------------------------------------------- whole sequences of callbacks

  /** What the first `n` callbacks publish. */
  function PublishedBy(s: R.Shared, pieces: seq<R.Piece>, n: nat, want: bool): (r: seq<Publication>)
    requires s.Valid() && n <= |pieces|
  {
    if n == 0 then []
    else
      var t := R.TakeAll(s, pieces, n, want);
      PublishedBy(s, pieces, n - 1, want) +
      (if pieces[n - 1].end then [Publication(t.buf[..t.size], t.stamp)] else [])
  }

  /** Those are the frames of the encoder, with the time at which each ended. */
  lemma {:induction false} PublishedFrames(s: R.Shared, pieces: seq<R.Piece>, n: nat, want: bool)
    requires s.Valid() && s.offset == 0 && n <= |pieces|
    ensures var p := PublishedBy(s, pieces, n, want);
            && |p| == |R.Frames(pieces, n)|
            && (forall k :: 0 <= k < |p| ==> p[k].data == R.Frames(pieces, n)[k])
            && (want ==> forall k :: 0 <= k < |p| ==> p[k].stamp == R.EndTimes(pieces, n)[k])
  {
    if n > 0 {
      PublishedFrames(s, pieces, n - 1, want);
      if pieces[n - 1].end {
        R.FinishedFrame(s, pieces, n - 1, want);
        EndStamp(R.TakeAll(s, pieces, n - 1, want), pieces[n - 1], want);
      }
    }
  }

  lemma EndStamp(s: R.Shared, piece: R.Piece, want: bool)
    requires s.Valid() && piece.end
    ensures want ==> R.Take(s, piece, want).stamp == piece.time
  {
  }

  /** The steps of a sequence of callbacks are those of a writer of the protocol if and only if no end
      flag finds an empty frame, and then they publish the frames. */
  lemma {:induction false} CallbacksAreWriter(b: Board, s: R.Shared, pieces: seq<R.Piece>, n: nat, want: bool)
    requires s.Valid() && s.offset == 0 && Shows(b, s) && n <= |pieces|
    ensures AllInTurn(b, AllSteps(s, pieces, n, want)) <==> R.EmptyEnds(pieces, n) == 0
    ensures R.EmptyEnds(pieces, n) == 0 ==>
              var w := WrittenAll(b, AllSteps(s, pieces, n, want));
              && Shows(w, R.TakeAll(s, pieces, n, want))
              && w.published == b.published + PublishedBy(s, pieces, n, want)
  {
    hide AllInTurn, WrittenAll, Shows, Steps, R.Joined, R.FrameStart, R.Take;
    if n == 0 {
      NoSteps(b);
      assert b.published + [] == b.published;
    } else {
      CallbacksAreWriter(b, s, pieces, n - 1, want);
      var before, t := AllSteps(s, pieces, n - 1, want), R.TakeAll(s, pieces, n - 1, want);
      R.EmptyFrameIff(s, pieces, n - 1, want);
      if R.EmptyEnds(pieces, n - 1) == 0 {
        CallbackSteps(b, before, t, pieces[n - 1], want);
      } else {
        OutOfTurn(b, before, Steps(t, pieces[n - 1], want));
      }
    }
  }

  /** The mutex as the writer left it, with no consumer in it. */
  predicate Undisturbed(h: State) {
    h.mutex == if h.writer.Outside? then Free else Writer
  }

  lemma {:induction false} AloneIsPossible(h: State, run: seq<Action>)
    requires Undisturbed(h) && AllInTurn(BoardOf(h), run)
    ensures Possible(h, run) && Undisturbed(After(h, run))
    ensures BoardOf(After(h, run)) == WrittenAll(BoardOf(h), run)
  {
    if run != [] {
      AloneIsPossible(h, run[..|run| - 1]);
    }
  }

  /** A sequence of callbacks can take part in the protocol if and only if no end flag finds an empty
      frame. */
  lemma PossibleIffNoEmptyEnd(h: State, s: R.Shared, pieces: seq<R.Piece>, want: bool)
    requires Init(h) && s.Valid() && s.offset == 0 && Shows(BoardOf(h), s)
    ensures (exists run :: Possible(h, run) && WriterPart(run) == AllSteps(s, pieces, |pieces|, want))
            <==> R.EmptyEnds(pieces, |pieces|) == 0
  {
    var steps := AllSteps(s, pieces, |pieces|, want);
    CallbacksAreWriter(BoardOf(h), s, pieces, |pieces|, want);
    if R.EmptyEnds(pieces, |pieces|) == 0 {
      AloneIsPossible(h, steps);
      OnlyWriter(BoardOf(h), steps);
    }
    if run :| Possible(h, run) && WriterPart(run) == steps {
      BoardOfRun(h, run);
    }
  }

  lemma {:induction false} OnlyWriter(b: Board, run: seq<Action>)
    requires AllInTurn(b, run)
    ensures WriterPart(run) == run
  {
    if run != [] {
      OnlyWriter(b, run[..|run| - 1]);
      assert run == run[..|run| - 1] + [run[|run| - 1]];
    }
  }

  /** However consumers interleave with the callbacks, each frame sent is what was there at the start
      or one whole frame of the encoder. */
  lemma SentFramesAreEncoderFrames(
    h: State, run: seq<Action>, s: R.Shared, pieces: seq<R.Piece>, want: bool, i: nat)
    requires Init(h) && Possible(h, run) && i < |h.consumers|
    requires s.Valid() && s.offset == 0 && Shows(BoardOf(h), s)
    requires WriterPart(run) == AllSteps(s, pieces, |pieces|, want)
    ensures var r, frames := After(h, run), R.Frames(pieces, |pieces|);
            && i < |r.consumers|
            && forall k :: 0 <= k < |r.consumers[i].sent| && r.consumers[i].sent[k].number > 0 ==>
                 && r.consumers[i].sent[k].number <= |frames|
                 && r.consumers[i].sent[k].data == frames[r.consumers[i].sent[k].number - 1]
  {
    hide Possible, After, AllInTurn, WrittenAll, AllSteps, PublishedBy, R.Frames, R.EndTimes, R.TakeAll;
    BoardOfRun(h, run);
    CallbacksAreWriter(BoardOf(h), s, pieces, |pieces|, want);
    PublishedFrames(s, pieces, |pieces|, want);
    SentFramesArePublications(h, run, i);
  }

  // ---------------------------------------------------------------- an empty end

  /** What the callback does on an end flag with nothing collected: size and time are stored, waiting
      consumers are woken, and the mutex is released, whoever has it. */
  function RogueEnd(h: State, time: int): (r: State) {
    h.(size := 0, stamp := time, mutex := Free, published := h.published + [Publication([], time)],
       consumers := seq(|h.consumers|, i requires 0 <= i < |h.consumers| => WakeUp(h.consumers[i])))
  }

  /** A consumer that has the size of a frame with one byte and not yet its time. */
  lemma ReachesSized(b: byte, time: int) returns (h: State, run: seq<Action>)
    ensures Init(h) && Possible(h, run) && |After(h, run).consumers| == 1
    ensures var r := After(h, run);
            && At(r, 0, Sized) && r.consumers[0].frameSize == 1 && r.consumers[0].sent == []
            && r.buf == [b] && r.published == [Publication([], 0), Publication([b], time)]
  {
    h := State(Free, [], 0, 0, Outside, [Consumer(Idle, 0, 0, [], 0, [], false)], [Publication([], 0)]);
    InitInv(h);
    var wait := Waits(h);
    KeepsInv(h, wait);
    hide Possible, After, Inv, Enabled, Apply;
    var waiting := After(h, wait);
    var publish := Publish(waiting, [b], time);
    var looks := Looks(After(waiting, publish));
    Concat(waiting, publish, looks);
    Concat(h, wait, publish + looks);
    run := wait + (publish + looks);
  }

  /** Consumer 0 goes into its wait. */
  lemma Waits(h: State) returns (run: seq<Action>)
    requires h.mutex.Free? && At(h, 0, Idle)
    ensures Possible(h, run) && At(After(h, run), 0, Waiting)
    ensures After(h, run) == WithConsumer(h, 0, h.consumers[0].(pc := Waiting))
  {
    hide Possible, After;
    EmptyRun(h);
    Snoc(h, [], RLock(0));
    Snoc(h, [] + [RLock(0)], RWait(0));
    run := [] + [RLock(0)] + [RWait(0)];
  }

  /** Consumer 0, woken, takes the mutex and reads the size. */
  lemma Looks(h: State) returns (run: seq<Action>)
    requires h.mutex.Free? && At(h, 0, Woken)
    ensures Possible(h, run) && At(After(h, run), 0, Sized) && |After(h, run).consumers| == |h.consumers|
    ensures After(h, run).consumers[0].frameSize == h.size && After(h, run).consumers[0].sent == h.consumers[0].sent
    ensures After(h, run).buf == h.buf && After(h, run).published == h.published
  {
    hide Possible, After;
    EmptyRun(h);
    Snoc(h, [], RRelock(0));
    Snoc(h, [] + [RRelock(0)], RReadSize(0));
    run := [] + [RRelock(0)] + [RReadSize(0)];
  }

  lemma SendsWithNewTime(h: State, b: byte) returns (run: seq<Action>)
    requires At(h, 0, Sized) && |h.consumers| == 1 && h.consumers[0].frameSize == 1 && h.buf == [b]
    requires h.consumers[0].sent == []
    ensures Possible(h, run) && After(h, run).published == h.published && |After(h, run).consumers| == 1
    ensures |After(h, run).consumers[0].sent| == 1
    ensures var f := After(h, run).consumers[0].sent[0]; f.data == [b] && f.stamp == h.stamp
  {
    hide Possible, After;
    EmptyRun(h);
    run := [];
    Snoc(h, run, RReadStamp(0));
    run := run + [RReadStamp(0)];
    Snoc(h, run, RCopyByte(0));
    run := run + [RCopyByte(0)];
    Snoc(h, run, RUnlock(0));
    run := run + [RUnlock(0)];
    Snoc(h, run, RSend(0));
    run := run + [RSend(0)];
  }

  /** One empty end tears a frame: a client is sent a picture with a time that no publication has
      together with it. */
  lemma EmptyEndTears(b: byte, time: int, later: int) returns (h: State, run: seq<Action>, more: seq<Action>)
    requires time != later
    ensures Init(h) && Possible(h, run) && Possible(RogueEnd(After(h, run), later), more)
    ensures var r := After(RogueEnd(After(h, run), later), more);
            && |r.consumers| == 1 && |r.consumers[0].sent| == 1
            && var f := r.consumers[0].sent[0];
               f.data == [b] && f.stamp == later && Publication(f.data, f.stamp) !in r.published
  {
    hide Possible, After;
    h, run := ReachesSized(b, time);
    more := SendsWithNewTime(RogueEnd(After(h, run), later), b);
  }
}
