/** The hand-off of frames from an input plugin to its consumers: one mutex, one condition variable,
    one writer and any number of readers, interleaved step by step. */
module FrameHandoff {
  import opened Words

  /** What a writer publishes: the bytes of a picture and its timestamp. */
  datatype Publication = Publication(data: seq<byte>, stamp: int)

  datatype Holder = Free | Writer | Reader(i: nat)

  datatype WriterPc = Outside | Storing | Signalled

  /** Where a consumer is in its loop; in `Entered`, `Reading`, `Sized` and `Copying` it has the mutex. */
  datatype ReaderPc = Idle | Entered | Waiting | Woken | Reading | Sized | Copying | Sending

  /** A frame that left for the client, with the number of the publication it was copied from. */
  datatype Sent = Sent(number: nat, data: seq<byte>, stamp: int)

  datatype Consumer = Consumer(
    pc: ReaderPc, frameSize: nat, stamp: int, copied: seq<byte>,
    seen: nat, sent: seq<Sent>, disturbed: bool)
  {
    predicate HasMutex() {
      pc.Entered? || pc.Reading? || pc.Sized? || pc.Copying?
    }

    /** The publication sent last; number 0 is the content that was there before any publication. */
    function Last(): (n: nat) {
      if sent == [] then 0 else sent[|sent| - 1].number
    }
  }

  datatype State = State(
    mutex: Holder, buf: seq<byte>, size: nat, stamp: int,
    writer: WriterPc, consumers: seq<Consumer>, published: seq<Publication>)

  datatype Action =
    | WLock | WStore(newBuf: seq<byte>, newSize: nat, newStamp: int) | WBroadcast | WUnlock
    | RLock(i: nat) | RWait(i: nat) | RSpuriousWakeup(i: nat) | RRelock(i: nat)
    | RReadSize(i: nat) | RReadStamp(i: nat) | RCopyByte(i: nat) | RUnlock(i: nat) | RSend(i: nat)

  predicate Init(s: State) {
    && s.mutex.Free? && s.writer.Outside? && s.size <= |s.buf|
    && s.published == [Publication(s.buf[..s.size], s.stamp)]
    && forall i :: 0 <= i < |s.consumers| ==> s.consumers[i] == Consumer(Idle, 0, 0, [], 0, [], false)
  }

  predicate At(s: State, i: nat, pc: ReaderPc) {
    i < |s.consumers| && s.consumers[i].pc == pc
  }

  predicate Enabled(s: State, a: Action) {
    match a
    case WLock => s.writer.Outside? && s.mutex.Free?
    case WStore(_, _, _) => s.writer.Storing?
    case WBroadcast => s.writer.Storing? && s.size <= |s.buf|
    case WUnlock => s.writer.Signalled?
    case RLock(i) => At(s, i, Idle) && s.mutex.Free?
    case RWait(i) => At(s, i, Entered)
    case RSpuriousWakeup(i) => At(s, i, Waiting)
    case RRelock(i) => At(s, i, Woken) && s.mutex.Free?
    case RReadSize(i) => At(s, i, Reading)
    case RReadStamp(i) => At(s, i, Sized)
    case RCopyByte(i) =>
      && At(s, i, Copying)
      && |s.consumers[i].copied| < s.consumers[i].frameSize && |s.consumers[i].copied| < |s.buf|
    case RUnlock(i) => At(s, i, Copying) && |s.consumers[i].copied| >= s.consumers[i].frameSize
    case RSend(i) => At(s, i, Sending)
  }

  function WakeUp(c: Consumer): (r: Consumer) {
    if c.pc.Waiting? then c.(pc := Woken) else c
  }

  function WithConsumer(s: State, i: nat, c: Consumer): (r: State)
    requires i < |s.consumers|
  {
    s.(consumers := s.consumers[i := c])
  }

  function Apply(s: State, a: Action): (r: State)
    requires Enabled(s, a)
  {
    match a
    case WLock => s.(mutex := Writer, writer := Storing)
    case WStore(b, n, t) => s.(buf := b, size := n, stamp := t)
    case WBroadcast =>
      s.(writer := Signalled, published := s.published + [Publication(s.buf[..s.size], s.stamp)],
         consumers := seq(|s.consumers|, i requires 0 <= i < |s.consumers| => WakeUp(s.consumers[i])))
    case WUnlock => s.(mutex := Free, writer := Outside)
    case RLock(i) => WithConsumer(s.(mutex := Reader(i)), i, s.consumers[i].(pc := Entered))
    case RWait(i) => WithConsumer(s.(mutex := Free), i, s.consumers[i].(pc := Waiting))
    case RSpuriousWakeup(i) => WithConsumer(s, i, s.consumers[i].(pc := Woken, disturbed := true))
    case RRelock(i) =>
      var now := if |s.published| > 0 then |s.published| - 1 else 0;
      WithConsumer(s.(mutex := Reader(i)), i, s.consumers[i].(pc := Reading, seen := now))
    case RReadSize(i) => WithConsumer(s, i, s.consumers[i].(pc := Sized, frameSize := s.size))
    case RReadStamp(i) => WithConsumer(s, i, s.consumers[i].(pc := Copying, stamp := s.stamp, copied := []))
    case RCopyByte(i) =>
      var c := s.consumers[i];
      WithConsumer(s, i, c.(copied := c.copied + [s.buf[|c.copied|]]))
    case RUnlock(i) => WithConsumer(s.(mutex := Free), i, s.consumers[i].(pc := Sending))
    case RSend(i) =>
      var c := s.consumers[i];
      WithConsumer(s, i, c.(pc := Idle, sent := c.sent + [Sent(c.seen, c.copied, c.stamp)]))
  }

  /** Whether a sequence of actions can happen one after the other. */
  predicate Possible(s: State, run: seq<Action>)
    decreases |run|, 0
  {
    run == [] ||
    (Possible(s, run[..|run| - 1]) && Enabled(After(s, run[..|run| - 1]), run[|run| - 1]))
  }

  function After(s: State, run: seq<Action>): (r: State)
    requires Possible(s, run)
    decreases |run|, 1
  {
    if run == [] then s else Apply(After(s, run[..|run| - 1]), run[|run| - 1])
  }

  // ---------------------------------------------------------------- the invariant

  predicate Matches(p: Publication, data: seq<byte>, stamp: int) {
    p == Publication(data, stamp)
  }

  /** What holds of a consumer's own record, given the publications so far. */
  ghost predicate Record(c: Consumer, published: seq<Publication>) {
    && (forall k :: 0 <= k < |c.sent| ==>
          c.sent[k].number < |published| && Matches(published[c.sent[k].number], c.sent[k].data, c.sent[k].stamp))
    && (forall j, k :: 0 <= j < k < |c.sent| ==>
          c.sent[j].number <= c.sent[k].number && (!c.disturbed ==> c.sent[j].number < c.sent[k].number))
    && (!c.disturbed && |c.sent| > 0 ==> c.sent[0].number > 0)
  }

  /** What holds of a consumer at its place in the loop. */
  ghost predicate Place(c: Consumer, s: State) {
    var now := |s.published| - 1;
    match c.pc
    case Idle => c.Last() <= now
    case Entered => c.Last() <= now
    case Waiting => c.Last() <= now
    case Woken => c.Last() <= now && (!c.disturbed ==> c.Last() < now)
    case Reading => Fresh(c, now)
    case Sized => Fresh(c, now) && c.frameSize == s.size
    case Copying =>
      && Fresh(c, now) && c.frameSize == s.size && c.stamp == s.stamp
      && |c.copied| <= s.size <= |s.buf| && c.copied == s.buf[..|c.copied|]
    case Sending =>
      && c.seen <= now && c.Last() <= c.seen && (!c.disturbed ==> c.Last() < c.seen)
      && Matches(s.published[c.seen], c.copied, c.stamp)
  }

  ghost predicate Fresh(c: Consumer, now: int) {
    c.seen == now && c.Last() <= now && (!c.disturbed ==> c.Last() < now)
  }

  ghost predicate Inv(s: State) {
    && |s.published| > 0
    && (s.mutex.Writer? <==> !s.writer.Outside?)
    && (forall i :: 0 <= i < |s.consumers| ==> (s.consumers[i].HasMutex() <==> s.mutex == Reader(i)))
    && (s.mutex.Reader? ==> s.mutex.i < |s.consumers|)
    && (!s.writer.Storing? ==>
          s.size <= |s.buf| && Matches(s.published[|s.published| - 1], s.buf[..s.size], s.stamp))
    && (forall i :: 0 <= i < |s.consumers| ==> Record(s.consumers[i], s.published) && Place(s.consumers[i], s))
  }

  lemma InitInv(s: State)
    requires Init(s)
    ensures Inv(s)
  {
  }

  lemma RecordGrows(c: Consumer, published: seq<Publication>, p: Publication)
    requires Record(c, published)
    ensures Record(c, published + [p])
  {
  }

  lemma WriterStep(s: State, a: Action)
    requires Inv(s) && Enabled(s, a) && (a.WLock? || a.WStore? || a.WUnlock?)
    ensures Inv(Apply(s, a))
  {
  }

  lemma BroadcastStep(s: State)
    requires Inv(s) && Enabled(s, WBroadcast)
    ensures Inv(Apply(s, WBroadcast))
  {
    var r := Apply(s, WBroadcast);
    forall i | 0 <= i < |r.consumers|
      ensures Record(r.consumers[i], r.published) && Place(r.consumers[i], r)
    {
      var c := s.consumers[i];
      assert Record(c, s.published) && Place(c, s);
      RecordGrows(c, s.published, Publication(s.buf[..s.size], s.stamp));
    }
  }

  /** A step of consumer `i` that leaves the shared frame alone keeps the invariant if it keeps
      that consumer's part of it. */
  lemma ConsumerStep(s: State, r: State, i: nat)
    requires Inv(s) && i < |s.consumers| && i < |r.consumers|
    requires r == WithConsumer(s.(mutex := r.mutex), i, r.consumers[i])
    requires Record(r.consumers[i], s.published) && Place(r.consumers[i], s)
    requires s.mutex == Reader(i) || s.mutex == Free || r.mutex == s.mutex
    requires r.mutex ==
             if r.consumers[i].HasMutex() then Reader(i) else if s.mutex == Reader(i) then Free else s.mutex
    ensures Inv(r)
  {
    hide Record;
    forall j | 0 <= j < |r.consumers|
      ensures Record(r.consumers[j], r.published) && Place(r.consumers[j], r)
      ensures r.consumers[j].HasMutex() <==> r.mutex == Reader(j)
    {
      assert Record(s.consumers[j], s.published) && Place(s.consumers[j], s);
      assert s.consumers[j].HasMutex() <==> s.mutex == Reader(j);
    }
  }

  lemma SendStep(s: State, i: nat)
    requires Inv(s) && Enabled(s, RSend(i))
    ensures Inv(Apply(s, RSend(i)))
  {
    var c := s.consumers[i];
    assert Record(c, s.published) && Place(c, s);
    var r := Apply(s, RSend(i));
    var c' := r.consumers[i];
    forall j, k | 0 <= j < k < |c'.sent|
      ensures c'.sent[j].number <= c'.sent[k].number && (!c'.disturbed ==> c'.sent[j].number < c'.sent[k].number)
    {
      if k == |c.sent| && j < |c.sent| - 1 {
        assert c.sent[j].number <= c.sent[|c.sent| - 1].number;
      }
    }
    assert c'.sent[|c.sent|] == Sent(c.seen, c.copied, c.stamp);
    ConsumerStep(s, r, i);
  }

  predicate MutexAction(a: Action) {
    a.RLock? || a.RWait? || a.RSpuriousWakeup? || a.RRelock?
  }

  predicate CopyAction(a: Action) {
    a.RReadSize? || a.RReadStamp? || a.RCopyByte? || a.RUnlock?
  }

  lemma MutexStep(s: State, a: Action)
    requires Inv(s) && Enabled(s, a) && MutexAction(a)
    ensures Inv(Apply(s, a))
  {
    var i := a.i;
    var c := s.consumers[i];
    assert Record(c, s.published) && Place(c, s) && (c.HasMutex() <==> s.mutex == Reader(i));
    hide Inv;
    var r := Apply(s, a);
    RecordKept(c, r.consumers[i], s.published);
    ConsumerStep(s, r, i);
  }

  lemma RecordKept(c: Consumer, c': Consumer, published: seq<Publication>)
    requires Record(c, published) && c'.sent == c.sent && (c.disturbed ==> c'.disturbed)
    ensures Record(c', published)
  {
  }

  /** The reads and copies that a consumer makes with the mutex see the last publication. */
  lemma CopyStep(s: State, a: Action)
    requires Inv(s) && Enabled(s, a) && CopyAction(a)
    ensures Inv(Apply(s, a))
  {
    var i := a.i;
    var c := s.consumers[i];
    assert Record(c, s.published) && Place(c, s) && (c.HasMutex() <==> s.mutex == Reader(i));
    assert !s.writer.Storing?;
    var r := Apply(s, a);
    RecordKept(c, r.consumers[i], s.published);
    CopyPlace(s, a, c, r.consumers[i]);
    hide Inv, Place, Record;
    ConsumerStep(s, r, i);
  }

  lemma CopyPlace(s: State, a: Action, c: Consumer, c': Consumer)
    requires Enabled(s, a) && CopyAction(a) && c == s.consumers[a.i] && c' == Apply(s, a).consumers[a.i]
    requires |s.published| > 0 && Place(c, s) && s.size <= |s.buf|
    requires Matches(s.published[|s.published| - 1], s.buf[..s.size], s.stamp)
    ensures Place(c', s)
  {
  }

  lemma StepInv(s: State, a: Action)
    requires Inv(s) && Enabled(s, a)
    ensures Inv(Apply(s, a))
  {
    if a.WBroadcast? {
      BroadcastStep(s);
    } else if a.WLock? || a.WStore? || a.WUnlock? {
      WriterStep(s, a);
    } else if a.RSend? {
      SendStep(s, a.i);
    } else if MutexAction(a) {
      MutexStep(s, a);
    } else {
      CopyStep(s, a);
    }
  }

  lemma {:induction false} RunInv(s: State, run: seq<Action>)
    requires Init(s) && Possible(s, run)
    ensures Inv(After(s, run)) && |After(s, run).consumers| == |s.consumers|
  {
    hide Enabled, Apply, Inv;
    if run == [] {
      InitInv(s);
    } else {
      var n := |run| - 1;
      RunInv(s, run[..n]);
      StepInv(After(s, run[..n]), run[n]);
      SameConsumers(After(s, run[..n]), run[n]);
    }
  }

  lemma SameConsumers(s: State, a: Action)
    requires Enabled(s, a)
    ensures |Apply(s, a).consumers| == |s.consumers|
  {
  }

  // ---------------------------------------------------------------- what every run keeps

  lemma {:induction false} DisturbedIff(s: State, run: seq<Action>, i: nat)
    requires Init(s) && Possible(s, run) && i < |s.consumers| && |After(s, run).consumers| == |s.consumers|
    ensures After(s, run).consumers[i].disturbed <==> RSpuriousWakeup(i) in run
  {
    if run != [] {
      var n := |run| - 1;
      RunInv(s, run[..n]);
      DisturbedIff(s, run[..n], i);
      hide Inv, Possible, Init;
      assert run == run[..n] + [run[n]];
      OneDisturbed(After(s, run[..n]), run[n], i);
    }
  }

  lemma OneDisturbed(s: State, a: Action, i: nat)
    requires Enabled(s, a) && i < |s.consumers|
    ensures |Apply(s, a).consumers| == |s.consumers|
    ensures Apply(s, a).consumers[i].disturbed <==> s.consumers[i].disturbed || a == RSpuriousWakeup(i)
  {
  }

  /** In every interleaving, each frame sent is, with its timestamp, one complete publication, and
      no consumer goes back to an earlier one. */
  lemma SentFramesArePublications(s: State, run: seq<Action>, i: nat)
    requires Init(s) && Possible(s, run) && i < |s.consumers|
    ensures var r := After(s, run);
            && i < |r.consumers|
            && (forall k :: 0 <= k < |r.consumers[i].sent| ==>
                  var f := r.consumers[i].sent[k];
                  f.number < |r.published| && r.published[f.number] == Publication(f.data, f.stamp))
            && (forall j, k :: 0 <= j < k < |r.consumers[i].sent| ==>
                  r.consumers[i].sent[j].number <= r.consumers[i].sent[k].number)
  {
    RunInv(s, run);
    assert Record(After(s, run).consumers[i], After(s, run).published);
  }

  /** A consumer that is never woken without a broadcast sends strictly later publications each
      time, and never the content from before the first one. */
  lemma SentFramesAreLater(s: State, run: seq<Action>, i: nat)
    requires Init(s) && Possible(s, run) && i < |s.consumers| && RSpuriousWakeup(i) !in run
    ensures var r := After(s, run);
            && i < |r.consumers|
            && (forall k :: 0 <= k < |r.consumers[i].sent| ==> r.consumers[i].sent[k].number > 0)
            && (forall j, k :: 0 <= j < k < |r.consumers[i].sent| ==>
                  r.consumers[i].sent[j].number < r.consumers[i].sent[k].number)
  {
    RunInv(s, run);
    DisturbedIff(s, run, i);
    assert Record(After(s, run).consumers[i], After(s, run).published);
  }

  // ---------------------------------------------------------------- which publication is sent

  function Broadcasts(run: seq<Action>): (n: nat) {
    if run == [] then 0
    else Broadcasts(run[..|run| - 1]) + (if run[|run| - 1].WBroadcast? then 1 else 0)
  }

  /** The places in a run where consumer `i` has the mutex back after a wait. */
  function Relocks(run: seq<Action>, i: nat): (places: seq<nat>)
    ensures forall k :: 0 <= k < |places| ==> places[k] < |run|
    ensures forall j, k :: 0 <= j < k < |places| ==> places[j] < places[k]
  {
    if run == [] then []
    else
      var n := |run| - 1;
      Relocks(run[..n], i) + (if run[n] == RRelock(i) then [n] else [])
  }

  /** Between its wait and the end of its turn a consumer has seen a publication it has not sent. */
  predicate Pending(c: Consumer) {
    c.pc.Reading? || c.pc.Sized? || c.pc.Copying? || c.pc.Sending?
  }

  lemma OneStepNumbers(s: State, a: Action, i: nat)
    requires Enabled(s, a) && i < |s.consumers| && |s.published| > 0
    ensures |Apply(s, a).published| == |s.published| + (if a.WBroadcast? then 1 else 0)
    ensures |Apply(s, a).consumers| == |s.consumers|
    ensures var c, c' := s.consumers[i], Apply(s, a).consumers[i];
            if a == RRelock(i) then !Pending(c) && Pending(c') && c'.seen == |s.published| - 1 && c'.sent == c.sent
            else if a == RSend(i) then
              Pending(c) && !Pending(c') && |c'.sent| == |c.sent| + 1 && c'.sent[..|c.sent|] == c.sent
              && c'.sent[|c.sent|].number == c.seen
            else Pending(c) == Pending(c') && c'.seen == c.seen && c'.sent == c.sent
  {
  }

  /** The numbers of the publications that consumer `i` took in a run. */
  ghost predicate Numbered(c: Consumer, run: seq<Action>, i: nat) {
    var at := Relocks(run, i);
    && |at| == |c.sent| + (if Pending(c) then 1 else 0)
    && (forall k :: 0 <= k < |c.sent| ==> c.sent[k].number == Broadcasts(run[..at[k]]))
    && (Pending(c) ==> c.seen == Broadcasts(run[..at[|c.sent|]]))
  }

  /** In every run the frames sent to a client are those of its relocks, and the number of each is
      the number of broadcasts before the relock. */
  lemma {:induction false} NumbersAreBroadcasts(s: State, run: seq<Action>, i: nat)
    requires Init(s) && Possible(s, run) && i < |s.consumers|
    ensures var r := After(s, run);
            && i < |r.consumers| && |r.published| == Broadcasts(run) + 1
            && Numbered(r.consumers[i], run, i)
  {
    if run != [] {
      var n := |run| - 1;
      NumbersAreBroadcasts(s, run[..n], i);
      OneStepNumbers(After(s, run[..n]), run[n], i);
      hide Init, Possible, Enabled, Apply;
      NumberedStep(After(s, run[..n]).consumers[i], After(s, run).consumers[i], run, i);
    }
  }

  lemma NumberedStep(c: Consumer, c': Consumer, run: seq<Action>, i: nat)
    requires run != [] && Numbered(c, run[..|run| - 1], i)
    requires if run[|run| - 1] == RRelock(i) then
               !Pending(c) && Pending(c') && c'.seen == Broadcasts(run[..|run| - 1]) && c'.sent == c.sent
             else if run[|run| - 1] == RSend(i) then
               Pending(c) && !Pending(c') && |c'.sent| == |c.sent| + 1 && c'.sent[..|c.sent|] == c.sent
               && c'.sent[|c.sent|].number == c.seen
             else Pending(c) == Pending(c') && c'.seen == c.seen && c'.sent == c.sent
    ensures Numbered(c', run, i)
  {
    hide Pending, Broadcasts;
    var n := |run| - 1;
    var before, at := Relocks(run[..n], i), Relocks(run, i);
    assert forall k :: 0 <= k < |before| ==> at[k] == before[k] && run[..n][..before[k]] == run[..at[k]];
    assert forall k :: 0 <= k < |c.sent| ==> c'.sent[k] == c.sent[k];
  }

  lemma {:induction false} BroadcastsAppend(a: seq<Action>, b: seq<Action>)
    ensures Broadcasts(a + b) == Broadcasts(a) + Broadcasts(b)
  {
    if b == [] {
      assert a + b == a;
    } else {
      var n := |b| - 1;
      BroadcastsAppend(a, b[..n]);
      assert (a + b)[..|a + b| - 1] == a + b[..n];
    }
  }

  lemma {:induction false} NoBroadcasts(run: seq<Action>)
    ensures Broadcasts(run) == 0 <==> WBroadcast !in run
  {
    if run != [] {
      var n := |run| - 1;
      NoBroadcasts(run[..n]);
      assert run == run[..n] + [run[n]];
    }
  }

  /** Two frames of a client are the same publication if and only if nothing was broadcast between
      the two relocks. */
  lemma RepeatedIffNoBroadcast(s: State, run: seq<Action>, i: nat, j: nat, k: nat)
    requires Init(s) && Possible(s, run) && i < |s.consumers|
    requires i < |After(s, run).consumers| && j < k < |After(s, run).consumers[i].sent|
    ensures |Relocks(run, i)| >= |After(s, run).consumers[i].sent|
    ensures var sent, at := After(s, run).consumers[i].sent, Relocks(run, i);
            && sent[k].number - sent[j].number == Broadcasts(run[at[j]..at[k]])
            && (sent[j].number == sent[k].number <==> WBroadcast !in run[at[j]..at[k]])
  {
    NumbersAreBroadcasts(s, run, i);
    hide Possible, Init, Broadcasts;
    var at := Relocks(run, i);
    assert run[..at[k]] == run[..at[j]] + run[at[j]..at[k]];
    BroadcastsAppend(run[..at[j]], run[at[j]..at[k]]);
    NoBroadcasts(run[at[j]..at[k]]);
  }

  /** Each frame is from a strictly later publication than the one before, if and only if between
      any two successive relocks that led to a frame there was a broadcast. */
  lemma LaterIffBroadcasts(s: State, run: seq<Action>, i: nat)
    requires Init(s) && Possible(s, run) && i < |s.consumers| && i < |After(s, run).consumers|
    ensures |Relocks(run, i)| >= |After(s, run).consumers[i].sent|
    ensures var sent, at := After(s, run).consumers[i].sent, Relocks(run, i);
            (forall k :: 0 < k < |sent| ==> sent[k - 1].number < sent[k].number)
            <==> (forall k :: 0 < k < |sent| ==> WBroadcast in run[at[k - 1]..at[k]])
  {
    hide Init, Possible, After, Relocks;
    NumbersAreBroadcasts(s, run, i);
    var sent, at := After(s, run).consumers[i].sent, Relocks(run, i);
    forall k | 0 < k < |sent|
      ensures sent[k - 1].number < sent[k].number <==> WBroadcast in run[at[k - 1]..at[k]]
    {
      RepeatedIffNoBroadcast(s, run, i, k - 1, k);
    }
  }

  // ---------------------------------------------------------------- progress

  /** Whose step an action is. */
  function Actor(a: Action): (h: Holder) {
    match a
    case WLock => Writer
    case WStore(_, _, _) => Writer
    case WBroadcast => Writer
    case WUnlock => Writer
    case RLock(i) => Reader(i)
    case RWait(i) => Reader(i)
    case RSpuriousWakeup(i) => Reader(i)
    case RRelock(i) => Reader(i)
    case RReadSize(i) => Reader(i)
    case RReadStamp(i) => Reader(i)
    case RCopyByte(i) => Reader(i)
    case RUnlock(i) => Reader(i)
    case RSend(i) => Reader(i)
  }

  /** All steps are made by `h`, and none is a spurious wakeup. */
  predicate StepsOf(run: seq<Action>, h: Holder) {
    forall k :: 0 <= k < |run| ==> Actor(run[k]) == h && !run[k].RSpuriousWakeup?
  }

  lemma Snoc(s: State, run: seq<Action>, a: Action)
    requires Possible(s, run) && Enabled(After(s, run), a)
    ensures Possible(s, run + [a]) && After(s, run + [a]) == Apply(After(s, run), a)
  {
    assert (run + [a])[..|run|] == run;
  }

  lemma {:induction false} Concat(s: State, run: seq<Action>, more: seq<Action>)
    requires Possible(s, run) && Possible(After(s, run), more)
    ensures Possible(s, run + more) && After(s, run + more) == After(After(s, run), more)
  {
    hide Enabled, Apply;
    if more == [] {
      assert run + more == run;
    } else {
      var n := |more| - 1;
      Concat(s, run, more[..n]);
      Snoc(s, run + more[..n], more[n]);
      assert run + more == run + more[..n] + [more[n]];
    }
  }

  lemma First(s: State, a: Action, more: seq<Action>)
    requires Enabled(s, a) && Possible(Apply(s, a), more)
    ensures Possible(s, [a] + more) && After(s, [a] + more) == After(Apply(s, a), more)
  {
    assert Possible(s, []) && [] + [a] == [a];
    Snoc(s, [], a);
    Concat(s, [a], more);
  }

  /** What is left to do for a consumer that copies. */
  function Remaining(c: Consumer): (n: nat) {
    if c.pc.Reading? then 3 else if c.pc.Sized? then 2 else if c.pc.Copying? then 1 else 0
  }

  function Uncopied(c: Consumer): (n: nat) {
    if c.pc.Copying? && |c.copied| < c.frameSize then c.frameSize - |c.copied| else 0
  }

  ghost predicate Finished(s: State, r: State, i: nat) {
    && i < |s.consumers| && s.size <= |s.buf|
    && r == WithConsumer(s.(mutex := Free), i, s.consumers[i].(
         pc := Sending, frameSize := s.size, stamp := s.stamp, copied := s.buf[..s.size]))
  }

  /** A consumer that has seen a publication copies it and releases the mutex, on its own. */
  lemma {:induction false} CopyEnds(s: State, i: nat) returns (more: seq<Action>)
    requires Inv(s) && i < |s.consumers|
    requires s.consumers[i].pc.Reading? || s.consumers[i].pc.Sized? || s.consumers[i].pc.Copying?
    ensures StepsOf(more, Reader(i)) && Possible(s, more) && Finished(s, After(s, more), i)
    decreases Remaining(s.consumers[i]), Uncopied(s.consumers[i])
  {
    var c := s.consumers[i];
    assert c.HasMutex() && Place(c, s) && s.size <= |s.buf|;
    var a := if c.pc.Reading? then RReadSize(i) else if c.pc.Sized? then RReadStamp(i)
             else if |c.copied| < c.frameSize then RCopyByte(i) else RUnlock(i);
    if a.RUnlock? {
      more := [];
      assert c.copied == s.buf[..s.size];
      assert Possible(Apply(s, a), more);
    } else {
      StepInv(s, a);
      hide Inv, Place;
      more := CopyEnds(Apply(s, a), i);
    }
    hide Inv, Place, Possible, After;
    First(s, a, more);
    more := [a] + more;
  }

  /** The consumers that wait for the mutex are still there, and if the writer was not storing
      nothing new was published. */
  ghost predicate Released(s: State, r: State) {
    && Inv(r) && r.mutex.Free? && |r.consumers| == |s.consumers|
    && (forall i :: 0 <= i < |s.consumers| && s.consumers[i].pc.Woken? ==> r.consumers[i] == s.consumers[i])
    && (!s.writer.Storing? ==> r.published == s.published)
  }

  lemma WriterReleases(s: State) returns (more: seq<Action>)
    requires Inv(s) && s.mutex.Writer?
    ensures StepsOf(more, Writer) && Possible(s, more) && Released(s, After(s, more))
    decreases if s.writer.Signalled? then 0 else if s.size <= |s.buf| then 1 else 2
  {
    if s.writer.Signalled? {
      StepInv(s, WUnlock);
      assert Possible(Apply(s, WUnlock), []);
      First(s, WUnlock, []);
      more := [WUnlock] + [];
    } else if s.size <= |s.buf| {
      StepInv(s, WBroadcast);
      var r := Apply(s, WBroadcast);
      more := WriterReleases(r);
      First(s, WBroadcast, more);
      more := [WBroadcast] + more;
    } else {
      var a := WStore(s.buf, 0, s.stamp);
      StepInv(s, a);
      more := WriterReleases(Apply(s, a));
      First(s, a, more);
      more := [a] + more;
    }
  }

  lemma ConsumerReleases(s: State, i: nat) returns (more: seq<Action>)
    requires Inv(s) && s.mutex == Reader(i)
    ensures StepsOf(more, Reader(i)) && Possible(s, more) && Released(s, After(s, more))
  {
    assert s.consumers[i].HasMutex() && !s.writer.Storing?;
    if s.consumers[i].pc.Entered? {
      StepInv(s, RWait(i));
      assert Possible(Apply(s, RWait(i)), []);
      First(s, RWait(i), []);
      more := [RWait(i)] + [];
    } else {
      more := CopyEnds(s, i);
      KeepsInv(s, more);
    }
  }

  lemma {:induction false} KeepsInv(s: State, run: seq<Action>)
    requires Inv(s) && Possible(s, run)
    ensures Inv(After(s, run))
  {
    hide Enabled, Apply, Inv;
    if run != [] {
      var n := |run| - 1;
      KeepsInv(s, run[..n]);
      StepInv(After(s, run[..n]), run[n]);
    }
  }

  lemma Release(s: State) returns (more: seq<Action>)
    requires Inv(s)
    ensures StepsOf(more, s.mutex) && Possible(s, more) && Released(s, After(s, more))
  {
    match s.mutex {
      case Free => more := [];
      case Writer => more := WriterReleases(s);
      case Reader(i) => more := ConsumerReleases(s, i);
    }
  }

  /** From every state of every run the holder of the mutex has a way, by its own steps alone, to
      release it. */
  lemma MutexIsReleased(s: State, run: seq<Action>) returns (more: seq<Action>)
    requires Init(s) && Possible(s, run)
    ensures Possible(s, run + more) && After(s, run + more).mutex.Free?
    ensures StepsOf(more, After(s, run).mutex)
  {
    hide Inv, Init;
    RunInv(s, run);
    more := Release(After(s, run));
    Concat(s, run, more);
  }

  /** The next frame of consumer `i` is the last publication. */
  ghost predicate Served(s: State, r: State, i: nat) {
    && i < |s.consumers| && i < |r.consumers| && r.published != []
    && var p := r.published[|r.published| - 1];
       r.consumers[i].sent == s.consumers[i].sent + [Sent(|r.published| - 1, p.data, p.stamp)]
  }

  lemma LastPublished(s: State)
    requires Inv(s) && s.mutex.Free?
    ensures s.published != [] && s.size <= |s.buf|
    ensures s.published[|s.published| - 1] == Publication(s.buf[..s.size], s.stamp)
  {
  }

  lemma TakesTurn(s: State, i: nat) returns (more: seq<Action>)
    requires Inv(s) && At(s, i, Woken) && s.mutex.Free?
    ensures StepsOf(more, Reader(i)) && Possible(s, more)
    ensures Served(s, After(s, more), i) && At(After(s, more), i, Idle)
    ensures After(s, more) == WithConsumer(s, i, After(s, more).consumers[i])
  {
    hide Inv, Possible, After;
    LastPublished(s);
    var r := Apply(s, RRelock(i));
    StepInv(s, RRelock(i));
    var copy := CopyEnds(r, i);
    Snoc(r, copy, RSend(i));
    First(s, RRelock(i), copy + [RSend(i)]);
    more := [RRelock(i)] + (copy + [RSend(i)]);
  }

  /** A consumer that was woken has, once the holder is done, a way to send the last publication. */
  lemma WokenConsumerIsServed(s: State, run: seq<Action>, i: nat) returns (rest: seq<Action>, turn: seq<Action>)
    requires Init(s) && Possible(s, run) && At(After(s, run), i, Woken)
    ensures StepsOf(rest, After(s, run).mutex) && StepsOf(turn, Reader(i))
    ensures Possible(s, run + rest + turn)
    ensures var r, r' := After(s, run), After(s, run + rest + turn);
            Served(r, r', i) && (!r.writer.Storing? ==> r'.published == r.published)
  {
    hide Inv, Init, Enabled, Apply, Served;
    RunInv(s, run);
    var r := After(s, run);
    rest := Release(r);
    Concat(s, run, rest);
    var free := After(r, rest);
    turn := TakesTurn(free, i);
    Concat(s, run + rest, turn);
    SameSent(r, free, After(free, turn), i);
  }

  lemma SameSent(s: State, s': State, r: State, i: nat)
    requires Served(s', r, i) && i < |s.consumers| && s.consumers[i] == s'.consumers[i]
    ensures Served(s, r, i)
  {
  }

  /** A consumer that waits when a publication is broadcast has a way to send that publication. */
  lemma WaitingConsumerIsServed(s: State, run: seq<Action>, i: nat) returns (rest: seq<Action>, turn: seq<Action>)
    requires Init(s) && Possible(s, run) && At(After(s, run), i, Waiting) && Enabled(After(s, run), WBroadcast)
    ensures StepsOf(rest, Writer) && StepsOf(turn, Reader(i))
    ensures Possible(s, run + [WBroadcast] + rest + turn)
    ensures var r, r' := After(s, run), After(s, run + [WBroadcast] + rest + turn);
            && i < |r'.consumers|
            && r'.published == r.published + [Publication(r.buf[..r.size], r.stamp)]
            && r'.consumers[i].sent ==
               r.consumers[i].sent + [Sent(|r.published|, r.buf[..r.size], r.stamp)]
  {
    hide Inv, Init;
    RunInv(s, run);
    Snoc(s, run, WBroadcast);
    BroadcastWakes(s, run, i);
    rest, turn := WokenConsumerIsServed(s, run + [WBroadcast], i);
  }

  lemma BroadcastWakes(s: State, run: seq<Action>, i: nat)
    requires Init(s) && Possible(s, run) && At(After(s, run), i, Waiting) && Enabled(After(s, run), WBroadcast)
    ensures var r := Apply(After(s, run), WBroadcast);
            At(r, i, Woken) && r.mutex.Writer? && !r.writer.Storing?
  {
    RunInv(s, run);
  }

  // ---------------------------------------------------------------- spurious wakeups

  /** A consumer enters its wait and is woken without a broadcast. */
  lemma Disturb(s: State) returns (run: seq<Action>)
    requires Inv(s) && s.mutex.Free? && At(s, 0, Idle)
    ensures Possible(s, run) && At(After(s, run), 0, Woken)
    ensures After(s, run) == WithConsumer(s, 0, After(s, run).consumers[0])
    ensures After(s, run).consumers[0].sent == s.consumers[0].sent
  {
    hide Inv, Possible, After;
    EmptyRun(s);
    Snoc(s, [], RLock(0));
    Snoc(s, [] + [RLock(0)], RWait(0));
    Snoc(s, [] + [RLock(0)] + [RWait(0)], RSpuriousWakeup(0));
    run := [] + [RLock(0)] + [RWait(0)] + [RSpuriousWakeup(0)];
  }

  lemma EmptyRun(s: State)
    ensures Possible(s, []) && After(s, []) == s
  {
  }

  /** One turn of consumer 0 with such a wakeup. */
  lemma DisturbedLap(s: State) returns (run: seq<Action>)
    requires Inv(s) && s.mutex.Free? && At(s, 0, Idle)
    ensures Possible(s, run) && Inv(After(s, run)) && At(After(s, run), 0, Idle)
    ensures After(s, run) == WithConsumer(s, 0, After(s, run).consumers[0]) && Served(s, After(s, run), 0)
  {
    hide Inv, Possible, After, Enabled, Apply;
    var wait := Disturb(s);
    var woken := After(s, wait);
    KeepsInv(s, wait);
    var turn := TakesTurn(woken, 0);
    Concat(s, wait, turn);
    run := wait + turn;
    KeepsInv(s, run);
  }

  /** The writer publishes a picture. */
  lemma Publish(s: State, data: seq<byte>, stamp: int) returns (run: seq<Action>)
    requires Inv(s) && s.mutex.Free?
    ensures Possible(s, run) && After(s, run).mutex.Free? && |After(s, run).consumers| == |s.consumers|
    ensures After(s, run).published == s.published + [Publication(data, stamp)]
    ensures After(s, run).buf == data && After(s, run).size == |data|
    ensures forall i :: 0 <= i < |s.consumers| ==> After(s, run).consumers[i] == WakeUp(s.consumers[i])
  {
    assert s.writer.Outside?;
    hide Inv, Possible, After;
    EmptyRun(s);
    Snoc(s, [], WLock);
    Snoc(s, [] + [WLock], WStore(data, |data|, stamp));
    Snoc(s, [] + [WLock] + [WStore(data, |data|, stamp)], WBroadcast);
    Snoc(s, [] + [WLock] + [WStore(data, |data|, stamp)] + [WBroadcast], WUnlock);
    run := [] + [WLock] + [WStore(data, |data|, stamp)] + [WBroadcast] + [WUnlock];
    assert data[..|data|] == data;
  }

  /** With spurious wakeups one publication can go out twice, whatever it is: the wait is not in a
      loop. */
  lemma SpuriousWakeupsRepeat(data: seq<byte>, stamp: int) returns (s: State, run: seq<Action>)
    ensures Init(s) && Possible(s, run) && |After(s, run).consumers| == 1
    ensures |After(s, run).published| == 2 && After(s, run).published[1] == Publication(data, stamp)
    ensures After(s, run).consumers[0].sent == [Sent(1, data, stamp), Sent(1, data, stamp)]
  {
    s := State(Free, [], 0, 0, Outside, [Consumer(Idle, 0, 0, [], 0, [], false)], [Publication([], 0)]);
    InitInv(s);
    hide Inv, Possible, After, Enabled, Apply;
    var first := Publish(s, data, stamp);
    var r := After(s, first);
    KeepsInv(s, first);
    var one := DisturbedLap(r);
    var two := DisturbedLap(After(r, one));
    Concat(r, one, two);
    Concat(s, first, one + two);
    run := first + (one + two);
  }
}
