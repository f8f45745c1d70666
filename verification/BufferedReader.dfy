/** The right-aligned input buffer of output_http, against a plain byte queue. */
module BufferedReader {
  import opened Words

  const IO_BUFFER := 256

  /** What the socket does next: nothing within the timeout, some bytes, or an end or error. */
  datatype Event = Timeout | Chunk(bytes: seq<byte>) | Broken(rc: int)

  predicate Plausible(e: Event) {
    match e
    case Timeout => true
    case Chunk(b) => 0 < |b| <= IO_BUFFER
    case Broken(rc) => rc == 0 || rc == -1
  }

  predicate AllPlausible(events: seq<Event>) {
    forall i :: 0 <= i < |events| ==> Plausible(events[i])
  }

  predicate OnlyChunks(events: seq<Event>) {
    forall i :: 0 <= i < |events| ==> events[i].Chunk?
  }

  /** All bytes still to come. */
  function Flat(events: seq<Event>): (s: seq<byte>) {
    if events == [] then []
    else (match events[0] case Chunk(b) => b case _ => []) + Flat(events[1..])
  }

  /** What a read hands out, its return value, and what is left unread and to come. */
  datatype Result = Result(got: seq<byte>, rc: int, unread: seq<byte>, events: seq<Event>)

  /** `_read` on a queue of unread bytes. */
  function Read(unread: seq<byte>, events: seq<Event>, len: nat): (r: Result)
    decreases |events|
  {
    if |unread| >= len then Result(unread[..len], len, unread[len..], events)
    else if events == [] then Result(unread, |unread|, [], [])
    else match events[0]
      case Timeout => Result(unread, |unread|, [], events[1..])
      case Broken(_) => Result(unread, -1, [], events[1..])
      case Chunk(b) => Behind(unread, Read(b, events[1..], len - |unread|))
  }

  /** The result of a read that had handed out `before` when it went on as `r`. */
  function Behind(before: seq<byte>, r: Result): (q: Result) {
    r.(got := before + r.got, rc := if r.rc < 0 then -1 else |before| + r.rc)
  }

  lemma BehindBehind(a: seq<byte>, b: seq<byte>, r: Result)
    ensures Behind(a, Behind(b, r)) == Behind(a + b, r)
  {
    assert a + (b + r.got) == a + b + r.got;
  }

  lemma Regroup(a: seq<byte>, g: seq<byte>, u: seq<byte>, f: seq<byte>, b: seq<byte>, e: seq<byte>)
    requires g + u + f == b + e
    ensures (a + g) + u + f == a + (b + e)
  {
    assert (a + g) + u + f == a + (g + u + f);
  }

  /** Nothing is lost, repeated or moved, and the return value counts the bytes handed out. */
  lemma {:induction false} ReadConserves(unread: seq<byte>, events: seq<Event>, len: nat, r: Result)
    requires r == Read(unread, events, len)
    ensures r.got + r.unread + Flat(r.events) == unread + Flat(events)
    ensures r.rc == -1 || r.rc == |r.got|
    ensures |r.got| <= len
    decreases |events|
  {
    FlatStep(events);
    hide Flat;
    if |unread| >= len {
      assert unread[..len] + unread[len..] == unread;
    } else if events == [] {
      assert unread + [] + [] == unread + [];
    } else if events[0].Chunk? {
      var b := events[0].bytes;
      var q := Read(b, events[1..], len - |unread|);
      ReadConserves(b, events[1..], len - |unread|, q);
      Regroup(unread, q.got, q.unread, Flat(q.events), b, Flat(events[1..]));
    } else {
      assert unread + [] + Flat(events[1..]) == unread + ([] + Flat(events[1..]));
    }
  }

  lemma FlatStep(events: seq<Event>)
    ensures Flat(events) ==
            if events == [] then [] else (match events[0] case Chunk(b) => b case _ => []) + Flat(events[1..])
  {
  }

  /** Without timeouts and errors a read is exactly the front of the byte queue, however the
      bytes were cut into chunks. */
  lemma {:induction false} ReadIsQueueFront(unread: seq<byte>, events: seq<Event>, len: nat)
    requires OnlyChunks(events)
    ensures var r := Read(unread, events, len);
            var queue := unread + Flat(events);
            var n := if len <= |queue| then len else |queue|;
            && r.rc == n && r.got == queue[..n]
            && r.unread + Flat(r.events) == queue[n..] && OnlyChunks(r.events)
    decreases |events|
  {
    if |unread| < len && events != [] {
      var b := events[0].bytes;
      ReadIsQueueFront(b, events[1..], len - |unread|);
      var r := Read(b, events[1..], len - |unread|);
      assert unread + Flat(events) == unread + (b + Flat(events[1..]));
    } else if |unread| < len {
      assert unread + Flat(events) == unread;
    } else {
      assert (unread + Flat(events))[..len] == unread[..len];
      assert (unread + Flat(events))[len..] == unread[len..] + Flat(events);
    }
  }

  // ---------------------------------------------------------------- lines

  /** `_readline` after `line` has been stored: byte by byte up to a newline or `len` bytes. */
  function ReadLine(unread: seq<byte>, events: seq<Event>, len: nat, line: seq<byte>): (r: Result)
    decreases len - |line|
  {
    if |line| >= len || (|line| > 0 && line[|line| - 1] == 10) then Result(line, |line|, unread, events)
    else
      var r := Read(unread, events, 1);
      if r.rc <= 0 || |r.got| != 1 then Result(line, -1, r.unread, r.events)
      else ReadLine(r.unread, r.events, len, line + r.got)
  }

  /** How long the first line of a text is: up to its first newline, at most `len`. */
  function LineLength(s: seq<byte>, len: nat): (n: nat)
    ensures n <= len && n <= |s|
    ensures forall i :: 0 <= i < n - 1 ==> s[i] != 10
  {
    if len == 0 || s == [] then 0 else if s[0] == 10 then 1 else 1 + LineLength(s[1..], len - 1)
  }

  /** A whole line is there: a newline, or `len` bytes. */
  predicate LineComplete(s: seq<byte>, len: nat) {
    var n := LineLength(s, len);
    n == len || (n > 0 && s[n - 1] == 10)
  }

  /** Reading one byte from the queue. */
  lemma ReadOne(unread: seq<byte>, events: seq<Event>, queue: seq<byte>, r: Result)
    requires OnlyChunks(events) && queue == unread + Flat(events) && r == Read(unread, events, 1)
    ensures OnlyChunks(r.events)
    ensures if queue == [] then r.rc == 0
            else r.rc == 1 && r.got == [queue[0]] && r.unread + Flat(r.events) == queue[1..]
  {
    ReadIsQueueFront(unread, events, 1);
    if queue != [] {
      assert queue[..1] == [queue[0]];
    }
  }

  lemma LineStep(queue: seq<byte>, rest: seq<byte>, len: nat)
    requires queue != [] && rest == queue[1..] && len > 0 && queue[0] != 10
    ensures LineLength(queue, len) == 1 + LineLength(rest, len - 1)
    ensures LineComplete(queue, len) <==> LineComplete(rest, len - 1)
    ensures queue[..LineLength(queue, len)] == [queue[0]] + rest[..LineLength(rest, len - 1)]
    ensures queue[LineLength(queue, len)..] == rest[LineLength(rest, len - 1)..]
  {
  }

  /** What a finished line read must look like. */
  ghost predicate LineRead(r: Result, line: seq<byte>, queue: seq<byte>, len: nat) {
    var n := LineLength(queue, len);
    if LineComplete(queue, len) then
      && r.rc == |line| + n && r.got == line + queue[..n]
      && r.unread + Flat(r.events) == queue[n..] && OnlyChunks(r.events)
    else r.rc == -1
  }

  lemma LineReadOn(r: Result, line: seq<byte>, queue: seq<byte>, len: nat)
    requires queue != [] && queue[0] != 10 && len > 0 && LineRead(r, line + [queue[0]], queue[1..], len - 1)
    ensures LineRead(r, line, queue, len)
  {
    LineStep(queue, queue[1..], len);
    hide LineLength, Flat;
    var n := LineLength(queue[1..], len - 1);
    assert line + [queue[0]] + queue[1..][..n] == line + ([queue[0]] + queue[1..][..n]);
  }

  /** The line read is the queue up to the first newline or `len`; the rest stays in the queue. If
      the queue ends before that, the bytes are consumed and -1 is returned. */
  lemma {:induction false} ReadLineIsFirstLine(
    unread: seq<byte>, events: seq<Event>, len: nat, line: seq<byte>, queue: seq<byte>)
    requires OnlyChunks(events) && queue == unread + Flat(events)
    requires |line| <= len && (|line| > 0 ==> line[|line| - 1] != 10)
    ensures LineRead(ReadLine(unread, events, len, line), line, queue, len - |line|)
    decreases len - |line|
  {
    hide Read, ReadLine, OnlyChunks, Flat, LineRead;
    var r := Read(unread, events, 1);
    ReadLineCases(unread, events, len, line, r);
    if |line| == len {
      FullLine(unread, events, line, queue);
    } else {
      ReadOne(unread, events, queue, r);
      if queue == [] {
        NoLine(ReadLine(unread, events, len, line), line, len - |line|);
      } else if queue[0] == 10 {
        ReadLineCases(r.unread, r.events, len, line + r.got, r);
        NewLine(ReadLine(unread, events, len, line), line, queue, len - |line|);
      } else {
        ReadLineIsFirstLine(r.unread, r.events, len, line + r.got, queue[1..]);
        LineReadOn(ReadLine(unread, events, len, line), line, queue, len - |line|);
      }
    }
  }

  /** The cases of `_readline`'s loop. */
  lemma ReadLineCases(unread: seq<byte>, events: seq<Event>, len: nat, line: seq<byte>, r: Result)
    ensures |line| >= len || (|line| > 0 && line[|line| - 1] == 10) ==>
              ReadLine(unread, events, len, line) == Result(line, |line|, unread, events)
    ensures r == Read(unread, events, 1) && !(|line| >= len || (|line| > 0 && line[|line| - 1] == 10)) ==>
              ReadLine(unread, events, len, line) ==
              if r.rc <= 0 || |r.got| != 1 then Result(line, -1, r.unread, r.events)
              else ReadLine(r.unread, r.events, len, line + r.got)
  {
  }

  lemma FullLine(unread: seq<byte>, events: seq<Event>, line: seq<byte>, queue: seq<byte>)
    requires OnlyChunks(events) && queue == unread + Flat(events)
    ensures LineRead(Result(line, |line|, unread, events), line, queue, 0)
  {
    hide Flat, OnlyChunks;
    assert queue[..0] == [] && queue[0..] == queue && line + [] == line;
  }

  lemma NoLine(r: Result, line: seq<byte>, len: nat)
    requires r.rc == -1 && len > 0
    ensures LineRead(r, line, [], len)
  {
  }

  lemma NewLine(r: Result, line: seq<byte>, queue: seq<byte>, len: nat)
    requires queue != [] && queue[0] == 10 && len > 0 && OnlyChunks(r.events)
    requires r.got == line + [queue[0]] && r.rc == |line| + 1 && r.unread + Flat(r.events) == queue[1..]
    ensures LineRead(r, line, queue, len)
  {
    hide Flat, OnlyChunks;
    assert queue[..1] == [queue[0]];
  }

  lemma {:induction false} ReadLineConserves(
    unread: seq<byte>, events: seq<Event>, len: nat, line: seq<byte>, r: Result)
    requires r == ReadLine(unread, events, len, line)
    ensures r.got + r.unread + Flat(r.events) == line + (unread + Flat(events))
    decreases len - |line|
  {
    hide Read, Flat;
    if !(|line| >= len || (|line| > 0 && line[|line| - 1] == 10)) {
      var q := Read(unread, events, 1);
      ReadConserves(unread, events, 1, q);
      if q.rc <= 0 || |q.got| != 1 {
        NoByte(unread, events, q);
      } else {
        ReadLineConserves(q.unread, q.events, len, line + q.got, r);
        assert line + q.got + (q.unread + Flat(q.events)) == line + (q.got + q.unread + Flat(q.events));
      }
    }
  }

  lemma {:induction false} NoByte(unread: seq<byte>, events: seq<Event>, q: Result)
    requires q == Read(unread, events, 1) && (q.rc <= 0 || |q.got| != 1)
    ensures q.got == []
    decreases |events|
  {
    if |unread| < 1 && events != [] && events[0].Chunk? {
      NoByte(events[0].bytes, events[1..], Read(events[0].bytes, events[1..], 1));
    }
  }

  /** A call of `_read` or of `_readline`. */
  datatype Request = Bytes(len: nat) | Line(len: nat)

  function Serve(unread: seq<byte>, events: seq<Event>, requests: seq<Request>): (r: Result) {
    if requests == [] then Result([], 0, unread, events)
    else
      var before := Serve(unread, events, requests[..|requests| - 1]);
      var r := match requests[|requests| - 1]
               case Bytes(len) => Read(before.unread, before.events, len)
               case Line(len) => ReadLine(before.unread, before.events, len, []);
      r.(got := before.got + r.got)
  }

  /** Over any sequence of calls, and whatever the socket does in between, the bytes handed out and
      the bytes still queued are the input in order. */
  lemma {:induction false} CallsConserve(unread: seq<byte>, events: seq<Event>, requests: seq<Request>)
    ensures var r := Serve(unread, events, requests);
            r.got + r.unread + Flat(r.events) == unread + Flat(events)
  {
    hide Read, ReadLine, Flat;
    if requests != [] {
      var n := |requests| - 1;
      var before := Serve(unread, events, requests[..n]);
      CallsConserve(unread, events, requests[..n]);
      var r := match requests[n]
               case Bytes(len) => Read(before.unread, before.events, len)
               case Line(len) => ReadLine(before.unread, before.events, len, []);
      if requests[n].Bytes? {
        ReadConserves(before.unread, before.events, requests[n].len, r);
      } else {
        ReadLineConserves(before.unread, before.events, requests[n].len, [], r);
      }
      Regroup(before.got, r.got, r.unread, Flat(r.events), before.unread, Flat(before.events));
      assert before.got + before.unread + Flat(before.events) == before.got + (before.unread + Flat(before.events));
    }
  }

  // ---------------------------------------------------------------- the code

  class IoBuffer {
    const buffer: array<byte>
    var level: int
    /** What the socket is going to do. */
    var events: seq<Event>

    ghost predicate Valid()
      reads this, buffer
    {
      buffer.Length == IO_BUFFER && 0 <= level <= IO_BUFFER && AllPlausible(events)
    }

    /** The unread bytes are the last `level` of the buffer. */
    ghost function Unread(): (s: seq<byte>)
      requires Valid()
      reads this, buffer
    {
      buffer[IO_BUFFER - level..]
    }

    constructor (events: seq<Event>)
      requires AllPlausible(events)
      ensures Valid() && Unread() == [] && this.events == events && fresh(buffer)
    {
      buffer := new byte[IO_BUFFER](_ => 0);
      level := 0;
      this.events := events;
    }

    /** `read` into the front of the buffer, then the bytes moved to its end. */
    method Refill(bytes: seq<byte>)
      requires buffer.Length == IO_BUFFER && 0 < |bytes| <= IO_BUFFER && AllPlausible(events)
      modifies this`level, buffer
      ensures Valid() && Unread() == bytes
      ensures level == |bytes| && buffer.Length == 256 && buffer[256 - |bytes|..] == bytes
    {
      forall i | 0 <= i < IO_BUFFER {
        buffer[i] := 0;
      }
      level := |bytes|;
      forall i | 0 <= i < |bytes| {
        buffer[i] := bytes[i];
      }
      forall i | 0 <= i < |bytes| {
        buffer[IO_BUFFER - |bytes| + i] := buffer[i];
      }
    }

    /** `memcpy` of up to `want` unread bytes to `dst[at..]`. */
    method Take(dst: array<byte>, at: nat, want: nat) returns (n: nat)
      requires Valid() && dst != buffer && at + want <= dst.Length
      modifies this`level, dst
      ensures Valid() && n == (if old(level) < want then old(level) else want)
      ensures level == old(level) - n && Unread() == old(Unread())[n..]
      ensures dst[..at] == old(dst[..at]) && dst[at..at + n] == old(Unread())[..n]
      ensures forall k :: at + n <= k < dst.Length ==> dst[k] == old(dst[k])
    {
      n := if level < want then level else want;
      var from := IO_BUFFER - level;
      ghost var unread := Unread();
      forall i | 0 <= i < n {
        dst[at + i] := buffer[from + i];
      }
      level := level - n;
      assert forall i :: 0 <= i < n ==> dst[at + i] == unread[i];
      assert dst[at..at + n] == unread[..n];
      assert buffer[IO_BUFFER - level..] == unread[n..];
    }

    /** The wait for the socket and the `read`: false with the value to return, or new bytes. */
    method Fetch(copied: nat) returns (more: bool, rc: int)
      requires Valid() && level == 0
      modifies this, buffer
      ensures events == if old(events) == [] then [] else old(events)[1..]
      ensures more ==> Valid() && old(events) != [] && old(events)[0].Chunk? && Unread() == old(events)[0].bytes
      ensures !more ==> (old(events) == [] || !old(events)[0].Chunk?)
      ensures !more ==> Read([], old(events), 1) == Result([], if rc < 0 then -1 else 0, [], events)
      ensures !more ==> rc == copied || rc == -1
      ensures !more && level < 0 ==> rc == -1
      ensures !more ==> level == if old(events) != [] && old(events)[0] == Broken(-1) then -1 else 0
      ensures AllPlausible(events)
    {
      if events == [] {
        return false, copied;
      }
      var next := events[0];
      events := events[1..];
      match next
      case Timeout =>
        return false, copied;
      case Broken(error) =>
        level := error;
        return false, -1;
      case Chunk(bytes) =>
        Refill(bytes);
        return true, 0;
    }

    /** One pass of the loop of `_read`: copy what is buffered, and wait for more if that is not enough. */
    method ReadPass(dst: array<byte>, copied: nat, ghost came: seq<Event>, ghost whole: Result)
      returns (now: nat, done: bool, rc: int)
      requires Valid() && dst != buffer && copied < dst.Length
      requires forall k :: copied <= k < dst.Length ==> dst[k] == 0
      requires whole == Behind(dst[..copied], Read(Unread(), events, dst.Length - copied))
      requires Later(events, came) && !LastFailed(came, events)
      modifies this, buffer, dst
      ensures done ==> rc == whole.rc && |whole.got| <= dst.Length && Delivered(whole, dst, |whole.got|, came)
      ensures !done ==> Valid() && copied <= now < dst.Length && |events| < |old(events)|
      ensures !done ==> Later(events, came) && !LastFailed(came, events)
      ensures !done ==> forall k :: now <= k < dst.Length ==> dst[k] == 0
      ensures !done ==> whole == Behind(dst[..now], Read(Unread(), events, dst.Length - now))
    {
      hide Read, Behind, Plausible, Later, LastFailed;
      ghost var before, unread, coming := dst[..copied], Unread(), events;
      var i := Take(dst, copied, dst.Length - copied);
      now := copied + i;
      assert dst[..now] == before + unread[..i];
      if now >= dst.Length {
        TakenResult(before, unread, coming, i);
        assert |whole.got| == now && dst[..|whole.got|] == whole.got;
        return now, true, now;
      }
      assert unread[..i] == unread;
      var more;
      more, rc := Fetch(now);
      FetchedResult(before, unread, coming, dst.Length - |before|, more, rc);
      OneEventLater(coming, events, came);
      done := !more;
      if done {
        assert |whole.got| == now && dst[..|whole.got|] == whole.got;
      }
    }

    /** `_read`. After a failed `read` the level is -1, and the buffer must not be used again. */
    method ReadInto(dst: array<byte>) returns (rc: int)
      requires Valid() && dst != buffer
      modifies this, buffer, dst
      ensures var r := Read(old(Unread()), old(events), dst.Length);
              rc == r.rc && |r.got| <= dst.Length && Delivered(r, dst, |r.got|, old(events))
    {
      hide Read, Behind, Plausible;
      Clear(dst);
      var copied: nat := 0;
      var done := false;
      ghost var whole := Read(Unread(), events, dst.Length);
      ReadConserves(Unread(), events, dst.Length, whole);
      NothingBefore(whole);
      while copied < dst.Length
        invariant Valid() && (dst.Length > 0 ==> copied < dst.Length) && (dst.Length == 0 ==> copied == 0)
        invariant forall k :: copied <= k < dst.Length ==> dst[k] == 0
        invariant whole == Behind(dst[..copied], Read(Unread(), events, dst.Length - copied))
        invariant Later(events, old(events)) && !LastFailed(old(events), events)
        decreases |events|
      {
        copied, done, rc := ReadPass(dst, copied, old(events), whole);
        if done {
          return;
        }
      }
      TakenResult(dst[..0], Unread(), events, 0);
      return 0;
    }

    /** `_readline`: one byte at a time until a newline was stored or the line is full. A timeout
        inside a line leaves what was read in `dst` and the buffer usable. */
    method ReadLineInto(dst: array<byte>) returns (rc: int)
      requires Valid() && dst != buffer
      modifies this, buffer, dst
      ensures var r := ReadLine(old(Unread()), old(events), dst.Length, []);
              rc == r.rc && |r.got| <= dst.Length && Delivered(r, dst, |r.got|, old(events))
    {
      hide Read, Plausible;
      Clear(dst);
      var c := new byte[1](_ => 0);
      var last: byte := 0;
      var i := 0;
      ghost var whole := ReadLine(Unread(), events, dst.Length, []);
      assert dst[..i] == [];
      while i < dst.Length && last != 10
        invariant Valid() && 0 <= i <= dst.Length
        invariant whole == ReadLine(Unread(), events, dst.Length, dst[..i])
        invariant if i == 0 then last == 0 else last == dst[i - 1]
        invariant forall k :: i <= k < dst.Length ==> dst[k] == 0
        invariant Later(events, old(events)) && !LastFailed(old(events), events)
      {
        ghost var line, unread, coming := dst[..i], Unread(), events;
        rc := ReadInto(c);
        ReadConserves(unread, coming, 1, Read(unread, coming, 1));
        LaterStill(events, coming, old(events));
        if rc <= 0 {
          return -1;
        }
        last := c[0];
        dst[i] := last;
        i := i + 1;
        assert dst[..i] == line + c[..1];
      }
      return i;
    }

    /** The destination shows the `n` bytes of result `r` and the buffer what `r` leaves unread,
        unless the last event was a failed `read`. */
    ghost predicate Delivered(r: Result, dst: array<byte>, n: nat, came: seq<Event>)
      requires n <= dst.Length
      reads this, buffer, dst
    {
      && events == r.events && Later(events, came)
      && dst[..n] == r.got && (forall k :: n <= k < dst.Length ==> dst[k] == 0)
      && (if LastFailed(came, events) then level == -1 && r.rc == -1 else Valid() && Unread() == r.unread)
    }

    /** Any sequence of calls, as long as no `read` fails: what they hand out and leave is what the
        byte queue says. */
    method ServeAll(requests: seq<Request>) returns (ghost r: Result)
      requires Valid() && Broken(-1) !in events
      modifies this, buffer
      ensures Valid() && r == Serve(old(Unread()), old(events), requests)
      ensures Unread() == r.unread && events == r.events
      ensures r.got + Unread() + Flat(events) == old(Unread()) + Flat(old(events))
    {
      hide Read, ReadLine, Flat, Plausible;
      r := Result([], 0, Unread(), events);
      assert requests[..0] == [];
      for n := 0 to |requests|
        invariant Valid() && Broken(-1) !in events
        invariant r == Serve(old(Unread()), old(events), requests[..n])
        invariant Unread() == r.unread && events == r.events
      {
        ghost var coming := events;
        assert requests[..n + 1][..n] == requests[..n];
        var dst := new byte[requests[n].len](_ => 0);
        if requests[n].Bytes? {
          var rc := ReadInto(dst);
        } else {
          var rc := ReadLineInto(dst);
        }
        NoneFailed(coming, events);
        r := Serve(old(Unread()), old(events), requests[..n + 1]);
      }
      assert requests[..|requests|] == requests;
      CallsConserve(old(Unread()), old(events), requests);
    }
  }

  /** What is left of `came` after some events. */
  ghost predicate Later(events: seq<Event>, came: seq<Event>) {
    |events| <= |came| && came[|came| - |events|..] == events
  }

  /** The last event before those left was a `read` that failed. */
  ghost predicate LastFailed(came: seq<Event>, left: seq<Event>) {
    |left| < |came| && came[|came| - |left| - 1] == Broken(-1)
  }

  lemma OneEventLater(events: seq<Event>, left: seq<Event>, came: seq<Event>)
    requires Later(events, came) && left == if events == [] then [] else events[1..]
    ensures Later(left, came)
    ensures events != [] ==> (LastFailed(came, left) <==> events[0] == Broken(-1))
  {
    if events != [] {
      assert came[|came| - |events|..][0] == came[|came| - |events|];
      assert came[|came| - |left|..] == came[|came| - |events|..][1..];
    }
  }

  lemma LaterStill(left: seq<Event>, events: seq<Event>, came: seq<Event>)
    requires Later(left, events) && Later(events, came) && !LastFailed(came, events)
    ensures Later(left, came) && (LastFailed(came, left) <==> LastFailed(events, left))
  {
    assert came[|came| - |left|..] == came[|came| - |events|..][|events| - |left|..];
    if |left| < |events| {
      assert came[|came| - |events|..][|events| - |left| - 1] == came[|came| - |left| - 1];
    }
  }

  lemma NoneFailed(came: seq<Event>, left: seq<Event>)
    requires Broken(-1) !in came && Later(left, came)
    ensures !LastFailed(came, left) && Broken(-1) !in left
  {
  }

  lemma FetchedResult(before: seq<byte>, unread: seq<byte>, events: seq<Event>, len: nat, more: bool, rc: int)
    requires |unread| < len
    requires more ==> events != [] && events[0].Chunk?
    requires !more ==> (events == [] || !events[0].Chunk?) && Read([], events, 1).rc == (if rc < 0 then -1 else 0)
    ensures more ==>
              Behind(before, Read(unread, events, len)) ==
              Behind(before + unread, Read(events[0].bytes, events[1..], len - |unread|))
    ensures !more ==>
              Behind(before, Read(unread, events, len)) ==
              Result(before + unread, if rc < 0 then -1 else |before| + |unread|, [], Read([], events, 1).events)
  {
    if more {
      BehindBehind(before, unread, Read(events[0].bytes, events[1..], len - |unread|));
    }
  }

  lemma TakenResult(before: seq<byte>, unread: seq<byte>, events: seq<Event>, len: nat)
    requires len <= |unread|
    ensures Behind(before, Read(unread, events, len)) ==
            Result(before + unread[..len], |before| + len, unread[len..], events)
  {
  }

  lemma NothingBefore(r: Result)
    requires r.rc >= -1
    ensures Behind([], r) == r
  {
    assert [] + r.got == r.got;
  }

  method Clear(dst: array<byte>)
    modifies dst
    ensures forall k :: 0 <= k < dst.Length ==> dst[k] == 0
  {
    forall i | 0 <= i < dst.Length {
      dst[i] := 0;
    }
  }
}
