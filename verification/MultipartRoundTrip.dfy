/** `extract_data` on what `send_stream` prints. */
module MultipartRoundTrip {
  import opened Words
  import opened Sequences
  import opened Extractor
  import opened ResetMatcher
  import opened HeaderDetection
  import opened PartReader
  import opened StreamPrinter

  /** The parser at the start of a content part. */
  ghost predicate AtContent(s: State, out: seq<Delivery>) {
    !s.header && s.content == [] && s.boundaryMatch == 0 && s.out == out && s.Valid()
  }

  const LIMIT := BUFFER_SIZE - 1

  /** Content without a match is collected. */
  lemma {:induction false} Collects(s: State, t: seq<byte>)
    requires AtContent(s, s.out) && |t| <= LIMIT && !Hits(BOUNDARY, t)
    ensures Run(s, t) == s.(content := t, boundaryMatch := Progress(BOUNDARY, t))
  {
    if t != [] {
      var n := |t| - 1;
      assert t == t[..n] + [t[n]];
      Collects(s, t[..n]);
    }
  }

  /** The first match delivers what was collected, less the delimiter. */
  lemma Delivers(s: State, t: seq<byte>)
    requires AtContent(s, s.out) && 0 < |t| <= LIMIT && Hits(BOUNDARY, t) && !Hits(BOUNDARY, t[..|t| - 1])
    ensures Run(s, t) == Reset(s.out + [Deliver(t)])
  {
    var n := |t| - 1;
    assert t == t[..n] + [t[n]];
    Collects(s, t[..n]);
  }

  /** Once the buffer is full the parser never calls back again, whatever comes. */
  lemma {:induction false} StaysDeaf(s: State, input: seq<byte>)
    requires s.Valid() && !s.header && |s.content| >= LIMIT
    ensures Run(s, input) == s
  {
    if input != [] {
      StaysDeaf(s, input[..|input| - 1]);
    }
  }

  lemma Overflows(s: State, t: seq<byte>)
    requires AtContent(s, s.out) && |t| >= LIMIT && !Hits(BOUNDARY, t[..LIMIT])
    ensures Run(s, t).out == s.out
  {
    Collects(s, t[..LIMIT]);
    assert t == t[..LIMIT] + t[LIMIT..];
    RunAppend(s, t[..LIMIT], t[LIMIT..]);
    StaysDeaf(Run(s, t[..LIMIT]), t[LIMIT..]);
  }

  // ---------------------------------------------------------------- one part

  /** A picture and the delimiter behind it, as far as the boundary's last character. */
  function Content(f: seq<byte>): (t: seq<byte>) {
    f + CRLF + BOUNDARY
  }

  /** The matcher finds no boundary in the picture, and picture and delimiter fit the buffer. */
  predicate Fits(f: seq<byte>) {
    |BOUNDARY| > 0 && !Hits(BOUNDARY, f) && |f| <= 262121
  }

  /** A delimiter behind CRLF is found at its last character and not before. */
  lemma DelimiterFound(f: seq<byte>, k: nat)
    requires !Hits(BOUNDARY, f) && k <= |BOUNDARY|
    ensures Progress(BOUNDARY, f + CRLF + BOUNDARY[..k]) == k
  {
    BoundaryFacts();
    BreaksMatch(BOUNDARY, f, 13);
    BreaksMatch(BOUNDARY, f + [13], 10);
    assert f + CRLF == f + [13] + [10];
    FollowsPattern(BOUNDARY, f + CRLF, k);
  }

  lemma FitDelivered(s: State, f: seq<byte>)
    requires AtContent(s, s.out) && Fits(f)
    ensures Run(s, Content(f)) == Reset(s.out + [Delivery(|f|, f)])
  {
    hide Run, Progress;
    BoundaryFacts();
    var t := Content(f);
    var n := |BOUNDARY|;
    DelimiterFound(f, n);
    assert BOUNDARY[..n] == BOUNDARY;
    DelimiterFound(f, n - 1);
    assert t[..|t| - 1] == f + CRLF + BOUNDARY[..n - 1];
    Delivers(s, t);
    assert t[..|f|] == f;
  }

  /** What the callbacks show of a part that does not fit: nothing any more, or a wrong length. */
  ghost predicate Spoiled(after: seq<Delivery>, before: seq<Delivery>, f: seq<byte>) {
    after == before || (|before| < |after| && after[|before|].length != |f|)
  }

  lemma EarlyHit(s: State, t: seq<byte>, n: nat, rest: seq<byte>)
    requires AtContent(s, s.out) && 0 < n <= |t| && Hits(BOUNDARY, t[..n]) && !Hits(BOUNDARY, t[..n - 1])
    ensures var after := Run(s, t + rest).out;
            after == s.out || (|s.out| < |after| && after[|s.out|].length == n - 22)
  {
    hide Run, Progress;
    BoundaryFacts();
    var all := t + rest;
    assert all[..n] == t[..n] && t[..n][..n - 1] == t[..n - 1];
    if n <= LIMIT {
      Delivers(s, t[..n]);
      assert all == t[..n] + all[n..];
      RunAppend(s, t[..n], all[n..]);
      RunExtends(Run(s, t[..n]), all[n..]);
    } else {
      if Hits(BOUNDARY, all[..LIMIT]) {
        assert t[..n - 1][..LIMIT] == all[..LIMIT];
        HitsStay(BOUNDARY, t[..n - 1], LIMIT);
      }
      Overflows(s, all);
    }
  }

  lemma MisfitSpoils(s: State, f: seq<byte>, rest: seq<byte>)
    requires AtContent(s, s.out) && !Fits(f)
    ensures Spoiled(Run(s, Content(f) + rest).out, s.out, f)
  {
    BoundaryFacts();
    var t := Content(f);
    if Hits(BOUNDARY, f) {
      var n := FirstHit(BOUNDARY, f);
      assert t[..n] == f[..n] && t[..n - 1] == f[..n - 1];
      EarlyHit(s, t, n, rest);
    } else {
      var k := LIMIT - |f| - 2;
      if k >= 0 {
        assert (t + rest)[..LIMIT] == f + CRLF + BOUNDARY[..k];
        DelimiterFound(f, k);
      } else {
        assert (t + rest)[..LIMIT] == (f + CRLF)[..LIMIT];
        ShortOfDelimiter(f, LIMIT);
      }
      Overflows(s, t + rest);
    }
  }

  lemma ShortOfDelimiter(f: seq<byte>, n: nat)
    requires !Hits(BOUNDARY, f) && n <= |f| + 2
    ensures !Hits(BOUNDARY, (f + CRLF)[..n])
  {
    BoundaryFacts();
    DelimiterFound(f, 0);
    assert f + CRLF + BOUNDARY[..0] == f + CRLF;
    if Hits(BOUNDARY, (f + CRLF)[..n]) {
      HitsStay(BOUNDARY, f + CRLF, n);
    }
  }

  // ---------------------------------------------------------------- whole streams

  lemma HeaderRead(f: Frame, out: seq<Delivery>)
    ensures AtContent(Run(Reset(out), CRLF + PartHeader(|f.data|, f.sec, f.usec)), out)
  {
    hide PartHeader, Open;
    var q := PartHeaderText(|f.data|, f.sec, f.usec);
    EmptyLineEnds(q, out, Run(Reset(out), q + CRLF + CRLF));
  }

  /** From the reset state, a part's bytes and what follows are content from behind its header on. */
  lemma PartRun(f: Frame, out: seq<Delivery>, rest: seq<byte>) returns (s: State)
    ensures AtContent(s, out)
    ensures Run(Reset(out), CRLF + Part(f) + rest) == Run(s, Content(f.data) + (CRLF + rest))
  {
    hide PartHeader, Run;
    HeaderRead(f, out);
    var head := CRLF + PartHeader(|f.data|, f.sec, f.usec);
    s := Run(Reset(out), head);
    assert CRLF + Part(f) + rest == head + (Content(f.data) + (CRLF + rest));
    RunAppend(Reset(out), head, Content(f.data) + (CRLF + rest));
  }

  lemma FitPart(f: Frame, out: seq<Delivery>, rest: seq<byte>)
    requires Fits(f.data)
    ensures Run(Reset(out), CRLF + Part(f) + rest) == Run(Reset(out + [Delivery(|f.data|, f.data)]), CRLF + rest)
  {
    hide Run, Part, Content, Fits;
    var s := PartRun(f, out, rest);
    RunAppend(s, Content(f.data), CRLF + rest);
    FitDelivered(s, f.data);
  }

  lemma MisfitPart(f: Frame, out: seq<Delivery>, rest: seq<byte>)
    requires !Fits(f.data)
    ensures Spoiled(Run(Reset(out), CRLF + Part(f) + rest).out, out, f.data)
  {
    hide Run, Part, Content, Fits, Spoiled;
    var s := PartRun(f, out, rest);
    MisfitSpoils(s, f.data, CRLF + rest);
  }

  /** The callbacks that pass on exactly the given frames. */
  function Deliveries(frames: seq<Frame>): (d: seq<Delivery>)
    ensures |d| == |frames|
  {
    seq(|frames|, i requires 0 <= i < |frames| => Delivery(|frames[i].data|, frames[i].data))
  }

  /** From the reset state behind a delimiter, the parts of the frames make the parser call back
      with exactly those frames, in order, if and only if each of them fits. */
  lemma {:induction false} PartsDelivered(frames: seq<Frame>, out: seq<Delivery>)
    ensures Run(Reset(out), CRLF + Parts(frames)).out == out + Deliveries(frames)
            <==> forall i :: 0 <= i < |frames| ==> Fits(frames[i].data)
  {
    hide Part, Fits;
    if frames == [] {
      assert CRLF + [] == CRLF;
      QuietShort(CRLF);
      QuietText(CRLF, out);
    } else {
      var f, rest := frames[0], Parts(frames[1..]);
      PartsFront(frames);
      assert CRLF + Parts(frames) == CRLF + Part(f) + rest;
      var d := Delivery(|f.data|, f.data);
      assert out + Deliveries(frames) == out + [d] + Deliveries(frames[1..]);
      if Fits(f.data) {
        FitPart(f, out, rest);
        PartsDelivered(frames[1..], out + [d]);
        assert forall i :: 1 <= i < |frames| ==> frames[i] == frames[1..][i - 1];
      } else {
        MisfitPart(f, out, rest);
        assert (out + Deliveries(frames))[|out|] == d;
      }
    }
  }

  /** No two dashes in a row. */
  predicate SingleDashes(s: seq<byte>) {
    forall i :: 0 <= i < |s| - 1 ==> s[i] != 45 || s[i + 1] != 45
  }

  lemma {:induction false} SingleDashesMiss(s: seq<byte>)
    requires SingleDashes(s)
    ensures Progress(BOUNDARY, s) == if |s| > 0 && s[|s| - 1] == 45 then 1 else 0
  {
    BoundaryFacts();
    if s != [] {
      var n := |s| - 1;
      SingleDashesMiss(s[..n]);
    }
  }

  lemma SingleJoin(u: seq<byte>, v: seq<byte>)
    requires SingleDashes(u) && SingleDashes(v) && |u| > 0 && u[|u| - 1] != 45
    ensures SingleDashes(u + v)
  {
  }

  lemma AbsentMeansFits(f: seq<byte>)
    requires !Contains(BOUNDARY, f) && |f| <= 262121
    ensures Fits(f)
  {
    BoundaryFacts();
    ProgressSound(BOUNDARY, f);
  }

  /** Which pictures fit, told from their bytes alone. */
  lemma FitsIff(f: seq<byte>)
    ensures Fits(f) <==>
            |f| <= 262121 && !(exists i: nat :: OccursAt(BOUNDARY, f, i) && Ready(BOUNDARY, f[..i]))
  {
    BoundaryFacts();
    BoundaryFoundIff(BOUNDARY, f);
  }

  // ---------------------------------------------------------------- the response header

  ghost predicate FieldLine(s: seq<byte>) {
    0 < |s| <= 100 && s[|s| - 1] != 45 && SingleDashes(s)
  }

  lemma FieldLines1()
    ensures FieldLine(AllowOrigin()) && FieldLine(Connection())
  {
  }

  lemma FieldLines2()
    ensures FieldLine(Server()) && FieldLine(Pragma())
  {
  }

  lemma FieldLines3()
    ensures FieldLine(Expires())
  {
  }

  lemma JoinLine(u: seq<byte>, v: seq<byte>)
    requires |u| > 0 && u[|u| - 1] != 45 && SingleDashes(u) && FieldLine(v)
    ensures (u + v)[|u + v| - 1] != 45 && SingleDashes(u + v)
  {
    SingleJoin(u, v);
  }

  lemma FieldLines4()
    ensures FieldLine(Multipart())
  {
    var a, b := MultipartType(), Ascii("boundary=boundarydonotcross\r\n");
    assert FieldLine(a);
    assert FieldLine(b);
    JoinLine(a, b);
  }

  lemma FieldLines5()
    ensures FieldLine(CacheFirst()) && FieldLine(CacheRest())
  {
  }

  lemma FieldLines6()
    ensures FieldLine(Cache())
  {
    hide CacheFirst, CacheRest;
    FieldLines5();
    var c := Ascii("post-check=0, max-age=0\r\n");
    assert FieldLine(c);
    JoinLine(CacheFirst(), CacheRest());
    JoinLine(CacheFirst() + CacheRest(), c);
    CacheLength();
  }

  lemma CacheLength()
    ensures |Cache()| <= 100
  {
  }

  lemma FieldsFit()
    ensures Fits(ResponseFields())
  {
    hide AllowOrigin, Connection, Server, Pragma, Expires, Multipart, Cache;
    BoundaryFacts();
    FieldLines1();
    FieldLines2();
    FieldLines3();
    FieldLines4();
    FieldLines6();
    hide SingleDashes;
    JoinLine(AllowOrigin(), Connection());
    JoinLine(AllowOrigin() + Connection(), Server());
    JoinLine(AllowOrigin() + Connection() + Server(), Cache());
    JoinLine(AllowOrigin() + Connection() + Server() + Cache(), Pragma());
    JoinLine(AllowOrigin() + Connection() + Server() + Cache() + Pragma(), Expires());
    JoinLine(AllowOrigin() + Connection() + Server() + Cache() + Pragma() + Expires(), Multipart());
    SingleDashesMiss(ResponseFields());
  }

  lemma StatusLineBytes()
    ensures StatusLine() == [72, 84, 84, 80, 47, 49, 46, 48, 32, 50, 48, 48, 32, 79, 75, 13, 10]
  {
  }

  /** "OK" has the bits of CRLF, so the status line alone is taken for a whole header. */
  lemma StatusLineEndsHeader(t: seq<byte>)
    requires t == [72, 84, 84, 80, 47, 49, 46, 48, 32, 50, 48, 48, 32, 79, 75, 13, 10]
    ensures Quiet(t[..16]) && SevenBit(t) && Alias(t, 16)
  {
    var u := t[..16];
    forall i | 0 <= i < 16 && HasCr(u[i])
      ensures i in {4, 13, 15}
    {
    }
    forall i | 3 <= i < |u|
      ensures !Alias(u, i)
    {
    }
  }

  lemma StatusLineRead(out: seq<Delivery>)
    ensures AtContent(Run(Reset(out), StatusLine()), out)
  {
    hide StatusLine, Quiet, HasCr, HasLf, Run;
    StatusLineBytes();
    var t := StatusLine();
    StatusLineEndsHeader(t);
    assert |t| == 17 && t[..|t| - 1] == t[..16];
    AliasEndsHeader(t, out, Run(Reset(out), t));
  }

  /** On the whole response the first callback is handed the text of the response header as a
      picture; behind it come exactly the frames, if and only if each of them fits. */
  lemma ResponseDelivered(frames: seq<Frame>)
    ensures var junk := Delivery(|ResponseFields()|, ResponseFields());
            Run(Reset([]), ResponseHeader() + Parts(frames)).out == [junk] + Deliveries(frames)
            <==> forall i :: 0 <= i < |frames| ==> Fits(frames[i].data)
  {
    hide ResponseHeader, ResponseFields, Run, Fits, Parts, Deliveries;
    ResponseHeaderRead(Parts(frames));
    PartsDelivered(frames, [Delivery(|ResponseFields()|, ResponseFields())]);
  }

  lemma ResponseHeaderRead(rest: seq<byte>)
    ensures Run(Reset([]), ResponseHeader() + rest)
            == Run(Reset([Delivery(|ResponseFields()|, ResponseFields())]), CRLF + rest)
  {
    hide StatusLine, ResponseFields, Run, Fits;
    var head, body, tail := StatusLine(), Content(ResponseFields()), CRLF + rest;
    assert ResponseHeader() + rest == head + (body + tail);
    RunAppend(Reset([]), head, body + tail);
    StatusLineRead([]);
    FieldsRead(Run(Reset([]), head), tail);
  }

  lemma FieldsRead(s: State, tail: seq<byte>)
    requires AtContent(s, [])
    ensures Run(s, Content(ResponseFields()) + tail)
            == Run(Reset([Delivery(|ResponseFields()|, ResponseFields())]), tail)
  {
    hide ResponseFields, Run, Fits, Content;
    var junk := Delivery(|ResponseFields()|, ResponseFields());
    RunAppend(s, Content(ResponseFields()), tail);
    FieldsFit();
    FitDelivered(s, ResponseFields());
    assert [] + [junk] == [junk];
  }

  /** `send_stream` at one end and the receive loop at the other, whatever chunks the bytes come in:
      the pictures received are the text of the response header and then the frames, if and only if
      each frame fits. */
  method Relay(frames: seq<Frame>, cut: seq<byte> -> seq<seq<byte>>) returns (received: seq<Delivery>)
    requires forall s :: Flatten(cut(s)) == s
    ensures received == [Delivery(|ResponseFields()|, ResponseFields())] + Deliveries(frames)
            <==> forall i :: 0 <= i < |frames| ==> Fits(frames[i].data)
  {
    hide ResponseHeader, ResponseFields, Run, Fits, Parts, Deliveries;
    var sent := SendStream(frames);
    var state := new ExtractorState();
    state.ProcessResponse(cut(sent));
    ResponseDelivered(frames);
    received := state.received;
  }
}
