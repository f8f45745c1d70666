/** What `send_stream` of output_http writes to a client. */
module StreamPrinter {
  import opened Words
  import opened Decimals
  import opened Extractor
  import opened HeaderDetection
  import opened Options
  import opened PartReader

  // ---------------------------------------------------------------- numbers

  /** `%d`. */
  function Decimal(n: int): (s: seq<byte>) {
    if n < 0 then [45] + Digits(-n) else Digits(n)
  }

  function PadZeros(n: int): (s: seq<byte>)
    ensures forall i :: 0 <= i < |s| ==> s[i] == 48
  {
    if n <= 0 then [] else [48] + PadZeros(n - 1)
  }

  /** `%06d`: the sign counts as one of the six places. */
  function Decimal06(n: int): (s: seq<byte>) {
    if n < 0 then [45] + PadZeros(5 - |Digits(-n)|) + Digits(-n) else PadZeros(6 - |Digits(n)|) + Digits(n)
  }

  /** Digits and signs, ending in a digit. */
  predicate NumberText(s: seq<byte>) {
    && |s| > 0 && 48 <= s[|s| - 1] <= 57
    && forall i :: 0 <= i < |s| ==> s[i] == 45 || 48 <= s[i] <= 57
  }

  lemma NumberTexts(n: int)
    ensures NumberText(Decimal(n)) && NumberText(Decimal06(n))
  {
  }

  // ---------------------------------------------------------------- texts

  function StatusLine(): (s: seq<byte>) {
    Ascii("HTTP/1.0 200 OK\r\n")
  }

  function AllowOrigin(): (s: seq<byte>) {
    Ascii("Access-Control-Allow-Origin: *\r\n")
  }

  function Connection(): (s: seq<byte>) {
    Ascii("Connection: close\r\n")
  }

  function Server(): (s: seq<byte>) {
    Ascii("Server: MJPG-Streamer/0.2\r\n")
  }

  function CacheFirst(): (s: seq<byte>) {
    Ascii("Cache-Control: no-store, no-cache, ")
  }

  function CacheRest(): (s: seq<byte>) {
    Ascii("must-revalidate, pre-check=0, ")
  }

  function Cache(): (s: seq<byte>) {
    CacheFirst() + CacheRest() + Ascii("post-check=0, max-age=0\r\n")
  }

  function Pragma(): (s: seq<byte>) {
    Ascii("Pragma: no-cache\r\n")
  }

  function Expires(): (s: seq<byte>) {
    Ascii("Expires: Mon, 3 Jan 2000 12:34:56 GMT\r\n")
  }

  function MultipartType(): (s: seq<byte>) {
    Ascii("Content-Type: multipart/x-mixed-replace;")
  }

  function Multipart(): (s: seq<byte>) {
    MultipartType() + Ascii("boundary=boundarydonotcross\r\n")
  }

  /** The response header behind its status line, without the empty line that ends it. */
  function ResponseFields(): (s: seq<byte>) {
    AllowOrigin() + Connection() + Server() + Cache() + Pragma() + Expires() + Multipart()
  }

  function ImageType(): (s: seq<byte>) {
    Ascii("Content-Type: image/jpeg")
  }

  function LengthField(): (s: seq<byte>) {
    Ascii("Content-Length: ")
  }

  function TimeField(): (s: seq<byte>) {
    Ascii("X-Timestamp: ")
  }

  const DOT: seq<byte> := [46]

  /** The header printed in front of each picture. */
  function PartHeader(size: int, sec: int, usec: int): (s: seq<byte>) {
    ImageType() + CRLF + LengthField() + Decimal(size) + CRLF +
    TimeField() + Decimal(sec) + DOT + Decimal06(usec) + CRLF + CRLF
  }

  /** One turn of the loop: header, picture, delimiter line. */
  function Part(f: Frame): (s: seq<byte>) {
    PartHeader(|f.data|, f.sec, f.usec) + f.data + (CRLF + BOUNDARY + CRLF)
  }

  function Parts(frames: seq<Frame>): (s: seq<byte>) {
    if frames == [] then [] else Parts(frames[..|frames| - 1]) + Part(frames[|frames| - 1])
  }

  function ResponseHeader(): (s: seq<byte>) {
    StatusLine() + ResponseFields() + CRLF + BOUNDARY + CRLF
  }

  /** `send_stream` for a client that takes the given frames: one part for each, and a client that goes
      by the header fields reads back every frame with its size and its time. */
  method SendStream(frames: seq<Frame>) returns (sent: seq<byte>)
    ensures sent == ResponseHeader() + Parts(frames)
    ensures ReadStream(sent, |frames|) == Some(frames)
  {
    hide ResponseHeader, PartHeader, ReadStream;
    sent := ResponseHeader();
    ghost var head := sent;
    for i := 0 to |frames|
      invariant sent == head + Parts(frames[..i])
    {
      assert frames[..i + 1][..i] == frames[..i];
      ghost var before := sent;
      sent := sent + PartHeader(|frames[i].data|, frames[i].sec, frames[i].usec);
      sent := sent + frames[i].data;
      sent := sent + (CRLF + BOUNDARY + CRLF);
      assert sent == before + Part(frames[i]);
      assert head + Parts(frames[..i]) + Part(frames[i]) == head + Parts(frames[..i + 1]);
    }
    assert frames[..|frames|] == frames;
    StreamReadBack(frames);
  }

  // ---------------------------------------------------------------- the fields can be read back

  /** Digits behind a sign, or without one. */
  lemma SignedReadBack(a: nat, digits: seq<byte>)
    requires digits != [] && AllDigits(digits) && Value(digits) == a
    ensures Number(digits) == Some(a) && Number([45] + digits) == Some(0 - a)
    ensures 13 !in digits && 46 !in digits && 13 !in [45] + digits && 46 !in [45] + digits
  {
    hide Value;
    var s := [45] + digits;
    assert !IsDigit(s[0]) && s[1..] == digits;
  }

  lemma DecimalReadBack(n: int)
    ensures Number(Decimal(n)) == Some(n) && 13 !in Decimal(n) && 46 !in Decimal(n)
  {
    hide Value, Digits, Number, AllDigits;
    var a := if n < 0 then -n else n;
    ValueOfDigits(a);
    SignedReadBack(a, Digits(a));
  }

  lemma Decimal06ReadBack(n: int)
    ensures Number(Decimal06(n)) == Some(n) && 13 !in Decimal06(n) && |Decimal06(n)| >= 6
    ensures 0 <= n < 1000000 ==> |Decimal06(n)| == 6
  {
    hide Value, Digits, Number, AllDigits;
    var a := if n < 0 then -n else n;
    ValueOfDigits(a);
    var pad := (if n < 0 then 5 else 6) - |Digits(a)|;
    PadLength(pad);
    ValueOfPadded(PadZeros(pad), Digits(a));
    SignedReadBack(a, PadZeros(pad) + Digits(a));
    if n < 0 {
      assert Decimal06(n) == [45] + (PadZeros(pad) + Digits(a));
    } else if n < 1000000 {
      MillionIs(6);
      DigitCount(n, 6, 1000000);
    }
  }

  lemma MillionIs(w: nat)
    requires w == 6
    ensures Pow10(w) == 1000000
  {
    assert Pow10(3) == 1000;
  }

  lemma {:induction false} PadLength(n: int)
    ensures |PadZeros(n)| == if n <= 0 then 0 else n
  {
    if n > 0 {
      PadLength(n - 1);
    }
  }

  lemma {:induction false} DigitCount(n: nat, w: nat, bound: nat)
    requires w > 0 && n < bound && bound == Pow10(w)
    ensures |Digits(n)| <= w
  {
    if n >= 10 {
      assert Pow10(w) == 10 * Pow10(w - 1) && w > 1;
      DigitCount(n / 10, w - 1, Pow10(w - 1));
    }
  }

  lemma Labels()
    ensures LengthField() == LENGTH_LABEL && TimeField() == TIME_LABEL && |LENGTH_LABEL| == 16 && |TIME_LABEL| == 13
    ensures 13 !in ImageType() && ImageType() != [] && 13 !in LENGTH_LABEL && 13 !in TIME_LABEL
    ensures !(LENGTH_LABEL <= ImageType()) && !(TIME_LABEL <= ImageType()) && TIME_LABEL[0] != LENGTH_LABEL[0]
  {
    ImageTypeBytes();
    LengthFieldBytes();
    TimeFieldBytes();
    assert LENGTH_LABEL[8] == 76 && ImageType()[8] == 84;
    assert TIME_LABEL[0] == 88 && LENGTH_LABEL[0] == 67 && ImageType()[0] == 67;
  }

  /** The lines of a part. */
  lemma PartLines(f: Frame, rest: seq<byte>, length: seq<byte>, time: seq<byte>)
    requires length == Decimal(|f.data|) && time == Decimal(f.sec) + DOT + Decimal06(f.usec)
    ensures Part(f) + rest ==
            ImageType() + CRLF + (LengthField() + length + CRLF + (TimeField() + time + CRLF + (CRLF +
            (f.data + (CRLF + BOUNDARY + CRLF + rest)))))
  {
    hide ImageType, LengthField, TimeField, Decimal, Decimal06;
  }

  lemma PartFields(f: Frame, rest: seq<byte>)
    ensures Field(Part(f) + rest, LENGTH_LABEL) == Some(Decimal(|f.data|))
    ensures Field(Part(f) + rest, TIME_LABEL) == Some(Decimal(f.sec) + DOT + Decimal06(f.usec))
    ensures Body(Part(f) + rest) == f.data + (CRLF + BOUNDARY + CRLF + rest)
  {
    hide ImageType, LengthField, TimeField, Decimal, Decimal06, Part, Field, Body;
    var length, time := Decimal(|f.data|), Decimal(f.sec) + DOT + Decimal06(f.usec);
    DecimalReadBack(|f.data|);
    DecimalReadBack(f.sec);
    Decimal06ReadBack(f.usec);
    Labels();
    PartLines(f, rest, length, time);
    var body := f.data + (CRLF + BOUNDARY + CRLF + rest);
    var third := TimeField() + time + CRLF + (CRLF + body);
    var second := LengthField() + length + CRLF + third;
    SkipsLine(ImageType(), second, LENGTH_LABEL);
    SkipsLine(ImageType(), second, TIME_LABEL);
    SkipsLine(LengthField() + length, third, LENGTH_LABEL);
    SkipsLine(LengthField() + length, third, TIME_LABEL);
    SkipsLine(TimeField() + time, CRLF + body, TIME_LABEL);
    EmptyLine(body);
    assert (LengthField() + length)[0] == LENGTH_LABEL[0];
    assert (LengthField() + length)[16..] == length && (TimeField() + time)[13..] == time;
  }

  /** Reading a part gives its frame. */
  lemma PartReadBack(f: Frame, rest: seq<byte>)
    ensures ReadPart(Part(f) + rest) == Read(f, rest)
  {
    hide Field, Body, Part, Decimal, Decimal06, Number, IndexOf;
    PartFields(f, rest);
    DecimalReadBack(|f.data|);
    DecimalReadBack(f.sec);
    Decimal06ReadBack(f.usec);
    var a, b := Decimal(f.sec), Decimal06(f.usec);
    var time := a + DOT + b;
    FirstIndex(a, 46, b);
    assert time[..|a|] == a && time[|a| + 1..] == b;
    var body := f.data + (CRLF + BOUNDARY + CRLF + rest);
    var n := |f.data|;
    DelimiterIs();
    assert body[n..] == DELIMITER + rest && body[..n] == f.data;
    assert body[n + |DELIMITER|..] == rest;
  }

  lemma DelimiterIs()
    ensures DELIMITER == CRLF + BOUNDARY + CRLF && |DELIMITER| == 24
  {
  }

  lemma {:induction false} PartsFront(frames: seq<Frame>)
    requires frames != []
    ensures Parts(frames) == Part(frames[0]) + Parts(frames[1..])
  {
    hide Part;
    var n := |frames| - 1;
    if n > 0 {
      PartsFront(frames[..n]);
      assert frames[1..][..n - 1] == frames[..n][1..];
      assert frames[1..][n - 1] == frames[n];
    }
  }

  lemma {:induction false} PartsReadBack(frames: seq<Frame>)
    ensures ReadParts(Parts(frames), |frames|) == Some(frames)
  {
    hide Part, ReadPart, Parts;
    if frames != [] {
      PartsFront(frames);
      PartReadBack(frames[0], Parts(frames[1..]));
      PartsReadBack(frames[1..]);
      assert [frames[0]] + frames[1..] == frames;
    }
  }

  // ---------------------------------------------------------------- the response header can be read past

  /** A line of the response header, with its CR LF. */
  ghost predicate HeaderLine(s: seq<byte>) {
    |s| > 2 && s[|s| - 2..] == CRLF && 13 !in s[..|s| - 2]
  }

  lemma PassesLine(s: seq<byte>, rest: seq<byte>)
    requires HeaderLine(s)
    ensures Body(s + rest) == Body(rest)
  {
    var line := s[..|s| - 2];
    assert s + rest == line + CRLF + rest;
    SkipsLine(line, rest, []);
  }

  lemma HeaderLines1()
    ensures HeaderLine(StatusLine()) && HeaderLine(AllowOrigin())
  {
  }

  lemma HeaderLines2()
    ensures HeaderLine(Connection()) && HeaderLine(Server())
  {
  }

  lemma HeaderLines3()
    ensures HeaderLine(Pragma()) && HeaderLine(Expires())
  {
  }

  lemma HeaderLines4()
    ensures HeaderLine(Cache())
  {
    var c := Ascii("post-check=0, max-age=0\r\n");
    assert 13 !in CacheFirst();
    assert 13 !in CacheRest();
    assert HeaderLine(c);
    assert Cache()[..|Cache()| - 2] == CacheFirst() + CacheRest() + c[..|c| - 2];
    assert Cache()[|Cache()| - 2..] == c[|c| - 2..];
  }

  lemma HeaderLines5()
    ensures HeaderLine(Multipart())
  {
    var c := Ascii("boundary=boundarydonotcross\r\n");
    assert 13 !in MultipartType();
    assert HeaderLine(c);
    assert Multipart()[..|Multipart()| - 2] == MultipartType() + c[..|c| - 2];
    assert Multipart()[|Multipart()| - 2..] == c[|c| - 2..];
  }

  lemma Regrouped(
    a: seq<byte>, b: seq<byte>, c: seq<byte>, d: seq<byte>, e: seq<byte>, f: seq<byte>, g: seq<byte>, h: seq<byte>,
    x: seq<byte>, y: seq<byte>, rest: seq<byte>)
    ensures a + (b + c + d + e + f + g + h) + x + y + x + rest ==
            a + (b + (c + (d + (e + (f + (g + (h + (x + (y + x + rest)))))))))
  {
    var fields := b + c + d + e + f + g + h;
    var tail := x + (y + x + rest);
    assert a + fields + x + y + x + rest == a + (fields + tail);
    assert fields + tail == b + c + d + e + (f + (g + (h + tail)));
    assert b + c + d + e + (f + (g + (h + tail))) == b + (c + (d + (e + (f + (g + (h + tail))))));
  }

  lemma HeaderBody(rest: seq<byte>)
    ensures Body(ResponseHeader() + rest) == BOUNDARY + CRLF + rest
  {
    hide StatusLine, AllowOrigin, Connection, Server, Cache, Pragma, Expires, Multipart, Body, HeaderLine;
    HeaderLines1();
    HeaderLines2();
    HeaderLines3();
    HeaderLines4();
    HeaderLines5();
    var r8 := CRLF + (BOUNDARY + CRLF + rest);
    var r7 := Multipart() + r8;
    var r6 := Expires() + r7;
    var r5 := Pragma() + r6;
    var r4 := Cache() + r5;
    var r3 := Server() + r4;
    var r2 := Connection() + r3;
    var r1 := AllowOrigin() + r2;
    Regrouped(StatusLine(), AllowOrigin(), Connection(), Server(), Cache(), Pragma(), Expires(), Multipart(),
              CRLF, BOUNDARY, rest);
    PassesLine(StatusLine(), r1);
    PassesLine(AllowOrigin(), r2);
    PassesLine(Connection(), r3);
    PassesLine(Server(), r4);
    PassesLine(Cache(), r5);
    PassesLine(Pragma(), r6);
    PassesLine(Expires(), r7);
    PassesLine(Multipart(), r8);
    EmptyLine(BOUNDARY + CRLF + rest);
  }

  lemma FirstDelimiter()
    ensures DELIMITER[2..] == BOUNDARY + CRLF
  {
  }

  lemma StartsWith(a: seq<byte>, rest: seq<byte>)
    ensures a <= a + rest && (a + rest)[|a|..] == rest
  {
  }

  /** A client that goes by the header fields reads back all frames, whatever is in them. */
  lemma StreamReadBack(frames: seq<Frame>)
    ensures ReadStream(ResponseHeader() + Parts(frames), |frames|) == Some(frames)
  {
    hide ResponseHeader, Parts, Body, ReadParts;
    HeaderBody(Parts(frames));
    PartsReadBack(frames);
    FirstDelimiter();
    StartsWith(DELIMITER[2..], Parts(frames));
  }

  // ---------------------------------------------------------------- headers are quiet up to their end

  lemma QuietNumber(s: seq<byte>)
    requires NumberText(s)
    ensures Quiet(s) && SevenBit(s) && !HasCr(s[|s| - 1]) && !HasLf(s[|s| - 1])
    ensures Quiet(DOT + s) && SevenBit(DOT + s) && (DOT + s)[|DOT + s| - 1] == s[|s| - 1]
  {
    forall i | 0 <= i < |s|
      ensures !HasLf(s[i])
    {
    }
    forall i | 3 <= i < |DOT + s|
      ensures !Alias(DOT + s, i)
    {
      assert (DOT + s)[i] == s[i - 1];
    }
  }

  lemma ImageTypeBytes()
    ensures ImageType() == [67, 111, 110, 116, 101, 110, 116, 45, 84, 121, 112, 101, 58, 32,
                            105, 109, 97, 103, 101, 47, 106, 112, 101, 103]
  {
  }

  lemma LengthFieldBytes()
    ensures LengthField() == [67, 111, 110, 116, 101, 110, 116, 45, 76, 101, 110, 103, 116, 104, 58, 32]
  {
  }

  lemma TimeFieldBytes()
    ensures TimeField() == [88, 45, 84, 105, 109, 101, 115, 116, 97, 109, 112, 58, 32]
  {
  }

  /** Two pairs that pass for CRLF never touch when no two bytes two places apart pass for '\r'. */
  lemma SparseIsQuiet(s: seq<byte>)
    requires forall i :: 0 <= i < |s| - 2 ==> !(HasCr(s[i]) && HasCr(s[i + 2]))
    ensures Quiet(s)
  {
    hide HasCr, HasLf;
    forall i | 3 <= i < |s|
      ensures !Alias(s, i)
    {
      assert !(HasCr(s[i - 3]) && HasCr(s[i - 3 + 2]));
    }
  }

  lemma QuietImageType(t: seq<byte>)
    requires t == [13, 10, 67, 111, 110, 116, 101, 110, 116, 45, 84, 121, 112, 101, 58, 32,
                   105, 109, 97, 103, 101, 47, 106, 112, 101, 103]
    ensures Quiet(t) && SevenBit(t) && !HasCr(t[|t| - 1]) && !HasLf(t[|t| - 1])
  {
    forall i | 0 <= i < |t| && HasCr(t[i])
      ensures i in {0, 3, 9, 17, 21}
    {
    }
    SparseIsQuiet(t);
  }

  lemma QuietLengthField(t: seq<byte>)
    requires t == [13, 10, 67, 111, 110, 116, 101, 110, 116, 45, 76, 101, 110, 103, 116, 104, 58, 32]
    ensures Quiet(t) && SevenBit(t) && !HasCr(t[|t| - 1]) && !HasLf(t[|t| - 1])
  {
    forall i | 0 <= i < |t| && HasCr(t[i])
      ensures i in {0, 3, 9}
    {
    }
    SparseIsQuiet(t);
  }

  lemma QuietTimeField(t: seq<byte>)
    requires t == [13, 10, 88, 45, 84, 105, 109, 101, 115, 116, 97, 109, 112, 58, 32]
    ensures Quiet(t) && SevenBit(t) && !HasCr(t[|t| - 1]) && !HasLf(t[|t| - 1])
  {
    forall i | 0 <= i < |t| && HasCr(t[i])
      ensures i in {0, 3, 6, 11}
    {
    }
    SparseIsQuiet(t);
  }

  /** A quiet text that another one can follow. */
  ghost predicate Open(s: seq<byte>) {
    |s| > 0 && Quiet(s) && SevenBit(s) && !HasCr(s[|s| - 1]) && !HasLf(s[|s| - 1])
  }

  lemma OpenJoin(u: seq<byte>, v: seq<byte>)
    requires Open(u) && Open(v)
    ensures Open(u + v)
  {
    QuietJoin(u, v);
  }

  lemma OpenImageType()
    ensures Open(CRLF + ImageType())
  {
    hide ImageType, Quiet, SevenBit, HasCr, HasLf;
    ImageTypeBytes();
    QuietImageType(CRLF + ImageType());
  }

  lemma OpenLengthField()
    ensures Open(CRLF + LengthField())
  {
    hide LengthField, Quiet, SevenBit, HasCr, HasLf;
    LengthFieldBytes();
    QuietLengthField(CRLF + LengthField());
  }

  lemma OpenTimeField()
    ensures Open(CRLF + TimeField())
  {
    hide TimeField, Quiet, SevenBit, HasCr, HasLf;
    TimeFieldBytes();
    QuietTimeField(CRLF + TimeField());
  }

  lemma OpenNumber(s: seq<byte>)
    requires NumberText(s)
    ensures Open(s) && Open(DOT + s)
  {
    hide HasCr, HasLf, Quiet, SevenBit;
    QuietNumber(s);
  }

  lemma JoinSix(a: seq<byte>, b: seq<byte>, c: seq<byte>, d: seq<byte>, e: seq<byte>, f: seq<byte>)
    requires Open(a) && Open(b) && Open(c) && Open(d) && Open(e) && Open(f)
    ensures Open(a + b + c + d + e + f)
  {
    hide Open;
    OpenJoin(a, b);
    OpenJoin(a + b, c);
    OpenJoin(a + b + c, d);
    OpenJoin(a + b + c + d, e);
    OpenJoin(a + b + c + d + e, f);
  }

  /** The delimiter's CRLF and a part header: header text up to the last of its four end bytes. */
  lemma PartHeaderText(size: int, sec: int, usec: int) returns (q: seq<byte>)
    ensures CRLF + PartHeader(size, sec, usec) == q + CRLF + CRLF && Open(q)
  {
    hide ImageType, LengthField, TimeField, Decimal, Decimal06, Open, NumberText;
    var a, b, c := CRLF + ImageType(), CRLF + LengthField(), CRLF + TimeField();
    var n1, n2, n3 := Decimal(size), Decimal(sec), Decimal06(usec);
    OpenImageType();
    OpenLengthField();
    OpenTimeField();
    NumberTexts(size);
    NumberTexts(sec);
    NumberTexts(usec);
    OpenNumber(n1);
    OpenNumber(n2);
    OpenNumber(n3);
    q := a + b + n1 + c + n2 + (DOT + n3);
    JoinSix(a, b, n1, c, n2, DOT + n3);
  }

  /** Behind an open text, CRLF CRLF is the first place where the header is taken to end. */
  lemma EmptyLineEnds(q: seq<byte>, out: seq<Delivery>, r: State)
    requires Open(q) && r == Run(Reset(out), q + CRLF + CRLF)
    ensures !r.header && r.content == [] && r.boundaryMatch == 0 && r.out == out
  {
    hide Quiet, Run;
    var t := q + CRLF + CRLF;
    assert t[..|t| - 1] == q + [13, 10, 13];
    QuietShort([13, 10, 13]);
    QuietJoin(q, [13, 10, 13]);
    assert t[|t| - 1] == 10 && t[|t| - 2] == 13 && t[|t| - 3] == 10 && t[|t| - 4] == 13;
    AliasEndsHeader(t, out, r);
  }

  lemma QuietShort(s: seq<byte>)
    requires |s| <= 3
    ensures Quiet(s)
  {
  }
}
