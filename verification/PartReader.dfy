/** A client of the stream that goes by the header fields: it reads lines, takes as many bytes as
    Content-Length says, and never searches for the boundary. */
module PartReader {
  import opened Options
  import opened Words
  import opened Decimals
  import opened Extractor

  const CRLF: seq<byte> := [13, 10]

  /** A published picture with its timestamp. */
  datatype Frame = Frame(data: seq<byte>, sec: int, usec: int)

  // ---------------------------------------------------------------- lines and fields

  /** Where byte `c` first stands, or the length of the text. */
  function IndexOf(s: seq<byte>, c: byte): (n: nat)
    ensures n <= |s| && c !in s[..n] && (n < |s| ==> s[n] == c)
  {
    if s == [] || s[0] == c then 0
    else
      var n := 1 + IndexOf(s[1..], c);
      assert s[..n] == [s[0]] + s[1..][..n - 1];
      n
  }

  /** The text in front of the first CR. */
  function Line(s: seq<byte>): (r: seq<byte>) {
    s[..IndexOf(s, 13)]
  }

  /** What follows the first CR LF. */
  function NextLines(s: seq<byte>): (r: seq<byte>)
    ensures s != [] ==> |r| < |s|
  {
    var n := IndexOf(s, 13) + 2;
    if n <= |s| then s[n..] else []
  }

  /** The value of the first field with this name and colon, in front of the first empty line. */
  function Field(s: seq<byte>, name: seq<byte>): (r: Option<seq<byte>>)
    decreases |s|
  {
    if s == [] || Line(s) == [] then None
    else if name <= Line(s) then Some(Line(s)[|name|..])
    else Field(NextLines(s), name)
  }

  /** What follows the first empty line. */
  function Body(s: seq<byte>): (r: seq<byte>)
    decreases |s|
  {
    if s == [] then [] else if Line(s) == [] then NextLines(s) else Body(NextLines(s))
  }

  // ---------------------------------------------------------------- numbers

  /** Digits, with or without a minus sign in front. */
  function Number(s: seq<byte>): (n: Option<int>) {
    if s != [] && AllDigits(s) then Some(Value(s))
    else if |s| > 1 && s[0] == 45 && AllDigits(s[1..]) then Some(0 - Value(s[1..]))
    else None
  }

  // ---------------------------------------------------------------- parts

  const LENGTH_LABEL: seq<byte> := Ascii("Content-Length: ")
  const TIME_LABEL: seq<byte> := Ascii("X-Timestamp: ")
  const DELIMITER: seq<byte> := [13, 10] + Ascii("--boundarydonotcross") + [13, 10]

  /** A part that was read, and the bytes behind its delimiter. */
  datatype Reading = NoPart | Read(frame: Frame, rest: seq<byte>)

  /** The frame of a part: its size is the content length, and its time has at least six places behind
      the point. */
  function ReadPart(s: seq<byte>): (r: Reading) {
    match (Field(s, LENGTH_LABEL), Field(s, TIME_LABEL))
    case (Some(length), Some(time)) => ReadBody(Body(s), Number(length), time)
    case _ => NoPart
  }

  function ReadBody(body: seq<byte>, length: Option<int>, time: seq<byte>): (r: Reading) {
    var dot := IndexOf(time, 46);
    if length.None? || dot + 7 > |time| then NoPart
    else
      var n, sec, usec := length.value, Number(time[..dot]), Number(time[dot + 1..]);
      if sec.None? || usec.None? || n < 0 || |body| < n || !(DELIMITER <= body[n..]) then NoPart
      else Read(Frame(body[..n], sec.value, usec.value), body[n + |DELIMITER|..])
  }

  function ReadParts(s: seq<byte>, count: nat): (r: Option<seq<Frame>>)
    decreases count
  {
    if count == 0 then Some([])
    else
      match ReadPart(s)
      case NoPart => None
      case Read(f, rest) =>
        match ReadParts(rest, count - 1)
        case None => None
        case Some(frames) => Some([f] + frames)
  }

  /** The whole response: a header, the first delimiter right behind its empty line, and the parts. */
  function ReadStream(s: seq<byte>, count: nat): (r: Option<seq<Frame>>) {
    var first := DELIMITER[2..];
    if first <= Body(s) then ReadParts(Body(s)[|first|..], count) else None
  }

  // ---------------------------------------------------------------- reading what was printed

  lemma {:induction false} FirstIndex(a: seq<byte>, c: byte, rest: seq<byte>)
    requires c !in a
    ensures IndexOf(a + [c] + rest, c) == |a|
  {
    var s := a + [c] + rest;
    assert s[|a|] == c && s[..|a|] == a;
    if a != [] {
      assert s[1..] == a[1..] + [c] + rest;
      FirstIndex(a[1..], c, rest);
    }
  }

  lemma OneLine(line: seq<byte>, rest: seq<byte>)
    requires 13 !in line
    ensures Line(line + CRLF + rest) == line && NextLines(line + CRLF + rest) == rest
  {
    hide IndexOf;
    assert line + CRLF + rest == line + [13] + ([10] + rest);
    FirstIndex(line, 13, [10] + rest);
  }

  /** A line that is not empty and does not carry the field is passed over. */
  lemma SkipsLine(line: seq<byte>, rest: seq<byte>, name: seq<byte>)
    requires line != [] && 13 !in line
    ensures Body(line + CRLF + rest) == Body(rest)
    ensures !(name <= line) ==> Field(line + CRLF + rest, name) == Field(rest, name)
    ensures name <= line ==> Field(line + CRLF + rest, name) == Some(line[|name|..])
  {
    hide Line, NextLines;
    OneLine(line, rest);
  }

  lemma EmptyLine(rest: seq<byte>)
    ensures Body(CRLF + rest) == rest
  {
    hide Line, NextLines;
    assert [] + CRLF + rest == CRLF + rest;
    OneLine([], rest);
  }
}
