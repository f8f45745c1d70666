/** The multipart parser of input_http: byte by byte, a header part and a content part, with
    matchers that reset on a mismatch and never look back. */
module Extractor {
  import opened Words
  import opened Sequences

  const BUFFER_SIZE := 1024 * 256

  function Ascii(s: string): (r: seq<byte>)
    ensures |r| == |s|
    ensures forall i :: 0 <= i < |s| && s[i] < '\U{80}' ==> r[i] == s[i] as int
  {
    seq(|s|, i requires 0 <= i < |s| => if s[i] < '\U{80}' then s[i] as int else 0)
  }

  const CONTENT_LENGTH: seq<byte> := Ascii("Content-Length:")
  const BOUNDARY: seq<byte> := Ascii("--boundarydonotcross")

  // ---------------------------------------------------------------- misc.c

  /** `push_byte`: the byte arrives as a signed char, so one of 0x80 or more sets all higher bits. */
  function PushByte(bytes: word, b: byte): (r: word)
  {
    if b < 0x80 then PushKeeps(bytes, b); Or(Shl32(bytes, 8), b) else 0xFFFF_FF00 + b
  }

  lemma PushKeeps(bytes: word, b: byte)
    ensures Or(Shl32(bytes, 8), b) == Up(Low(bytes, 24), 8) + b < 0x1_0000_0000
  {
    Pow2Values();
    LowUp(bytes, 24, 8);
    OrDisjoint(Low(bytes, 24), b, 8);
    UpMono(Low(bytes, 24), Pow2(24), 8);
    UpUp(1, 24, 8);
  }

  /** `is_crlf` asks whether the bits of 0x0D0A are set, not whether the bytes are equal to it. */
  predicate IsCrlf(bytes: word) {
    And(0x0D0A, bytes) == 0x0D0A
  }

  predicate IsCrlfCrlf(bytes: word) {
    IsCrlf(bytes) && IsCrlf(Asr32(bytes, 16))
  }

  /** `search_pattern_compare`: one character further, or back to the start. */
  function Compare(pattern: seq<byte>, matched: nat, c: byte): (r: nat)
    requires matched < |pattern|
    ensures r <= |pattern|
  {
    if pattern[matched] == c then matched + 1 else 0
  }

  // ---------------------------------------------------------------- mjpg-proxy.c

  /** One call of `on_image_received`. */
  datatype Delivery = Delivery(length: int, picture: seq<byte>)

  datatype State = State(
    header: bool, lastFour: word, contentMatch: nat, boundaryMatch: nat,
    content: seq<byte>, out: seq<Delivery>)
  {
    predicate Valid() {
      && contentMatch < |CONTENT_LENGTH| && boundaryMatch < |BOUNDARY|
      && |content| < BUFFER_SIZE
    }
  }

  /** `init_extractor_state`, with the deliveries made so far. */
  function Reset(out: seq<Delivery>): (s: State) {
    State(true, 0, 0, 0, [], out)
  }

  /** What is handed to the callback once the boundary is complete. */
  function Deliver(content: seq<byte>): (d: Delivery) {
    var length := |content| - (|BOUNDARY| + 2);
    Delivery(length, if length > 0 then content[..length] else [])
  }

  function HeaderStep(s: State, b: byte): (r: State)
    requires s.Valid()
    ensures r.Valid()
  {
    var w := PushByte(s.lastFour, b);
    if IsCrlfCrlf(w) then s.(lastFour := w, header := false)
    else if IsCrlf(w) then s.(lastFour := w, contentMatch := 0)
    else
      var m := Compare(CONTENT_LENGTH, s.contentMatch, b);
      s.(lastFour := w, contentMatch := if m == |CONTENT_LENGTH| then 0 else m)
  }

  function ContentStep(s: State, b: byte): (r: State)
    requires s.Valid()
    ensures r.Valid()
  {
    if |s.content| >= BUFFER_SIZE - 1 then s
    else
      var content := s.content + [b];
      var m := Compare(BOUNDARY, s.boundaryMatch, b);
      if m == |BOUNDARY| then Reset(s.out + [Deliver(content)])
      else s.(content := content, boundaryMatch := m)
  }

  function Step(s: State, b: byte): (r: State)
    requires s.Valid()
    ensures r.Valid()
  {
    if s.header then HeaderStep(s, b) else ContentStep(s, b)
  }

  function Run(s: State, input: seq<byte>): (r: State)
    requires s.Valid()
    ensures r.Valid()
  {
    if input == [] then s else Step(Run(s, input[..|input| - 1]), input[|input| - 1])
  }

  lemma {:induction false} RunAppend(s: State, a: seq<byte>, b: seq<byte>)
    requires s.Valid()
    ensures Run(s, a + b) == Run(Run(s, a), b)
  {
    if b == [] {
      assert a + b == a;
    } else {
      var n := |b| - 1;
      assert (a + b)[..|a + b| - 1] == a + b[..n];
      RunAppend(s, a, b[..n]);
    }
  }

  /** Callbacks are never taken back. */
  lemma {:induction false} RunExtends(s: State, input: seq<byte>)
    requires s.Valid()
    ensures s.out <= Run(s, input).out
  {
    if input != [] {
      RunExtends(s, input[..|input| - 1]);
    }
  }

  /** The struct `extractor_state`; `received` lists the callbacks made. */
  class ExtractorState {
    const buffer: array<byte>
    var length: int
    var header: bool
    var lastFour: word
    var contentMatch: nat
    var boundaryMatch: nat
    var received: seq<Delivery>

    ghost predicate Valid()
      reads this, buffer
    {
      && buffer.Length == BUFFER_SIZE && 0 <= length < BUFFER_SIZE
      && Abs().Valid()
    }

    ghost function Abs(): (s: State)
      requires 0 <= length <= buffer.Length
      reads this, buffer
    {
      State(header, lastFour, contentMatch, boundaryMatch, buffer[..length], received)
    }

    constructor ()
      ensures Valid() && Abs() == Reset([]) && fresh(buffer)
    {
      buffer := new byte[BUFFER_SIZE];
      length, header, lastFour, contentMatch, boundaryMatch, received := 0, true, 0, 0, 0, [];
    }

    /** `init_extractor_state`. */
    method Init()
      requires buffer.Length == BUFFER_SIZE
      modifies this
      ensures Valid() && Abs() == Reset(received) && received == old(received)
    {
      length, header, lastFour, contentMatch, boundaryMatch := 0, true, 0, 0, 0;
    }

    method HeaderByte(b: byte)
      requires Valid() && header
      modifies this
      ensures Valid() && Abs() == HeaderStep(old(Abs()), b)
    {
      lastFour := PushByte(lastFour, b);
      if IsCrlfCrlf(lastFour) {
        header := false;
      } else if IsCrlf(lastFour) {
        contentMatch := 0;
      } else {
        contentMatch := Compare(CONTENT_LENGTH, contentMatch, b);
        if contentMatch == |CONTENT_LENGTH| {
          contentMatch := 0;
        }
      }
    }

    method ContentByte(b: byte)
      requires Valid() && !header
      modifies this, buffer
      ensures Valid() && Abs() == ContentStep(old(Abs()), b)
    {
      if length >= BUFFER_SIZE - 1 {
        return;
      }
      buffer[length] := b;
      length := length + 1;
      ghost var content := buffer[..length];
      assert content == old(buffer[..length]) + [b];
      boundaryMatch := Compare(BOUNDARY, boundaryMatch, b);
      if boundaryMatch == |BOUNDARY| {
        length := length - (|BOUNDARY| + 2);
        assert length > 0 ==> buffer[..length] == content[..length];
        received := received + [Delivery(length, if length > 0 then buffer[..length] else [])];
        Init();
      }
    }

    /** `extract_data` on one received chunk. */
    method ExtractData(chunk: seq<byte>)
      requires Valid()
      modifies this, buffer
      ensures Valid() && Abs() == Run(old(Abs()), chunk)
    {
      for i := 0 to |chunk|
        invariant Valid() && Abs() == Run(old(Abs()), chunk[..i])
      {
        assert chunk[..i + 1][..i] == chunk[..i];
        if header {
          HeaderByte(chunk[i]);
        } else {
          ContentByte(chunk[i]);
        }
      }
      assert chunk[..|chunk|] == chunk;
    }

    /** The receive loop: the outcome depends on the bytes received, not on how they were cut. */
    method ProcessResponse(chunks: seq<seq<byte>>)
      requires Valid()
      modifies this, buffer
      ensures Valid() && Abs() == Run(Reset(old(received)), Flatten(chunks))
    {
      Init();
      ghost var start := Abs();
      for i := 0 to |chunks|
        invariant Valid() && Abs() == Run(start, Flatten(chunks[..i]))
      {
        assert chunks[..i + 1][..i] == chunks[..i];
        RunAppend(start, Flatten(chunks[..i]), chunks[i]);
        ExtractData(chunks[i]);
      }
      assert chunks[..|chunks|] == chunks;
    }
  }
}
