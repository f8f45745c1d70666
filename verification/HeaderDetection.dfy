/** When the parser of input_http takes a header to be complete. */
module HeaderDetection {
  import opened Words
  import opened Extractor

  /** All bits of '\r' (0x0D) are set. */
  predicate HasCr(b: byte) {
    b % 2 == 1 && b / 4 % 2 == 1 && b / 8 % 2 == 1
  }

  /** All bits of '\n' (0x0A) are set. */
  predicate HasLf(b: byte) {
    b / 2 % 2 == 1 && b / 8 % 2 == 1
  }

  /** The word that holds four bytes, the oldest in front. */
  function Word4(a: byte, b: byte, c: byte, d: byte): (w: word) {
    0x100_0000 * a + 0x1_0000 * b + 0x100 * c + d
  }

  // ---------------------------------------------------------------- bit tests, byte by byte

  lemma Covers(m: nat, w: nat)
    ensures And(m, w) == m <==> (m % 2 == 1 ==> w % 2 == 1) && And(m / 2, w / 2) == m / 2
  {
    if m != 0 && w == 0 {
      assert And(m / 2, 0) == 0;
    }
  }

  lemma CoversByte(b: byte)
    ensures And(0x0A, b) == 0x0A <==> HasLf(b)
    ensures And(0x0D, b) == 0x0D <==> HasCr(b)
  {
    Covers(0x0A, b);
    Covers(0x05, b / 2);
    Covers(0x02, b / 2 / 2);
    Covers(0x01, b / 2 / 2 / 2);
    Covers(0x0D, b);
    Covers(0x06, b / 2);
    Covers(0x03, b / 2 / 2);
    assert And(0, b / 2 / 2 / 2 / 2) == 0;
  }

  lemma {:induction false} AndSplit(h: nat, l: nat, h': nat, l': nat, k: nat)
    requires l < Pow2(k) && l' < Pow2(k)
    ensures And(Up(h, k) + l, Up(h', k) + l') == Up(And(h, h'), k) + And(l, l')
    decreases k
  {
    hide And;
    if k > 0 {
      AndSplit(h, l / 2, h', l' / 2, k - 1);
      var x, y := Up(h, k) + l, Up(h', k) + l';
      assert x / 2 == Up(h, k - 1) + l / 2 && y / 2 == Up(h', k - 1) + l' / 2;
      assert x % 2 == l % 2 && y % 2 == l' % 2;
      AndHalf(x, y);
      AndHalf(l, l');
    } else {
      AndHalf(0, 0);
    }
  }

  lemma AndHalf(a: nat, b: nat)
    ensures And(a, b) == 2 * And(a / 2, b / 2) + (if a % 2 == 1 && b % 2 == 1 then 1 else 0)
  {
    if a == 0 || b == 0 {
      assert And(a / 2, b / 2) == 0;
    }
  }

  /** Only the two low bytes count for `is_crlf`. */
  lemma CrlfOfBytes(h: nat, c: byte, d: byte, w: word)
    requires w == 0x1_0000 * h + 0x100 * c + d
    ensures IsCrlf(w) <==> HasCr(c) && HasLf(d)
  {
    hide Up, And, HasCr, HasLf;
    Pow2Values();
    Up8(0x0D);
    Up8(0x100 * h + c);
    AndSplit(0x0D, 0x0A, 0x100 * h + c, d, 8);
    UpZero(8);
    Up8(h);
    AndSplit(0, 0x0D, h, c, 8);
    assert And(0, h) == 0;
    Up8(And(0x0D, c));
    CoversByte(c);
    CoversByte(d);
  }

  lemma UpperHalf(h: nat, l: nat, w: word)
    requires w == 0x1_0000 * h + l && l < 0x1_0000 && h < 0x1_0000
    ensures exists x: nat :: Asr32(w, 16) == 0x1_0000 * x + h
  {
    hide Up, Down, Low, Asr32;
    Pow2Values();
    Up16(h);
    SplitUnique(h, l, 16);
    AsrLow(w, 16, 16);
    LowSmall(h, 16);
    SplitAt(Asr32(w, 16), 16);
    Up16(Down(Asr32(w, 16), 16));
  }

  /** Four bytes are taken for CRLF CRLF when their bits include it. */
  lemma CrlfCrlfOfBytes(a: byte, b: byte, c: byte, d: byte)
    ensures IsCrlf(Word4(a, b, c, d)) <==> HasCr(c) && HasLf(d)
    ensures IsCrlfCrlf(Word4(a, b, c, d)) <==> HasCr(a) && HasLf(b) && HasCr(c) && HasLf(d)
  {
    hide IsCrlf, HasCr, HasLf, Asr32;
    CrlfOfBytes(0x100 * a + b, c, d, Word4(a, b, c, d));
    UpperHalf(0x100 * a + b, 0x100 * c + d, Word4(a, b, c, d));
    var x: nat :| Asr32(Word4(a, b, c, d), 16) == 0x1_0000 * x + (0x100 * a + b);
    CrlfOfBytes(x, a, b, Asr32(Word4(a, b, c, d), 16));
  }

  /** A 7-bit byte moves the others up by one place; any other one, sign-extended, sets them all. */
  lemma PushedBytes(a: byte, b: byte, c: byte, d: byte, e: byte)
    ensures PushByte(Word4(a, b, c, d), e) == if e < 0x80 then Word4(b, c, d, e) else Word4(0xFF, 0xFF, 0xFF, e)
  {
    if e < 0x80 {
      var w, rest := Word4(a, b, c, d), 0x1_0000 * b + 0x100 * c + d;
      PushKeeps(w, e);
      assert Low(w, 24) == rest by {
        Up24(a);
        Up24(1);
        SplitUnique(a, rest, 24);
      }
      Up8(rest);
    }
  }

  // ---------------------------------------------------------------- header texts

  /** The four bytes up to index `i` pass the test for CRLF CRLF. */
  predicate Alias(s: seq<byte>, i: nat)
    requires 3 <= i < |s|
  {
    HasCr(s[i - 3]) && HasLf(s[i - 2]) && HasCr(s[i - 1]) && HasLf(s[i])
  }

  /** Nowhere in the text is a header taken to end. */
  predicate Quiet(s: seq<byte>) {
    forall i :: 3 <= i < |s| ==> !Alias(s, i)
  }

  predicate SevenBit(s: seq<byte>) {
    forall i :: 0 <= i < |s| ==> s[i] < 0x80
  }

  /** What the parser has in place of the byte `back` places before the end of the text: zero before
      its start, and 0xFF if a byte of 0x80 or more came after. */
  function Seen(s: seq<byte>, back: nat): (b: byte) {
    if s == [] then 0
    else
      var last := s[|s| - 1];
      if back == 0 then last else if last >= 0x80 then 0xFF else Seen(s[..|s| - 1], back - 1)
  }

  /** The header is taken to be complete at the end of this text. */
  predicate Complete(s: seq<byte>) {
    HasCr(Seen(s, 3)) && HasLf(Seen(s, 2)) && HasCr(Seen(s, 1)) && HasLf(Seen(s, 0))
  }

  /** A byte of 0x80 or more completes the header exactly when it has the bits of LF. */
  lemma HighByteCompletes(s: seq<byte>)
    requires s != [] && s[|s| - 1] >= 0x80
    ensures Complete(s) <==> HasLf(s[|s| - 1])
  {
  }

  predicate NeverComplete(s: seq<byte>) {
    forall n :: 0 < n <= |s| ==> !Complete(s[..n])
  }

  ghost predicate InHeader(s: State, text: seq<byte>, out: seq<Delivery>) {
    && s.header && s.content == [] && s.boundaryMatch == 0 && s.out == out && s.Valid()
    && s.lastFour == Word4(Seen(text, 3), Seen(text, 2), Seen(text, 1), Seen(text, 0))
  }

  ghost predicate HeaderOver(s: State, out: seq<Delivery>) {
    !s.header && s.content == [] && s.boundaryMatch == 0 && s.out == out
  }

  lemma SeenNext(text: seq<byte>, b: byte, back: nat)
    ensures Seen(text + [b], 0) == b
    ensures Seen(text + [b], back + 1) == if b >= 0x80 then 0xFF else Seen(text, back)
  {
    assert (text + [b])[..|text|] == text;
  }

  lemma HeaderByte(s: State, text: seq<byte>, b: byte, out: seq<Delivery>)
    requires InHeader(s, text, out)
    ensures if Complete(text + [b]) then HeaderOver(HeaderStep(s, b), out)
            else InHeader(HeaderStep(s, b), text + [b], out)
  {
    hide IsCrlfCrlf, IsCrlf, PushByte, Seen, HasCr, HasLf;
    var t := text + [b];
    SeenNext(text, b, 0);
    SeenNext(text, b, 1);
    SeenNext(text, b, 2);
    PushedBytes(Seen(text, 3), Seen(text, 2), Seen(text, 1), Seen(text, 0), b);
    CrlfCrlfOfBytes(Seen(t, 3), Seen(t, 2), Seen(t, 1), Seen(t, 0));
  }

  /** A text that is nowhere complete is read as header from start to end. */
  lemma {:induction false} HeaderText(text: seq<byte>, out: seq<Delivery>)
    requires NeverComplete(text)
    ensures InHeader(Run(Reset(out), text), text, out)
  {
    hide HeaderStep, Complete;
    if text == [] {
      assert |CONTENT_LENGTH| > 0 && |BOUNDARY| > 0;
    } else {
      var n := |text| - 1;
      assert text == text[..n] + [text[n]] && text[..|text|] == text;
      forall m | 0 < m <= n
        ensures !Complete(text[..n][..m])
      {
        assert text[..n][..m] == text[..m];
      }
      HeaderText(text[..n], out);
      HeaderByte(Run(Reset(out), text[..n]), text[..n], text[n], out);
    }
  }

  /** For every text of any bytes: the header ends with its first complete beginning. */
  lemma HeaderEnds(text: seq<byte>, out: seq<Delivery>, r: State)
    requires text != [] && NeverComplete(text[..|text| - 1]) && r == Run(Reset(out), text)
    ensures r.header <==> !Complete(text)
    ensures Complete(text) ==> HeaderOver(r, out)
  {
    hide HeaderStep, Complete, NeverComplete, Seen;
    var n := |text| - 1;
    HeaderText(text[..n], out);
    assert text == text[..n] + [text[n]];
    var before := Run(Reset(out), text[..n]);
    HeaderByte(before, text[..n], text[n], out);
    StillHeader(before, text[..n], out);
    assert r == HeaderStep(before, text[n]);
  }

  lemma {:induction false} SeenSevenBit(s: seq<byte>, back: nat)
    requires SevenBit(s)
    ensures Seen(s, back) == if back < |s| then s[|s| - 1 - back] else 0
  {
    if s != [] && back > 0 {
      SeenSevenBit(s[..|s| - 1], back - 1);
    }
  }

  /** For 7-bit text the four bytes are those of the text. */
  lemma SevenBitComplete(s: seq<byte>)
    requires SevenBit(s)
    ensures Complete(s) <==> |s| >= 4 && Alias(s, |s| - 1)
  {
    hide Seen;
    SeenSevenBit(s, 0);
    SeenSevenBit(s, 1);
    SeenSevenBit(s, 2);
    SeenSevenBit(s, 3);
  }

  lemma QuietIsNeverComplete(text: seq<byte>)
    requires Quiet(text) && SevenBit(text)
    ensures NeverComplete(text)
  {
    hide HasCr, HasLf, Complete;
    forall n | 0 < n <= |text|
      ensures !Complete(text[..n])
    {
      SevenBitComplete(text[..n]);
      if n >= 4 {
        assert !Alias(text, n - 1);
      }
    }
  }

  /** A quiet text is read as header from start to end. */
  lemma QuietText(text: seq<byte>, out: seq<Delivery>)
    requires Quiet(text) && SevenBit(text)
    ensures InHeader(Run(Reset(out), text), text, out)
  {
    QuietIsNeverComplete(text);
    HeaderText(text, out);
  }

  lemma StillHeader(s: State, text: seq<byte>, out: seq<Delivery>)
    requires InHeader(s, text, out)
    ensures s.header
  {
  }

  /** The first aliased byte of a 7-bit text ends the header. */
  lemma AliasEndsHeader(text: seq<byte>, out: seq<Delivery>, r: State)
    requires |text| >= 4 && Quiet(text[..|text| - 1]) && SevenBit(text) && Alias(text, |text| - 1)
    requires r == Run(Reset(out), text)
    ensures HeaderOver(r, out)
  {
    hide Run, Complete, NeverComplete, Quiet, Alias;
    QuietIsNeverComplete(text[..|text| - 1]);
    SevenBitComplete(text);
    HeaderEnds(text, out, r);
  }

  /** Quiet texts can be joined behind a byte that has neither bit pattern. */
  lemma QuietJoin(u: seq<byte>, v: seq<byte>)
    requires Quiet(u) && Quiet(v) && SevenBit(u) && SevenBit(v)
    requires |u| > 0 && !HasCr(u[|u| - 1]) && !HasLf(u[|u| - 1])
    ensures Quiet(u + v) && SevenBit(u + v)
  {
    hide HasCr, HasLf;
    forall i | 3 <= i < |u + v|
      ensures !Alias(u + v, i)
    {
      if i < |u| {
        assert !Alias(u, i);
      } else if i - 3 >= |u| {
        assert !Alias(v, i - |u|);
      }
    }
  }
}
