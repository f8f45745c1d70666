/** `decodeBase64` of output_http: decoding in place, against section 4 of RFC 4648. */
module Base64InPlace {
  import opened Options
  import opened Words
  import opened CStrings

  type sextet = x: int | 0 <= x < 64

  // ---------------------------------------------------------------- RFC 4648

  /** Table 1 of the RFC. */
  function Letter(v: sextet): (c: byte) {
    if v < 26 then 65 + v else if v < 52 then 97 + (v - 26) else if v < 62 then 48 + (v - 52)
    else if v == 62 then 43 else 47
  }

  const CAPITALS: string := "ABCDEFGHIJKLMNOPQRSTUVWXYZ"
  const SMALLS: string := "abcdefghijklmnopqrstuvwxyz"
  const OTHERS: string := "0123456789+/"

  lemma CapitalAt(v: nat)
    requires v < 26
    ensures |CAPITALS| == 26 && CAPITALS[v] as int == 65 + v
  {
  }

  lemma SmallAt(v: nat)
    requires v < 26
    ensures |SMALLS| == 26 && SMALLS[v] as int == 97 + v
  {
  }

  lemma OtherAt(v: nat)
    requires v < 12
    ensures |OTHERS| == 12 && OTHERS[v] as int == if v < 10 then 48 + v else if v == 10 then 43 else 47
  {
  }

  /** The letters are those of the table, in its order. */
  lemma LetterIsListed(v: sextet)
    ensures |CAPITALS + SMALLS + OTHERS| == 64 && Letter(v) == (CAPITALS + SMALLS + OTHERS)[v] as int
  {
    CapitalAt(0);
    SmallAt(0);
    OtherAt(0);
    if v < 26 {
      CapitalAt(v);
    } else if v < 52 {
      SmallAt(v - 26);
    } else {
      OtherAt(v - 52);
    }
  }

  const PAD: byte := 61

  /** Section 4: 24-bit groups, the last one padded. */
  function Encode(x: seq<byte>): (t: seq<byte>) {
    if x == [] then []
    else if |x| == 1 then EncodeOne(x[0])
    else if |x| == 2 then EncodeTwo(x[0], x[1])
    else EncodeThree(x[0], x[1], x[2]) + Encode(x[3..])
  }

  function EncodeOne(x: byte): (t: seq<byte>) {
    [Letter(x / 4), Letter(x % 4 * 16), PAD, PAD]
  }

  function EncodeTwo(x: byte, y: byte): (t: seq<byte>) {
    [Letter(x / 4), Letter(x % 4 * 16 + y / 16), Letter(y % 16 * 4), PAD]
  }

  function EncodeThree(x: byte, y: byte, z: byte): (t: seq<byte>) {
    [Letter(x / 4), Letter(x % 4 * 16 + y / 16), Letter(y % 16 * 4 + z / 64), Letter(z % 64)]
  }

  /** A group is one number of 24 bits, taken six bits at a time; a shorter one is filled up with zero
      bits, and '=' stands where no bits are left. */
  lemma GroupsOfSixBits(x: byte, y: byte, z: byte, n: nat)
    requires n == 65536 * x + 256 * y + z
    ensures EncodeThree(x, y, z) == [Letter(n / 262144), Letter(n / 4096 % 64), Letter(n / 64 % 64), Letter(n % 64)]
    ensures y == z == 0 ==> EncodeOne(x) == [Letter(n / 262144), Letter(n / 4096 % 64), 61, 61]
    ensures z == 0 ==> EncodeTwo(x, y) == [Letter(n / 262144), Letter(n / 4096 % 64), Letter(n / 64 % 64), 61]
  {
    hide Letter;
    assert n / 262144 == x / 4;
    assert n / 4096 == 16 * x + y / 16 && (16 * x + y / 16) % 64 == x % 4 * 16 + y / 16;
    assert n / 64 == 1024 * x + 4 * y + z / 64 && (1024 * x + 4 * y + z / 64) % 64 == y % 16 * 4 + z / 64;
    assert n % 64 == z % 64;
  }

  /** The number of '=' at the end of the encoded text. */
  function Padding(x: seq<byte>): (n: nat) {
    if |x| % 3 == 0 then 0 else 3 - |x| % 3
  }

  function Zeros(n: nat): (s: seq<byte>)
    ensures |s| == n
  {
    if n == 0 then [] else [0] + Zeros(n - 1)
  }

  // ---------------------------------------------------------------- decoding

  /** The value of a character; '=' counts as zero, other characters are skipped. */
  function Value(c: byte): (v: Option<sextet>) {
    if 48 <= c <= 57 then Some(c - 48 + 52)
    else if 65 <= c <= 90 then Some(c - 65)
    else if 97 <= c <= 122 then Some(c - 97 + 26)
    else if c == 43 then Some(62)
    else if c == 47 then Some(63)
    else if c == 61 then Some(0)
    else None
  }

  /** Only the letters and '=' have a value, and a letter has the value it stands for. */
  lemma ValueIff(c: byte, v: sextet)
    ensures Value(c) == Some(v) <==> c == Letter(v) || (c == 61 && v == 0)
  {
  }

  function Sextets(t: seq<byte>): (v: seq<sextet>)
    ensures |v| <= |t|
  {
    if t == [] then []
    else Sextets(t[..|t| - 1]) + (match Value(t[|t| - 1]) case Some(x) => [x] case None => [])
  }

  /** The three bytes of four sextets. */
  function Three(a: sextet, b: sextet, c: sextet, d: sextet): (r: seq<byte>)
    ensures |r| == 3
  {
    [a * 4 + b / 16, b % 16 * 16 + c / 4, c % 4 * 64 + d]
  }

  /** Whole groups of four are decoded; what is left over is dropped. */
  function Groups(v: seq<sextet>): (r: seq<byte>)
    ensures 4 * |r| <= 3 * |v|
  {
    if |v| < 4 then [] else Three(v[0], v[1], v[2], v[3]) + Groups(v[4..])
  }

  lemma {:induction false} GroupsTail(v: seq<sextet>, k: nat, rest: seq<sextet>)
    requires |v| == 4 * k
    ensures Groups(v + rest) == Groups(v) + Groups(rest)
    ensures |Groups(v)| == 3 * k
  {
    hide Three;
    if k == 0 {
      assert v + rest == rest;
    } else {
      GroupsTail(v[4..], k - 1, rest);
      assert (v + rest)[4..] == v[4..] + rest;
    }
  }

  function Decode(t: seq<byte>): (r: seq<byte>) {
    Groups(Sextets(t))
  }

  /** The characters of a text that carry a value. */
  function Kept(t: seq<byte>): (r: seq<byte>) {
    if t == [] then []
    else Kept(t[..|t| - 1]) + (if Value(t[|t| - 1]).Some? then [t[|t| - 1]] else [])
  }

  lemma {:induction false} SextetsAppend(s: seq<byte>, t: seq<byte>)
    ensures Sextets(s + t) == Sextets(s) + Sextets(t)
  {
    if t == [] {
      assert s + t == s;
    } else {
      var n := |t| - 1;
      assert (s + t)[..|s + t| - 1] == s + t[..n];
      SextetsAppend(s, t[..n]);
    }
  }

  lemma OneSextet(c: byte)
    ensures Sextets([c]) == match Value(c) case Some(x) => [x] case None => []
  {
    assert [c][..0] == [];
    assert Sextets([]) == [];
  }

  lemma {:induction false} SextetsOfKept(t: seq<byte>)
    ensures Sextets(Kept(t)) == Sextets(t)
  {
    hide Value;
    if t != [] {
      var n := |t| - 1;
      SextetsOfKept(t[..n]);
      if Value(t[n]).Some? {
        SextetsAppend(Kept(t[..n]), [t[n]]);
        OneSextet(t[n]);
        assert Kept(t) == Kept(t[..n]) + [t[n]];
      } else {
        assert Kept(t) == Kept(t[..n]);
      }
    }
  }

  lemma LetterValue(v: sextet)
    ensures Value(Letter(v)) == Some(v)
  {
  }

  lemma FourSextets(a: byte, b: byte, c: byte, d: byte)
    requires Value(a).Some? && Value(b).Some? && Value(c).Some? && Value(d).Some?
    ensures Sextets([a, b, c, d]) == [Value(a).value, Value(b).value, Value(c).value, Value(d).value]
  {
    hide Value;
    OneSextet(a);
    OneSextet(b);
    OneSextet(c);
    OneSextet(d);
    assert [a, b, c, d] == [a] + [b] + [c] + [d];
    SextetsAppend([a], [b]);
    SextetsAppend([a] + [b], [c]);
    SextetsAppend([a] + [b] + [c], [d]);
  }

  lemma FourLetters(a: sextet, b: sextet, c: sextet, d: sextet, rest: seq<byte>)
    ensures Groups(Sextets([Letter(a), Letter(b), Letter(c), Letter(d)] + rest)) ==
            Three(a, b, c, d) + Groups(Sextets(rest))
  {
    LetterValue(a);
    LetterValue(b);
    LetterValue(c);
    LetterValue(d);
    hide Value, Letter, Sextets;
    var four := [Letter(a), Letter(b), Letter(c), Letter(d)];
    FourSextets(Letter(a), Letter(b), Letter(c), Letter(d));
    SextetsAppend(four, rest);
    OneGroup(a, b, c, d, Sextets(rest));
  }

  lemma OneGroup(a: sextet, b: sextet, c: sextet, d: sextet, v: seq<sextet>)
    ensures Groups([a, b, c, d] + v) == Three(a, b, c, d) + Groups(v)
  {
    assert ([a, b, c, d] + v)[4..] == v;
  }

  /** Decoding a text that holds the encoding of `x`, with other characters anywhere in between,
      gives `x` and one zero byte for each '='. */
  lemma Base64RoundTrip(x: seq<byte>, t: seq<byte>)
    requires Kept(t) == Encode(x)
    ensures Decode(t) == x + Zeros(Padding(x))
  {
    SextetsOfKept(t);
    EncodedSextets(x);
  }

  lemma {:induction false} EncodedSextets(x: seq<byte>)
    ensures Groups(Sextets(Encode(x))) == x + Zeros(Padding(x))
  {
    hide Groups, Sextets, EncodeOne, EncodeTwo, EncodeThree, Zeros;
    if x == [] {
      EmptyText();
    } else if |x| <= 2 {
      ShortGroup(x);
    } else {
      EncodedSextets(x[3..]);
      LongGroup(x[0], x[1], x[2], Encode(x[3..]));
      assert Encode(x) == EncodeThree(x[0], x[1], x[2]) + Encode(x[3..]);
      assert x == [x[0], x[1], x[2]] + x[3..];
      assert Padding(x[3..]) == Padding(x);
    }
  }

  lemma EmptyText()
    ensures Groups(Sextets([])) == [] && Zeros(0) == []
  {
  }

  lemma LongGroup(x: byte, y: byte, z: byte, rest: seq<byte>)
    ensures Groups(Sextets(EncodeThree(x, y, z) + rest)) == [x, y, z] + Groups(Sextets(rest))
  {
    hide Groups, Sextets, Letter, Three;
    FourLetters(x / 4, x % 4 * 16 + y / 16, y % 16 * 4 + z / 64, z % 64, rest);
    RegroupThree(x, y, z);
  }

  lemma RegroupThree(x: byte, y: byte, z: byte)
    ensures Three(x / 4, x % 4 * 16 + y / 16, y % 16 * 4 + z / 64, z % 64) == [x, y, z]
  {
  }

  lemma ShortGroup(x: seq<byte>)
    requires 0 < |x| <= 2
    ensures Groups(Sextets(Encode(x))) == x + Zeros(Padding(x))
  {
    hide Groups, Sextets, Encode, Padding, Zeros;
    if |x| == 1 {
      assert x == [x[0]];
      Short1(x[0]);
    } else {
      assert x == [x[0], x[1]];
      Short2(x[0], x[1]);
    }
  }

  lemma Short1(x: byte)
    ensures Groups(Sextets(Encode([x]))) == [x] + Zeros(Padding([x]))
  {
    hide Groups, Sextets, EncodeOne, EncodeTwo, EncodeThree, Zeros;
    OneByte(x);
  }

  lemma Short2(x: byte, y: byte)
    ensures Groups(Sextets(Encode([x, y]))) == [x, y] + Zeros(Padding([x, y]))
  {
    hide Groups, Sextets, EncodeOne, EncodeTwo, EncodeThree, Zeros;
    TwoBytes(x, y);
  }

  lemma OneByte(x: byte)
    ensures Groups(Sextets(EncodeOne(x))) == [x] + Zeros(2)
  {
    hide Groups, Sextets, Letter, Value, Zeros;
    TwoZeros();
    RegroupOne(x);
    hide Three;
    LetterValue(x / 4);
    LetterValue(x % 4 * 16);
    LastFour(Letter(x / 4), Letter(x % 4 * 16), PAD, x / 4, x % 4 * 16, 0);
  }

  lemma RegroupOne(x: byte)
    ensures Three(x / 4, x % 4 * 16, 0, 0) == [x, 0, 0]
  {
  }

  lemma RegroupTwo(x: byte, y: byte)
    ensures Three(x / 4, x % 4 * 16 + y / 16, y % 16 * 4, 0) == [x, y, 0]
  {
  }

  lemma TwoBytes(x: byte, y: byte)
    ensures Groups(Sextets(EncodeTwo(x, y))) == [x, y] + Zeros(1)
  {
    hide Groups, Sextets, Letter, Value, Zeros;
    TwoZeros();
    RegroupTwo(x, y);
    hide Three;
    LetterValue(x / 4);
    LetterValue(x % 4 * 16 + y / 16);
    LetterValue(y % 16 * 4);
    LastFour(Letter(x / 4), Letter(x % 4 * 16 + y / 16), Letter(y % 16 * 4), x / 4, x % 4 * 16 + y / 16, y % 16 * 4);
  }

  lemma TwoZeros()
    ensures Zeros(1) == [0] && Zeros(2) == [0, 0]
  {
    assert Zeros(1) == [0] + Zeros(0);
  }

  lemma LastFour(l: byte, m: byte, n: byte, a: sextet, b: sextet, c: sextet)
    requires Value(l) == Some(a) && Value(m) == Some(b) && (Value(n) == Some(c) || (n == PAD && c == 0))
    ensures Groups(Sextets([l, m, n, PAD])) == Three(a, b, c, 0)
  {
    hide Sextets, Three;
    assert Value(PAD) == Some(0);
    FourSextets(l, m, n, PAD);
    OneGroup(a, b, c, 0, []);
    assert [a, b, c, 0] + [] == [a, b, c, 0];
    EmptyText();
  }

  // ---------------------------------------------------------------- the code

  /** `(ch << 6) | t`. */
  function Push6(ch: word, t: sextet): (r: word)
    ensures r == Up(Low(ch, 26), 6) + t
  {
    PushSextet(ch, t);
    Or(Shl32(ch, 6), t)
  }

  lemma PushSextet(ch: word, t: sextet)
    ensures Or(Shl32(ch, 6), t) == Up(Low(ch, 26), 6) + t < 0x1_0000_0000
  {
    Pow2Values();
    LowUp(ch, 26, 6);
    OrDisjoint(Low(ch, 26), t, 6);
    UpMono(Low(ch, 26), Pow2(26), 6);
    UpUp(1, 26, 6);
  }

  /** The number that up to four sextets spell. */
  function Spelled(v: seq<sextet>): (n: nat) {
    if v == [] then 0 else Up(Spelled(v[..|v| - 1]), 6) + v[|v| - 1]
  }

  lemma PushLow(ch: word, t: sextet, n: nat)
    requires n <= 26
    ensures Low(Push6(ch, t), n + 6) == 0x40 * Low(ch, n) + t
  {
    assert Pow2(6) == 64;
    hide Up, Low;
    LowUpAdd(Low(ch, 26), t, n, 6);
    LowLow(ch, n, 26);
    Up6(Low(ch, n));
  }

  /** What earlier groups left in the accumulator stays above the bits of the current group. */
  lemma PushSpells(ch: word, v: seq<sextet>, t: sextet)
    requires |v| <= 3 && Low(ch, 6 * |v|) == Spelled(v)
    ensures Low(Push6(ch, t), 6 * |v + [t]|) == Spelled(v + [t])
  {
    hide Low, Spelled, Push6;
    PushLow(ch, t, 6 * |v|);
    SpelledSnoc(v, t);
    assert 6 * |v| + 6 == 6 * |v + [t]|;
  }

  lemma SpelledSnoc(v: seq<sextet>, t: sextet)
    ensures Spelled(v + [t]) == 0x40 * Spelled(v) + t
  {
    assert (v + [t])[..|v|] == v;
    Up6(Spelled(v));
  }

  lemma SpelledFour(a: sextet, b: sextet, c: sextet, d: sextet)
    ensures Spelled([a, b, c, d]) == 0x4_0000 * a + 0x1000 * b + 0x40 * c + d
  {
    hide Spelled;
    SpelledNone();
    assert [] + [a] == [a] && [a] + [b] == [a, b] && [a, b] + [c] == [a, b, c] && [a, b, c] + [d] == [a, b, c, d];
    SpelledSnoc([], a);
    SpelledSnoc([a], b);
    SpelledSnoc([a, b], c);
    SpelledSnoc([a, b, c], d);
  }

  lemma SpelledNone()
    ensures Spelled([]) == 0
  {
  }

  lemma Up6(a: nat)
    ensures Up(a, 6) == 0x40 * a
  {
    assert Up(a, 1) == 2 * a;
    assert Up(a, 2) == 4 * a;
    assert Up(a, 3) == 8 * a;
    assert Up(a, 4) == 16 * a;
    assert Up(a, 5) == 32 * a;
  }

  /** The three stores of a full group: `ch >> 16`, `ch >> 8` and `ch`, each cut to a byte. */
  lemma StoredBytes(ch: word, x: byte, y: byte, z: byte)
    requires Low(ch, 24) == 0x1_0000 * x + 0x100 * y + z
    ensures Low(Down(ch, 16), 8) == x && Low(Down(ch, 8), 8) == y && Low(ch, 8) == z
  {
    var low16 := 0x100 * y + z;
    Pow2Values();
    assert Low(Down(ch, 16), 8) == x && Low(ch, 16) == low16 by {
      LowDown(ch, 16, 8);
      Up16(x);
      SplitUnique(x, low16, 16);
      LowLow(ch, 16, 24);
    }
    assert Low(Down(ch, 8), 8) == y && Low(ch, 8) == z by {
      LowDown(ch, 8, 8);
      Up8(y);
      SplitUnique(y, z, 8);
      LowLow(ch, 8, 16);
    }
  }

  lemma ThreeSum(a: sextet, b: sextet, c: sextet, d: sextet, t: seq<byte>)
    requires t == Three(a, b, c, d)
    ensures 0x1_0000 * (t[0] as int) + 0x100 * (t[1] as int) + t[2] as int == 0x4_0000 * a + 0x1000 * b + 0x40 * c + d
  {
  }

  lemma FullGroup(ch: word, v: seq<sextet>)
    requires |v| == 4 && Low(ch, 24) == Spelled(v)
    ensures Groups(v) == [Low(Down(ch, 16), 8), Low(Down(ch, 8), 8), Low(ch, 8)]
  {
    hide Low, Down, Three, Spelled;
    var t := Three(v[0], v[1], v[2], v[3]);
    assert v == [v[0], v[1], v[2], v[3]];
    SpelledFour(v[0], v[1], v[2], v[3]);
    ThreeSum(v[0], v[1], v[2], v[3], t);
    StoredBytes(ch, t[0], t[1], t[2]);
    assert v[4..] == [];
    assert t + [] == t;
    assert t == [t[0], t[1], t[2]];
  }

  /** The loop's variables after the sextets `full + pending`: whole groups are stored, and the low
      bits of the accumulator spell the pending ones. */
  ghost predicate Decoded(out: seq<byte>, i: nat, ch: word, full: seq<sextet>, pending: seq<sextet>) {
    && |pending| == i < 4 && |full| % 4 == 0
    && out == Groups(full) && 4 * |out| == 3 * |full|
    && Low(ch, 6 * i) == Spelled(pending)
  }

  /** One character of the loop. */
  method DecodeChar(
    data: array<byte>, c: byte, w: nat, i: nat, ch: word, ghost full: seq<sextet>, ghost pending: seq<sextet>)
    returns (w': nat, i': nat, ch': word, ghost full': seq<sextet>, ghost pending': seq<sextet>)
    requires w <= data.Length && (i == 3 ==> w + 3 <= data.Length)
    requires Decoded(data[..w], i, ch, full, pending)
    modifies data
    ensures w <= w' <= data.Length && Decoded(data[..w'], i', ch', full', pending')
    ensures full' + pending' == full + pending + (match Value(c) case Some(x) => [x] case None => [])
    ensures forall k :: w' <= k < data.Length ==> data[k] == old(data[k])
  {
    hide Low, Down, Spelled, Groups, Value;
    w', i', ch', full', pending' := w, i, ch, full, pending;
    var t := Value(c);
    if t.None? {
      return;
    }
    ch' := Push6(ch, t.value);
    i' := i + 1;
    pending' := pending + [t.value];
    PushSpells(ch, pending, t.value);
    if i' == 4 {
      FullGroup(ch', pending');
      GroupsTail(full, |full| / 4, pending');
      w' := StoreThree(data, w, ch');
      i' := 0;
      full' := full + pending';
      pending' := [];
      NonePending(ch');
    }
  }

  /** The three stores of a full group. */
  method StoreThree(data: array<byte>, w: nat, ch: word) returns (w': nat)
    requires w + 3 <= data.Length
    modifies data
    ensures w' == w + 3 && data[..w'] == old(data[..w]) + [Low(Down(ch, 16), 8), Low(Down(ch, 8), 8), Low(ch, 8)]
    ensures forall k :: w' <= k < data.Length ==> data[k] == old(data[k])
  {
    Pow2Values();
    hide Low, Down;
    data[w] := Low(Down(ch, 16), 8);
    data[w + 1] := Low(Down(ch, 8), 8);
    data[w + 2] := Low(ch, 8);
    w' := w + 3;
  }

  lemma NonePending(ch: word)
    ensures Low(ch, 0) == Spelled([])
  {
  }

  /** `decodeBase64` on a NUL-terminated string. The text is read in front of what is written: the
      decoded bytes and a NUL replace the start of it, and the rest of the memory stays. */
  method DecodeBase64(data: array<byte>, ghost n: nat)
    requires IsCString(data[..], n)
    modifies data
    ensures var d := Decode(old(data[..n]));
            && |d| < data.Length && 4 * |d| <= 3 * n && data[..|d|] == d && data[|d|] == 0
            && forall k :: |d| < k < data.Length ==> data[k] == old(data[k])
  {
    hide Groups, Spelled, Value, Low;
    ghost var text := old(data[..n]);
    var r, w, i := 0, 0, 0;
    var ch: word := 0;
    ghost var full: seq<sextet>, pending: seq<sextet> := [], [];
    StartOfText(ch);
    assert text[..0] == [];
    while data[r] != 0
      invariant 0 <= w <= r <= n
      invariant Decoded(data[..w], i, ch, full, pending)
      invariant full + pending == Sextets(text[..r])
      invariant forall k :: w <= k < data.Length ==> data[k] == old(data[k])
      decreases n - r
    {
      var c := data[r];
      r := r + 1;
      assert text[..r][..r - 1] == text[..r - 1] && text[..r][r - 1] == c;
      w, i, ch, full, pending := DecodeChar(data, c, w, i, ch, full, pending);
    }
    assert r == n && text[..n] == text;
    GroupsTail(full, |full| / 4, pending);
    LeftOver(pending);
    data[w] := 0;
  }

  lemma StartOfText(ch: word)
    ensures Decoded([], 0, ch, [], []) && Sextets([]) == []
  {
  }

  lemma LeftOver(v: seq<sextet>)
    requires |v| < 4
    ensures Groups(v) == []
  {
  }
}
