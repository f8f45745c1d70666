/** `unescape` of output_http: percent decoding in place, against section 2.1 of RFC 3986. */
module PercentDecoding {
  import opened Options
  import opened Words
  import opened CStrings

  const PERCENT: byte := 37

  /** `hex_char_to_int`, with -1 as no value. */
  function HexValue(c: byte): (v: int)
    ensures -1 <= v < 16
  {
    if 48 <= c <= 57 then c - 48
    else if 97 <= c <= 102 then c - 97 + 10
    else if 65 <= c <= 70 then c - 65 + 10
    else -1
  }

  predicate IsHex(c: byte) {
    HexValue(c) >= 0
  }

  // ---------------------------------------------------------------- hexadecimal digits

  const LOWER: string := "0123456789abcdef"
  const UPPER: string := "0123456789ABCDEF"

  /** The character is the digit with value `v`. */
  predicate Spells(c: byte, v: int) {
    0 <= v < 16 && (c == LOWER[v] as int || c == UPPER[v] as int)
  }

  lemma DigitAt(v: int)
    requires 0 <= v < 16
    ensures LOWER[v] as int == if v < 10 then 48 + v else 87 + v
    ensures UPPER[v] as int == if v < 10 then 48 + v else 55 + v
  {
  }

  /** `hex_char_to_int` gives the place of a character among the digits, in either case. */
  lemma HexValueIff(c: byte, v: int)
    ensures HexValue(c) == v && v >= 0 <==> Spells(c, v)
  {
    if 0 <= v < 16 {
      DigitAt(v);
    }
  }

  ghost predicate HexDigit(c: byte) {
    exists v :: Spells(c, v)
  }

  lemma HexDigitIff(c: byte)
    ensures IsHex(c) <==> HexDigit(c)
    ensures IsHex(c) ==> Spells(c, HexValue(c))
    ensures forall v :: Spells(c, v) ==> v == HexValue(c)
  {
    forall v
      ensures HexValue(c) == v && v >= 0 <==> Spells(c, v)
    {
      HexValueIff(c, v);
    }
    if IsHex(c) {
      assert Spells(c, HexValue(c));
    }
  }

  // ---------------------------------------------------------------- texts

  /** Section 2.1: a triplet of '%' and two hexadecimal digits stands for a byte. */
  function Decode(s: seq<byte>): (r: Option<seq<byte>>)
  {
    if s == [] then Some([])
    else if s[0] != PERCENT then Push(s[0], Decode(s[1..]))
    else if |s| >= 3 && IsHex(s[1]) && IsHex(s[2]) then Push(HexValue(s[1]) * 16 + HexValue(s[2]), Decode(s[3..]))
    else None
  }

  function Push(c: byte, r: Option<seq<byte>>): (q: Option<seq<byte>>) {
    match r case None => None case Some(t) => Some([c] + t)
  }

  /** Whether three characters are '%' and the two digits of `c`. */
  ghost predicate IsTriplet(t: seq<byte>, c: byte) {
    && |t| == 3 && t[0] == PERCENT
    && exists hi, lo :: Spells(t[1], hi) && Spells(t[2], lo) && c == 16 * hi + lo
  }

  /** Whether a text is one of the ways to escape `x`: every '%' becomes a triplet, and any other
      byte may. */
  ghost predicate Escapes(x: seq<byte>, t: seq<byte>) {
    if x == [] then t == []
    else
      || (t != [] && t[0] == x[0] != PERCENT && Escapes(x[1..], t[1..]))
      || (|t| >= 3 && IsTriplet(t[..3], x[0]) && Escapes(x[1..], t[3..]))
  }

  lemma TripletIff(t: seq<byte>, c: byte)
    requires |t| >= 3
    ensures IsTriplet(t[..3], c) <==>
            t[0] == PERCENT && IsHex(t[1]) && IsHex(t[2]) && c == HexValue(t[1]) * 16 + HexValue(t[2])
  {
    hide HexValue, Spells;
    HexDigitIff(t[1]);
    HexDigitIff(t[2]);
  }

  /** Decoding inverts every encoder that escapes at least '%', and accepts nothing else. */
  lemma {:induction false} DecodeInvertsEscaping(x: seq<byte>, t: seq<byte>)
    ensures Decode(t) == Some(x) <==> Escapes(x, t)
    decreases |t|
  {
    hide HexValue, IsTriplet;
    if t != [] {
      if x != [] {
        DecodeInvertsEscaping(x[1..], t[1..]);
        if |t| >= 3 {
          DecodeInvertsEscaping(x[1..], t[3..]);
          TripletIff(t, x[0]);
        }
        assert x == [x[0]] + x[1..];
      }
    }
  }

  /** An encoder of section 2.1: bytes to be kept stay, unless it is '%', and all others become triplets
      with digits of one case. */
  function Encode(x: seq<byte>, keep: byte -> bool, upper: bool): (t: seq<byte>) {
    if x == [] then []
    else (if keep(x[0]) && x[0] != PERCENT then [x[0]] else EncodeByte(x[0], upper)) + Encode(x[1..], keep, upper)
  }

  function EncodeByte(c: byte, upper: bool): (t: seq<byte>)
    ensures |t| == 3 && t[0] == 37
  {
    DigitAt(c / 16);
    DigitAt(c % 16);
    var digits := if upper then UPPER else LOWER;
    [PERCENT, digits[c / 16] as int, digits[c % 16] as int]
  }

  /** Whatever an encoder keeps, and in either case of digits, its text decodes to what it encoded. */
  lemma {:induction false} EncodedDecodes(x: seq<byte>, keep: byte -> bool, upper: bool)
    ensures Escapes(x, Encode(x, keep, upper)) && Decode(Encode(x, keep, upper)) == Some(x)
  {
    var t := Encode(x, keep, upper);
    if x != [] {
      EncodedDecodes(x[1..], keep, upper);
      if keep(x[0]) && x[0] != PERCENT {
        assert t[1..] == Encode(x[1..], keep, upper);
      } else {
        assert t[3..] == Encode(x[1..], keep, upper);
        EncodedByte(x[0], upper, t[..3]);
      }
    }
    DecodeInvertsEscaping(x, t);
  }

  lemma EncodedByte(c: byte, upper: bool, t: seq<byte>)
    requires t == EncodeByte(c, upper)
    ensures IsTriplet(t, c)
  {
    assert Spells(t[1], c / 16) && Spells(t[2], c % 16);
  }

  /** Every '%' that is read, left to right, has two hexadecimal digits behind it. */
  ghost predicate WellFormed(s: seq<byte>) {
    s == [] ||
    (if s[0] != PERCENT then WellFormed(s[1..])
     else |s| >= 3 && HexDigit(s[1]) && HexDigit(s[2]) && WellFormed(s[3..]))
  }

  lemma {:induction false} DecodesIffWellFormed(s: seq<byte>)
    ensures Decode(s).Some? <==> WellFormed(s)
    ensures Decode(s).Some? ==> |Decode(s).value| <= |s|
    decreases |s|
  {
    hide HexValue, HexDigit;
    if s != [] {
      DecodesIffWellFormed(s[1..]);
      if |s| >= 3 {
        DecodesIffWellFormed(s[3..]);
        HexDigitIff(s[1]);
        HexDigitIff(s[2]);
      }
    }
  }

  /** `strlen`. */
  method StringLength(str: array<byte>, ghost n: nat) returns (length: nat)
    requires IsCString(str[..], n)
    ensures length == n
  {
    length := 0;
    while str[length] != 0
      invariant length <= n
      decreases n - length
    {
      length := length + 1;
    }
  }

  /** The bytes that `unescape` writes before it stops: a triplet with a bad second digit leaves the
      value of its first one. */
  function Written(s: seq<byte>): (r: seq<byte>)
    ensures |r| <= |s|
  {
    if s == [] then []
    else if s[0] != PERCENT then [s[0]] + Written(s[1..])
    else if |s| >= 3 && IsHex(s[1]) && IsHex(s[2]) then [HexValue(s[1]) * 16 + HexValue(s[2])] + Written(s[3..])
    else if |s| >= 2 && IsHex(s[1]) then [HexValue(s[1]) * 16]
    else []
  }

  /** On well-formed text that is the decoding. */
  lemma {:induction false} WrittenIsDecoding(s: seq<byte>)
    requires WellFormed(s)
    ensures Decode(s) == Some(Written(s))
  {
    hide HexValue, HexDigit;
    if s != [] {
      if s[0] != PERCENT {
        WrittenIsDecoding(s[1..]);
      } else {
        HexDigitIff(s[1]);
        HexDigitIff(s[2]);
        WrittenIsDecoding(s[3..]);
      }
    }
  }

  /** The cases of the loop, for the next character to be read. */
  lemma WrittenCases(done: seq<byte>, s: seq<byte>)
    requires s != []
    ensures s[0] != PERCENT ==>
              done + Written(s) == done + [s[0]] + Written(s[1..]) && (WellFormed(s) <==> WellFormed(s[1..]))
    ensures s[0] == PERCENT && |s| >= 3 && IsHex(s[1]) && IsHex(s[2]) ==>
              && done + Written(s) == done + [HexValue(s[1]) * 16 + HexValue(s[2])] + Written(s[3..])
              && (WellFormed(s) <==> WellFormed(s[3..]))
    ensures s[0] == PERCENT && !(|s| >= 3 && IsHex(s[1]) && IsHex(s[2])) ==>
              && !WellFormed(s)
              && Written(s) == if |s| >= 2 && IsHex(s[1]) then [HexValue(s[1]) * 16] else []
  {
    hide HexValue, HexDigit;
    if |s| >= 3 {
      HexDigitIff(s[1]);
      HexDigitIff(s[2]);
    }
    if s[0] != PERCENT {
      Regroup(done, s[0], Written(s[1..]));
    } else if |s| >= 3 && IsHex(s[1]) && IsHex(s[2]) {
      Regroup(done, HexValue(s[1]) * 16 + HexValue(s[2]), Written(s[3..]));
    }
  }

  lemma Regroup(done: seq<byte>, c: byte, rest: seq<byte>)
    ensures done + ([c] + rest) == done + [c] + rest
  {
  }

  lemma NoHexInNul()
    ensures !IsHex(0)
  {
  }

  lemma NothingLeft(s: seq<byte>)
    requires s == []
    ensures Written(s) == [] && WellFormed(s)
  {
  }

  /** The replacement of a triplet: both digits are checked, but the first is stored before the second
      is looked at. */
  method Triplet(str: array<byte>, dst: nat, src: nat, length: nat) returns (ok: bool)
    requires dst <= src < length < str.Length && str[length] == 0
    modifies str
    ensures ok <==> src + 2 < length && IsHex(old(str[src + 1])) && IsHex(old(str[src + 2]))
    ensures forall k :: 0 <= k < str.Length && k != dst ==> str[k] == old(str[k])
    ensures str[dst] ==
            if ok then HexValue(old(str[src + 1])) * 16 + HexValue(old(str[src + 2]))
            else if src + 2 <= length && IsHex(old(str[src + 1])) then HexValue(old(str[src + 1])) * 16
            else old(str[dst])
  {
    NoHexInNul();
    if src + 2 > length {
      return false;
    }
    var hi := HexValue(str[src + 1]);
    if hi == -1 {
      return false;
    }
    str[dst] := hi * 16;
    var lo := HexValue(str[src + 2]);
    if lo == -1 {
      return false;
    }
    str[dst] := str[dst] + lo;
    return true;
  }

  /** One turn of the loop on the rest of the text: a character or a triplet, or a bad triplet. */
  method Turn(str: array<byte>, dst: nat, src: nat, length: nat, ghost rest: seq<byte>)
    returns (ok: bool, next: nat)
    requires dst <= src < length < str.Length && str[length] == 0 && rest == str[src..length]
    modifies str
    ensures ok ==> src < next <= length && WellFormed(rest) == WellFormed(rest[next - src..])
    ensures ok ==> str[..dst + 1] + Written(rest[next - src..]) == old(str[..dst]) + Written(rest)
    ensures !ok ==> !WellFormed(rest) && str[..dst + |Written(rest)|] == old(str[..dst]) + Written(rest)
    ensures forall k :: (if ok then dst + 1 else dst + |Written(rest)|) <= k < str.Length ==> str[k] == old(str[k])
  {
    hide WellFormed, Written, HexValue;
    ghost var done := str[..dst];
    WrittenCases(done, rest);
    if str[src] != PERCENT {
      str[dst] := str[src];
      assert str[..dst + 1] == done + [rest[0]];
      return true, src + 1;
    }
    ok := Triplet(str, dst, src, length);
    next := src + 3;
    if ok {
      assert str[..dst + 1] == done + [str[dst]];
    } else {
      assert str[..dst + |Written(rest)|] == done + Written(rest);
    }
  }

  /** Well-formed text is an escaping of what is written for it, and of nothing else. */
  lemma OnlyDecoding(t: seq<byte>)
    ensures WellFormed(t) ==> Escapes(Written(t), t)
    ensures forall x :: Escapes(x, t) ==> WellFormed(t) && x == Written(t)
  {
    hide Decode, Escapes, WellFormed, Written;
    DecodesIffWellFormed(t);
    if WellFormed(t) {
      WrittenIsDecoding(t);
      DecodeInvertsEscaping(Written(t), t);
    }
    forall x | Escapes(x, t)
      ensures WellFormed(t) && x == Written(t)
    {
      DecodeInvertsEscaping(x, t);
    }
  }

  /** `unescape`: 0 exactly on well-formed text, which is then replaced by its decoding and a NUL; on
      other text what was decoded up to the bad triplet stays. Writing never gets ahead of reading. */
  method Unescape(str: array<byte>, ghost n: nat) returns (rc: int)
    requires IsCString(str[..], n)
    modifies str
    ensures rc == if WellFormed(old(str[..n])) then 0 else -1
    ensures rc == 0 ==> Escapes(Written(old(str[..n])), old(str[..n]))
    ensures forall x :: Escapes(x, old(str[..n])) ==> rc == 0 && x == Written(old(str[..n]))
    ensures var w := Written(old(str[..n]));
            && str[..|w|] == w && (rc == 0 ==> str[|w|] == 0)
            && (forall k :: |w| < k < str.Length ==> str[k] == old(str[k]))
            && (rc == -1 ==> str[|w|] == old(str[|w|]))
  {
    ghost var text := str[..n];
    OnlyDecoding(text);
    hide Decode, Escapes, WellFormed, Written, HexValue;
    var length := StringLength(str, n);
    var dst, src := 0, 0;
    assert text[0..] == text && [] + Written(text) == Written(text);
    while src < length
      invariant 0 <= dst <= src <= length
      invariant forall k :: dst <= k < str.Length ==> str[k] == old(str[k])
      invariant Written(text) == str[..dst] + Written(text[src..])
      invariant WellFormed(text) <==> WellFormed(text[src..])
    {
      ghost var rest := text[src..];
      assert str[src..length] == rest;
      var ok, next := Turn(str, dst, src, length, rest);
      if !ok {
        return -1;
      }
      assert rest[next - src..] == text[next..];
      dst, src := dst + 1, next;
    }
    NothingLeft(text[src..]);
    str[dst] := 0;
    return 0;
  }
}
