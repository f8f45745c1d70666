/** The names under which output_file stores pictures, and their order. */
module PictureNames {
  import opened Words
  import opened Division
  import opened Decimals

  type Name = seq<byte>

  /** `alphasort` in the C locale. */
  predicate Less(a: Name, b: Name) {
    b != [] && (a == [] || a[0] < b[0] || (a[0] == b[0] && Less(a[1..], b[1..])))
  }

  lemma {:induction false} LessIrreflexive(a: Name)
    ensures !Less(a, a)
  {
    if a != [] {
      LessIrreflexive(a[1..]);
    }
  }

  lemma {:induction false} LessTransitive(a: Name, b: Name, c: Name)
    requires Less(a, b) && Less(b, c)
    ensures Less(a, c)
  {
    if a != [] && a[0] == b[0] == c[0] {
      LessTransitive(a[1..], b[1..], c[1..]);
    }
  }

  lemma LessAsymmetric(a: Name, b: Name)
    requires Less(a, b)
    ensures !Less(b, a)
  {
    LessIrreflexive(a);
    if Less(b, a) {
      LessTransitive(a, b, a);
    }
  }

  lemma {:induction false} LessFront(a: Name, b: Name, x: Name, y: Name)
    requires |a| == |b| && Less(a, b)
    ensures Less(a + x, b + y)
  {
    if a[0] == b[0] {
      LessFront(a[1..], b[1..], x, y);
      assert (a + x)[1..] == a[1..] + x && (b + y)[1..] == b[1..] + y;
    }
  }

  lemma {:induction false} LessBehind(a: Name, x: Name, y: Name)
    ensures Less(a + x, a + y) <==> Less(x, y)
  {
    if a == [] {
      assert a + x == x && a + y == y;
    } else {
      LessBehind(a[1..], x, y);
      assert (a + x)[1..] == a[1..] + x && (a + y)[1..] == a[1..] + y;
    }
  }

  // ---------------------------------------------------------------- numbers of fixed width

  /** The last `w` decimal digits of `n`. */
  function Fixed(n: nat, w: nat): (s: Name)
    ensures |s| == w
  {
    if w == 0 then [] else Fixed(n / 10, w - 1) + [48 + n % 10]
  }

  /** Zero-padded numbers sort by value. */
  lemma {:induction false} FixedOrdered(n: nat, m: nat, w: nat)
    requires n < m < Pow10(w)
    ensures Less(Fixed(n, w), Fixed(m, w))
  {
    if n / 10 < m / 10 {
      FixedOrdered(n / 10, m / 10, w - 1);
      LessFront(Fixed(n / 10, w - 1), Fixed(m / 10, w - 1), [48 + n % 10], [48 + m % 10]);
    } else {
      assert n / 10 == m / 10;
      LessBehind(Fixed(n / 10, w - 1), [48 + n % 10], [48 + m % 10]);
    }
  }

  /** `%09llu`: nine digits, or more when nine are not enough. */
  function Counter(n: nat): (s: Name) {
    if n < Pow10(9) then Fixed(n, 9) else Digits(n)
  }

  // ---------------------------------------------------------------- time stamps

  datatype Time = Time(year: nat, month: nat, day: nat, hour: nat, minute: nat, second: nat) {
    predicate Valid() {
      year < 10000 && month < 100 && day < 100 && hour < 100 && minute < 100 && second < 100
    }

    function Fields(): (r: seq<nat>)
      ensures |r| == 6
    {
      [year, month, day, hour, minute, second]
    }
  }

  /** The first differing field decides. */
  predicate Before(a: seq<nat>, b: seq<nat>)
    requires |a| == |b|
  {
    a != [] && (a[0] < b[0] || (a[0] == b[0] && Before(a[1..], b[1..])))
  }

  predicate NotAfter(t: Time, u: Time) {
    t == u || Before(t.Fields(), u.Fields())
  }

  function Widths(): (w: seq<nat>)
    ensures |w| == 6
  {
    [4, 2, 2, 2, 2, 2]
  }

  predicate Fit(a: seq<nat>, w: seq<nat>)
    requires |a| == |w|
  {
    forall i :: 0 <= i < |a| ==> a[i] < Pow10(w[i])
  }

  /** The fields as fixed-width numbers, each with an underscore behind it. */
  function StampText(a: seq<nat>, w: seq<nat>): (s: Name)
    requires |a| == |w|
  {
    if a == [] then [] else Fixed(a[0], w[0]) + [95] + StampText(a[1..], w[1..])
  }

  lemma {:induction false} StampLength(a: seq<nat>, b: seq<nat>, w: seq<nat>)
    requires |a| == |b| == |w|
    ensures |StampText(a, w)| == |StampText(b, w)|
  {
    if a != [] {
      StampLength(a[1..], b[1..], w[1..]);
    }
  }

  lemma {:induction false} StampOrdered(a: seq<nat>, b: seq<nat>, w: seq<nat>)
    requires |a| == |b| == |w| && Fit(a, w) && Fit(b, w) && Before(a, b)
    ensures Less(StampText(a, w), StampText(b, w))
  {
    var x, y := StampText(a[1..], w[1..]), StampText(b[1..], w[1..]);
    if a[0] < b[0] {
      FixedOrdered(a[0], b[0], w[0]);
      LessFront(Fixed(a[0], w[0]), Fixed(b[0], w[0]), [95] + x, [95] + y);
      assert Fixed(a[0], w[0]) + [95] + x == Fixed(a[0], w[0]) + ([95] + x);
      assert Fixed(b[0], w[0]) + [95] + y == Fixed(b[0], w[0]) + ([95] + y);
    } else {
      forall i | 0 <= i < |a| - 1
        ensures a[1..][i] < Pow10(w[1..][i]) && b[1..][i] < Pow10(w[1..][i])
      {
        assert a[i + 1] < Pow10(w[i + 1]) && b[i + 1] < Pow10(w[i + 1]);
      }
      StampOrdered(a[1..], b[1..], w[1..]);
      LessBehind(Fixed(a[0], w[0]) + [95], x, y);
    }
  }

  /** "picture_" and ".jpg". */
  const WORD: Name := [112, 105, 99, 116, 117, 114, 101, 95]
  const SUFFIX: Name := [46, 106, 112, 103]

  /** The name of picture number `counter`, taken at `t`. */
  function PictureName(t: Time, counter: nat): (s: Name) {
    StampText(t.Fields(), Widths()) + (WORD + Counter(counter) + SUFFIX)
  }

  lemma ValidFits(t: Time)
    requires t.Valid()
    ensures Fit(t.Fields(), Widths())
  {
    assert Pow10(1) == 10;
    assert Pow10(2) == 100;
    assert Pow10(3) == 1000;
    assert Pow10(4) == 10000;
  }

  // ---------------------------------------------------------------- counters of any length

  lemma {:induction false} DigitsAreFixed(n: nat)
    ensures Digits(n) == Fixed(n, |Digits(n)|) && n < Pow10(|Digits(n)|)
    ensures n >= 10 ==> Pow10(|Digits(n)| - 1) <= n
  {
    if n >= 10 {
      DigitsAreFixed(n / 10);
      if n / 10 < 10 {
        assert |Digits(n / 10)| == 1 && Pow10(1) == 10;
      }
    } else {
      assert Pow10(1) == 10 && Fixed(n, 1) == Fixed(n / 10, 0) + [48 + n % 10];
    }
  }

  lemma {:induction false} Pow10Mono(a: nat, b: nat)
    requires a <= b
    ensures Pow10(a) <= Pow10(b)
  {
    if a < b {
      Pow10Mono(a, b - 1);
    }
  }

  /** A counter is printed with at least nine places and as many as its value needs. */
  lemma CounterIsFixed(n: nat)
    ensures Counter(n) == Fixed(n, |Counter(n)|) && n < Pow10(|Counter(n)|) && |Counter(n)| >= 9
    ensures |Counter(n)| > 9 ==> Pow10(|Counter(n)| - 1) <= n
  {
    hide Digits, Fixed, Pow10;
    DigitsAreFixed(n);
    TenPower();
    if n >= Pow10(9) && |Digits(n)| < 9 {
      Pow10Mono(|Digits(n)|, 9);
    }
  }

  lemma LongerCounter(c: nat, d: nat)
    requires c < d
    ensures |Counter(c)| <= |Counter(d)|
  {
    hide Counter, Pow10;
    CounterIsFixed(c);
    CounterIsFixed(d);
    if |Counter(d)| < |Counter(c)| {
      Pow10Mono(|Counter(d)|, |Counter(c)| - 1);
    }
  }

  lemma {:induction false} FixedFront(n: nat, w: nat, m: nat)
    requires m <= w
    ensures Fixed(n, w)[..m] == Fixed(n / Pow10(w - m), m)
    decreases w
  {
    if m == w {
      assert Fixed(n, w)[..m] == Fixed(n, w);
    } else {
      FixedFront(n / 10, w - 1, m);
      assert Fixed(n, w)[..m] == Fixed(n / 10, w - 1)[..m];
      DivDiv(n, Pow10(w - 1 - m));
    }
  }

  lemma FixedDigit(n: nat, w: nat, k: nat)
    requires k < w
    ensures Fixed(n, w)[k] >= 48
  {
  }

  lemma {:induction false} Pow10Sum(a: nat, b: nat)
    ensures Pow10(a + b) == Pow10(a) * Pow10(b)
  {
    if a > 0 {
      Pow10Sum(a - 1, b);
      var x, y := Pow10(a - 1), Pow10(b);
      assert 10 * (x * y) == 10 * x * y;
    }
  }

  lemma QuotientAtLeast(c: nat, n: nat, x: nat)
    requires x > 0
    ensures c <= n / x <==> c * x <= n
  {
    var q := n / x;
    assert n == q * x + n % x;
    if c <= q {
      NotNegative(q - c, x);
      assert (q - c) * x == q * x - c * x;
    } else {
      AtLeastOnce(c - q, x);
      assert (c - q) * x == c * x - q * x;
    }
  }

  /** The counters `c < d` sort in this order: the shorter one, filled up with zeros to the length of
      the longer one, is not above it. */
  predicate CountersSort(c: nat, d: nat) {
    |Counter(c)| <= |Counter(d)| && c * Pow10(|Counter(d)| - |Counter(c)|) <= d
  }

  /** Zero-padded numbers of lengths `m < n`, each with the suffix behind. */
  lemma ShorterSorts(c: nat, m: nat, d: nat, n: nat)
    requires c < Pow10(m) && d < Pow10(n) && m < n
    ensures Less(Fixed(c, m) + SUFFIX, Fixed(d, n) + SUFFIX) <==> c * Pow10(n - m) <= d
  {
    hide Fixed, Pow10;
    var x, whole := Pow10(n - m), Fixed(d, n);
    var q := d / x;
    Pow10Sum(m, n - m);
    assert m + (n - m) == n;
    QuotientAtLeast(Pow10(m), d, x);
    QuotientAtLeast(c, d, x);
    FixedFront(d, n, m);
    var front, rest := Fixed(q, m), whole[m..] + SUFFIX;
    assert whole + SUFFIX == front + rest;
    if c < q {
      FixedOrdered(c, q, m);
      LessFront(Fixed(c, m), front, SUFFIX, rest);
    } else if c == q {
      FixedDigit(d, n, m);
      assert rest[0] == whole[m];
      LessBehind(front, SUFFIX, rest);
    } else {
      FixedOrdered(q, c, m);
      LessFront(front, Fixed(c, m), rest, SUFFIX);
      LessAsymmetric(front + rest, Fixed(c, m) + SUFFIX);
    }
  }

  lemma CountersOrdered(c: nat, d: nat)
    requires c < d
    ensures Less(WORD + Counter(c) + SUFFIX, WORD + Counter(d) + SUFFIX) <==> CountersSort(c, d)
  {
    hide Fixed, Pow10, Counter, Less;
    CounterIsFixed(c);
    CounterIsFixed(d);
    LongerCounter(c, d);
    var m, n := |Counter(c)|, |Counter(d)|;
    if m < n {
      ShorterSorts(c, m, d, n);
    } else {
      FixedOrdered(c, d, n);
      LessFront(Counter(c), Counter(d), SUFFIX, SUFFIX);
      PowerOfNone(n - m);
    }
    LessBehind(WORD, Counter(c) + SUFFIX, Counter(d) + SUFFIX);
    assert WORD + Counter(c) + SUFFIX == WORD + (Counter(c) + SUFFIX);
    assert WORD + Counter(d) + SUFFIX == WORD + (Counter(d) + SUFFIX);
  }

  lemma PowerOfNone(k: nat)
    requires k == 0
    ensures Pow10(k) == 1
  {
  }

  // ---------------------------------------------------------------- whole names

  lemma {:induction false} BeforeTotal(a: seq<nat>, b: seq<nat>)
    requires |a| == |b| && a != b
    ensures Before(a, b) || Before(b, a)
  {
    if a[0] == b[0] {
      assert a == [a[0]] + a[1..] && b == [b[0]] + b[1..];
      BeforeTotal(a[1..], b[1..]);
    }
  }

  lemma StampsDecide(t: Time, u: Time, x: Name, y: Name)
    requires t.Valid() && u.Valid() && Before(t.Fields(), u.Fields())
    ensures Less(StampText(t.Fields(), Widths()) + x, StampText(u.Fields(), Widths()) + y)
  {
    hide StampText, Widths, Less, Pow10;
    ValidFits(t);
    ValidFits(u);
    StampOrdered(t.Fields(), u.Fields(), Widths());
    StampLength(t.Fields(), u.Fields(), Widths());
    LessFront(StampText(t.Fields(), Widths()), StampText(u.Fields(), Widths()), x, y);
  }

  /** Picture `d` is stored after picture `c`, and its name sorts behind. */
  predicate SortsBehind(t: Time, c: nat, u: Time, d: nat) {
    Before(t.Fields(), u.Fields()) || (t == u && CountersSort(c, d))
  }

  /** The first differing field decides which of two times is the earlier one. */
  lemma BeforeIsEarlier(t: Time, u: Time)
    ensures Before(t.Fields(), u.Fields()) <==>
            || t.year < u.year
            || (t.year == u.year && t.month < u.month)
            || (t.year == u.year && t.month == u.month && t.day < u.day)
            || (t.year == u.year && t.month == u.month && t.day == u.day && t.hour < u.hour)
            || (t.year == u.year && t.month == u.month && t.day == u.day && t.hour == u.hour && t.minute < u.minute)
            || (t.year == u.year && t.month == u.month && t.day == u.day && t.hour == u.hour && t.minute == u.minute
                && t.second < u.second)
  {
    var a, b := t.Fields(), u.Fields();
    assert Before(a[5..], b[5..]) <==> a[5] < b[5];
    assert Before(a[4..], b[4..]) <==> a[4] < b[4] || (a[4] == b[4] && Before(a[5..], b[5..])) by {
      assert a[4..][1..] == a[5..] && b[4..][1..] == b[5..];
    }
    assert Before(a[3..], b[3..]) <==> a[3] < b[3] || (a[3] == b[3] && Before(a[4..], b[4..])) by {
      assert a[3..][1..] == a[4..] && b[3..][1..] == b[4..];
    }
    assert Before(a[2..], b[2..]) <==> a[2] < b[2] || (a[2] == b[2] && Before(a[3..], b[3..])) by {
      assert a[2..][1..] == a[3..] && b[2..][1..] == b[3..];
    }
    assert Before(a[1..], b[1..]) <==> a[1] < b[1] || (a[1] == b[1] && Before(a[2..], b[2..])) by {
      assert a[1..][1..] == a[2..] && b[1..][1..] == b[2..];
    }
  }

  /** The time as one number, two digits for each field behind the year. */
  function Moment(t: Time): (n: nat) {
    ((((t.year * 100 + t.month) * 100 + t.day) * 100 + t.hour) * 100 + t.minute) * 100 + t.second
  }

  lemma EarlierIsLess(t: Time, u: Time)
    requires t.Valid() && u.Valid()
    ensures Before(t.Fields(), u.Fields()) <==> Moment(t) < Moment(u)
  {
    BeforeIsEarlier(t, u);
    hide Before;
  }

  /** Two pictures sort in the order they are stored if and only if the later one has a later time, or
      the same time and a counter that sorts behind: the shorter counter, filled up with zeros to the
      length of the longer one, is not above it. */
  lemma NamesSortIff(t: Time, c: nat, u: Time, d: nat)
    requires t.Valid() && u.Valid() && c < d
    ensures Less(PictureName(t, c), PictureName(u, d)) <==> SortsBehind(t, c, u, d)
    ensures |Counter(c)| <= |Counter(d)|
    ensures SortsBehind(t, c, u, d) <==>
            || ((((t.year * 100 + t.month) * 100 + t.day) * 100 + t.hour) * 100 + t.minute) * 100 + t.second <
               ((((u.year * 100 + u.month) * 100 + u.day) * 100 + u.hour) * 100 + u.minute) * 100 + u.second
            || (t == u && c * Pow10(|Counter(d)| - |Counter(c)|) <= d)
  {
    LongerCounter(c, d);
    EarlierIsLess(t, u);
    hide StampText, Counter, Widths, Less;
    var x, y := WORD + Counter(c) + SUFFIX, WORD + Counter(d) + SUFFIX;
    if t == u {
      CountersOrdered(c, d);
      LessBehind(StampText(t.Fields(), Widths()), x, y);
      BeforeIrreflexive(t.Fields());
    } else {
      BeforeTotal(t.Fields(), u.Fields());
      if Before(t.Fields(), u.Fields()) {
        StampsDecide(t, u, x, y);
      } else {
        StampsDecide(u, t, y, x);
        LessAsymmetric(PictureName(u, d), PictureName(t, c));
      }
    }
  }

  lemma {:induction false} BeforeIrreflexive(a: seq<nat>)
    ensures !Before(a, a)
  {
    if a != [] {
      BeforeIrreflexive(a[1..]);
    }
  }

  /** In particular while the clock does not go back and the counter has nine digits. */
  lemma NamesOrdered(t: Time, c: nat, u: Time, d: nat)
    requires NotAfter(t, u) && c < d < Pow10(9)
    ensures SortsBehind(t, c, u, d)
  {
    hide Pow10;
    PowerOfNone(0);
  }

  lemma {:induction false} FirstDigit(n: nat, w: nat)
    requires w > 0
    ensures Fixed(n, w)[0] == 48 + n / Pow10(w - 1) % 10
  {
    if w > 1 {
      FirstDigit(n / 10, w - 1);
      assert n / 10 / Pow10(w - 2) == n / Pow10(w - 1) by { DivDiv(n, Pow10(w - 2)); }
    }
  }

  lemma DivDiv(n: nat, m: nat)
    requires m > 0
    ensures n / 10 / m == n / (10 * m)
  {
    var q, r := n / 10 / m, n / 10 % m;
    assert n / 10 == q * m + r;
    var low := 10 * r + n % 10;
    assert n == q * (10 * m) + low;
    assert 0 <= low < 10 * m;
    DivMod(n, q, 10 * m, low);
  }

  lemma TenPower()
    ensures Pow10(8) == 100000000 && Pow10(9) == 1000000000
  {
    assert Pow10(4) == 10000;
    assert Pow10(5) == 100000;
    assert Pow10(6) == 1000000;
    assert Pow10(7) == 10000000;
  }

  lemma {:induction false} DigitsOfPower(w: nat)
    ensures Digits(Pow10(w))[0] == 49
  {
    if w > 0 {
      DigitsOfPower(w - 1);
      assert Pow10(w) / 10 == Pow10(w - 1) && Pow10(w) >= 10;
    }
  }

  /** The tenth digit breaks the order: picture 10^9 sorts in front of picture 10^9 - 1. */
  lemma TenDigitsSortFirst(t: Time)
    ensures Less(PictureName(t, Pow10(9)), PictureName(t, Pow10(9) - 1))
  {
    hide StampText, Widths, Digits, Fixed;
    var c, d := Counter(Pow10(9)), Counter(Pow10(9) - 1);
    TenPower();
    DigitsOfPower(9);
    FirstDigit(Pow10(9) - 1, 9);
    assert c[0] == 49 && d[0] == 57;
    assert Less(c + SUFFIX, d + SUFFIX);
    LessBehind(WORD, c + SUFFIX, d + SUFFIX);
    assert WORD + c + SUFFIX == WORD + (c + SUFFIX) && WORD + d + SUFFIX == WORD + (d + SUFFIX);
    LessBehind(StampText(t.Fields(), Widths()), WORD + c + SUFFIX, WORD + d + SUFFIX);
  }

  // ---------------------------------------------------------------- what a name says

  lemma {:induction false} ValueOfFixed(n: nat, w: nat)
    requires n < Pow10(w)
    ensures AllDigits(Fixed(n, w)) && Value(Fixed(n, w)) == n
  {
    if w > 0 {
      ValueOfFixed(n / 10, w - 1);
      assert Fixed(n, w)[..w - 1] == Fixed(n / 10, w - 1);
    }
  }

  lemma StampParts(t: Time)
    ensures StampText(t.Fields(), Widths()) ==
            Fixed(t.year, 4) + [95] + (Fixed(t.month, 2) + [95] + (Fixed(t.day, 2) + [95] +
            (Fixed(t.hour, 2) + [95] + (Fixed(t.minute, 2) + [95] + (Fixed(t.second, 2) + [95])))))
  {
    hide Fixed;
    var a, w := t.Fields(), Widths();
    assert StampText(a[6..], w[6..]) == [];
    assert StampText(a[5..], w[5..]) == Fixed(t.second, 2) + [95] by {
      assert a[5..][1..] == a[6..] && w[5..][1..] == w[6..];
    }
    assert StampText(a[4..], w[4..]) == Fixed(t.minute, 2) + [95] + StampText(a[5..], w[5..]) by {
      assert a[4..][1..] == a[5..] && w[4..][1..] == w[5..];
    }
    assert StampText(a[3..], w[3..]) == Fixed(t.hour, 2) + [95] + StampText(a[4..], w[4..]) by {
      assert a[3..][1..] == a[4..] && w[3..][1..] == w[4..];
    }
    assert StampText(a[2..], w[2..]) == Fixed(t.day, 2) + [95] + StampText(a[3..], w[3..]) by {
      assert a[2..][1..] == a[3..] && w[2..][1..] == w[3..];
    }
    assert StampText(a[1..], w[1..]) == Fixed(t.month, 2) + [95] + StampText(a[2..], w[2..]) by {
      assert a[1..][1..] == a[2..] && w[1..][1..] == w[2..];
    }
  }

  /** The texts at the places of a name where `strftime` and `snprintf` put the fields. */
  lemma NameTexts(t: Time, c: nat, s: Name)
    requires s == PictureName(t, c)
    ensures |s| == 32 + |Counter(c)|
    ensures s[..4] == Fixed(t.year, 4) && s[5..7] == Fixed(t.month, 2) && s[8..10] == Fixed(t.day, 2)
    ensures s[11..13] == Fixed(t.hour, 2) && s[14..16] == Fixed(t.minute, 2) && s[17..19] == Fixed(t.second, 2)
    ensures s[4] == s[7] == s[10] == s[13] == s[16] == s[19] == 95
    ensures s[20..28] == WORD && s[28..|s| - 4] == Counter(c) && s[|s| - 4..] == SUFFIX
  {
    StampParts(t);
    hide Fixed, Counter, StampText;
  }

  /** A name says when its picture was taken and which one it is. */
  lemma NameReadBack(t: Time, c: nat)
    requires t.Valid()
    ensures var s := PictureName(t, c);
            && |s| >= 41
            && Reads(s[..4], t.year) && Reads(s[5..7], t.month) && Reads(s[8..10], t.day)
            && Reads(s[11..13], t.hour) && Reads(s[14..16], t.minute) && Reads(s[17..19], t.second)
            && s[4] == s[7] == s[10] == s[13] == s[16] == s[19] == 95
            && s[20..28] == [112, 105, 99, 116, 117, 114, 101, 95]
            && Reads(s[28..|s| - 4], c) && s[|s| - 4..] == [46, 106, 112, 103]
  {
    NameTexts(t, c, PictureName(t, c));
    CounterIsFixed(c);
    FieldPowers();
    hide Fixed, Counter, StampText, Pow10, Value, PictureName;
    ValueOfFixed(t.year, 4);
    ValueOfFixed(t.month, 2);
    ValueOfFixed(t.day, 2);
    ValueOfFixed(t.hour, 2);
    ValueOfFixed(t.minute, 2);
    ValueOfFixed(t.second, 2);
    ValueOfFixed(c, |Counter(c)|);
  }

  predicate Reads(s: Name, n: nat) {
    AllDigits(s) && Value(s) == n
  }

  lemma FieldPowers()
    ensures Pow10(2) == 100 && Pow10(4) == 10000
  {
    assert Pow10(3) == 1000;
  }
}
