/** Machine words as natural numbers, with the shifts and bitwise operations the decoder uses.
    Shifts are defined by repeated doubling and halving, so that every law about them is a
    linear induction. */
module Words {

  type byte = x: int | 0 <= x < 256

  type word = x: int | 0 <= x < 0x1_0000_0000

  /** `a << k` on unbounded naturals. */
  function Up(a: nat, k: nat): (r: nat)
    ensures r >= a
  {
    if k == 0 then a else 2 * Up(a, k - 1)
  }

  /** `a >> k` on unbounded naturals. */
  function Down(a: nat, k: nat): (r: nat)
    ensures r <= a
  {
    if k == 0 then a else Down(a / 2, k - 1)
  }

  /** The low `k` bits of `a`. */
  function Low(a: nat, k: nat): (r: nat)
    ensures r < Pow2(k) && r <= a
  {
    if k == 0 then 0 else 2 * Low(a / 2, k - 1) + a % 2
  }

  function Pow2(n: nat): (r: nat) {
    Up(1, n)
  }

  function And(a: nat, b: nat): (r: nat)
    ensures r <= a && r <= b
  {
    if a == 0 || b == 0 then 0
    else 2 * And(a / 2, b / 2) + (if a % 2 == 1 && b % 2 == 1 then 1 else 0)
  }

  function Or(a: nat, b: nat): (r: nat)
    decreases a + b
  {
    if a == 0 && b == 0 then 0
    else 2 * Or(a / 2, b / 2) + (if a % 2 == 1 || b % 2 == 1 then 1 else 0)
  }

  /** `w << k` in a 32-bit word: what leaves at the top is lost. */
  function Shl32(w: nat, k: nat): (r: word) {
    Pow2Values();
    Low(Up(w, k), 32)
  }

  /** `w >> k` in a word read as a signed int: copies of the sign bit enter at the top. */
  function Asr32(w: word, k: nat): (r: word)
    decreases k
  {
    if k == 0 then w
    else Asr32(w / 2 + (if w >= 0x8000_0000 then 0x8000_0000 else 0), k - 1)
  }

  lemma Pow2Values()
    ensures Pow2(8) == 0x100 && Pow2(16) == 0x1_0000
    ensures Pow2(31) == 0x8000_0000 && Pow2(32) == 0x1_0000_0000
  {
    assert Pow2(4) == 16;
    UpUp(1, 4, 4);
    assert Up(16, 4) == 256;
    UpUp(1, 8, 8);
    assert Up(256, 4) == 4096;
    UpUp(256, 4, 4);
    assert Up(4096, 4) == 65536;
    UpUp(1, 16, 16);
    UpUp(65536, 8, 8);
    UpUp(65536, 4, 4);
    assert Up(65536, 4) == 0x10_0000;
    assert Up(0x10_0000, 4) == 0x100_0000;
    UpUp(0x100_0000, 4, 4);
    assert Up(0x100_0000, 4) == 0x1000_0000;
  }

  lemma {:induction false} UpUp(a: nat, j: nat, k: nat)
    ensures Up(Up(a, j), k) == Up(a, j + k)
  {
    if k > 0 {
      UpUp(a, j, k - 1);
      assert j + k - 1 == j + (k - 1);
    }
  }

  lemma {:induction false} UpAdd(a: nat, b: nat, k: nat)
    ensures Up(a + b, k) == Up(a, k) + Up(b, k)
  {
    if k > 0 {
      UpAdd(a, b, k - 1);
    }
  }

  lemma {:induction false} UpZero(k: nat)
    ensures Up(0, k) == 0
  {
    if k > 0 {
      UpZero(k - 1);
    }
  }

  lemma UpMono(a: nat, b: nat, k: nat)
    requires a <= b
    ensures Up(a, k) <= Up(b, k)
    ensures a < b ==> Up(a, k) + Pow2(k) <= Up(b, k)
  {
    UpAdd(a, b - a, k);
    if a < b {
      UpAdd(1, b - a - 1, k);
    }
  }

  lemma Pow2Mono(a: nat, b: nat)
    requires a <= b
    ensures Pow2(a) <= Pow2(b)
  {
    UpUp(1, a, b - a);
  }

  lemma {:induction false} DownDown(a: nat, j: nat, k: nat)
    ensures Down(Down(a, j), k) == Down(a, j + k)
    decreases j
  {
    if j > 0 {
      DownDown(a / 2, j - 1, k);
      assert j + k - 1 == j - 1 + k;
    }
  }

  /** A number is its high part shifted up plus its low part. */
  lemma {:induction false} SplitAt(a: nat, k: nat)
    ensures a == Up(Down(a, k), k) + Low(a, k)
  {
    if k > 0 {
      SplitAt(a / 2, k - 1);
    }
  }

  /** ... and that splitting is unique. */
  lemma {:induction false} SplitUnique(h: nat, l: nat, k: nat)
    requires l < Pow2(k)
    ensures Down(Up(h, k) + l, k) == h && Low(Up(h, k) + l, k) == l
  {
    if k > 0 {
      SplitUnique(h, l / 2, k - 1);
      assert (Up(h, k) + l) / 2 == Up(h, k - 1) + l / 2;
    }
  }

  lemma LowSmall(a: nat, k: nat)
    requires a < Pow2(k)
    ensures Low(a, k) == a && Down(a, k) == 0
  {
    UpZero(k);
    SplitUnique(0, a, k);
  }

  /** Only the low `n` bits matter to the low `n` bits of a shifted word. */
  lemma {:induction false} LowUp(a: nat, n: nat, k: nat)
    ensures Low(Up(a, k), n + k) == Up(Low(a, n), k)
    decreases k
  {
    if k > 0 {
      LowUp(a, n, k - 1);
      assert n + k - 1 == n + (k - 1);
      assert Up(a, k) / 2 == Up(a, k - 1);
    }
  }

  /** Masking with `2^s - 1` keeps the low `s` bits. */
  lemma {:induction false} AndLowMask(a: nat, s: nat)
    ensures And(a, Pow2(s) - 1) == Low(a, s)
    decreases s
  {
    if s > 0 {
      AndLowMask(a / 2, s - 1);
      assert Pow2(s) == 2 * Pow2(s - 1);
      assert (Pow2(s) - 1) / 2 == Pow2(s - 1) - 1 && (Pow2(s) - 1) % 2 == 1;
    }
  }

  /** Masking with a mask shifted up by `k` works on the bits above `k` alone. */
  lemma {:induction false} AndHighMask(a: nat, m: nat, k: nat)
    ensures And(a, Up(m, k)) == Up(And(Down(a, k), m), k)
    decreases k
  {
    if k > 0 {
      AndHighMask(a / 2, m, k - 1);
      assert Up(m, k) / 2 == Up(m, k - 1) && Up(m, k) % 2 == 0;
    }
  }

  /** Or-ing bits into positions that are zero is addition. */
  lemma {:induction false} OrDisjoint(h: nat, b: nat, k: nat)
    requires b < Pow2(k)
    ensures Or(Up(h, k), b) == Up(h, k) + b
    decreases k
  {
    if k == 0 {
      OrZero(h);
    } else {
      OrDisjoint(h, b / 2, k - 1);
      assert Up(h, k) / 2 == Up(h, k - 1) && Up(h, k) % 2 == 0;
    }
  }

  lemma {:induction false} OrZero(a: nat)
    ensures Or(a, 0) == a
  {
    if a > 0 {
      OrZero(a / 2);
    }
  }

  lemma {:induction false} AddedHighBit(x: nat, t: nat, j: nat, n: nat)
    requires n + j <= t
    ensures Low(Down(x + Pow2(t), j), n) == Low(Down(x, j), n)
    decreases j, n
  {
    if j > 0 {
      AddedHighBit(x / 2, t - 1, j - 1, n);
      assert (x + Pow2(t)) / 2 == x / 2 + Pow2(t - 1);
    } else if n > 0 {
      AddedHighBit(x / 2, t - 1, 0, n - 1);
      assert (x + Pow2(t)) / 2 == x / 2 + Pow2(t - 1);
    }
  }

  /** The sign copies of an arithmetic shift stay above the bits that a logical shift keeps. */
  lemma {:induction false} AsrLow(w: word, k: nat, n: nat)
    requires n + k <= 32
    ensures Low(Asr32(w, k), n) == Low(Down(w, k), n)
    decreases k
  {
    if k > 0 {
      Pow2Values();
      var half := w / 2 + (if w >= 0x8000_0000 then 0x8000_0000 else 0);
      AsrLow(half, k - 1, n);
      if w >= 0x8000_0000 {
        AddedHighBit(w / 2, 31, k - 1, n);
      }
    }
  }

  /** `(w >> (32 - s)) & mask[s]` is the number in the top `s` bits of the word. */
  lemma TopBits(w: word, s: nat)
    requires s <= 32
    ensures And(Asr32(w, 32 - s), Pow2(s) - 1) == Down(w, 32 - s)
  {
    hide Up, Down, Low, And, Asr32;
    AndLowMask(Asr32(w, 32 - s), s);
    AsrLow(w, 32 - s, s);
    Pow2Values();
    SplitAt(w, 32 - s);
    if Down(w, 32 - s) >= Pow2(s) {
      UpMono(Pow2(s), Down(w, 32 - s), 32 - s);
      UpUp(1, s, 32 - s);
    }
    LowSmall(Down(w, 32 - s), s);
  }

  lemma Up8(a: nat)
    ensures Up(a, 8) == 0x100 * a
  {
    assert Up(a, 1) == 2 * a;
    assert Up(a, 2) == 4 * a;
    assert Up(a, 3) == 8 * a;
    assert Up(a, 4) == 16 * a;
    assert Up(a, 5) == 32 * a;
    assert Up(a, 6) == 64 * a;
    assert Up(a, 7) == 128 * a;
  }

  lemma Up16(a: nat)
    ensures Up(a, 16) == 0x1_0000 * a
  {
    Up8(a);
    Up8(Up(a, 8));
    UpUp(a, 8, 8);
  }

  lemma Up24(a: nat)
    ensures Up(a, 24) == 0x100_0000 * a
  {
    Up16(a);
    Up8(Up(a, 16));
    UpUp(a, 16, 8);
  }

  lemma {:induction false} LowLow(a: nat, n: nat, m: nat)
    requires n <= m
    ensures Low(Low(a, m), n) == Low(a, n)
    decreases n
  {
    if n > 0 {
      LowLow(a / 2, n - 1, m - 1);
    }
  }

  lemma {:induction false} LowUpAdd(a: nat, t: nat, n: nat, k: nat)
    requires t < Pow2(k)
    ensures Low(Up(a, k) + t, n + k) == Up(Low(a, n), k) + t
    decreases k
  {
    if k > 0 {
      LowUpAdd(a, t / 2, n, k - 1);
      assert n + k - 1 == n + (k - 1);
      assert (Up(a, k) + t) / 2 == Up(a, k - 1) + t / 2;
    }
  }

  lemma {:induction false} LowDown(a: nat, j: nat, n: nat)
    ensures Low(Down(a, j), n) == Down(Low(a, j + n), j)
    decreases j
  {
    if j > 0 {
      LowDown(a / 2, j - 1, n);
      assert j + n - 1 == j - 1 + n;
    }
  }
}
