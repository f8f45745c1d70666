/** Bit streams, the numbers read from them, and the bit strings found in them. */
module BitStreams {
  import opened Words

  type bit = x: int | 0 <= x < 2

  /** An endless stream of bits: the decoder never checks for the end of its input. */
  type Stream = nat -> bit

  /** The number made of the `n` bits from `pos` on, most significant first. */
  function Val(b: Stream, pos: nat, n: nat): (r: nat)
    ensures r < Pow2(n)
  {
    if n == 0 then 0 else 2 * Val(b, pos, n - 1) + b(pos + n - 1)
  }

  lemma {:induction false} ValSplit(b: Stream, pos: nat, n: nat, m: nat)
    ensures Val(b, pos, n + m) == Up(Val(b, pos, n), m) + Val(b, pos + n, m)
  {
    if m > 0 {
      ValSplit(b, pos, n, m - 1);
      assert n + m - 1 == n + (m - 1) && pos + (n + m) - 1 == pos + n + m - 1;
    }
  }

  /** The `n` low bits of `v`, most significant first. */
  function BitsOf(v: nat, n: nat): (s: seq<bit>)
    ensures |s| == n
  {
    if n == 0 then [] else BitsOf(v / 2, n - 1) + [v % 2]
  }

  ghost predicate At(b: Stream, pos: nat, s: seq<bit>) {
    forall i :: 0 <= i < |s| ==> b(pos + i) == s[i]
  }

  lemma AtAppend(b: Stream, pos: nat, s: seq<bit>, t: seq<bit>)
    ensures At(b, pos, s + t) <==> At(b, pos, s) && At(b, pos + |s|, t)
  {
    if At(b, pos, s + t) {
      forall i | 0 <= i < |s|
        ensures b(pos + i) == s[i]
      {
        assert (s + t)[i] == s[i];
      }
      forall i | 0 <= i < |t|
        ensures b(pos + |s| + i) == t[i]
      {
        assert (s + t)[|s| + i] == t[i];
        assert pos + (|s| + i) == pos + |s| + i;
      }
    }
    if At(b, pos, s) && At(b, pos + |s|, t) {
      forall i | 0 <= i < |s + t|
        ensures b(pos + i) == (s + t)[i]
      {
        if i >= |s| {
          assert pos + |s| + (i - |s|) == pos + i;
        }
      }
    }
  }

  lemma AtOne(b: Stream, pos: nat, x: bit)
    ensures At(b, pos, [x]) <==> b(pos) == x
  {
    assert pos + 0 == pos && [x][0] == x;
    if b(pos) == x {
      assert forall i :: 0 <= i < 1 ==> b(pos + i) == [x][i];
    }
  }

  /** A stream holds the bits of `v` exactly when the number read there is `v`. */
  lemma {:induction false} AtBitsOf(b: Stream, pos: nat, v: nat, n: nat)
    requires v < Pow2(n)
    ensures At(b, pos, BitsOf(v, n)) <==> Val(b, pos, n) == v
  {
    if n > 0 {
      AtBitsOf(b, pos, v / 2, n - 1);
      AtAppend(b, pos, BitsOf(v / 2, n - 1), [v % 2]);
      AtOne(b, pos + n - 1, v % 2);
    }
  }
}
