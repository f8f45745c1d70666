/** Sequences of sequences, and sets drawn from a sequence. */
module Sequences {

  function Flatten<T>(parts: seq<seq<T>>): (r: seq<T>) {
    if parts == [] then [] else Flatten(parts[..|parts| - 1]) + parts[|parts| - 1]
  }

  lemma {:induction false} SetOfSeq<T>(s: seq<T>, r: set<T>)
    requires forall x :: x in r ==> x in s
    ensures |r| <= |s|
  {
    if s == [] {
      assert r == {};
    } else {
      var n := |s| - 1;
      var r' := r - {s[n]};
      forall x | x in r'
        ensures x in s[..n]
      {
      }
      SetOfSeq(s[..n], r');
      assert r <= r' + {s[n]};
    }
  }
}
