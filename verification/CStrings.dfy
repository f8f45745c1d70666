module CStrings {
  import opened Words

  /** The bytes start with a string of length `n` and its terminating NUL. */
  predicate IsCString(s: seq<byte>, n: nat) {
    n < |s| && s[n] == 0 && forall k :: 0 <= k < n ==> s[k] != 0
  }
}
