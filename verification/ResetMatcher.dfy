/** The reset-only matcher of misc.c against true substring search. */
module ResetMatcher {
  import opened Words
  import opened Extractor

  /** How much of `p` the matcher holds after reading `s` from its start; `|p|` once it has matched. */
  function Progress(p: seq<byte>, s: seq<byte>): (r: nat)
    requires |p| > 0
    ensures r <= |p|
  {
    if s == [] then 0
    else
      var before := Progress(p, s[..|s| - 1]);
      if before == |p| then |p| else Compare(p, before, s[|s| - 1])
  }

  predicate Hits(p: seq<byte>, s: seq<byte>)
    requires |p| > 0
  {
    Progress(p, s) == |p|
  }

  ghost predicate OccursAt(p: seq<byte>, s: seq<byte>, i: nat) {
    i + |p| <= |s| && s[i..i + |p|] == p
  }

  ghost predicate Contains(p: seq<byte>, s: seq<byte>) {
    exists i: nat :: OccursAt(p, s, i)
  }

  lemma ProgressSnoc(p: seq<byte>, s: seq<byte>, c: byte)
    requires |p| > 0 && !Hits(p, s)
    ensures Progress(p, s + [c]) == Compare(p, Progress(p, s), c)
  {
    assert (s + [c])[..|s|] == s;
  }

  lemma {:induction false} HitsStay(p: seq<byte>, s: seq<byte>, i: nat)
    requires |p| > 0 && i <= |s| && Hits(p, s[..i])
    ensures Hits(p, s)
    decreases |s|
  {
    if i == |s| {
      assert s[..i] == s;
    } else {
      var n := |s| - 1;
      assert s[..n][..i] == s[..i];
      HitsStay(p, s[..n], i);
    }
  }

  /** What the matcher holds is what was read last. */
  lemma {:induction false} ProgressSound(p: seq<byte>, s: seq<byte>)
    requires |p| > 0
    ensures !Hits(p, s) ==> Progress(p, s) <= |s| && s[|s| - Progress(p, s)..] == p[..Progress(p, s)]
    ensures Hits(p, s) ==> Contains(p, s)
  {
    if s != [] {
      var n := |s| - 1;
      ProgressSound(p, s[..n]);
      var before := Progress(p, s[..n]);
      if before == |p| {
        var i: nat :| OccursAt(p, s[..n], i);
        assert s[i..i + |p|] == s[..n][i..i + |p|];
        assert OccursAt(p, s, i);
      } else {
        var now := Compare(p, before, s[n]);
        if now > 0 {
          assert s[|s| - now..] == s[..n][n - before..] + [s[n]];
          assert p[..now] == p[..before] + [p[before]];
          if now == |p| {
            assert s[|s| - now..] == s[|s| - now..|s| - now + |p|];
            assert OccursAt(p, s, |s| - now);
          }
        }
      }
    }
  }

  /** A byte outside the pattern puts the matcher back to its start. */
  lemma BreaksMatch(p: seq<byte>, s: seq<byte>, c: byte)
    requires |p| > 0 && !Hits(p, s) && c !in p
    ensures Progress(p, s + [c]) == 0
  {
    ProgressSnoc(p, s, c);
  }

  /** From its start the matcher follows the pattern to the end. */
  lemma {:induction false} FollowsPattern(p: seq<byte>, s: seq<byte>, k: nat)
    requires |p| > 0 && Progress(p, s) == 0 && k <= |p|
    ensures Progress(p, s + p[..k]) == k
  {
    if k == 0 {
      assert s + p[..0] == s;
    } else {
      FollowsPattern(p, s, k - 1);
      assert s + p[..k] == (s + p[..k - 1]) + [p[k - 1]];
      ProgressSnoc(p, s + p[..k - 1], p[k - 1]);
    }
  }

  /** What the matcher holds it has followed from its start. */
  lemma {:induction false} HeldFromStart(p: seq<byte>, s: seq<byte>, k: nat)
    requires |p| > 0 && Progress(p, s) == k && (k == |p| ==> s != [] && !Hits(p, s[..|s| - 1]))
    ensures k <= |s| && Progress(p, s[..|s| - k]) == 0
  {
    if k == 0 {
      assert s[..|s|] == s;
    } else {
      var n := |s| - 1;
      HeldFromStart(p, s[..n], k - 1);
      assert s[..n][..n - (k - 1)] == s[..|s| - k];
    }
  }

  /** The first match is at an occurrence at which the matcher stands at its start. */
  lemma FirstMatchStart(p: seq<byte>, s: seq<byte>) returns (i: nat)
    requires |p| > 0 && Hits(p, s)
    ensures OccursAt(p, s, i) && Progress(p, s[..i]) == 0
  {
    hide Progress, OccursAt;
    var n := FirstHit(p, s);
    var t := s[..n];
    assert t[..n - 1] == s[..n - 1];
    HeldFromStart(p, t, |p|);
    FirstHitOccurs(p, s, n);
    i := n - |p|;
    assert t[..i] == s[..i];
  }

  lemma FollowsFromStart(p: seq<byte>, s: seq<byte>, i: nat)
    requires |p| > 0 && OccursAt(p, s, i) && Progress(p, s[..i]) == 0
    ensures Hits(p, s)
  {
    hide Progress;
    FollowsPattern(p, s[..i], |p|);
    assert s[..i] + p[..|p|] == s[..i + |p|];
    HitsStay(p, s, i + |p|);
  }

  /** The matcher finds exactly the occurrences at which it stands at its start. */
  lemma FoundIffFromStart(p: seq<byte>, s: seq<byte>)
    requires |p| > 0
    ensures Hits(p, s) <==> exists i: nat :: OccursAt(p, s, i) && Progress(p, s[..i]) == 0
  {
    hide Progress, Hits;
    if Hits(p, s) {
      var i := FirstMatchStart(p, s);
    } else if i: nat :| OccursAt(p, s, i) && Progress(p, s[..i]) == 0 {
      FollowsFromStart(p, s, i);
    }
  }

  lemma LastStep(p: seq<byte>, t: seq<byte>)
    requires |p| > 0 && t != [] && Hits(p, t) && !Hits(p, t[..|t| - 1])
    ensures Progress(p, t[..|t| - 1]) == |p| - 1 && t[|t| - 1] == p[|p| - 1]
  {
  }

  lemma FirstHitOccurs(p: seq<byte>, s: seq<byte>, n: nat)
    requires |p| > 0 && 0 < n <= |s| && Hits(p, s[..n]) && !Hits(p, s[..n - 1])
    ensures |p| <= n && OccursAt(p, s, n - |p|)
  {
    hide Progress;
    var m := n - 1;
    assert s[..n][..m] == s[..m];
    LastStep(p, s[..n]);
    ProgressSound(p, s[..m]);
    var before := |p| - 1;
    assert s[n - |p|..n] == s[..m][m - before..] + [s[m]];
    assert p == p[..before] + [p[before]];
  }

  /** Every occurrence of the pattern starts the text or follows a byte that is not in the pattern. */
  ghost predicate Separated(p: seq<byte>, s: seq<byte>) {
    forall i: nat :: OccursAt(p, s, i) && i > 0 ==> s[i - 1] !in p
  }

  /** On separated text the reset-only matcher is a substring search. */
  lemma MatcherIsSearch(p: seq<byte>, s: seq<byte>)
    requires |p| > 0 && Separated(p, s)
    ensures Hits(p, s) <==> Contains(p, s)
  {
    ProgressSound(p, s);
    FoundIffFromStart(p, s);
    if Contains(p, s) && !Hits(p, s) {
      var i: nat :| OccursAt(p, s, i);
      if i > 0 {
        assert s[..i] == s[..i - 1] + [s[i - 1]];
        if Hits(p, s[..i - 1]) {
          HitsStay(p, s, i - 1);
        }
        BreaksMatch(p, s[..i - 1], s[i - 1]);
      }
    }
  }

  // ---------------------------------------------------------------- the boundary, in terms of the text

  const DASH: byte := 45

  /** Two dashes and then none, as in the boundary. */
  predicate Dashed(p: seq<byte>) {
    |p| > 2 && p[0] == p[1] == DASH && forall i :: 2 <= i < |p| ==> p[i] != DASH
  }

  /** How many dashes the text ends with. */
  function DashRun(t: seq<byte>): (l: nat)
    ensures l <= |t| && (l < |t| ==> t[|t| - 1 - l] != DASH)
    ensures forall i :: |t| - l <= i < |t| ==> t[i] == DASH
  {
    if t == [] || t[|t| - 1] != DASH then 0 else 1 + DashRun(t[..|t| - 1])
  }

  /** Whether the matcher is at its start behind this text: the dashes that the text ends with come
      in threes, or in threes and one more if they cut off a live beginning of the pattern. */
  ghost predicate Ready(p: seq<byte>, t: seq<byte>)
    decreases |t|, 1
  {
    var l := DashRun(t);
    l % 3 == if Live(p, t[..|t| - l]) then 1 else 0
  }

  /** The text ends with a beginning of the pattern, longer than its dashes, that the matcher has
      followed. */
  ghost predicate Live(p: seq<byte>, f: seq<byte>)
    decreases |f|, 0
  {
    exists k: nat :: 3 <= k < |p| && k <= |f| && f[|f| - k..] == p[..k] && Ready(p, f[..|f| - k])
  }

  /** What the matcher holds when it held `held` and then `l` dashes came. */
  function HeldAfter(held: nat, l: nat): (r: nat) {
    if held == 0 then l % 3 else if l == 0 then held else (l - 1) % 3
  }

  lemma OneMoreDash(p: seq<byte>, held: nat, l: nat)
    requires Dashed(p) && (held == 0 || 3 <= held < |p|) && l > 0
    ensures HeldAfter(held, l - 1) < |p| && Compare(p, HeldAfter(held, l - 1), DASH) == HeldAfter(held, l)
  {
  }

  lemma {:induction false} AfterDashes(p: seq<byte>, t: seq<byte>, l: nat, held: nat)
    requires Dashed(p) && l <= |t| && (forall i :: |t| - l <= i < |t| ==> t[i] == DASH)
    requires held == Progress(p, t[..|t| - l]) && (held == 0 || 3 <= held < |p|)
    ensures Progress(p, t) == HeldAfter(held, l)
  {
    hide Progress, Compare;
    if l == 0 {
      assert t[..|t|] == t;
    } else {
      var n := |t| - 1;
      assert t[..n][..n - (l - 1)] == t[..|t| - l];
      AfterDashes(p, t[..n], l - 1, held);
      assert t == t[..n] + [DASH];
      OneMoreDash(p, held, l);
      ProgressSnoc(p, t[..n], DASH);
    }
  }

  /** Behind a byte that is no dash the matcher is at its start or beyond the dashes. */
  lemma HeldBeyondDashes(p: seq<byte>, f: seq<byte>)
    requires Dashed(p) && !Hits(p, f) && (f == [] || f[|f| - 1] != DASH)
    ensures Progress(p, f) == 0 || 3 <= Progress(p, f) < |p|
  {
    ProgressSound(p, f);
    var k := Progress(p, f);
    if k > 0 {
      assert f[|f| - k..][k - 1] == f[|f| - 1] == p[..k][k - 1];
    }
  }

  lemma NoHitBefore(p: seq<byte>, t: seq<byte>, i: nat)
    requires |p| > 0 && i <= |t| && !Hits(p, t)
    ensures !Hits(p, t[..i])
  {
    if Hits(p, t[..i]) {
      HitsStay(p, t, i);
    }
  }

  lemma {:induction false} LiveIffHeld(p: seq<byte>, f: seq<byte>)
    requires Dashed(p) && !Hits(p, f) && (f == [] || f[|f| - 1] != DASH)
    ensures Live(p, f) <==> Progress(p, f) > 0
    decreases |f|, 1
  {
    hide Progress, Ready, Dashed;
    HeldBeyondDashes(p, f);
    ProgressSound(p, f);
    var held := Progress(p, f);
    if held > 0 {
      HeldFromStart(p, f, held);
      NoHitBefore(p, f, |f| - held);
      ReadyIffAtStart(p, f[..|f| - held]);
      assert Live(p, f);
    } else if k: nat :| 3 <= k < |p| && k <= |f| && f[|f| - k..] == p[..k] && Ready(p, f[..|f| - k]) {
      HeldIfLive(p, f, k);
      assert false;
    }
  }

  lemma {:induction false} HeldIfLive(p: seq<byte>, f: seq<byte>, k: nat)
    requires Dashed(p) && !Hits(p, f) && 3 <= k < |p| && k <= |f|
    requires f[|f| - k..] == p[..k] && Ready(p, f[..|f| - k])
    ensures Progress(p, f) == k
    decreases |f|, 0
  {
    hide Progress, Ready, Dashed;
    NoHitBefore(p, f, |f| - k);
    ReadyIffAtStart(p, f[..|f| - k]);
    FollowsPattern(p, f[..|f| - k], k);
    assert f == f[..|f| - k] + p[..k];
  }

  lemma {:induction false} ReadyIffAtStart(p: seq<byte>, t: seq<byte>)
    requires Dashed(p) && !Hits(p, t)
    ensures Ready(p, t) <==> Progress(p, t) == 0
    decreases |t|, 2
  {
    hide Progress, Live, DashRun;
    var l := DashRun(t);
    var f := t[..|t| - l];
    NoHitBefore(p, t, |t| - l);
    LiveIffHeld(p, f);
    HeldBeyondDashes(p, f);
    AfterDashes(p, t, l, Progress(p, f));
  }

  /** A boundary is found if and only if one stands behind a text that leaves the matcher at its
      start, which can be told from the dashes and beginnings of boundaries in that text. */
  lemma BoundaryFoundIff(p: seq<byte>, s: seq<byte>)
    requires Dashed(p)
    ensures Hits(p, s) <==> exists i: nat :: OccursAt(p, s, i) && Ready(p, s[..i])
  {
    hide Progress, Ready;
    if Hits(p, s) {
      var i := FirstMatchStart(p, s);
      if Hits(p, s[..i]) {
        StartIsNoHit(p, s[..i]);
      }
      ReadyIffAtStart(p, s[..i]);
    } else if i: nat :| OccursAt(p, s, i) && Ready(p, s[..i]) {
      NoHitBefore(p, s, i);
      ReadyIffAtStart(p, s[..i]);
      FollowsFromStart(p, s, i);
    }
  }

  lemma StartIsNoHit(p: seq<byte>, t: seq<byte>)
    requires |p| > 0 && Progress(p, t) == 0
    ensures !Hits(p, t)
  {
  }

  /** Where the matcher first matches. */
  lemma {:induction false} FirstHit(p: seq<byte>, s: seq<byte>) returns (n: nat)
    requires |p| > 0 && Hits(p, s)
    ensures 0 < n <= |s| && Hits(p, s[..n]) && !Hits(p, s[..n - 1])
  {
    var m := |s| - 1;
    if Hits(p, s[..m]) {
      n := FirstHit(p, s[..m]);
      assert s[..m][..n] == s[..n] && s[..m][..n - 1] == s[..n - 1];
    } else {
      n := |s|;
      assert s[..n] == s && s[..n - 1] == s[..m];
    }
  }

  lemma BoundaryFacts()
    ensures |BOUNDARY| == 20 && 13 !in BOUNDARY && 10 !in BOUNDARY
    ensures BOUNDARY[0] == BOUNDARY[1] == 45 && forall i :: 2 <= i < 20 ==> BOUNDARY[i] != 45
    ensures Dashed(BOUNDARY)
  {
    assert BOUNDARY == [45, 45, 98, 111, 117, 110, 100, 97, 114, 121, 100, 111, 110, 111, 116, 99, 114, 111, 115, 115];
  }

  /** A third dash in front hides a boundary from the matcher. */
  lemma ThreeDashesMissed(s: seq<byte>)
    requires s == [DASH] + BOUNDARY
    ensures Contains(BOUNDARY, s) && !Hits(BOUNDARY, s)
  {
    BoundaryFacts();
    assert OccursAt(BOUNDARY, s, 1);
    BoundaryFoundIff(BOUNDARY, s);
    OneDashIsNotReady(BOUNDARY, s[..1]);
    if i: nat :| OccursAt(BOUNDARY, s, i) && Ready(BOUNDARY, s[..i]) {
      OnlyAtOne(s, i);
      assert false;
    }
  }

  lemma OnlyAtOne(s: seq<byte>, i: nat)
    requires s == [DASH] + BOUNDARY && OccursAt(BOUNDARY, s, i)
    ensures i == 1
  {
    BoundaryFacts();
    assert s[i..i + 20][2] == s[i + 2];
  }

  lemma OneDashIsNotReady(p: seq<byte>, t: seq<byte>)
    requires Dashed(p) && t == [DASH]
    ensures !Ready(p, t)
  {
    assert DashRun(t[..0]) == 0 && DashRun(t) == 1;
  }

  /** And so does a beginning of a boundary in front. */
  lemma BeginningMissed(s: seq<byte>)
    requires s == BOUNDARY[..3] + BOUNDARY
    ensures Contains(BOUNDARY, s) && !Hits(BOUNDARY, s)
  {
    BoundaryFacts();
    assert OccursAt(BOUNDARY, s, 3);
    BoundaryFoundIff(BOUNDARY, s);
    BeginningIsLive(BOUNDARY, s[..3]);
    if i: nat :| OccursAt(BOUNDARY, s, i) && Ready(BOUNDARY, s[..i]) {
      OnlyAtThree(s, i);
      assert false;
    }
  }

  lemma BeginningIsLive(p: seq<byte>, t: seq<byte>)
    requires Dashed(p) && |p| > 3 && t == p[..3]
    ensures !Ready(p, t)
  {
    hide Ready;
    assert Progress(p, []) == 0;
    FollowsPattern(p, [], 3);
    assert [] + p[..3] == t;
    ReadyIffAtStart(p, t);
  }

  lemma OnlyAtThree(s: seq<byte>, i: nat)
    requires s == BOUNDARY[..3] + BOUNDARY && OccursAt(BOUNDARY, s, i)
    ensures i == 3
  {
    BoundaryFacts();
    assert s[i..i + 20][0] == s[i] && s[i..i + 20][1] == s[i + 1] && s[i..i + 20][3] == s[i + 3];
  }
}
