/** The ring of picture files that output_file keeps in its folder. */
module PictureRing {
  import opened Division
  import opened Decimals
  import opened Sequences
  import opened PictureNames

  /** Which names `check_for_filename` accepts. */
  type Filter = Name -> bool

  function Pictures(files: set<Name>, accepts: Filter): (r: set<Name>)
    ensures forall f :: f in r <==> f in files && accepts(f)
  {
    set f | f in files && accepts(f)
  }

  /** `scandir` with `alphasort`: the accepted names of the folder, sorted. */
  ghost predicate IsListing(list: seq<Name>, files: set<Name>, accepts: Filter) {
    && (forall i :: 0 <= i < |list| ==> list[i] in files && accepts(list[i]))
    && (forall f :: f in files && accepts(f) ==> f in list)
    && (forall i, j :: 0 <= i < j < |list| ==> Less(list[i], list[j]))
  }

  /** The names that go: all but the last `size`. */
  function Oldest(list: seq<Name>, size: nat): (r: set<Name>) {
    set i | 0 <= i < |list| - size :: list[i]
  }

  function Trimmed(files: set<Name>, list: seq<Name>, size: nat): (r: set<Name>) {
    files - Oldest(list, size)
  }

  // ---------------------------------------------------------------- the worker's turns

  /** One frame: when it was stored, and the listing that the clean-up would see. */
  datatype Turn = Turn(time: Time, list: seq<Name>)

  /** The folder, how many frames were stored, and their names in order. */
  datatype Folder = Folder(files: set<Name>, counter: nat, written: seq<Name>)

  datatype Settings = Settings(size: nat, exceed: int, accepts: Filter)

  /** Whether a turn that raised the counter to `counter` cleans up. */
  predicate CleansUp(s: Settings, counter: nat) {
    s.exceed <= 0 || counter == 1 || counter % (s.exceed + 1) == 0
  }

  function Stored(d: Folder, t: Turn): (r: Folder) {
    var name := PictureName(t.time, d.counter);
    Folder(d.files + {name}, d.counter + 1, d.written + [name])
  }

  function Step(s: Settings, d: Folder, t: Turn): (r: Folder) {
    var e := Stored(d, t);
    if CleansUp(s, e.counter) then e.(files := Trimmed(e.files, t.list, s.size)) else e
  }

  ghost predicate LegalStep(s: Settings, d: Folder, t: Turn) {
    var e := Stored(d, t);
    && s.accepts(PictureName(t.time, d.counter))
    && (CleansUp(s, e.counter) ==> IsListing(t.list, e.files, s.accepts))
  }

  function After(s: Settings, d: Folder, turns: seq<Turn>): (r: Folder) {
    if turns == [] then d else Step(s, After(s, d, turns[..|turns| - 1]), turns[|turns| - 1])
  }

  ghost predicate Legal(s: Settings, d: Folder, turns: seq<Turn>) {
    forall n :: 0 <= n < |turns| ==> LegalStep(s, After(s, d, turns[..n]), turns[n])
  }

  // ---------------------------------------------------------------- how many files stay

  /** A sorted list has as many names as its set. */
  lemma {:induction false} SortedCount(list: seq<Name>, r: set<Name>)
    requires forall i, j :: 0 <= i < j < |list| ==> Less(list[i], list[j])
    requires forall f :: f in r <==> f in list
    ensures |r| == |list|
  {
    hide Less;
    if list == [] {
      assert r == {};
    } else {
      var n := |list| - 1;
      LessIrreflexive(list[n]);
      assert list == list[..n] + [list[n]];
      SortedCount(list[..n], r - {list[n]});
    }
  }

  /** Where the names that stay begin in the listing. */
  function KeptFrom(list: seq<Name>, size: nat): (from: nat)
    ensures from <= |list|
  {
    if |list| > size then |list| - size else 0
  }

  lemma KeptNames(files: set<Name>, list: seq<Name>, size: nat, accepts: Filter)
    requires IsListing(list, files, accepts)
    ensures forall f :: f in Pictures(Trimmed(files, list, size), accepts) <==> f in list[KeptFrom(list, size)..]
  {
    hide Less;
    var from := KeptFrom(list, size);
    forall f
      ensures f in Pictures(Trimmed(files, list, size), accepts) <==> f in list[from..]
    {
      if f in files && accepts(f) {
        var i :| 0 <= i < |list| && list[i] == f;
        OldestIff(list, size, i);
        if i >= from {
          assert list[from..][i - from] == f;
        }
      }
      if f in list[from..] {
        var k :| 0 <= k < |list[from..]| && list[from..][k] == f;
        OldestIff(list, size, from + k);
      }
    }
  }

  lemma OldestIff(list: seq<Name>, size: nat, i: nat)
    requires i < |list| && forall j, k :: 0 <= j < k < |list| ==> Less(list[j], list[k])
    ensures list[i] in Oldest(list, size) <==> i < KeptFrom(list, size)
  {
    hide Less;
    LessIrreflexive(list[i]);
  }

  /** A clean-up leaves exactly `size` pictures, or all of them if there are not more, and no other file
      is touched. */
  lemma TrimmedCount(files: set<Name>, list: seq<Name>, size: nat, accepts: Filter)
    requires IsListing(list, files, accepts)
    ensures |Pictures(Trimmed(files, list, size), accepts)| ==
            if |Pictures(files, accepts)| < size then |Pictures(files, accepts)| else size
    ensures Trimmed(files, list, size) <= files
    ensures forall f :: f in files && !accepts(f) ==> f in Trimmed(files, list, size)
  {
    hide Less;
    SortedCount(list, Pictures(files, accepts));
    KeptNames(files, list, size, accepts);
    SortedCount(list[KeptFrom(list, size)..], Pictures(Trimmed(files, list, size), accepts));
  }

  /** What goes sorts in front of everything that stays, and goes only when `size` pictures stay. */
  lemma RemovedAreOldest(files: set<Name>, list: seq<Name>, size: nat, accepts: Filter, f: Name)
    requires IsListing(list, files, accepts) && f in files && f !in Trimmed(files, list, size)
    ensures accepts(f) && |Pictures(Trimmed(files, list, size), accepts)| == size
    ensures forall g :: g in Pictures(Trimmed(files, list, size), accepts) ==> Less(f, g)
  {
    hide Less;
    TrimmedCount(files, list, size, accepts);
    SortedCount(list, Pictures(files, accepts));
    KeptNames(files, list, size, accepts);
    var from := KeptFrom(list, size);
    var i :| 0 <= i < |list| && list[i] == f;
    OldestIff(list, size, i);
    forall g | g in Pictures(Trimmed(files, list, size), accepts)
      ensures Less(f, g)
    {
      var k :| 0 <= k < |list[from..]| && list[from..][k] == g;
      assert g == list[from + k];
    }
  }

  lemma StoredCount(d: Folder, t: Turn, accepts: Filter)
    ensures |Pictures(Stored(d, t).files, accepts)| <= |Pictures(d.files, accepts)| + 1
  {
    var name := PictureName(t.time, d.counter);
    var before, after := Pictures(d.files, accepts), Pictures(Stored(d, t).files, accepts);
    assert after <= before + {name};
    Subset(after, before + {name});
  }

  lemma {:induction false} Subset(a: set<Name>, b: set<Name>)
    requires a <= b
    ensures |a| <= |b|
  {
    if a != {} {
      var x :| x in a;
      Subset(a - {x}, b - {x});
    }
  }

  /** How many pictures the folder holds at most after a turn that raised the counter to `c`. */
  function Bound(s: Settings, c: nat): (r: nat)
    requires c > 0
    ensures r <= s.size + (if s.exceed > 0 then s.exceed else 0)
  {
    if CleansUp(s, c) then s.size
    else if c <= s.exceed then s.size + c - 1
    else s.size + c % (s.exceed + 1)
  }

  lemma BoundGrows(s: Settings, c: nat)
    requires c > 0 && !CleansUp(s, c + 1)
    ensures Bound(s, c) + 1 <= Bound(s, c + 1)
  {
    if c > s.exceed {
      NextRemainder(c, s.exceed + 1);
    }
  }

  lemma NextRemainder(c: nat, m: nat)
    requires m > 0 && (c + 1) % m != 0
    ensures (c + 1) % m == c % m + 1
  {
    var q, r := c / m, c % m;
    assert c == q * m + r;
    if r + 1 == m {
      DivMod(c + 1, q + 1, m, 0);
    } else {
      DivMod(c + 1, q, m, r + 1);
    }
  }

  /** From any folder, every turn ends with at most `size + exceed` pictures. */
  lemma {:induction false} RingStaysBounded(s: Settings, d: Folder, turns: seq<Turn>)
    requires d.counter == 0 && turns != [] && Legal(s, d, turns)
    ensures After(s, d, turns).counter == |turns|
    ensures |Pictures(After(s, d, turns).files, s.accepts)| <= Bound(s, |turns|)
    ensures |Pictures(After(s, d, turns).files, s.accepts)| <= s.size + (if s.exceed > 0 then s.exceed else 0)
  {
    var n := |turns| - 1;
    var before := After(s, d, turns[..n]);
    assert LegalStep(s, before, turns[n]);
    if n > 0 {
      LegalPrefix(s, d, turns);
      RingStaysBounded(s, d, turns[..n]);
      if !CleansUp(s, n + 1) {
        BoundGrows(s, n);
      }
    }
    hide PictureName;
    var e := Stored(before, turns[n]);
    StoredCount(before, turns[n], s.accepts);
    if CleansUp(s, e.counter) {
      TrimmedCount(e.files, turns[n].list, s.size, s.accepts);
    }
  }

  lemma LegalPrefix(s: Settings, d: Folder, turns: seq<Turn>)
    requires turns != [] && Legal(s, d, turns)
    ensures Legal(s, d, turns[..|turns| - 1])
  {
    hide LegalStep, After;
    var init := turns[..|turns| - 1];
    forall n | 0 <= n < |init|
      ensures LegalStep(s, After(s, d, init[..n]), init[n])
    {
      assert init[..n] == turns[..n] && init[n] == turns[n];
      assert LegalStep(s, After(s, d, turns[..n]), turns[n]);
    }
  }

  // ---------------------------------------------------------------- which files stay

  /** The names of a run sort in the order in which they are written. */
  ghost predicate Orderly(turns: seq<Turn>) {
    && (forall i :: 0 <= i < |turns| ==> turns[i].time.Valid())
    && (forall i, j :: 0 <= i < j < |turns| ==> SortsBehind(turns[i].time, i, turns[j].time, j))
  }

  /** That is so while the clock does not go back and the counter keeps nine digits. */
  lemma SteadyClockIsOrderly(turns: seq<Turn>)
    requires |turns| <= Pow10(9) && forall i :: 0 <= i < |turns| ==> turns[i].time.Valid()
    requires forall i, j :: 0 <= i < j < |turns| ==> NotAfter(turns[i].time, turns[j].time)
    ensures Orderly(turns)
  {
    hide NotAfter, SortsBehind, Pow10;
    forall i, j | 0 <= i < j < |turns|
      ensures SortsBehind(turns[i].time, i, turns[j].time, j)
    {
      NamesOrdered(turns[i].time, i, turns[j].time, j);
    }
  }

  /** What was written, in order. */
  lemma {:induction false} WrittenNames(s: Settings, d: Folder, turns: seq<Turn>)
    requires d.counter == 0 && d.written == []
    ensures var r := After(s, d, turns);
            && r.counter == |r.written| == |turns|
            && forall i :: 0 <= i < |turns| ==> r.written[i] == PictureName(turns[i].time, i)
  {
    hide PictureName, Trimmed;
    if turns != [] {
      WrittenNames(s, d, turns[..|turns| - 1]);
    }
  }

  lemma WrittenInOrder(s: Settings, d: Folder, turns: seq<Turn>, i: nat, j: nat)
    requires d.counter == 0 && d.written == [] && Orderly(turns) && i < j < |turns|
    ensures |After(s, d, turns).written| == |turns|
    ensures Less(After(s, d, turns).written[i], After(s, d, turns).written[j])
  {
    hide PictureName, After, Less, SortsBehind;
    WrittenNames(s, d, turns);
    NamesSortIff(turns[i].time, i, turns[j].time, j);
  }

  /** A clean-up that removes a picture removes every earlier one. */
  lemma TrimsFromBelow(files: set<Name>, list: seq<Name>, size: nat, accepts: Filter, f: Name, g: Name)
    requires IsListing(list, files, accepts) && f in files && accepts(f) && Less(f, g)
    requires f in Trimmed(files, list, size) && g in files
    ensures g in Trimmed(files, list, size)
  {
    hide Less;
    if g in Oldest(list, size) {
      var j :| 0 <= j < |list| - size && list[j] == g;
      var i :| 0 <= i < |list| && list[i] == f;
      LessIrreflexive(f);
      if i > j {
        LessTransitive(f, g, f);
      }
    }
  }

  /** The pictures of a run that are still there are the latest ones: a suffix of the order in
      which they were written. */
  lemma {:induction false} KeptPicturesAreASuffix(s: Settings, d: Folder, turns: seq<Turn>, i: nat, j: nat)
    requires d.counter == 0 && d.written == [] && Legal(s, d, turns) && Orderly(turns) && i < j < |turns|
    ensures var r := After(s, d, turns);
            |r.written| == |turns| && (r.written[i] in r.files ==> r.written[j] in r.files)
    decreases turns
  {
    hide PictureName, Less, Step, LegalStep, SortsBehind, Stored;
    var n := |turns| - 1;
    var init := turns[..n];
    LegalPrefix(s, d, turns);
    WrittenNames(s, d, turns);
    WrittenInOrder(s, d, turns, i, j);
    WrittenInOrder(s, d, turns, i, n);
    assert LegalStep(s, After(s, d, init), turns[n]);
    if j < n {
      KeptPicturesAreASuffix(s, d, init, i, j);
    }
    LastTurn(s, d, turns, i, j);
  }

  lemma LastTurn(s: Settings, d: Folder, turns: seq<Turn>, i: nat, j: nat)
    requires d.counter == 0 && d.written == [] && i < j < |turns| && Legal(s, d, turns)
    requires |After(s, d, turns).written| == |turns|
    requires LegalStep(s, After(s, d, turns[..|turns| - 1]), turns[|turns| - 1])
    requires Less(After(s, d, turns).written[i], After(s, d, turns).written[j])
    requires Less(After(s, d, turns).written[i], After(s, d, turns).written[|turns| - 1])
    requires j < |turns| - 1 ==>
               var b := After(s, d, turns[..|turns| - 1]);
               |b.written| == |turns| - 1 && (b.written[i] in b.files ==> b.written[j] in b.files)
    ensures var r := After(s, d, turns);
            r.written[i] in r.files ==> r.written[j] in r.files
  {
    hide PictureName, Less, Trimmed, IsListing, Pow10;
    var n := |turns| - 1;
    var before := After(s, d, turns[..n]);
    WrittenNames(s, d, turns[..n]);
    LessIrreflexive(After(s, d, turns).written[i]);
    AcceptedNames(s, d, turns, i);
    SuffixStep(s, before, turns[n], i, j);
  }

  lemma AcceptedNames(s: Settings, d: Folder, turns: seq<Turn>, i: nat)
    requires d.counter == 0 && d.written == [] && i < |turns| && Legal(s, d, turns)
    ensures |After(s, d, turns).written| == |turns| && s.accepts(After(s, d, turns).written[i])
  {
    hide PictureName, IsListing;
    WrittenNames(s, d, turns);
    WrittenNames(s, d, turns[..i]);
    assert LegalStep(s, After(s, d, turns[..i]), turns[i]);
  }

  lemma SuffixStep(s: Settings, d: Folder, t: Turn, i: nat, j: nat)
    requires LegalStep(s, d, t) && i < j <= |d.written|
    requires j < |d.written| ==> d.written[i] in d.files ==> d.written[j] in d.files
    requires Less(Stored(d, t).written[i], Stored(d, t).written[j])
    requires s.accepts(Stored(d, t).written[i]) && d.written[i] != PictureName(t.time, d.counter)
    ensures Step(s, d, t).written[i] in Step(s, d, t).files ==> Step(s, d, t).written[j] in Step(s, d, t).files
  {
    hide PictureName, Less, IsListing;
    var e := Stored(d, t);
    var f, g := e.written[i], e.written[j];
    if CleansUp(s, e.counter) && f in Trimmed(e.files, t.list, s.size) && g in e.files {
      TrimsFromBelow(e.files, t.list, s.size, s.accepts, f, g);
    }
  }

  // ---------------------------------------------------------------- what is never lost

  /** A turn takes a file away only if it is a picture and `size` pictures stay, all sorting behind it. */
  lemma OnlyOldestGo(s: Settings, d: Folder, t: Turn, f: Name)
    requires LegalStep(s, d, t) && f in Stored(d, t).files && f !in Step(s, d, t).files
    ensures s.accepts(f) && |Pictures(Step(s, d, t).files, s.accepts)| == s.size
    ensures forall g :: g in Pictures(Step(s, d, t).files, s.accepts) ==> Less(f, g)
  {
    hide PictureName, Less, IsListing, Trimmed, Stored;
    RemovedAreOldest(Stored(d, t).files, t.list, s.size, s.accepts, f);
  }

  /** So over a run a file disappears only in a turn that leaves `size` pictures, all sorting behind it. */
  lemma DisappearsOnlyBehindSize(s: Settings, d: Folder, turns: seq<Turn>, n: nat, f: Name)
    requires Legal(s, d, turns) && n < |turns|
    requires f in After(s, d, turns[..n]).files && f !in After(s, d, turns[..n + 1]).files
    ensures s.accepts(f) && |Pictures(After(s, d, turns[..n + 1]).files, s.accepts)| == s.size
    ensures forall g :: g in Pictures(After(s, d, turns[..n + 1]).files, s.accepts) ==> Less(f, g)
  {
    hide PictureName, Less, Step, LegalStep;
    assert turns[..n + 1][..n] == turns[..n] && turns[..n + 1][n] == turns[n];
    assert LegalStep(s, After(s, d, turns[..n]), turns[n]);
    OnlyOldestGo(s, After(s, d, turns[..n]), turns[n], f);
  }

  /** Every file was there at the start or was written. */
  lemma {:induction false} FilesComeFrom(s: Settings, d: Folder, turns: seq<Turn>, f: Name)
    requires f in After(s, d, turns).files
    ensures f in d.files || f in After(s, d, turns).written
  {
    hide PictureName, Oldest;
    if turns != [] {
      var before := After(s, d, turns[..|turns| - 1]);
      if f in before.files {
        FilesComeFrom(s, d, turns[..|turns| - 1], f);
      }
    }
  }

  /** The pictures from before the run sort in front of those of the run. */
  ghost predicate OlderBefore(s: Settings, d: Folder, turns: seq<Turn>) {
    forall f, k :: f in d.files && s.accepts(f) && 0 <= k < |turns| ==> Less(f, PictureName(turns[k].time, k))
  }

  /** The pictures that sort behind picture `i` were written after it. */
  lemma LaterOnly(s: Settings, d: Folder, turns: seq<Turn>, i: nat, g: Name)
    requires d.counter == 0 && d.written == [] && Orderly(turns) && OlderBefore(s, d, turns) && i < |turns|
    requires g in Pictures(After(s, d, turns).files, s.accepts) && Less(PictureName(turns[i].time, i), g)
    ensures |After(s, d, turns).written| == |turns| && g in After(s, d, turns).written[i + 1..]
  {
    hide PictureName, Less, Step, SortsBehind;
    WrittenNames(s, d, turns);
    FilesComeFrom(s, d, turns, g);
    var f := PictureName(turns[i].time, i);
    LessAsymmetric(f, g);
    var written := After(s, d, turns).written;
    if g in d.files {
      assert false;
    }
    var j :| 0 <= j < |written| && written[j] == g;
    LessIrreflexive(f);
    if j < i {
      WrittenInOrder(s, d, turns, j, i);
    }
    assert written[i + 1..][j - (i + 1)] == g;
  }

  lemma OrderlyPrefix(s: Settings, d: Folder, turns: seq<Turn>)
    requires turns != [] && Orderly(turns) && OlderBefore(s, d, turns)
    ensures Orderly(turns[..|turns| - 1]) && OlderBefore(s, d, turns[..|turns| - 1])
  {
    hide PictureName, Less, SortsBehind;
    var init := turns[..|turns| - 1];
    forall f, k | f in d.files && s.accepts(f) && 0 <= k < |init|
      ensures Less(f, PictureName(init[k].time, k))
    {
      assert Less(f, PictureName(turns[k].time, k));
    }
  }

  /** While names sort in the order of writing, the last `size` pictures written are in the folder. */
  lemma {:induction false} LatestAreKept(s: Settings, d: Folder, turns: seq<Turn>, i: nat)
    requires d.counter == 0 && d.written == [] && Legal(s, d, turns) && Orderly(turns) && OlderBefore(s, d, turns)
    requires |turns| - s.size <= i < |turns|
    ensures PictureName(turns[i].time, i) in After(s, d, turns).files
    decreases |turns|
  {
    hide PictureName, Less, Step, LegalStep, SortsBehind, Stored;
    var n := |turns| - 1;
    var init := turns[..n];
    var before, f := After(s, d, init), PictureName(turns[i].time, i);
    LegalPrefix(s, d, turns);
    OrderlyPrefix(s, d, turns);
    if i < n {
      LatestAreKept(s, d, init, i);
    }
    WrittenNames(s, d, init);
    IsStored(before, turns[n], f, i);
    assert LegalStep(s, before, turns[n]);
    if f !in After(s, d, turns).files {
      OnlyOldestGo(s, before, turns[n], f);
      var kept := Pictures(After(s, d, turns).files, s.accepts);
      WrittenNames(s, d, turns);
      var later := After(s, d, turns).written[i + 1..];
      forall g | g in kept
        ensures g in later
      {
        LaterOnly(s, d, turns, i, g);
      }
      SetOfSeq(later, kept);
      assert false;
    }
  }

  lemma IsStored(d: Folder, t: Turn, f: Name, i: nat)
    requires f in d.files || (i == d.counter && f == PictureName(t.time, i))
    ensures f in Stored(d, t).files
  {
    hide PictureName;
  }

  // ---------------------------------------------------------------- the code

  class Worker {
    const settings: Settings
    var files: set<Name>
    var counter: nat
    ghost var written: seq<Name>

    ghost function Abs(): (d: Folder)
      reads this
    {
      Folder(files, counter, written)
    }

    constructor (settings: Settings, files: set<Name>)
      ensures this.settings == settings && Abs() == Folder(files, 0, [])
    {
      this.settings := settings;
      this.files := files;
      counter := 0;
      written := [];
    }

    /** `maintain_ringbuffer`: unlink from the front of the sorted listing. */
    method MaintainRingbuffer(size: int, list: seq<Name>)
      modifies this`files
      ensures size < 0 ==> files == old(files)
      ensures size >= 0 ==> files == Trimmed(old(files), list, size)
      ensures size >= 0 && IsListing(list, old(files), settings.accepts) ==>
                var before, after := Pictures(old(files), settings.accepts), Pictures(files, settings.accepts);
                && |after| == (if |before| < size then |before| else size)
                && (forall f, g :: f in before && f !in after && g in after ==> Less(f, g))
                && (forall f :: !settings.accepts(f) ==> (f in files <==> f in old(files)))
    {
      if size < 0 {
        return;
      }
      var i := 0;
      while i < |list| - size
        invariant 0 <= i && (|list| >= size ==> i <= |list| - size) && (|list| < size ==> i == 0)
        invariant files == old(files) - set k | 0 <= k < i :: list[k]
      {
        files := files - {list[i]};
        i := i + 1;
      }
      if |list| < size {
        assert Oldest(list, size) == {};
      }
      if IsListing(list, old(files), settings.accepts) {
        TrimmedCount(old(files), list, size, settings.accepts);
        forall f | f in old(files) && f !in files
          ensures forall g :: g in Pictures(files, settings.accepts) ==> Less(f, g)
        {
          RemovedAreOldest(old(files), list, size, settings.accepts, f);
        }
      }
    }

    /** One turn of `worker_thread` in single-file mode. */
    method StoreFrame(t: Turn)
      modifies this
      ensures Abs() == Step(settings, old(Abs()), t)
      ensures counter == old(counter) + 1 && written == old(written) + [PictureName(t.time, old(counter))]
      ensures var stored := old(files) + {PictureName(t.time, old(counter))};
              if settings.exceed <= 0 || counter == 1 || counter % (settings.exceed + 1) == 0 then
                files == Trimmed(stored, t.list, settings.size)
              else files == stored
    {
      hide PictureName;
      var name := PictureName(t.time, counter);
      counter := counter + 1;
      files := files + {name};
      written := written + [name];
      if settings.exceed <= 0 {
        MaintainRingbuffer(settings.size, t.list);
      } else if counter == 1 || counter % (settings.exceed + 1) == 0 {
        MaintainRingbuffer(settings.size, t.list);
      }
    }

    /** A run of the worker keeps to the bound. */
    method Run(turns: seq<Turn>)
      requires counter == 0 && written == [] && Legal(settings, Abs(), turns)
      modifies this
      ensures Abs() == After(settings, old(Abs()), turns)
      ensures turns != [] ==>
                |Pictures(files, settings.accepts)| <=
                settings.size + (if settings.exceed > 0 then settings.exceed else 0)
      ensures Orderly(turns) && OlderBefore(settings, old(Abs()), turns) ==>
                forall i :: |turns| - settings.size <= i < |turns| && 0 <= i ==>
                  PictureName(turns[i].time, i) in files
    {
      hide Step, PictureName, Orderly, OlderBefore;
      ghost var start := Abs();
      for i := 0 to |turns|
        invariant Abs() == After(settings, start, turns[..i])
      {
        StoreFrame(turns[i]);
        assert turns[..i + 1][..i] == turns[..i] && turns[..i + 1][i] == turns[i];
      }
      assert turns[..|turns|] == turns;
      if turns != [] {
        RingStaysBounded(settings, start, turns);
      }
      if Orderly(turns) && OlderBefore(settings, start, turns) {
        forall i | |turns| - settings.size <= i < |turns| && 0 <= i
          ensures PictureName(turns[i].time, i) in files
        {
          LatestAreKept(settings, start, turns, i);
        }
      }
    }
  }
}
