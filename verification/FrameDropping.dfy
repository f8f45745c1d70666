/** Which grabbed frames the input_uvc thread publishes: every N-th, not too small, not too soon. */
module FrameDropping {
  import opened Division

  datatype Grab = Grab(bytesUsed: nat, sec: nat, usec: nat)

  const ULONG: nat := 0x1_0000_0000_0000_0000

  /** A timestamp in milliseconds. */
  function Ms(g: Grab): (r: nat)
    ensures r == (1000000 * g.sec + g.usec) / 1000
  {
    g.sec * 1000 + g.usec / 1000
  }

  /** `current - last` on unsigned long. */
  function Elapsed(current: nat, last: nat): (r: nat) {
    (current - last) % ULONG
  }

  datatype Settings = Settings(every: nat, minimumSize: nat, soft: bool, period: nat)

  /** Consecutive frames are at least one period apart. */
  ghost predicate Spaced(p: seq<Grab>, period: nat) {
    forall i :: 0 <= i < |p| - 1 ==> Ms(p[i]) + period <= Ms(p[i + 1])
  }

  /** Any `k + 1` consecutive frames span at least `k` periods, in seconds and microseconds, up to the
      part of a millisecond that the clock values lose. */
  lemma SpanBound(p: seq<Grab>, period: nat, i: nat, k: nat)
    requires Spaced(p, period) && i + k < |p|
    ensures (1000000 * p[i].sec + p[i].usec) / 1000 + k * period <= (1000000 * p[i + k].sec + p[i + k].usec) / 1000
    ensures 1000000 * (p[i + k].sec - p[i].sec) + (p[i + k].usec - p[i].usec) > 1000 * (k * period) - 1000
  {
    SpanInMs(p, period, i, k);
  }

  lemma {:induction false} SpanInMs(p: seq<Grab>, period: nat, i: nat, k: nat)
    requires Spaced(p, period) && i + k < |p|
    ensures Ms(p[i]) + k * period <= Ms(p[i + k])
  {
    if k > 0 {
      SpanInMs(p, period, i, k - 1);
      assert Ms(p[i + k - 1]) + period <= Ms(p[i + k - 1 + 1]);
      assert (k - 1) * period + period == k * period;
    }
  }

  /** With the clock going forward nothing wraps; a clock that went back looks like a long wait. */
  lemma ElapsedIs(current: nat, last: nat)
    requires current < ULONG && last < ULONG
    ensures Elapsed(current, last) == if last <= current then current - last else ULONG - (last - current)
  {
    if last > current {
      assert (current - last) % ULONG == (current - last + ULONG) % ULONG;
    }
  }

  ghost predicate ClockRuns(grabs: seq<Grab>) {
    && (forall i :: 0 <= i < |grabs| ==> Ms(grabs[i]) < ULONG)
    && (forall i, j :: 0 <= i <= j < |grabs| ==> Ms(grabs[i]) <= Ms(grabs[j]))
  }

  class CamThread {
    const settings: Settings
    var everyCount: nat
    /** The timestamp of the frame in the shared buffer. */
    var shared: Grab
    /** How many frames were grabbed and how many got past the counter; what was published. */
    ghost var grabbed: nat
    ghost var passed: nat
    ghost var published: seq<Grab>

    ghost predicate Valid()
      reads this
    {
      && settings.every >= 1 && everyCount < settings.every
      && grabbed == settings.every * passed + everyCount
      && (published != [] ==> shared == published[|published| - 1])
    }

    constructor (settings: Settings, shared: Grab)
      requires settings.every >= 1
      ensures Valid() && grabbed == 0 && passed == 0 && published == []
      ensures this.settings == settings && this.shared == shared
    {
      this.settings := settings;
      this.shared := shared;
      everyCount, grabbed, passed, published := 0, 0, 0, [];
    }

    /** The loop body for one grabbed frame. */
    method Grabbed(g: Grab)
      requires Valid()
      modifies this
      ensures Valid() && grabbed == old(grabbed) + 1
      ensures passed == old(passed) + (if old(everyCount) == settings.every - 1 then 1 else 0)
      ensures published == old(published) || published == old(published) + [g]
      ensures published == old(published) + [g] <==>
                && old(everyCount) == settings.every - 1 && g.bytesUsed >= settings.minimumSize
                && (settings.soft ==>
                      Elapsed((1000000 * g.sec + g.usec) / 1000,
                              (1000000 * old(shared.sec) + old(shared.usec)) / 1000) >= settings.period)
      ensures published == old(published) ==> shared == old(shared)
    {
      grabbed := grabbed + 1;
      if everyCount < settings.every - 1 {
        everyCount := everyCount + 1;
        return;
      } else {
        everyCount := 0;
      }
      passed := passed + 1;
      assert settings.every * passed == settings.every * old(passed) + settings.every;
      if g.bytesUsed < settings.minimumSize {
        return;
      }
      if settings.soft {
        var last, current := Ms(shared), Ms(g);
        if Elapsed(current, last) < settings.period {
          return;
        }
      }
      shared := g;
      published := published + [g];
    }

    /** Any run: exactly one frame in `every` gets past the counter, and with soft dropping and a
        clock that does not go back the published frames are at least a period apart. */
    method Session(grabs: seq<Grab>)
      requires Valid() && grabbed == 0 && published == []
      modifies this
      ensures Valid() && passed == |grabs| / settings.every
      ensures settings.soft && ClockRuns(grabs) ==> Spaced(published, settings.period)
    {
      for n := 0 to |grabs|
        invariant Valid() && grabbed == n
        invariant published != [] ==> exists i :: 0 <= i < n && shared == grabs[i]
        invariant settings.soft && ClockRuns(grabs) ==> Spaced(published, settings.period)
      {
        ghost var before, last := published, shared;
        if ClockRuns(grabs) && published != [] {
          var i :| 0 <= i < n && shared == grabs[i];
          assert Ms(grabs[i]) <= Ms(grabs[n]) < ULONG;
          ElapsedIs(Ms(grabs[n]), Ms(shared));
        }
        Grabbed(grabs[n]);
        if published != before {
          Extended(before, last, grabs[n], settings.period);
        }
      }
      DivMod(grabbed, passed, settings.every, everyCount);
    }
  }

  lemma Extended(p: seq<Grab>, last: Grab, g: Grab, period: nat)
    requires p != [] ==> last == p[|p| - 1]
    ensures Spaced(p, period) && (p != [] ==> Ms(last) + period <= Ms(g)) ==> Spaced(p + [g], period)
  {
  }
}
