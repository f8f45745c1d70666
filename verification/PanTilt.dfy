/** The pan/tilt commands of input_control: absolute positions kept by a camera that only moves
    by relative steps. */
module PanTilt {

  const ONE_DEGREE := 64
  const MAX_PAN := 70 * 64
  const MIN_PAN := -70 * 64
  const MAX_TILT := 30 * 64
  const MIN_TILT := -30 * 64

  datatype Command =
    | Hello | ResetPanTilt | PanSet(degrees: int) | PanPlus | PanMinus
    | TiltSet(degrees: int) | TiltPlus | TiltMinus | Unknown

  /** What reaches the camera: a relative move, or a reset that worked or not. */
  datatype Motion = Move(pan: int, tilt: int) | Reset(ok: bool)

  /** Lock and release of the controls mutex. */
  datatype MutexOp = Lock | Unlock

  function Min(a: int, b: int): (r: int) {
    if a < b then a else b
  }

  function Max(a: int, b: int): (r: int) {
    if a > b then a else b
  }

  /** C division truncates toward zero. */
  function Truncated(a: int, b: int): (r: int)
    requires b > 0
  {
    if a >= 0 then a / b else -(-a / b)
  }

  function Limited(degrees: int, low: int, high: int): (r: int) {
    Min(Max(degrees * ONE_DEGREE, low), high)
  }

  predicate PansCamera(c: Command) {
    c.PanSet? || c.PanPlus? || c.PanMinus?
  }

  predicate TiltsCamera(c: Command) {
    c.TiltSet? || c.TiltPlus? || c.TiltMinus?
  }

  /** Where a move command leads: absolute values are cut to the limits, steps beyond them are not made. */
  function Aim(c: Command, step: int, from: (int, int)): (to: (int, int)) {
    match c
    case PanSet(d) => (Limited(d, MIN_PAN, MAX_PAN), from.1)
    case PanPlus => (if from.0 + step <= MAX_PAN then from.0 + step else from.0, from.1)
    case PanMinus => (if from.0 - step >= MIN_PAN then from.0 - step else from.0, from.1)
    case TiltSet(d) => (from.0, Limited(d, MIN_TILT, MAX_TILT))
    case TiltPlus => (from.0, if from.1 + step <= MAX_TILT then from.1 + step else from.1)
    case TiltMinus => (from.0, if from.1 - step >= MIN_TILT then from.1 - step else from.1)
    case _ => from
  }

  // ---------------------------------------------------------------- where the camera is

  /** Whether a reset ever worked. */
  predicate EverReset(motions: seq<Motion>) {
    motions != [] && (motions[|motions| - 1] == Reset(true) || EverReset(motions[..|motions| - 1]))
  }

  /** The sum of the moves since the last reset that worked. */
  function PanSum(motions: seq<Motion>): (r: int) {
    if motions == [] then 0
    else match motions[|motions| - 1]
      case Move(p, _) => PanSum(motions[..|motions| - 1]) + p
      case Reset(ok) => if ok then 0 else PanSum(motions[..|motions| - 1])
  }

  function TiltSum(motions: seq<Motion>): (r: int) {
    if motions == [] then 0
    else match motions[|motions| - 1]
      case Move(_, t) => TiltSum(motions[..|motions| - 1]) + t
      case Reset(ok) => if ok then 0 else TiltSum(motions[..|motions| - 1])
  }

  /** Every move comes behind a reset that worked. */
  predicate ResetFirst(motions: seq<Motion>) {
    forall i :: 0 <= i < |motions| && motions[i].Move? ==> EverReset(motions[..i])
  }

  lemma Appended(motions: seq<Motion>, m: Motion)
    ensures EverReset(motions + [m]) <==> m == Reset(true) || EverReset(motions)
    ensures PanSum(motions + [m]) ==
            match m
            case Move(p, _) => PanSum(motions) + p
            case Reset(ok) => if ok then 0 else PanSum(motions)
    ensures TiltSum(motions + [m]) ==
            match m
            case Move(_, t) => TiltSum(motions) + t
            case Reset(ok) => if ok then 0 else TiltSum(motions)
    ensures ResetFirst(motions) && (m.Move? ==> EverReset(motions)) ==> ResetFirst(motions + [m])
  {
    var all := motions + [m];
    assert all[..|motions|] == motions;
    if ResetFirst(motions) && (m.Move? ==> EverReset(motions)) {
      forall i | 0 <= i < |all| && all[i].Move?
        ensures EverReset(all[..i])
      {
        if i < |motions| {
          assert all[..i] == motions[..i];
        }
      }
    }
  }

  /** Whole degrees of a position, without what is left over. */
  predicate Degrees(position: int, degrees: int) {
    if position >= 0 then degrees * 64 <= position < degrees * 64 + 64
    else degrees * 64 - 64 < position <= degrees * 64
  }

  lemma TruncatedDegrees(position: int)
    ensures Degrees(position, Truncated(position, ONE_DEGREE))
  {
  }

  class Control {
    const step: int
    var pan: int
    var tilt: int
    var valid: int
    ghost var motions: seq<Motion>
    ghost var mutex: seq<MutexOp>

    /** The tracked position is where the moves since the last reset have led, within the limits. */
    ghost predicate Tracks()
      reads this
    {
      && MIN_PAN <= pan <= MAX_PAN && MIN_TILT <= tilt <= MAX_TILT
      && pan == PanSum(motions) && tilt == TiltSum(motions)
      && (valid == 1 <==> EverReset(motions)) && ResetFirst(motions)
    }

    constructor (step: int)
      ensures Tracks() && motions == [] && mutex == [] && this.step == step
    {
      this.step := step;
      pan, tilt, valid, motions, mutex := 0, 0, -1, [], [];
    }

    method UvcPanTilt(pan: int, tilt: int)
      modifies this`motions
      ensures motions == old(motions) + [Move(pan, tilt)]
    {
      motions := motions + [Move(pan, tilt)];
    }

    /** The reset command, without the mutex; `works` is what the device answers. */
    method DoReset(works: bool) returns (res: int)
      requires Tracks()
      modifies this`pan, this`tilt, this`valid, this`motions
      ensures Tracks() && motions == old(motions) + [Reset(works)]
      ensures res == if works then 0 else -1
      ensures works ==> valid == 1 && pan == 0 && tilt == 0
      ensures !works ==> pan == old(pan) && tilt == old(tilt) && valid == old(valid)
    {
      Appended(motions, Reset(works));
      motions := motions + [Reset(works)];
      if !works {
        return -1;
      }
      valid := 1;
      pan, tilt := 0, 0;
      return 0;
    }

    /** The first part of every move command: a position is needed before a relative move. */
    method EnsureReset(works: bool) returns (ready: bool)
      requires Tracks()
      modifies this`pan, this`tilt, this`valid, this`motions
      ensures Tracks() && (ready <==> valid == 1)
      ensures old(valid) == 1 ==> motions == old(motions) && pan == old(pan) && tilt == old(tilt) && ready
      ensures old(valid) != 1 ==> motions == old(motions) + [Reset(works)] && ready == works
      ensures ready && old(valid) != 1 ==> pan == 0 && tilt == 0
      ensures !ready ==> pan == old(pan) && tilt == old(tilt)
    {
      if valid != 1 {
        var r := DoReset(works);
        if r == -1 {
          return false;
        }
      }
      return true;
    }

    method MovePan(to: int)
      requires Tracks() && valid == 1 && MIN_PAN <= to <= MAX_PAN
      modifies this`pan, this`motions
      ensures Tracks() && pan == to && motions == old(motions) + [Move(to - old(pan), 0)]
    {
      Appended(motions, Move(to - pan, 0));
      var res := to - pan;
      pan := to;
      UvcPanTilt(res, 0);
    }

    method MoveTilt(to: int)
      requires Tracks() && valid == 1 && MIN_TILT <= to <= MAX_TILT
      modifies this`tilt, this`motions
      ensures Tracks() && tilt == to && motions == old(motions) + [Move(0, to - old(tilt))]
    {
      Appended(motions, Move(0, to - tilt));
      var res := to - tilt;
      tilt := to;
      UvcPanTilt(0, res);
    }

    /** The pan commands of `input_cmd`. */
    method PanCommand(c: Command, works: bool) returns (res: int)
      requires Tracks() && step >= 0 && PansCamera(c)
      modifies this`pan, this`tilt, this`valid, this`motions
      ensures Tracks() && old(motions) <= motions
      ensures Obeyed(c, works, old(valid) == 1, old((pan, tilt)), res)
    {
      hide PanSum, TiltSum, EverReset, ResetFirst;
      var ready := EnsureReset(works);
      if !ready {
        return -1;
      }
      if c.PanSet? {
        var value := Limited(c.degrees, MIN_PAN, MAX_PAN);
        if value - pan != 0 {
          MovePan(value);
        }
      } else if c.PanPlus? {
        if MAX_PAN >= pan + step {
          MovePan(pan + step);
        }
      } else {
        if MIN_PAN <= pan - step {
          MovePan(pan - step);
        }
      }
      TruncatedDegrees(pan);
      return Truncated(pan, ONE_DEGREE);
    }

    /** The tilt commands of `input_cmd`. */
    method TiltCommand(c: Command, works: bool) returns (res: int)
      requires Tracks() && step >= 0 && TiltsCamera(c)
      modifies this`pan, this`tilt, this`valid, this`motions
      ensures Tracks() && old(motions) <= motions
      ensures Obeyed(c, works, old(valid) == 1, old((pan, tilt)), res)
    {
      hide PanSum, TiltSum, EverReset, ResetFirst;
      var ready := EnsureReset(works);
      if !ready {
        return -1;
      }
      if c.TiltSet? {
        var value := Limited(c.degrees, MIN_TILT, MAX_TILT);
        if value - tilt != 0 {
          MoveTilt(value);
        }
      } else if c.TiltPlus? {
        if MAX_TILT >= tilt + step {
          MoveTilt(tilt + step);
        }
      } else {
        if MIN_TILT <= tilt - step {
          MoveTilt(tilt - step);
        }
      }
      TruncatedDegrees(tilt);
      return Truncated(tilt, ONE_DEGREE);
    }

    /** The position and the answer after a command: a move command first needs a reset that works,
        and then goes from where the camera is known to be. */
    ghost predicate Obeyed(c: Command, works: bool, wasValid: bool, from: (int, int), res: int)
      reads this
    {
      if PansCamera(c) || TiltsCamera(c) then
        if wasValid || works then
          && valid == 1 && (pan, tilt) == Aim(c, step, if wasValid then from else (0, 0))
          && Degrees(if PansCamera(c) then pan else tilt, res)
        else (valid == 1) == wasValid && (pan, tilt) == from && res == -1
      else if c.ResetPanTilt? && works then valid == 1 && (pan, tilt) == (0, 0) && res == 0
      else (valid == 1) == wasValid && (pan, tilt) == from && res == if c.Hello? then 0 else -1
    }

    /** `input_cmd`: the mutex is taken and released once, whatever the command does inside. With a working
        reset, plus goes up and minus down by one step unless that leaves the limits, a set command goes to
        as many degrees of 64 units as the limits allow, and the other axis stays. */
    method InputCmd(c: Command, works: bool) returns (res: int)
      requires Tracks() && step >= 0
      modifies this
      ensures Tracks() && mutex == old(mutex) + [Lock, Unlock]
      ensures old(motions) <= motions
      ensures Obeyed(c, works, old(valid) == 1, old((pan, tilt)), res)
      ensures old(valid) == 1 || works ==>
                var (p, t) := if old(valid) == 1 then old((pan, tilt)) else (0, 0);
                && (c.PanPlus? ==> pan == (if p + step <= 4480 then p + step else p) && tilt == t)
                && (c.PanMinus? ==> pan == (if p - step >= -4480 then p - step else p) && tilt == t)
                && (c.TiltPlus? ==> tilt == (if t + step <= 1920 then t + step else t) && pan == p)
                && (c.TiltMinus? ==> tilt == (if t - step >= -1920 then t - step else t) && pan == p)
      ensures old(valid) == 1 || works ==>
                && (c.PanSet? ==>
                      pan == if c.degrees > 70 then 4480 else if c.degrees < -70 then -4480 else c.degrees * 64)
                && (c.TiltSet? ==>
                      tilt == if c.degrees > 30 then 1920 else if c.degrees < -30 then -1920 else c.degrees * 64)
    {
      mutex := mutex + [Lock];
      res := 0;
      if c.ResetPanTilt? {
        res := DoReset(works);
      } else if PansCamera(c) {
        res := PanCommand(c, works);
      } else if TiltsCamera(c) {
        res := TiltCommand(c, works);
      } else if c.Unknown? {
        res := -1;
      }
      mutex := mutex + [Unlock];
    }

    /** Over every command sequence and all answers of the device the position stays tracked and
        within its limits, and lock and release alternate. */
    method Session(commands: seq<Command>, answers: seq<bool>)
      requires Tracks() && step >= 0 && mutex == [] && |answers| == |commands|
      modifies this
      ensures Tracks() && -4480 <= pan <= 4480 && -1920 <= tilt <= 1920
      ensures mutex == Alternating(|commands|)
    {
      for i := 0 to |commands|
        invariant Tracks() && mutex == Alternating(i)
      {
        var res := InputCmd(commands[i], answers[i]);
      }
    }
  }

  function Alternating(n: nat): (r: seq<MutexOp>) {
    if n == 0 then [] else Alternating(n - 1) + [Lock, Unlock]
  }
}
