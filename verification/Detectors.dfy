/** Orientation and tap detection of sensor_mpu/tap_detector.c.

    Axis values are integers, as in the driver's records; the filter is taken over exact rationals
    and truncated toward zero when it is stored back. */
module TapDetector {
  import opened Base
  import opened Latch

  const TAP_THRESH := 200
  const LAY_THRESH := 500
  const WARM_UP := 100
  const COUNT_MAX := 101

  datatype Side = NoChange | Top | Bottom | Left | Right | Up | Down

  datatype Vec = Vec(x: int, y: int, z: int)

  const ZERO := Vec(0, 0, 0)

  function Abs(a: int): (r: nat) {
    if a < 0 then -a else a
  }

  /** How far the vector points toward a side. */
  function Along(s: Side, v: Vec): int {
    match s
    case NoChange => 0
    case Left => v.x
    case Right => -v.x
    case Bottom => v.z
    case Top => -v.z
    case Down => v.y
    case Up => -v.y
  }

  /** `_get_side`: a side the vector points toward beyond the threshold, if there is one; the x axis
      goes before z, and z before y. */
  function GetSide(v: Vec): (s: Side)
    ensures s == NoChange <==> forall side: Side :: Along(side, v) <= 500
    ensures s != NoChange ==> Along(s, v) > 500
    ensures Abs(v.x) > 500 ==> s == Left || s == Right
    ensures s == Up || s == Down ==> Abs(v.z) <= 500
  {
    if v.x > LAY_THRESH then Left
    else if v.x < -LAY_THRESH then Right
    else if v.z > LAY_THRESH then Bottom
    else if v.z < -LAY_THRESH then Top
    else if v.y > LAY_THRESH then Down
    else if v.y < -LAY_THRESH then Up
    else
      assert forall side: Side :: Along(side, v) <= LAY_THRESH;
      NoChange
  }

  /** `_detect_tap`: the magnitude along the axis the board rested on has grown past the threshold. */
  function DetectTap(prev: Vec, now: Vec): (tap: bool)
    ensures var s := GetSide(prev);
            tap <==> s != NoChange && Abs(Along(s, now)) - Abs(Along(s, prev)) > 200
  {
    var s := GetSide(prev);
    || ((s == Top || s == Bottom) && Abs(now.z) - Abs(prev.z) > TAP_THRESH)
    || ((s == Left || s == Right) && Abs(now.x) - Abs(prev.x) > TAP_THRESH)
    || ((s == Up || s == Down) && Abs(now.y) - Abs(prev.y) > TAP_THRESH)
  }

  // ----- the truncated filter -----

  /** Division as a C cast to an integer does it. */
  function Trunc(n: int, d: int): int
    requires d > 0
  {
    if n >= 0 then n / d else -(-n / d)
  }

  /** `a * 0.99 + c * 0.01`, stored in an integer: the hundredth part of 99a + c, rounded toward zero. */
  function Filter(a: int, c: int): (r: int)
    ensures 99 * a + c >= 0 ==> 100 * r <= 99 * a + c < 100 * r + 100
    ensures 99 * a + c <= 0 ==> 100 * r - 100 < 99 * a + c <= 100 * r
  {
    Trunc(99 * a + c, 100)
  }

  function Iterate(a: int, c: int, k: nat): int {
    if k == 0 then a else Filter(Iterate(a, c, k - 1), c)
  }

  lemma FilterOdd(a: int, c: int)
    ensures Filter(-a, -c) == -Filter(a, c)
  {
  }

  /** The dead band: the filter rests on a whole interval of inputs, on one side of its value. */
  lemma FilterRestsIff(a: int, c: int)
    ensures Filter(a, c) == a <==>
            (a >= 0 && 0 <= c - a <= 99) || (a <= 0 && 0 <= a - c <= 99)
  {
  }

  /** Rising from 0 toward a constant, it climbs at every step and stops 99 short. */
  lemma {:induction false} RisesToNinetyNineBelow(c: int, k: nat)
    requires c >= 99
    ensures 0 <= Iterate(0, c, k) <= c - 99
    ensures Iterate(0, c, k) < c - 99 ==> Iterate(0, c, k) < Iterate(0, c, k + 1)
    ensures Min(k, c - 99) <= Iterate(0, c, k)
    ensures k >= c - 99 ==> Iterate(0, c, k) == c - 99
  {
    if k > 0 {
      RisesToNinetyNineBelow(c, k - 1);
    }
    ClimbStep(Iterate(0, c, k), c);
  }

  lemma ClimbStep(a: int, c: int)
    requires 0 <= a <= c - 99
    ensures a <= Filter(a, c) <= c - 99 && (a < c - 99 ==> a < Filter(a, c))
  {
  }

  /** Falling from above a constant that is not negative, it sinks at every step and stops on it. */
  lemma {:induction false} FallsToExactly(a: int, c: int, k: nat)
    requires a > c >= 0
    ensures c <= Iterate(a, c, k) <= a
    ensures Iterate(a, c, k) > c ==> Iterate(a, c, k) > Iterate(a, c, k + 1)
    ensures Iterate(a, c, k) <= if k >= a - c then c else a - k
  {
    if k > 0 {
      FallsToExactly(a, c, k - 1);
    }
    SinkStep(Iterate(a, c, k), c);
  }

  lemma SinkStep(a: int, c: int)
    requires a >= c >= 0
    ensures c <= Filter(a, c) <= a && (a > c ==> Filter(a, c) < a)
  {
  }

  function Power(b: nat, k: nat): nat {
    if k == 0 then 1 else b * Power(b, k - 1)
  }

  lemma {:induction false} PowerPositive(b: nat, k: nat)
    requires b > 0
    ensures Power(b, k) > 0
  {
    if k > 0 {
      PowerPositive(b, k - 1);
      ScaledLess(0, b, Power(b, k - 1));
    }
  }

  lemma Scaled(x: int, y: int, p: nat)
    requires x <= y
    ensures x * p <= y * p
  {
    assert 0 <= (y - x) * p;
  }

  lemma ScaledLess(x: int, y: int, p: nat)
    requires x < y && p > 0
    ensures x * p < y * p
  {
    Scaled(x + 1, y, p);
  }

  /** If 100 x <= 99 y, then x at the next power is no more than y at this one. */
  lemma NextPower(x: int, y: int, k: nat)
    requires k > 0 && 100 * x <= 99 * y
    ensures x * Power(100, k) <= 99 * (y * Power(100, k - 1))
  {
    var p := Power(100, k - 1);
    Scaled(100 * x, 99 * y, p);
    assert 100 * x * p == x * Power(100, k) && 99 * y * p == 99 * (y * p);
  }

  /** The same from below. */
  lemma NextPowerBelow(x: int, y: int, k: nat)
    requires k > 0 && 99 * y <= 100 * x
    ensures 99 * (y * Power(100, k - 1)) <= x * Power(100, k)
  {
    var p := Power(100, k - 1);
    Scaled(99 * y, 100 * x, p);
    assert 100 * x * p == x * Power(100, k) && 99 * y * p == 99 * (y * p);
  }

  lemma Ninety(c: int, k: nat)
    requires k > 0
    ensures c * Power(99, k) == 99 * (c * Power(99, k - 1))
  {
    var q := Power(99, k - 1);
    assert c * (99 * q) == 99 * (c * q);
  }

  /** The rise is geometric: after k samples of a constant c the distance to it lies between c 0.99^k
      and (c - 99) 0.99^k + 99. */
  lemma {:induction false} RisesGeometrically(c: int, k: nat)
    requires c >= 99
    ensures var d := c - Iterate(0, c, k);
            && c * Power(99, k) <= d * Power(100, k)
            && (d - 99) * Power(100, k) <= (c - 99) * Power(99, k)
  {
    if k > 0 {
      RisesGeometrically(c, k - 1);
      RisesToNinetyNineBelow(c, k - 1);
      var d, e := c - Iterate(0, c, k), c - Iterate(0, c, k - 1);
      NextPowerBelow(d, e, k);
      NextPower(d - 99, e - 99, k);
      Ninety(c, k);
      Ninety(c - 99, k);
    }
  }

  /** And so is the fall from a to c: the distance left lies between (a - c + 99) 0.99^k - 99 and
      (a - c) 0.99^k. */
  lemma {:induction false} FallsGeometrically(a: int, c: int, k: nat)
    requires a > c >= 0
    ensures var d := Iterate(a, c, k) - c;
            && d * Power(100, k) <= (a - c) * Power(99, k)
            && (a - c + 99) * Power(99, k) <= (d + 99) * Power(100, k)
  {
    if k > 0 {
      FallsGeometrically(a, c, k - 1);
      FallsToExactly(a, c, k - 1);
      var d, e := Iterate(a, c, k) - c, Iterate(a, c, k - 1) - c;
      NextPower(d, e, k);
      NextPowerBelow(d + 99, e + 99, k);
      Ninety(a - c, k);
      Ninety(a - c + 99, k);
    }
  }

  /** Inputs within m + 99 cannot push the filter past m. */
  lemma FilterBand(a: int, c: int, m: nat)
    requires Abs(a) <= m && Abs(c) <= m + 99
    ensures Abs(Filter(a, c)) <= m
  {
  }

  // ----- the detection loop -----

  /** The loop's state: the filtered and the previous sample, the previous side, the warm-up counter
      and `sensor_fired`. */
  datatype State = State(smooth: Vec, prev: Vec, sidePrev: Side, count: int, fired: bool)

  /** One iteration's surroundings: `connection_status`, the sample read, and whether the detection
      thread has reported and cleared `sensor_fired` since the last one. */
  datatype Input = Input(connected: bool, sample: Vec, cleared: bool)

  const INIT := State(ZERO, ZERO, NoChange, 0, false)

  function Smooth(a: Vec, c: Vec): Vec {
    Vec(Filter(a.x, c.x), Filter(a.y, c.y), Filter(a.z, c.z))
  }

  /** The counter at the start of an iteration: a disconnected loop sleeps and starts over. */
  function Awake(count: int, connected: bool): int {
    if connected then count else 0
  }

  function Bump(count: int): int {
    if count < COUNT_MAX then count + 1 else count
  }

  function Step(s: State, i: Input): State {
    var count := Awake(s.count, i.connected);
    var smooth := Smooth(s.smooth, i.sample);
    var side := GetSide(smooth);
    var event := DetectTap(s.prev, i.sample) || (side != s.sidePrev && side != NoChange);
    State(smooth, i.sample, side, Bump(count), (s.fired && !i.cleared) || (event && count > WARM_UP))
  }

  function Run(s: State, ins: seq<Input>): State {
    if ins == [] then s else Step(Run(s, ins[..|ins| - 1]), ins[|ins| - 1])
  }

  /** One device, with the loop's variables as its fields. */
  class Detector {
    var acclSide: Vec
    var acclPrev: Vec
    var sidePrev: Side
    var count: int
    var sensorFired: bool

    function Value(): State
      reads this
    {
      State(acclSide, acclPrev, sidePrev, count, sensorFired)
    }

    constructor ()
      ensures Value() == INIT
    {
      acclSide, acclPrev, sidePrev, count, sensorFired := ZERO, ZERO, NoChange, 0, false;
    }

    /** The body of `sensor_detection_loop`. */
    method Iteration(i: Input)
      modifies this
      ensures Value() == Step(old(Value()), i)
    {
      if i.cleared {
        sensorFired := false;
      }
      if !i.connected {
        count := 0;
      }
      var accl := i.sample;
      if DetectTap(acclPrev, accl) {
        if count > WARM_UP {
          sensorFired := true;
        }
      }
      acclSide := Vec(Filter(acclSide.x, accl.x), Filter(acclSide.y, accl.y), Filter(acclSide.z, accl.z));
      var side := GetSide(acclSide);
      if side != sidePrev && side != NoChange {
        if count > WARM_UP {
          sensorFired := true;
        }
      }
      sidePrev := side;
      if count < COUNT_MAX {
        count := count + 1;
      }
      acclPrev := accl;
    }

    /** `sensor_detection_loop`, for as many iterations as there are inputs. */
    method DetectionLoop(ins: seq<Input>)
      modifies this
      ensures Value() == Run(old(Value()), ins)
    {
      var k := 0;
      while k < |ins|
        invariant 0 <= k <= |ins|
        invariant Value() == Run(old(Value()), ins[..k])
      {
        Iteration(ins[k]);
        assert ins[..k + 1][..k] == ins[..k];
        k := k + 1;
      }
      assert ins[..|ins|] == ins;
    }
  }

  // ----- orientation -----

  predicate Within(v: Vec, m: nat) {
    Abs(v.x) <= m && Abs(v.y) <= m && Abs(v.z) <= m
  }

  /** No stream of samples within 599 on every axis is ever taken for a change of side, although
      the threshold reads 500. */
  lemma {:induction false} NoSideBelow600(ins: seq<Input>)
    requires forall j :: 0 <= j < |ins| ==> Within(ins[j].sample, 599)
    ensures Within(Run(INIT, ins).smooth, 500) && Run(INIT, ins).sidePrev == NoChange
  {
    if ins != [] {
      var s, c := Run(INIT, ins[..|ins| - 1]).smooth, ins[|ins| - 1].sample;
      NoSideBelow600(ins[..|ins| - 1]);
      FilterBand(s.x, c.x, LAY_THRESH);
      FilterBand(s.y, c.y, LAY_THRESH);
      FilterBand(s.z, c.z, LAY_THRESH);
    }
  }

  lemma {:induction false} SteadyX(ins: seq<Input>, c: int)
    requires forall j :: 0 <= j < |ins| ==> ins[j].sample.x == c
    ensures Run(INIT, ins).smooth.x == Iterate(0, c, |ins|)
  {
    if ins != [] {
      SteadyX(ins[..|ins| - 1], c);
    }
  }

  /** A steady x reading is taken for LEFT from the 501st sample on when it is at least 600, whatever
      the other axes do, and never when it is less. */
  lemma LeftIff600(ins: seq<Input>, c: int)
    requires c >= 0 && |ins| > 500 && forall j :: 0 <= j < |ins| ==> ins[j].sample.x == c
    ensures Run(INIT, ins).sidePrev == Left <==> c >= 600
  {
    SteadyX(ins, c);
    if c >= LAY_THRESH + 100 {
      RisesToNinetyNineBelow(c, |ins|);
    } else {
      SteadyBelow(c, |ins|);
    }
  }

  /** What the filter has made of a sequence of readings on one axis, from 0 on. */
  function Filtered(readings: seq<int>): int {
    if readings == [] then 0 else Filter(Filtered(readings[..|readings| - 1]), readings[|readings| - 1])
  }

  function AxisX(ins: seq<Input>): seq<int> {
    seq(|ins|, j requires 0 <= j < |ins| => ins[j].sample.x)
  }

  function AxisY(ins: seq<Input>): seq<int> {
    seq(|ins|, j requires 0 <= j < |ins| => ins[j].sample.y)
  }

  function AxisZ(ins: seq<Input>): seq<int> {
    seq(|ins|, j requires 0 <= j < |ins| => ins[j].sample.z)
  }

  /** Each axis is filtered on its own, from its own readings, asleep or not. */
  lemma {:induction false} AxesApart(ins: seq<Input>)
    ensures Run(INIT, ins).smooth == Vec(Filtered(AxisX(ins)), Filtered(AxisY(ins)), Filtered(AxisZ(ins)))
  {
    if ins != [] {
      var init := ins[..|ins| - 1];
      AxesApart(init);
      assert AxisX(ins)[..|ins| - 1] == AxisX(init);
      assert AxisY(ins)[..|ins| - 1] == AxisY(init);
      assert AxisZ(ins)[..|ins| - 1] == AxisZ(init);
      hide Filter, GetSide, DetectTap;
    }
  }

  lemma {:induction false} FilteredSteady(readings: seq<int>, c: int)
    requires forall j :: 0 <= j < |readings| ==> readings[j] == c
    ensures Filtered(readings) == Iterate(0, c, |readings|)
  {
    if readings != [] {
      FilteredSteady(readings[..|readings| - 1], c);
    }
  }

  lemma {:induction false} IterateOdd(c: int, k: nat)
    ensures Iterate(0, -c, k) == -Iterate(0, c, k)
  {
    if k > 0 {
      IterateOdd(c, k - 1);
      FilterOdd(Iterate(0, c, k - 1), c);
    }
  }

  /** After 501 samples a steady reading is beyond the threshold exactly from 600 on. */
  lemma SteadyBeyondIff(c: int, k: nat)
    requires k > 500
    ensures Iterate(0, c, k) > 500 <==> c >= 600
    ensures Iterate(0, c, k) < -500 <==> c <= -600
  {
    hide Iterate, Filter;
    IterateOdd(c, k);
    if c >= 600 {
      RisesToNinetyNineBelow(c, k);
    } else if c >= 0 {
      SteadyBelow(c, k);
    } else if c > -600 {
      SteadyBelow(-c, k);
    } else {
      RisesToNinetyNineBelow(-c, k);
    }
  }

  /** A board at rest: from the 501st sample of a constant acceleration on, the side it lies on is the one
      whose axis reads at least 600, x before z before y, and none when all read less. */
  lemma RestingSide(ins: seq<Input>, v: Vec)
    requires |ins| > 500 && forall j :: 0 <= j < |ins| ==> ins[j].sample == v
    ensures Run(INIT, ins).sidePrev ==
            if v.x >= 600 then Left else if v.x <= -600 then Right
            else if v.z >= 600 then Bottom else if v.z <= -600 then Top
            else if v.y >= 600 then Down else if v.y <= -600 then Up
            else NoChange
  {
    AxesApart(ins);
    FilteredSteady(AxisX(ins), v.x);
    FilteredSteady(AxisY(ins), v.y);
    FilteredSteady(AxisZ(ins), v.z);
    SteadyBeyondIff(v.x, |ins|);
    SteadyBeyondIff(v.y, |ins|);
    SteadyBeyondIff(v.z, |ins|);
    PreviousIsHistory(ins);
    hide Filter, Filtered, Iterate;
  }

  /** When the side turns: from 600 on, a steady x reading of c is LEFT as soon as 0.99^k has come down to
      (c - 600) / (c - 99), and not as long as 0.99^k is at least (c - 500) / c. */
  lemma TurnsLeft(ins: seq<Input>, c: int)
    requires c >= 600 && forall j :: 0 <= j < |ins| ==> ins[j].sample.x == c
    ensures var k := |ins|;
            && ((c - 99) * Power(99, k) <= (c - 600) * Power(100, k) ==> GetSide(Run(INIT, ins).smooth) == Left)
            && (c * Power(99, k) >= (c - 500) * Power(100, k) ==> GetSide(Run(INIT, ins).smooth) != Left)
  {
    var k := |ins|;
    SteadyX(ins, c);
    RisesGeometrically(c, k);
    PowerPositive(100, k);
    hide Iterate, Filter, Power, Run, GetSide;
    var d := c - Iterate(0, c, k);
    if d - 99 > c - 600 {
      ScaledLess(c - 600, d - 99, Power(100, k));
    }
    if d < c - 500 {
      ScaledLess(d, c - 500, Power(100, k));
    }
  }

  lemma {:induction false} SteadyBelow(c: int, k: nat)
    requires 0 <= c <= LAY_THRESH + 99
    ensures Abs(Iterate(0, c, k)) <= LAY_THRESH
  {
    if k > 0 {
      SteadyBelow(c, k - 1);
      FilterBand(Iterate(0, c, k - 1), c, LAY_THRESH);
    }
  }

  // ----- taps -----

  predicate Near(a: Vec, b: Vec) {
    Abs(a.x - b.x) <= 200 && Abs(a.y - b.y) <= 200 && Abs(a.z - b.z) <= 200
  }

  /** The sample before the k-th; before the first, the zero record. */
  function Before(ins: seq<Input>, k: nat): Vec
    requires k < |ins|
  {
    if k == 0 then ZERO else ins[k - 1].sample
  }

  lemma PrevIsBefore(ins: seq<Input>, k: nat)
    requires k < |ins|
    ensures Run(INIT, ins[..k]).prev == Before(ins, k)
  {
  }

  /** Slow motion never counts as a tap, however far it goes in the end. */
  lemma SlowMotionNeverTaps(ins: seq<Input>, k: nat)
    requires k < |ins| && forall j :: 0 <= j < |ins| ==> Near(ins[j].sample, Before(ins, j))
    ensures !DetectTap(Run(INIT, ins[..k]).prev, ins[k].sample)
  {
    PrevIsBefore(ins, k);
    assert Near(ins[k].sample, Before(ins, k));
  }

  // ----- mirror images -----

  function Negate(v: Vec): Vec {
    Vec(-v.x, -v.y, -v.z)
  }

  function Opposite(s: Side): Side {
    match s
    case NoChange => NoChange
    case Top => Bottom
    case Bottom => Top
    case Left => Right
    case Right => Left
    case Up => Down
    case Down => Up
  }

  function MirrorState(s: State): State {
    s.(smooth := Negate(s.smooth), prev := Negate(s.prev), sidePrev := Opposite(s.sidePrev))
  }

  function MirrorInputs(ins: seq<Input>): (r: seq<Input>)
    ensures |r| == |ins|
  {
    if ins == [] then []
    else MirrorInputs(ins[..|ins| - 1]) + [ins[|ins| - 1].(sample := Negate(ins[|ins| - 1].sample))]
  }

  lemma MirrorSide(v: Vec)
    ensures GetSide(Negate(v)) == Opposite(GetSide(v))
  {
  }

  /** Negating every axis takes each side to its opposite and leaves tap detection unchanged. */
  lemma MirrorTap(prev: Vec, now: Vec)
    ensures DetectTap(Negate(prev), Negate(now)) <==> DetectTap(prev, now)
  {
    MirrorSide(prev);
  }

  lemma MirrorSmooth(a: Vec, c: Vec)
    ensures Smooth(Negate(a), Negate(c)) == Negate(Smooth(a, c))
  {
    FilterOdd(a.x, c.x);
    FilterOdd(a.y, c.y);
    FilterOdd(a.z, c.z);
  }

  lemma MirrorStep(s: State, i: Input)
    ensures Step(MirrorState(s), i.(sample := Negate(i.sample))) == MirrorState(Step(s, i))
  {
    MirrorSmooth(s.smooth, i.sample);
    MirrorSide(Smooth(s.smooth, i.sample));
    MirrorTap(s.prev, i.sample);
    var side := GetSide(Smooth(s.smooth, i.sample));
    assert Opposite(s.sidePrev) == Opposite(side) <==> s.sidePrev == side;
    hide GetSide, DetectTap, Filter, Smooth;
  }

  /** Turning every sample around turns every side around and fires at the same iterations. */
  lemma {:induction false} MirrorRun(s: State, ins: seq<Input>)
    ensures Run(MirrorState(s), MirrorInputs(ins)) == MirrorState(Run(s, ins))
  {
    if ins != [] {
      var init := ins[..|ins| - 1];
      MirrorRun(s, init);
      MirrorStep(Run(s, init), ins[|ins| - 1]);
      assert MirrorInputs(ins)[..|ins| - 1] == MirrorInputs(init);
    }
  }

  // ----- the warm-up gate -----

  /** Iterations completed since the loop last slept, or since it started. */
  function SinceSleep<T>(ins: seq<T>, connected: T -> bool): nat {
    if ins == [] then 0
    else 1 + if connected(ins[|ins| - 1]) then SinceSleep(ins[..|ins| - 1], connected) else 0
  }

  lemma {:induction false} CountIsSinceSleep(ins: seq<Input>)
    ensures Run(INIT, ins).count == Min(101, SinceSleep(ins, (i: Input) => i.connected))
  {
    if ins != [] {
      CountIsSinceSleep(ins[..|ins| - 1]);
    }
  }

  function Latest(ins: seq<Input>): Vec {
    if ins == [] then ZERO else ins[|ins| - 1].sample
  }

  /** The side the filtered samples show. */
  function SideAfter(ins: seq<Input>): Side {
    GetSide(Run(INIT, ins).smooth)
  }

  lemma PreviousIsHistory(ins: seq<Input>)
    ensures Run(INIT, ins).prev == Latest(ins) && Run(INIT, ins).sidePrev == SideAfter(ins)
  {
  }

  /** Iteration k finds the loop warm, and the sample a tap against the one before it, or the filtered
      samples turning to a side other than the one they showed. */
  predicate RaisesAt(ins: seq<Input>, k: nat) {
    && k < |ins| && ins[k].connected
    && SinceSleep(ins[..k], (i: Input) => i.connected) >= 101
    && (DetectTap(Latest(ins[..k]), ins[k].sample) || SideAfter(ins[..k + 1]) !in {SideAfter(ins[..k]), NoChange})
  }

  predicate ClearedAt(ins: seq<Input>, k: nat) {
    k < |ins| && ins[k].cleared
  }

  predicate FiredAfter(ins: seq<Input>, k: nat) {
    k <= |ins| && Run(INIT, ins[..k]).fired
  }

  lemma FiredMoves(ins: seq<Input>, k: nat)
    requires k < |ins|
    ensures FiredAfter(ins, k + 1) <==> RaisesAt(ins, k) || (FiredAfter(ins, k) && !ClearedAt(ins, k))
  {
    assert ins[..k + 1][..k] == ins[..k];
    CountIsSinceSleep(ins[..k]);
    PreviousIsHistory(ins[..k]);
    hide GetSide, DetectTap, Smooth;
  }

  /** In every run `sensor_fired` is up if and only if some iteration has raised it, and the detection
      thread has not cleared it since: an iteration of the loop never lowers it. */
  lemma FiredIff(ins: seq<Input>)
    ensures Run(INIT, ins).fired <==>
            Latched((k: nat) => RaisesAt(ins, k), (k: nat) => ClearedAt(ins, k), |ins|)
  {
    assert ins[..0] == [] && ins[..|ins|] == ins;
    assert !FiredAfter(ins, 0) && FiredAfter(ins, |ins|) == Run(INIT, ins).fired;
    hide *;
    forall k: nat | k < |ins|
      ensures FiredAfter(ins, k + 1) <==> RaisesAt(ins, k) || (FiredAfter(ins, k) && !ClearedAt(ins, k))
    {
      FiredMoves(ins, k);
    }
    HoldsIffLatched((k: nat) => RaisesAt(ins, k), (k: nat) => ClearedAt(ins, k),
                    (k: nat) => FiredAfter(ins, k), |ins|);
  }
}

/** sensor_ir/ir_detector.c: the same gate around a light barrier. */
module IrDetector {
  import opened Base
  import opened Latch
  import T = TapDetector

  datatype State = State(count: int, fired: bool)

  /** `blocked` is a low reading of the pin. */
  datatype Input = Input(connected: bool, blocked: bool, cleared: bool)

  const INIT := State(0, false)

  function Step(s: State, i: Input): State {
    var count := T.Awake(s.count, i.connected);
    State(T.Bump(count), (s.fired && !i.cleared) || (i.blocked && count > T.WARM_UP))
  }

  function Run(s: State, ins: seq<Input>): State {
    if ins == [] then s else Step(Run(s, ins[..|ins| - 1]), ins[|ins| - 1])
  }

  class Detector {
    var count: int
    var sensorFired: bool

    function Value(): State
      reads this
    {
      State(count, sensorFired)
    }

    constructor ()
      ensures Value() == INIT
    {
      count, sensorFired := 0, false;
    }

    /** `sensor_detection_loop`, for as many iterations as there are inputs. */
    method DetectionLoop(ins: seq<Input>)
      modifies this
      ensures Value() == Run(old(Value()), ins)
    {
      var k := 0;
      while k < |ins|
        invariant 0 <= k <= |ins|
        invariant Value() == Run(old(Value()), ins[..k])
      {
        if ins[k].cleared {
          sensorFired := false;
        }
        if !ins[k].connected {
          count := 0;
        }
        if ins[k].blocked {
          if count > T.WARM_UP {
            sensorFired := true;
          }
        }
        if count < T.COUNT_MAX {
          count := count + 1;
        }
        assert ins[..k + 1][..k] == ins[..k];
        k := k + 1;
      }
      assert ins[..|ins|] == ins;
    }
  }

  lemma {:induction false} CountIsSinceSleep(ins: seq<Input>)
    ensures Run(INIT, ins).count == Min(101, T.SinceSleep(ins, (i: Input) => i.connected))
  {
    if ins != [] {
      CountIsSinceSleep(ins[..|ins| - 1]);
    }
  }

  /** Iteration k finds the loop warm and an object in the barrier. */
  predicate RaisesAt(ins: seq<Input>, k: nat) {
    && k < |ins| && ins[k].connected && ins[k].blocked
    && T.SinceSleep(ins[..k], (i: Input) => i.connected) >= 101
  }

  predicate ClearedAt(ins: seq<Input>, k: nat) {
    k < |ins| && ins[k].cleared
  }

  predicate FiredAfter(ins: seq<Input>, k: nat) {
    k <= |ins| && Run(INIT, ins[..k]).fired
  }

  lemma FiredMoves(ins: seq<Input>, k: nat)
    requires k < |ins|
    ensures FiredAfter(ins, k + 1) <==> RaisesAt(ins, k) || (FiredAfter(ins, k) && !ClearedAt(ins, k))
  {
    assert ins[..k + 1][..k] == ins[..k];
    CountIsSinceSleep(ins[..k]);
  }

  /** The same law: up if and only if an object was seen while warm, and nothing has cleared it since. */
  lemma FiredIff(ins: seq<Input>)
    ensures Run(INIT, ins).fired <==>
            Latched((k: nat) => RaisesAt(ins, k), (k: nat) => ClearedAt(ins, k), |ins|)
  {
    assert ins[..0] == [] && ins[..|ins|] == ins;
    assert !FiredAfter(ins, 0) && FiredAfter(ins, |ins|) == Run(INIT, ins).fired;
    hide *;
    forall k: nat | k < |ins|
      ensures FiredAfter(ins, k + 1) <==> RaisesAt(ins, k) || (FiredAfter(ins, k) && !ClearedAt(ins, k))
    {
      FiredMoves(ins, k);
    }
    HoldsIffLatched((k: nat) => RaisesAt(ins, k), (k: nat) => ClearedAt(ins, k),
                    (k: nat) => FiredAfter(ins, k), |ins|);
  }
}
