/** The fixed-timestep loop of the main program: each frame's duration is
    added to an accumulator, and the physics schedules run once for every
    whole step the accumulator holds. The schedules themselves are counted,
    not run. */
module Timestep {
  /** The time resource: the fixed step and the time not yet simulated. */
  datatype Time = Time(delta: real, accumulator: real)

  const Framerate: real := 60.0

  /** `Time::new`: a step of one frame at the given rate, and one whole
      step already accumulated. */
  function NewTime(framerate: real): (t: Time)
    requires framerate > 0.0
    ensures t.delta > 0.0 && t.delta * framerate == 1.0
    ensures t.accumulator == t.delta
  {
    var timestep := 1.0 / framerate;
    Time(timestep, timestep)
  }

  lemma DivMul(x: real, d: real)
    requires d > 0.0
    ensures (x / d) * d == x
  {
  }

  lemma MulSign(a: real, d: real)
    requires d > 0.0
    ensures a >= 0.0 <==> a * d >= 0.0
  {
    if a < 0.0 {
      assert (-a) * d > 0.0;
      assert a * d == -((-a) * d);
    }
  }

  lemma MulDistributes(a: real, b: real, d: real)
    ensures (a - b) * d == a * d - b * d
  {
  }

  /** Cutting a total into whole steps and a remainder below one step
      determines the number of steps. */
  lemma WholeSteps(total: real, delta: real, k: int, rem: real)
    requires delta > 0.0 && 0.0 <= rem < delta && total == k as real * delta + rem
    ensures (total / delta).Floor == k
  {
    var q := total / delta;
    DivMul(total, delta);
    MulDistributes(q, k as real, delta);
    MulDistributes(q - k as real, 1.0, delta);
    MulSign(q - k as real, delta);
    MulSign(q - k as real - 1.0, delta);
  }

  /** Taking one step off an accumulator lowers its whole-step count by one. */
  lemma StepOff(acc: real, delta: real)
    requires delta > 0.0 && acc >= delta
    ensures (acc / delta).Floor >= 1
    ensures ((acc - delta) / delta).Floor == (acc / delta).Floor - 1
  {
    DivMul(acc - delta, delta);
    DivMul(acc, delta);
    var e := (acc - delta) / delta - (acc / delta - 1.0);
    MulDistributes((acc - delta) / delta, acc / delta - 1.0, delta);
    MulDistributes(acc / delta, 1.0, delta);
    MulSign(e, delta);
    MulSign(-e, delta);
    assert (-e) * delta == -(e * delta);
    MulSign(acc / delta - 1.0, delta);
  }

  /** One frame: the frame time is accumulated and a tick runs while at
      least one whole step is left; each tick consumes one step. */
  method Frame(t: Time, frameTime: real) returns (t': Time, ticks: nat)
    requires t.delta > 0.0 && t.accumulator + frameTime >= 0.0
    ensures t'.delta == t.delta
    ensures 0.0 <= t'.accumulator < t.delta
    ensures t.accumulator + frameTime == ticks as real * t.delta + t'.accumulator
    ensures ticks == ((t.accumulator + frameTime) / t.delta).Floor
  {
    t' := t.(accumulator := t.accumulator + frameTime);
    ticks := 0;
    while t'.accumulator >= t'.delta
      invariant t'.delta == t.delta && t'.accumulator >= 0.0
      invariant t.accumulator + frameTime == ticks as real * t.delta + t'.accumulator
      decreases (t'.accumulator / t'.delta).Floor
    {
      StepOff(t'.accumulator, t'.delta);
      t' := t'.(accumulator := t'.accumulator - t'.delta);
      ticks := ticks + 1;
    }
    WholeSteps(t.accumulator + frameTime, t.delta, ticks, t'.accumulator);
  }

  function Sum(s: seq<real>): real {
    if |s| == 0 then 0.0 else Sum(s[..|s| - 1]) + s[|s| - 1]
  }

  /** The frames of a run, from `Time::new(60)`: the whole simulated time
      plus the unsimulated remainder is the initial step plus the frame
      times, the remainder stays below a step, and the first frame always
      runs a tick. */
  method RunFrames(frameTimes: seq<real>) returns (t: Time, ticks: nat)
    requires forall i :: 0 <= i < |frameTimes| ==> frameTimes[i] >= 0.0
    ensures t.delta == NewTime(Framerate).delta
    ensures 0.0 <= t.accumulator <= t.delta
    ensures |frameTimes| > 0 ==> t.accumulator < t.delta && ticks >= 1
    ensures ticks as real * t.delta + t.accumulator == t.delta + Sum(frameTimes)
  {
    t := NewTime(Framerate);
    ticks := 0;
    var k := 0;
    while k < |frameTimes|
      invariant 0 <= k <= |frameTimes|
      invariant t.delta == NewTime(Framerate).delta && 0.0 <= t.accumulator <= t.delta
      invariant k == 0 ==> t.accumulator == t.delta
      invariant k > 0 ==> t.accumulator < t.delta && ticks >= 1
      invariant ticks as real * t.delta + t.accumulator == t.delta + Sum(frameTimes[..k])
    {
      assert frameTimes[..k + 1][..k] == frameTimes[..k];
      var n;
      t, n := Frame(t, frameTimes[k]);
      ticks := ticks + n;
      k := k + 1;
    }
    assert frameTimes[..k] == frameTimes;
  }
}
