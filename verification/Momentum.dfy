/** Momentum scrolling of the photo wheel, in real arithmetic (`photowheel-momentum.ts`). */
module Momentum {

  datatype State = IDLE | MOMENTUM
  datatype Settings = Settings(itemCount: int, friction: real, minVelocity: real, stepThreshold: real)
  datatype Frame = Frame(activeIndex: int, velocity: real, accumulator: real, state: State, cancelledByBoundary: bool)

  const MOMENTUM_FRICTION := 0.92
  const MOMENTUM_MIN_VELOCITY_PX_PER_MS := 0.05
  const MOMENTUM_STEP_THRESHOLD_PX := 60.0

  function Abs(x: real): real {
    if x < 0.0 then -x else x
  }

  function ClampIndex(index: int, itemCount: int): int {
    if itemCount <= 0 then 0
    else if index < 0 then 0
    else if index > itemCount - 1 then itemCount - 1
    else index
  }

  predicate InRange(index: int, itemCount: int) {
    0 <= index < itemCount
  }

  /** x taken n times, n of either sign. */
  ghost function Multiple(n: int, x: real): real
    decreases if n < 0 then -n else n
  {
    if n == 0 then 0.0 else if n > 0 then Multiple(n - 1, x) + x else Multiple(n + 1, x) - x
  }

  lemma {:induction false} MultipleIsProduct(n: int, x: real)
    ensures Multiple(n, x) == n as real * x
    decreases if n < 0 then -n else n
  {
    if n > 0 {
      MultipleIsProduct(n - 1, x);
      assert n as real * x == (n - 1) as real * x + x;
    } else if n < 0 {
      MultipleIsProduct(n + 1, x);
      assert n as real * x == (n + 1) as real * x - x;
    }
  }

  lemma MultipleStep(n: int, x: real)
    ensures Multiple(n + 1, x) == Multiple(n, x) + x && Multiple(n - 1, x) == Multiple(n, x) - x
  {
  }

  /** An index past the end towards which the wheel turns is first pulled back. */
  ghost function Stray(index: int, itemCount: int, up: bool): nat {
    if (if up then index >= itemCount else index < 0) then 1 else 0
  }

  ghost function Room(index: int, itemCount: int, up: bool): nat {
    if up then (if index < itemCount then itemCount - index else 0) else (if index > 0 then index else 0)
  }

  /** The stepping loop: whole steps are taken off the accumulator until less than one is left or an end is hit. */
  method TakeSteps(itemCount: int, threshold: real, index: int, accumulator: real)
    returns (next: int, left: real, stopped: bool)
    requires itemCount > 0
    ensures InRange(index, itemCount) ==> InRange(next, itemCount)
    ensures !stopped ==> Abs(left) < threshold
    ensures InRange(index, itemCount) ==> Multiple(next - index, threshold) + left == accumulator
    ensures stopped ==> Abs(left) >= threshold
    ensures stopped && InRange(index, itemCount) ==> next == if left > 0.0 then itemCount - 1 else 0
  {
    next, left, stopped := index, accumulator, false;
    ghost var up := accumulator > 0.0;
    while Abs(left) >= threshold
      invariant InRange(index, itemCount) ==> InRange(next, itemCount)
      invariant InRange(index, itemCount) ==> Multiple(next - index, threshold) + left == accumulator
      invariant up ==> left > 0.0 || (threshold > 0.0 && left >= 0.0)
      invariant !up ==> left <= 0.0
      invariant !stopped
      decreases Stray(next, itemCount, up), Room(next, itemCount, up)
    {
      var direction := if left > 0.0 then 1 else -1;
      var bounded := ClampIndex(next + direction, itemCount);
      if bounded == next {
        stopped := true;
        return;
      }
      MultipleStep(next - index, threshold);
      next := bounded;
      left := if direction == 1 then left - threshold else left + threshold;
    }
  }

  /** One animation frame. Distance is conserved: whole steps taken plus what is left over make up what was carried
      and added. */
  method StepFrame(s: Settings, index: int, velocity: real, accumulator: real, dt: real) returns (r: Frame)
    ensures s.itemCount <= 0 ==> r == Frame(0, 0.0, 0.0, IDLE, false)
    ensures s.itemCount > 0 && Abs(velocity * s.friction) < s.minVelocity ==> r == Frame(index, 0.0, 0.0, IDLE, false)
    ensures InRange(index, s.itemCount) ==> InRange(r.activeIndex, s.itemCount)
    ensures r.state.MOMENTUM? ==> r.velocity == velocity * s.friction && Abs(r.velocity) >= s.minVelocity
    ensures r.state.MOMENTUM? ==> Abs(r.accumulator) < s.stepThreshold && !r.cancelledByBoundary
    ensures r.state.MOMENTUM? && InRange(index, s.itemCount) ==>
      (r.activeIndex - index) as real * s.stepThreshold + r.accumulator == accumulator + r.velocity * dt
    ensures r.state.IDLE? ==> r.velocity == 0.0 && r.accumulator == 0.0
    ensures r.state.IDLE? && !r.cancelledByBoundary <==> s.itemCount <= 0 || Abs(velocity * s.friction) < s.minVelocity
    ensures r.cancelledByBoundary && InRange(index, s.itemCount) ==>
      var untaken :=
        accumulator + velocity * s.friction * dt - (r.activeIndex - index) as real * s.stepThreshold;
      Abs(untaken) >= s.stepThreshold && r.activeIndex == if untaken > 0.0 then s.itemCount - 1 else 0
  {
    if s.itemCount <= 0 {
      return Frame(0, 0.0, 0.0, IDLE, false);
    }
    var v := velocity * s.friction;
    if Abs(v) < s.minVelocity {
      return Frame(index, 0.0, 0.0, IDLE, false);
    }
    var next, left, stopped := TakeSteps(s.itemCount, s.stepThreshold, index, accumulator + v * dt);
    MultipleIsProduct(next - index, s.stepThreshold);
    if stopped {
      return Frame(next, 0.0, 0.0, IDLE, true);
    }
    return Frame(next, v, left, MOMENTUM, false);
  }

  /** The least speed a frame takes away while the wheel keeps turning. */
  function Loss(s: Settings): real {
    s.minVelocity * (1.0 - s.friction)
  }

  lemma Product(a: real, b: real)
    ensures a > 0.0 && b > 0.0 ==> a * b > 0.0
    ensures a >= 0.0 && b >= 0.0 ==> a * b >= 0.0
  {
  }

  /** Frames until rest, computed from the start velocity. */
  function FrameBound(s: Settings, velocity: real): int
    requires 0.0 <= s.friction < 1.0 && s.minVelocity > 0.0
  {
    Product(s.minVelocity, 1.0 - s.friction);
    (Abs(velocity) / Loss(s)).Floor + 1
  }

  /** A frame that keeps turning loses at least `Loss`. */
  lemma FrameLoses(s: Settings, v: real)
    requires 0.0 <= s.friction < 1.0 && s.minVelocity > 0.0 && Abs(v * s.friction) >= s.minVelocity
    ensures Abs(v * s.friction) <= Abs(v) - Loss(s)
  {
    var a, rest := Abs(v), 1.0 - s.friction;
    Product(a, s.friction);
    Product(a, rest);
    assert a * s.friction + a * rest == a;
    assert Abs(v * s.friction) == a * s.friction;
    Product(a - s.minVelocity, rest);
    assert (a - s.minVelocity) * rest == a * rest - s.minVelocity * rest;
  }

  lemma Quotient(n: real, loss: real, speed: real)
    requires loss > 0.0 && n * loss <= speed
    ensures n <= speed / loss
  {
    var q := speed / loss;
    assert q * loss == speed;
    assert (q - n) * loss >= 0.0;
  }

  lemma CountBound(n: nat, loss: real, speed: real)
    requires loss > 0.0 && Multiple(n, loss) <= speed
    ensures n <= (speed / loss).Floor
  {
    MultipleIsProduct(n, loss);
    Quotient(n as real, loss, speed);
  }

  /** One frame as the speed sees it: at rest, or slower by at least the loss. */
  method SlowDown(s: Settings, f: Frame, dt: real, ghost loss: real) returns (r: Frame)
    requires 0.0 <= s.friction < 1.0 && s.minVelocity > 0.0 && loss == Loss(s)
    ensures InRange(f.activeIndex, s.itemCount) ==> InRange(r.activeIndex, s.itemCount)
    ensures r.state.MOMENTUM? ==> Abs(r.velocity) <= Abs(f.velocity) - loss
  {
    r := StepFrame(s, f.activeIndex, f.velocity, f.accumulator, dt);
    if r.state.MOMENTUM? {
      FrameLoses(s, f.velocity);
    }
  }

  /** Repeated frames reach IDLE within the bound, whatever the frame times are, and keep the index valid. */
  method SpinDown(s: Settings, index: int, velocity: real, accumulator: real, dts: nat -> real)
    returns (last: Frame, frames: nat)
    requires 0.0 <= s.friction < 1.0 && s.minVelocity > 0.0
    ensures last.state.IDLE? && frames <= FrameBound(s, velocity)
    ensures InRange(index, s.itemCount) ==> InRange(last.activeIndex, s.itemCount)
  {
    ghost var loss, bound := Loss(s), FrameBound(s, velocity);
    Product(s.minVelocity, 1.0 - s.friction);
    last, frames := Frame(index, velocity, accumulator, MOMENTUM, false), 0;
    CountBound(0, loss, Abs(velocity));
    while last.state.MOMENTUM?
      invariant InRange(index, s.itemCount) ==> InRange(last.activeIndex, s.itemCount)
      invariant last.state.MOMENTUM? ==> frames < bound && Multiple(frames, loss) <= Abs(velocity) - Abs(last.velocity)
      invariant frames <= bound
      decreases bound - frames
    {
      last := SlowDown(s, last, dts(frames), loss);
      frames := frames + 1;
      if last.state.MOMENTUM? {
        CountBound(frames, loss, Abs(velocity));
      }
    }
  }

  /** The settings a frame uses when its input gives none. */
  function Defaults(itemCount: int): Settings {
    Settings(itemCount, MOMENTUM_FRICTION, MOMENTUM_MIN_VELOCITY_PX_PER_MS, MOMENTUM_STEP_THRESHOLD_PX)
  }

  /** With the default settings a wheel released at v pixels per millisecond rests after at most 250 |v| + 1 frames. */
  lemma DefaultBound(itemCount: int, v: real)
    ensures FrameBound(Defaults(itemCount), v) as real <= 250.0 * Abs(v) + 1.0
  {
    var s := Defaults(itemCount);
    assert Loss(s) == 0.004;
    assert Abs(v) / 0.004 == 250.0 * Abs(v);
  }
}
