/** Easing curves, scroll animations and the crossfade opacity ramp.
    `f64` is modelled by `real`; rounding of the arithmetic is not modelled. */
module Animation {

  datatype Easing = Linear | EaseOut | EaseIn | EaseInOut

  function Clamp01(t: real): real {
    if t < 0.0 then 0.0 else if t > 1.0 then 1.0 else t
  }

  function Cube(x: real): real { x * x * x }

  function Apply(easing: Easing, progress: real): real {
    Curve(easing, Clamp01(progress))
  }

  function Curve(easing: Easing, t: real): real {
    match easing
    case Linear => t
    case EaseOut => 1.0 - Cube(1.0 - t)
    case EaseIn => Cube(t)
    case EaseInOut =>
      if t < 0.5 then 4.0 * Cube(t) else 1.0 - Cube(-2.0 * t + 2.0) / 2.0
  }

  lemma NonNegativeProduct(a: real, b: real)
    requires 0.0 <= a && 0.0 <= b
    ensures 0.0 <= a * b
  {}

  lemma ScaleStrict(a: real, b: real, k: real)
    requires a < b && 0.0 < k
    ensures a * k < b * k
  {
    assert (b - a) * k > 0.0;
  }

  /** Comparing quotients is comparing numerators. */
  lemma QuotientOrder(a: real, b: real, d: real)
    requires 0.0 < d
    ensures a / d <= b / d <==> a <= b
  {
    var x, y := a / d, b / d;
    assert x * d == a && y * d == b;
    if x < y { ScaleStrict(x, y, d); }
    if y < x { ScaleStrict(y, x, d); }
  }

  lemma ScaleMonotone(a: real, b: real, k: real)
    requires a <= b && 0.0 <= k
    ensures a * k <= b * k
  {
    NonNegativeProduct(b - a, k);
  }

  lemma CubeIncreases(a: real, b: real)
    requires 0.0 <= a < b
    ensures Cube(a) < Cube(b)
  {
    assert a * a <= a * b <= b * b;
    ScaleMonotone(a * a, b * b, a);
    assert (b - a) * (b * b) > 0.0;
    assert Cube(a) == (a * a) * a && Cube(b) == b * (b * b);
  }

  lemma CubeDoubles(a: real)
    ensures Cube(2.0 * a) == 8.0 * Cube(a)
  {}

  lemma CubeBounds(a: real)
    requires 0.0 <= a <= 1.0
    ensures 0.0 <= Cube(a) <= 1.0
  {
    if 0.0 < a { CubeIncreases(0.0, a); }
    if a < 1.0 { CubeIncreases(a, 1.0); }
  }

  lemma CurveStrict(easing: Easing, s: real, t: real)
    requires 0.0 <= s < t <= 1.0
    ensures Curve(easing, s) < Curve(easing, t)
  {
    match easing
    case Linear =>
    case EaseOut => CubeIncreases(1.0 - t, 1.0 - s);
    case EaseIn => CubeIncreases(s, t);
    case EaseInOut =>
      if t < 0.5 {
        CubeIncreases(s, t);
      } else {
        var v := -2.0 * t + 2.0;
        CubeBounds(v);
        if 0.5 <= s {
          CubeIncreases(v, -2.0 * s + 2.0);
        } else {
          CubeIncreases(s, 0.5);
          assert Cube(0.5) == 0.125;
        }
      }
  }

  lemma CurveEnds(easing: Easing)
    ensures Curve(easing, 0.0) == 0.0 && Curve(easing, 1.0) == 1.0
  {
  }

  lemma CurveInside(easing: Easing, t: real)
    requires 0.0 < t < 1.0
    ensures 0.0 < Curve(easing, t) < 1.0
  {
    CurveEnds(easing);
    CurveStrict(easing, 0.0, t);
    CurveStrict(easing, t, 1.0);
  }

  /** Monotone over all reals, and strictly so where it is not clamped. */
  lemma EasingMonotone(easing: Easing, s: real, t: real)
    requires s < t
    ensures Apply(easing, s) <= Apply(easing, t)
    ensures 0.0 <= s && t <= 1.0 ==> Apply(easing, s) < Apply(easing, t)
  {
    if Clamp01(s) < Clamp01(t) { CurveStrict(easing, Clamp01(s), Clamp01(t)); }
  }

  lemma EasingRange(easing: Easing, t: real)
    ensures 0.0 <= Apply(easing, t) <= 1.0
    ensures Apply(easing, t) == 0.0 <==> t <= 0.0
    ensures Apply(easing, t) == 1.0 <==> t >= 1.0
  {
    CurveEnds(easing);
    if 0.0 < t < 1.0 { CurveInside(easing, t); }
  }

  /** Decelerating is accelerating run backwards, and the combined curve is its own mirror. */
  lemma EasingMirror(t: real)
    ensures Apply(EaseOut, t) == 1.0 - Apply(EaseIn, 1.0 - t)
    ensures Apply(EaseInOut, t) == 1.0 - Apply(EaseInOut, 1.0 - t)
  {
    var c := Clamp01(t);
    assert Clamp01(1.0 - t) == 1.0 - c;
    if c < 0.5 {
      assert -2.0 * (1.0 - c) + 2.0 == 2.0 * c;
      CubeDoubles(c);
    } else if 0.5 < c {
      assert -2.0 * c + 2.0 == 2.0 * (1.0 - c);
      CubeDoubles(1.0 - c);
    }
  }

  /** The curves told from each other: linear is the share itself, accelerating is the cube, told by what it
      makes of a half and of products, and runs behind it, decelerating runs ahead, and the combined curve
      is an accelerating half followed by its mirror. */
  lemma EasingShapes(s: real, t: real)
    requires 0.0 <= s <= 1.0 && 0.0 <= t <= 1.0
    ensures Apply(Linear, t) == t
    ensures Apply(EaseIn, 0.5) == 0.125 && Apply(EaseIn, s * t) == Apply(EaseIn, s) * Apply(EaseIn, t)
    ensures 0.0 < t < 1.0 ==> Apply(EaseIn, t) < t < Apply(EaseOut, t)
    ensures t <= 0.5 ==> Apply(EaseInOut, t) == Apply(EaseIn, 2.0 * t) / 2.0
  {
    NonNegativeProduct(s, t);
    NonNegativeProduct(s, 1.0 - t);
    assert s * (1.0 - t) == s - s * t;
    CubeOfProduct(s, t);
    CubeDoubles(t);
    assert Cube(0.5) == 0.125 && Cube(1.0) == 1.0;
    if 0.0 < t < 1.0 {
      CubeBelow(t);
      CubeBelow(1.0 - t);
    }
  }

  lemma CubeOfProduct(s: real, t: real)
    ensures Cube(s * t) == Cube(s) * Cube(t)
  {
    var p := s * t;
    assert p * p == (s * s) * (t * t);
    assert (s * s) * (t * t) * p == ((s * s) * s) * ((t * t) * t);
  }

  lemma CubeBelow(t: real)
    requires 0.0 < t < 1.0
    ensures Cube(t) < t
  {
    ScaleStrict(t, 1.0, t);
    ScaleStrict(t * t, t, t);
  }

  // ---------------------------------------------------------------- scrolling

  const U64_MAX: nat := 0xFFFF_FFFF_FFFF_FFFF

  type U64 = n: nat | n <= U64_MAX

  function SaturatingAdd(a: U64, b: U64): U64 {
    if a + b > U64_MAX then U64_MAX else a + b
  }

  function Progress(duration: U64, elapsed: U64): real {
    if duration == 0 then 1.0 else Clamp01(elapsed as real / duration as real)
  }

  function Interpolate(start: real, target: real, share: real): real {
    start + (target - start) * share
  }

  function OffsetAt(start: real, target: real, duration: U64, easing: Easing, elapsed: U64): real {
    Interpolate(start, target, Apply(easing, Progress(duration, elapsed)))
  }

  /** `later` is no further from `target` than `earlier`, and neither leaves the interval. */
  ghost predicate Approaches(start: real, target: real, earlier: real, later: real) {
    if start <= target then start <= earlier <= later <= target
    else target <= later <= earlier <= start
  }

  lemma UnitQuotient(d: real)
    requires 0.0 < d
    ensures 0.0 / d == 0.0 && d / d == 1.0
  {}

  lemma Ratio(a: real, b: real, d: real)
    requires 0.0 <= a <= b && 0.0 < d
    ensures 0.0 <= a / d <= b / d
    ensures d / d == 1.0
    ensures d <= b ==> 1.0 <= b / d
    ensures b <= d ==> b / d <= 1.0
  {
    UnitQuotient(d);
    QuotientOrder(0.0, a, d);
    QuotientOrder(a, b, d);
    if b <= d { QuotientOrder(b, d, d); }
    if d <= b { QuotientOrder(d, b, d); }
  }

  lemma ProgressMonotone(duration: U64, a: U64, b: U64)
    requires a <= b
    ensures 0.0 <= Progress(duration, a) <= Progress(duration, b) <= 1.0
    ensures duration <= b ==> Progress(duration, b) == 1.0
  {
    if duration != 0 { Ratio(a as real, b as real, duration as real); }
  }

  lemma Interpolates(start: real, target: real, u: real, v: real)
    requires 0.0 <= u <= v <= 1.0
    ensures Approaches(start, target, Interpolate(start, target, u), Interpolate(start, target, v))
    ensures v == 1.0 ==> Interpolate(start, target, v) == target
  {
    var d := target - start;
    var m := if d < 0.0 then -d else d;
    NonNegativeProduct(m, u);
    NonNegativeProduct(m, v - u);
    NonNegativeProduct(m, 1.0 - v);
  }

  lemma EasedAdvances(easing: Easing, p: real, q: real)
    requires p <= q
    ensures 0.0 <= Apply(easing, p) <= Apply(easing, q) <= 1.0
    ensures q >= 1.0 ==> Apply(easing, q) == 1.0
  {
    EasingRange(easing, p);
    EasingRange(easing, q);
    if p < q { EasingMonotone(easing, p, q); }
  }

  lemma OffsetAdvances(start: real, target: real, duration: U64, easing: Easing, a: U64, b: U64)
    requires a <= b
    ensures Approaches(start, target, OffsetAt(start, target, duration, easing, a),
                       OffsetAt(start, target, duration, easing, b))
    ensures duration <= b ==> OffsetAt(start, target, duration, easing, b) == target
  {
    var p, q := Progress(duration, a), Progress(duration, b);
    ProgressMonotone(duration, a, b);
    EasedAdvances(easing, p, q);
    Interpolates(start, target, Apply(easing, p), Apply(easing, q));
  }

  function ElapsedAfter(elapsed: U64, ticks: seq<U64>): U64 {
    if ticks == [] then elapsed
    else SaturatingAdd(ElapsedAfter(elapsed, ticks[..|ticks| - 1]), ticks[|ticks| - 1])
  }

  lemma {:induction false} ElapsedMonotone(elapsed: U64, ticks: seq<U64>, i: nat)
    requires i <= |ticks|
    ensures ElapsedAfter(elapsed, ticks[..i]) <= ElapsedAfter(elapsed, ticks)
    decreases |ticks|
  {
    if i == |ticks| {
      assert ticks[..i] == ticks;
    } else {
      var front := ticks[..|ticks| - 1];
      ElapsedMonotone(elapsed, front, i);
      assert front[..i] == ticks[..i];
    }
  }

  function Ticked(ticks: seq<U64>): nat {
    if ticks == [] then 0 else Ticked(ticks[..|ticks| - 1]) + ticks[|ticks| - 1]
  }

  /** The elapsed time is the sum of the ticks, as far as it can be counted. */
  lemma {:induction false} ElapsedExact(elapsed: U64, ticks: seq<U64>)
    ensures ElapsedAfter(elapsed, ticks) ==
            if elapsed + Ticked(ticks) <= U64_MAX then elapsed + Ticked(ticks) else U64_MAX
  {
    if ticks != [] { ElapsedExact(elapsed, ticks[..|ticks| - 1]); }
  }

  /** Over any tick sequence the offset only moves towards the target, never past it,
      and is the target exactly whenever the animation reports completion. */
  lemma ScrollRun(start: real, target: real, duration: U64, easing: Easing, ticks: seq<U64>, i: nat, j: nat)
    requires i <= j <= |ticks|
    ensures
      var a := ElapsedAfter(0, ticks[..i]);
      var b := ElapsedAfter(0, ticks[..j]);
      && Approaches(start, target, OffsetAt(start, target, duration, easing, a),
                    OffsetAt(start, target, duration, easing, b))
      && (duration <= b ==> OffsetAt(start, target, duration, easing, b) == target)
  {
    ElapsedMonotone(0, ticks[..j], i);
    assert ticks[..j][..i] == ticks[..i];
    OffsetAdvances(start, target, duration, easing, ElapsedAfter(0, ticks[..i]), ElapsedAfter(0, ticks[..j]));
  }

  /** While an animation lasts, the share of the way it has gone is the eased share of its time. */
  lemma OffsetEased(start: real, target: real, duration: U64, easing: Easing, elapsed: U64)
    requires 0 < duration && elapsed <= duration
    ensures OffsetAt(start, target, duration, easing, elapsed) - start ==
            (target - start) * Apply(easing, elapsed as real / duration as real)
  {
    Ratio(elapsed as real, duration as real, duration as real);
    hide Apply;
  }

  class ScrollAnimation {
    const startOffset: real
    const targetOffset: real
    const duration: U64
    const easing: Easing
    var elapsed: U64

    constructor (start: real, target: real, duration: U64, easing: Easing)
      ensures startOffset == start && targetOffset == target
      ensures this.duration == duration && this.easing == easing && elapsed == 0
    {
      startOffset, targetOffset := start, target;
      this.duration, this.easing := duration, easing;
      elapsed := 0;
    }

    predicate IsComplete() reads this { elapsed >= duration }

    function CurrentOffset(): real reads this {
      OffsetAt(startOffset, targetOffset, duration, easing, elapsed)
    }

    /** Advances by `delta` milliseconds; says whether the animation is still running. */
    method Tick(delta: U64) returns (running: bool)
      modifies this
      ensures elapsed == SaturatingAdd(old(elapsed), delta)
      ensures elapsed == if old(elapsed) + delta <= U64_MAX then old(elapsed) + delta else U64_MAX
      ensures running == !IsComplete() == (elapsed < duration)
      ensures !running ==> CurrentOffset() == targetOffset
      ensures Approaches(startOffset, targetOffset, old(CurrentOffset()), CurrentOffset())
    {
      ghost var before := elapsed;
      elapsed := if elapsed + delta > U64_MAX then U64_MAX else elapsed + delta;
      running := elapsed < duration;
      OffsetAdvances(startOffset, targetOffset, duration, easing, before, elapsed);
    }
  }

  // ------------------------------------------------------- crossfade opacity

  /** Rounds halves away from zero. */
  function Round(x: real): int {
    if x >= 0.0 then (x + 0.5).Floor else -((0.5 - x).Floor)
  }

  /** Opacity of the `step`-th (1-based) of `frames` fade iterations, as a byte. */
  function CrossfadeOpacity(step: nat, frames: nat): int
    requires 1 <= frames
  {
    var t := step as real / frames as real;
    var o := Round((1.0 - Cube(t)) * 255.0);
    if o < 0 then 0 else if o > 255 then 255 else o
  }

  /** The opacity is what an accelerating curve leaves of 255, to the nearest whole. */
  lemma OpacityIsEased(step: nat, frames: nat)
    requires 1 <= step <= frames
    ensures
      var exact := (1.0 - Apply(EaseIn, step as real / frames as real)) * 255.0;
      -0.5 <= CrossfadeOpacity(step, frames) as real - exact <= 0.5
  {
    Ratio(step as real, frames as real, frames as real);
    CubeBounds(step as real / frames as real);
  }

  /** For every fade length: a byte, never brightening, and fully transparent on the last frame. */
  lemma OpacityFades(a: nat, b: nat, frames: nat)
    requires 1 <= a <= b <= frames
    ensures 0 <= CrossfadeOpacity(b, frames) <= CrossfadeOpacity(a, frames) <= 255
    ensures CrossfadeOpacity(frames, frames) == 0
  {
    var s, t := a as real / frames as real, b as real / frames as real;
    Ratio(a as real, b as real, frames as real);
    if s < t { CubeIncreases(s, t); }
    CubeBounds(t);
  }
}
