/** The default column width: fractions of the viewport, gaps, and the smallest width. Widths are
    32-bit and saturate; fractions are `real`. */
module ColumnWidth {
  import opened Prelude

  const I32_MAX := 0x7FFF_FFFF
  const I32_MIN := -0x8000_0000

  type Pixels = x: int | I32_MIN <= x <= I32_MAX

  function Saturated(x: int): Pixels { if x < I32_MIN then I32_MIN else if x > I32_MAX then I32_MAX else x }

  function NonNegative(x: Pixels): Pixels { if x < 0 then 0 else x }

  datatype Layout = Layout(
    gap: Pixels, outerLeft: Pixels, outerRight: Pixels, presets: seq<real>, preset: nat)

  /** The 1-based default preset, else the first, else one half. */
  function DefaultFraction(l: Layout): real {
    var idx := if l.preset == 0 then 0 else l.preset - 1;
    if idx < |l.presets| then l.presets[idx]
    else if l.presets != [] then l.presets[0]
    else 0.5
  }

  /** Usable width plus one gap. */
  function Base(l: Layout, viewport: Pixels): Pixels {
    var inner := Saturated(Saturated(viewport - NonNegative(l.outerLeft)) - NonNegative(l.outerRight));
    Saturated(inner + NonNegative(l.gap))
  }

  function Raw(l: Layout, viewport: Pixels): int {
    (Base(l, viewport) as real * DefaultFraction(l) - NonNegative(l.gap) as real).Floor
  }

  function DefaultWidth(l: Layout, viewport: Pixels): Pixels {
    Saturated(if Raw(l, viewport) < 100 then 100 else Raw(l, viewport))
  }

  /** What is left of the viewport between its outer gaps. */
  function Usable(l: Layout, viewport: Pixels): int { viewport - NonNegative(l.outerLeft) - NonNegative(l.outerRight) }

  /** `n` columns of width `w` side by side, with a gap between neighbours. */
  function Strip(l: Layout, n: nat, w: int): int
    requires n > 0
  {
    n * w + (n - 1) * NonNegative(l.gap)
  }

  /** The preset is counted from 1, and 0 means the first, as does a number there is no preset for. */
  lemma FractionChosen(l: Layout)
    ensures 1 <= l.preset <= |l.presets| ==> DefaultFraction(l) == l.presets[l.preset - 1]
    ensures (l.preset == 0 || l.preset > |l.presets|) && l.presets != [] ==> DefaultFraction(l) == l.presets[0]
    ensures l.presets == [] ==> DefaultFraction(l) == 0.5
  {}

  /** Where nothing saturates, a column and its gap take their fraction of the usable width and one gap,
      rounded down, but at least 100 pixels. */
  lemma WidthExact(l: Layout, viewport: Pixels)
    requires I32_MIN <= viewport - NonNegative(l.outerLeft)
    requires I32_MIN <= Usable(l, viewport) && Usable(l, viewport) + NonNegative(l.gap) <= I32_MAX
    ensures
      var w := DefaultWidth(l, viewport);
      var exact := (Usable(l, viewport) + NonNegative(l.gap)) as real * DefaultFraction(l);
      && (exact - NonNegative(l.gap) as real < 100.0 ==> w == 100)
      && (100.0 <= exact - NonNegative(l.gap) as real <= I32_MAX as real ==>
            w as real + NonNegative(l.gap) as real <= exact < w as real + NonNegative(l.gap) as real + 1.0)
  {
    hide DefaultFraction;
    assert Base(l, viewport) == Usable(l, viewport) + NonNegative(l.gap);
  }

  lemma ScaledBound(n: real, f: real, base: real, w: real, gap: real)
    requires n > 0.0 && 0.0 <= f && n * f <= 1.0 && 0.0 <= base && w <= base * f - gap
    ensures n * w <= base - n * gap
  {
    assert n * w <= n * (base * f - gap);
    assert n * (base * f - gap) == n * f * base - n * gap;
    assert n * f * base <= base;
  }

  lemma ScaledTight(n: real, f: real, base: real, w: real, gap: real)
    requires n > 0.0 && n * f == 1.0 && base * f - gap < w + 1.0
    ensures base - n * gap < n * (w + 1.0)
  {
    assert n * (base * f - gap) < n * (w + 1.0);
    assert n * (base * f - gap) == n * f * base - n * gap;
  }

  lemma Scales(f: real, a: real, b: real)
    requires 0.0 <= f && a <= b
    ensures a * f <= b * f
  {}

  lemma ScalesStrictly(n: real, a: real, b: real)
    requires 0.0 < n && a < b
    ensures n * a < n * b
  {}

  lemma PositiveBase(base: int, f: real, gap: int)
    requires 0.0 <= f && gap >= 0 && base as real * f - gap as real >= 100.0
    ensures base > 0
  {
    if base <= 0 { Scales(f, base as real, 0.0); }
  }

  /** A positive base was not saturated from below, so it is at most the true width. */
  lemma BaseBelow(l: Layout, viewport: Pixels)
    requires Base(l, viewport) > 0
    ensures Base(l, viewport) <= Usable(l, viewport) + NonNegative(l.gap)
  {}

  /** Above the smallest width, as many columns as the fraction allows fit the viewport, saturation
      or not; at the smallest width they fit exactly when there is room for that many. */
  lemma PresetColumnsFit(l: Layout, viewport: Pixels, n: nat)
    requires n > 0 && 0.0 <= DefaultFraction(l) && n as real * DefaultFraction(l) <= 1.0
    ensures Strip(l, n, DefaultWidth(l, viewport)) <= Usable(l, viewport) <==>
            Raw(l, viewport) >= 100 || Strip(l, n, 100) <= Usable(l, viewport)
  {
    hide Base, DefaultFraction;
    if Raw(l, viewport) >= 100 {
      WidePartsFit(n, DefaultFraction(l), Base(l, viewport), NonNegative(l.gap), DefaultWidth(l, viewport));
      BaseBelow(l, viewport);
    }
  }

  lemma WidePartsFit(n: nat, f: real, base: int, gap: int, w: int)
    requires n > 0 && 0.0 <= f && n as real * f <= 1.0 && gap >= 0
    requires 100 <= (base as real * f - gap as real).Floor && w <= (base as real * f - gap as real).Floor
    ensures base > 0 && n * w + (n - 1) * gap <= base - gap
  {
    PositiveBase(base, f, gap);
    ScaledBound(n as real, f, base as real, w as real, gap as real);
    FromReals(n, w, base, gap);
  }

  lemma FromReals(n: nat, w: int, base: int, gap: int)
    requires n as real * w as real <= base as real - n as real * gap as real
    ensures n * w + (n - 1) * gap <= base - gap
  {
    assert (n * w) as real == n as real * w as real;
    assert (n * gap) as real == n as real * gap as real;
  }

  /** When the fraction is exactly one of `n` parts, a wider column would not fit. */
  lemma PresetColumnsTight(l: Layout, viewport: Pixels, n: nat)
    requires n > 0 && n as real * DefaultFraction(l) == 1.0 && Raw(l, viewport) >= 100
    requires Base(l, viewport) == Usable(l, viewport) + NonNegative(l.gap)
    ensures Strip(l, n, DefaultWidth(l, viewport) + 1) > Usable(l, viewport)
  {
    hide Base, DefaultFraction;
    TightParts(n, DefaultFraction(l), Base(l, viewport), NonNegative(l.gap));
  }

  lemma TightParts(n: nat, f: real, base: int, gap: int)
    requires n > 0 && n as real * f == 1.0 && gap >= 0 && 100 <= (base as real * f - gap as real).Floor
    ensures
      var w := (base as real * f - gap as real).Floor;
      w <= base && base - gap < n * (w + 1) + (n - 1) * gap
  {
    var w := (base as real * f - gap as real).Floor;
    PartAtMostWhole(n as real, f);
    PositiveBase(base, f, gap);
    WithinBase(base, f, gap);
    ScaledTight(n as real, f, base as real, w as real, gap as real);
    FromRealsStrict(n, w + 1, base, gap);
  }

  lemma PartAtMostWhole(n: real, f: real)
    requires n >= 1.0 && n * f == 1.0
    ensures 0.0 <= f <= 1.0
  {
    if f < 0.0 { ScalesStrictly(n, f, 0.0); }
    if f > 1.0 { ScalesStrictly(n, 1.0, f); }
  }

  lemma WithinBase(base: int, f: real, gap: int)
    requires 0.0 <= f <= 1.0 && base > 0 && gap >= 0
    ensures (base as real * f - gap as real).Floor <= base
  {
    assert base as real * f <= base as real;
  }

  lemma FromRealsStrict(n: nat, w: int, base: int, gap: int)
    requires base as real - n as real * gap as real < n as real * w as real
    ensures base - gap < n * w + (n - 1) * gap
  {
    assert (n * w) as real == n as real * w as real;
    assert (n * gap) as real == n as real * gap as real;
  }

  /** Four quarters of a 300-pixel viewport with gaps of 10 do not fit at the smallest width. */
  lemma SmallestWidthOverflows()
    ensures
      var l := Layout(10, 10, 10, [0.25], 1);
      4.0 * DefaultFraction(l) <= 1.0 && Strip(l, 4, DefaultWidth(l, 300)) > Usable(l, 300)
  {
    var l := Layout(10, 10, 10, [0.25], 1);
    assert Base(l, 300) == 290;
    assert 290.0 * 0.25 - 10.0 == 62.5;
    assert Raw(l, 300) == 62;
  }
}
