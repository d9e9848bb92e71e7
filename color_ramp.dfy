/**
 * The value-to-colour ramp of the raster overlay: two fixed six-stop tables,
 * the clamped linear scan for the bracketing pair of stops, per-channel
 * interpolation with JavaScript rounding, the fade-in alpha below 20, and the
 * five-level legend drawn beside the map.
 */
module ColorRamp {
  import opened JsValues

  datatype Rgb = Rgb(r: int, g: int, b: int)
  datatype Stop = Stop(value: real, color: Rgb)
  datatype Rgba = Rgba(rgb: Rgb, alpha: real)

  /** The "suitability" table (SuitcolorMap). */
  const SuitColorMap: seq<Stop> := [
    Stop(0.0, Rgb(215, 212, 213)),
    Stop(20.0, Rgb(245, 144, 83)),
    Stop(40.0, Rgb(254, 223, 154)),
    Stop(60.0, Rgb(219, 240, 158)),
    Stop(80.0, Rgb(138, 204, 98)),
    Stop(100.0, Rgb(26, 150, 65))
  ]

  /** The "percentage difference" table (DiffcolorMap). */
  const DiffColorMap: seq<Stop> := [
    Stop(0.0, Rgb(0, 0, 4)),
    Stop(20.0, Rgb(45, 5, 61)),
    Stop(40.0, Rgb(99, 21, 101)),
    Stop(60.0, Rgb(159, 43, 82)),
    Stop(80.0, Rgb(227, 89, 51)),
    Stop(100.0, Rgb(252, 253, 191))
  ]

  predicate IsChannel(x: int) { 0 <= x <= 255 }

  predicate IsRgb(c: Rgb) { IsChannel(c.r) && IsChannel(c.g) && IsChannel(c.b) }

  /** A ramp covers [0,100] with strictly ascending stops whose colours are RGB triples. */
  predicate ValidRamp(ramp: seq<Stop>) {
    && |ramp| >= 2
    && ramp[0].value == 0.0
    && ramp[|ramp| - 1].value == 100.0
    && (forall i, j :: 0 <= i < j < |ramp| ==> ramp[i].value < ramp[j].value)
    && (forall i :: 0 <= i < |ramp| ==> IsRgb(ramp[i].color))
  }

  /**
   * The table a flag selects. The source calls this flag `is_diff` in
   * interpolateColor, yet a true flag selects the suitability table there,
   * exactly as `is_suit` does in addLegend.
   */
  function Ramp(useSuit: bool): (ramp: seq<Stop>)
    ensures ValidRamp(ramp)
    ensures useSuit ==> ramp == SuitColorMap
    ensures !useSuit ==> ramp == DiffColorMap
  {
    TablesAreValid();
    if useSuit then SuitColorMap else DiffColorMap
  }

  /** `Math.min` and `Math.max` on two finite numbers. */
  function Min(a: real, b: real): real { if a <= b then a else b }
  function Max(a: real, b: real): real { if a >= b then a else b }

  /** `Math.max(0, Math.min(100, val))` */
  function Clamp(v: real): (c: real)
    ensures 0.0 <= c <= 100.0
    ensures 0.0 <= v <= 100.0 ==> c == v
  {
    Max(0.0, Min(100.0, v))
  }

  /** JavaScript `Math.round`: halves round towards +infinity. */
  function Round(x: real): int {
    (x + 0.5).Floor
  }

  /** The test `val >= low.value && val <= high.value` for the pair at i. */
  predicate Brackets(ramp: seq<Stop>, i: int, v: real)
    requires 0 <= i && i + 1 < |ramp|
  {
    ramp[i].value <= v <= ramp[i + 1].value
  }

  /**
   * The loop of interpolateColor: the first index i >= from whose pair
   * (i, i+1) brackets v, or None when the scan falls through to the fallback.
   */
  function FindBracket(ramp: seq<Stop>, v: real, from: nat): (r: Option<nat>)
    requires ValidRamp(ramp)
    decreases |ramp| - from
    ensures r.Some? ==> from <= r.value && r.value + 1 < |ramp| && Brackets(ramp, r.value, v)
    ensures r.Some? ==> forall k :: from <= k < r.value ==> !Brackets(ramp, k, v)
    ensures from + 1 < |ramp| && ramp[from].value <= v <= 100.0 ==> r.Some?
  {
    if from + 1 >= |ramp| then None
    else if ramp[from].value <= v && v <= ramp[from + 1].value then Some(from)
    else FindBracket(ramp, v, from + 1)
  }

  /** One interpolated channel: `Math.round(lo + t * (hi - lo))`. */
  function Channel(lo: int, hi: int, t: real): int {
    Round(lo as real + t * (hi - lo) as real)
  }

  function Lerp(low: Stop, high: Stop, v: real): Rgb
    requires low.value < high.value
  {
    var t := (v - low.value) / (high.value - low.value);
    Rgb(Channel(low.color.r, high.color.r, t),
        Channel(low.color.g, high.color.g, t),
        Channel(low.color.b, high.color.b, t))
  }

  /** `val < 20 ? 0.02 * val : 1` on the clamped value. */
  function Alpha(v: real): real {
    if v < 20.0 then 0.02 * v else 1.0
  }

  /** interpolateColor over an arbitrary well-formed table. */
  function RampColor(ramp: seq<Stop>, v: real): (c: Rgba)
    requires ValidRamp(ramp)
    ensures IsRgb(c.rgb)
    ensures 0.0 <= c.alpha <= 1.0
  {
    var x := Clamp(v);
    match FindBracket(ramp, x, 0)
    case Some(i) =>
      LerpInRange(ramp, i, x);
      Rgba(Lerp(ramp[i], ramp[i + 1], x), Alpha(x))
    case None =>
      Rgba(ramp[|ramp| - 1].color, 1.0)
  }

  /** interpolateColor(val, flag) with the colour as a tuple instead of an `rgba(...)` string. */
  function InterpolateColor(v: real, useSuit: bool): (c: Rgba)
    ensures IsRgb(c.rgb)
    ensures 0.0 <= c.alpha <= 1.0
  {
    RampColor(Ramp(useSuit), v)
  }

  // ---------------------------------------------------------------------------
  // Arithmetic facts behind the interpolation
  // ---------------------------------------------------------------------------

  lemma RoundOfInteger(n: int)
    ensures Round(n as real) == n
  {
  }

  lemma RoundMonotone(x: real, y: real)
    requires x <= y
    ensures Round(x) <= Round(y)
  {
  }

  lemma QuotientInUnit(a: real, b: real)
    requires 0.0 <= a <= b && b > 0.0
    ensures 0.0 <= a / b <= 1.0
  {
    assert (a / b) * b == a;
  }

  /** t = (v - lo) / (hi - lo) lies in [0,1] inside the bracket. */
  lemma FractionInUnit(lo: real, hi: real, v: real)
    requires lo < hi && lo <= v <= hi
    ensures 0.0 <= (v - lo) / (hi - lo) <= 1.0
  {
    QuotientInUnit(v - lo, hi - lo);
  }

  /** Scaling a non-negative d by t in [0,1] stays within [0,d]. */
  lemma ScaleInUnit(t: real, d: real)
    requires 0.0 <= t <= 1.0 && d >= 0.0
    ensures 0.0 <= t * d <= d
  {
  }

  /** a + t * d with d == b - a >= 0 and t in [0,1] lies between a and b. */
  lemma InterpolantUp(a: real, b: real, d: real, t: real)
    requires 0.0 <= t <= 1.0 && d == b - a && a <= b
    ensures a <= a + t * d <= b
  {
    ScaleInUnit(t, d);
  }

  /** a + t * d with d == b - a <= 0 and t in [0,1] lies between b and a. */
  lemma InterpolantDown(a: real, b: real, d: real, t: real)
    requires 0.0 <= t <= 1.0 && d == b - a && b <= a
    ensures b <= a + t * d <= a
  {
    var e := a - b;
    ScaleInUnit(t, e);
    assert t * d == -(t * e);
  }

  /** A channel interpolated with t in [0,1] lies between its two end values. */
  lemma ChannelBetween(lo: int, hi: int, t: real)
    requires 0.0 <= t <= 1.0
    ensures lo <= hi ==> lo <= Channel(lo, hi, t) <= hi
    ensures hi <= lo ==> hi <= Channel(lo, hi, t) <= lo
  {
    var a, b := lo as real, hi as real;
    var d := (hi - lo) as real;
    var x := a + t * d;
    assert Channel(lo, hi, t) == Round(x);
    RoundOfInteger(lo);
    RoundOfInteger(hi);
    if lo <= hi {
      InterpolantUp(a, b, d, t);
      RoundMonotone(a, x);
      RoundMonotone(x, b);
    } else {
      InterpolantDown(a, b, d, t);
      RoundMonotone(b, x);
      RoundMonotone(x, a);
    }
  }

  predicate ChannelWithin(x: int, a: int, b: int) {
    (a <= x <= b) || (b <= x <= a)
  }

  predicate RgbWithin(c: Rgb, p: Rgb, q: Rgb) {
    ChannelWithin(c.r, p.r, q.r) && ChannelWithin(c.g, p.g, q.g) && ChannelWithin(c.b, p.b, q.b)
  }

  lemma RgbWithinIsRgb(c: Rgb, p: Rgb, q: Rgb)
    requires IsRgb(p) && IsRgb(q) && RgbWithin(c, p, q)
    ensures IsRgb(c)
  {
  }

  /** Interpolating inside bracket i stays between the colours of stops i and i+1. */
  lemma LerpInRange(ramp: seq<Stop>, i: nat, v: real)
    requires ValidRamp(ramp) && i + 1 < |ramp| && Brackets(ramp, i, v)
    ensures RgbWithin(Lerp(ramp[i], ramp[i + 1], v), ramp[i].color, ramp[i + 1].color)
    ensures IsRgb(Lerp(ramp[i], ramp[i + 1], v))
  {
    var lo, hi := ramp[i], ramp[i + 1];
    FractionInUnit(lo.value, hi.value, v);
    var t := (v - lo.value) / (hi.value - lo.value);
    ChannelBetween(lo.color.r, hi.color.r, t);
    ChannelBetween(lo.color.g, hi.color.g, t);
    ChannelBetween(lo.color.b, hi.color.b, t);
    RgbWithinIsRgb(Lerp(lo, hi, v), lo.color, hi.color);
  }

  // ---------------------------------------------------------------------------
  // Properties of interpolateColor
  // ---------------------------------------------------------------------------

  /** Inputs below 0 colour like 0 and inputs above 100 colour like 100. */
  lemma ClampedInputs(ramp: seq<Stop>, v: real)
    requires ValidRamp(ramp)
    ensures v < 0.0 ==> RampColor(ramp, v) == RampColor(ramp, 0.0)
    ensures v > 100.0 ==> RampColor(ramp, v) == RampColor(ramp, 100.0)
  {
  }

  /** For every real input the scan finds a bracket: the fallback colour is never returned. */
  lemma FallbackUnreachable(ramp: seq<Stop>, v: real)
    requires ValidRamp(ramp)
    ensures FindBracket(ramp, Clamp(v), 0).Some?
  {
  }

  /** Every stop of the table is in [0,100]. */
  lemma StopInRange(ramp: seq<Stop>, k: nat)
    requires ValidRamp(ramp) && k < |ramp|
    ensures 0.0 <= ramp[k].value <= 100.0
  {
    if 0 < k { assert ramp[0].value < ramp[k].value; }
    if k < |ramp| - 1 { assert ramp[k].value < ramp[|ramp| - 1].value; }
  }

  /** Stop values order exactly as their indices do. */
  lemma ValueOrder(ramp: seq<Stop>, i: nat, j: nat)
    requires ValidRamp(ramp) && i < |ramp| && j < |ramp|
    ensures i < j <==> ramp[i].value < ramp[j].value
  {
    if j < i { assert ramp[j].value < ramp[i].value; }
  }

  /**
   * At a stop's own value the scan stops at the bracket that ends there
   * (the earlier one on a shared boundary), or at bracket 0 for the first stop.
   */
  lemma BracketAtStop(ramp: seq<Stop>, k: nat)
    requires ValidRamp(ramp) && k < |ramp|
    ensures FindBracket(ramp, ramp[k].value, 0) == Some(if k == 0 then 0 else k - 1)
  {
    StopInRange(ramp, k);
    var v := ramp[k].value;
    var j := FindBracket(ramp, v, 0).value;
    ValueOrder(ramp, j + 1, k);
    ValueOrder(ramp, k, j);
    if k > 0 {
      assert Brackets(ramp, k - 1, v);
    }
  }

  lemma ChannelAtEnds(lo: int, hi: int)
    ensures Channel(lo, hi, 0.0) == lo && Channel(lo, hi, 1.0) == hi
  {
    RoundOfInteger(lo);
    RoundOfInteger(hi);
  }

  /** Interpolating at either end of a bracket gives that end's colour exactly. */
  lemma LerpAtEnds(low: Stop, high: Stop)
    requires low.value < high.value
    ensures Lerp(low, high, low.value) == low.color
    ensures Lerp(low, high, high.value) == high.color
  {
    var d := high.value - low.value;
    assert (low.value - low.value) / d == 0.0;
    assert (high.value - low.value) / d == 1.0;
    ChannelAtEnds(low.color.r, high.color.r);
    ChannelAtEnds(low.color.g, high.color.g);
    ChannelAtEnds(low.color.b, high.color.b);
  }

  /** At each stop value the RGB output is exactly that stop's colour. */
  lemma ColorAtStop(ramp: seq<Stop>, k: nat)
    requires ValidRamp(ramp) && k < |ramp|
    ensures RampColor(ramp, ramp[k].value).rgb == ramp[k].color
  {
    StopInRange(ramp, k);
    BracketAtStop(ramp, k);
    if k == 0 {
      LerpAtEnds(ramp[0], ramp[1]);
    } else {
      LerpAtEnds(ramp[k - 1], ramp[k]);
    }
  }

  /**
   * Between stops k and k+1 (boundaries included) every channel lies between
   * those two stops' channels.
   */
  lemma ColorBetweenStops(ramp: seq<Stop>, k: nat, v: real)
    requires ValidRamp(ramp) && k + 1 < |ramp|
    requires ramp[k].value <= v <= ramp[k + 1].value
    ensures RgbWithin(RampColor(ramp, v).rgb, ramp[k].color, ramp[k + 1].color)
  {
    StopInRange(ramp, k);
    StopInRange(ramp, k + 1);
    var i := FindBracket(ramp, v, 0).value;
    if i == k {
      LerpInRange(ramp, k, v);
    } else if i < k {
      assert ramp[i + 1].value <= ramp[k].value;
      assert v == ramp[k].value;
      ColorAtStop(ramp, k);
    } else {
      assert ramp[k + 1].value <= ramp[i].value;
      assert v == ramp[k + 1].value;
      ColorAtStop(ramp, k + 1);
      assert Brackets(ramp, k, v);
    }
  }

  /** The alpha rule: 0.02*val below 20 (so under 0.4, and 0 at 0) and exactly 1 from 20 on. */
  lemma AlphaRule(ramp: seq<Stop>, v: real)
    requires ValidRamp(ramp)
    ensures 0.0 <= v < 20.0 ==> RampColor(ramp, v).alpha == 0.02 * v < 0.4
    ensures v <= 0.0 ==> RampColor(ramp, v).alpha == 0.0
    ensures v >= 20.0 ==> RampColor(ramp, v).alpha == 1.0
  {
    FallbackUnreachable(ramp, v);
  }

  /** Both fixed tables satisfy the ramp invariant. */
  lemma TablesAreValid()
    ensures ValidRamp(SuitColorMap) && ValidRamp(DiffColorMap)
  {
    TableIsValid(SuitColorMap);
    TableIsValid(DiffColorMap);
  }

  /** A six-stop table from 0 to 100 whose stops ascend one by one and hold RGB colours is a ramp. */
  lemma TableIsValid(t: seq<Stop>)
    requires |t| == 6 && t[0].value == 0.0 && t[5].value == 100.0
    requires t[0].value < t[1].value < t[2].value < t[3].value < t[4].value < t[5].value
    requires IsRgb(t[0].color) && IsRgb(t[1].color) && IsRgb(t[2].color)
    requires IsRgb(t[3].color) && IsRgb(t[4].color) && IsRgb(t[5].color)
    ensures ValidRamp(t)
  {
    forall i | 0 < i < |t| ensures t[i - 1].value < t[i].value {
      assert i == 1 || i == 2 || i == 3 || i == 4 || i == 5;
    }
    AscendingBySteps(t);
    forall i | 0 <= i < |t| ensures IsRgb(t[i].color) {
      assert i == 0 || i == 1 || i == 2 || i == 3 || i == 4 || i == 5;
    }
  }

  /** Stop values that ascend from each stop to the next ascend throughout. */
  lemma {:induction false} AscendingBySteps(ramp: seq<Stop>)
    requires forall i :: 0 < i < |ramp| ==> ramp[i - 1].value < ramp[i].value
    ensures forall i, j :: 0 <= i < j < |ramp| ==> ramp[i].value < ramp[j].value
  {
    if |ramp| > 1 {
      var tail := ramp[1..];
      assert forall i :: 0 < i < |tail| ==> tail[i - 1] == ramp[i];
      AscendingBySteps(tail);
      forall i, j | 0 <= i < j < |ramp| ensures ramp[i].value < ramp[j].value {
        assert ramp[j] == tail[j - 1];
        if i > 0 {
          assert ramp[i] == tail[i - 1];
        } else if j > 1 {
          assert ramp[1] == tail[0];
        }
      }
    }
  }

  // ---------------------------------------------------------------------------
  // The static legend of addLegend
  // ---------------------------------------------------------------------------

  datatype LegendLevel = LegendLevel(range: string, color: Rgb)

  /** The heading addLegend writes for a flag. */
  function LegendName(useSuit: bool): string {
    if useSuit then "Suitability" else "Percentage difference"
  }

  /** The five colour boxes addLegend draws for a flag. */
  function LegendLevels(useSuit: bool): seq<LegendLevel> {
    if useSuit then [
      LegendLevel("0 - 20", Rgb(215, 212, 213)),
      LegendLevel("20 - 40", Rgb(245, 144, 83)),
      LegendLevel("40 - 60", Rgb(254, 223, 154)),
      LegendLevel("60 - 80", Rgb(219, 240, 158)),
      LegendLevel("80 - 100", Rgb(26, 150, 65))
    ] else [
      LegendLevel("0 - 20", Rgb(0, 0, 4)),
      LegendLevel("20 - 40", Rgb(45, 5, 61)),
      LegendLevel("40 - 60", Rgb(99, 21, 101)),
      LegendLevel("60 - 80", Rgb(159, 43, 82)),
      LegendLevel("80 - 100", Rgb(252, 253, 191))
    ]
  }

  /**
   * The legend for a flag shows stops 0, 1, 2, 3 and 5 of the table the same
   * flag selects for interpolation; the colour of stop 4 is never shown.
   */
  lemma LegendShowsStops(useSuit: bool)
    ensures |LegendLevels(useSuit)| == 5
    ensures forall k :: 0 <= k < 4 ==> LegendLevels(useSuit)[k].color == Ramp(useSuit)[k].color
    ensures LegendLevels(useSuit)[4].color == Ramp(useSuit)[5].color
    ensures forall k :: 0 <= k < 5 ==> LegendLevels(useSuit)[k].color != Ramp(useSuit)[4].color
  {
  }
}
