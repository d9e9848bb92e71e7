/**
 * The per-pixel colour callback (`pixelValuesToColorFn`) installed on a
 * GeoTIFF layer: a filter in front of the colour ramp.
 */
module GeoTiffColor {
  import opened JsValues
  import opened ColorRamp

  /** One band value of a raster cell as the layer hands it over. */
  datatype Sample = Missing(nullish: Nullish) | NotANumber | Number(x: real) | PosInfinity | NegInfinity

  /**
   * `values && values[0]`: absent band values (None) stay absent, an empty
   * list yields `undefined`, otherwise the first band.
   */
  function FirstBand(values: Option<seq<Sample>>): Sample {
    match values
    case None => Missing(Undefined)
    case Some(vs) => if |vs| == 0 then Missing(Undefined) else vs[0]
  }

  /**
   * The callback: None (no colour) for undefined, null, NaN or <= -1
   * (which takes in -Infinity); otherwise the ramp colour of the value
   * clamped to [0,100], so +Infinity is coloured as 100.
   */
  function PixelValuesToColor(values: Option<seq<Sample>>, useSuit: bool): (c: Option<Rgba>)
    ensures c.Some? <==> (FirstBand(values).Number? && FirstBand(values).x > -1.0) || FirstBand(values).PosInfinity?
    ensures c.Some? ==> IsRgb(c.value.rgb) && 0.0 <= c.value.alpha <= 1.0
  {
    match FirstBand(values)
    case Number(v) =>
      if v <= -1.0 then None
      else Some(InterpolateColor(Clamp(v), useSuit))
    case PosInfinity => Some(InterpolateColor(100.0, useSuit))
    case _ => None
  }

  /**
   * Values strictly between -1 and 0 are shown, in the colour of the first
   * stop and fully transparent; values in [0,100] get the ramp colour of the
   * value itself.
   */
  lemma ColorOfBand(values: Option<seq<Sample>>, useSuit: bool)
    ensures FirstBand(values).Number? ==> var v := FirstBand(values).x;
      -1.0 < v < 0.0 ==>
        PixelValuesToColor(values, useSuit) == Some(Rgba(Ramp(useSuit)[0].color, 0.0))
    ensures FirstBand(values).Number? ==> var v := FirstBand(values).x;
      0.0 <= v <= 100.0 ==> PixelValuesToColor(values, useSuit) == Some(InterpolateColor(v, useSuit))
    ensures FirstBand(values).Number? && FirstBand(values).x > 100.0 ==>
      PixelValuesToColor(values, useSuit) == Some(Rgba(Ramp(useSuit)[|Ramp(useSuit)| - 1].color, 1.0))
    ensures FirstBand(values).PosInfinity? ==>
      PixelValuesToColor(values, useSuit) == Some(Rgba(Ramp(useSuit)[|Ramp(useSuit)| - 1].color, 1.0))
  {
    TopColor(useSuit);
    if !FirstBand(values).Number? {
      return;
    }
    var v := FirstBand(values).x;
    if -1.0 < v < 0.0 {
      ColorAtStop(Ramp(useSuit), 0);
      AlphaRule(Ramp(useSuit), 0.0);
    }
  }

  /** The colour of the top of the scale: the last stop's colour, fully opaque. */
  lemma TopColor(useSuit: bool)
    ensures InterpolateColor(100.0, useSuit) == Rgba(Ramp(useSuit)[|Ramp(useSuit)| - 1].color, 1.0)
  {
    var ramp := Ramp(useSuit);
    ColorAtStop(ramp, |ramp| - 1);
    AlphaRule(ramp, 100.0);
  }
}
