/**
 * The pixel loop of colorizePNG: an RGBA byte buffer read from a canvas is
 * rewritten in place, four bytes per pixel. Grey 0 is "no data" and becomes
 * transparent; any other grey is scaled to 0..100 and coloured by the ramp.
 */
module PngColorize {
  import opened ColorRamp

  /** One entry of a canvas pixel buffer (Uint8ClampedArray). */
  type Byte = x: int | 0 <= x < 256

  /** `(gray / 255) * 100` */
  function GrayToValue(gray: Byte): real {
    gray as real / 255.0 * 100.0
  }

  /**
   * `Math.round((rgba[3] || 1) * 255)`: the alpha parsed back from the colour
   * string, with 0 read as 1 by `||`.
   */
  function AlphaByte(alpha: real): (b: Byte)
    requires 0.0 <= alpha <= 1.0
  {
    var a := if alpha == 0.0 then 1.0 else alpha;
    RoundMonotone(0.0, a * 255.0);
    RoundMonotone(a * 255.0, 255.0);
    RoundOfInteger(0);
    RoundOfInteger(255);
    Round(a * 255.0)
  }

  /** What one iteration of the loop writes over the four bytes of a pixel. */
  function ColorizePixel(p: seq<Byte>, useSuit: bool): (q: seq<Byte>)
    requires |p| == 4
    ensures |q| == 4
  {
    if p[0] == 0 then p[..3] + [0]
    else
      var c := InterpolateColor(GrayToValue(p[0]), useSuit);
      [c.rgb.r, c.rgb.g, c.rgb.b, AlphaByte(c.alpha)]
  }

  /** ColorizePixel as a total function on byte strings (only ever applied to whole pixels). */
  function PixelFn(useSuit: bool): seq<Byte> -> seq<Byte> {
    p => if |p| == 4 then ColorizePixel(p, useSuit) else p
  }

  /** A pixel function that maps every 4-byte pixel to a 4-byte pixel. */
  ghost predicate KeepsPixelSize(f: seq<Byte> -> seq<Byte>) {
    forall p: seq<Byte> :: |p| == 4 ==> |f(p)| == 4
  }

  /** The buffer with f applied to each 4-byte pixel in turn. */
  function MapPixels(s: seq<Byte>, f: seq<Byte> -> seq<Byte>): seq<Byte>
    requires |s| % 4 == 0
    decreases |s|
  {
    if s == [] then [] else f(s[..4]) + MapPixels(s[4..], f)
  }

  /** The whole buffer after the loop, pixel by pixel. */
  function Colorized(s: seq<Byte>, useSuit: bool): (r: seq<Byte>)
    requires |s| % 4 == 0
    ensures |r| == |s|
  {
    MapPixelsLength(s, PixelFn(useSuit));
    MapPixels(s, PixelFn(useSuit))
  }

  /** One iteration of colorizePNG's loop: recolour the pixel starting at byte i. */
  method ColorizePixelAt(data: array<Byte>, i: nat, useSuit: bool)
    requires i + 4 <= data.Length
    modifies data
    ensures data[..i] == old(data[..i])
    ensures data[i..i + 4] == ColorizePixel(old(data[i..i + 4]), useSuit)
    ensures data[i + 4..] == old(data[i + 4..])
  {
    ghost var pixel := data[i..i + 4];
    var gray := data[i];
    if gray == 0 {
      data[i + 3] := 0;
      assert data[i..i + 4] == pixel[..3] + [0];
    } else {
      var c := InterpolateColor(GrayToValue(gray), useSuit);
      var alpha := AlphaByte(c.alpha);
      data[i] := c.rgb.r;
      data[i + 1] := c.rgb.g;
      data[i + 2] := c.rgb.b;
      data[i + 3] := alpha;
      assert data[i..i + 4] == [c.rgb.r, c.rgb.g, c.rgb.b, alpha];
    }
    assert data[..i] == old(data[..i]);
    assert data[i + 4..] == old(data[i + 4..]);
  }

  /** colorizePNG's loop over `imageData.data`, four bytes at a time. */
  method ColorizeBuffer(data: array<Byte>, useSuit: bool)
    requires data.Length % 4 == 0
    modifies data
    ensures data[..] == Colorized(old(data[..]), useSuit)
  {
    ghost var original := data[..];
    var i := 0;
    while i < data.Length
      invariant 0 <= i <= data.Length && i % 4 == 0
      invariant data[..] == Colorized(original[..i], useSuit) + original[i..]
    {
      NextPixelFits(i, data.Length);
      ghost var before := data[..];
      ColorizePixelAt(data, i, useSuit);
      LoopStep(original, i, before, data[..], useSuit);
      i := i + 4;
    }
    assert original[..data.Length] == original;
  }

  lemma NextPixelFits(i: nat, n: nat)
    requires i % 4 == 0 && n % 4 == 0 && i < n
    ensures i + 4 <= n
  {
    assert i == 4 * (i / 4) && n == 4 * (n / 4);
  }

  /** The loop invariant of ColorizeBuffer survives one pixel's rewrite. */
  lemma LoopStep(original: seq<Byte>, i: nat, before: seq<Byte>, after: seq<Byte>, useSuit: bool)
    requires |original| % 4 == 0 && i % 4 == 0 && i + 4 <= |original|
    requires before == Colorized(original[..i], useSuit) + original[i..]
    requires |after| == |before|
    requires after[..i] == before[..i]
    requires after[i..i + 4] == ColorizePixel(before[i..i + 4], useSuit)
    requires after[i + 4..] == before[i + 4..]
    ensures after == Colorized(original[..i + 4], useSuit) + original[i + 4..]
  {
    MapPixelsStep(original, i, before, after, PixelFn(useSuit));
  }

  /** One step of a pixel walk: mapping the next pixel extends the mapped prefix by one pixel. */
  lemma MapPixelsStep(original: seq<Byte>, i: nat, before: seq<Byte>, after: seq<Byte>, f: seq<Byte> -> seq<Byte>)
    requires |original| % 4 == 0 && i % 4 == 0 && i + 4 <= |original|
    requires KeepsPixelSize(f)
    requires before == MapPixels(original[..i], f) + original[i..]
    requires |before| == |after| == |original|
    requires after[..i] == before[..i]
    requires after[i..i + 4] == f(before[i..i + 4])
    requires after[i + 4..] == before[i + 4..]
    ensures after == MapPixels(original[..i + 4], f) + original[i + 4..]
  {
    var pixel := original[i..i + 4];
    MapPixelsLength(original[..i], f);
    assert before[i..i + 4] == pixel;
    assert original[..i + 4] == original[..i] + pixel;
    MapPixelsAppend(original[..i], pixel, f);
    assert pixel[..4] == pixel && pixel[4..] == [];
    assert MapPixels(pixel, f) == f(pixel);
    assert after == after[..i] + after[i..i + 4] + after[i + 4..];
    assert before[..i] == MapPixels(original[..i], f);
    assert before[i + 4..] == original[i + 4..];
  }

  // ---------------------------------------------------------------------------
  // Properties of the recoloured buffer
  // ---------------------------------------------------------------------------

  /** A size-keeping pixel function keeps the buffer length. */
  lemma {:induction false} MapPixelsLength(s: seq<Byte>, f: seq<Byte> -> seq<Byte>)
    requires |s| % 4 == 0 && KeepsPixelSize(f)
    ensures |MapPixels(s, f)| == |s|
    decreases |s|
  {
    if s != [] {
      MapPixelsLength(s[4..], f);
    }
  }

  /** Mapping pixels distributes over concatenation of whole pixels. */
  lemma {:induction false} MapPixelsAppend(a: seq<Byte>, b: seq<Byte>, f: seq<Byte> -> seq<Byte>)
    requires |a| % 4 == 0 && |b| % 4 == 0
    ensures MapPixels(a + b, f) == MapPixels(a, f) + MapPixels(b, f)
    decreases |a|
  {
    if a == [] {
      assert a + b == b;
    } else {
      var ab := a + b;
      assert ab[..4] == a[..4];
      assert ab[4..] == a[4..] + b;
      MapPixelsAppend(a[4..], b, f);
    }
  }

  /** The pixel at byte i of the mapped buffer is f of the pixel at byte i. */
  lemma {:induction false} MapPixelsAt(s: seq<Byte>, i: nat, f: seq<Byte> -> seq<Byte>)
    requires |s| % 4 == 0 && i % 4 == 0 && i + 4 <= |s| && KeepsPixelSize(f)
    ensures |MapPixels(s, f)| == |s|
    ensures MapPixels(s, f)[i..i + 4] == f(s[i..i + 4])
    decreases i
  {
    MapPixelsLength(s, f);
    if i > 0 {
      MapPixelsAt(s[4..], i - 4, f);
      assert s[4..][i - 4..i] == s[i..i + 4];
    }
  }

  /** Recolouring works pixel by pixel: it distributes over concatenation. */
  lemma ColorizedAppend(a: seq<Byte>, b: seq<Byte>, useSuit: bool)
    requires |a| % 4 == 0 && |b| % 4 == 0
    ensures Colorized(a + b, useSuit) == Colorized(a, useSuit) + Colorized(b, useSuit)
  {
    MapPixelsAppend(a, b, PixelFn(useSuit));
  }

  /** The pixel starting at byte i of the result is the recoloured pixel starting at byte i of the input. */
  lemma ColorizedPixelAt(s: seq<Byte>, i: nat, useSuit: bool)
    requires |s| % 4 == 0 && i % 4 == 0 && i + 4 <= |s|
    ensures Colorized(s, useSuit)[i..i + 4] == ColorizePixel(s[i..i + 4], useSuit)
  {
    MapPixelsAt(s, i, PixelFn(useSuit));
  }

  /** The alpha byte of a coloured pixel: twice the grey up to 50, fully opaque from 51. */
  lemma AlphaOfGray(gray: Byte, useSuit: bool)
    requires gray != 0
    ensures gray <= 50 ==> AlphaByte(InterpolateColor(GrayToValue(gray), useSuit).alpha) == 2 * gray
    ensures gray >= 51 ==> AlphaByte(InterpolateColor(GrayToValue(gray), useSuit).alpha) == 255
  {
    var v := GrayToValue(gray);
    AlphaRule(Ramp(useSuit), v);
    if gray <= 50 {
      assert v < 20.0;
      assert 0.02 * v * 255.0 == (2 * gray) as real;
      RoundOfInteger(2 * gray);
    } else {
      assert v >= 20.0;
      RoundOfInteger(255);
    }
  }

  /**
   * The buffer keeps its length; a pixel is decided by its first byte alone:
   * grey 0 keeps its colour bytes and gets alpha 0, any other grey gets the
   * ramp colour of gray/255*100 with alpha 2*gray (grey <= 50) or 255.
   */
  lemma PixelRule(s: seq<Byte>, i: nat, useSuit: bool)
    requires |s| % 4 == 0 && i % 4 == 0 && i + 4 <= |s|
    ensures |Colorized(s, useSuit)| == |s|
    ensures s[i] == 0 ==>
      Colorized(s, useSuit)[i..i + 3] == s[i..i + 3] && Colorized(s, useSuit)[i + 3] == 0
    ensures s[i] != 0 ==>
      var c := InterpolateColor(GrayToValue(s[i]), useSuit);
      && Colorized(s, useSuit)[i..i + 3] == [c.rgb.r, c.rgb.g, c.rgb.b]
      && Colorized(s, useSuit)[i + 3] == (if s[i] <= 50 then 2 * s[i] else 255)
  {
    ColorizedPixelAt(s, i, useSuit);
    var out := Colorized(s, useSuit);
    assert out[i..i + 3] == out[i..i + 4][..3];
    assert out[i + 3] == out[i..i + 4][3];
    if s[i] != 0 {
      AlphaOfGray(s[i], useSuit);
    }
  }

  /** Only the first byte of a pixel is read as grey: pixels that agree on it and are not "no data" colour alike. */
  lemma OnlyGrayIsRead(p: seq<Byte>, q: seq<Byte>, useSuit: bool)
    requires |p| == 4 && |q| == 4 && p[0] == q[0] && p[0] != 0
    ensures ColorizePixel(p, useSuit) == ColorizePixel(q, useSuit)
  {
  }
}
