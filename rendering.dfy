/**
 * The values `renderVTK` hands to the rendering library: the scalar range, the two stops of the
 * colour and the opacity transfer functions, and the mapper's sample distance, which the slider
 * overwrites on every input while everything else of the session stays as it was.
 */
module Rendering {
  import opened Base
  import opened NpyFormat
  import opened Volume

  /** How a four-byte `f4` element reads as a number; IEEE 754 decoding is not part of this model. */
  type Float32Reader = seq<byte> -> real

  /** The number an element stands for: an unsigned byte is its own value. */
  function ElementValue(e: seq<byte>, t: DType, f32: Float32Reader): real {
    match t
    case Float32 => f32(e)
    case UInt8 => LittleEndian(e) as real
  }

  /** The scalars of the image as numbers, in point order. */
  function ScalarValues(img: ImageData, f32: Float32Reader): (v: seq<real>)
    ensures |v| == |img.scalars|
  {
    seq(|img.scalars|, i requires 0 <= i < |img.scalars| => ElementValue(img.scalars[i], img.dtype, f32))
  }

  function Minimum(v: seq<real>): (m: real)
    requires |v| >= 1
    ensures m in v && forall i :: 0 <= i < |v| ==> m <= v[i]
  {
    if |v| == 1 then v[0]
    else
      var rest := Minimum(v[1..]);
      assert forall i :: 1 <= i < |v| ==> v[i] == v[1..][i - 1];
      if v[0] <= rest then v[0] else rest
  }

  function Maximum(v: seq<real>): (m: real)
    requires |v| >= 1
    ensures m in v && forall i :: 0 <= i < |v| ==> v[i] <= m
  {
    if |v| == 1 then v[0]
    else
      var rest := Maximum(v[1..]);
      assert forall i :: 1 <= i < |v| ==> v[i] == v[1..][i - 1];
      if v[0] >= rest then v[0] else rest
  }

  datatype Range = Range(min: real, max: real)

  /** `getRange()`: the least and the greatest scalar; an empty array has none. */
  function ValueRange(v: seq<real>): (r: Option<Range>)
    ensures r.None? <==> |v| == 0
    ensures r.Some? ==> r.value.min in v && r.value.max in v
    ensures r.Some? ==> forall i :: 0 <= i < |v| ==> r.value.min <= v[i] <= r.value.max
  {
    if |v| == 0 then None else Some(Range(Minimum(v), Maximum(v)))
  }

  /** A stop of the colour transfer function: a scalar and the colour it maps to. */
  datatype ColorStop = ColorStop(x: real, red: real, green: real, blue: real)
  /** A stop of the scalar opacity function. */
  datatype OpacityStop = OpacityStop(x: real, opacity: real)

  /** `addRGBPoint(min, 0, 0, 0)` then `addRGBPoint(max, 1, 1, 1)`: black to white. */
  function ColorStops(r: Range): (c: seq<ColorStop>)
    ensures |c| == 2 && c[0].x == r.min && c[1].x == r.max
    ensures r.min < r.max ==> ColorAt(c, r.min) == (0.0, 0.0, 0.0) && ColorAt(c, r.max) == (1.0, 1.0, 1.0)
  {
    [ColorStop(r.min, 0.0, 0.0, 0.0), ColorStop(r.max, 1.0, 1.0, 1.0)]
  }

  /** `addPoint(min, 0.0)` then `addPoint(max, 1.0)`: transparent to opaque. */
  function OpacityStops(r: Range): (o: seq<OpacityStop>)
    ensures |o| == 2 && o[0].x == r.min && o[1].x == r.max
    ensures r.min < r.max ==> OpacityAt(o, r.min) == 0.0 && OpacityAt(o, r.max) == 1.0
  {
    [OpacityStop(r.min, 0.0), OpacityStop(r.max, 1.0)]
  }

  /**
   * A function given by two stops, evaluated at `s`: linear between them and held at the nearer
   * stop's value outside them.
   */
  function Ramp(x0: real, y0: real, x1: real, y1: real, s: real): real
    requires x0 < x1
  {
    if s <= x0 then y0
    else if s >= x1 then y1
    else y0 + (y1 - y0) * ((s - x0) / (x1 - x0))
  }

  function OpacityAt(stops: seq<OpacityStop>, s: real): real
    requires |stops| == 2 && stops[0].x < stops[1].x
  {
    Ramp(stops[0].x, stops[0].opacity, stops[1].x, stops[1].opacity, s)
  }

  function ColorAt(stops: seq<ColorStop>, s: real): (c: (real, real, real))
    requires |stops| == 2 && stops[0].x < stops[1].x
  {
    (Ramp(stops[0].x, stops[0].red, stops[1].x, stops[1].red, s),
     Ramp(stops[0].x, stops[0].green, stops[1].x, stops[1].green, s),
     Ramp(stops[0].x, stops[0].blue, stops[1].x, stops[1].blue, s))
  }

  lemma FractionBounds(a: real, d: real)
    requires 0.0 < a < d
    ensures 0.0 < a / d < 1.0
  {
    var e := d - a;
    assert a / d + e / d == 1.0;
    assert e / d > 0.0;
  }

  lemma FractionMonotone(a: real, b: real, d: real)
    requires 0.0 <= a <= b && 0.0 < d
    ensures a / d <= b / d
  {
  }

  /**
   * Over a range with two distinct ends, the opacity is 0 at or below the least scalar, 1 at or
   * above the greatest, strictly between in between, and never decreases.
   */
  lemma OpacityRamp(r: Range, s: real, t: real)
    requires r.min < r.max
    ensures s <= r.min ==> OpacityAt(OpacityStops(r), s) == 0.0
    ensures s >= r.max ==> OpacityAt(OpacityStops(r), s) == 1.0
    ensures r.min < s < r.max ==> 0.0 < OpacityAt(OpacityStops(r), s) < 1.0
    ensures s <= t ==> OpacityAt(OpacityStops(r), s) <= OpacityAt(OpacityStops(r), t)
  {
    var d := r.max - r.min;
    if r.min < s < r.max {
      FractionBounds(s - r.min, d);
    }
    if s <= t && r.min < s && t < r.max {
      FractionMonotone(s - r.min, t - r.min, d);
    }
    if s <= t && r.min < s < r.max && t >= r.max {
      FractionBounds(s - r.min, d);
    }
    if s <= t && s <= r.min && r.min < t < r.max {
      FractionBounds(t - r.min, d);
    }
  }

  /** The colour at every scalar is the grey whose level equals the opacity there. */
  lemma ColorIsGreyOfOpacity(r: Range, s: real)
    requires r.min < r.max
    ensures var o := OpacityAt(OpacityStops(r), s);
            ColorAt(ColorStops(r), s) == (o, o, o)
  {
  }

  /** Every scalar of a volume with distinct extremes falls on the ramp between its two stops. */
  lemma ScalarsOnTheRamp(v: seq<real>, i: nat)
    requires i < |v| && ValueRange(v).Some? && ValueRange(v).value.min < ValueRange(v).value.max
    ensures var r := ValueRange(v).value;
            r.min <= v[i] <= r.max && 0.0 <= OpacityAt(OpacityStops(r), v[i]) <= 1.0
  {
    var r := ValueRange(v).value;
    OpacityRamp(r, r.min, v[i]);
    OpacityRamp(r, v[i], r.max);
  }

  /** The unsigned bytes 0 to 255, one of each, span the range from 0 to 255. */
  lemma RangeOfAllBytes(img: ImageData, f32: Float32Reader)
    requires img.dtype == UInt8 && |img.scalars| == 256
    requires forall i :: 0 <= i < 256 ==> img.scalars[i] == [i as byte]
    ensures ValueRange(ScalarValues(img, f32)) == Some(Range(0.0, 255.0))
  {
    var v := ScalarValues(img, f32);
    forall i | 0 <= i < 256 ensures v[i] == i as real {
      assert img.scalars[i][1..] == [];
    }
    var r := ValueRange(v).value;
    assert v[0] == 0.0 && v[255] == 255.0;
  }

  /**
   * A float32 file of shape (2, 2) whose elements read as 0, 0.5, 1 and 1 decodes, becomes a
   * single 2 by 2 slice, and has the range from 0 to 1, whatever bytes follow its payload.
   */
  lemma Float32Example(f32: Float32Reader, major: byte, shape: seq<nat>, spare: nat, elements: seq<seq<byte>>, trailing: seq<byte>)
    requires major == 1 && shape == [2, 2] && (spare == 0 || spare == GrowthSpare(shape))
    requires |elements| == 4 && forall i :: 0 <= i < 4 ==> |elements[i]| == 4
    requires f32(elements[0]) == 0.0 && f32(elements[1]) == 0.5
    requires f32(elements[2]) == 1.0 && f32(elements[3]) == 1.0
    ensures HeaderFits(major, Float32, shape, spare)
    ensures var d := Decode(Prelude(major, Float32, shape, spare) + Flatten(elements) + trailing);
            d.Ok? && ImageFromNpy(d.value).Ok? &&
            ImageFromNpy(d.value).value.dimensions == Dimensions(2, 2, 1) &&
            ValueRange(ScalarValues(ImageFromNpy(d.value).value, f32)) == Some(Range(0.0, 1.0))
  {
    SmallHeaderFits(spare);
    ProductOfTwo(shape);
    DecodeEncode(major, Float32, shape, spare, elements, trailing);
    var img := ImageFromNpy(NpyArray(shape, Descr(Float32), Float32, elements)).value;
    assert Extents(img.dimensions) == [2, 2, 1];
    ExampleValues(img, f32, elements);
    RangeExample(ScalarValues(img, f32));
  }

  lemma ExampleValues(img: ImageData, f32: Float32Reader, elements: seq<seq<byte>>)
    requires img.dtype == Float32 && img.scalars == elements && |elements| == 4
    requires f32(elements[0]) == 0.0 && f32(elements[1]) == 0.5
    requires f32(elements[2]) == 1.0 && f32(elements[3]) == 1.0
    ensures ScalarValues(img, f32) == [0.0, 0.5, 1.0, 1.0]
  {
  }

  lemma RangeExample(v: seq<real>)
    requires v == [0.0, 0.5, 1.0, 1.0]
    ensures ValueRange(v) == Some(Range(0.0, 1.0))
  {
    var r := ValueRange(v).value;
    assert r.min <= v[0] && r.max >= v[2];
  }

  /** A number as `parseFloat` yields it: a real value or NaN (infinities are not modelled). */
  datatype JsNumber = Num(value: real) | NaN

  /** `parseFloat(sampleDist.value) || 1`: NaN and 0 are falsy, so both give 1. */
  function InitialSampleDistance(parsed: JsNumber): (d: JsNumber)
    ensures d != NaN && d != Num(0.0)
    ensures parsed != NaN && parsed != Num(0.0) ==> d == parsed
    ensures parsed == NaN || parsed == Num(0.0) ==> d == Num(1.0)
  {
    if parsed == NaN || parsed == Num(0.0) then Num(1.0) else parsed
  }

  /**
   * What `renderVTK` sets up for one image: the image, its scalar range and the stops derived
   * from it, which stay fixed, and the mapper's sample distance, which the slider overwrites.
   * `renders` counts the calls of `render()`.
   */
  class RenderSession {
    const image: ImageData
    const range: Range
    const colors: seq<ColorStop>
    const opacities: seq<OpacityStop>
    var sampleDistance: JsNumber
    var renders: nat

    /** The stops are those of the image's own range. */
    ghost predicate Valid()
      reads this
    {
      colors == ColorStops(range) && opacities == OpacityStops(range)
    }

    /**
     * Setting up the volume and rendering once. `emptyRange` is what the library's `getRange()`
     * reports for an image with no scalars (a shape with a zero axis, such as (0, 4)).
     */
    constructor (img: ImageData, f32: Float32Reader, slider: JsNumber, emptyRange: Range)
      ensures Valid()
      ensures image == img
      ensures |img.scalars| >= 1 ==> ValueRange(ScalarValues(img, f32)) == Some(range)
      ensures |img.scalars| == 0 ==> range == emptyRange
      ensures sampleDistance == InitialSampleDistance(slider) && renders == 1
    {
      var values := ScalarValues(img, f32);
      var r := if |values| == 0 then emptyRange else ValueRange(values).value;
      image := img;
      range := r;
      colors := ColorStops(r);
      opacities := OpacityStops(r);
      sampleDistance := InitialSampleDistance(slider);
      renders := 1;
    }

    /** `sampleDist.oninput`: the parsed value is taken as it is, with no fallback, then a render. */
    method OnInput(slider: JsNumber)
      requires Valid()
      modifies this
      ensures Valid()
      ensures sampleDistance == slider && renders == old(renders) + 1
    {
      sampleDistance := slider;
      renders := renders + 1;
    }
  }

  /** The slider handler may leave a sample distance of NaN, which the initial setup never does. */
  method SliderCanYieldNaN(img: ImageData, f32: Float32Reader, emptyRange: Range) returns (initial: JsNumber, after: JsNumber)
    ensures initial == Num(1.0) && after == NaN
  {
    var session := new RenderSession(img, f32, NaN, emptyRange);
    initial := session.sampleDistance;
    session.OnInput(NaN);
    after := session.sampleDistance;
  }
}
