/**
 * `vtkImageFromNpy`: a decoded array becomes image data whose dimensions are the shape read
 * backwards (NumPy's slowest axis first, vtk's fastest axis first), a 2-D shape lifted to a
 * single slice, with the payload attached unchanged as a one-component scalar array.
 */
module Volume {
  import opened Base
  import opened NpyFormat

  /** The arguments of `setDimensions(x, y, z)`. */
  datatype Dimensions = Dimensions(x: int, y: int, z: int)

  /** The image data the core builds: its dimensions and its one named point-data array. */
  datatype ImageData = ImageData(
    dimensions: Dimensions,
    scalars: seq<seq<byte>>,
    dtype: DType,
    components: nat,
    name: string)

  /** "Shape must be 2D or 3D", with the rank that was refused. */
  datatype VolumeError = BadRank(rank: nat)

  /** The extents fastest axis first. */
  function Extents(d: Dimensions): seq<int> {
    [d.x, d.y, d.z]
  }

  function Reversed(s: seq<int>): (r: seq<int>)
    ensures |r| == |s| && forall i :: 0 <= i < |s| ==> r[i] == s[|s| - 1 - i]
  {
    if s == [] then [] else Reversed(s[1..]) + [s[0]]
  }

  function ImageFromNpy(parsed: NpyArray): (r: Result<ImageData, VolumeError>)
    ensures r.Ok? <==> |parsed.shape| == 2 || |parsed.shape| == 3
    ensures r.Err? ==> r.error == BadRank(|parsed.shape|)
    ensures r.Ok? ==>
              Extents(r.value.dimensions) ==
                Reversed(parsed.shape) + (if |parsed.shape| == 2 then [1] else [])
    ensures r.Ok? ==>
              r.value.scalars == parsed.elements && r.value.dtype == parsed.dtype &&
              r.value.components == 1 && r.value.name == "Scalars"
  {
    var shp := parsed.shape;
    if |shp| == 3 then
      Ok(ImageData(Dimensions(shp[2], shp[1], shp[0]), parsed.elements, parsed.dtype, 1, "Scalars"))
    else if |shp| == 2 then
      Ok(ImageData(Dimensions(shp[1], shp[0], 1), parsed.elements, parsed.dtype, 1, "Scalars"))
    else
      Err(BadRank(|shp|))
  }

  /** The number of points of a volume. */
  function PointCount(d: Dimensions): int {
    d.x * d.y * d.z
  }

  /** A volume built from a decoded array has exactly one scalar per point. */
  lemma PointsMatchScalars(b: seq<byte>, img: ImageData)
    requires Decode(b).Ok? && ImageFromNpy(Decode(b).value) == Ok(img)
    ensures PointCount(img.dimensions) == |img.scalars|
  {
    var p := Decode(b).value;
    DecodeSucceeds(b);
    ViewContents(b, PayloadOffset(b), Product(p.shape), p.dtype, p.elements);
    var s := p.shape;
    var d := img.dimensions;
    if |s| == 3 {
      ProductOfThree(s);
      assert [d.x, d.y, d.z] == [s[2], s[1], s[0]];
    } else {
      ProductOfTwo(s);
      assert [d.x, d.y, d.z] == [s[1], s[0], 1];
    }
  }

  lemma ProductOfTwo(s: seq<int>)
    requires |s| == 2
    ensures Product(s) == s[1] * s[0]
  {
    var first := s[..1];
    assert first[..0] == [];
    assert Product(first) == s[0];
    assert Product(s) == s[0] * s[1];
  }

  lemma ProductOfThree(s: seq<int>)
    requires |s| == 3
    ensures Product(s) == s[2] * s[1] * s[0]
  {
    ProductOfTwo(s[..2]);
    assert Product(s) == s[1] * s[0] * s[2];
  }
}
