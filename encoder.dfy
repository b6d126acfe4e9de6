/** The encoder: one plane per distinct RGBA value of the image, each
    holding a stride sample of the positions whose RGB matches it, with the
    tonal attributes of the pixel found there. */
module Encoder {
  import opened Raster
  import opened Sampling
  import opened Ccvi

  // ---------------------------------------------------------------------
  // Attribute formulas.

  function Max3(a: Byte, b: Byte, c: Byte): Byte
  {
    if a >= b && a >= c then a else if b >= c then b else c
  }

  function Min3(a: Byte, b: Byte, c: Byte): Byte
  {
    if a <= b && a <= c then a else if b <= c then b else c
  }

  /** R + G + B, the numerator of the mean of the channels over 255
      (the stored height is this value over 765). */
  function HeightOf(c: Rgb): (h: nat)
    ensures h <= 765
    ensures h == 0 <==> c == Rgb(0, 0, 0)
    ensures h == 765 <==> c == Rgb(255, 255, 255)
  {
    c.r + c.g + c.b
  }

  /** max - min of the RGB channels (the stored saturation is this over
      255): zero exactly for greys, and at least the gap between any two
      channels. */
  function SaturationOf(c: Rgb): (s: nat)
    ensures s <= 255
    ensures s == 0 <==> c.r == c.g == c.b
    ensures c.r - c.g <= s && c.g - c.r <= s && c.g - c.b <= s
    ensures c.b - c.g <= s && c.r - c.b <= s && c.b - c.r <= s
  {
    Max3(c.r, c.g, c.b) - Min3(c.r, c.g, c.b)
  }

  /** The vector recorded for the pixel at `q`. */
  function VectorAt(img: Image, q: Coord): (v: Vector)
    requires img.Valid() && img.Contains(q)
    ensures v.x == q.x && v.y == q.y && v.alpha == img.At(q).a
    ensures v.height <= 765 && v.saturation <= 255
  {
    var p := img.At(q);
    Vector(q.x, q.y, HeightOf(RgbOf(p)), SaturationOf(RgbOf(p)), p.a)
  }

  /** The vectors recorded for a list of positions, in the same order. */
  function VectorsAt(img: Image, qs: seq<Coord>): (vs: seq<Vector>)
    requires img.Valid() && forall q :: q in qs ==> img.Contains(q)
  {
    seq(|qs|, i requires 0 <= i < |qs| => VectorAt(img, qs[i]))
  }

  /** Positions of the mask of an image are inside it. */
  lemma MaskInImage(img: Image, c: Rgb)
    requires img.Valid()
    ensures forall q :: q in MaskIndices(img.rows, c) ==> img.Contains(q)
  {
  }

  // ---------------------------------------------------------------------
  // The document the encoder produces.

  /** The plane built for grouping key `key`: its colour is the key's RGB,
      and its vectors come from the stride sample of the positions with
      that RGB, whatever their alpha. */
  function PlaneFor(img: Image, key: Pixel, margin: int): Plane
    requires img.Valid()
  {
    var mask := MaskIndices(img.rows, RgbOf(key));
    var k := Stride(|mask|, NumVectors(|mask|, margin));
    SampleRowMajor(mask, k);
    MaskInImage(img, RgbOf(key));
    Plane(RgbOf(key), VectorsAt(img, Sample(mask, margin)))
  }

  /** The planes for the grouping keys in order, skipping a key whose RGB
      matches no pixel. */
  function PlanesFor(img: Image, keys: seq<Pixel>, margin: int): (planes: seq<Plane>)
    requires img.Valid()
    ensures |planes| <= |keys|
  {
    if |keys| == 0 then []
    else
      var key := keys[|keys| - 1];
      PlanesFor(img, keys[..|keys| - 1], margin)
      + (if |MaskIndices(img.rows, RgbOf(key))| == 0 then [] else [PlaneFor(img, key, margin)])
  }

  /** The document for `img` at margin `margin` (in percent). */
  function Encoded(img: Image, margin: int): Document
    requires img.Valid()
  {
    Document(img.width, img.height, PlanesFor(img, Keys(img), margin), margin)
  }

  /** Builds the document plane by plane and vector by vector, appending
      to the plane list and to each plane's vector list. */
  method Encode(img: Image, margin: int) returns (doc: Document)
    requires img.Valid()
    ensures doc == Encoded(img, margin)
  {
    var colors := Keys(img);
    var planes: seq<Plane> := [];
    for i := 0 to |colors|
      invariant planes == PlanesFor(img, colors[..i], margin)
    {
      var color := colors[i];
      var rgb := RgbOf(color);
      var mask := MaskIndices(img.rows, rgb);
      assert colors[..i + 1][..i] == colors[..i];
      if |mask| != 0 {
        var numVectors := NumVectors(|mask|, margin);
        var sampled := StrideSample(mask, Stride(|mask|, numVectors));
        SampleRowMajor(mask, Stride(|mask|, numVectors));
        MaskInImage(img, rgb);
        var vectors := SampleVectors(img, sampled);
        planes := planes + [Plane(rgb, vectors)];
      }
    }
    assert colors[..|colors|] == colors;
    doc := Document(img.width, img.height, planes, margin);
  }

  /** The inner loop of the encoder: one vector per sampled position, in
      order, each with the attributes of the pixel found there. */
  method SampleVectors(img: Image, sampled: seq<Coord>) returns (vectors: seq<Vector>)
    requires img.Valid() && forall q :: q in sampled ==> img.Contains(q)
    ensures vectors == VectorsAt(img, sampled)
  {
    vectors := [];
    for j := 0 to |sampled|
      invariant |vectors| == j
      invariant forall t :: 0 <= t < j ==> vectors[t] == VectorAt(img, sampled[t])
    {
      var q := sampled[j];
      assert q in sampled;
      var p := img.rows[q.y][q.x];
      var height := HeightOf(RgbOf(p));
      var saturation := SaturationOf(RgbOf(p));
      vectors := vectors + [Vector(q.x, q.y, height, saturation, p.a)];
    }
  }

  // ---------------------------------------------------------------------
  // Properties of the encoded document.

  /** A pixel value that occurs in the image has a non-empty mask. */
  lemma OccursInMask(img: Image, key: Pixel)
    requires img.Valid() && Occurs(img.rows, key)
    ensures |MaskIndices(img.rows, RgbOf(key))| >= 1
  {
    var y, x :| 0 <= y < |img.rows| && 0 <= x < |img.rows[y]| && img.rows[y][x] == key;
    assert Coord(x, y) in MaskIndices(img.rows, RgbOf(key));
  }

  /** Every key taken from the image matches at least one pixel, so no key
      is skipped and plane i belongs to key i. */
  lemma {:induction false} PlanesForOccurring(img: Image, keys: seq<Pixel>, margin: int)
    requires img.Valid()
    requires forall p :: p in keys ==> Occurs(img.rows, p)
    ensures |PlanesFor(img, keys, margin)| == |keys|
    ensures forall i :: 0 <= i < |keys| ==> PlanesFor(img, keys, margin)[i] == PlaneFor(img, keys[i], margin)
  {
    if |keys| > 0 {
      var key := keys[|keys| - 1];
      PlanesForOccurring(img, keys[..|keys| - 1], margin);
      OccursInMask(img, key);
    }
  }

  /** One plane per distinct RGBA value of the image, in lexicographic RGBA
      order; plane i has the RGB of the i-th value. The header echoes the
      image's size and the margin. */
  lemma PlanePerKey(img: Image, margin: int)
    requires img.Valid()
    ensures var doc := Encoded(img, margin);
            var keys := Keys(img);
            doc.width == img.width && doc.height == img.height && doc.margin == margin
            && StrictlySorted(keys)
            && (forall p :: p in keys <==> Occurs(img.rows, p))
            && |doc.planes| == |keys|
            && forall i :: 0 <= i < |keys| ==> doc.planes[i].color == RgbOf(keys[i])
  {
    PlanesForOccurring(img, Keys(img), margin);
  }

  /** Plane i of the document is exactly the plane built for key i. */
  lemma PlaneAt(img: Image, margin: int, i: nat)
    requires img.Valid() && i < |Keys(img)|
    ensures |Encoded(img, margin).planes| == |Keys(img)|
    ensures Encoded(img, margin).planes[i] == PlaneFor(img, Keys(img)[i], margin)
  {
    PlanesForOccurring(img, Keys(img), margin);
  }

  /** Each vector of each plane names a pixel inside the image whose RGB is
      the plane's colour; it carries that pixel's own alpha, and height and
      saturation that depend on the plane's colour alone. */
  lemma VectorFacts(img: Image, margin: int, i: nat, j: nat)
    requires img.Valid()
    requires i < |Encoded(img, margin).planes|
    requires j < |Encoded(img, margin).planes[i].vectors|
    ensures var pl := Encoded(img, margin).planes[i];
            var v := pl.vectors[j];
            0 <= v.x < img.width && 0 <= v.y < img.height
            && RgbOf(img.rows[v.y][v.x]) == pl.color
            && v.alpha == img.rows[v.y][v.x].a
            && v.height == HeightOf(pl.color) && v.height <= 765
            && v.saturation == SaturationOf(pl.color) && v.saturation <= 255
  {
    PlanesForOccurring(img, Keys(img), margin);
    var key := Keys(img)[i];
    var mask := MaskIndices(img.rows, RgbOf(key));
    var k := Stride(|mask|, NumVectors(|mask|, margin));
    SampleRowMajor(mask, k);
    var q := Sample(mask, margin)[j];
    assert q in Sample(mask, margin);
  }

  /** Within a plane the vectors are in strictly increasing row-major
      order, so no position appears twice. */
  lemma PlaneRowMajor(img: Image, margin: int, i: nat)
    requires img.Valid()
    requires i < |Encoded(img, margin).planes|
    ensures var vs := Encoded(img, margin).planes[i].vectors;
            forall j, l :: 0 <= j < l < |vs| ==>
              vs[j].y < vs[l].y || (vs[j].y == vs[l].y && vs[j].x < vs[l].x)
  {
    PlanesForOccurring(img, Keys(img), margin);
    var key := Keys(img)[i];
    var mask := MaskIndices(img.rows, RgbOf(key));
    var k := Stride(|mask|, NumVectors(|mask|, margin));
    SampleRowMajor(mask, k);
  }

  /** The mask and stride behind plane i of the document. */
  lemma PlaneSample(img: Image, margin: int, i: nat)
    requires img.Valid() && i < |Keys(img)|
    ensures var mask := MaskIndices(img.rows, RgbOf(Keys(img)[i]));
            var sample := Sample(mask, margin);
            |mask| >= 1
            && |Encoded(img, margin).planes| == |Keys(img)|
            && |Encoded(img, margin).planes[i].vectors| == |sample|
            && forall j :: 0 <= j < |sample| ==>
                 Encoded(img, margin).planes[i].vectors[j].x == sample[j].x
                 && Encoded(img, margin).planes[i].vectors[j].y == sample[j].y
  {
    PlaneAt(img, margin, i);
    assert Keys(img)[i] in Keys(img);
    OccursInMask(img, Keys(img)[i]);
  }

  /** How many vectors a plane holds: ceil(count / k) for the stride k,
      where count is the number of positions with the plane's RGB; at
      least one, at most count, and at least the number asked for when
      that does not exceed count. */
  lemma PlaneCount(img: Image, margin: int, i: nat)
    requires img.Valid() && i < |Keys(img)|
    ensures |Encoded(img, margin).planes| == |Keys(img)|
    ensures var count := |MaskIndices(img.rows, RgbOf(Keys(img)[i]))|;
            var nv := NumVectors(count, margin);
            var n := |Encoded(img, margin).planes[i].vectors|;
            n == SampleSize(count, margin) && 1 <= n <= count
            && (if nv <= count then nv else count) <= n
  {
    PlaneSample(img, margin, i);
  }

  /** Which positions a plane keeps: its j-th vector sits at index j * k of
      the row-major list of the positions with the plane's RGB. */
  lemma PlanePositionAt(img: Image, margin: int, i: nat, j: nat)
    requires img.Valid() && i < |Keys(img)|
    requires j < SampleSize(|MaskIndices(img.rows, RgbOf(Keys(img)[i]))|, margin)
    ensures |Encoded(img, margin).planes| == |Keys(img)|
    ensures |Encoded(img, margin).planes[i].vectors| == SampleSize(|MaskIndices(img.rows, RgbOf(Keys(img)[i]))|, margin)
    ensures var mask := MaskIndices(img.rows, RgbOf(Keys(img)[i]));
            var k := Stride(|mask|, NumVectors(|mask|, margin));
            var v := Encoded(img, margin).planes[i].vectors[j];
            0 <= j * k < |mask| && v.x == mask[j * k].x && v.y == mask[j * k].y
  {
    PlaneSample(img, margin, i);
    var mask := MaskIndices(img.rows, RgbOf(Keys(img)[i]));
    StrideSampleAt(mask, Stride(|mask|, NumVectors(|mask|, margin)), j);
  }

  /** At margin 0 a plane keeps every position with its RGB; at margin 100
      it keeps only the first of them in row-major order. */
  lemma PlaneMarginEdges(img: Image, margin: int, i: nat)
    requires img.Valid() && i < |Keys(img)|
    ensures |Encoded(img, margin).planes| == |Keys(img)|
    ensures var mask := MaskIndices(img.rows, RgbOf(Keys(img)[i]));
            var vs := Encoded(img, margin).planes[i].vectors;
            |mask| >= 1
            && (margin <= 0 ==> |vs| == |mask| && forall j :: 0 <= j < |vs| ==> vs[j].x == mask[j].x && vs[j].y == mask[j].y)
            && (margin >= 100 ==> |vs| == 1 && vs[0].x == mask[0].x && vs[0].y == mask[0].y)
  {
    PlaneSample(img, margin, i);
    var mask := MaskIndices(img.rows, RgbOf(Keys(img)[i]));
    if margin <= 0 { ZeroMarginKeepsAll(mask, margin); }
    if margin >= 100 { FullMarginKeepsFirst(mask, margin); }
  }
}
