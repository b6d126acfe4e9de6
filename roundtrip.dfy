/** Encoder and decoder together: what decoding the encoder's document
    gives back, at any margin and at margin 0. */
module RoundTrip {
  import opened Raster
  import opened Sampling
  import opened Ccvi
  import opened Encoder
  import opened Decoder

  /** Every vector of the encoder's document lands, without wrapping, on a
      position inside the image, and its write is exactly the source pixel
      found there: the plane's RGB is that pixel's RGB and the vector's
      alpha is that pixel's alpha. Two planes of the same RGB therefore
      write the same values. */
  lemma EncodedWrites(img: Image, margin: int)
    requires img.Valid()
    ensures var doc := Encoded(img, margin);
            InBounds(doc)
            && forall i, j :: 0 <= i < |doc.planes| && 0 <= j < |doc.planes[i].vectors| ==>
                 var w := WriteFor(doc.planes[i], j);
                 0 <= w.v.x < img.width && 0 <= w.v.y < img.height
                 && Target(w.v, img.width, img.height) == Some(Coord(w.v.x, w.v.y))
                 && w.px == img.rows[w.v.y][w.v.x]
  {
    var doc := Encoded(img, margin);
    forall i, j | 0 <= i < |doc.planes| && 0 <= j < |doc.planes[i].vectors|
      ensures Target(doc.planes[i].vectors[j], doc.width, doc.height).Some?
      ensures var w := WriteFor(doc.planes[i], j);
              0 <= w.v.x < img.width && 0 <= w.v.y < img.height
              && Target(w.v, img.width, img.height) == Some(Coord(w.v.x, w.v.y))
              && w.px == img.rows[w.v.y][w.v.x]
    {
      VectorFacts(img, margin, i, j);
    }
  }

  /** Decoding the encoder's document never fails, gives a canvas of the
      image's size, and each canvas pixel is the source pixel where some
      vector names it and transparent black where none does. */
  lemma DecodeEncoded(img: Image, margin: int, c: Coord)
    requires img.Valid() && img.Contains(c)
    ensures Decoding(Encoded(img, margin)).Ok?
    ensures var canvas := Decoding(Encoded(img, margin)).image.canvas;
            |canvas| == img.height && |canvas[c.y]| == img.width
            && canvas[c.y][c.x] == if Names(Encoded(img, margin), c) then img.At(c) else Blank
  {
    var doc := Encoded(img, margin);
    forall i, j | 0 <= i < |doc.planes| && 0 <= j < |doc.planes[i].vectors|
      ensures Target(doc.planes[i].vectors[j], doc.width, doc.height).Some?
      ensures Target(doc.planes[i].vectors[j], doc.width, doc.height) == Some(c) ==> WriteFor(doc.planes[i], j).px == img.At(c)
    {
      VectorFacts(img, margin, i, j);
    }
    PixelAgreeing(doc, c, img.At(c));
  }

  /** At margin 0 every pixel of the image is named by some vector. */
  lemma ZeroMarginCovers(img: Image, margin: int, c: Coord)
    requires img.Valid() && img.Contains(c) && margin <= 0
    ensures Names(Encoded(img, margin), c)
  {
    var doc := Encoded(img, margin);
    var i := KeyIndex(img, c);
    var mask := MaskIndices(img.rows, RgbOf(img.At(c)));
    var j := MaskIndex(img, c);
    PlaneMarginEdges(img, margin, i);
    var v := doc.planes[i].vectors[j];
    assert v.x == c.x && v.y == c.y;
    assert Target(v, doc.width, doc.height) == Some(c);
  }

  /** Where a pixel's value sits in the key list. */
  lemma KeyIndex(img: Image, c: Coord) returns (i: nat)
    requires img.Valid() && img.Contains(c)
    ensures i < |Keys(img)| && Keys(img)[i] == img.At(c)
  {
    assert Occurs(img.rows, img.At(c)) by {
      assert img.rows[c.y][c.x] == img.At(c);
    }
    assert img.At(c) in Keys(img);
    i :| 0 <= i < |Keys(img)| && Keys(img)[i] == img.At(c);
  }

  /** Where a position sits in the mask of its own colour. */
  lemma MaskIndex(img: Image, c: Coord) returns (j: nat)
    requires img.Valid() && img.Contains(c)
    ensures var mask := MaskIndices(img.rows, RgbOf(img.At(c)));
            j < |mask| && mask[j] == c
  {
    var mask := MaskIndices(img.rows, RgbOf(img.At(c)));
    assert c in mask;
    j :| 0 <= j < |mask| && mask[j] == c;
  }

  /** The zero-margin round trip: decoding the margin-0 document gives back
      the image exactly, and the output is RGB/JPEG exactly when every
      source pixel is fully opaque. */
  lemma ZeroMarginRoundTrip(img: Image, margin: int)
    requires img.Valid() && margin <= 0
    ensures Decoding(Encoded(img, margin)) == Ok(Decoded(img.rows, if AnyTranslucent(img.rows) then Png else Jpeg))
  {
    var doc := Encoded(img, margin);
    EncodedWrites(img, margin);
    var canvas := Replay(doc);
    forall y | 0 <= y < img.height ensures canvas[y] == img.rows[y] {
      forall x | 0 <= x < img.width ensures canvas[y][x] == img.rows[y][x] {
        ZeroMarginCovers(img, margin, Coord(x, y));
        DecodeEncoded(img, margin, Coord(x, y));
      }
    }
    assert canvas == img.rows;
  }

  // ---------------------------------------------------------------------
  // A 2 × 1 image whose two pixels share an RGB but not an alpha.

  const Solid: Pixel := Pixel(10, 20, 30, 255)
  const Clear: Pixel := Pixel(10, 20, 30, 0)
  const TwoAlphas: Image := Image(2, 1, [[Solid, Clear]])

  lemma TwoAlphasKeys()
    ensures TwoAlphas.Valid() && Keys(TwoAlphas) == [Clear, Solid]
  {
    assert TwoAlphas.rows[..0] == [];
    assert Flatten(TwoAlphas.rows) == [Solid, Clear];
    assert [Solid, Clear][..1] == [Solid];
    assert [Solid][..0] == [];
    assert Unique([Solid]) == [Solid];
    assert Unique([Solid, Clear]) == Insert([Solid], Clear);
  }

  lemma TwoAlphasMask()
    ensures MaskIndices(TwoAlphas.rows, Rgb(10, 20, 30)) == [Coord(0, 0), Coord(1, 0)]
  {
    var c := Rgb(10, 20, 30);
    assert [Solid, Clear][..1] == [Solid];
    assert [Solid][..0] == [];
    var first := RowMatches([Solid], 0, c);
    assert first == RowMatches([], 0, c) + [Coord(0, 0)];
    var both := RowMatches([Solid, Clear], 0, c);
    assert both == first + [Coord(1, 0)];
    assert TwoAlphas.rows[..0] == [];
    assert MaskIndices(TwoAlphas.rows, c) == MaskIndices([], c) + both;
  }

  /** The plane list is keyed by full RGBA value while the mask compares
      RGB only: a colour present with two alpha values gets two planes of
      the same colour with the same vectors, each vector carrying its own
      pixel's alpha rather than the alpha of the plane's key. */
  lemma SameRgbTwoAlphas()
    ensures TwoAlphas.Valid()
    ensures var vs := [Vector(0, 0, 60, 20, 255), Vector(1, 0, 60, 20, 0)];
            Encoded(TwoAlphas, 0).planes == [Plane(Rgb(10, 20, 30), vs), Plane(Rgb(10, 20, 30), vs)]
  {
    var c := Rgb(10, 20, 30);
    TwoAlphasKeys();
    TwoAlphasMask();
    var mask := MaskIndices(TwoAlphas.rows, c);
    ZeroMarginKeepsAll(mask, 0);
    var vs := [Vector(0, 0, 60, 20, 255), Vector(1, 0, 60, 20, 0)];
    assert HeightOf(c) == 60 && SaturationOf(c) == 20;
    assert VectorsAt(TwoAlphas, mask) == vs by {
      assert VectorAt(TwoAlphas, Coord(0, 0)) == vs[0];
      assert VectorAt(TwoAlphas, Coord(1, 0)) == vs[1];
    }
    PlaneAt(TwoAlphas, 0, 0);
    PlaneAt(TwoAlphas, 0, 1);
    assert PlaneFor(TwoAlphas, Clear, 0) == Plane(c, vs);
    assert PlaneFor(TwoAlphas, Solid, 0) == Plane(c, vs);
  }
}
