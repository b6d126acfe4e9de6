/** The decoder: replays every vector of a document onto a zero-filled
    canvas, later writes overwriting earlier ones, and then picks the output
    colour model from the canvas's alpha channel. */
module Decoder {
  import opened Raster
  import opened Ccvi

  datatype Option<T> = None | Some(value: T)

  /** The two output forms: RGBA saved as PNG, or RGB saved as JPEG. */
  datatype Format = Png | Jpeg

  datatype Decoded = Decoded(canvas: seq<seq<Pixel>>, format: Format)

  /** A decode either yields an image or stops at a vector whose position
      does not index the canvas (NumPy's IndexError). */
  datatype Outcome = Ok(image: Decoded) | IndexError

  // ---------------------------------------------------------------------
  // Where a vector lands.

  /** NumPy's rule for one index on an axis of length n: any i with
      -n <= i < n is valid, a negative one counting back from the end. */
  function AxisIndex(i: int, n: nat): (r: Option<nat>)
    ensures r.Some? <==> 0 <= i + n && i < n
    ensures r.Some? ==> r.value < n && (if i >= 0 then r.value == i else r.value == i + n)
  {
    if 0 <= i < n then Some(i)
    else if 0 <= i + n && i < 0 then Some(i + n)
    else None
  }

  /** The canvas position `canvas[y, x]` denotes for vector `v`, if any. */
  function Target(v: Vector, width: nat, height: nat): (t: Option<Coord>)
    ensures t.Some? <==> 0 <= v.x + width && v.x < width && 0 <= v.y + height && v.y < height
    ensures t.Some? ==> t.value.x < width && t.value.y < height
    ensures 0 <= v.x < width && 0 <= v.y < height ==> t == Some(Coord(v.x, v.y))
  {
    match (AxisIndex(v.x, width), AxisIndex(v.y, height))
    case (Some(x), Some(y)) => Some(Coord(x, y))
    case _ => None
  }

  // ---------------------------------------------------------------------
  // The sequence of canvas writes a document asks for.

  /** One write: the vector naming the position and the pixel value
      written there (the plane's RGB with the vector's alpha). */
  datatype Write = Write(v: Vector, px: Pixel)

  function WriteFor(pl: Plane, j: nat): Write
    requires j < |pl.vectors|
  {
    var v := pl.vectors[j];
    Write(v, Pixel(pl.color.r, pl.color.g, pl.color.b, v.alpha))
  }

  /** The writes of one plane, vector by vector. */
  function PlaneWrites(pl: Plane): seq<Write>
  {
    seq(|pl.vectors|, j requires 0 <= j < |pl.vectors| => WriteFor(pl, j))
  }

  /** The writes of a list of planes: plane by plane, in document order. */
  function Writes(planes: seq<Plane>): seq<Write>
  {
    if |planes| == 0 then []
    else Writes(planes[..|planes| - 1]) + PlaneWrites(planes[|planes| - 1])
  }

  /** The writes are exactly one per vector of each plane. */
  lemma {:induction false} WritesMembers(planes: seq<Plane>)
    ensures forall w :: w in Writes(planes) <==>
              exists i, j :: 0 <= i < |planes| && 0 <= j < |planes[i].vectors| && w == WriteFor(planes[i], j)
  {
    if |planes| > 0 {
      var init := planes[..|planes| - 1];
      var last := planes[|planes| - 1];
      WritesMembers(init);
      forall w ensures w in Writes(planes) <==>
        exists i, j :: 0 <= i < |planes| && 0 <= j < |planes[i].vectors| && w == WriteFor(planes[i], j)
      {
        if w in Writes(planes) {
          if w in Writes(init) {
            var i, j :| 0 <= i < |init| && 0 <= j < |init[i].vectors| && w == WriteFor(init[i], j);
            assert planes[i] == init[i];
          } else {
            assert w in PlaneWrites(last);
            var j :| 0 <= j < |last.vectors| && PlaneWrites(last)[j] == w;
            assert w == WriteFor(planes[|planes| - 1], j);
          }
        }
        if exists i, j :: 0 <= i < |planes| && 0 <= j < |planes[i].vectors| && w == WriteFor(planes[i], j) {
          var i, j :| 0 <= i < |planes| && 0 <= j < |planes[i].vectors| && w == WriteFor(planes[i], j);
          if i < |planes| - 1 {
            assert init[i] == planes[i];
            assert w in Writes(init);
          } else {
            assert PlaneWrites(last)[j] == w;
          }
        }
      }
    }
  }

  /** The writes come plane by plane in document order: those of the planes
      before plane i, then plane i's own, then those of the planes after. */
  lemma {:induction false} WritesSplit(planes: seq<Plane>, i: nat)
    requires i < |planes|
    ensures Writes(planes) == Writes(planes[..i]) + PlaneWrites(planes[i]) + Writes(planes[i + 1..])
  {
    var init := planes[..|planes| - 1];
    if i == |planes| - 1 {
      assert planes[..i] == init;
      assert planes[i + 1..] == [];
    } else {
      WritesSplit(init, i);
      assert init[..i] == planes[..i] && init[i] == planes[i];
      var tail := planes[i + 1..];
      assert tail[..|tail| - 1] == init[i + 1..];
      assert tail[|tail| - 1] == planes[|planes| - 1];
    }
  }

  /** The pixel at `c` after the writes `ws`, applied in order to a
      zero-filled canvas: the last write landing on `c` decides it. */
  function Paint(ws: seq<Write>, width: nat, height: nat, c: Coord): Pixel
  {
    if |ws| == 0 then Blank
    else if Target(ws[|ws| - 1].v, width, height) == Some(c) then ws[|ws| - 1].px
    else Paint(ws[..|ws| - 1], width, height, c)
  }

  /** One more write changes only the pixel it lands on. */
  lemma PaintSnoc(ws: seq<Write>, w: Write, width: nat, height: nat, c: Coord)
    ensures Paint(ws + [w], width, height, c)
            == if Target(w.v, width, height) == Some(c) then w.px else Paint(ws, width, height, c)
  {
    assert (ws + [w])[..|ws|] == ws;
  }

  /** Every vector of the document indexes the canvas. */
  predicate InBounds(doc: Document)
  {
    forall i, j :: 0 <= i < |doc.planes| && 0 <= j < |doc.planes[i].vectors| ==>
      Target(doc.planes[i].vectors[j], doc.width, doc.height).Some?
  }

  /** Some vector of the document lands on canvas position `c`. */
  ghost predicate Names(doc: Document, c: Coord)
  {
    exists i, j :: 0 <= i < |doc.planes| && 0 <= j < |doc.planes[i].vectors|
      && Target(doc.planes[i].vectors[j], doc.width, doc.height) == Some(c)
  }

  /** The canvas after replaying every write of the document. */
  function Replay(doc: Document): (canvas: seq<seq<Pixel>>)
    ensures |canvas| == doc.height
    ensures forall y :: 0 <= y < doc.height ==> |canvas[y]| == doc.width
  {
    var ws := Writes(doc.planes);
    seq(doc.height, y requires 0 <= y < doc.height =>
      seq(doc.width, x requires 0 <= x < doc.width => Paint(ws, doc.width, doc.height, Coord(x, y))))
  }

  /** Some canvas pixel is not fully opaque. */
  predicate AnyTranslucent(canvas: seq<seq<Pixel>>)
  {
    exists y, x :: 0 <= y < |canvas| && 0 <= x < |canvas[y]| && canvas[y][x].a < 255
  }

  /** RGBA/PNG when some alpha is below 255, RGB/JPEG otherwise. */
  function FormatOf(canvas: seq<seq<Pixel>>): (f: Format)
    ensures f == Jpeg <==> forall y, x :: 0 <= y < |canvas| && 0 <= x < |canvas[y]| ==> canvas[y][x].a == 255
  {
    if AnyTranslucent(canvas) then Png else Jpeg
  }

  /** What decoding a document yields. */
  function Decoding(doc: Document): (r: Outcome)
    ensures r.Ok? <==> InBounds(doc)
    ensures r.Ok? ==> |r.image.canvas| == doc.height
                      && forall y :: 0 <= y < doc.height ==> |r.image.canvas[y]| == doc.width
  {
    if InBounds(doc) then Ok(Decoded(Replay(doc), FormatOf(Replay(doc)))) else IndexError
  }

  /** Replays the document onto a zero-filled height × width canvas held in
      a two-dimensional array, writing each vector's pixel in place, then
      chooses the output format. */
  method Decode(doc: Document) returns (r: Outcome)
    ensures r == Decoding(doc)
  {
    var width, height := doc.width, doc.height;
    var canvas := new Pixel[height, width]((_, _) => Blank);
    ghost var done: seq<Write> := [];
    for i := 0 to |doc.planes|
      invariant done == Writes(doc.planes[..i])
      invariant forall y, x :: 0 <= y < height && 0 <= x < width ==>
                  canvas[y, x] == Paint(done, width, height, Coord(x, y))
      invariant forall i', j :: 0 <= i' < i && 0 <= j < |doc.planes[i'].vectors| ==>
                  Target(doc.planes[i'].vectors[j], width, height).Some?
    {
      assert doc.planes[..i + 1][..i] == doc.planes[..i];
      var ok := PaintPlane(canvas, doc.planes[i], done);
      if !ok {
        return IndexError;
      }
      done := done + PlaneWrites(doc.planes[i]);
    }
    assert doc.planes[..|doc.planes|] == doc.planes;
    var rows := Snapshot(canvas);
    forall y | 0 <= y < height ensures rows[y] == Replay(doc)[y] {
      assert forall x :: 0 <= x < width ==> rows[y][x] == Replay(doc)[y][x];
    }
    r := Ok(Decoded(rows, FormatOf(rows)));
  }

  /** The inner loop of the decoder: writes the plane's colour with each
      vector's alpha at each vector's position, in order, and reports
      false at the first vector that does not index the canvas. */
  method PaintPlane(canvas: array2<Pixel>, plane: Plane, ghost before: seq<Write>) returns (ok: bool)
    requires forall y, x :: 0 <= y < canvas.Length0 && 0 <= x < canvas.Length1 ==>
               canvas[y, x] == Paint(before, canvas.Length1, canvas.Length0, Coord(x, y))
    modifies canvas
    ensures ok <==> forall j :: 0 <= j < |plane.vectors| ==>
                      Target(plane.vectors[j], canvas.Length1, canvas.Length0).Some?
    ensures ok ==> forall y, x :: 0 <= y < canvas.Length0 && 0 <= x < canvas.Length1 ==>
                     canvas[y, x] == Paint(before + PlaneWrites(plane), canvas.Length1, canvas.Length0, Coord(x, y))
  {
    var width, height := canvas.Length1, canvas.Length0;
    var color := plane.color;
    ghost var done := before;
    for j := 0 to |plane.vectors|
      invariant done == before + PlaneWrites(plane)[..j]
      invariant forall y, x :: 0 <= y < height && 0 <= x < width ==>
                  canvas[y, x] == Paint(done, width, height, Coord(x, y))
      invariant forall j' :: 0 <= j' < j ==> Target(plane.vectors[j'], width, height).Some?
    {
      var vec := plane.vectors[j];
      var t := Target(vec, width, height);
      if t.None? {
        return false;
      }
      var px := Pixel(color.r, color.g, color.b, vec.alpha);
      canvas[t.value.y, t.value.x] := px;
      forall y, x | 0 <= y < height && 0 <= x < width
        ensures canvas[y, x] == Paint(done + [Write(vec, px)], width, height, Coord(x, y))
      {
        PaintSnoc(done, Write(vec, px), width, height, Coord(x, y));
      }
      assert PlaneWrites(plane)[..j + 1] == PlaneWrites(plane)[..j] + [Write(vec, px)];
      done := done + [Write(vec, px)];
    }
    assert PlaneWrites(plane)[..|plane.vectors|] == PlaneWrites(plane);
    ok := true;
  }

  /** The contents of a canvas array as a list of rows. */
  method Snapshot(canvas: array2<Pixel>) returns (rows: seq<seq<Pixel>>)
    ensures |rows| == canvas.Length0
    ensures forall y :: 0 <= y < |rows| ==> |rows[y]| == canvas.Length1
    ensures forall y, x :: 0 <= y < canvas.Length0 && 0 <= x < canvas.Length1 ==> rows[y][x] == canvas[y, x]
  {
    rows := seq(canvas.Length0, y requires 0 <= y < canvas.Length0 reads canvas =>
              seq(canvas.Length1, x requires 0 <= x < canvas.Length1 reads canvas => canvas[y, x]));
  }

  // ---------------------------------------------------------------------
  // What a pixel of the canvas ends up holding.

  /** Last write wins: if write j lands on `c` and no later write does,
      the pixel holds write j's value. */
  lemma {:induction false} PaintLastWins(ws: seq<Write>, width: nat, height: nat, c: Coord, j: nat)
    requires j < |ws| && Target(ws[j].v, width, height) == Some(c)
    requires forall l :: j < l < |ws| ==> Target(ws[l].v, width, height) != Some(c)
    ensures Paint(ws, width, height, c) == ws[j].px
  {
    if j < |ws| - 1 {
      PaintLastWins(ws[..|ws| - 1], width, height, c, j);
    }
  }

  /** A pixel no write lands on keeps the zero fill. */
  lemma {:induction false} PaintUntouched(ws: seq<Write>, width: nat, height: nat, c: Coord)
    requires forall l :: 0 <= l < |ws| ==> Target(ws[l].v, width, height) != Some(c)
    ensures Paint(ws, width, height, c) == Blank
  {
    if |ws| > 0 {
      PaintUntouched(ws[..|ws| - 1], width, height, c);
    }
  }

  /** A pixel that some write lands on, where every write landing on it
      carries the same value, holds that value. */
  lemma {:induction false} PaintAgreeing(ws: seq<Write>, width: nat, height: nat, c: Coord, p: Pixel)
    requires exists l :: 0 <= l < |ws| && Target(ws[l].v, width, height) == Some(c)
    requires forall l :: 0 <= l < |ws| && Target(ws[l].v, width, height) == Some(c) ==> ws[l].px == p
    ensures Paint(ws, width, height, c) == p
  {
    var init := ws[..|ws| - 1];
    if Target(ws[|ws| - 1].v, width, height) != Some(c) {
      var l :| 0 <= l < |ws| && Target(ws[l].v, width, height) == Some(c);
      assert init[l] == ws[l];
      PaintAgreeing(init, width, height, c, p);
    }
  }

  /** A pixel that some write lands on holds the value of one of the
      writes landing on it. */
  lemma {:induction false} PaintTouched(ws: seq<Write>, width: nat, height: nat, c: Coord)
    requires exists l :: 0 <= l < |ws| && Target(ws[l].v, width, height) == Some(c)
    ensures exists l :: 0 <= l < |ws| && Target(ws[l].v, width, height) == Some(c)
                        && Paint(ws, width, height, c) == ws[l].px
  {
    var init := ws[..|ws| - 1];
    if Target(ws[|ws| - 1].v, width, height) != Some(c) {
      var l :| 0 <= l < |ws| && Target(ws[l].v, width, height) == Some(c);
      assert init[l] == ws[l];
      PaintTouched(init, width, height, c);
      var m :| 0 <= m < |init| && Target(init[m].v, width, height) == Some(c)
               && Paint(init, width, height, c) == init[m].px;
      assert ws[m] == init[m];
    }
  }

  // ---------------------------------------------------------------------
  // Bounds and format selection.

  /** A vector at column `width` or beyond (or further left than -width),
      or likewise for rows, stops the decode. */
  lemma OutOfRangeFails(doc: Document, i: nat, j: nat)
    requires i < |doc.planes| && j < |doc.planes[i].vectors|
    requires var v := doc.planes[i].vectors[j];
             v.x >= doc.width || v.x + doc.width < 0 || v.y >= doc.height || v.y + doc.height < 0
    ensures Decoding(doc) == IndexError
  {
  }

  /** A canvas position that no vector lands on stays transparent black and
      forces the RGBA/PNG form. */
  lemma UncoveredForcesPng(doc: Document, c: Coord)
    requires InBounds(doc) && c.x < doc.width && c.y < doc.height
    requires forall i, j :: 0 <= i < |doc.planes| && 0 <= j < |doc.planes[i].vectors| ==>
               Target(doc.planes[i].vectors[j], doc.width, doc.height) != Some(c)
    ensures Decoding(doc).Ok?
    ensures Decoding(doc).image.canvas[c.y][c.x] == Blank
    ensures Decoding(doc).image.format == Png
  {
    var ws := Writes(doc.planes);
    WritesMembers(doc.planes);
    forall l | 0 <= l < |ws| ensures Target(ws[l].v, doc.width, doc.height) != Some(c) {
      assert ws[l] in ws;
    }
    PaintUntouched(ws, doc.width, doc.height, c);
    var canvas: seq<seq<Pixel>> := Replay(doc);
    assert canvas[c.y][c.x].a < 255;
  }

  /** A canvas position where every vector landing on it writes the same
      pixel `p` holds `p` if some vector lands there and transparent black
      otherwise. */
  lemma PixelAgreeing(doc: Document, c: Coord, p: Pixel)
    requires InBounds(doc) && c.x < doc.width && c.y < doc.height
    requires forall i, j ::
               0 <= i < |doc.planes| && 0 <= j < |doc.planes[i].vectors|
               && Target(doc.planes[i].vectors[j], doc.width, doc.height) == Some(c)
               ==> WriteFor(doc.planes[i], j).px == p
    ensures Decoding(doc).Ok?
    ensures Decoding(doc).image.canvas[c.y][c.x] == if Names(doc, c) then p else Blank
  {
    var ws := Writes(doc.planes);
    var canvas: seq<seq<Pixel>> := Replay(doc);
    assert canvas[c.y][c.x] == Paint(ws, doc.width, doc.height, c);
    WritesMembers(doc.planes);
    if Names(doc, c) {
      var i, j :| 0 <= i < |doc.planes| && 0 <= j < |doc.planes[i].vectors|
                  && Target(doc.planes[i].vectors[j], doc.width, doc.height) == Some(c);
      assert WriteFor(doc.planes[i], j) in ws;
      var l :| 0 <= l < |ws| && ws[l] == WriteFor(doc.planes[i], j);
      forall m | 0 <= m < |ws| && Target(ws[m].v, doc.width, doc.height) == Some(c)
        ensures ws[m].px == p
      {
        assert ws[m] in ws;
      }
      PaintAgreeing(ws, doc.width, doc.height, c, p);
    } else {
      forall m | 0 <= m < |ws| ensures Target(ws[m].v, doc.width, doc.height) != Some(c) {
        assert ws[m] in ws;
      }
      PaintUntouched(ws, doc.width, doc.height, c);
    }
  }

  /** Later vectors overwrite earlier ones: when vector j of plane i lands
      on `c` and no vector after it, in plane then vector order, does, the
      decoded pixel at `c` is the one vector j of plane i writes. */
  lemma DecodeLastWins(doc: Document, c: Coord, i: nat, j: nat)
    requires InBounds(doc) && i < |doc.planes| && j < |doc.planes[i].vectors|
    requires Target(doc.planes[i].vectors[j], doc.width, doc.height) == Some(c)
    requires forall l :: j < l < |doc.planes[i].vectors| ==>
               Target(doc.planes[i].vectors[l], doc.width, doc.height) != Some(c)
    requires forall m, l :: i < m < |doc.planes| && 0 <= l < |doc.planes[m].vectors| ==>
               Target(doc.planes[m].vectors[l], doc.width, doc.height) != Some(c)
    ensures Decoding(doc).Ok?
    ensures Decoding(doc).image.canvas[c.y][c.x] == WriteFor(doc.planes[i], j).px
  {
    var ws := Writes(doc.planes);
    var before, own, after := Writes(doc.planes[..i]), PlaneWrites(doc.planes[i]), Writes(doc.planes[i + 1..]);
    WritesSplit(doc.planes, i);
    WritesMembers(doc.planes[i + 1..]);
    var n := |before| + j;
    assert ws[n] == own[j];
    forall l | n < l < |ws| ensures Target(ws[l].v, doc.width, doc.height) != Some(c) {
      if l < |before| + |own| {
        assert ws[l] == own[l - |before|];
      } else {
        assert ws[l] == after[l - |before| - |own|];
        assert ws[l] in after;
        var m, t :| 0 <= m < |doc.planes[i + 1..]| && 0 <= t < |doc.planes[i + 1..][m].vectors|
                    && ws[l] == WriteFor(doc.planes[i + 1..][m], t);
        assert doc.planes[i + 1..][m] == doc.planes[i + 1 + m];
      }
    }
    PaintLastWins(ws, doc.width, doc.height, c, n);
    var canvas: seq<seq<Pixel>> := Replay(doc);
    assert canvas[c.y][c.x] == Paint(ws, doc.width, doc.height, c);
  }

  /** The RGB/JPEG form is chosen only when every canvas pixel is fully
      opaque, so dropping the alpha channel loses nothing; and then every
      pixel was written by some vector with alpha 255. */
  lemma JpegMeansOpaque(doc: Document, c: Coord)
    requires Decoding(doc).Ok? && Decoding(doc).image.format == Jpeg
    requires c.x < doc.width && c.y < doc.height
    ensures Decoding(doc).image.canvas[c.y][c.x].a == 255
    ensures exists i, j :: 0 <= i < |doc.planes| && 0 <= j < |doc.planes[i].vectors|
              && Target(doc.planes[i].vectors[j], doc.width, doc.height) == Some(c)
              && doc.planes[i].vectors[j].alpha == 255
  {
    var ws := Writes(doc.planes);
    var canvas: seq<seq<Pixel>> := Replay(doc);
    assert canvas[c.y][c.x] == Paint(ws, doc.width, doc.height, c);
    if forall l :: 0 <= l < |ws| ==> Target(ws[l].v, doc.width, doc.height) != Some(c) {
      PaintUntouched(ws, doc.width, doc.height, c);
    }
    PaintTouched(ws, doc.width, doc.height, c);
    var l :| 0 <= l < |ws| && Target(ws[l].v, doc.width, doc.height) == Some(c)
             && Paint(ws, doc.width, doc.height, c) == ws[l].px;
    WritesMembers(doc.planes);
    assert ws[l] in ws;
    var i, j :| 0 <= i < |doc.planes| && 0 <= j < |doc.planes[i].vectors| && ws[l] == WriteFor(doc.planes[i], j);
  }

  /** A document whose vectors cover the whole canvas, all with alpha 255,
      decodes to the RGB/JPEG form. */
  lemma OpaqueCoverIsJpeg(doc: Document)
    requires InBounds(doc)
    requires forall i, j :: 0 <= i < |doc.planes| && 0 <= j < |doc.planes[i].vectors| ==>
               doc.planes[i].vectors[j].alpha == 255
    requires forall c: Coord :: c.x < doc.width && c.y < doc.height ==> Names(doc, c)
    ensures Decoding(doc) == Ok(Decoded(Replay(doc), Jpeg))
  {
    var ws := Writes(doc.planes);
    var canvas: seq<seq<Pixel>> := Replay(doc);
    WritesMembers(doc.planes);
    forall y, x | 0 <= y < |canvas| && 0 <= x < |canvas[y]| ensures canvas[y][x].a == 255 {
      var c := Coord(x, y);
      assert canvas[y][x] == Paint(ws, doc.width, doc.height, c);
      assert Names(doc, c);
      var i, j :| 0 <= i < |doc.planes| && 0 <= j < |doc.planes[i].vectors|
                  && Target(doc.planes[i].vectors[j], doc.width, doc.height) == Some(c);
      assert WriteFor(doc.planes[i], j) in ws;
      var l :| 0 <= l < |ws| && ws[l] == WriteFor(doc.planes[i], j);
      PaintTouched(ws, doc.width, doc.height, c);
      var m :| 0 <= m < |ws| && Target(ws[m].v, doc.width, doc.height) == Some(c)
               && Paint(ws, doc.width, doc.height, c) == ws[m].px;
      assert ws[m] in ws;
    }
  }
}
