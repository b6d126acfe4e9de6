/** Raster images as the codec sees them: the height × width × 4 array of
    unsigned bytes that an image becomes after conversion to RGBA, stored
    row by row. This module also holds the two array queries the encoder
    is built on: the sorted distinct RGBA values of the image and the
    row-major list of positions whose RGB equals a given colour. */
module Raster {

  /** One unsigned 8-bit channel value. */
  type Byte = b: int | 0 <= b < 256

  datatype Pixel = Pixel(r: Byte, g: Byte, b: Byte, a: Byte)

  /** The colour part of a pixel, as stored in a plane's "color" triple. */
  datatype Rgb = Rgb(r: Byte, g: Byte, b: Byte)

  /** A position in the image: x is the column, y the row. */
  datatype Coord = Coord(x: nat, y: nat)

  /** The value of a freshly zero-filled canvas pixel: transparent black. */
  const Blank: Pixel := Pixel(0, 0, 0, 0)

  function RgbOf(p: Pixel): Rgb
  {
    Rgb(p.r, p.g, p.b)
  }

  /** An image: `rows` holds `height` rows of `width` pixels each. */
  datatype Image = Image(width: nat, height: nat, rows: seq<seq<Pixel>>)
  {
    predicate Valid()
    {
      |rows| == height && forall y :: 0 <= y < |rows| ==> |rows[y]| == width
    }

    predicate Contains(c: Coord)
    {
      c.x < width && c.y < height
    }

    function At(c: Coord): Pixel
      requires Valid() && Contains(c)
    {
      rows[c.y][c.x]
    }
  }

  /** True when pixel value `p` occurs somewhere in `rows`. */
  ghost predicate Occurs(rows: seq<seq<Pixel>>, p: Pixel)
  {
    exists y, x :: 0 <= y < |rows| && 0 <= x < |rows[y]| && rows[y][x] == p
  }

  // ---------------------------------------------------------------------
  // Distinct pixel values, in the order of a lexicographic sort over the
  // four channels (R first, then G, B, A).

  predicate Below(p: Pixel, q: Pixel)
  {
    p.r < q.r || (p.r == q.r && (p.g < q.g || (p.g == q.g && (p.b < q.b || (p.b == q.b && p.a < q.a)))))
  }

  predicate StrictlySorted(s: seq<Pixel>)
  {
    forall i, j :: 0 <= i < j < |s| ==> Below(s[i], s[j])
  }

  /** The rows laid end to end: the image reshaped to a list of pixels. */
  function Flatten(rows: seq<seq<Pixel>>): (r: seq<Pixel>)
    ensures forall p :: p in r <==> Occurs(rows, p)
  {
    if |rows| == 0 then []
    else
      var init := rows[..|rows| - 1];
      var r := Flatten(init) + rows[|rows| - 1];
      assert forall p :: Occurs(init, p) ==> Occurs(rows, p) by {
        forall p | Occurs(init, p) ensures Occurs(rows, p) {
          var y, x :| 0 <= y < |init| && 0 <= x < |init[y]| && init[y][x] == p;
          assert rows[y][x] == p;
        }
      }
      assert forall p :: p in rows[|rows| - 1] ==> Occurs(rows, p) by {
        forall p | p in rows[|rows| - 1] ensures Occurs(rows, p) {
          var x :| 0 <= x < |rows[|rows| - 1]| && rows[|rows| - 1][x] == p;
          assert rows[|rows| - 1][x] == p;
        }
      }
      assert forall p :: Occurs(rows, p) ==> p in r by {
        forall p | Occurs(rows, p) ensures p in r {
          var y, x :| 0 <= y < |rows| && 0 <= x < |rows[y]| && rows[y][x] == p;
          if y < |rows| - 1 {
            assert init[y][x] == p;
          } else {
            assert rows[|rows| - 1][x] == p;
          }
        }
      }
      r
  }

  /** Adds `p` to the sorted, duplicate-free list `keys`. */
  function Insert(keys: seq<Pixel>, p: Pixel): (r: seq<Pixel>)
    requires StrictlySorted(keys)
    ensures StrictlySorted(r)
    ensures forall q :: q in r <==> q in keys || q == p
  {
    if |keys| == 0 then [p]
    else if p == keys[0] then keys
    else if Below(p, keys[0]) then [p] + keys
    else
      var rest := Insert(keys[1..], p);
      assert forall q :: q in rest ==> Below(keys[0], q);
      [keys[0]] + rest
  }

  /** The distinct values of `ps`, sorted lexicographically. */
  function Unique(ps: seq<Pixel>): (r: seq<Pixel>)
    ensures StrictlySorted(r)
    ensures forall q :: q in r <==> q in ps
  {
    if |ps| == 0 then []
    else
      var init := ps[..|ps| - 1];
      assert ps == init + [ps[|ps| - 1]];
      Insert(Unique(init), ps[|ps| - 1])
  }

  /** The distinct RGBA values of an image in the order the encoder
      visits them. */
  function Keys(img: Image): (r: seq<Pixel>)
    ensures StrictlySorted(r)
    ensures forall p :: p in r <==> Occurs(img.rows, p)
  {
    Unique(Flatten(img.rows))
  }

  // ---------------------------------------------------------------------
  // Positions of a colour, in row-major order (row by row, and left to
  // right within a row).

  predicate Before(c: Coord, d: Coord)
  {
    c.y < d.y || (c.y == d.y && c.x < d.x)
  }

  predicate RowMajor(s: seq<Coord>)
  {
    forall i, j :: 0 <= i < j < |s| ==> Before(s[i], s[j])
  }

  /** The positions in row `y` whose RGB equals `c`, left to right. */
  function RowMatches(row: seq<Pixel>, y: nat, c: Rgb): (r: seq<Coord>)
    ensures forall q :: q in r <==> q.y == y && q.x < |row| && RgbOf(row[q.x]) == c
    ensures forall i, j :: 0 <= i < j < |r| ==> r[i].x < r[j].x
  {
    if |row| == 0 then []
    else
      var init := row[..|row| - 1];
      var prev := RowMatches(init, y, c);
      prev + (if RgbOf(row[|row| - 1]) == c then [Coord(|row| - 1, y)] else [])
  }

  /** The positions of all pixels whose RGB equals `c`, in row-major
      order. Alpha plays no part in the match. */
  function MaskIndices(rows: seq<seq<Pixel>>, c: Rgb): (r: seq<Coord>)
    ensures forall q :: q in r <==> q.y < |rows| && q.x < |rows[q.y]| && RgbOf(rows[q.y][q.x]) == c
    ensures RowMajor(r)
  {
    if |rows| == 0 then []
    else
      var init := rows[..|rows| - 1];
      var prev := MaskIndices(init, c);
      var last := RowMatches(rows[|rows| - 1], |rows| - 1, c);
      assert forall y :: 0 <= y < |init| ==> init[y] == rows[y];
      assert forall i :: 0 <= i < |prev| ==> prev[i] in prev;
      assert forall j :: 0 <= j < |last| ==> last[j] in last;
      RowMajorAppend(prev, last, |rows| - 1);
      prev + last
  }

  /** A row-major list of positions above row `y`, followed by positions
      of row `y` from left to right, is row-major. */
  lemma RowMajorAppend(prev: seq<Coord>, last: seq<Coord>, y: nat)
    requires RowMajor(prev) && forall i :: 0 <= i < |prev| ==> prev[i].y < y
    requires forall j :: 0 <= j < |last| ==> last[j].y == y
    requires forall i, j :: 0 <= i < j < |last| ==> last[i].x < last[j].x
    ensures RowMajor(prev + last)
  {
    var r := prev + last;
    forall i, j | 0 <= i < j < |r| ensures Before(r[i], r[j]) {
      if j < |prev| {
        assert r[i] == prev[i] && r[j] == prev[j];
      } else if i >= |prev| {
        assert r[i] == last[i - |prev|] && r[j] == last[j - |prev|];
      } else {
        assert r[i] == prev[i] && r[j] == last[j - |prev|];
      }
    }
  }
}
