# CCVI converter core in Dafny

CCVI is a "vector" image format. The converter turns a raster image into
a CCVI document and back:

- The encoder (`convert_to_ccvi`) converts the image to RGBA. It then
  visits the image's distinct RGBA values in sorted order. For each value
  it collects the positions whose RGB matches, in row-major order. It
  keeps every k-th of them, with k taken from the margin of error. It
  records one vector per kept position: x, y, height (mean of the RGB
  channels), saturation (max minus min) and alpha.
- The decoder (`convert_from_ccvi`) replays those vectors onto a
  zero-filled RGBA canvas. It then saves the canvas as RGBA/PNG when some
  pixel is not fully opaque, and as RGB/JPEG otherwise.

The model is split into modules:

- `Raster` (`raster.dfy`): pixels and images, the sorted distinct RGBA
  values of an image (`np.unique` over the flattened image), and the
  row-major positions of one RGB value (`np.argwhere` of the mask).
- `Sampling` (`sampling.dfy`): the number of vectors asked for, the
  stride, and the `[::k]` slice.
- `Ccvi` (`document.dfy`): the document, its planes and its vectors.
- `Encoder` (`encoder.dfy`): the specification function `Encoded`, and
  the imperative `Encode`. `Encode` appends planes and vectors in two
  nested loops, as the source does, and is proved equal to `Encoded`.
- `Decoder` (`decoder.dfy`): the specification function `Decoding`, and
  the imperative `Decode`. `Decode` writes into an `array2<Pixel>` canvas
  in place, as the source writes into its numpy array, and is proved
  equal to `Decoding`.
- `RoundTrip` (`roundtrip.dfy`): what decoding the encoder's own document
  gives back.

Modelling choices:

- The margin of error is an integer percentage `margin`. It stands for
  `margin_error = margin / 100`, so 0 is perfect fidelity and 100 the
  lossiest setting. Any integer is accepted, as the source accepts any
  float.
- The floating-point vector attributes are held as the integer
  numerators they are computed from:
  - height is R + G + B (the stored value times 765);
  - saturation is max - min (the stored value times 255);
  - alpha is the A byte (the stored value times 255).
- The decoder writes `int(alpha * 255)`. For an alpha the encoder
  produced, that is the A byte again, and the model writes it as such.
- Canvas indexing follows numpy, as the code does. A coordinate `i` on an
  axis of length `n` is accepted when `-n <= i < n`, and a negative one
  counts from the end. Any other coordinate stops the decode with an
  `IndexError`.

## Model

| member | source | states |
|---|---|---|
| Raster.Flatten | CCVI.Converter.py:30 | the reshaped pixel list holds exactly the pixel values that occur in the image |
| Raster.Keys | CCVI.Converter.py:30 | the keys of an image are strictly increasing in lexicographic RGBA order and are exactly the pixel values that occur in it |
| Raster.Insert | CCVI.Converter.py:30 | adding a value to a sorted duplicate-free list keeps it sorted and duplicate-free, and adds exactly that value |
| Raster.Unique | CCVI.Converter.py:30 | the distinct values are strictly increasing in lexicographic R, G, B, A order and are exactly the values of the input |
| Raster.RowMatches | CCVI.Converter.py:34-37 | the positions of one row whose RGB equals the colour, strictly left to right |
| Raster.MaskIndices | CCVI.Converter.py:34-37 | a position is listed exactly when it is in the image and its RGB equals the colour (alpha ignored), and the list is in strictly increasing row-major order |
| Raster.RowMajorAppend | CCVI.Converter.py:37 | positions of earlier rows followed by one row's positions, left to right, stay in row-major order |
| Sampling.NumVectors | CCVI.Converter.py:38 | at least one vector is asked for; no more than the positions when the margin is not negative; all of them when the margin is 0 or less |
| Sampling.Stride | CCVI.Converter.py:39 | the stride is at least 1 and at most the count; stride times vectors asked for does not exceed the count; stride is 1 when at least count vectors are asked for |
| Sampling.StrideSample | CCVI.Converter.py:39 | the slice `[::k]` has ceil(length / k) elements |
| Sampling.StrideSampleAt | CCVI.Converter.py:39 | element i of the slice is the element at index i * k of the list, and that index exists |
| Sampling.StrideOne | CCVI.Converter.py:39 | a stride of 1 keeps the whole list |
| Sampling.SampleSize | CCVI.Converter.py:38-39 | for at least one position, the sample keeps at least 1 and at most count positions, and at least as many as asked for unless that exceeds count |
| Sampling.SizeBounds | CCVI.Converter.py:38-39 | the bounds on ceil(count / k) for the stride k |
| Sampling.Sample | CCVI.Converter.py:38-39 | the sample of a colour's positions has `SampleSize` elements |
| Sampling.ZeroMarginKeepsAll | CCVI.Converter.py:38-39 | at margin 0 or below, every position is kept, in order |
| Sampling.FullMarginKeepsFirst | CCVI.Converter.py:38-39 | at margin 100 or above, only the first position in row-major order is kept |
| Sampling.SampleRowMajor | CCVI.Converter.py:39 | the kept positions are positions of the list and stay in strictly row-major order, so none repeats |
| Encoder.HeightOf | CCVI.Converter.py:43 | the height numerator is at most 765; it is 0 exactly for black and 765 exactly for white |
| Encoder.SaturationOf | CCVI.Converter.py:44 | the saturation numerator is at most 255, is 0 exactly for greys, and is at least the gap between any two channels |
| Encoder.VectorAt | CCVI.Converter.py:43-51 | the vector for a position carries that position and that pixel's alpha, with height at most 765 and saturation at most 255 |
| Encoder.PlaneFor | CCVI.Converter.py:34-57 | the definition of one plane: the key's RGB and the vectors of the sampled positions of that RGB; the lemmas below state its properties |
| Encoder.PlanesFor | CCVI.Converter.py:33-57 | at most one plane per key, skipping a key whose RGB matches no pixel |
| Encoder.Encoded | CCVI.Converter.py:30-64 | the definition of the encoder's document, which `Encode` is proved to build and the lemmas below are about |
| Encoder.MaskInImage | CCVI.Converter.py:37 | every mask position lies inside the image |
| Encoder.Encode | CCVI.Converter.py:27-64 | the nested append loops build exactly the document `Encoded` describes |
| Encoder.SampleVectors | CCVI.Converter.py:41-52 | the inner loop builds one vector per sampled position, in order, with that pixel's attributes |
| Encoder.OccursInMask | CCVI.Converter.py:34-36 | a value taken from the image has a non-empty RGB mask, so the `continue` never fires |
| Encoder.PlanesForOccurring | CCVI.Converter.py:33-57 | when every key occurs in the image, there is one plane per key and plane i is the plane of key i |
| Encoder.PlanePerKey | CCVI.Converter.py:30-64 | the header echoes the image size and the margin; the keys are sorted, duplicate-free and exactly the image's RGBA values; there is one plane per key, with that key's RGB |
| Encoder.PlaneAt | CCVI.Converter.py:33-57 | plane i is the plane built for key i |
| Encoder.VectorFacts | CCVI.Converter.py:42-52 | each vector names a pixel inside the image whose RGB is the plane colour; it carries that pixel's alpha, and height and saturation of the plane colour |
| Encoder.PlaneRowMajor | CCVI.Converter.py:37-42 | within a plane, vectors are in strictly increasing row-major order |
| Encoder.PlaneSample | CCVI.Converter.py:34-47 | the mask behind plane i is non-empty, and the plane's vectors sit at the sampled positions |
| Encoder.PlaneCount | CCVI.Converter.py:37-42 | a plane holds `SampleSize` vectors: at least one, at most the colour's pixel count, and at least as many as asked for when that fits |
| Encoder.PlanePositionAt | CCVI.Converter.py:39-48 | vector j of a plane sits at index j * k of the colour's row-major positions |
| Encoder.PlaneMarginEdges | CCVI.Converter.py:38-39 | at margin 0, a plane lists every position of its colour in order; at margin 100, only the first |
| Decoder.AxisIndex | CCVI.Converter.py:82-83 | a numpy index is accepted exactly when `-n <= i < n`, and a negative one counts from the end |
| Decoder.Target | CCVI.Converter.py:81-83 | a vector names a canvas position exactly when both coordinates are accepted, and an in-range vector names its own position |
| Decoder.Writes | CCVI.Converter.py:78-83 | the definition of the write sequence: plane by plane, vector by vector, each vector writing the plane's RGB with its own alpha |
| Decoder.WritesMembers | CCVI.Converter.py:78-83 | a write is in the write sequence exactly when it is the write of some vector j of some plane i |
| Decoder.WritesSplit | CCVI.Converter.py:78-80 | the writes come in document order: those of the planes before plane i, then plane i's own in vector order, then those of the later planes |
| Decoder.Paint | CCVI.Converter.py:76-83 | the definition of one canvas pixel after the writes: the last write landing on it, or the zero fill |
| Decoder.PaintSnoc | CCVI.Converter.py:82-83 | one more write changes only the pixel it lands on |
| Decoder.FormatOf | CCVI.Converter.py:85-90 | RGB/JPEG is chosen exactly when every canvas pixel has alpha 255 |
| Decoder.Decoding | CCVI.Converter.py:75-90 | decoding succeeds exactly when every vector indexes the canvas, and then gives a canvas of the document's height and width |
| Decoder.Replay | CCVI.Converter.py:75-83 | the replayed canvas has the document's height and width |
| Decoder.Decode | CCVI.Converter.py:75-90 | the in-place loops give exactly `Decoding`: an `IndexError` when some vector is out of range, otherwise the replayed canvas and its format |
| Decoder.PaintPlane | CCVI.Converter.py:79-83 | the inner loop writes each vector's pixel in order, and fails exactly when some vector is out of range |
| Decoder.Snapshot | CCVI.Converter.py:87 | the rows read back hold the array's contents |
| Decoder.PaintLastWins | CCVI.Converter.py:78-83 | the last write landing on a position decides its pixel |
| Decoder.DecodeLastWins | CCVI.Converter.py:78-83 | later vectors overwrite earlier ones: when vector j of plane i lands on a position and no vector after it in plane and vector order does, the decoded pixel there is the one vector j of plane i writes |
| Decoder.PaintUntouched | CCVI.Converter.py:76 | a position no write lands on keeps the zero fill |
| Decoder.PaintAgreeing | CCVI.Converter.py:78-83 | a position whose writes all carry one value holds that value |
| Decoder.PaintTouched | CCVI.Converter.py:78-83 | a written position holds the value of one of the writes landing on it |
| Decoder.OutOfRangeFails | CCVI.Converter.py:81-83 | a vector at x >= width, x < -width, y >= height or y < -height makes the decode fail |
| Decoder.UncoveredForcesPng | CCVI.Converter.py:76-87 | a position no vector names stays transparent black and forces RGBA/PNG |
| Decoder.PixelAgreeing | CCVI.Converter.py:76-83 | where every vector landing on a position writes the same pixel, the canvas holds it, or transparent black if none lands there |
| Decoder.JpegMeansOpaque | CCVI.Converter.py:85-90 | RGB/JPEG is chosen only when every pixel has alpha 255, each written by some vector with alpha 255 |
| Decoder.OpaqueCoverIsJpeg | CCVI.Converter.py:85-90 | vectors that cover the canvas, all with alpha 255, give RGB/JPEG |
| RoundTrip.EncodedWrites | CCVI.Converter.py:42-83 | every vector of the encoder's document is in range, lands on its own position, and writes the source pixel found there |
| RoundTrip.DecodeEncoded | CCVI.Converter.py:22-90 | decoding the encoder's document never fails; each pixel is the source pixel where some vector names it, transparent black elsewhere |
| RoundTrip.ZeroMarginCovers | CCVI.Converter.py:38-39 | at margin 0, every pixel is named by some vector |
| RoundTrip.ZeroMarginRoundTrip | CCVI.Converter.py:22-90 | at margin 0, decoding gives back the image exactly, as RGBA/PNG exactly when some source pixel is not fully opaque |
| RoundTrip.KeyIndex | CCVI.Converter.py:30 | every pixel value has a place in the key list |
| RoundTrip.MaskIndex | CCVI.Converter.py:34-37 | every position has a place in the mask of its own RGB |
| RoundTrip.TwoAlphasKeys | CCVI.Converter.py:30 | a 2 × 1 image with one RGB at alpha 255 and alpha 0 has two keys, the alpha-0 one first |
| RoundTrip.TwoAlphasMask | CCVI.Converter.py:34-37 | that image's mask for the shared RGB lists both positions |
| RoundTrip.SameRgbTwoAlphas | CCVI.Converter.py:30-57 | that image encodes to two identical planes of the same colour, each vector carrying its own pixel's alpha |

## Left out

- File I/O is not part of this model: opening and converting the image,
  JSON reading and writing, `get_default_save_path` and saving the output.
  The encoder takes the RGBA array, and the decoder takes the parsed
  document. The Qt window and `CCVI.Viewer.py` are left out too.
- Floating point is not modelled. The vector attributes are integer
  numerators, and `margin_error` is an integer percentage.
- Sampling.NumVectors: computes floor(count * (100 - margin) / 100) exactly,
  not the float product `int(count * (1 - margin_error))`. Rounding in the
  float can make the source ask for one vector fewer. For example,
  count = 10 at margin_error = 0.8 gives 1 in the source and 2 here.
- Decoder.Decode: vector alphas are bytes and plane colours are byte
  triples. These cases are not modelled:
  - a hand-edited alpha that is not a multiple of 1/255;
  - a colour component outside 0..255, whose assignment into the uint8
    canvas at line 82 behaves differently across numpy versions;
  - a missing field, which raises `KeyError` at `data["width"]`,
    `plane["color"]` or `vec["x"]` (lines 75, 79 and 81);
  - a non-integer coordinate, which raises `IndexError` at the canvas
    index on line 82.
- Ccvi.Document: width and height are natural numbers. A negative size,
  which `np.zeros` rejects, is not modelled.
- The decoder follows numpy indexing, as the code does. A coordinate in
  -n..-1 wraps to the far edge and is not rejected. Coordinates outside
  -n..n-1 fail as `IndexError`.
- One might expect plane colours to be unique in an encoded document;
  they are not. Planes are keyed by full RGBA value
  while masks compare RGB only. An RGB present with two alphas gives two
  identical planes, as `RoundTrip.SameRgbTwoAlphas` shows. Decoding is
  unaffected, since both planes write the same pixels.
- One might expect planes in the order colours are first seen in the
  image; they are not. Plane order is the lexicographic RGBA order of
  `np.unique`, and the model follows it.
