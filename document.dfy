/** The CCVI document: what the encoder produces and the decoder replays.
    The floating-point attributes of the on-disk format are held here as
    the integer numerators they are computed from. */
module Ccvi {
  import opened Raster

  /** One retained sample of a plane. `x` and `y` are the pixel position
      (integers as a document may hold any); `height` is R + G + B, that is
      765 times the stored mean-over-255; `saturation` is max - min of the
      RGB channels, 255 times the stored value; `alpha` is the A byte, 255
      times the stored value. */
  datatype Vector = Vector(x: int, y: int, height: nat, saturation: nat, alpha: Byte)

  /** The samples kept for one colour. */
  datatype Plane = Plane(color: Rgb, vectors: seq<Vector>)

  /** A whole document. `margin` is the margin of error as an integer
      percentage (the slider's value: 0 is perfect fidelity, 100 the
      lossiest setting). */
  datatype Document = Document(width: nat, height: nat, planes: seq<Plane>, margin: int)
}
