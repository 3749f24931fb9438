/** Conversion of pixels to fewer components (`compute_y`, `convert_format`). */
module PixelConvert {
  import opened Bytes

  /** `compute_y`: the luminance of a colour. */
  function Luminance(r: byte, g: byte, b: byte): byte {
    (r * 77 + g * 150 + 29 * b) / 0x100
  }

  lemma GreyIsItself(v: byte)
    ensures Luminance(v, v, v) == v
  {
  }

  /** Red, green and blue weigh 77, 150 and 29 in 256. */
  lemma Weights(r: byte, g: byte, b: byte)
    ensures var l: nat := Luminance(r, g, b); 256 * l <= 77 * r + 150 * g + 29 * b < 256 * l + 256
  {
  }

  /** A pixel of red, green, blue and alpha, with so many components. */
  function Convert(t: seq<byte>, req: nat): (p: seq<byte>)
    requires |t| == 4 && 1 <= req <= 4
    ensures |p| == req
  {
    match req
    case 1 => [Luminance(t[0], t[1], t[2])]
    case 2 => [Luminance(t[0], t[1], t[2]), t[3]]
    case 3 => [t[0], t[1], t[2]]
    case _ => t
  }
}
