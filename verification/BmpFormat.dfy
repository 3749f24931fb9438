/** What a BMP file says: where the program looks for its pixels, and how it reads them. */
module BmpFormat {
  import opened Basics
  import opened Bytes
  import opened Channels
  import opened ImageReader
  import opened PixelConvert
  import opened Scanlines

  /** How loading ends. An image may have more bytes than the signed numbers of the program
      count, and a pixel may be a colour that was never read. */
  datatype Outcome =
    | Loaded(x: nat, y: nat, comp: nat, data: seq<byte>)
    | Failed
    | TooLarge
    | Uninitialised
    | Unmodelled

  // The header

  function HeaderSize(s: seq<byte>): nat {
    Le32At(s, 14)
  }

  function Width(s: seq<byte>): nat {
    if HeaderSize(s) == 12 then Le16At(s, 18) else Le32At(s, 18)
  }

  /** Negative in images stored top row first. */
  function Height(s: seq<byte>): int {
    if HeaderSize(s) == 12 then Le16At(s, 20) else Signed(Le32At(s, 22))
  }

  /** Where the planes and the bits per pixel are. */
  function Planes(s: seq<byte>): nat {
    if HeaderSize(s) == 12 then 22 else 26
  }

  function Depth(s: seq<byte>): nat {
    Le16At(s, Planes(s) + 2)
  }

  function Compression(s: seq<byte>): nat {
    if HeaderSize(s) == 12 then 0 else Le32At(s, 30)
  }

  predicate Readable(s: seq<byte>) {
    && At(s, 0) == 0x42 && At(s, 1) == 0x4D
    && (HeaderSize(s) == 12 || HeaderSize(s) == 40 || HeaderSize(s) == 56 || HeaderSize(s) == 108)
    && Le16At(s, Planes(s)) == 1 && Depth(s) != 1
    && Compression(s) != 1 && Compression(s) != 2
    && MasksOf(s).Masks?
  }

  // The masks of the channels

  datatype Masks = Masks(r: nat, g: nat, b: nat, a: nat) | None

  predicate Easy(m: Masks)
    requires m.Masks?
  {
    m.r == m.a == 0xff00_0000 && m.g == 0xff00 && m.b == 0xff
  }

  /** The masks come behind a header of this kind, and are not part of its size. */
  predicate MasksBehind(s: seq<byte>) {
    && (HeaderSize(s) == 40 || HeaderSize(s) == 56) && (Depth(s) == 16 || Depth(s) == 32)
    && Compression(s) == 3
  }

  function MasksAt(s: seq<byte>, k: nat, a: nat): Masks {
    Masks(Le32At(s, k), Le32At(s, k + 4), Le32At(s, k + 8), a)
  }

  function MasksOf(s: seq<byte>): Masks {
    if HeaderSize(s) == 108 then MasksAt(s, 54, Le32At(s, 66))
    else if HeaderSize(s) == 12 || (Depth(s) != 16 && Depth(s) != 32) then Masks(0, 0, 0, 0)
    else if Compression(s) == 0 then
      if Depth(s) == 32 then Masks(0xff_0000, 0xff00, 0xff, 0xff00_0000) else Masks(0x7c00, 0x3e0, 0x1f, 0)
    else if Compression(s) != 3 then None
    else
      var m := MasksAt(s, 14 + HeaderSize(s), 0);
      if m.r == m.g == m.b then None else m
  }

  /** The sizes and places that the model follows. */
  predicate Plain(s: seq<byte>) {
    && Width(s) < INT_LIMIT && Height(s) > -INT_LIMIT
    && 14 + HeaderSize(s) <= Le32At(s, 10) < INT_LIMIT
  }

  // The pixels

  datatype Format =
    | Direct(samples: nat)
    | Masked(size: nat, masks: Masks)
    | Indexed(bits: nat, palette: seq<seq<byte>>)
  {
    predicate Valid() {
      match this
      case Direct(samples) => samples == 3 || samples == 4
      case Masked(size, m) => (size == 2 || size == 4) && m.Masks? && m.r > 0 && m.g > 0 && m.b > 0
      case Indexed(bits, palette) =>
        (bits == 4 || bits == 8) && forall i :: 0 <= i < |palette| ==> |palette[i]| == 3
    }

    /** The bytes of a pixel, or of two pixels of four bits. */
    function Size(): nat {
      match this
      case Direct(samples) => samples
      case Masked(size, _) => size
      case Indexed(_, _) => 1
    }

    /** The bytes of a line. */
    function LineSize(x: nat): nat {
      if Indexed? && bits == 4 then (x + 1) / 2 else Size() * x
    }

    /** The bytes that make it a multiple of four. */
    function Padding(x: nat): nat {
      (0 - LineSize(x)) % 4
    }
  }

  /** The colour and, if there is room, the alpha. */
  function Sampled(colour: seq<byte>, alpha: byte, target: nat): (p: seq<byte>)
    requires |colour| == 3 && (target == 3 || target == 4)
    ensures |p| == target
  {
    if target == 4 then colour + [alpha] else colour
  }

  function Colour(f: Format, i: nat, target: nat): (p: seq<byte>)
    requires f.Valid() && f.Indexed? && (target == 3 || target == 4)
    ensures |p| == target
  {
    Sampled(if i < |f.palette| then f.palette[i] else [0, 0, 0], 255, target)
  }

  function MaskedPixel(v: nat, m: Masks, target: nat): (p: seq<byte>)
    requires m.Masks? && m.r > 0 && (target == 3 || target == 4)
    ensures |p| == target
  {
    var c := BitCount(m.r);
    Sampled([Channel(v, m.r, c), Channel(v, m.g, c), Channel(v, m.b, c)],
            if m.a == 0 then 255 else Channel(v, m.a, c), target)
  }

  function PixelAt(f: Format, s: seq<byte>, target: nat): (p: seq<byte>)
    requires f.Valid() && (target == 3 || target == 4)
    ensures |p| == target
  {
    match f
    case Direct(samples) => Sampled([At(s, 2), At(s, 1), At(s, 0)], if samples == 4 then At(s, 3) else 255, target)
    case Masked(size, m) => MaskedPixel(if size == 2 then Le16At(s, 0) else Le32At(s, 0), m, target)
    case Indexed(_, _) => Colour(f, At(s, 0), target)
  }

  function Line(f: Format, s: seq<byte>, target: nat, x: nat): (p: seq<byte>)
    requires f.Valid() && (target == 3 || target == 4)
    decreases x
  {
    if x == 0 then []
    else if f.Indexed? && f.bits == 4 then
      var first := Colour(f, At(s, 0) / 16, target);
      if x == 1 then first
      else first + (Colour(f, At(s, 0) % 16, target) + Line(f, Dropped(s, 1), target, x - 2))
    else PixelAt(f, s, target) + Line(f, Dropped(s, f.Size()), target, x - 1)
  }

  function Lines(f: Format, s: seq<byte>, target: nat, x: nat, y: nat): seq<byte>
    requires f.Valid() && (target == 3 || target == 4)
    decreases y
  {
    if y == 0 then []
    else Line(f, s, target, x) + Lines(f, Dropped(s, f.LineSize(x) + f.Padding(x)), target, x, y - 1)
  }

  /** Every pixel is a colour of the palette. */
  predicate LineKnown(f: Format, s: seq<byte>, x: nat)
    requires f.Valid() && f.Indexed?
    decreases x
  {
    if x == 0 then true
    else if f.bits == 4 then
      && At(s, 0) / 16 < |f.palette|
      && (x == 1 || (At(s, 0) % 16 < |f.palette| && LineKnown(f, Dropped(s, 1), x - 2)))
    else At(s, 0) < |f.palette| && LineKnown(f, Dropped(s, 1), x - 1)
  }

  predicate LinesKnown(f: Format, s: seq<byte>, x: nat, y: nat)
    requires f.Valid() && f.Indexed?
    decreases y
  {
    y == 0 || (LineKnown(f, s, x) && LinesKnown(f, Dropped(s, f.LineSize(x) + f.Padding(x)), x, y - 1))
  }

  function RowBytes(x: nat, target: nat): nat {
    x * target
  }

  lemma {:induction false} LineLength(f: Format, s: seq<byte>, target: nat, x: nat)
    requires f.Valid() && (target == 3 || target == 4)
    ensures |Line(f, s, target, x)| == RowBytes(x, target)
    decreases x
  {
    hide Dropped, At, Colour, PixelAt, Format.Valid, Format.Size;
    if x > 1 && f.Indexed? && f.bits == 4 {
      LineLength(f, Dropped(s, 1), target, x - 2);
    } else if x > 0 && !(f.Indexed? && f.bits == 4) {
      LineLength(f, Dropped(s, f.Size()), target, x - 1);
    }
  }

  lemma {:induction false} LinesLength(f: Format, s: seq<byte>, target: nat, x: nat, y: nat)
    requires f.Valid() && (target == 3 || target == 4)
    ensures |Lines(f, s, target, x, y)| == RowBytes(x, target) * y
    decreases y
  {
    hide Line, Dropped, RowBytes, Format.Valid, Format.LineSize, Format.Padding;
    if y > 0 {
      LineLength(f, s, target, x);
      LinesLength(f, Dropped(s, f.LineSize(x) + f.Padding(x)), target, x, y - 1);
      LastRow(RowBytes(x, target), y);
    }
  }

  // The palette

  function PaletteAt(s: seq<byte>, entry: nat, n: nat): (p: seq<seq<byte>>)
    ensures |p| == n && forall i :: 0 <= i < n ==> |p[i]| == 3
  {
    seq(n, i requires 0 <= i < n => [At(s, entry * i + 2), At(s, entry * i + 1), At(s, entry * i)])
  }

  function Entry(s: seq<byte>): nat {
    if HeaderSize(s) == 12 then 3 else 4
  }

  function Natural(v: int): nat {
    if v < 0 then 0 else v
  }

  /** The size of the palette, as the program computes it. */
  function PaletteSize(s: seq<byte>): int {
    if HeaderSize(s) == 12 then TruncatedDiv(Le32At(s, 10) - 38, 3) else (Le32At(s, 10) - 14 - HeaderSize(s)) / 4
  }

  function PixelFormat(s: seq<byte>): Format
    requires MasksOf(s).Masks?
  {
    if Depth(s) < 16 then
      Indexed(Depth(s), PaletteAt(Dropped(s, 14 + HeaderSize(s)), Entry(s), Natural(PaletteSize(s))))
    else if Depth(s) == 24 then Direct(3)
    else if Depth(s) == 32 && Easy(MasksOf(s)) then Direct(4)
    else Masked(if Depth(s) == 16 then 2 else 4, MasksOf(s))
  }

  /** Where the program begins to read pixels. */
  function PixelStart(s: seq<byte>): nat {
    Le32At(s, 10) + if Depth(s) < 16 then Entry(s) * Natural(-PaletteSize(s)) else if MasksBehind(s) then 12 else 0
  }

  // The image

  function Target(s: seq<byte>, reqComp: nat): (n: nat)
    requires reqComp <= 4 && MasksOf(s).Masks?
    ensures n == 3 || n == 4
  {
    if reqComp >= 3 then reqComp else if MasksOf(s).a != 0 then 4 else 3
  }

  /** The size of the image is no signed number of 32 bits. */
  predicate Overflows(x: nat, target: nat, y: nat) {
    RowBytes(x, target) * y >= INT_LIMIT
  }

  /** All pixels with fewer components. */
  function Converted(data: seq<byte>, n: nat, req: nat): seq<byte>
    requires (n == 3 || n == 4) && 1 <= req <= 2
  {
    if |data| < n then []
    else Convert(if n == 3 then data[..n] + [255] else data[..n], req) + Converted(data[n..], n, req)
  }

  predicate Decodable(s: seq<byte>)
    requires MasksOf(s).Masks?
  {
    PixelFormat(s).Valid() && (Depth(s) < 16 ==> PaletteSize(s) != 0 && PaletteSize(s) <= 256)
  }

  function BmpDecode(s: seq<byte>, reqComp: nat): Outcome
    requires reqComp <= 4
  {
    if !Readable(s) then Failed
    else if !Plain(s) then Unmodelled
    else if !Decodable(s) then Failed
    else Image(s, PixelFormat(s), Dropped(s, PixelStart(s)), reqComp)
  }

  function Image(s: seq<byte>, f: Format, pixels: seq<byte>, reqComp: nat): Outcome
    requires reqComp <= 4 && MasksOf(s).Masks? && f.Valid()
  {
    var x, y, target := Width(s), Abs(Height(s)), Target(s, reqComp);
    if Overflows(x, target, y) then TooLarge
    else if f.Indexed? && !LinesKnown(f, pixels, x, y) then Uninitialised
    else
      LinesLength(f, pixels, target, x, y);
      var lines := Lines(f, pixels, target, x, y);
      var data := if Height(s) > 0 then RowsReversed(lines, RowBytes(x, target), y) else lines;
      Loaded(x, y, target, if reqComp == 1 || reqComp == 2 then Converted(data, target, reqComp) else data)
  }
}
