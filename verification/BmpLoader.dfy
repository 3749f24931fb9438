/** The BMP loader of `stb_image` (`bmp_load`). */
module BmpLoader {
  import opened Basics
  import opened BmpFormat
  import opened Bytes
  import opened Channels
  import opened ImageReader
  import opened PixelConvert
  import opened Powers
  import opened Scanlines

  method BmpLoad(s: Stbi, reqComp: nat) returns (result: Outcome)
    requires reqComp <= 4
    modifies s
    ensures result == BmpDecode(old(s.Rest()), reqComp)
  {
    hide At, Dropped, Le16At, Le32At, Image, PixelFormat, PixelStart, MasksOf, PaletteSize, Format.Valid;
    ghost var file := s.Rest();
    var b := s.Get8();
    DroppedTwice(file, 1, 0);
    if b != 0x42 {
      return Failed;
    }
    var m := s.Get8();
    DroppedTwice(file, 1, 1);
    if m != 0x4D {
      return Failed;
    }
    var offset, hsz := ReadFileHeader(s, file);
    if hsz != 12 && hsz != 40 && hsz != 56 && hsz != 108 {
      return Failed;
    }
    var imgX, imgY := ReadSize(s, file, hsz);
    var planes := s.Get16le();
    Le16After(file, Planes(file));
    if planes != 1 {
      return Failed;
    }
    var bpp := s.Get16le();
    Le16After(file, Planes(file) + 2);
    if bpp == 1 {
      return Failed;
    }
    var masks := Masks(0, 0, 0, 0);
    if hsz == 12 {
      NoMasks(file);
    } else {
      var compress := s.Get32le();
      Le32After(file, 30);
      if compress == 1 || compress == 2 {
        return Failed;
      }
      masks := ReadMasks(s, file, hsz, bpp, compress);
      if masks == None {
        return Failed;
      }
    }
    if imgX >= INT_LIMIT || Signed(imgY) == -INT_LIMIT || offset >= INT_LIMIT || offset < 14 + hsz {
      return Unmodelled;
    }
    var f;
    if bpp < 16 {
      var psize := if hsz == 12 then TruncatedDiv(offset - 38, 3) else (offset - 14 - hsz) / 4;
      SizeOfPalette(file, psize);
      if psize == 0 || psize > 256 {
        return Failed;
      }
      f := ReadPalette(s, file, offset, hsz, bpp, psize);
      if bpp != 4 && bpp != 8 {
        return Failed;
      }
    } else {
      var fits;
      f, fits := ChooseFormat(file, bpp, masks);
      if !fits {
        return Failed;
      }
      s.Skip(offset - 14 - hsz);
      DirectStart(file, offset, hsz);
    }
    FormatInWords(file);
    var target := if reqComp >= 3 then reqComp else if masks.a != 0 then 4 else 3;
    result := LoadImage(s, f, imgX, Abs(Signed(imgY)), target, Signed(imgY) > 0, reqComp, file);
  }

  lemma Le16After(s: seq<byte>, k: nat)
    ensures Le16At(Dropped(s, k), 0) == Le16At(s, k) && Dropped(Dropped(s, k), 2) == Dropped(s, k + 2)
  {
    hide At, Dropped;
    DroppedTwice(s, k, 0);
    DroppedTwice(s, k, 1);
    DroppedTwice(s, k, 2);
  }

  lemma Le32After(s: seq<byte>, k: nat)
    ensures Le32At(Dropped(s, k), 0) == Le32At(s, k) && Dropped(Dropped(s, k), 4) == Dropped(s, k + 4)
  {
    hide At, Dropped;
    DroppedTwice(s, k, 0);
    DroppedTwice(s, k, 1);
    DroppedTwice(s, k, 2);
    DroppedTwice(s, k, 3);
    DroppedTwice(s, k, 4);
  }

  method ReadFileHeader(s: Stbi, ghost file: seq<byte>) returns (offset: nat, hsz: nat)
    requires s.Rest() == Dropped(file, 2)
    modifies s
    ensures offset == Le32At(file, 10) && hsz == Le32At(file, 14) && s.Rest() == Dropped(file, 18)
  {
    hide Dropped, Le32At, Le16At;
    var size := s.Get32le();
    Le32After(file, 2);
    var reserved := s.Get16le();
    Le16After(file, 6);
    reserved := s.Get16le();
    Le16After(file, 8);
    offset := s.Get32le();
    Le32After(file, 10);
    hsz := s.Get32le();
    Le32After(file, 14);
  }

  method ReadSize(s: Stbi, ghost file: seq<byte>, hsz: nat) returns (x: nat, y: nat)
    requires s.Rest() == Dropped(file, 18) && hsz == HeaderSize(file)
    modifies s
    ensures x == Width(file) && Signed(y) == Height(file) && s.Rest() == Dropped(file, Planes(file))
  {
    hide Dropped, Le32At, Le16At;
    if hsz == 12 {
      x := s.Get16le();
      Le16After(file, 18);
      y := s.Get16le();
      Le16After(file, 20);
      Le16Small(file, 20);
    } else {
      x := s.Get32le();
      Le32After(file, 18);
      y := s.Get32le();
      Le32After(file, 22);
    }
  }

  lemma Le16Small(s: seq<byte>, k: nat)
    ensures Le16At(s, k) < 0x1_0000
  {
  }

  /** Where the header ends, with the masks behind it. */
  function HeaderEnd(s: seq<byte>): nat {
    14 + HeaderSize(s) + if MasksBehind(s) then 12 else 0
  }

  lemma NoMasks(file: seq<byte>)
    requires HeaderSize(file) == 12
    ensures MasksOf(file) == Masks(0, 0, 0, 0) && HeaderEnd(file) == 26
  {
  }

  lemma SizeOfPalette(file: seq<byte>, psize: int)
    requires psize == if HeaderSize(file) == 12 then TruncatedDiv(Le32At(file, 10) - 38, 3)
                      else (Le32At(file, 10) - 14 - HeaderSize(file)) / 4
    ensures psize == PaletteSize(file)
  {
  }

  /** The rest of a longer header: of its fields the loader keeps the masks of the channels. */
  method ReadMasks(s: Stbi, ghost file: seq<byte>, hsz: nat, bpp: nat, compress: nat) returns (m: Masks)
    requires s.Rest() == Dropped(file, 34) && hsz == HeaderSize(file) && (hsz == 40 || hsz == 56 || hsz == 108)
    requires bpp == Depth(file) && compress == Compression(file)
    modifies s
    ensures m == MasksOf(file) && (m.Masks? ==> s.Rest() == Dropped(file, HeaderEnd(file)))
  {
    hide Dropped, Le32At;
    SkipWords(s, 5, file, 34);
    m := Masks(0, 0, 0, 0);
    if hsz == 108 {
      m := ReadThree(s, file, 54);
      var ma := s.Get32le();
      Le32After(file, 66);
      m := m.(a := ma);
      SkipWords(s, 13, file, 70);
    } else {
      if hsz == 56 {
        SkipWords(s, 4, file, 54);
      }
      if bpp == 16 || bpp == 32 {
        if compress == 0 {
          m := if bpp == 32 then Masks(0xff_0000, 0xff00, 0xff, 0xff00_0000) else Masks(0x7c00, 0x3e0, 0x1f, 0);
        } else if compress == 3 {
          m := ReadThree(s, file, 14 + hsz);
          if m.r == m.g == m.b {
            return None;
          }
        } else {
          return None;
        }
      }
    }
  }

  method ReadThree(s: Stbi, ghost file: seq<byte>, ghost at: nat) returns (m: Masks)
    requires s.Rest() == Dropped(file, at)
    modifies s
    ensures m == MasksAt(file, at, 0) && s.Rest() == Dropped(file, at + 12)
  {
    hide Dropped, Le32At;
    var r := s.Get32le();
    Le32After(file, at);
    var g := s.Get32le();
    Le32After(file, at + 4);
    var b := s.Get32le();
    Le32After(file, at + 8);
    m := Masks(r, g, b, 0);
  }

  method SkipWords(s: Stbi, n: nat, ghost file: seq<byte>, ghost at: nat)
    requires s.Rest() == Dropped(file, at)
    modifies s
    ensures s.Rest() == Dropped(file, at + 4 * n)
  {
    hide Dropped, Le32At;
    for i := 0 to n
      invariant s.Rest() == Dropped(file, at + 4 * i)
    {
      var word := s.Get32le();
      Le32After(file, at + 4 * i);
    }
  }

  /** The colours, and the way to the pixels. */
  method ReadPalette(s: Stbi, ghost file: seq<byte>, offset: nat, hsz: nat, bpp: nat, psize: int) returns (f: Format)
    requires s.Rest() == Dropped(file, HeaderEnd(file)) && hsz == HeaderSize(file) && offset == Le32At(file, 10)
    requires bpp == Depth(file) < 16 && psize == PaletteSize(file) && offset >= 14 + hsz && MasksOf(file).Masks?
    modifies s
    ensures f == PixelFormat(file) && f.Indexed? && f.bits == bpp && s.Rest() == Dropped(file, PixelStart(file))
    ensures f.Valid() <==> bpp == 4 || bpp == 8
  {
    hide Dropped, At, Le32At, MasksOf;
    var entry := if hsz == 12 then 3 else 4;
    ghost var start := s.Rest();
    var palette := [];
    DropNothing(start);
    for i := 0 to Natural(psize)
      invariant palette == PaletteAt(start, entry, i) && s.Rest() == Dropped(start, entry * i)
    {
      ghost var at := entry * i;
      var b := s.Get8();
      DroppedTwice(start, at, 0);
      DroppedTwice(start, at, 1);
      DroppedTwice(start, at, 2);
      var g := s.Get8();
      DroppedTwice(start, at + 1, 0);
      DroppedTwice(start, at + 1, 1);
      var r := s.Get8();
      DroppedTwice(start, at + 2, 0);
      DroppedTwice(start, at + 2, 1);
      if hsz != 12 {
        var reserved := s.Get8();
        DroppedTwice(start, at + 3, 1);
      }
      palette := palette + [[r, g, b]];
    }
    PaletteFits(file);
    s.Skip(offset - 14 - hsz - psize * entry);
    DroppedTwice(start, entry * Natural(psize), offset - 14 - hsz - psize * entry);
    DroppedTwice(file, 14 + hsz, entry * Natural(psize) + (offset - 14 - hsz - psize * entry));
    f := Indexed(bpp, palette);
  }

  lemma PaletteFits(file: seq<byte>)
    requires Le32At(file, 10) >= 14 + HeaderSize(file)
    ensures PaletteSize(file) * Entry(file) <= Le32At(file, 10) - 14 - HeaderSize(file)
  {
  }

  /** Whether and how pixels of sixteen bits and more are taken apart. */
  method ChooseFormat(ghost file: seq<byte>, bpp: nat, m: Masks) returns (f: Format, fits: bool)
    requires bpp == Depth(file) >= 16 && m == MasksOf(file) && m.Masks?
    ensures f == PixelFormat(file) && fits == f.Valid()
  {
    hide At, Le32At, Le16At, MasksOf;
    var easy := 0;
    if bpp == 24 {
      easy := 1;
    } else if bpp == 32 {
      if m.b == 0xff && m.g == 0xff00 && m.r == 0xff00_0000 && m.a == 0xff00_0000 {
        easy := 2;
      }
    }
    if easy != 0 {
      return Direct(if easy == 2 then 4 else 3), true;
    }
    f := Masked(if bpp == 16 then 2 else 4, m);
    fits := m.r != 0 && m.g != 0 && m.b != 0;
  }

  lemma DirectStart(file: seq<byte>, offset: nat, hsz: nat)
    requires offset == Le32At(file, 10) >= 14 + hsz && hsz == HeaderSize(file) && Depth(file) >= 16
    ensures Dropped(Dropped(file, HeaderEnd(file)), offset - 14 - hsz) == Dropped(file, PixelStart(file))
  {
    hide Dropped, Le32At;
    DroppedTwice(file, HeaderEnd(file), offset - 14 - hsz);
  }

  lemma FormatInWords(file: seq<byte>)
    requires MasksOf(file).Masks?
    ensures InWords(PixelFormat(file))
  {
    hide Le32At, Le16At, At, PaletteAt;
    Le32Small(file, 54);
    Le32Small(file, 58);
    Le32Small(file, 62);
    Le32Small(file, 66);
    var k := 14 + HeaderSize(file);
    Le32Small(file, k);
    Le32Small(file, k + 4);
    Le32Small(file, k + 8);
  }

  lemma Le32Small(s: seq<byte>, k: nat)
    ensures Le32At(s, k) < 0x1_0000_0000
  {
    hide At;
  }

  /** Reads the pixels, turns them the right way up and converts them. */
  method LoadImage(s: Stbi, f: Format, x: nat, y: nat, target: nat, flipVertically: bool, reqComp: nat,
                   ghost file: seq<byte>)
    returns (result: Outcome)
    requires reqComp <= 4 && MasksOf(file).Masks? && f.Valid() && InWords(f)
    requires x == Width(file) && y == Abs(Height(file)) && target == Target(file, reqComp)
    requires flipVertically == (Height(file) > 0)
    modifies s
    ensures result == Image(file, f, old(s.Rest()), reqComp)
  {
    hide At, Dropped, Le16At, Le32At, Lines, LinesKnown, RowsReversed, Overflows, Converted, Format.Valid, RowBytes,
         InWords, MasksOf;
    if Overflows(x, target, y) {
      return TooLarge;
    }
    LinesLength(f, s.Rest(), target, x, y);
    var known, out := true, new byte[0];
    if f.Indexed? {
      known, out := ReadIndexedLines(s, f, target, x, y);
      if !known {
        return Uninitialised;
      }
    } else {
      out := ReadLines(s, f, target, x, y);
    }
    if flipVertically {
      FlipVertically(out, RowBytes(x, target), y);
    }
    if reqComp == 1 || reqComp == 2 {
      out := ConvertFormat(out, target, reqComp);
    }
    result := Loaded(x, y, target, out[..]);
  }

  method FlipVertically(data: array<byte>, w: nat, h: nat)
    requires data.Length == w * h
    modifies data
    ensures data[..] == RowsReversed(old(data[..]), w, h)
  {
    ghost var was := data[..];
    hide HalfFlipped, RowsReversed;
    NoneFlipped(was, w, h);
    for j := 0 to h / 2
      invariant HalfFlipped(data[..], was, w, h, j)
    {
      FlipRows(data, w, h, j, was);
    }
    AllFlipped(data[..], was, w, h, h / 2);
  }

  /** An array holding `done`, and `more` still to be stored, make `all`. */
  ghost predicate Filled(out: seq<byte>, z: nat, more: seq<byte>, all: seq<byte>) {
    z <= |out| == |all| && out[..z] + more == all
  }

  lemma FillStep(out: seq<byte>, out': seq<byte>, z: nat, p: seq<byte>, more: seq<byte>, all: seq<byte>)
    requires Filled(out, z, p + more, all) && |out'| == |out| && (z + |p| <= |out| ==> out'[..z + |p|] == out[..z] + p)
    ensures z + |p| <= |out| && Filled(out', z + |p|, more, all)
  {
    assert |out[..z] + (p + more)| == |all|;
    assert out[..z] + (p + more) == out[..z] + p + more;
  }

  lemma FillRoom(out: seq<byte>, z: nat, p: seq<byte>, more: seq<byte>, all: seq<byte>)
    requires Filled(out, z, p + more, all)
    ensures z + |p| <= |out|
  {
    assert |out[..z] + (p + more)| == |all|;
  }

  /** Stores the bytes that come next. */
  method Store(out: array<byte>, z: nat, p: seq<byte>, ghost more: seq<byte>, ghost all: seq<byte>)
    requires Filled(out[..], z, p + more, all)
    modifies out
    ensures z + |p| <= out.Length && Filled(out[..], z + |p|, more, all)
  {
    ghost var was := out[..];
    FillRoom(was, z, p, more, all);
    forall k | 0 <= k < |p| {
      out[z + k] := p[k];
    }
    assert out[..z + |p|] == was[..z] + p;
    FillStep(was, out[..], z, p, more, all);
  }

  lemma FillStart(out: seq<byte>, all: seq<byte>)
    requires |out| == |all|
    ensures Filled(out, 0, all, all)
  {
  }

  lemma FillEnd(out: seq<byte>, z: nat, more: seq<byte>, all: seq<byte>)
    requires Filled(out, z, more, all)
    ensures more == [] ==> out == all
  {
    if more == [] {
      assert out[..z] + more == out[..z];
    }
  }

  // Pixels of sixteen bits and more

  /** How far each channel is shifted, and how far apart its copies are. */
  datatype Shifts = Shifts(r: int, g: int, b: int, a: int, count: nat)

  ghost predicate ShiftsOf(sh: Shifts, f: Format) {
    f.Masked? ==>
      && f.masks.Masks?
      && sh.r == HighBit(f.masks.r) - 7 && sh.g == HighBit(f.masks.g) - 7
      && sh.b == HighBit(f.masks.b) - 7 && sh.a == HighBit(f.masks.a) - 7
      && sh.count == BitCount(f.masks.r)
  }

  ghost predicate InWords(f: Format) {
    f.Masked? && f.masks.Masks? ==>
      && f.masks.r < 0x1_0000_0000 && f.masks.g < 0x1_0000_0000
      && f.masks.b < 0x1_0000_0000 && f.masks.a < 0x1_0000_0000
  }

  method ComputeShifts(f: Format) returns (sh: Shifts)
    requires f.Valid() && InWords(f)
    ensures ShiftsOf(sh, f)
  {
    hide HighBit, BitCount;
    sh := Shifts(0, 0, 0, 0, 0);
    if f.Masked? {
      var r := ComputeHighBit(f.masks.r);
      var g := ComputeHighBit(f.masks.g);
      var b := ComputeHighBit(f.masks.b);
      var a := ComputeHighBit(f.masks.a);
      sh := Shifts(r - 7, g - 7, b - 7, a - 7, BitCount(f.masks.r));
    }
  }

  method TakeApart(v: nat, m: Masks, target: nat, sh: Shifts) returns (p: seq<byte>)
    requires m.Masks? && m.r > 0 && (target == 3 || target == 4) && ShiftsOf(sh, Masked(4, m))
    ensures p == MaskedPixel(v, m, target)
  {
    hide HighBit, ShiftSigned, Signed, And;
    var r := ComputeShiftSigned(Signed(And(v, m.r)), sh.r, sh.count);
    var g := ComputeShiftSigned(Signed(And(v, m.g)), sh.g, sh.count);
    var b := ComputeShiftSigned(Signed(And(v, m.b)), sh.b, sh.count);
    var a := 255;
    if m.a != 0 {
      a := ComputeShiftSigned(Signed(And(v, m.a)), sh.a, sh.count);
    }
    p := Sampled([r, g, b], a, target);
  }

  method ReadPixel(s: Stbi, f: Format, target: nat, sh: Shifts) returns (p: seq<byte>)
    requires f.Valid() && !f.Indexed? && (target == 3 || target == 4) && ShiftsOf(sh, f)
    modifies s
    ensures p == PixelAt(f, old(s.Rest()), target) && s.Rest() == Dropped(old(s.Rest()), f.Size())
  {
    hide At, Dropped, Le16At, Le32At, MaskedPixel, HighBit, BitCount;
    ghost var rest := s.Rest();
    match f
    case Direct(samples) =>
      var b := s.Get8();
      DroppedTwice(rest, 1, 0);
      DroppedTwice(rest, 1, 1);
      var g := s.Get8();
      DroppedTwice(rest, 2, 0);
      DroppedTwice(rest, 2, 1);
      var r := s.Get8();
      var a := 255;
      if samples == 4 {
        DroppedTwice(rest, 3, 0);
        DroppedTwice(rest, 3, 1);
        a := s.Get8();
      }
      p := Sampled([r, g, b], a, target);
    case Masked(size, m) =>
      var v;
      if size == 2 {
        v := s.Get16le();
      } else {
        v := s.Get32le();
      }
      p := TakeApart(v, m, target, sh);
  }

  method ReadLines(s: Stbi, f: Format, target: nat, x: nat, y: nat) returns (out: array<byte>)
    requires f.Valid() && !f.Indexed? && (target == 3 || target == 4) && InWords(f)
    modifies s
    ensures fresh(out) && out[..] == Lines(f, old(s.Rest()), target, x, y)
  {
    hide Lines, Line, PixelAt, Filled, Dropped, RowBytes, InWords, ShiftsOf;
    hide Format.Valid, Format.Size, Format.LineSize, Format.Padding;
    ghost var all := Lines(f, s.Rest(), target, x, y);
    LinesLength(f, s.Rest(), target, x, y);
    out := new byte[RowBytes(x, target) * y];
    var sh := ComputeShifts(f);
    var z: nat := 0;
    FillStart(out[..], all);
    for j := 0 to y
      invariant Filled(out[..], z, Lines(f, s.Rest(), target, x, y - j), all)
    {
      ghost var start := s.Rest();
      ghost var others := Lines(f, Dropped(start, f.LineSize(x) + f.Padding(x)), target, x, y - j - 1);
      LinesFirst(f, start, target, x, y - j);
      LineStart(f, start);
      for i := 0 to x
        invariant s.Rest() == Dropped(start, Consumed(f, i))
        invariant Filled(out[..], z, Line(f, s.Rest(), target, x - i) + others, all)
      {
        LineFirst(f, s.Rest(), target, x - i, others);
        PixelOver(f, start, i);
        var p := ReadPixel(s, f, target, sh);
        Store(out, z, p, Line(f, s.Rest(), target, x - i - 1) + others, all);
        z := z + |p|;
      }
      LineEnd(f, s.Rest(), target, others);
      LineOver(f, start, x);
      s.Skip(f.Padding(x));
    }
    FillEnd(out[..], z, Lines(f, s.Rest(), target, x, 0), all);
    LinesNone(f, s.Rest(), target, x);
  }

  /** The bytes of the first `i` pixels. */
  function Consumed(f: Format, i: nat): nat {
    f.Size() * i
  }

  lemma LineStart(f: Format, s: seq<byte>)
    ensures Dropped(s, Consumed(f, 0)) == s
  {
  }

  lemma PixelOver(f: Format, s: seq<byte>, i: nat)
    ensures Dropped(Dropped(s, Consumed(f, i)), f.Size()) == Dropped(s, Consumed(f, i + 1))
  {
    hide Dropped, Format.Size;
    Distributes(i, 1, f.Size());
    DroppedTwice(s, Consumed(f, i), f.Size());
  }

  lemma LineOver(f: Format, s: seq<byte>, x: nat)
    requires !f.Indexed?
    ensures Dropped(Dropped(s, Consumed(f, x)), f.Padding(x)) == Dropped(s, f.LineSize(x) + f.Padding(x))
  {
    hide Dropped, Format.Padding;
    DroppedTwice(s, Consumed(f, x), f.Padding(x));
  }

  lemma LinesFirst(f: Format, s: seq<byte>, target: nat, x: nat, y: nat)
    requires y > 0 && f.Valid() && (target == 3 || target == 4)
    ensures var next := Dropped(s, f.LineSize(x) + f.Padding(x));
            && Lines(f, s, target, x, y) == Line(f, s, target, x) + Lines(f, next, target, x, y - 1)
            && (f.Indexed? ==> (LinesKnown(f, s, x, y) <==> LineKnown(f, s, x) && LinesKnown(f, next, x, y - 1)))
  {
    hide Line, LineKnown, Dropped, Format.Padding, Format.LineSize;
  }

  lemma LinesNone(f: Format, s: seq<byte>, target: nat, x: nat)
    requires f.Valid() && (target == 3 || target == 4)
    ensures Lines(f, s, target, x, 0) == [] && (f.Indexed? ==> LinesKnown(f, s, x, 0))
  {
  }

  lemma LineFirst(f: Format, s: seq<byte>, target: nat, x: nat, others: seq<byte>)
    requires x > 0 && f.Valid() && !f.Indexed? && (target == 3 || target == 4)
    ensures Line(f, s, target, x) + others
            == PixelAt(f, s, target) + (Line(f, Dropped(s, f.Size()), target, x - 1) + others)
  {
    hide PixelAt, Dropped, Format.Size, Format.Valid;
    Regroup(PixelAt(f, s, target), Line(f, Dropped(s, f.Size()), target, x - 1), others);
  }

  lemma LineEnd(f: Format, s: seq<byte>, target: nat, others: seq<byte>)
    requires f.Valid() && (target == 3 || target == 4)
    ensures Line(f, s, target, 0) + others == others && (f.Indexed? ==> LineKnown(f, s, 0))
  {
  }

  // Pixels that index the palette

  function FirstIndex(f: Format, s: seq<byte>): nat
    requires f.Indexed?
  {
    if f.bits == 4 then At(s, 0) / 16 else At(s, 0)
  }

  function SecondIndex(f: Format, s: seq<byte>): nat
    requires f.Indexed?
  {
    if f.bits == 4 then At(s, 0) % 16 else At(s, 1)
  }

  /** The bytes of a pair of pixels. */
  function PairSize(f: Format): nat
    requires f.Indexed?
  {
    if f.bits == 4 then 1 else 2
  }

  /** The second pixel of a pair and what is behind it, if the line does not end before. */
  function AfterFirst(f: Format, s: seq<byte>, target: nat, x: nat): seq<byte>
    requires x > 0 && f.Valid() && f.Indexed? && (target == 3 || target == 4)
  {
    if x == 1 then []
    else Colour(f, SecondIndex(f, s), target) + Line(f, Dropped(s, PairSize(f)), target, x - 2)
  }

  lemma LinePair(f: Format, s: seq<byte>, target: nat, x: nat, others: seq<byte>)
    requires x > 0 && f.Valid() && f.Indexed? && (target == 3 || target == 4)
    ensures Line(f, s, target, x) + others
            == Colour(f, FirstIndex(f, s), target) + (AfterFirst(f, s, target, x) + others)
    ensures LineKnown(f, s, x) <==>
            FirstIndex(f, s) < |f.palette| &&
            (x == 1 || (SecondIndex(f, s) < |f.palette| && LineKnown(f, Dropped(s, PairSize(f)), x - 2)))
  {
    hide Colour, At, Dropped;
    var first := Colour(f, FirstIndex(f, s), target);
    DroppedTwice(s, 1, 0);
    DroppedTwice(s, 1, 1);
    assert Line(f, s, target, x) == first + AfterFirst(f, s, target, x);
    Regroup(first, AfterFirst(f, s, target, x), others);
  }

  lemma SecondOfPair(f: Format, s: seq<byte>, target: nat, x: nat, others: seq<byte>)
    requires x > 1 && f.Valid() && f.Indexed? && (target == 3 || target == 4)
    ensures AfterFirst(f, s, target, x) + others
            == Colour(f, SecondIndex(f, s), target) + (Line(f, Dropped(s, PairSize(f)), target, x - 2) + others)
  {
    hide Colour, Line, Dropped;
    Regroup(Colour(f, SecondIndex(f, s), target), Line(f, Dropped(s, PairSize(f)), target, x - 2), others);
  }

  /** The lines of a picture that indexes a palette, two pixels in each turn; `known` is false
      when a pixel is no colour of it. */
  method ReadIndexedLines(s: Stbi, f: Format, target: nat, x: nat, y: nat) returns (known: bool, out: array<byte>)
    requires f.Valid() && f.Indexed? && (target == 3 || target == 4)
    modifies s
    ensures fresh(out) && known == LinesKnown(f, old(s.Rest()), x, y)
    ensures known ==> out[..] == Lines(f, old(s.Rest()), target, x, y)
  {
    hide Lines, Line, LineKnown, LinesKnown, Colour, Filled, Dropped, RowBytes;
    hide Format.Valid, Format.LineSize, Format.Padding;
    ghost var all, allKnown := Lines(f, s.Rest(), target, x, y), LinesKnown(f, s.Rest(), x, y);
    LinesLength(f, s.Rest(), target, x, y);
    out := new byte[RowBytes(x, target) * y];
    var z: nat := 0;
    FillStart(out[..], all);
    for j := 0 to y
      invariant Filled(out[..], z, Lines(f, s.Rest(), target, x, y - j), all)
      invariant allKnown == LinesKnown(f, s.Rest(), x, y - j)
    {
      ghost var start := s.Rest();
      ghost var next := Dropped(start, f.LineSize(x) + f.Padding(x));
      ghost var others := Lines(f, next, target, x, y - j - 1);
      LinesFirst(f, start, target, x, y - j);
      known, z := ReadIndexedLine(s, f, target, x, out, z, others, all);
      if !known {
        return;
      }
      s.Skip(f.Padding(x));
      DroppedTwice(start, f.LineSize(x), f.Padding(x));
    }
    FillEnd(out[..], z, Lines(f, s.Rest(), target, x, 0), all);
    LinesNone(f, s.Rest(), target, x);
    known := true;
  }

  method ReadIndexedLine(s: Stbi, f: Format, target: nat, x: nat, out: array<byte>, z0: nat,
                         ghost others: seq<byte>, ghost all: seq<byte>)
    returns (known: bool, z: nat)
    requires f.Valid() && f.Indexed? && (target == 3 || target == 4)
    requires Filled(out[..], z0, Line(f, s.Rest(), target, x) + others, all)
    modifies s, out
    ensures known == LineKnown(f, old(s.Rest()), x)
    ensures known ==> Filled(out[..], z, others, all) && s.Rest() == Dropped(old(s.Rest()), f.LineSize(x))
  {
    hide Line, LineKnown, AfterFirst, Colour, Filled, Dropped, At, Format.Valid;
    BitsAre(f);
    ghost var start := s.Rest();
    DropNothing(start);
    z := z0;
    var i := 0;
    while i < x
      invariant i % 2 == 0 || i >= x
      invariant 0 <= i <= x && s.Rest() == Dropped(start, f.LineSize(i))
      invariant LineKnown(f, start, x) == LineKnown(f, s.Rest(), x - i)
      invariant Filled(out[..], z, Line(f, s.Rest(), target, x - i) + others, all)
    {
      ghost var rest := s.Rest();
      LinePair(f, rest, target, x - i, others);
      PairOver(f, start, i, x);
      var v: nat := s.Get8();
      var v2 := 0;
      if f.bits == 4 {
        v, v2 := v / 16, v % 16;
      }
      if v >= |f.palette| {
        return false, z;
      }
      Store(out, z, Colour(f, v, target), AfterFirst(f, rest, target, x - i) + others, all);
      z := z + target;
      if i + 1 == x {
        LastOfLine(f, rest, target, others);
        i := i + 1;
        break;
      }
      SecondOfPair(f, rest, target, x - i, others);
      if f.bits == 8 {
        v2 := s.Get8();
      }
      if v2 >= |f.palette| {
        return false, z;
      }
      Store(out, z, Colour(f, v2, target), Line(f, s.Rest(), target, x - i - 2) + others, all);
      z := z + target;
      i := i + 2;
    }
    LineEnd(f, s.Rest(), target, others);
    known := true;
  }

  lemma BitsAre(f: Format)
    requires f.Valid() && f.Indexed?
    ensures f.bits == 4 || f.bits == 8
  {
  }

  lemma LastOfLine(f: Format, s: seq<byte>, target: nat, others: seq<byte>)
    requires f.Valid() && f.Indexed? && (target == 3 || target == 4)
    ensures AfterFirst(f, s, target, 1) + others == others
  {
  }

  /** Reading on by a pair, or by the last pixel of a line. */
  lemma PairOver(f: Format, start: seq<byte>, i: nat, x: nat)
    requires f.Indexed? && f.Valid() && i % 2 == 0 && i < x
    ensures var rest := Dropped(start, f.LineSize(i));
            && At(Dropped(rest, 1), 0) == At(rest, 1) && Dropped(Dropped(rest, 1), 1) == Dropped(rest, 2)
            && Dropped(rest, 1) == Dropped(start, f.LineSize(i + 1))
            && (i + 1 < x ==> Dropped(rest, PairSize(f)) == Dropped(start, f.LineSize(i + 2)))
  {
    hide Dropped, At;
    var rest := Dropped(start, f.LineSize(i));
    DroppedTwice(rest, 1, 0);
    DroppedTwice(rest, 1, 1);
    DroppedTwice(start, f.LineSize(i), 1);
    DroppedTwice(start, f.LineSize(i), 2);
  }

  /** The conversion at the end; the rows of an image follow one another. */
  method ConvertFormat(data: array<byte>, n: nat, req: nat) returns (good: array<byte>)
    requires (n == 3 || n == 4) && 1 <= req <= 2
    ensures fresh(good) && good[..] == Converted(data[..], n, req)
  {
    hide Converted, Filled, Convert;
    ghost var all := Converted(data[..], n, req);
    ConvertedLength(data[..], n, req);
    good := new byte[data.Length / n * req];
    var src: nat, dest: nat := 0, 0;
    FillStart(good[..], all);
    assert data[0..] == data[..];
    while src + n <= data.Length
      invariant src <= data.Length && Filled(good[..], dest, Converted(data[src..], n, req), all)
    {
      var px := data[src..src + n];
      ConvertedFirst(data[src..], n, req);
      assert data[src..][..n] == px && data[src..][n..] == data[src + n..];
      var p := Convert(if n == 3 then px + [255] else px, req);
      Store(good, dest, p, Converted(data[src + n..], n, req), all);
      src, dest := src + n, dest + req;
    }
    ConvertedNone(data[src..], n, req);
    FillEnd(good[..], dest, Converted(data[src..], n, req), all);
  }

  lemma ConvertedFirst(data: seq<byte>, n: nat, req: nat)
    requires (n == 3 || n == 4) && 1 <= req <= 2 && |data| >= n
    ensures Converted(data, n, req)
            == Convert(if n == 3 then data[..n] + [255] else data[..n], req) + Converted(data[n..], n, req)
  {
  }

  lemma ConvertedNone(data: seq<byte>, n: nat, req: nat)
    requires (n == 3 || n == 4) && 1 <= req <= 2 && |data| < n
    ensures Converted(data, n, req) == []
  {
  }

  lemma {:induction false} ConvertedLength(data: seq<byte>, n: nat, req: nat)
    requires (n == 3 || n == 4) && 1 <= req <= 2
    ensures |Converted(data, n, req)| == |data| / n * req
    decreases |data|
  {
    hide Convert;
    if |data| >= n {
      ConvertedLength(data[n..], n, req);
    }
  }
}
