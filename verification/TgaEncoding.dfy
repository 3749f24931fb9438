/** TGA files of every kind, written from pixels: grey or coloured, with alpha or without, in
    place or by a colour map, one by one or in packets. They load as those pixels. */
module TgaEncoding {
  import opened Basics
  import opened Bytes
  import opened ImageReader
  import opened PixelConvert
  import opened Powers
  import opened Scanlines
  import opened TgaFormat
  import opened TgaLoader

  // Pixels

  datatype Pixel =
    | Grey(v: byte)
    | GreyAlpha(v: byte, a: byte)
    | Colour(r: byte, g: byte, b: byte)
    | ColourAlpha(r: byte, g: byte, b: byte, a: byte)
  {
    function Samples(): (n: nat)
      ensures 1 <= n <= 4
    {
      match this
      case Grey(_) => 1
      case GreyAlpha(_, _) => 2
      case Colour(_, _, _) => 3
      case ColourAlpha(_, _, _, _) => 4
    }

    /** Blue comes first in the file. */
    function InFile(): (bytes: seq<byte>)
      ensures |bytes| == Samples()
    {
      match this
      case Grey(v) => [v]
      case GreyAlpha(v, a) => [v, a]
      case Colour(r, g, b) => [b, g, r]
      case ColourAlpha(r, g, b, a) => [b, g, r, a]
    }

    /** Loaded with so many components. */
    function Wanted(req: nat): (bytes: seq<byte>)
      requires 1 <= req <= 4
      ensures |bytes| == req
    {
      match this
      case Grey(v) => [[v], [v, 255], [v, v, v], [v, v, v, 255]][req - 1]
      case GreyAlpha(v, a) => [[v], [v, a], [v, v, v], [v, v, v, a]][req - 1]
      case Colour(r, g, b) => [[Luminance(r, g, b)], [Luminance(r, g, b), 255], [r, g, b], [r, g, b, 255]][req - 1]
      case ColourAlpha(r, g, b, a) => [[Luminance(r, g, b)], [Luminance(r, g, b), a], [r, g, b], [r, g, b, a]][req - 1]
    }
  }

  lemma PixelLoads(p: Pixel, req: nat)
    requires 1 <= req <= 4
    ensures Convert(Trans(p.InFile()), req) == p.Wanted(req)
  {
    if p.Grey? || p.GreyAlpha? {
      GreyIsItself(p.v);
      hide Luminance;
    }
  }

  /** Where the pixels of a picture are: in the file itself, or in its colour map. */
  datatype Store = Inline(samples: nat) | ByMap(colours: seq<Pixel>) {
    predicate Valid() {
      if Inline? then 1 <= samples <= 4
      else 1 <= |colours| < 0x1_0000 && forall i :: 0 <= i < |colours| ==> colours[i].Samples() == colours[0].Samples()
    }

    function Samples(): (n: nat)
      requires Valid()
      ensures 1 <= n <= 4
    {
      if Inline? then samples else colours[0].Samples()
    }
  }

  datatype Item = Here(p: Pixel) | Index(i: byte)

  predicate IsItem(s: Store, x: Item)
    requires s.Valid()
  {
    if s.Inline? then x.Here? && x.p.Samples() == s.samples else x.Index?
  }

  function ItemBytes(s: Store, x: Item): (bytes: seq<byte>)
    requires s.Valid() && IsItem(s, x)
    ensures |bytes| == if s.Inline? then s.samples else 1
  {
    if s.Inline? then x.p.InFile() else [x.i]
  }

  /** An index past the map stands for its first colour. */
  function ItemPixel(s: Store, x: Item): Pixel
    requires s.Valid() && IsItem(s, x)
  {
    if s.Inline? then x.p else if x.i < |s.colours| then s.colours[x.i] else s.colours[0]
  }

  predicate Items(s: Store, xs: seq<Item>)
    requires s.Valid()
  {
    forall i :: 0 <= i < |xs| ==> IsItem(s, xs[i])
  }

  function ItemsBytes(s: Store, xs: seq<Item>): seq<byte>
    requires s.Valid() && Items(s, xs)
  {
    if xs == [] then [] else ItemBytes(s, xs[0]) + ItemsBytes(s, xs[1..])
  }

  /** The picture: one pixel after the other. */
  function Picture(s: Store, xs: seq<Item>, req: nat): seq<byte>
    requires s.Valid() && Items(s, xs) && 1 <= req <= 4
  {
    if xs == [] then [] else ItemPixel(s, xs[0]).Wanted(req) + Picture(s, xs[1..], req)
  }

  /** Up to 128 pixels: one as often as it says, or each of them. */
  datatype Packet = Same(x: Item, n: nat) | Each(xs: seq<Item>) {
    predicate Valid(s: Store)
      requires s.Valid()
    {
      if Same? then IsItem(s, x) && 1 <= n <= 128 else Items(s, xs) && 1 <= |xs| <= 128
    }

    function Meant(): seq<Item> {
      if Same? then seq(n, _ => x) else xs
    }
  }

  function PacketBytes(s: Store, p: Packet): seq<byte>
    requires s.Valid() && p.Valid(s)
  {
    if p.Same? then [128 + (p.n - 1)] + ItemBytes(s, p.x) else [|p.xs| - 1] + ItemsBytes(s, p.xs)
  }

  predicate Packed(s: Store, ps: seq<Packet>)
    requires s.Valid()
  {
    forall i :: 0 <= i < |ps| ==> ps[i].Valid(s)
  }

  function PacketsBytes(s: Store, ps: seq<Packet>): seq<byte>
    requires s.Valid() && Packed(s, ps)
  {
    if ps == [] then [] else PacketBytes(s, ps[0]) + PacketsBytes(s, ps[1..])
  }

  function Unpacked(ps: seq<Packet>): seq<Item> {
    if ps == [] then [] else ps[0].Meant() + Unpacked(ps[1..])
  }

  lemma {:induction false} UnpackedItems(s: Store, ps: seq<Packet>)
    requires s.Valid() && Packed(s, ps)
    ensures Items(s, Unpacked(ps))
    decreases |ps|
  {
    if ps != [] {
      UnpackedItems(s, ps[1..]);
    }
  }

  // Reading them

  function ColoursBytes(colours: seq<Pixel>): seq<byte> {
    if colours == [] then [] else colours[0].InFile() + ColoursBytes(colours[1..])
  }

  function FormatOf(s: Store): Format
    requires s.Valid()
  {
    if s.Inline? then Direct(s.samples) else Mapped(s.Samples(), |s.colours|, ColoursBytes(s.colours))
  }

  lemma {:induction false} ColourAt(colours: seq<Pixel>, n: nat, i: nat)
    requires i < |colours| && forall k :: 0 <= k < |colours| ==> colours[k].Samples() == n
    ensures |ColoursBytes(colours)| == |colours| * n && 0 <= i * n <= i * n + n <= |colours| * n
    ensures ColoursBytes(colours)[i * n..i * n + n] == colours[i].InFile()
    decreases |colours|
  {
    hide Pixel.InFile;
    var first, rest := colours[0].InFile(), colours[1..];
    Distributes(|rest|, 1, n);
    if i > 0 {
      ColourAt(rest, n, i - 1);
      Distributes(i - 1, 1, n);
      Behind(first, ColoursBytes(rest), (i - 1) * n, n);
    } else {
      if rest != [] {
        ColourAt(rest, n, 0);
      }
      assert (first + ColoursBytes(rest))[..n] == first;
    }
  }

  lemma Behind(a: seq<byte>, b: seq<byte>, o: nat, n: nat)
    requires o + n <= |b|
    ensures (a + b)[o + |a|..o + |a| + n] == b[o..o + n]
  {
  }

  lemma FormatIsValid(s: Store)
    requires s.Valid()
    ensures FormatOf(s).Valid() && FormatOf(s).samples == s.Samples()
    ensures FormatOf(s).Size() == if s.Inline? then s.samples else 1
  {
    if s.ByMap? {
      ColourAt(s.colours, s.Samples(), 0);
    }
  }

  lemma ItemLoads(s: Store, x: Item, req: nat, rest: seq<byte>)
    requires s.Valid() && IsItem(s, x) && 1 <= req <= 4
    ensures var f := FormatOf(s);
            f.Valid() && Convert(Rgba(f, ItemBytes(s, x) + rest), req) == ItemPixel(s, x).Wanted(req)
            && Dropped(ItemBytes(s, x) + rest, f.Size()) == rest
  {
    hide Trans, Convert;
    var f := FormatOf(s);
    FormatIsValid(s);
    AfterKnown(ItemBytes(s, x), rest);
    PixelLoads(ItemPixel(s, x), req);
    if s.ByMap? {
      ColourAt(s.colours, s.Samples(), if x.i < |s.colours| then x.i else 0);
    }
  }

  lemma {:induction false} ItemsLoad(s: Store, xs: seq<Item>, req: nat, rest: seq<byte>)
    requires s.Valid() && Items(s, xs) && 1 <= req <= 4
    ensures FormatOf(s).Valid() && Raw(ItemsBytes(s, xs) + rest, FormatOf(s), req, |xs|) == Picture(s, xs, req)
    ensures Dropped(ItemsBytes(s, xs) + rest, Area(FormatOf(s).Size(), |xs|)) == rest
    decreases |xs|
  {
    hide Rgba, Convert, Dropped, ItemBytes, ItemsBytes, ItemPixel, FormatOf, Raw, IsItem, Picture;
    hide Store.Valid, Format.Valid, Format.Size;
    var f, bytes := FormatOf(s), ItemsBytes(s, xs) + rest;
    FormatIsValid(s);
    if xs == [] {
      RawNone(bytes, f, req);
      NoItems(s, xs);
      NoPicture(s, req);
      assert bytes == rest;
    } else {
      var more := ItemsBytes(s, xs[1..]) + rest;
      Regroup(ItemBytes(s, xs[0]), ItemsBytes(s, xs[1..]), rest);
      ItemLoads(s, xs[0], req, more);
      ItemsLoad(s, xs[1..], req, rest);
      RawFirst(bytes, f, req, |xs|);
      PictureFirst(s, xs, req);
      StepOver(bytes, f.Size(), |xs| - 1);
    }
  }

  lemma PictureFirst(s: Store, xs: seq<Item>, req: nat)
    requires s.Valid() && Items(s, xs) && 1 <= req <= 4 && xs != []
    ensures Items(s, xs[1..]) && Picture(s, xs, req) == ItemPixel(s, xs[0]).Wanted(req) + Picture(s, xs[1..], req)
    ensures ItemsBytes(s, xs) == ItemBytes(s, xs[0]) + ItemsBytes(s, xs[1..])
  {
    hide ItemPixel, ItemBytes, Store.Valid;
  }

  lemma StepOver(bytes: seq<byte>, size: nat, k: nat)
    ensures Dropped(Dropped(bytes, size), Area(size, k)) == Dropped(bytes, Area(size, k + 1))
  {
    hide Dropped;
    DroppedTwice(bytes, size, Area(size, k));
    Distributes(1, k, size);
  }

  /** The first `n` pixels that packets stand for. */
  lemma {:induction false} PacketsLoad(s: Store, ps: seq<Packet>, req: nat, rest: seq<byte>, n: nat)
    requires s.Valid() && Packed(s, ps) && 1 <= req <= 4 && n <= |Unpacked(ps)|
    ensures Items(s, Unpacked(ps)) && FormatOf(s).Valid()
    ensures Packets(PacketsBytes(s, ps) + rest, FormatOf(s), req, n) == Picture(s, Unpacked(ps)[..n], req)
    decreases |ps|
  {
    hide Rgba, Convert, Dropped, ItemBytes, ItemsBytes, ItemPixel, FormatOf, Raw, Repeated, IsItem, Store.Valid,
         Format.Valid, Format.Size, Packets, PacketBytes, Picture, PacketSize;
    FormatIsValid(s);
    UnpackedItems(s, ps);
    var f, bytes := FormatOf(s), PacketsBytes(s, ps) + rest;
    if n == 0 {
      NoPackets(bytes, f, req);
      NoPicture(s, req);
    } else {
      var p, more := ps[0], PacketsBytes(s, ps[1..]) + rest;
      Regroup(PacketBytes(s, p), PacketsBytes(s, ps[1..]), rest);
      var k := if |p.Meant()| <= n then |p.Meant()| else n;
      PacketsLoad(s, ps[1..], req, rest, n - k);
      PacketLoads(s, p, req, more, n);
      var one := p.Meant()[..k];
      assert Unpacked(ps)[..n] == one + Unpacked(ps[1..])[..n - k];
      PictureAdds(s, one, Unpacked(ps[1..])[..n - k], req);
      if k < |p.Meant()| {
        NothingMore(bytes, PacketBytes(s, p) + more, more, f, req);
      }
    }
  }

  lemma NoPackets(s: seq<byte>, f: Format, req: nat)
    requires f.Valid() && 1 <= req <= 4
    ensures Packets(s, f, req, 0) == []
  {
  }

  lemma NoPicture(s: Store, req: nat)
    requires s.Valid() && 1 <= req <= 4
    ensures Picture(s, [], req) == []
  {
  }

  lemma NothingMore(a: seq<byte>, b: seq<byte>, more: seq<byte>, f: Format, req: nat)
    requires f.Valid() && 1 <= req <= 4 && a == b
    ensures Packets(more, f, req, 0) == []
  {
  }

  lemma {:induction false} PictureAdds(s: Store, xs: seq<Item>, ys: seq<Item>, req: nat)
    requires s.Valid() && Items(s, xs) && Items(s, ys) && 1 <= req <= 4
    ensures Items(s, xs + ys) && Picture(s, xs + ys, req) == Picture(s, xs, req) + Picture(s, ys, req)
    decreases |xs|
  {
    hide ItemPixel, Store.Valid, IsItem;
    if xs == [] {
      assert xs + ys == ys;
    } else {
      PictureAdds(s, xs[1..], ys, req);
      assert (xs + ys)[1..] == xs[1..] + ys;
      Regroup(ItemPixel(s, xs[0]).Wanted(req), Picture(s, xs[1..], req), Picture(s, ys, req));
    }
  }

  /** A packet at the start, of which the image may need only a part. */
  lemma PacketLoads(s: Store, p: Packet, req: nat, more: seq<byte>, n: nat)
    requires s.Valid() && p.Valid(s) && 1 <= req <= 4 && n > 0
    ensures FormatOf(s).Valid()
    ensures var f, bytes := FormatOf(s), PacketBytes(s, p) + more;
            var k := if |p.Meant()| <= n then |p.Meant()| else n;
            && Items(s, p.Meant()[..k])
            && (k == |p.Meant()| ==>
                  Packets(bytes, f, req, n) == Picture(s, p.Meant()[..k], req) + Packets(more, f, req, n - k))
            && (k < |p.Meant()| ==> Packets(bytes, f, req, n) == Picture(s, p.Meant()[..k], req))
  {
    hide Rgba, Convert, Dropped, ItemBytes, ItemsBytes, ItemPixel, FormatOf, Raw, Repeated, IsItem, Store.Valid,
         Format.Valid, Format.Size, Picture;
    FormatIsValid(s);
    if p.Same? {
      SameLoads(s, p.x, p.n, req, more, n);
      var k := if p.n <= n then p.n else n;
      assert p.Meant()[..k] == seq(k, _ => p.x);
      NoPackets(more, FormatOf(s), req);
      assert Picture(s, seq(k, _ => p.x), req) + [] == Picture(s, seq(k, _ => p.x), req);
    } else {
      EachLoads(s, p.xs, req, more, n);
    }
  }

  lemma SameLoads(s: Store, x: Item, m: nat, req: nat, more: seq<byte>, n: nat)
    requires s.Valid() && IsItem(s, x) && 1 <= req <= 4 && 1 <= m <= 128 && n > 0
    ensures FormatOf(s).Valid()
    ensures var f, bytes, k := FormatOf(s), [128 + (m - 1)] + ItemBytes(s, x) + more, if m <= n then m else n;
            Packets(bytes, f, req, n) == Picture(s, seq(k, _ => x), req) + Packets(more, f, req, n - k)
  {
    hide Rgba, Convert, Dropped, ItemBytes, ItemPixel, FormatOf, Raw, Repeated, IsItem, Store.Valid, Format.Valid,
         Format.Size, Picture, PacketSize;
    var f, k := FormatOf(s), if m <= n then m else n;
    FormatIsValid(s);
    var bytes, rest := [128 + (m - 1)] + ItemBytes(s, x) + more, ItemBytes(s, x) + more;
    CommandSize(m, n);
    Regroup([128 + (m - 1)], ItemBytes(s, x), more);
    AfterCommand(128 + (m - 1), rest);
    ItemLoads(s, x, req, more);
    SamePicture(s, x, k, req);
  }

  lemma CommandSize(m: nat, n: nat)
    requires 1 <= m <= 128 && n > 0
    ensures PacketSize(128 + (m - 1), n) == PacketSize(m - 1, n) == if m <= n then m else n
  {
  }

  lemma AfterCommand(command: byte, rest: seq<byte>)
    ensures At([command] + rest, 0) == command && Dropped([command] + rest, 1) == rest
  {
    AfterKnown([command], rest);
  }

  lemma {:induction false} SamePicture(s: Store, x: Item, k: nat, req: nat)
    requires s.Valid() && IsItem(s, x) && 1 <= req <= 4
    ensures Items(s, seq(k, _ => x)) && Picture(s, seq(k, _ => x), req) == Repeated(ItemPixel(s, x).Wanted(req), k)
    decreases k
  {
    hide ItemPixel, Store.Valid, IsItem;
    if k > 0 {
      SamePicture(s, x, k - 1, req);
      assert seq(k, _ => x)[1..] == seq(k - 1, _ => x);
    }
  }

  lemma EachLoads(s: Store, xs: seq<Item>, req: nat, more: seq<byte>, n: nat)
    requires s.Valid() && Items(s, xs) && 1 <= req <= 4 && 1 <= |xs| <= 128 && n > 0
    ensures FormatOf(s).Valid()
    ensures var f, bytes, k := FormatOf(s), [|xs| - 1] + ItemsBytes(s, xs) + more, if |xs| <= n then |xs| else n;
            && Items(s, xs[..k])
            && (k == |xs| ==> Packets(bytes, f, req, n) == Picture(s, xs[..k], req) + Packets(more, f, req, n - k))
            && (k < |xs| ==> Packets(bytes, f, req, n) == Picture(s, xs[..k], req))
  {
    hide Rgba, Convert, Dropped, ItemBytes, ItemsBytes, ItemPixel, FormatOf, Raw, Repeated, IsItem, Store.Valid,
         Format.Valid, Format.Size, Picture, PacketSize;
    var f, k := FormatOf(s), if |xs| <= n then |xs| else n;
    FormatIsValid(s);
    var bytes, rest := [|xs| - 1] + ItemsBytes(s, xs) + more, ItemsBytes(s, xs) + more;
    CommandSize(|xs|, n);
    Regroup([|xs| - 1], ItemsBytes(s, xs), more);
    AfterCommand(|xs| - 1, rest);
    assert xs[..k] + xs[k..] == xs;
    BytesAdd(s, xs[..k], xs[k..]);
    Regroup(ItemsBytes(s, xs[..k]), ItemsBytes(s, xs[k..]), more);
    ItemsLoad(s, xs[..k], req, ItemsBytes(s, xs[k..]) + more);
    if k == |xs| {
      NoItems(s, xs[k..]);
      assert ItemsBytes(s, xs[k..]) + more == more;
    } else {
      NoPackets(Dropped(rest, f.Size() * k), f, req);
    }
  }

  lemma NoItems(s: Store, xs: seq<Item>)
    requires s.Valid() && xs == []
    ensures ItemsBytes(s, xs) == []
  {
  }

  lemma {:induction false} BytesAdd(s: Store, xs: seq<Item>, ys: seq<Item>)
    requires s.Valid() && Items(s, xs) && Items(s, ys)
    ensures Items(s, xs + ys) && ItemsBytes(s, xs + ys) == ItemsBytes(s, xs) + ItemsBytes(s, ys)
    decreases |xs|
  {
    hide ItemBytes, Store.Valid, IsItem;
    if xs == [] {
      assert xs + ys == ys;
    } else {
      BytesAdd(s, xs[1..], ys);
      assert (xs + ys)[1..] == xs[1..] + ys;
      Regroup(ItemBytes(s, xs[0]), ItemsBytes(s, xs[1..]), ItemsBytes(s, ys));
    }
  }

  // Files

  /** What the header says besides: the image identification, a number for the kind of image,
      unused entries before the colour map, the depth of the pixels when they are indices, and
      the byte whose bit 5 tells that the top row comes first. */
  datatype Head = Head(id: seq<byte>, kind: nat, skipped: seq<byte>, depth: nat, descriptor: byte) {
    predicate Valid() {
      |id| <= 255 && 1 <= kind <= 3 && |skipped| < 0x1_0000 && (depth == 8 || depth == 16 || depth == 24 || depth == 32)
    }
  }

  function HeaderBytes(h: Head, s: Store, packed: bool, x: nat, y: nat): (bytes: seq<byte>)
    requires h.Valid() && s.Valid() && x < 0x1_0000 && y < 0x1_0000
    ensures |bytes| == 18
  {
    [|h.id|, if s.ByMap? then 1 else 0, if packed then h.kind + 8 else h.kind]
    + (if s.ByMap? then [|h.skipped| % 256, |h.skipped| / 256, |s.colours| % 256, |s.colours| / 256, 8 * s.Samples()]
       else [0, 0, 0, 0, 0])
    + [0, 0, 0, 0, x % 256, x / 256, y % 256, y / 256, if s.ByMap? then h.depth else 8 * s.Samples(), h.descriptor]
  }

  /** The file up to the pixels. */
  function Preamble(h: Head, s: Store, packed: bool, x: nat, y: nat): seq<byte>
    requires h.Valid() && s.Valid() && x < 0x1_0000 && y < 0x1_0000
  {
    HeaderBytes(h, s, packed, x, y) + h.id + if s.ByMap? then h.skipped + ColoursBytes(s.colours) else []
  }

  lemma HeaderReads(h: Head, s: Store, packed: bool, x: nat, y: nat, rest: seq<byte>)
    requires h.Valid() && s.Valid() && x < 0x1_0000 && y < 0x1_0000
    ensures var file := HeaderBytes(h, s, packed, x, y) + rest;
            && At(file, 0) == |h.id| && At(file, 1) == (if s.ByMap? then 1 else 0)
            && At(file, 2) == (if packed then h.kind + 8 else h.kind)
            && Le16At(file, 12) == x && Le16At(file, 14) == y && At(file, 17) == h.descriptor
            && At(file, 16) == (if s.ByMap? then h.depth else 8 * s.samples)
            && (s.ByMap? ==>
                  Le16At(file, 3) == |h.skipped| && Le16At(file, 5) == |s.colours| && At(file, 7) == 8 * s.Samples())
  {
    var header := HeaderBytes(h, s, packed, x, y);
    assert forall k :: 0 <= k < 18 ==> At(header + rest, k) == header[k];
  }

  /** Where the program finds the pixels. */
  lemma PixelsStart(h: Head, s: Store, packed: bool, x: nat, y: nat, pixels: seq<byte>)
    requires h.Valid() && s.Valid() && x < 0x1_0000 && y < 0x1_0000
    ensures var file := Preamble(h, s, packed, x, y) + pixels;
            && (s.Inline? ==> Dropped(file, 18 + |h.id|) == pixels)
            && (s.ByMap? ==> Dropped(file, 18 + |h.id| + |h.skipped|) == ColoursBytes(s.colours) + pixels)
  {
    hide HeaderBytes, ColoursBytes;
    var header := HeaderBytes(h, s, packed, x, y);
    if s.ByMap? {
      var before, colours := header + h.id + h.skipped, ColoursBytes(s.colours);
      assert Preamble(h, s, packed, x, y) + pixels == before + (colours + pixels);
      AfterKnown(before, colours + pixels);
    } else {
      assert Preamble(h, s, packed, x, y) + pixels == header + h.id + pixels;
      AfterKnown(header + h.id, pixels);
    }
  }

  /** The picture in memory, top row first. */
  function Upright(data: seq<byte>, w: nat, h: nat, descriptor: byte): seq<byte>
    requires |data| == w * h
  {
    if descriptor / 32 % 2 == 1 then data else RowsReversed(data, w, h)
  }

  lemma {:induction false} PictureLength(s: Store, xs: seq<Item>, req: nat)
    requires s.Valid() && Items(s, xs) && 1 <= req <= 4
    ensures |Picture(s, xs, req)| == Area(|xs|, req)
    decreases |xs|
  {
    hide ItemPixel, Store.Valid, IsItem, Area;
    SmallAreas(req);
    if xs != [] {
      PictureLength(s, xs[1..], req);
      AreaAdds(1, |xs| - 1, req);
    }
  }

  /** What loading with `reqComp` components gives, or with those of the file if it is zero. */
  function Expected(s: Store, xs: seq<Item>, x: nat, y: nat, descriptor: byte, reqComp: nat): Outcome
    requires s.Valid() && Items(s, xs) && |xs| == x * y && reqComp <= 4
  {
    var req := if reqComp == 0 then s.Samples() else reqComp;
    PictureLength(s, xs, req);
    AreaTimes(x, y, req);
    if x * y * req >= INT_LIMIT then TooLarge
    else Loaded(x, y, s.Samples(), Upright(Picture(s, xs, req), Area(x, req), y, descriptor))
  }

  lemma DepthIs(h: Head, s: Store, packed: bool, x: nat, y: nat, rest: seq<byte>)
    requires h.Valid() && s.Valid() && 1 <= x < 0x1_0000 && 1 <= y < 0x1_0000
    ensures var file := HeaderBytes(h, s, packed, x, y) + rest;
            && Loadable(file) && Depth(file) == 8 * s.Samples() && KnownDepth(8 * s.Samples())
  {
    hide HeaderBytes, At, Le16At;
    HeaderReads(h, s, packed, x, y, rest);
  }

  /** A file is decoded as the image that starts where its pixels do. */
  lemma FileDecodes(h: Head, s: Store, packed: bool, x: nat, y: nat, pixels: seq<byte>, reqComp: nat)
    requires h.Valid() && s.Valid() && 1 <= x < 0x1_0000 && 1 <= y < 0x1_0000 && reqComp <= 4
    ensures var file := Preamble(h, s, packed, x, y) + pixels;
            var req := if reqComp == 0 then s.Samples() else reqComp;
            FormatOf(s).Valid() &&
            TgaDecode(file, reqComp) == if x * y * req >= INT_LIMIT then TooLarge
              else Image(file, pixels, FormatOf(s), reqComp)
  {
    hide HeaderBytes, ColoursBytes, At, Le16At, Dropped, Image, Preamble, Loadable, Depth;
    FormatIsValid(s);
    var body := h.id + if s.ByMap? then h.skipped + ColoursBytes(s.colours) else [];
    var file := Preamble(h, s, packed, x, y) + pixels;
    FileSplits(h, s, packed, x, y, pixels, body);
    HeaderReads(h, s, packed, x, y, body + pixels);
    DepthIs(h, s, packed, x, y, body + pixels);
    PixelsStart(h, s, packed, x, y, pixels);
    if s.ByMap? {
      MapFollows(s, pixels);
    }
  }

  lemma FileSplits(h: Head, s: Store, packed: bool, x: nat, y: nat, pixels: seq<byte>, body: seq<byte>)
    requires h.Valid() && s.Valid() && x < 0x1_0000 && y < 0x1_0000
    requires body == h.id + if s.ByMap? then h.skipped + ColoursBytes(s.colours) else []
    ensures Preamble(h, s, packed, x, y) + pixels == HeaderBytes(h, s, packed, x, y) + (body + pixels)
  {
    hide HeaderBytes, ColoursBytes;
  }

  /** The map is what the program takes for it, and the pixels are behind. */
  lemma MapFollows(s: Store, pixels: seq<byte>)
    requires s.Valid() && s.ByMap?
    ensures var colours := ColoursBytes(s.colours); var n := MapSize(|s.colours|, 8 * s.Samples());
            |colours| == n && (colours + pixels)[..n] == colours && (colours + pixels)[n..] == pixels
  {
    ColourAt(s.colours, s.Samples(), 0);
    MapHoldsEntries(|s.colours|, s.Samples());
  }

  /** Pixels one by one. */
  lemma PlainLoads(h: Head, s: Store, x: nat, y: nat, xs: seq<Item>, rest: seq<byte>, reqComp: nat)
    requires h.Valid() && s.Valid() && 1 <= x < 0x1_0000 && 1 <= y < 0x1_0000 && reqComp <= 4
    requires Items(s, xs) && |xs| == x * y
    ensures TgaDecode(Preamble(h, s, false, x, y) + (ItemsBytes(s, xs) + rest), reqComp)
            == Expected(s, xs, x, y, h.descriptor, reqComp)
  {
    hide HeaderBytes, Preamble, TgaDecode, At, Le16At, ItemsBytes, Picture, Raw, Packets, FormatOf, Store.Valid,
         Format.Valid;
    var pixels := ItemsBytes(s, xs) + rest;
    FileDecodes(h, s, false, x, y, pixels, reqComp);
    ImageIs(h, s, false, x, y, pixels, xs, reqComp);
    ItemsLoad(s, xs, if reqComp == 0 then s.Samples() else reqComp, rest);
  }

  /** Pixels in packets; what the last one has over is not used. */
  lemma PackedLoads(h: Head, s: Store, x: nat, y: nat, ps: seq<Packet>, rest: seq<byte>, reqComp: nat)
    requires h.Valid() && s.Valid() && 1 <= x < 0x1_0000 && 1 <= y < 0x1_0000 && reqComp <= 4
    requires Packed(s, ps) && |Unpacked(ps)| >= x * y
    ensures Items(s, Unpacked(ps))
    ensures TgaDecode(Preamble(h, s, true, x, y) + (PacketsBytes(s, ps) + rest), reqComp)
            == Expected(s, Unpacked(ps)[..x * y], x, y, h.descriptor, reqComp)
  {
    hide HeaderBytes, Preamble, TgaDecode, At, Le16At, PacketsBytes, Picture, Raw, Packets, FormatOf, Store.Valid,
         Format.Valid;
    var pixels := PacketsBytes(s, ps) + rest;
    UnpackedItems(s, ps);
    FileDecodes(h, s, true, x, y, pixels, reqComp);
    ImageIs(h, s, true, x, y, pixels, Unpacked(ps)[..x * y], reqComp);
    PacketsLoad(s, ps, if reqComp == 0 then s.Samples() else reqComp, rest, x * y);
  }

  /** The image at `pixels`, once those are known to be the picture. */
  lemma ImageIs(h: Head, s: Store, packed: bool, x: nat, y: nat, pixels: seq<byte>, xs: seq<Item>, reqComp: nat)
    requires h.Valid() && s.Valid() && 1 <= x < 0x1_0000 && 1 <= y < 0x1_0000 && reqComp <= 4
    requires Items(s, xs) && |xs| == x * y
    ensures var file := Preamble(h, s, packed, x, y) + pixels;
            var req := if reqComp == 0 then s.Samples() else reqComp;
            && FormatOf(s).Valid()
            && ((if packed then Packets(pixels, FormatOf(s), req, x * y) else Raw(pixels, FormatOf(s), req, x * y))
                == Picture(s, xs, req) && x * y * req < INT_LIMIT ==>
                  Image(file, pixels, FormatOf(s), reqComp) == Expected(s, xs, x, y, h.descriptor, reqComp))
  {
    hide HeaderBytes, ColoursBytes, At, Le16At, Packets, Raw, RowsReversed, Preamble, Picture;
    FormatIsValid(s);
    var body := h.id + if s.ByMap? then h.skipped + ColoursBytes(s.colours) else [];
    FileSplits(h, s, packed, x, y, pixels, body);
    HeaderReads(h, s, packed, x, y, body + pixels);
    PictureLength(s, xs, if reqComp == 0 then s.Samples() else reqComp);
  }

  /** Without a colour map a file is refused exactly for an empty image, a kind of image other
      than the three, plain or packed, or an unknown depth. */
  lemma RefusedIff(file: seq<byte>, reqComp: int)
    requires At(file, 1) == 0
    ensures TgaDecode(file, reqComp) == Failed <==>
            || (At(file, 12) == 0 && At(file, 13) == 0) || (At(file, 14) == 0 && At(file, 15) == 0)
            || At(file, 2) !in {1, 2, 3, 9, 10, 11} || At(file, 16) !in {8, 16, 24, 32}
  {
    hide At, Dropped, Packets, Raw, Overflows, RowsReversed;
  }
}
