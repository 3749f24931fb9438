/** What a TGA file says: its pixels direct or by a colour map, one by one or in packets. */
module TgaFormat {
  import opened Basics
  import opened Bytes
  import opened ImageReader
  import opened PixelConvert
  import opened Powers
  import opened Scanlines

  /** How loading ends. A colour map that is not there is read all the same, and an image may
      have more bytes than the signed numbers of the program count. */
  datatype Outcome = Loaded(x: nat, y: nat, comp: nat, data: seq<byte>) | Failed | OutsideData | TooLarge

  /** A pixel as red, green, blue and alpha. */
  function Trans(raw: seq<byte>): (t: seq<byte>)
    requires 1 <= |raw| <= 4
    ensures |t| == 4
  {
    match |raw|
    case 1 => [raw[0], raw[0], raw[0], 255]
    case 2 => [raw[0], raw[0], raw[0], raw[1]]
    case 3 => [raw[2], raw[1], raw[0], 255]
    case _ => [raw[2], raw[1], raw[0], raw[3]]
  }

  // Pixels

  /** Pixels of so many samples, in the file itself or in a colour map that it indexes. */
  datatype Format = Direct(samples: nat) | Mapped(samples: nat, entries: nat, palette: seq<byte>) {
    predicate Valid() {
      && 1 <= samples <= 4
      && (Mapped? ==> entries > 0 && |palette| == entries * samples)
    }

    /** The bytes a pixel takes in the file. */
    function Size(): nat {
      if Direct? then samples else 1
    }

    /** The samples of the pixel at the start of `s`; an index past the map is index 0. */
    function Sample(s: seq<byte>): (raw: seq<byte>)
      requires Valid()
      ensures |raw| == samples
    {
      if Direct? then Taken(s, samples) else Entry(if At(s, 0) < entries then At(s, 0) else 0)
    }

    function Entry(i: nat): (raw: seq<byte>)
      requires Valid() && Mapped? && i < entries
      ensures |raw| == samples
    {
      EntryInBounds(i, entries, samples);
      palette[i * samples..i * samples + samples]
    }
  }

  lemma EntryInBounds(i: nat, entries: nat, samples: nat)
    requires i < entries
    ensures 0 <= i * samples <= i * samples + samples <= entries * samples
  {
    MulMonotone(i + 1, entries, samples);
  }

  /** The pixel at the start of `s`, as red, green, blue and alpha. */
  function Rgba(f: Format, s: seq<byte>): (t: seq<byte>)
    requires f.Valid()
    ensures |t| == 4
  {
    Trans(f.Sample(s))
  }

  function Raw(s: seq<byte>, f: Format, req: nat, count: nat): seq<byte>
    requires f.Valid() && 1 <= req <= 4
    decreases count
  {
    if count == 0 then [] else Convert(Rgba(f, s), req) + Raw(Dropped(s, f.Size()), f, req, count - 1)
  }

  function Repeated(p: seq<byte>, count: nat): seq<byte> {
    if count == 0 then [] else p + Repeated(p, count - 1)
  }

  function PacketSize(command: byte, count: nat): (k: nat)
    requires count > 0
    ensures 1 <= k <= count
  {
    Min(command % 128 + 1, count)
  }

  /** A packet is a command and either one pixel to repeat or as many as it says; the last may
      be cut short by the end of the image. */
  function Packets(s: seq<byte>, f: Format, req: nat, count: nat): seq<byte>
    requires f.Valid() && 1 <= req <= 4
    decreases count
  {
    if count == 0 then []
    else
      var k := PacketSize(At(s, 0), count);
      var rest := Dropped(s, 1);
      if At(s, 0) >= 128 then
        Repeated(Convert(Rgba(f, rest), req), k) + Packets(Dropped(rest, f.Size()), f, req, count - k)
      else
        Raw(rest, f, req, k) + Packets(Dropped(rest, f.Size() * k), f, req, count - k)
  }

  function Area(w: nat, h: nat): nat {
    w * h
  }

  lemma AreaAdds(h: nat, k: nat, w: nat)
    ensures Area(h, w) + Area(k, w) == Area(h + k, w)
  {
    Distributes(h, k, w);
  }

  lemma SmallAreas(w: nat)
    ensures Area(0, w) == 0 && Area(1, w) == w
  {
  }

  lemma {:induction false} RawLength(s: seq<byte>, f: Format, req: nat, count: nat)
    requires f.Valid() && 1 <= req <= 4
    ensures |Raw(s, f, req, count)| == Area(count, req)
    decreases count
  {
    hide Rgba, Convert, Dropped, Format.Size, Format.Valid, Area;
    SmallAreas(req);
    if count > 0 {
      RawLength(Dropped(s, f.Size()), f, req, count - 1);
      AreaAdds(count - 1, 1, req);
    }
  }

  lemma {:induction false} RepeatedLength(p: seq<byte>, count: nat)
    ensures |Repeated(p, count)| == Area(count, |p|)
  {
    hide Area;
    SmallAreas(|p|);
    if count > 0 {
      RepeatedLength(p, count - 1);
      AreaAdds(count - 1, 1, |p|);
    }
  }

  lemma {:induction false} PacketsLength(s: seq<byte>, f: Format, req: nat, count: nat)
    requires f.Valid() && 1 <= req <= 4
    ensures |Packets(s, f, req, count)| == Area(count, req)
    decreases count
  {
    hide At, Rgba, Convert, Dropped, Raw, Repeated, Format.Size, Format.Valid, Area, PacketSize;
    SmallAreas(req);
    if count > 0 {
      var k := PacketSize(At(s, 0), count);
      var rest := Dropped(s, 1);
      RepeatedLength(Convert(Rgba(f, rest), req), k);
      RawLength(rest, f, req, k);
      PacketsLength(Dropped(rest, f.Size()), f, req, count - k);
      PacketsLength(Dropped(rest, f.Size() * k), f, req, count - k);
      AreaAdds(k, count - k, req);
    }
  }

  // The header

  /** The image type, without the flag for packets. */
  function Kind(s: seq<byte>): nat {
    if At(s, 2) >= 8 then At(s, 2) - 8 else At(s, 2)
  }

  predicate KnownDepth(bits: nat) {
    bits == 8 || bits == 16 || bits == 24 || bits == 32
  }

  predicate Loadable(s: seq<byte>) {
    Le16At(s, 12) >= 1 && Le16At(s, 14) >= 1 && 1 <= Kind(s) <= 3 && KnownDepth(At(s, 16))
  }

  /** The components asked for, or those of the file. */
  function Components(samples: nat, reqComp: int): nat {
    if reqComp < 1 || reqComp > 4 then samples else reqComp
  }

  lemma AreaTimes(w: nat, h: nat, req: nat)
    ensures Area(w, h) * req == Area(Area(w, h), req) == Area(w, req) * h
  {
    MulAssociates(w, h, req);
    MulAssociates(w, req, h);
  }

  /** The bits of a pixel, or of a colour when there is a map. */
  function Depth(s: seq<byte>): nat {
    if At(s, 1) == 0 then At(s, 16) else At(s, 7)
  }

  /** The number of pixels, or that of their bytes, is no signed number of 32 bits. */
  predicate Overflows(w: nat, h: nat, req: nat) {
    Area(w, h) * Max(req, 1) >= INT_LIMIT
  }

  function MapSize(entries: nat, bits: nat): nat {
    entries * bits / 8
  }

  lemma MapHoldsEntries(entries: nat, samples: nat)
    ensures MapSize(entries, 8 * samples) == entries * samples
  {
    MulAssociates(entries, 8, samples);
    assert entries * (8 * samples) == entries * samples * 8;
  }

  /** What happens at the first pixel when the map's depth is none of the known ones: its
      samples are copied to a buffer of four, and then loading fails. */
  function UnknownDepth(index: nat, entries: nat, bits: nat): Outcome {
    var i := (if index < entries then index else 0) * (bits / 8);
    if (bits + 7) / 8 > 4 || i + (bits + 7) / 8 > MapSize(entries, bits) then OutsideData else Failed
  }

  /** The image whose pixels start at `pixels`. */
  function Image(s: seq<byte>, pixels: seq<byte>, f: Format, reqComp: int): Outcome
    requires f.Valid()
  {
    var w, h, req := Le16At(s, 12), Le16At(s, 14), Components(f.samples, reqComp);
    var data := if At(s, 2) >= 8 then Packets(pixels, f, req, Area(w, h)) else Raw(pixels, f, req, Area(w, h));
    PacketsLength(pixels, f, req, Area(w, h));
    RawLength(pixels, f, req, Area(w, h));
    AreaTimes(w, h, req);
    Loaded(w, h, f.samples, if At(s, 17) / 32 % 2 == 0 then RowsReversed(data, Area(w, req), h) else data)
  }

  function TgaDecode(s: seq<byte>, reqComp: int): Outcome {
    if !Loadable(s) then Failed
    else if Overflows(Le16At(s, 12), Le16At(s, 14), Components(Depth(s) / 8, reqComp)) then TooLarge
    else if At(s, 1) == 0 then Image(s, Dropped(s, 18 + At(s, 0)), Direct(At(s, 16) / 8), reqComp)
    else MappedDecode(s, Dropped(s, 18 + At(s, 0) + Le16At(s, 3)), Le16At(s, 5), At(s, 7), reqComp)
  }

  /** The image whose colour map of `entries` comes first in `colours`. */
  function MappedDecode(s: seq<byte>, colours: seq<byte>, entries: nat, bits: nat, reqComp: int): Outcome {
    var n := MapSize(entries, bits);
    if n > |colours| then OutsideData
    else if !KnownDepth(bits) then UnknownDepth(At(colours[n..], if At(s, 2) >= 8 then 1 else 0), entries, bits)
    else if entries == 0 then OutsideData
    else
      MapHoldsEntries(entries, bits / 8);
      Image(s, colours[n..], Mapped(bits / 8, entries, colours[..n]), reqComp)
  }
}
