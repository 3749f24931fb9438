/** The TGA loader of `stb_image` (`tga_load`). */
module TgaLoader {
  import opened Basics
  import opened Bytes
  import opened ImageReader
  import opened PixelConvert
  import opened Scanlines
  import opened TgaFormat

  /** What the loop over the pixels has still to store. */
  function Pending(s: seq<byte>, f: Format, req: nat, left: nat, rle: bool, count: int, repeating: bool,
                   trans: seq<byte>): seq<byte>
    requires f.Valid() && 1 <= req <= 4 && |trans| == 4
  {
    if !rle then Raw(s, f, req, left)
    else if count <= 0 then Packets(s, f, req, left)
    else
      var k := Min(count, left);
      if repeating then Repeated(Convert(trans, req), k) + Packets(s, f, req, left - k)
      else Raw(s, f, req, k) + Packets(Dropped(s, f.Size() * k), f, req, left - k)
  }

  /** A pixel stored from a packet of raw pixels, or from none. */
  lemma RawPixel(s: seq<byte>, f: Format, req: nat, left: nat, rle: bool, count: int, trans: seq<byte>)
    requires f.Valid() && 1 <= req <= 4 && |trans| == 4 && left > 0 && (rle ==> count > 0)
    ensures Pending(s, f, req, left, rle, count, false, trans) ==
            Convert(Rgba(f, s), req)
              + Pending(Dropped(s, f.Size()), f, req, left - 1, rle, count - 1, false, Rgba(f, s))
  {
    hide Convert, Rgba, Dropped, Packets, Raw, Format.Valid, Format.Size;
    if rle {
      var k := Min(count, left);
      var rest := Dropped(s, f.Size());
      RawFirst(s, f, req, k);
      DroppedTwice(s, f.Size(), f.Size() * (k - 1));
      assert f.Size() + f.Size() * (k - 1) == f.Size() * k;
      if count == 1 {
        RawNone(rest, f, req);
      }
    } else {
      RawFirst(s, f, req, left);
    }
  }

  lemma RawFirst(s: seq<byte>, f: Format, req: nat, count: nat)
    requires f.Valid() && 1 <= req <= 4 && count > 0
    ensures Raw(s, f, req, count) == Convert(Rgba(f, s), req) + Raw(Dropped(s, f.Size()), f, req, count - 1)
  {
  }

  lemma RawNone(s: seq<byte>, f: Format, req: nat)
    requires f.Valid() && 1 <= req <= 4
    ensures Raw(s, f, req, 0) == [] && Dropped(s, f.Size() * 0) == s
  {
  }

  lemma RepeatedPixel(s: seq<byte>, f: Format, req: nat, left: nat, count: int, trans: seq<byte>)
    requires f.Valid() && 1 <= req <= 4 && |trans| == 4 && left > 0 && count > 0
    ensures Pending(s, f, req, left, true, count, true, trans) ==
            Convert(trans, req) + Pending(s, f, req, left - 1, true, count - 1, true, trans)
  {
    hide Convert, Dropped, Packets, Format.Valid;
    var p, k := Convert(trans, req), Min(count, left);
    var rest := Packets(s, f, req, left - k);
    assert Repeated(p, k) + rest == p + (Repeated(p, k - 1) + rest);
    assert [] + rest == rest;
  }

  /** The start of a packet. */
  lemma NewPacket(s: seq<byte>, f: Format, req: nat, left: nat, trans: seq<byte>)
    requires f.Valid() && 1 <= req <= 4 && |trans| == 4 && left > 0
    ensures var count, rest := At(s, 0) % 128 + 1, Dropped(s, 1);
            var first := Rgba(f, rest);
            Pending(s, f, req, left, true, 0, false, trans) ==
            if At(s, 0) >= 128 then Pending(Dropped(rest, f.Size()), f, req, left, true, count, true, first)
            else Pending(rest, f, req, left, true, count, false, trans)
  {
    hide Convert, Dropped, Rgba, Format.Valid, Format.Size;
  }

  method TgaLoad(s: Stbi, reqComp: int) returns (result: Outcome)
    modifies s
    ensures result == TgaDecode(old(s.Rest()), reqComp)
  {
    hide At, Dropped, Le16At, Image, MappedDecode, Overflows;
    ghost var file := s.Rest();
    var head := ReadHeader(s);
    var w, h, kind := head.w, head.h, head.kind;
    if kind >= 8 {
      kind := kind - 8;
    }
    if w < 1 || h < 1 || kind < 1 || kind > 3 || !KnownDepth(head.bits) {
      return Failed;
    }
    var bits := if head.indexed == 0 then head.bits else head.mapBits;
    if Overflows(w, h, Components(bits / 8, reqComp)) {
      return TooLarge;
    }
    s.Skip(head.offset);
    DroppedTwice(file, 18, head.offset);
    if head.indexed == 0 {
      result := LoadPixels(s, head, Direct(head.bits / 8), reqComp, file);
    } else {
      s.Skip(head.mapStart);
      DroppedTwice(file, 18 + head.offset, head.mapStart);
      result := LoadMapped(s, head, reqComp, file);
    }
  }

  method LoadMapped(s: Stbi, head: Header, reqComp: int, ghost file: seq<byte>) returns (result: Outcome)
    requires IsHeader(head, file)
    modifies s
    ensures result == MappedDecode(file, old(s.Rest()), head.mapLen, head.mapBits, reqComp)
  {
    hide At, Dropped, Image, MapSize, UnknownDepth;
    ghost var rest := s.Rest();
    var bits, n := head.mapBits, MapSize(head.mapLen, head.mapBits);
    var left := s.Left();
    if n > left {
      return OutsideData;
    }
    var palette := s.Getn(n);
    if !KnownDepth(bits) {
      if head.kind >= 8 {
        var command := s.Get8();
        DroppedTwice(rest[n..], 1, 0);
      }
      var index := s.Get8();
      return UnknownDepth(index, head.mapLen, bits);
    }
    if head.mapLen == 0 {
      return OutsideData;
    }
    MapHoldsEntries(head.mapLen, bits / 8);
    result := LoadPixels(s, head, Mapped(bits / 8, head.mapLen, palette), reqComp, file);
  }

  method LoadPixels(s: Stbi, head: Header, f: Format, reqComp: int, ghost file: seq<byte>) returns (result: Outcome)
    requires f.Valid() && IsHeader(head, file)
    modifies s
    ensures result == Image(file, old(s.Rest()), f, reqComp)
  {
    hide At, Le16At, Dropped, Packets, Raw, RowsReversed, Area;
    var req := Components(f.samples, reqComp);
    var data := ReadPixels(s, head.kind >= 8, f, req, Area(head.w, head.h));
    AreaTimes(head.w, head.h, req);
    if head.descriptor / 32 % 2 == 0 {
      InvertPixels(data, Area(head.w, req), head.h);
    }
    result := Loaded(head.w, head.h, f.samples, data[..]);
  }

  datatype Header = Header(offset: nat, indexed: nat, kind: nat, mapStart: nat, mapLen: nat, mapBits: nat,
                           w: nat, h: nat, bits: nat, descriptor: nat)

  ghost predicate IsHeader(head: Header, f: seq<byte>) {
    && head.offset == At(f, 0) && head.indexed == At(f, 1) && head.kind == At(f, 2)
    && head.mapStart == Le16At(f, 3) && head.mapLen == Le16At(f, 5) && head.mapBits == At(f, 7)
    && head.w == Le16At(f, 12) && head.h == Le16At(f, 14) && head.bits == At(f, 16) && head.descriptor == At(f, 17)
  }

  method ReadHeader(s: Stbi) returns (head: Header)
    modifies s
    ensures IsHeader(head, old(s.Rest())) && s.Rest() == Dropped(old(s.Rest()), 18)
  {
    hide At, Dropped, Le16At;
    ghost var f := s.Rest();
    DropNothing(f);
    var offset := Byte(s, f, 0);
    var indexed := Byte(s, f, 1);
    var kind := Byte(s, f, 2);
    var mapStart := Word16(s, f, 3);
    var mapLen := Word16(s, f, 5);
    var mapBits := Byte(s, f, 7);
    var xOrigin := Word16(s, f, 8);
    var yOrigin := Word16(s, f, 10);
    var w := Word16(s, f, 12);
    var h := Word16(s, f, 14);
    var bits := Byte(s, f, 16);
    var descriptor := Byte(s, f, 17);
    head := Header(offset, indexed, kind, mapStart, mapLen, mapBits, w, h, bits, descriptor);
  }

  /** The next byte, number `k` of file `f`. */
  method Byte(s: Stbi, ghost f: seq<byte>, ghost k: nat) returns (v: nat)
    requires s.Rest() == Dropped(f, k)
    modifies s
    ensures v == At(f, k) && s.Rest() == Dropped(f, k + 1)
  {
    hide At, Dropped;
    v := s.Get8();
    DroppedTwice(f, k, 0);
    DroppedTwice(f, k, 1);
  }

  method Word16(s: Stbi, ghost f: seq<byte>, ghost k: nat) returns (v: nat)
    requires s.Rest() == Dropped(f, k)
    modifies s
    ensures v == Le16At(f, k) && s.Rest() == Dropped(f, k + 2)
  {
    hide At, Dropped;
    v := s.Get16le();
    DroppedTwice(f, k, 0);
    DroppedTwice(f, k, 1);
    DroppedTwice(f, k, 2);
  }

  /** Reads a pixel, from the file or by its index. */
  method ReadPixel(s: Stbi, f: Format) returns (trans: seq<byte>)
    requires f.Valid()
    modifies s
    ensures trans == Rgba(f, old(s.Rest())) && s.Rest() == Dropped(old(s.Rest()), f.Size())
  {
    hide At, Dropped, Trans, Taken;
    var raw;
    if f.Mapped? {
      var index: nat := s.Get8();
      if index >= f.entries {
        index := 0;
      }
      raw := f.Entry(index);
    } else {
      raw := s.GetBytes(f.samples);
    }
    trans := Trans(raw);
  }

  /** Gets the next pixel: the one of a packet that repeats, or one from the file. */
  method NextPixel(s: Stbi, rle: bool, f: Format, rleCount: int, rleRepeating: bool, readNext: bool, last: seq<byte>,
                   ghost req: nat, ghost left: nat)
    returns (count: int, repeating: bool, trans: seq<byte>)
    requires f.Valid() && 1 <= req <= 4 && |last| == 4 && left > 0
    requires rle ==> rleCount >= 0 && (rleCount > 0 && rleRepeating ==> !readNext)
    requires !rle ==> !rleRepeating
    modifies s
    ensures |trans| == 4 && (rle ==> count > 0) && (!rle ==> !repeating)
    ensures Pending(old(s.Rest()), f, req, left, rle, rleCount, rleRepeating, last) ==
            Convert(trans, req) + Pending(s.Rest(), f, req, left - 1, rle, count - 1, repeating, trans)
  {
    hide At, Dropped, Rgba, Convert, Raw, Packets, Repeated, Format.Valid, Format.Size;
    ghost var file := s.Rest();
    count, repeating, trans := rleCount, rleRepeating, last;
    var readNextPixel := readNext;
    if rle {
      if count == 0 {
        NewPacket(file, f, req, left, last);
        var command := s.Get8();
        count := 1 + command % 128;
        repeating := command / 128 != 0;
        readNextPixel := true;
      } else if !repeating {
        readNextPixel := true;
      }
    } else {
      readNextPixel := true;
    }
    if readNextPixel {
      if !repeating {
        RawPixel(s.Rest(), f, req, left, rle, count, trans);
      }
      trans := ReadPixel(s, f);
    }
    if repeating {
      RepeatedPixel(s.Rest(), f, req, left, count, trans);
    }
  }

  method Store(data: array<byte>, o: nat, p: seq<byte>)
    requires o + |p| <= data.Length
    modifies data
    ensures data[..o + |p|] == old(data[..o]) + p
  {
    forall k | 0 <= k < |p| {
      data[o + k] := p[k];
    }
  }

  method ReadPixels(s: Stbi, rle: bool, f: Format, req: nat, total: nat) returns (data: array<byte>)
    requires f.Valid() && 1 <= req <= 4
    modifies s
    ensures fresh(data) && data.Length == total * req
    ensures data[..] == if rle then Packets(old(s.Rest()), f, req, total) else Raw(old(s.Rest()), f, req, total)
  {
    hide Pending, Convert, Raw, Packets, RoomFor;
    ghost var all := Pending(s.Rest(), f, req, total, rle, 0, false, [0, 0, 0, 0]);
    NothingStored(s.Rest(), f, req, total, rle, [0, 0, 0, 0]);
    data := new byte[total * req];
    var count: int, repeating, readNext, trans, o: nat := 0, false, true, [0, 0, 0, 0], 0;
    assert data[..o] + all == all;
    assert RoomFor(data.Length - o, total, req) by { RoomForAll(total, req); }
    for i := 0 to total
      invariant |trans| == 4 && (rle ==> count >= 0 && (count > 0 && repeating ==> !readNext)) && (!rle ==> !repeating)
      invariant o <= data.Length && RoomFor(data.Length - o, total - i, req)
      invariant data[..o] + Pending(s.Rest(), f, req, total - i, rle, count, repeating, trans) == all
      modifies s, data
    {
      RoomForOne(data.Length - o, total - i, req);
      count, repeating, trans := NextPixel(s, rle, f, count, repeating, readNext, trans, req, total - i);
      readNext := false;
      ghost var done := data[..o];
      Store(data, o, Convert(trans, req));
      Regroup(done, Convert(trans, req), Pending(s.Rest(), f, req, total - i - 1, rle, count - 1, repeating, trans));
      o, count := o + req, count - 1;
    }
    NothingLeft(s.Rest(), f, req, rle, count, repeating, trans);
    RoomForNone(data.Length - o, req);
    assert data[..o] == data[..];
  }

  ghost predicate RoomFor(d: int, left: nat, req: nat) {
    d == left * req
  }

  lemma RoomForAll(total: nat, req: nat)
    ensures RoomFor(total * req, total, req)
  {
  }

  lemma RoomForOne(d: int, left: nat, req: nat)
    requires RoomFor(d, left, req) && left > 0
    ensures d >= req && RoomFor(d - req, left - 1, req)
  {
    LastRow(req, left);
  }

  lemma RoomForNone(d: int, req: nat)
    ensures RoomFor(d, 0, req) ==> d == 0
  {
  }

  lemma NothingStored(s: seq<byte>, f: Format, req: nat, total: nat, rle: bool, trans: seq<byte>)
    requires f.Valid() && 1 <= req <= 4 && |trans| == 4
    ensures Pending(s, f, req, total, rle, 0, false, trans)
            == if rle then Packets(s, f, req, total) else Raw(s, f, req, total)
  {
  }

  lemma NothingLeft(s: seq<byte>, f: Format, req: nat, rle: bool, count: int, repeating: bool, trans: seq<byte>)
    requires f.Valid() && 1 <= req <= 4 && |trans| == 4
    ensures Pending(s, f, req, 0, rle, count, repeating, trans) == []
  {
  }

  method InvertPixels(data: array<byte>, w: nat, h: nat)
    requires data.Length == w * h
    modifies data
    ensures data[..] == RowsReversed(old(data[..]), w, h)
  {
    ghost var was := data[..];
    hide HalfFlipped, RowsReversed;
    NoneFlipped(was, w, h);
    var j := 0;
    while j * 2 < h
      invariant 0 <= j <= h && HalfFlipped(data[..], was, w, h, j)
    {
      FlipRows(data, w, h, j, was);
      j := j + 1;
    }
    AllFlipped(data[..], was, w, h, j);
  }
}
