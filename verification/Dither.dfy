/** The four-colour dithering of `gc-font-tool`, Floyd and Steinberg's. */
module Dither {
  import opened Bytes
  import opened Powers

  function Cap(v: int): byte {
    if v < 0 then 0 else if v > 255 then 255 else v
  }

  // The reference: every pixel collects from the pixels before it

  /** The value of pixel `m` when its turn comes: what it was, and what the pixels before it
      have given, capped. */
  function Visited(orig: seq<byte>, w: nat, m: nat): byte
    requires w > 0 && m < |orig|
    decreases m, m + 1
  {
    Cap(orig[m] + Incoming(orig, w, m, m))
  }

  /** What the first `k` pixels give to pixel `m`. */
  function Incoming(orig: seq<byte>, w: nat, m: nat, k: nat): nat
    requires w > 0 && k <= m < |orig|
    decreases m, k
  {
    if k == 0 then 0 else Incoming(orig, w, m, k - 1) + Visited(orig, w, k - 1) % 64 * Weight(w, m, k - 1) / 16
  }

  /** In sixteenths, the part of its error that pixel `k` gives to `m`: 7 to the right, 5 below,
      3 below to the left and 1 below to the right, as far as those are in the image. */
  function Weight(w: nat, m: nat, k: nat): nat
    requires w > 0
  {
    if k + 1 == m && m % w > 0 then 7
    else if k + w == m then 5
    else if k + w == m + 1 && m % w + 1 < w then 3
    else if k + w + 1 == m && m % w > 0 then 1
    else 0
  }

  /** The error a pixel cannot keep, and what it keeps. */
  function Level(v: byte): byte {
    v - v % 64
  }

  lemma FourLevels(v: byte)
    ensures Level(v) in {0, 64, 128, 192} && v < Level(v) + 64
  {
  }

  // The program: every pixel gives to the pixels after it

  function AddAt(s: seq<byte>, i: nat, e: nat): (t: seq<byte>)
    ensures |t| == |s|
  {
    if i < |s| then s[i := Cap(s[i] + e)] else s
  }

  /** The image after the turn of the pixel in column `x` of row `y`. */
  function Step(s: seq<byte>, w: nat, h: nat, x: nat, y: nat): (t: seq<byte>)
    requires x < w && y < h && |s| >= h * w
    ensures |t| == |s|
  {
    InBounds(w, h, x, y);
    var k := y * w + x;
    var e: nat := s[k] % 64;
    var a := s[k := Level(s[k])];
    var b := if x + 1 < w then AddAt(a, k + 1, e * 7 / 16) else a;
    if y + 1 < h then GiveBelow(b, w, x, k, e) else b
  }

  function GiveBelow(s: seq<byte>, w: nat, x: nat, k: nat, e: nat): (t: seq<byte>)
    requires x < w
    ensures |t| == |s|
  {
    var c := AddAt(s, k + w, e * 5 / 16);
    var d := if x > 0 then AddAt(c, k + w - 1, e * 3 / 16) else c;
    if x + 1 < w then AddAt(d, k + w + 1, e / 16) else d
  }

  lemma InBounds(w: nat, h: nat, x: nat, y: nat)
    requires x < w && y < h
    ensures 0 <= y * w <= y * w + w <= h * w
    ensures y + 1 < h <==> y * w + x + w < h * w
    ensures y + 1 < h ==> y * w + w + w <= h * w
  {
    Distributes(y, 1, w);
    MulMonotone(y + 1, h, w);
    if y + 1 < h {
      Distributes(y + 1, 1, w);
      MulMonotone(y + 2, h, w);
    } else {
      assert y + 1 == h;
    }
  }

  /** The pixels that pixel `k`, in column `x`, gives to. */
  lemma WeightAt(w: nat, x: nat, y: nat, m: nat)
    requires x < w && m > y * w + x
    ensures var k := y * w + x;
            Weight(w, m, k) ==
            if m == k + 1 && x + 1 < w then 7
            else if m == k + w then 5
            else if m == k + w - 1 && x > 0 then 3
            else if m == k + w + 1 && x + 1 < w then 1
            else 0
  {
    var k := y * w + x;
    Distributes(y, 1, w);
    Distributes(y + 1, 1, w);
    if m == k + 1 {
      ColumnOf(m, w, if x + 1 < w then y else y + 1, if x + 1 < w then x + 1 else 0);
    } else if m == k + w - 1 {
      ColumnOf(m, w, if x > 0 then y + 1 else y, if x > 0 then x - 1 else w - 1);
    } else if m == k + w + 1 {
      ColumnOf(m, w, if x + 1 < w then y + 1 else y + 2, if x + 1 < w then x + 1 else 0);
    }
  }

  lemma ColumnOf(m: nat, w: nat, y: nat, x: nat)
    requires x < w && m == y * w + x
    ensures m % w == x
  {
    DivModUnique(m, w, y, x);
  }

  lemma StepAt(s: seq<byte>, w: nat, h: nat, x: nat, y: nat, m: nat)
    requires x < w && y < h && |s| >= h * w && m < |s|
    ensures var k := y * w + x; 0 <= k < |s|
    ensures var k, e: nat := y * w + x, s[y * w + x] % 64;
            Step(s, w, h, x, y)[m] ==
            if m == k then Level(s[k])
            else if m == k + 1 && x + 1 < w then Cap(s[m] + e * 7 / 16)
            else if y + 1 < h && m == k + w then Cap(s[m] + e * 5 / 16)
            else if y + 1 < h && m == k + w - 1 && x > 0 then Cap(s[m] + e * 3 / 16)
            else if y + 1 < h && m == k + w + 1 && x + 1 < w then Cap(s[m] + e / 16)
            else s[m]
  {
    InBounds(w, h, x, y);
    hide Cap, Level;
  }

  /** A step gives every later pixel its share. */
  lemma StepGives(s: seq<byte>, w: nat, h: nat, x: nat, y: nat, m: nat)
    requires x < w && y < h && |s| >= h * w && m < |s|
    ensures var k := y * w + x; 0 <= k < h * w
    ensures var k := y * w + x;
            Step(s, w, h, x, y)[m] ==
            if m == k then Level(s[k])
            else if k < m < h * w then Cap(s[m] + s[k] % 64 * Weight(w, m, k) / 16)
            else s[m]
  {
    hide Step, Weight, Level;
    InBounds(w, h, x, y);
    StepAt(s, w, h, x, y, m);
    if m > y * w + x {
      WeightAt(w, x, y, m);
    }
  }

  // What a run keeps

  /** The image when the first `k` of its `n` pixels have had their turn. */
  ghost predicate Dithered(s: seq<byte>, orig: seq<byte>, w: nat, n: nat, k: nat)
    requires w > 0
  {
    && |s| == |orig| && k <= n <= |s|
    && forall m :: 0 <= m < |s| ==> s[m] == DitheredAt(orig, w, n, k, m)
  }

  ghost function DitheredAt(orig: seq<byte>, w: nat, n: nat, k: nat, m: nat): byte
    requires w > 0 && m < |orig| && k <= n
  {
    if m < k then Level(Visited(orig, w, m))
    else if m < n then Cap(orig[m] + Incoming(orig, w, m, k))
    else orig[m]
  }

  lemma CapTwice(v: nat, e: nat)
    ensures Cap(Cap(v) + e) == Cap(v + e)
  {
  }

  lemma StepDithers(s: seq<byte>, orig: seq<byte>, w: nat, h: nat, x: nat, y: nat)
    requires x < w && y < h && Dithered(s, orig, w, h * w, y * w + x)
    ensures |s| >= h * w && y * w + x < h * w
    ensures Dithered(Step(s, w, h, x, y), orig, w, h * w, y * w + x + 1)
  {
    hide Step, Level, Cap, Weight;
    var k, n := y * w + x, h * w;
    InBounds(w, h, x, y);
    assert s[k] == DitheredAt(orig, w, n, k, k) == Visited(orig, w, k);
    forall m | 0 <= m < |s|
      ensures Step(s, w, h, x, y)[m] == DitheredAt(orig, w, n, k + 1, m)
    {
      StepGives(s, w, h, x, y, m);
      assert s[m] == DitheredAt(orig, w, n, k, m);
      if k < m < n {
        CapTwice(orig[m] + Incoming(orig, w, m, k), s[k] % 64 * Weight(w, m, k) / 16);
      }
    }
  }

  // Brightness

  function Sum(s: seq<byte>): nat {
    if s == [] then 0 else Sum(s[..|s| - 1]) + s[|s| - 1]
  }

  lemma {:induction false} SumUpdate(s: seq<byte>, i: nat, v: byte)
    requires i < |s|
    ensures Sum(s[i := v]) == Sum(s) - s[i] + v
    decreases |s|
  {
    var j := |s| - 1;
    if i < j {
      SumUpdate(s[..j], i, v);
      assert s[i := v][..j] == s[..j][i := v];
    } else {
      assert s[i := v][..j] == s[..j];
    }
  }

  lemma SumAddAt(s: seq<byte>, i: nat, e: nat)
    ensures Sum(AddAt(s, i, e)) <= Sum(s) + e
  {
    if i < |s| {
      SumUpdate(s, i, Cap(s[i] + e));
    }
  }

  lemma NothingVisited(s: seq<byte>, w: nat, n: nat)
    requires w > 0 && n <= |s|
    ensures Dithered(s, s, w, n, 0)
  {
  }

  lemma AllVisited(s: seq<byte>, orig: seq<byte>, w: nat, n: nat)
    requires w > 0 && Dithered(s, orig, w, n, n)
    ensures |s| == |orig| >= n && forall m :: 0 <= m < n ==> s[m] in {0, 64, 128, 192}
  {
    forall m | 0 <= m < n
      ensures s[m] in {0, 64, 128, 192}
    {
      assert s[m] == DitheredAt(orig, w, n, n, m);
      FourLevels(Visited(orig, w, m));
    }
  }

  /** All that a pixel with error `e` gives away, to the right and below. */
  function Given(e: nat): nat {
    e * 7 / 16 + (e * 5 / 16 + e * 3 / 16 + e / 16)
  }

  lemma GivenAtMost(e: nat)
    ensures Given(e) <= e
  {
    assert e * 7 / 16 * 16 <= e * 7 && e * 5 / 16 * 16 <= e * 5 && e * 3 / 16 * 16 <= e * 3 && e / 16 * 16 <= e;
  }

  /** A pixel gives away no more than it loses. */
  lemma StepDims(s: seq<byte>, w: nat, h: nat, x: nat, y: nat)
    requires x < w && y < h && |s| >= h * w
    ensures Sum(Step(s, w, h, x, y)) <= Sum(s)
  {
    hide Sum, AddAt, Level, GiveBelow, Given;
    InBounds(w, h, x, y);
    var k := y * w + x;
    var e: nat := s[k] % 64;
    SumUpdate(s, k, Level(s[k]));
    Kept(s[k]);
    GivesAtMost(s[k := Level(s[k])], w, x, k, e);
    GivenAtMost(e);
  }

  lemma GivesAtMost(a: seq<byte>, w: nat, x: nat, k: nat, e: nat)
    requires x < w
    ensures var b := if x + 1 < w then AddAt(a, k + 1, e * 7 / 16) else a;
            Sum(b) <= Sum(a) + Given(e) && Sum(GiveBelow(b, w, x, k, e)) <= Sum(a) + Given(e)
  {
    hide Sum, AddAt, GiveBelow;
    SumAddAt(a, k + 1, e * 7 / 16);
    SumBelow(if x + 1 < w then AddAt(a, k + 1, e * 7 / 16) else a, w, x, k, e);
  }

  lemma SumBelow(s: seq<byte>, w: nat, x: nat, k: nat, e: nat)
    requires x < w
    ensures Sum(GiveBelow(s, w, x, k, e)) <= Sum(s) + e * 5 / 16 + e * 3 / 16 + e / 16
  {
    hide Sum, AddAt;
    var c := AddAt(s, k + w, e * 5 / 16);
    SumAddAt(s, k + w, e * 5 / 16);
    SumAddAt(c, k + w - 1, e * 3 / 16);
    SumAddAt(if x > 0 then AddAt(c, k + w - 1, e * 3 / 16) else c, k + w + 1, e / 16);
  }

  lemma Kept(v: byte)
    ensures Level(v) == v - v % 64
  {
  }

  class Image8 {
    const data: array<byte>
    const width: nat

    constructor (data: array<byte>, width: nat)
      ensures this.data == data && this.width == width
    {
      this.data, this.width := data, width;
    }

    function Height(): nat
      requires width > 0
    {
      data.Length / width
    }

    method DitherAddClamp(i: nat, error: int)
      requires i < data.Length
      modifies data
      ensures data[..] == old(data[..])[i := Cap(old(data[i]) + error)]
    {
      if data[i] + error < 0 {
        data[i] := 0;
      } else if data[i] + error > 255 {
        data[i] := 255;
      } else {
        data[i] := data[i] + error;
      }
    }

    method Dither4Colour()
      requires width > 0
      modifies data
      ensures Dithered(data[..], old(data[..]), width, Height() * width, Height() * width)
      ensures forall m :: 0 <= m < Height() * width ==> data[m] in {0, 64, 128, 192}
      ensures Sum(data[..]) <= Sum(old(data[..]))
    {
      hide Dithered, Step, Sum;
      var height := Height();
      ghost var orig := data[..];
      assert height * width <= data.Length by { DivBounds(data.Length, width); }
      NothingVisited(orig, width, height * width);
      for y := 0 to height
        invariant Dithered(data[..], orig, width, height * width, y * width)
        invariant Sum(data[..]) <= Sum(orig)
      {
        InBounds(width, height, 0, y);
        for x := 0 to width
          invariant Dithered(data[..], orig, width, height * width, y * width + x)
          invariant Sum(data[..]) <= Sum(orig)
        {
          ghost var s := data[..];
          StepDithers(s, orig, width, height, x, y);
          StepDims(s, width, height, x, y);
          DitherPixel(height, x, y);
        }
        Distributes(y, 1, width);
      }
      AllVisited(data[..], orig, width, height * width);
    }

    method DitherPixel(height: nat, x: nat, y: nat)
      requires x < width && y < height && data.Length >= height * width
      modifies data
      ensures data[..] == Step(old(data[..]), width, height, x, y)
    {
      hide Cap, GiveBelow;
      InBounds(width, height, x, y);
      var oldPixel := data[y * width + x];
      var newPixel := Level(oldPixel);
      var error: int := oldPixel - newPixel;
      data[y * width + x] := newPixel;
      if x + 1 < width {
        DitherAddClamp(y * width + x + 1, error * 7 / 16);
      }
      if y + 1 < height {
        DitherBelow(x, y, error);
      }
    }

    method DitherBelow(x: nat, y: nat, error: nat)
      requires x < width && y * width + width + width <= data.Length
      modifies data
      ensures data[..] == GiveBelow(old(data[..]), width, x, y * width + x, error)
    {
      hide Cap;
      var below := (y + 1) * width + x;
      assert below == y * width + x + width by { Distributes(y, 1, width); }
      DitherAddClamp(below, error * 5 / 16);
      if x > 0 {
        DitherAddClamp(below - 1, error * 3 / 16);
      }
      if x + 1 < width {
        DitherAddClamp(below + 1, error / 16);
      }
    }
  }

  /** Of the error, 7 parts go to the right, 3 below to the left, 5 below and 1 below to the right,
      as far as those are in the image; nothing else gets any. */
  lemma WeightsAre(w: nat, x: nat, y: nat, x': nat, y': nat)
    requires x < w && x' < w
    ensures Weight(w, y' * w + x', y * w + x) ==
            if y' == y && x' == x + 1 then 7
            else if y' == y + 1 && x' + 1 == x then 3
            else if y' == y + 1 && x' == x then 5
            else if y' == y + 1 && x' == x + 1 then 1
            else 0
  {
    var k, m := y * w + x, y' * w + x';
    DivModUnique(m, w, y', x');
    var d := y' - y;
    Distributes(y, d, w);
    assert m - k == d * w + (x' - x);
    if d >= 2 {
      MulMonotone(2, d, w);
    } else if d <= -1 {
      MulBounds(d, w);
    }
    WeightByPlace(w, m, k, x', x, d, d * w);
  }

  lemma WeightByPlace(w: nat, m: nat, k: nat, x': nat, x: nat, d: int, dw: int)
    requires x < w && x' < w && m % w == x' && m - k == dw + (x' - x)
    requires (d == 0 ==> dw == 0) && (d == 1 ==> dw == w) && (d >= 2 ==> dw >= 2 * w) && (d <= -1 ==> dw + w <= 0)
    ensures Weight(w, m, k) ==
            if d == 0 && x' == x + 1 then 7
            else if d == 1 && x' + 1 == x then 3
            else if d == 1 && x' == x then 5
            else if d == 1 && x' == x + 1 then 1
            else 0
  {
  }
}
