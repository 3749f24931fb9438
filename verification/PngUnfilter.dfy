/** The in-place unfiltering of a PNG image (`create_png_image_raw`). */
module PngUnfilter {
  import opened Bytes
  import opened PngFilters

  const F_NONE := 0
  const F_SUB := 1
  const F_UP := 2
  const F_AVG := 3
  const F_PAETH := 4
  const F_AVG_FIRST := 5
  const F_PAETH_FIRST := 6

  /** What storing the `int` sum into a `uint8` keeps of it. */
  function Plus(v: int, w: int): byte {
    (v + w) % 256
  }

  function Average(v: nat, w: nat): nat {
    (v + w) / 2
  }

  /** The filters of the first row, which do not look at a row above. */
  function FirstRowFilter(f: nat): nat
    requires f <= 4
  {
    if f == F_UP then F_NONE else if f == F_AVG then F_AVG_FIRST else if f == F_PAETH then F_PAETH_FIRST else f
  }

  /** A decoded pixel, given its neighbours. */
  function PixelOf(f: nat, data: seq<byte>, left: seq<byte>, above: seq<byte>, corner: seq<byte>): (p: seq<byte>)
    requires |data| == |left| == |above| == |corner|
    ensures |p| == |data|
  {
    seq(|data|, k requires 0 <= k < |data| => (data[k] + Predict(f, left[k], above[k], corner[k])) % 256)
  }

  /** The pixel before sample `r` of a row, which is zero at its start. */
  function Before(row: seq<byte>, r: nat, n: nat): (p: seq<byte>)
    requires r <= |row| && (r >= n || r == 0)
    ensures |p| == n
  {
    if r == 0 then ZeroRow(n) else row[r - n..r]
  }

  /** The decoded row, pixel by pixel. */
  lemma RowPixel(f: nat, prior: seq<byte>, data: seq<byte>, n: nat, r: nat)
    requires n > 0 && |data| == |prior| && r + n <= |data| && (r >= n || r == 0)
    ensures var row := Unfilter(f, prior, data, n);
            row[r..r + n] == PixelOf(f, data[r..r + n], Before(row, r, n), prior[r..r + n], Before(prior, r, n))
  {
    hide Unfilter, Predict;
    var row := Unfilter(f, prior, data, n);
    var p := PixelOf(f, data[r..r + n], Before(row, r, n), prior[r..r + n], Before(prior, r, n));
    forall k | 0 <= k < n
      ensures row[r..r + n][k] == p[k]
    {
      UnfilterAt(f, prior, data, n, r + k);
    }
  }

  /** `filter` decodes a row filtered by `f`; `first` says that there is no row above. */
  predicate Decodes(filter: nat, f: nat, first: bool) {
    f <= 4 && filter == if first then FirstRowFilter(f) else f
  }

  /** The pixel `p` lies in memory at `o`. */
  ghost predicate Holds(a: seq<byte>, o: int, p: seq<byte>, m: nat) {
    |p| <= m <= |p| + 1 && 0 <= o <= o + m <= |a| && a[o..o + m] == WithAlpha(p, |p|, m)
  }

  lemma HoldsAt(a: seq<byte>, o: int, p: seq<byte>, m: nat, k: nat)
    requires Holds(a, o, p, m) && k < |p|
    ensures 0 <= o + k < |a| && a[o + k] == p[k]
  {
    assert a[o..o + m][k] == WithAlpha(p, |p|, m)[k];
  }

  /** What lies a row above what comes after `a`: nothing for the first row, whose
      row above counts as zero. */
  ghost predicate Above(a: seq<byte>, o: int, p: seq<byte>, m: nat, first: bool) {
    if first then p == ZeroRow(|p|) else Holds(a, o, p, m)
  }

  lemma AboveAt(a: seq<byte>, o: int, p: seq<byte>, m: nat, first: bool, k: nat)
    requires Above(a, o, p, m, first) && k < |p|
    ensures if first then p[k] == 0 else 0 <= o + k < |a| && a[o + k] == p[k]
  {
    if !first {
      HoldsAt(a, o, p, m, k);
    }
  }

  /** Storing the samples of a pixel one by one. */
  lemma Stored(a: seq<byte>, o: nat, p: seq<byte>, m: nat)
    requires |p| <= m <= |p| + 1 && o + m <= |a| && a[o..o + |p|] == p && (m > |p| ==> a[o + |p|] == 255)
    ensures Holds(a, o, p, m)
  {
    assert a[o..o + m] == a[o..o + |p|] + a[o + |p|..o + m];
  }

  method FirstPixel(out: array<byte>, data: seq<byte>, filter: nat, m: nat, o: nat, stride: nat,
                    ghost f: nat, ghost first: bool, ghost above: seq<byte>)
    requires Decodes(filter, f, first) && |data| == |above| <= m <= |data| + 1 && m <= stride && o + m <= out.Length
    requires Above(out[..o], o - stride, above, m, first)
    modifies out
    ensures out[..o] == old(out[..o]) && Holds(out[..], o, PixelOf(f, data, ZeroRow(|data|), above, ZeroRow(|data|)), m)
  {
    hide Above, Holds, Paeth, Decodes, PixelOf;
    ghost var p, was := PixelOf(f, data, ZeroRow(|data|), above, ZeroRow(|data|)), out[..o];
    for k := 0 to |data|
      invariant out[..o] == was
      invariant out[o..o + k] == p[..k]
    {
      AboveAt(was, o - stride, above, m, first, k);
      FirstSample(data, filter, f, first, above, k);
      assert !first ==> out[o - stride + k] == was[o - stride + k];
      out[o + k] :=
        if filter == F_UP then Plus(data[k], out[o - stride + k])
        else if filter == F_AVG then Plus(data[k], out[o - stride + k] / 2)
        else if filter == F_PAETH then Plus(data[k], Paeth(0, out[o - stride + k], 0))
        else data[k];
      assert out[o..o + k + 1] == out[o..o + k] + [p[k]];
    }
    if m != |data| {
      out[o + |data|] := 255;
    }
    Stored(out[..], o, p, m);
  }

  /** The cases of the first pixel agree with the general rule. */
  lemma FirstSample(data: seq<byte>, filter: nat, f: nat, first: bool, above: seq<byte>, k: nat)
    requires Decodes(filter, f, first) && |data| == |above| && k < |data| && (first ==> above[k] == 0)
    ensures !first || (filter != F_UP && filter != F_AVG && filter != F_PAETH)
    ensures PixelOf(f, data, ZeroRow(|data|), above, ZeroRow(|data|))[k] ==
            if filter == F_UP then Plus(data[k], above[k])
            else if filter == F_AVG then Plus(data[k], above[k] / 2)
            else if filter == F_PAETH then Plus(data[k], Paeth(0, above[k], 0))
            else data[k]
  {
  }

  method NextPixel(out: array<byte>, data: seq<byte>, filter: nat, m: nat, o: nat, stride: nat,
                   ghost f: nat, ghost first: bool, ghost left: seq<byte>, ghost above: seq<byte>,
                   ghost corner: seq<byte>)
    requires Decodes(filter, f, first) && |data| == |left| == |above| == |corner| <= m <= |data| + 1 && m <= stride
             && o + m <= out.Length
    requires Holds(out[..o], o - m, left, m)
    requires Above(out[..o], o - stride, above, m, first)
    requires Above(out[..o], o - stride - m, corner, m, first)
    modifies out
    ensures out[..o] == old(out[..o]) && Holds(out[..], o, PixelOf(f, data, left, above, corner), m)
  {
    hide Above, Holds, Paeth, Decodes, PixelOf;
    ghost var p, was := PixelOf(f, data, left, above, corner), out[..o];
    for k := 0 to |data|
      invariant out[..o] == was
      invariant out[o..o + k] == p[..k]
    {
      HoldsAt(was, o - m, left, m, k);
      AboveAt(was, o - stride, above, m, first, k);
      AboveAt(was, o - stride - m, corner, m, first, k);
      NextSample(data, filter, f, first, left, above, corner, k);
      assert out[o - m + k] == was[o - m + k];
      assert !first ==>
          out[o - stride + k] == was[o - stride + k] && out[o - stride - m + k] == was[o - stride - m + k];
      out[o + k] :=
        if filter == F_SUB then Plus(data[k], out[o - m + k])
        else if filter == F_UP then Plus(data[k], out[o - stride + k])
        else if filter == F_AVG then Plus(data[k], Average(out[o - stride + k], out[o - m + k]))
        else if filter == F_PAETH then
            Plus(data[k], Paeth(out[o - m + k], out[o - stride + k], out[o - stride - m + k]))
        else if filter == F_AVG_FIRST then Plus(data[k], out[o - m + k] / 2)
        else if filter == F_PAETH_FIRST then Plus(data[k], Paeth(out[o - m + k], 0, 0))
        else data[k];
      assert out[o..o + k + 1] == out[o..o + k] + [p[k]];
    }
    if m != |data| {
      out[o + |data|] := 255;
    }
    Stored(out[..], o, p, m);
  }

  /** The cases of every other pixel, those of the first row's filters among them, agree with
      the general rule. */
  lemma NextSample(data: seq<byte>, filter: nat, f: nat, first: bool, left: seq<byte>, above: seq<byte>,
                   corner: seq<byte>, k: nat)
    requires Decodes(filter, f, first) && |data| == |left| == |above| == |corner| && k < |data|
    requires first ==> above[k] == 0 && corner[k] == 0
    ensures !first || (filter != F_UP && filter != F_AVG && filter != F_PAETH)
    ensures PixelOf(f, data, left, above, corner)[k] ==
            if filter == F_SUB then Plus(data[k], left[k])
            else if filter == F_UP then Plus(data[k], above[k])
            else if filter == F_AVG then Plus(data[k], Average(above[k], left[k]))
            else if filter == F_PAETH then Plus(data[k], Paeth(left[k], above[k], corner[k]))
            else if filter == F_AVG_FIRST then Plus(data[k], left[k] / 2)
            else if filter == F_PAETH_FIRST then Plus(data[k], Paeth(left[k], 0, 0))
            else data[k]
  {
    hide PixelOf, Paeth;
    SampleOf(f, data, left, above, corner, k);
  }

  lemma SampleOf(f: nat, data: seq<byte>, left: seq<byte>, above: seq<byte>, corner: seq<byte>, k: nat)
    requires |data| == |left| == |above| == |corner| && k < |data|
    ensures PixelOf(f, data, left, above, corner)[k] == Plus(data[k], Predict(f, left[k], above[k], corner[k]))
  {
  }

  /** A row above, in memory just before the row at the end of `a`. */
  ghost predicate RowAbove(a: seq<byte>, prior: seq<byte>, n: nat, m: nat, first: bool)
    requires 0 < n <= m <= n + 1
  {
    if first then prior == ZeroRow(|prior|)
    else |Expand(prior, n, m)| <= |a| && a[|a| - |Expand(prior, n, m)|..] == Expand(prior, n, m)
  }

  /** The pixels above a row in progress are where the row above has them. */
  lemma PixelAbove(a: seq<byte>, done: seq<byte>, prior: seq<byte>, r: nat, n: nat, m: nat, first: bool)
    requires 0 < n <= m <= n + 1 && r + n <= |prior| && Whole(|prior| - r - n, n)
    requires |done| == |Expand(prior[..r], n, m)| && RowAbove(a, prior, n, m, first)
    ensures Above(a + done, |a| + |done| - |Expand(prior, n, m)|, prior[r..r + n], m, first)
  {
    hide Expand, WithAlpha, Whole, Above, Holds;
    if first {
      ZeroAbove(a + done, |a| + |done| - |Expand(prior, n, m)|, prior, r, n, m);
    } else {
      ExpandAt(prior, n, m, r);
      SliceAcross(a, done, Expand(prior, n, m), m);
      PixelHeld(a + done, |a| + |done| - |Expand(prior, n, m)|, prior[r..r + n], m);
    }
  }

  lemma ZeroAbove(a: seq<byte>, o: int, prior: seq<byte>, r: nat, n: nat, m: nat)
    requires prior == ZeroRow(|prior|) && r + n <= |prior|
    ensures Above(a, o, prior[r..r + n], m, true)
  {
  }

  lemma PixelHeld(a: seq<byte>, o: int, p: seq<byte>, m: nat)
    requires |p| <= m <= |p| + 1 && 0 <= o <= o + m <= |a| && a[o..o + m] == WithAlpha(p, |p|, m)
    ensures Above(a, o, p, m, false)
  {
  }

  lemma SliceAcross(a: seq<byte>, b: seq<byte>, above: seq<byte>, m: nat)
    requires |above| <= |a| && a[|a| - |above|..] == above && |b| + m <= |above|
    ensures var o := |a| + |b| - |above|; 0 <= o <= o + m <= |a + b| && (a + b)[o..o + m] == above[|b|..|b| + m]
  {
    assert forall k :: 0 <= k < |above| ==> above[k] == a[|a| - |above| + k];
  }

  lemma AboveExtends(a: seq<byte>, b: seq<byte>, o: int, p: seq<byte>, m: nat, first: bool)
    requires Above(a, o, p, m, first)
    ensures Above(a + b, o, p, m, first)
  {
    assert !first ==> (a + b)[o..o + m] == a[o..o + m];
  }

  /** Memory when a row is done up to sample `r`. */
  ghost function Mem(was: seq<byte>, row: seq<byte>, r: nat, n: nat, m: nat): (a: seq<byte>)
    requires 0 < n <= m <= n + 1 && r <= |row|
    ensures |a| == |was| + |Expand(row[..r], n, m)|
  {
    was + Expand(row[..r], n, m)
  }

  /** What the pixel at sample `r` finds above it. */
  lemma FindsAbove(was: seq<byte>, row: seq<byte>, prior: seq<byte>, n: nat, m: nat, r: nat, first: bool)
    requires 0 < n <= m <= n + 1 && |row| == |prior| && r + n <= |row| && Whole(|row| - r - n, n)
    requires RowAbove(was, prior, n, m, first)
    ensures Above(Mem(was, row, r, n, m), |Mem(was, row, r, n, m)| - |Expand(prior, n, m)|, prior[r..r + n], m, first)
  {
    hide RowAbove, Above, Expand;
    SameLength(row[..r], prior[..r], n, m);
    PixelAbove(was, Expand(row[..r], n, m), prior, r, n, m, first);
  }

  lemma MemGrows(was: seq<byte>, row: seq<byte>, n: nat, m: nat, r: nat)
    requires 0 < n <= m <= n + 1 && r + n <= |row|
    ensures Mem(was, row, r + n, n, m) == Mem(was, row, r, n, m) + WithAlpha(row[r..r + n], n, m)
  {
    hide Expand, WithAlpha;
    ExpandGrows(row, n, m, r);
  }

  /** What the pixel at sample `r`, not the first, finds around it. */
  lemma FindsAround(was: seq<byte>, row: seq<byte>, prior: seq<byte>, n: nat, m: nat, r: nat, first: bool)
    requires 0 < n <= m <= n + 1 && |row| == |prior| && n <= r <= |row| && Whole(|row| - r, n)
    requires RowAbove(was, prior, n, m, first)
    ensures var a := Mem(was, row, r, n, m);
            Holds(a, |a| - m, row[r - n..r], m) && Above(a, |a| - |Expand(prior, n, m)| - m, prior[r - n..r], m, first)
  {
    hide RowAbove, Above, Expand, WithAlpha, Mem;
    var before, pixel := Mem(was, row, r - n, n, m), WithAlpha(row[r - n..r], n, m);
    FindsAbove(was, row, prior, n, m, r - n, first);
    MemGrows(was, row, n, m, r - n);
    AboveExtends(before, pixel, |before| - |Expand(prior, n, m)|, prior[r - n..r], m, first);
    assert (before + pixel)[|before|..|before| + m] == pixel;
  }

  method UnfilterRow(out: array<byte>, data: seq<byte>, filter: nat, n: nat, m: nat, x: nat, cur: nat,
                     ghost f: nat, ghost first: bool, ghost prior: seq<byte>)
    requires Decodes(filter, f, first) && 0 < n <= m <= n + 1 && x > 0
    requires |data| == |prior| == x * n && cur + x * m <= out.Length
    requires RowAbove(out[..cur], prior, n, m, first)
    modifies out
    ensures out[..cur + x * m] == old(out[..cur]) + Expand(Unfilter(f, prior, data, n), n, m)
  {
    hide Above, Holds, Unfilter, Decodes, PixelOf, WithAlpha, RowAbove, Expand, Mem;
    ghost var was, row := out[..cur], Unfilter(f, prior, data, n);
    var stride := x * m;
    ExpandLength(prior, n, m, x);
    ExpandLength(row, n, m, x);
    WholePixels(x, n);
    Less(x, n);
    Less(x, m);
    MemAtEnds(was, row, n, m);
    FindsAbove(was, row, prior, n, m, 0, first);
    RowPixel(f, prior, data, n, 0);
    FirstPixel(out, data[..n], filter, m, cur, stride, f, first, prior[..n]);
    PixelStored(out[..], was, row, 0, n, m);
    var r, o, i := n, cur + m, x - 1;
    while i >= 1
      invariant |data| - r == i * n && cur + stride - o == i * m && n <= r
      invariant Whole(|data| - r, n)
      invariant |Mem(was, row, r, n, m)| == o && out[..o] == Mem(was, row, r, n, m)
    {
      Less(i, n);
      Less(i, m);
      FindsAbove(was, row, prior, n, m, r, first);
      FindsAround(was, row, prior, n, m, r, first);
      RowPixel(f, prior, data, n, r);
      NextPixel(out, data[r..r + n], filter, m, o, stride, f, first, row[r - n..r], prior[r..r + n], prior[r - n..r]);
      PixelStored(out[..], was, row, r, n, m);
      r, o, i := r + n, o + m, i - 1;
    }
  }

  lemma MemAtEnds(was: seq<byte>, row: seq<byte>, n: nat, m: nat)
    requires 0 < n <= m <= n + 1 && |row| >= n
    ensures Mem(was, row, 0, n, m) == was && Mem(was, row, |row|, n, m) == was + Expand(row, n, m)
  {
    assert row[..|row|] == row;
  }

  /** A pixel stored after what was in memory. */
  lemma PixelStored(a: seq<byte>, was: seq<byte>, row: seq<byte>, r: nat, n: nat, m: nat)
    requires 0 < n <= m <= n + 1 && r + n <= |row|
    requires var o := |Mem(was, row, r, n, m)|;
             o <= |a| && a[..o] == Mem(was, row, r, n, m) && Holds(a, o, row[r..r + n], m)
    ensures |Mem(was, row, r + n, n, m)| == |Mem(was, row, r, n, m)| + m
    ensures |Mem(was, row, r + n, n, m)| <= |a| && a[..|Mem(was, row, r + n, n, m)|] == Mem(was, row, r + n, n, m)
  {
    hide Mem, WithAlpha;
    MemGrows(was, row, n, m, r);
    var o := |Mem(was, row, r, n, m)|;
    assert a[..o + m] == a[..o] + a[o..o + m];
  }

  // The whole image

  function Prepend(rows: seq<seq<byte>>, d: Decoded): Decoded {
    if d.Rows? then Rows(rows + d.rows) else Corrupt
  }

  class Png {
    const imgX: nat
    const imgY: nat
    const imgN: nat
    var out: array<byte>

    constructor (x: nat, y: nat, n: nat)
      ensures imgX == x && imgY == y && imgN == n
    {
      imgX, imgY, imgN := x, y, n;
      out := new byte[0];
    }

    /** The bytes of an image of `x` by `y` pixels, filter bytes included. */
    function RawLength(x: nat, y: nat): nat {
      (imgN * x + 1) * y
    }

    method CreatePngImageRaw(raw: seq<byte>, outN: nat, x: nat, y: nat) returns (ok: bool)
      requires 0 < imgN <= outN <= imgN + 1 && x > 0
      modifies this
      ensures var d := Decode(ZeroRow(x * imgN), raw, imgN, y);
              && (ok <==> d.Rows? && (imgX == x && imgY == y ==> |raw| == RawLength(x, y)))
              && (ok ==> fresh(out) && out[..] == Pixels(d.rows, imgN, outN))
    {
      hide Decode, Pixels, Expand, Unfilter, RowAbove, Prepend, FirstRowFilter, Progress, AtLeast, Exactly;
      var stride := x * outN;
      out := new byte[x * y * outN];
      if imgX == x && imgY == y {
        if |raw| != RawLength(x, y) {
          return false;
        }
      } else if |raw| < RawLength(x, y) {
        ShortIsCorrupt(ZeroRow(x * imgN), raw, imgN, y);
        return false;
      }
      var w: nat, p: nat, cur: nat := x * imgN, 0, 0;
      ghost var rows: seq<seq<byte>>, prior := [], ZeroRow(w);
      StartOfImage(out[..], raw, w, imgN, outN, y);
      Room(|raw|, out.Length, imgN, outN, x, y);
      for j := 0 to y
        invariant |prior| == w && p <= |raw| && cur <= out.Length
        invariant AtLeast(|raw| - p, w + 1, y - j) && Exactly(out.Length - cur, stride, y - j)
        invariant Progress(out[..cur], raw, p, rows, prior, imgN, outN, j, y)
        invariant fresh(out)
        modifies out
      {
        OneRow(|raw| - p, w + 1, out.Length - cur, stride, y - j);
        RowFollows(out[..cur], raw, p, rows, prior, imgN, outN, j, y);
        var filter := raw[p];
        if filter > 4 {
          return false;
        }
        var data, next := raw[p + 1..p + 1 + w], cur + stride;
        ghost var row := Unfilter(filter, prior, data, imgN);
        NextRow(out[..cur], raw, p, rows, prior, imgN, outN, j, y, row);
        UnfilterRow(out, data, if j == 0 then FirstRowFilter(filter) else filter, imgN, outN, x, cur,
                    filter, j == 0, prior);
        rows, prior := rows + [row], row;
        p, cur := p + 1 + w, next;
      }
      NoRow(out.Length - cur, stride);
      EndOfImage(out[..cur], raw, p, rows, prior, imgN, outN, y);
      assert out[..cur] == out[..];
      ok := true;
    }
  }

  /** After `j` of `y` rows: memory `a` holds `rows`, and `raw` from `p` on has the others. */
  ghost predicate Progress(a: seq<byte>, raw: seq<byte>, p: nat, rows: seq<seq<byte>>, prior: seq<byte>, n: nat,
                           m: nat, j: nat, y: nat) {
    && 0 < n <= m <= n + 1 && j <= y && p <= |raw|
    && a == Pixels(rows, n, m) && RowAbove(a, prior, n, m, j == 0)
    && Prepend(rows, Decode(prior, raw[p..], n, y - j)) == Decode(ZeroRow(|prior|), raw, n, y)
  }

  /** Room for `y` rows of `w`. */
  ghost predicate AtLeast(d: int, w: nat, y: int) {
    d >= w * y
  }

  ghost predicate Exactly(d: int, w: nat, y: int) {
    d == w * y
  }

  lemma OneRow(d: int, w: nat, e: int, stride: nat, y: nat)
    requires AtLeast(d, w, y) && Exactly(e, stride, y) && y > 0
    ensures d >= w && AtLeast(d - w, w, y - 1) && e >= stride && Exactly(e - stride, stride, y - 1)
  {
    OneRowOf(w, y);
    OneRowOf(stride, y);
  }

  lemma NoRow(e: int, stride: nat)
    requires Exactly(e, stride, 0)
    ensures e == 0
  {
  }

  lemma Room(d: int, e: int, n: nat, m: nat, x: nat, y: nat)
    requires d >= (n * x + 1) * y && e == x * y * m
    ensures AtLeast(d, x * n + 1, y) && Exactly(e, x * m, y)
  {
    assert x * y * m == x * m * y;
  }

  lemma OneRowOf(w: nat, y: nat)
    requires y > 0
    ensures w * (y - 1) == w * y - w >= 0
  {
  }

  lemma {:induction false} ShortIsCorrupt(prior: seq<byte>, raw: seq<byte>, n: nat, y: nat)
    requires n > 0 && |raw| < (|prior| + 1) * y
    ensures Decode(prior, raw, n, y) == Corrupt
    decreases y
  {
    hide Unfilter;
    if |raw| > |prior| && raw[0] <= 4 {
      OneRowOf(|prior| + 1, y);
      ShortIsCorrupt(Unfilter(raw[0], prior, raw[1..|prior| + 1], n), raw[|prior| + 1..], n, y - 1);
    }
  }

  lemma StartOfImage(a: seq<byte>, raw: seq<byte>, w: nat, n: nat, m: nat, y: nat)
    requires 0 < n <= m <= n + 1
    ensures Progress(a[..0], raw, 0, [], ZeroRow(w), n, m, 0, y)
  {
    hide Decode;
    var d := Decode(ZeroRow(w), raw, n, y);
    assert raw[0..] == raw && Prepend([], d) == d;
  }

  /** One row of the decoder, after the rows before it. */
  lemma DecodeStep(prior: seq<byte>, raw: seq<byte>, p: nat, n: nat, y: nat, rows: seq<seq<byte>>)
    requires n > 0 && y > 0 && p + |prior| < |raw|
    ensures raw[p] > 4 ==> Decode(prior, raw[p..], n, y) == Corrupt
    ensures raw[p] <= 4 ==>
              var row, next := Unfilter(raw[p], prior, raw[p + 1..p + 1 + |prior|], n), p + 1 + |prior|;
              Prepend(rows, Decode(prior, raw[p..], n, y)) == Prepend(rows + [row], Decode(row, raw[next..], n, y - 1))
  {
    hide Unfilter;
    var rest := raw[p..];
    assert rest[0] == raw[p] && rest[1..|prior| + 1] == raw[p + 1..p + 1 + |prior|]
           && rest[|prior| + 1..] == raw[p + 1 + |prior|..];
    if raw[p] <= 4 {
      var row := Unfilter(raw[p], prior, rest[1..|prior| + 1], n);
      var d := Decode(row, rest[|prior| + 1..], n, y - 1);
      if d.Rows? {
        assert rows + ([row] + d.rows) == rows + [row] + d.rows;
      }
    }
  }

  lemma RowFollows(a: seq<byte>, raw: seq<byte>, p: nat, rows: seq<seq<byte>>, prior: seq<byte>, n: nat, m: nat,
                   j: nat, y: nat)
    requires Progress(a, raw, p, rows, prior, n, m, j, y) && j < y && p + |prior| < |raw|
    ensures RowAbove(a, prior, n, m, j == 0)
    ensures raw[p] > 4 ==> Decode(ZeroRow(|prior|), raw, n, y) == Corrupt
  {
    hide Decode, Pixels, RowAbove;
    DecodeStep(prior, raw, p, n, y - j, rows);
  }

  lemma NextRow(a: seq<byte>, raw: seq<byte>, p: nat, rows: seq<seq<byte>>, prior: seq<byte>, n: nat, m: nat, j: nat,
                y: nat, row: seq<byte>)
    requires Progress(a, raw, p, rows, prior, n, m, j, y) && j < y && p + |prior| < |raw| && raw[p] <= 4
    requires row == Unfilter(raw[p], prior, raw[p + 1..p + 1 + |prior|], n)
    ensures Progress(a + Expand(row, n, m), raw, p + 1 + |prior|, rows + [row], row, n, m, j + 1, y)
  {
    hide Decode, Pixels, Unfilter, Expand, RowAbove, Prepend, ZeroRow;
    PixelsAppends(rows, row, n, m);
    RowIsAbove(a, row, n, m);
    DecodeStep(prior, raw, p, n, y - j, rows);
  }

  lemma RowIsAbove(a: seq<byte>, row: seq<byte>, n: nat, m: nat)
    requires 0 < n <= m <= n + 1
    ensures RowAbove(a + Expand(row, n, m), row, n, m, false)
  {
    hide Expand;
  }

  lemma EndOfImage(a: seq<byte>, raw: seq<byte>, p: nat, rows: seq<seq<byte>>, prior: seq<byte>, n: nat, m: nat, y: nat)
    requires Progress(a, raw, p, rows, prior, n, m, y, y)
    ensures Decode(ZeroRow(|prior|), raw, n, y) == Rows(rows) && a == Pixels(rows, n, m)
  {
    assert Decode(prior, raw[p..], n, 0) == Rows([]);
    assert rows + [] == rows;
  }
}
