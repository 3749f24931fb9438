/** Images in memory as rows of bytes, and turning them upside down in place. */
module Scanlines {
  import opened Bytes
  import opened PixelMemory
  import opened Powers

  /** Row `k` of an image whose rows are `w` bytes long. */
  function Row(a: seq<byte>, w: nat, k: nat): seq<byte> {
    Pixel(a, 1, w, 0, k)
  }

  /** The image upside down. */
  function RowsReversed(a: seq<byte>, w: nat, h: nat): (r: seq<byte>)
    requires |a| == w * h
    ensures |r| == |a|
  {
    if h == 0 then []
    else
      LastRow(w, h);
      a[w * (h - 1)..] + RowsReversed(a[..w * (h - 1)], w, h - 1)
  }

  /** The bytes after a row of `x` pixels of three that make it a multiple of four. */
  function RowPadding(x: nat): nat {
    (-(3 * x)) % 4
  }

  lemma LastRow(w: nat, h: nat)
    requires h > 0
    ensures 0 <= w * (h - 1) == w * h - w
  {
  }

  lemma RowIs(a: seq<byte>, w: nat, h: nat, k: nat)
    requires |a| == w * h && k < h
    ensures Offset(1, w, 0, k) == w * k && w * k + w <= |a|
    ensures Row(a, w, k) == a[w * k..w * k + w] && |Row(a, w, k)| == w
  {
    MulMonotone(k + 1, h, w);
  }

  lemma {:induction false} ReversedRow(a: seq<byte>, w: nat, h: nat, k: nat)
    requires |a| == w * h && k < h
    ensures Row(RowsReversed(a, w, h), w, k) == Row(a, w, h - 1 - k)
    decreases h
  {
    hide Row;
    LastRow(w, h);
    var init := a[..w * (h - 1)];
    if k == 0 {
      FirstReversed(a, w, h);
    } else {
      ReversedRow(init, w, h - 1, k - 1);
      RowAfter(a[w * (h - 1)..], RowsReversed(init, w, h - 1), w, h, k);
      RowBefore(a, init, w, h, h - 1 - k);
    }
  }

  lemma FirstReversed(a: seq<byte>, w: nat, h: nat)
    requires |a| == w * h && h > 0
    ensures Row(RowsReversed(a, w, h), w, 0) == Row(a, w, h - 1)
  {
    hide Row;
    LastRow(w, h);
    RowIs(RowsReversed(a, w, h), w, h, 0);
    RowIs(a, w, h, h - 1);
  }

  lemma RowAfter(first: seq<byte>, rest: seq<byte>, w: nat, h: nat, k: nat)
    requires |first| == w && 0 < k < h && |first + rest| == w * h
    ensures Row(first + rest, w, k) == Row(rest, w, k - 1)
  {
    hide Row;
    LastRow(w, h);
    LastRow(w, k);
    RowIs(first + rest, w, h, k);
    RowIs(rest, w, h - 1, k - 1);
  }

  lemma RowBefore(a: seq<byte>, init: seq<byte>, w: nat, h: nat, k: nat)
    requires h > 0 && |a| == w * h && |init| == w * (h - 1) <= |a| && init == a[..w * (h - 1)] && k < h - 1
    ensures Row(init, w, k) == Row(a, w, k)
  {
    hide Row;
    RowIs(a, w, h, k);
    RowIs(init, w, h - 1, k);
  }

  lemma ReversedIff(a: seq<byte>, b: seq<byte>, w: nat, h: nat)
    requires |a| == |b| == w * h && forall k: nat :: k < h ==> Row(b, w, k) == Row(a, w, h - 1 - k)
    ensures b == RowsReversed(a, w, h)
  {
    hide Row;
    var r := RowsReversed(a, w, h);
    forall x: nat, y: nat | x < 1 && y < h
      ensures Pixel(b, 1, w, x, y) == Pixel(r, 1, w, x, y)
    {
      assert Row(b, w, y) == Row(a, w, h - 1 - y);
      ReversedRow(a, w, h, y);
      RowIsPixel(b, w, y);
      RowIsPixel(r, w, y);
    }
    SamePixels(b, r, 1, h, w);
  }

  lemma RowIsPixel(a: seq<byte>, w: nat, k: nat)
    ensures Row(a, w, k) == Pixel(a, 1, w, 0, k)
  {
  }

  /** Turning an image upside down twice gives it back. */
  lemma ReversedTwice(a: seq<byte>, w: nat, h: nat)
    requires |a| == w * h
    ensures RowsReversed(RowsReversed(a, w, h), w, h) == a
  {
    hide Row, RowsReversed;
    var r := RowsReversed(a, w, h);
    forall k: nat | k < h
      ensures Row(a, w, k) == Row(r, w, h - 1 - k)
    {
      ReversedRow(a, w, h, h - 1 - k);
    }
    ReversedIff(r, a, w, h);
  }

  // In place

  /** The first `i` bytes of two rows have changed places. */
  function Swapped(s: seq<byte>, index1: nat, index2: nat, i: nat): (t: seq<byte>)
    requires index1 + i <= |s| && index2 + i <= |s|
    ensures |t| == |s|
  {
    if i == 0 then s
    else
      var t := Swapped(s, index1, index2, i - 1);
      var j, k := index1 + i - 1, index2 + i - 1;
      t[j := t[k]][k := t[j]]
  }

  /** Where a byte comes from after that. */
  function Origin(index1: nat, index2: nat, i: nat, k: nat): int {
    if index1 <= k < index1 + i then k + index2 - index1
    else if index2 <= k < index2 + i then k + index1 - index2
    else k
  }

  lemma {:induction false} SwappedAt(s: seq<byte>, index1: nat, index2: nat, i: nat, k: nat)
    requires index1 + i <= |s| && index2 + i <= |s| && k < |s|
    requires index1 == index2 || index1 + i <= index2 || index2 + i <= index1
    ensures Swapped(s, index1, index2, i)[k] == s[Origin(index1, index2, i, k)]
    decreases i
  {
    if i > 0 {
      var j1, j2 := index1 + i - 1, index2 + i - 1;
      SwappedAt(s, index1, index2, i - 1, if k == j1 then j2 else if k == j2 then j1 else k);
    }
  }

  lemma SwappedRows(s: seq<byte>, index1: nat, index2: nat, w: nat)
    requires index1 + w <= |s| && index2 + w <= |s|
    requires index1 == index2 || index1 + w <= index2 || index2 + w <= index1
    ensures var t := Swapped(s, index1, index2, w);
            && t[index1..index1 + w] == s[index2..index2 + w] && t[index2..index2 + w] == s[index1..index1 + w]
            && forall k :: 0 <= k < |s| && !(index1 <= k < index1 + w) && !(index2 <= k < index2 + w) ==> t[k] == s[k]
  {
    hide Swapped;
    forall k | 0 <= k < |s|
      ensures Swapped(s, index1, index2, w)[k] == s[Origin(index1, index2, w, k)]
    {
      SwappedAt(s, index1, index2, w, k);
    }
  }

  method SwapRows(a: array<byte>, index1: nat, index2: nat, w: nat)
    requires index1 + w <= a.Length && index2 + w <= a.Length
    requires index1 == index2 || index1 + w <= index2 || index2 + w <= index1
    modifies a
    ensures a[index1..index1 + w] == old(a[index2..index2 + w]) && a[index2..index2 + w] == old(a[index1..index1 + w])
    ensures forall k ::
              0 <= k < a.Length && !(index1 <= k < index1 + w) && !(index2 <= k < index2 + w) ==> a[k] == old(a[k])
  {
    ghost var was := a[..];
    for i := 0 to w
      invariant a[..] == Swapped(was, index1, index2, i)
    {
      var temp := a[index1 + i];
      a[index1 + i] := a[index2 + i];
      a[index2 + i] := temp;
    }
    SwappedRows(was, index1, index2, w);
  }

  /** The first `j` rows and the last `j` have changed places. */
  ghost predicate HalfFlipped(b: seq<byte>, a: seq<byte>, w: nat, h: nat, j: nat) {
    && |b| == |a| == w * h
    && forall k: nat :: k < h ==> Row(b, w, k) == Row(a, w, if k < j || k + j >= h then h - 1 - k else k)
  }

  lemma NoneFlipped(a: seq<byte>, w: nat, h: nat)
    requires |a| == w * h
    ensures HalfFlipped(a, a, w, h, 0)
  {
  }

  lemma AllFlipped(b: seq<byte>, a: seq<byte>, w: nat, h: nat, j: nat)
    requires HalfFlipped(b, a, w, h, j) && j * 2 >= h - 1
    ensures b == RowsReversed(a, w, h)
  {
    hide Row;
    forall k: nat | k < h
      ensures Row(b, w, k) == Row(a, w, h - 1 - k)
    {
      assert Row(b, w, k) == Row(a, w, if k < j || k + j >= h then h - 1 - k else k);
    }
    ReversedIff(a, b, w, h);
  }

  /** Where two rows are that change places. */
  lemma RowsApart(w: nat, h: nat, j: nat)
    requires j * 2 < h
    ensures w * j + w <= w * h && 0 <= w * (h - 1 - j) <= w * (h - 1 - j) + w <= w * h
    ensures j == h - 1 - j || w * j + w <= w * (h - 1 - j)
  {
    MulMonotone(j + 1, h, w);
    MulMonotone(h - j, h, w);
    if j != h - 1 - j {
      MulMonotone(j + 1, h - 1 - j, w);
    }
  }

  lemma RowsSwapped(c: seq<byte>, b: seq<byte>, a: seq<byte>, w: nat, h: nat, j: nat)
    requires HalfFlipped(b, a, w, h, j) && j * 2 < h && |c| == |b|
    requires Row(c, w, j) == Row(b, w, h - 1 - j) && Row(c, w, h - 1 - j) == Row(b, w, j)
    requires forall k: nat :: k < h && k != j && k != h - 1 - j ==> Row(c, w, k) == Row(b, w, k)
    ensures HalfFlipped(c, a, w, h, j + 1)
  {
    hide Row;
  }

  /** Rows outside the bytes written are kept. */
  lemma RowKept(c: seq<byte>, b: seq<byte>, w: nat, h: nat, i: nat, j: nat, k: nat)
    requires |c| == |b| == w * h && i < h && j < h && k < h && k != i && k != j
    requires forall o :: 0 <= o < |c| && !(w * i <= o < w * i + w) && !(w * j <= o < w * j + w) ==> c[o] == b[o]
    ensures Row(c, w, k) == Row(b, w, k)
  {
    hide Row;
    RowIs(c, w, h, i);
    RowIs(c, w, h, j);
    RowIs(c, w, h, k);
    RowIs(b, w, h, k);
    OffsetsApart(1, w, 0, i, 0, k);
    OffsetsApart(1, w, 0, j, 0, k);
  }

  /** One turn of the loop that flips an image. */
  method FlipRows(a: array<byte>, w: nat, h: nat, j: nat, ghost was: seq<byte>)
    requires j * 2 < h && HalfFlipped(a[..], was, w, h, j)
    modifies a
    ensures HalfFlipped(a[..], was, w, h, j + 1)
  {
    hide HalfFlipped, Row;
    ghost var b := a[..];
    Flippable(b, was, w, h, j);
    RowsApart(w, h, j);
    SwapRows(a, w * j, w * (h - 1 - j), w);
    RowIs(a[..], w, h, j);
    RowIs(a[..], w, h, h - 1 - j);
    RowIs(b, w, h, j);
    RowIs(b, w, h, h - 1 - j);
    forall k: nat | k < h && k != j && k != h - 1 - j
      ensures Row(a[..], w, k) == Row(b, w, k)
    {
      RowKept(a[..], b, w, h, j, h - 1 - j, k);
    }
    RowsSwapped(a[..], b, was, w, h, j);
  }

  lemma Flippable(b: seq<byte>, a: seq<byte>, w: nat, h: nat, j: nat)
    requires HalfFlipped(b, a, w, h, j)
    ensures |b| == w * h
  {
  }
}
