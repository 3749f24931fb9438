/** The interlacing of PNG (section 2.6 of RFC 2083): which pixels the seven passes hold. */
module Adam7 {
  import opened Powers

  const XORIG: seq<nat> := [0, 4, 0, 2, 0, 1, 0]
  const YORIG: seq<nat> := [0, 0, 4, 0, 2, 0, 1]
  const XSPC: seq<nat> := [8, 8, 4, 4, 2, 2, 1]
  const YSPC: seq<nat> := [8, 8, 8, 4, 4, 2, 2]

  // The size of a pass over an image of `w` by `h` pixels

  function PassWidth(w: nat, p: nat): nat
    requires p < 7
  {
    (w - XORIG[p] + XSPC[p] - 1) / XSPC[p]
  }

  function PassHeight(h: nat, p: nat): nat
    requires p < 7
  {
    (h - YORIG[p] + YSPC[p] - 1) / YSPC[p]
  }

  // Where a pass puts the pixels of its column `i` and of its row `j`

  function Column(p: nat, i: nat): nat
    requires p < 7
  {
    i * XSPC[p] + XORIG[p]
  }

  function Line(p: nat, j: nat): nat
    requires p < 7
  {
    j * YSPC[p] + YORIG[p]
  }

  /** The pass that holds a pixel, from the pattern of section 2.6. */
  function PassOf(x: nat, y: nat): (p: nat)
    ensures p < 7
  {
    if y % 2 == 1 then 6
    else if x % 2 == 1 then 5
    else if y % 4 == 2 then 4
    else if x % 4 == 2 then 3
    else if y % 8 == 4 then 2
    else if x % 8 == 4 then 1
    else 0
  }

  lemma Stride(n: nat, spc: nat, orig: nat, k: nat)
    requires spc == 1 || spc == 2 || spc == 4 || spc == 8
    requires orig < spc
    ensures k < (n - orig + spc - 1) / spc <==> k * spc + orig < n
    ensures (k * spc + orig) / spc == k && (k * spc + orig) % spc == orig
  {
  }

  lemma Spacing(p: nat)
    requires p < 7
    ensures (XSPC[p] == 1 || XSPC[p] == 2 || XSPC[p] == 4 || XSPC[p] == 8) && XORIG[p] < XSPC[p]
    ensures (YSPC[p] == 1 || YSPC[p] == 2 || YSPC[p] == 4 || YSPC[p] == 8) && YORIG[p] < YSPC[p]
  {
  }

  /** The pattern of section 2.6, with the passes numbered from zero. */
  lemma Pattern(x: nat, y: nat)
    ensures PassOf(x, y) == [[0, 5, 3, 5, 1, 5, 3, 5],
                             [6, 6, 6, 6, 6, 6, 6, 6],
                             [4, 5, 4, 5, 4, 5, 4, 5],
                             [6, 6, 6, 6, 6, 6, 6, 6],
                             [2, 5, 3, 5, 2, 5, 3, 5],
                             [6, 6, 6, 6, 6, 6, 6, 6],
                             [4, 5, 4, 5, 4, 5, 4, 5],
                             [6, 6, 6, 6, 6, 6, 6, 6]][y % 8][x % 8]
  {
    Residues(x);
    Residues(y);
  }

  /** Every pixel of a pass lies in the image, and every column and row of the image that the
      pass can reach it does reach. */
  lemma PassInBounds(n: nat, p: nat, k: nat)
    requires p < 7
    ensures k < PassWidth(n, p) <==> Column(p, k) < n
    ensures k < PassHeight(n, p) <==> Line(p, k) < n
  {
    Spacing(p);
    Stride(n, XSPC[p], XORIG[p], k);
    Stride(n, YSPC[p], YORIG[p], k);
  }

  /** The places of a pass in the pattern are just its own. */
  lemma PassIffAligned(x: nat, y: nat, p: nat)
    requires p < 7
    ensures PassOf(x, y) == p <==> x % XSPC[p] == XORIG[p] && y % YSPC[p] == YORIG[p]
  {
    Residues(x);
    Residues(y);
  }

  /** The remainders by two and four are those of the remainder by eight. */
  lemma Residues(x: nat)
    ensures x % 4 == (if x % 8 >= 4 then x % 8 - 4 else x % 8)
    ensures x % 2 == (if x % 4 >= 2 then x % 4 - 2 else x % 4)
  {
    var q, r := x / 8, x % 8;
    var q4, r4 := if r >= 4 then 2 * q + 1 else 2 * q, if r >= 4 then r - 4 else r;
    DivModUnique(x, 4, q4, r4);
    DivModUnique(x, 2, if r4 >= 2 then 2 * q4 + 1 else 2 * q4, if r4 >= 2 then r4 - 2 else r4);
  }

  /** The pixels that pass `p` puts somewhere are its own... */
  lemma PassOwnsItsPixels(p: nat, i: nat, j: nat)
    requires p < 7
    ensures PassOf(Column(p, i), Line(p, j)) == p
    ensures Column(p, i) / XSPC[p] == i && Line(p, j) / YSPC[p] == j
  {
    hide PassOf;
    Spacing(p);
    Stride(0, XSPC[p], XORIG[p], i);
    Stride(0, YSPC[p], YORIG[p], j);
    PassIffAligned(Column(p, i), Line(p, j), p);
  }

  /** ...and it puts all of them. */
  lemma PassHasItsPixels(x: nat, y: nat)
    ensures var p := PassOf(x, y); Column(p, x / XSPC[p]) == x && Line(p, y / YSPC[p]) == y
  {
    hide PassOf;
    var p := PassOf(x, y);
    PassIffAligned(x, y, p);
    Spacing(p);
    DivideAndMultiply(x, XSPC[p]);
    DivideAndMultiply(y, YSPC[p]);
  }

  lemma DivideAndMultiply(x: nat, d: nat)
    requires d > 0
    ensures x / d * d + x % d == x
  {
  }

  /** The passes write each pixel of the image exactly once. */
  lemma Partition(w: nat, h: nat, x: nat, y: nat)
    requires x < w && y < h
    ensures exists p: nat, i: nat, j: nat :: Writes(w, h, p, i, j, x, y)
    ensures forall p: nat, i: nat, j: nat, p': nat, i': nat, j': nat ::
              Writes(w, h, p, i, j, x, y) && Writes(w, h, p', i', j', x, y) ==> p == p' && i == i' && j == j'
  {
    var p := PassOf(x, y);
    PassHasItsPixels(x, y);
    PassInBounds(w, p, x / XSPC[p]);
    PassInBounds(h, p, y / YSPC[p]);
    assert Writes(w, h, p, x / XSPC[p], y / YSPC[p], x, y);
    forall p: nat, i: nat, j: nat | Writes(w, h, p, i, j, x, y)
      ensures p == PassOf(x, y) && i == x / XSPC[p] && j == y / YSPC[p]
    {
      PassOwnsItsPixels(p, i, j);
    }
  }

  /** Pass `p` puts the pixel in its column `i` and row `j` at `x`, `y`. */
  ghost predicate Writes(w: nat, h: nat, p: nat, i: nat, j: nat, x: nat, y: nat) {
    p < 7 && i < PassWidth(w, p) && j < PassHeight(h, p) && Column(p, i) == x && Line(p, j) == y
  }
}
