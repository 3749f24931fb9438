/** lzo_adler32: the Adler-32 checksum with its modulo deferred for 5552 bytes at a time. */
module Adler32 {
  import opened Bytes
  import opened Powers

  newtype uint32 = x: int | 0 <= x < 0x1_0000_0000

  const BASE: nat := 65521
  const NMAX: nat := 5552

  /** The checksum of section 2.2 of RFC 1950: both sums are kept modulo BASE at every byte. */
  function Sums(a: nat, b: nat, buf: seq<byte>): (r: (nat, nat))
  {
    if buf == [] then (a, b)
    else
      var (a', b') := Sums(a, b, buf[..|buf| - 1]);
      var a'' := (a' + buf[|buf| - 1]) % BASE;
      (a'', (b' + a'') % BASE)
  }

  lemma {:induction false} SumsReduced(a: nat, b: nat, buf: seq<byte>)
    requires a < BASE && b < BASE
    ensures Sums(a, b, buf).0 < BASE && Sums(a, b, buf).1 < BASE
    decreases |buf|
  {
    if buf != [] {
      SumsReduced(a, b, buf[..|buf| - 1]);
    }
  }

  /** Checksumming two pieces in turn is checksumming their concatenation. */
  lemma {:induction false} SumsConcat(a: nat, b: nat, x: seq<byte>, y: seq<byte>)
    ensures Sums(a, b, x + y) == Sums(Sums(a, b, x).0, Sums(a, b, x).1, y)
    decreases |y|
  {
    if y == [] {
      assert x + y == x;
    } else {
      SumsConcat(a, b, x, y[..|y| - 1]);
      assert (x + y)[..|x + y| - 1] == x + y[..|y| - 1];
    }
  }

  lemma AddMod(a: int, b: int)
    ensures (a + b) % BASE == (a % BASE + b) % BASE
  {
    var s := a % BASE + b;
    assert a + b == (a / BASE + s / BASE) * BASE + s % BASE;
    DivModUnique(a + b, BASE, a / BASE + s / BASE, s % BASE);
  }

  /** One byte added without reducing agrees with one added and reduced. */
  lemma StepAgrees(s1: nat, s2: nat, a: nat, b: nat, buf: seq<byte>, n: nat)
    requires n < |buf|
    requires (s1 % BASE, s2 % BASE) == Sums(a, b, buf[..n])
    ensures ((s1 + buf[n]) % BASE, (s2 + (s1 + buf[n])) % BASE) == Sums(a, b, buf[..n + 1])
  {
    assert buf[..n + 1][..n] == buf[..n];
    AddMod(s1, buf[n]);
    AddMod(s2, s1 + buf[n]);
    AddMod(s1 + buf[n], s2 % BASE);
  }

  function Triangle(n: nat): nat {
    if n == 0 then 0 else Triangle(n - 1) + n
  }

  lemma TriangleStep(n: nat)
    ensures Triangle(n + 1) == Triangle(n) + n + 1
  {
  }

  lemma TriangleBound(n: nat)
    requires n <= NMAX
    ensures 65535 + 65535 * n + 255 * Triangle(n) < 0x1_0000_0000
  {
    TriangleClosed(n);
    assert n * (n + 1) <= NMAX * (NMAX + 1) by {
      MulMonotone(n, NMAX, n + 1);
      MulMonotone(n + 1, NMAX + 1, NMAX);
    }
  }

  lemma {:induction false} TriangleClosed(n: nat)
    ensures 2 * Triangle(n) == n * (n + 1)
  {
    if n > 0 {
      TriangleClosed(n - 1);
    }
  }

  /** Both halves of the checksum, in the range a caller may pass them: unreduced. */
  function Low(adler: uint32): nat { adler as nat % 0x10000 }
  function High(adler: uint32): nat { adler as nat / 0x10000 }

  function Join(s1: uint32, s2: uint32): (r: uint32)
    requires s1 < 0x10000 && s2 < 0x10000
    ensures Low(r) == s1 as nat && High(r) == s2 as nat
  {
    s2 * 0x10000 + s1
  }

  /** The additions of uint32 values below cannot overflow, whatever the starting value and
      the length; the verifier checks each. From any start the result is the checksum, except
      that a start that is not reduced is returned as it is when there is no data. */
  method Compute(adler: uint32, buf: seq<byte>) returns (r: uint32)
    ensures buf == [] ==> r == adler
    ensures buf != [] || (Low(adler) < BASE && High(adler) < BASE)
        ==> (Low(r), High(r)) == Sums(Low(adler) % BASE, High(adler) % BASE, buf)
  {
    hide Sums;
    var s1: uint32 := adler % 0x10000;
    var s2: uint32 := adler / 0x10000;
    ghost var a, b := Low(adler) % BASE, High(adler) % BASE;
    SumsNothing(a, b, buf[..0]);
    var pos: nat, len: nat := 0, |buf|;
    while len > 0
      invariant pos + len == |buf|
      invariant if pos == 0 then s1 == adler % 0x10000 && s2 == adler / 0x10000
                else s1 < BASE as uint32 && s2 < BASE as uint32
      invariant (s1 as nat % BASE, s2 as nat % BASE) == Sums(a, b, buf[..pos])
      decreases len
    {
      var k := if len < NMAX then len else NMAX;
      len := len - k;
      s1, s2 := AddBlock(s1, s2, buf, pos, k, a, b);
      pos := pos + k;
    }
    assert buf[..pos] == buf;
    r := Join(s1, s2);
  }

  lemma Halves(r: uint32, s: uint32)
    requires Low(r) == Low(s) && High(r) == High(s)
    ensures r == s
  {
  }

  /** The checksum of two pieces in turn, and of their concatenation. */
  method TwoPieces(adler: uint32, x: seq<byte>, y: seq<byte>) returns (r: uint32, whole: uint32)
    ensures r == whole
  {
    hide Sums, Low, High;
    var first := Compute(adler, x);
    r := Compute(first, y);
    whole := Compute(adler, x + y);
    ghost var a, b := Low(adler) % BASE, High(adler) % BASE;
    if x == [] {
      assert x + y == y;
    } else {
      SumsReduced(a, b, x);
      SumsConcat(a, b, x, y);
      if y == [] {
        assert x + y == x;
      }
    }
    if x + y != [] {
      Halves(r, whole);
    }
  }

  lemma SumsNothing(a: nat, b: nat, buf: seq<byte>)
    requires buf == []
    ensures Sums(a, b, buf) == (a, b)
  {
  }

  /** At most 5552 bytes, sixteen at a time and then one by one, and the reduction. */
  method AddBlock(s10: uint32, s20: uint32, buf: seq<byte>, start: nat, n: nat, ghost a: nat, ghost b: nat)
    returns (s1: uint32, s2: uint32)
    requires start + n <= |buf| && n <= NMAX
    requires s10 < 0x10000 && s20 < 0x10000
    requires (s10 as nat % BASE, s20 as nat % BASE) == Sums(a, b, buf[..start])
    ensures s1 < BASE as uint32 && s2 < BASE as uint32
    ensures (s1 as nat % BASE, s2 as nat % BASE) == Sums(a, b, buf[..start + n])
  {
    hide Sums, Triangle;
    TriangleClosed(0);
    var k: nat, pos: nat := n, start;
    s1, s2 := s10, s20;
    while k >= 16
      invariant pos + k == start + n && k <= n
      invariant s1 as nat <= 65535 + 255 * (n - k) && s2 as nat <= 65535 + 65535 * (n - k) + 255 * Triangle(n - k)
      invariant (s1 as nat % BASE, s2 as nat % BASE) == Sums(a, b, buf[..pos])
      decreases k
    {
      s1, s2 := AddBytes(s1, s2, buf, pos, 16, n - k, a, b);
      pos, k := pos + 16, k - 16;
    }
    s1, s2 := AddBytes(s1, s2, buf, pos, k, n - k, a, b);
    s1 := s1 % BASE as uint32;
    s2 := s2 % BASE as uint32;
  }

  /** `n` single steps, `j` bytes after the last reduction. */
  method AddBytes(s10: uint32, s20: uint32, buf: seq<byte>, pos: nat, n: nat, ghost j: nat, ghost a: nat, ghost b: nat)
    returns (s1: uint32, s2: uint32)
    requires pos + n <= |buf| && j + n <= NMAX
    requires s10 as nat <= 65535 + 255 * j && s20 as nat <= 65535 + 65535 * j + 255 * Triangle(j)
    requires (s10 as nat % BASE, s20 as nat % BASE) == Sums(a, b, buf[..pos])
    ensures s1 as nat <= 65535 + 255 * (j + n) && s2 as nat <= 65535 + 65535 * (j + n) + 255 * Triangle(j + n)
    ensures (s1 as nat % BASE, s2 as nat % BASE) == Sums(a, b, buf[..pos + n])
  {
    hide Sums, Triangle;
    s1, s2 := s10, s20;
    for i := 0 to n
      invariant s1 as nat <= 65535 + 255 * (j + i) && s2 as nat <= 65535 + 65535 * (j + i) + 255 * Triangle(j + i)
      invariant (s1 as nat % BASE, s2 as nat % BASE) == Sums(a, b, buf[..pos + i])
    {
      var x := buf[pos + i];
      TriangleBound(j + i + 1);
      TriangleStep(j + i);
      StepAgrees(s1 as nat, s2 as nat, a, b, buf, pos + i);
      s1 := s1 + x as uint32;
      s2 := s2 + s1;
    }
  }

  /** The checksum of three letters; and the sums are taken modulo 65521. */
  lemma SomeSums()
    ensures Sums(1, 0, [97, 98, 99]) == (0x127, 0x24d)
    ensures Sums(65520, 0, [1]) == (0, 0) && Sums(65519, 1, [1]) == (65520, 0)
  {
    assert [97, 98, 99][..2] == [97, 98] && [97, 98][..1] == [97] && [97][..0] == [] && [1][..0] == [];
    assert Sums(1, 0, [97]) == (98, 98);
    assert Sums(1, 0, [97, 98]) == (196, 294);
  }
}
