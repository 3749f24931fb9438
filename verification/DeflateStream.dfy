/** The writing of DEFLATE streams (RFC 1951): from blocks of stored bytes, or of literals and
    matches under any codes, to bits. */
module DeflateStream {
  import opened Bytes
  import opened Powers
  import opened PrefixCodes

  /** A number of `n` bits, the lowest first. */
  function Number(v: nat, n: nat): (bits: seq<bool>)
    ensures |bits| == n
    decreases n
  {
    if n == 0 then [] else [v % 2 == 1] + Number(v / 2, n - 1)
  }

  function StoredBits(data: seq<byte>): (bits: seq<bool>)
    ensures |bits| == 8 * |data|
  {
    if data == [] then [] else Number(data[0], 8) + StoredBits(data[1..])
  }

  // Symbols (section 3.2.2)

  predicate HasCode(lens: seq<nat>, i: nat) {
    i < |lens| && 1 <= lens[i] <= 15
  }

  /** The number of codes of this length that the room of the codes before it takes. */
  function Canonical(lens: seq<nat>, i: nat): nat
    requires HasCode(lens, i)
  {
    RoomIsSome(lens[i]);
    Quotient(RoomBefore(lens, i, |lens|), Room(lens[i]))
  }

  lemma RoomIsSome(l: nat)
    requires 1 <= l <= 15
    ensures Room(l) > 0
  {
  }

  /** The lowest `n` bits of a number, the highest first. */
  function HighFirst(v: nat, n: nat): (bits: seq<bool>)
    ensures |bits| == n
  {
    if n == 0 then [] else HighFirst(v / 2, n - 1) + [v % 2 == 1]
  }

  /** Codes are packed from their top bit. */
  function CodeBits(lens: seq<nat>, i: nat): (bits: seq<bool>)
    requires HasCode(lens, i)
    ensures |bits| == lens[i]
  {
    HighFirst(Canonical(lens, i), lens[i])
  }

  /** Lengths up to fifteen whose codes have room. */
  ghost predicate HaveRoom(lens: seq<nat>) {
    (forall i :: 0 <= i < |lens| ==> lens[i] <= 15) && TotalRoom(lens, |lens|) <= 0x8000
  }

  // Literals and matches (section 3.2.5)

  datatype Token = Literal(b: byte) | Copy(len: nat, dist: nat)

  ghost predicate CanFollow(out: seq<byte>, t: Token) {
    t.Copy? ==> 3 <= t.len <= 258 && 1 <= t.dist <= 0x8000 && t.dist <= |out|
  }

  ghost function Step(out: seq<byte>, t: Token): seq<byte>
    requires CanFollow(out, t)
  {
    match t
    case Literal(b) => out + [b]
    case Copy(len, dist) => CopyBack(out, dist, len)
  }

  ghost predicate ValidTokens(out: seq<byte>, ts: seq<Token>)
    decreases |ts|
  {
    ts == [] || (CanFollow(out, ts[0]) && ValidTokens(Step(out, ts[0]), ts[1..]))
  }

  ghost function Replay(out: seq<byte>, ts: seq<Token>): seq<byte>
    requires ValidTokens(out, ts)
    decreases |ts|
  {
    if ts == [] then out else Replay(Step(out, ts[0]), ts[1..])
  }

  /** Four symbols share a number of extra bits, and their lengths follow those before. */
  function LengthExtra(z: nat): nat
    requires 257 <= z <= 285
  {
    if z < 265 || z == 285 then 0 else (z - 261) / 4
  }

  function ShortestLength(z: nat): nat
    requires 257 <= z <= 285
  {
    if z < 265 then z - 254 else if z == 285 then 258 else 3 + (4 + (z - 261) % 4) * Pow2(LengthExtra(z))
  }

  /** So do two symbols for distances. */
  function DistanceExtra(d: nat): nat
    requires d <= 29
  {
    if d < 4 then 0 else d / 2 - 1
  }

  function NearestDistance(d: nat): nat
    requires d <= 29
  {
    if d < 4 then d + 1 else 1 + (2 + d % 2) * Pow2(DistanceExtra(d))
  }

  /** The last symbol from `z` down whose lengths reach down to `len`. */
  function LengthFrom(len: nat, z: nat): (s: nat)
    requires len >= 3 && 257 <= z <= 285
    ensures 257 <= s <= z && ShortestLength(s) <= len && (s < z ==> len < ShortestLength(s + 1))
  {
    if z == 257 || ShortestLength(z) <= len then z else LengthFrom(len, z - 1)
  }

  function DistanceFrom(dist: nat, d: nat): (s: nat)
    requires dist >= 1 && d <= 29
    ensures s <= d && NearestDistance(s) <= dist && (s < d ==> dist < NearestDistance(s + 1))
  {
    if d == 0 || NearestDistance(d) <= dist then d else DistanceFrom(dist, d - 1)
  }

  function LengthSymbol(len: nat): (z: nat)
    requires len >= 3
    ensures 257 <= z <= 285 && ShortestLength(z) <= len
  {
    LengthFrom(len, 285)
  }

  function DistanceSymbol(dist: nat): (d: nat)
    requires dist >= 1
    ensures d <= 29 && NearestDistance(d) <= dist
  {
    DistanceFrom(dist, 29)
  }

  /** The symbols of a token have codes. */
  predicate Codable(ll: seq<nat>, dl: seq<nat>, t: Token) {
    match t
    case Literal(b) => HasCode(ll, b)
    case Copy(len, dist) =>
      len >= 3 && dist >= 1 && HasCode(ll, LengthSymbol(len)) && HasCode(dl, DistanceSymbol(dist))
  }

  function LengthRest(len: nat): (bits: seq<bool>)
    requires len >= 3
    ensures |bits| == LengthExtra(LengthSymbol(len))
  {
    var z := LengthSymbol(len);
    Number(len - ShortestLength(z), LengthExtra(z))
  }

  function DistanceRest(dist: nat): (bits: seq<bool>)
    requires dist >= 1
    ensures |bits| == DistanceExtra(DistanceSymbol(dist))
  {
    var d := DistanceSymbol(dist);
    Number(dist - NearestDistance(d), DistanceExtra(d))
  }

  function TokenBits(ll: seq<nat>, dl: seq<nat>, t: Token): seq<bool>
    requires Codable(ll, dl, t)
  {
    match t
    case Literal(b) => CodeBits(ll, b)
    case Copy(len, dist) =>
      CodeBits(ll, LengthSymbol(len))
      + (LengthRest(len) + (CodeBits(dl, DistanceSymbol(dist)) + DistanceRest(dist)))
  }

  const END: nat := 256

  /** Codes of both alphabets that a block may be written with. */
  ghost predicate Codes(ll: seq<nat>, dl: seq<nat>) {
    |ll| <= 288 && |dl| <= 32 && HaveRoom(ll) && HaveRoom(dl) && HasCode(ll, END)
  }

  predicate AllCodable(ll: seq<nat>, dl: seq<nat>, ts: seq<Token>) {
    forall i :: 0 <= i < |ts| ==> Codable(ll, dl, ts[i])
  }

  function TokensBits(ll: seq<nat>, dl: seq<nat>, ts: seq<Token>): seq<bool>
    requires HasCode(ll, END) && AllCodable(ll, dl, ts)
  {
    if ts == [] then CodeBits(ll, END) else TokenBits(ll, dl, ts[0]) + TokensBits(ll, dl, ts[1..])
  }

  // Code lengths (section 3.2.7)

  /** A length; or the last one again; or no code for so many symbols. */
  datatype LengthOp = One(len: nat) | Again(n: nat) | Zeros(n: nat)

  predicate OpFollows(acc: seq<nat>, op: LengthOp) {
    match op
    case One(len) => len <= 15
    case Again(n) => 3 <= n <= 6 && acc != []
    case Zeros(n) => 3 <= n <= 138
  }

  function Times(v: nat, n: nat): seq<nat> {
    seq(n, _ => v)
  }

  function After(acc: seq<nat>, op: LengthOp): (lens: seq<nat>)
    requires OpFollows(acc, op)
    ensures |lens| > |acc|
  {
    match op
    case One(len) => acc + [len]
    case Again(n) => acc + Times(acc[|acc| - 1], n)
    case Zeros(n) => acc + Times(0, n)
  }

  predicate ValidOps(acc: seq<nat>, ops: seq<LengthOp>)
    decreases |ops|
  {
    ops == [] || (OpFollows(acc, ops[0]) && ValidOps(After(acc, ops[0]), ops[1..]))
  }

  function Expand(acc: seq<nat>, ops: seq<LengthOp>): (lens: seq<nat>)
    requires ValidOps(acc, ops)
    ensures |lens| >= |acc|
    decreases |ops|
  {
    if ops == [] then acc else Expand(After(acc, ops[0]), ops[1..])
  }

  function OpSymbol(op: LengthOp): nat {
    match op
    case One(len) => len
    case Again(_) => 16
    case Zeros(n) => if n <= 10 then 17 else 18
  }

  /** The bits behind the symbol. */
  function OpRest(op: LengthOp): seq<bool> {
    match op
    case One(_) => []
    case Again(n) => if n < 3 then [] else Number(n - 3, 2)
    case Zeros(n) => if n < 3 then [] else if n <= 10 then Number(n - 3, 3) else Number(n - 11, 7)
  }

  predicate AllOpsCodable(cl: seq<nat>, ops: seq<LengthOp>) {
    forall i :: 0 <= i < |ops| ==> HasCode(cl, OpSymbol(ops[i]))
  }

  function OpsBits(cl: seq<nat>, ops: seq<LengthOp>): seq<bool>
    requires AllOpsCodable(cl, ops)
  {
    if ops == [] then [] else CodeBits(cl, OpSymbol(ops[0])) + (OpRest(ops[0]) + OpsBits(cl, ops[1..]))
  }

  /** The order of the lengths of that alphabet: the repetitions, none, and then from eight
      outwards, up and down in turn. */
  function Ordered(i: nat): (v: nat)
    requires i < 19
    ensures v < 19
  {
    if i < 3 then 16 + i else if i == 3 then 0 else if i % 2 == 0 then 6 + i / 2 else (19 - i) / 2
  }

  /** The lengths of the code length code itself, from number `i` in their fixed order. */
  function OrderedBits(cl: seq<nat>, i: nat, n: nat): (bits: seq<bool>)
    requires |cl| == 19 && i <= n <= 19
    ensures |bits| == 3 * (n - i)
    decreases n - i
  {
    if i == n then [] else Number(cl[Ordered(i)], 3) + OrderedBits(cl, i + 1, n)
  }

  ghost predicate CodeLengthCode(cl: seq<nat>, hclen: nat) {
    && |cl| == 19 && 4 <= hclen <= 19 && TotalRoom(cl, 19) <= 0x8000
    && (forall i :: 0 <= i < 19 ==> cl[i] <= 7)
    && forall i :: hclen <= i < 19 ==> cl[Ordered(i)] == 0
  }

  function HeadBits(hlit: nat, hdist: nat, hclen: nat): (bits: seq<bool>)
    requires hlit >= 257 && hdist >= 1 && hclen >= 4
    ensures |bits| == 14
  {
    Number(hlit - 257, 5) + (Number(hdist - 1, 5) + Number(hclen - 4, 4))
  }

  // Stored blocks (section 3.2.4): from the next byte boundary on

  function Padding(p: nat): nat {
    (8 - p % 8) % 8
  }

  function StoredBody(data: seq<byte>, p: nat): seq<bool>
    requires |data| < 0x1_0000
  {
    Number(0, Padding(p)) + (Number(|data|, 16) + (Number(0xffff - |data|, 16) + StoredBits(data)))
  }

  // Fixed codes (section 3.2.6)

  function FixedLengths(): (lens: seq<nat>)
    ensures |lens| == 288
  {
    seq(288, i => if i < 144 then 8 else if i < 256 then 9 else if i < 280 then 7 else 8)
  }

  function FixedDistances(): (lens: seq<nat>)
    ensures |lens| == 32
  {
    seq(32, _ => 5)
  }

  lemma FixedCode(i: nat)
    ensures i < 288 ==> HasCode(FixedLengths(), i)
    ensures i < 32 ==> HasCode(FixedDistances(), i)
  {
  }

  /** Every token can be written with the fixed codes. */
  lemma {:induction false} FixedCodable(out: seq<byte>, ts: seq<Token>)
    requires ValidTokens(out, ts)
    ensures HasCode(FixedLengths(), END) && AllCodable(FixedLengths(), FixedDistances(), ts)
    decreases |ts|
  {
    hide HasCode, Step;
    FixedCode(END);
    if ts != [] {
      FixedCodable(Step(out, ts[0]), ts[1..]);
      match ts[0] {
        case Literal(b) => FixedCode(b);
        case Copy(len, dist) =>
          FixedCode(LengthSymbol(len));
          FixedCode(DistanceSymbol(dist));
      }
      assert ts == [ts[0]] + ts[1..];
    }
  }

  // Blocks (section 3.2.3)

  datatype Segment =
    | Stored(data: seq<byte>)
    | Fixed(ts: seq<Token>)
    | Dynamic(hclen: nat, cl: seq<nat>, ops: seq<LengthOp>, hlit: nat, ts: seq<Token>)
  {
    /** The block can be written, behind output `out`. */
    ghost predicate Valid(out: seq<byte>) {
      match this
      case Stored(data) => |data| < 0x1_0000
      case Fixed(ts) => ValidTokens(out, ts)
      case Dynamic(hclen, cl, ops, hlit, ts) =>
        && CodeLengthCode(cl, hclen) && ValidOps([], ops) && AllOpsCodable(cl, ops)
        && 257 <= hlit <= 288 && hlit < |Lens()| <= hlit + 32
        && Codes(Lens()[..hlit], Lens()[hlit..]) && AllCodable(Lens()[..hlit], Lens()[hlit..], ts)
        && ValidTokens(out, ts)
    }

    function Lens(): seq<nat>
      requires Dynamic? && ValidOps([], ops)
    {
      Expand([], ops)
    }

    ghost function Output(out: seq<byte>): (r: seq<byte>)
      requires Valid(out)
    {
      if Stored? then out + data else Replay(out, ts)
    }

    function Kind(): nat {
      if Stored? then 0 else if Fixed? then 1 else 2
    }

    /** The bits behind the three that every block begins with; those end at `p`. */
    ghost function Body(out: seq<byte>, p: nat): seq<bool>
      requires Valid(out)
    {
      match this
      case Stored(data) => StoredBody(data, p)
      case Fixed(ts) =>
        FixedCodable(out, ts);
        TokensBits(FixedLengths(), FixedDistances(), ts)
      case Dynamic(hclen, cl, ops, hlit, ts) =>
        HeadBits(hlit, |Lens()| - hlit, hclen)
        + (OrderedBits(cl, 0, hclen) + (OpsBits(cl, ops) + TokensBits(Lens()[..hlit], Lens()[hlit..], ts)))
    }

    ghost function Bits(out: seq<byte>, p: nat, final: bool): seq<bool>
      requires Valid(out)
    {
      [final] + (Number(Kind(), 2) + Body(out, p + 3))
    }
  }
}
