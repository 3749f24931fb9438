/** The LZO1X stream format of minilzo.c: the instructions a compressed stream is made
    of, their encoding, and what a decoder does with an arbitrary stream. */
module LzoFormat {
  import opened Bytes

  const M2_MAX_LEN: nat := 8
  const M3_MAX_LEN: nat := 33
  const M4_MAX_LEN: nat := 9
  const M2_MAX_OFFSET: nat := 0x0800
  const M3_MAX_OFFSET: nat := 0x4000
  const M4_MAX_OFFSET: nat := 0xbfff

  /** A run of at least four literals, or a match with the up to three literals whose
      count is patched into the match's offset bytes. */
  datatype Instr =
    | Run(lits: seq<byte>)
    | Match(off: nat, len: nat, tail: seq<byte>)

  ghost predicate ValidInstr(i: Instr) {
    match i
    case Run(lits) => |lits| >= 4
    case Match(off, len, tail) => 1 <= off <= M4_MAX_OFFSET && len >= 3 && |tail| <= 3
  }

  // Encoding

  /** A length above what the instruction byte holds: zeros worth 255 each, then the rest. */
  function Extension(n: nat): (s: seq<byte>)
    requires n > 0
    ensures |s| > 0 && 255 * (|s| - 1) < n <= 255 * |s|
  {
    if n > 255 then [0] + Extension(n - 255) else [n]
  }

  /** A length value of at least one in the low bits of an instruction byte, or, when it
      exceeds `mask`, in an extension after it. */
  function LengthBytes(first: nat, mask: nat, value: nat): (s: seq<byte>)
    requires value >= 1 && first + mask < 256
    ensures |s| >= 1
  {
    if value <= mask then [first + value] else [first] + Extension(value - mask)
  }

  function RunHeader(t: nat): (s: seq<byte>)
    requires t >= 4
  {
    LengthBytes(0, 15, t - 3)
  }

  function OffsetBytes(v: nat, state: nat): (s: seq<byte>)
    requires state <= 3
    ensures |s| == 2
  {
    [v % 64 * 4 + state, v / 64 % 256]
  }

  /** The bytes of a match, with `state` trailing literals announced in the low two bits of
      the second byte from the end. */
  function MatchBytes(off: nat, len: nat, state: nat): (s: seq<byte>)
    requires 1 <= off <= M4_MAX_OFFSET && len >= 3 && state <= 3
    ensures |s| >= 2
  {
    if off <= M2_MAX_OFFSET && len <= M2_MAX_LEN then
      [(len - 1) * 32 + (off - 1) % 8 * 4 + state, (off - 1) / 8]
    else if off <= M3_MAX_OFFSET then
      LengthBytes(32, 31, len - 2) + OffsetBytes(off - 1, state)
    else
      var high := if off - 0x4000 >= 0x4000 then 8 else 0;
      LengthBytes(16 + high, 7, len - 2) + OffsetBytes(off - 0x4000, state)
  }

  function InstrBytes(i: Instr): seq<byte>
    requires ValidInstr(i)
  {
    match i
    case Run(lits) => RunHeader(|lits|) + lits
    case Match(off, len, tail) => MatchBytes(off, len, |tail|) + tail
  }

  const END_MARKER: seq<byte> := [17, 0, 0]

  /** What the instructions stand for: `out` with every instruction applied in turn. */
  function Apply(out: seq<byte>, i: Instr): seq<byte>
    requires ValidInstr(i) && (i.Match? ==> i.off <= |out|)
  {
    match i
    case Run(lits) => out + lits
    case Match(off, len, tail) => CopyBack(out, off, len) + tail
  }

  /** Well-formed programs: they begin with a run, a run is never followed by a run nor
      preceded by a match with patched literals, and matches reach back into the output. */
  ghost predicate ValidProgram(p: seq<Instr>)
    decreases |p|, 0
  {
    p == [] ||
    var init, last := p[..|p| - 1], p[|p| - 1];
    && ValidProgram(init)
    && ValidInstr(last)
    && (last.Match? ==> init != [] && last.off <= |Output(init)|)
    && (last.Run? ==> init == [] || (init[|init| - 1].Match? && init[|init| - 1].tail == []))
  }

  ghost function Output(p: seq<Instr>): seq<byte>
    requires ValidProgram(p)
    decreases |p|, 1
  {
    if p == [] then []
    else Apply(Output(p[..|p| - 1]), p[|p| - 1])
  }

  ghost function ProgramBytes(p: seq<Instr>): seq<byte>
    requires ValidProgram(p)
  {
    if p == [] then []
    else ProgramBytes(p[..|p| - 1]) + InstrBytes(p[|p| - 1])
  }

  // Decoding

  datatype Status = Ok | InputNotConsumed | InputOverrun | OutputOverrun | LookbehindOverrun | EofNotFound

  datatype Outcome = Outcome(status: Status, out: seq<byte>)

  /** The number of bytes past the end of the stream that the decoder may look at before
      it notices the end. */
  const SLACK: nat := 6

  /** Compressed data of `len` bytes, followed in memory by at least `SLACK` others, and
      the room there is for the output. */
  datatype Stream = Stream(bytes: seq<byte>, len: nat, room: nat) {
    ghost predicate Valid() {
      1 <= len && len + SLACK <= |bytes|
    }

    function At(i: nat): (b: nat)
      requires i < |bytes|
      ensures b == bytes[i] && b < 256
    {
      bytes[i]
    }
  }

  /** What the previous instruction was, which decides how a byte below 16 reads. */
  datatype After = Fresh | AfterRun | AfterTail

  /** Scans the zeros of a length extension at `ip`. */
  function ScanExtension(s: Stream, ip: nat, t: nat): (r: (nat, nat))
    requires s.Valid() && ip <= s.len
    ensures ip <= r.0 <= s.len && r.1 >= t
    ensures r.0 < s.len ==> s.bytes[r.0] != 0
    decreases s.len - ip
  {
    if ip < s.len && s.At(ip) == 0 then ScanExtension(s, ip + 1, t + 255) else (ip, t)
  }

  /** The input check made before reading `n` bytes; it compares unsigned differences, so
      it cannot fail once `ip` has passed the end. */
  predicate InputShort(s: Stream, ip: nat, n: nat) {
    ip <= s.len && s.len - ip < n
  }

  function Decode(s: Stream): Outcome
    requires s.Valid()
  {
    if s.At(0) > 17 then
      var t := s.At(0) - 17;
      if t < 4 then DecodeTail(s, 1, [], t)
      else if s.room < t then Outcome(OutputOverrun, [])
      else if InputShort(s, 1, t + 1) then Outcome(InputOverrun, [])
      else DecodeInstr(s, 1 + t, s.bytes[1..1 + t], AfterRun)
    else DecodeInstr(s, 0, [], Fresh)
  }

  /** Decoding from an instruction byte at `ip`, with `out` produced so far. */
  function DecodeInstr(s: Stream, ip: nat, out: seq<byte>, after: After): Outcome
    requires s.Valid() && |out| <= s.room
    requires ip <= s.len + 5 && (after == AfterRun ==> ip < s.len)
    decreases |s.bytes| - ip, 2
  {
    if after == Fresh && ip >= s.len then Outcome(EofNotFound, out)
    else if after == AfterTail && ip + 1 >= s.len then Outcome(EofNotFound, out)
    else if s.At(ip) >= 16 then DecodeMatch(s, ip, out)
    else if after == Fresh then DecodeRun(s, ip, out)
    else
      // the two short matches, at fixed lengths
      var len := if after == AfterRun then 3 else 2;
      var off := (if after == AfterRun then 1 + M2_MAX_OFFSET else 1) + s.At(ip) / 4 + s.At(ip + 1) * 4;
      DecodeCopy(s, ip, ip + 2, out, off, len)
  }

  /** The length value whose instruction byte at `ip` holds `short`, or nothing if the
      value is in an extension; with the position of the last byte read for it. */
  function LengthAt(s: Stream, ip: nat, short: nat, mask: nat): (r: (nat, nat))
    requires s.Valid() && ip < s.len
    ensures ip <= r.0 <= s.len
    ensures r.0 < s.len ==> r.1 >= 1
  {
    if short != 0 then (ip, short)
    else
      var (end, base) := ScanExtension(s, ip + 1, mask);
      (end, if end < s.len then base + s.At(end) else 0)
  }

  function DecodeRun(s: Stream, ip: nat, out: seq<byte>): Outcome
    requires s.Valid() && |out| <= s.room
    requires ip < s.len
    decreases |s.bytes| - ip, 0
  {
    var (end, value) := LengthAt(s, ip, s.At(ip), 15);
    var t := value + 3;
    if end == s.len then Outcome(InputOverrun, out)
    else if s.room - |out| < t then Outcome(OutputOverrun, out)
    else if InputShort(s, end + 1, t + 1) then Outcome(InputOverrun, out)
    else DecodeInstr(s, end + 1 + t, out + s.bytes[end + 1..end + 1 + t], AfterRun)
  }

  /** A match whose instruction byte, at least 16, is at `ip`. */
  function DecodeMatch(s: Stream, ip: nat, out: seq<byte>): Outcome
    requires s.Valid() && |out| <= s.room
    requires ip < s.len && s.At(ip) >= 16
    decreases |s.bytes| - ip, 1
  {
    var t := s.At(ip);
    if t >= 64 then
      DecodeCopy(s, ip, ip + 2, out, 1 + t / 4 % 8 + s.At(ip + 1) * 8, t / 32 + 1)
    else
      var (end, value) := if t >= 32 then LengthAt(s, ip, t % 32, 31) else LengthAt(s, ip, t % 8, 7);
      var len := value + 2;
      if end == s.len then Outcome(InputOverrun, out)
      else
        var low := s.At(end + 1) / 4 + s.At(end + 2) * 64;
        var high := t / 8 % 2 * 0x4000;
        if t >= 32 then DecodeCopy(s, ip, end + 3, out, 1 + low, len)
        else if high + low == 0 then
          Outcome(if end + 3 == s.len then Ok else if end + 3 < s.len then InputNotConsumed else InputOverrun, out)
        else DecodeCopy(s, ip, end + 3, out, high + low + 0x4000, len)
  }

  /** Copies, then reads the count of trailing literals from the byte before the last. */
  function DecodeCopy(s: Stream, from: nat, ip: nat, out: seq<byte>, off: nat, len: nat): Outcome
    requires s.Valid() && |out| <= s.room
    requires from + 2 <= ip <= s.len + 2 && off >= 1
    decreases |s.bytes| - from, 0
  {
    if off > |out| then Outcome(LookbehindOverrun, out)
    else if s.room - |out| < len then Outcome(OutputOverrun, out)
    else
      AfterCopy(s, ip, CopyBack(out, off, len))
  }

  function AfterCopy(s: Stream, ip: nat, out: seq<byte>): Outcome
    requires s.Valid() && |out| <= s.room
    requires 2 <= ip <= s.len + 2
    decreases |s.bytes| - ip, 3
  {
    if s.At(ip - 2) % 4 == 0 then DecodeInstr(s, ip, out, Fresh)
    else DecodeTail(s, ip, out, s.At(ip - 2) % 4)
  }

  function DecodeTail(s: Stream, ip: nat, out: seq<byte>, t: nat): Outcome
    requires s.Valid() && |out| <= s.room
    requires 1 <= ip <= s.len + 2 && 1 <= t <= 3
    decreases |s.bytes| - ip, 0
  {
    if s.room - |out| < t then Outcome(OutputOverrun, out)
    else if InputShort(s, ip, t + 1) then Outcome(InputOverrun, out)
    else DecodeInstr(s, ip + t, out + s.bytes[ip..ip + t], AfterTail)
  }

  /** Some bytes of the format: literal runs without and with an extension, and a near, a middle
      and two far matches. */
  lemma SomeBytes()
    ensures RunHeader(4) == [1] && RunHeader(18) == [15] && RunHeader(19) == [0, 1] && RunHeader(300) == [0, 0, 27]
    ensures MatchBytes(4, 4, 0) == [108, 0] && MatchBytes(2048, 8, 3) == [255, 255]
    ensures MatchBytes(3000, 5, 0) == [35, 0xDC, 0x2E] && MatchBytes(1, 34, 1) == [32, 1, 1, 0]
    ensures MatchBytes(20000, 4, 2) == [18, 0x82, 0x38] && MatchBytes(0xBFFF, 9, 0) == [31, 0xFC, 0xFF]
    ensures END_MARKER == [17, 0, 0]
  {
    assert Extension(282) == [0] + Extension(27);
  }
}
