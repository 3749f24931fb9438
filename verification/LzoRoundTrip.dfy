/** Decoding what the encoding of a program says yields the program's output. */
module LzoRoundTrip {
  import opened Basics
  import opened Bytes
  import opened Powers
  import opened LzoFormat

  lemma {:induction false} ScanFindsExtension(s: Stream, ip: nat, base: nat, n: nat)
    requires s.Valid() && n > 0
    requires Holds(s.bytes, ip, Extension(n)) && ip + |Extension(n)| <= s.len
    ensures var (end, t) := ScanExtension(s, ip, base);
            end + 1 == ip + |Extension(n)| && t + s.At(end) == base + n
    decreases n
  {
    HoldsAt(s.bytes, ip, Extension(n), 0);
    if n > 255 {
      HoldsParts(s.bytes, ip, [0], Extension(n - 255));
      ScanFindsExtension(s, ip + 1, base + 255, n - 255);
    }
  }

  /** A length value, in its instruction byte or in an extension. */
  lemma LengthDecodes(s: Stream, ip: nat, first: nat, mask: nat, value: nat)
    requires s.Valid() && value >= 1 && first + mask < 256
    requires Holds(s.bytes, ip, LengthBytes(first, mask, value)) && ip + |LengthBytes(first, mask, value)| < s.len
    ensures first <= s.At(ip) <= first + mask
    ensures LengthAt(s, ip, s.At(ip) - first, mask) == (ip + |LengthBytes(first, mask, value)| - 1, value)
  {
    hide Extension, ScanExtension;
    HoldsAt(s.bytes, ip, LengthBytes(first, mask, value), 0);
    if value > mask {
      HoldsParts(s.bytes, ip, [first], Extension(value - mask));
      ScanFindsExtension(s, ip + 1, mask, value - mask);
    }
  }

  lemma RunStep(s: Stream, ip: nat, out: seq<byte>, lits: seq<byte>)
    requires s.Valid() && |lits| >= 4 && |out| + |lits| <= s.room
    requires Holds(s.bytes, ip, RunHeader(|lits|) + lits) && ip + |RunHeader(|lits|) + lits| < s.len
    ensures DecodeInstr(s, ip, out, Fresh)
         == DecodeInstr(s, ip + |RunHeader(|lits|) + lits|, out + lits, AfterRun)
  {
    hide LengthAt, LengthBytes, DecodeMatch, DecodeCopy;
    HoldsParts(s.bytes, ip, RunHeader(|lits|), lits);
    LengthDecodes(s, ip, 0, 15, |lits| - 3);
    assert DecodeInstr(s, ip, out, Fresh) == DecodeRun(s, ip, out);
  }

  lemma OffsetStep(s: Stream, ip: nat, v: nat, state: nat)
    requires state <= 3 && Holds(s.bytes, ip, OffsetBytes(v, state))
    ensures s.At(ip) / 4 + s.At(ip + 1) * 64 == v % 0x4000
    ensures s.At(ip) % 4 == state
  {
    var lo, hi := v % 64 * 4 + state, v / 64 % 256;
    assert OffsetBytes(v, state) == [lo, hi];
    hide OffsetBytes;
    HoldsAt(s.bytes, ip, [lo, hi], 0);
    HoldsAt(s.bytes, ip, [lo, hi], 1);
    OffsetFields(lo, v, state);
  }

  lemma OffsetFields(lo: nat, v: nat, state: nat)
    requires lo == v % 64 * 4 + state && state <= 3
    ensures lo % 4 == state && lo / 4 + v / 64 % 256 * 64 == v % 0x4000
  {
    var q := v / 64;
    DivModUnique(lo, 4, v % 64, state);
    DivModUnique(v, 0x4000, q / 256, q % 256 * 64 + v % 64);
  }

  lemma NearFields(t: nat, v: nat, n: nat, state: nat)
    requires t == n * 32 + v % 8 * 4 + state && state <= 3 && 2 <= n <= 7
    ensures t % 4 == state && t / 4 % 8 + v / 8 * 8 == v && t / 32 == n && t >= 64
  {
    assert t / 4 == n * 8 + v % 8;
  }

  lemma NearMatchDecodes(s: Stream, ip: nat, out: seq<byte>, off: nat, len: nat, state: nat)
    requires s.Valid() && |out| <= s.room
    requires 1 <= off <= M2_MAX_OFFSET && 3 <= len <= M2_MAX_LEN && state <= 3
    requires Holds(s.bytes, ip, MatchBytes(off, len, state)) && ip + 2 < s.len
    ensures s.At(ip) >= 16
    ensures DecodeMatch(s, ip, out) == DecodeCopy(s, ip, ip + 2, out, off, len) && s.At(ip) % 4 == state
  {
    hide ScanExtension, DecodeCopy, Decode, DecodeInstr;
    var m := MatchBytes(off, len, state);
    HoldsAt(s.bytes, ip, m, 0);
    HoldsAt(s.bytes, ip, m, 1);
    NearFields(s.At(ip), off - 1, len - 1, state);
  }

  lemma MiddleHeadDecodes(s: Stream, ip: nat, out: seq<byte>, off: nat, len: nat, state: nat, head: seq<byte>)
    requires s.Valid() && |out| <= s.room
    requires 1 <= off <= M3_MAX_OFFSET && len >= 3 && state <= 3
    requires head == LengthBytes(32, 31, len - 2)
    requires Holds(s.bytes, ip, head + OffsetBytes(off - 1, state)) && ip + |head| + 2 < s.len
    ensures s.At(ip) >= 16
    ensures DecodeMatch(s, ip, out) == DecodeCopy(s, ip, ip + |head| + 2, out, off, len)
            && s.At(ip + |head|) % 4 == state
  {
    hide LengthAt, LengthBytes, DecodeCopy, OffsetBytes;
    HoldsParts(s.bytes, ip, head, OffsetBytes(off - 1, state));
    OffsetStep(s, ip + |head|, off - 1, state);
    LengthDecodes(s, ip, 32, 31, len - 2);
    assert s.At(ip) % 32 == s.At(ip) - 32;
  }

  lemma FarHeadDecodes(s: Stream, ip: nat, out: seq<byte>, v: nat, high: nat, len: nat, state: nat, head: seq<byte>)
    requires s.Valid() && |out| <= s.room
    requires 1 <= v < 0x8000 && len >= 3 && state <= 3
    requires high == if v >= 0x4000 then 8 else 0
    requires head == LengthBytes(16 + high, 7, len - 2)
    requires Holds(s.bytes, ip, head + OffsetBytes(v, state)) && ip + |head| + 2 < s.len
    ensures s.At(ip) >= 16
    ensures DecodeMatch(s, ip, out) == DecodeCopy(s, ip, ip + |head| + 2, out, v + 0x4000, len)
            && s.At(ip + |head|) % 4 == state
  {
    hide LengthAt, LengthBytes, DecodeCopy, OffsetBytes;
    HoldsParts(s.bytes, ip, head, OffsetBytes(v, state));
    OffsetStep(s, ip + |head|, v, state);
    LengthDecodes(s, ip, 16 + high, 7, len - 2);
    assert s.At(ip) % 8 == s.At(ip) - (16 + high);
    HighBit(s.At(ip), v);
  }

  lemma MiddleMatchDecodes(s: Stream, ip: nat, out: seq<byte>, off: nat, len: nat, state: nat)
    requires s.Valid() && |out| <= s.room
    requires 1 <= off <= M3_MAX_OFFSET && len >= 3 && state <= 3
    requires off > M2_MAX_OFFSET || len > M2_MAX_LEN
    requires Holds(s.bytes, ip, MatchBytes(off, len, state)) && ip + |MatchBytes(off, len, state)| < s.len
    ensures s.At(ip) >= 16
    ensures var end := ip + |MatchBytes(off, len, state)|;
            DecodeMatch(s, ip, out) == DecodeCopy(s, ip, end, out, off, len) && s.At(end - 2) % 4 == state
  {
    hide LengthAt, LengthBytes, DecodeCopy, OffsetBytes;
    var head := LengthBytes(32, 31, len - 2);
    assert MatchBytes(off, len, state) == head + OffsetBytes(off - 1, state);
    MiddleHeadDecodes(s, ip, out, off, len, state, head);
  }

  lemma FarMatchDecodes(s: Stream, ip: nat, out: seq<byte>, off: nat, len: nat, state: nat)
    requires s.Valid() && |out| <= s.room
    requires M3_MAX_OFFSET < off <= M4_MAX_OFFSET && len >= 3 && state <= 3
    requires Holds(s.bytes, ip, MatchBytes(off, len, state)) && ip + |MatchBytes(off, len, state)| < s.len
    ensures s.At(ip) >= 16
    ensures var end := ip + |MatchBytes(off, len, state)|;
            DecodeMatch(s, ip, out) == DecodeCopy(s, ip, end, out, off, len) && s.At(end - 2) % 4 == state
  {
    hide LengthAt, LengthBytes, DecodeCopy, OffsetBytes;
    var v := off - 0x4000;
    var high := if v >= 0x4000 then 8 else 0;
    var head := LengthBytes(16 + high, 7, len - 2);
    assert MatchBytes(off, len, state) == head + OffsetBytes(v, state);
    FarHeadDecodes(s, ip, out, v, high, len, state, head);
  }

  /** The distance bit of the farthest matches: it tells apart the distances from 0x8000 up,
      and is set whenever the low fourteen bits could be mistaken for the end marker. */
  lemma HighBit(t: nat, v: nat)
    requires 0 < v < 0x8000
    requires if v >= 0x4000 then 24 <= t < 32 else 16 <= t < 24
    ensures t / 8 % 2 * 0x4000 + v % 0x4000 == v
  {
  }

  /** The instruction byte and offset bytes of a match decode to its offset and length. */
  lemma MatchBytesDecode(s: Stream, ip: nat, out: seq<byte>, off: nat, len: nat, state: nat)
    requires s.Valid() && |out| <= s.room
    requires 1 <= off <= M4_MAX_OFFSET && len >= 3 && state <= 3
    requires Holds(s.bytes, ip, MatchBytes(off, len, state)) && ip + |MatchBytes(off, len, state)| < s.len
    ensures s.At(ip) >= 16
    ensures var end := ip + |MatchBytes(off, len, state)|;
            DecodeMatch(s, ip, out) == DecodeCopy(s, ip, end, out, off, len) && s.At(end - 2) % 4 == state
  {
    hide DecodeMatch, DecodeCopy;
    if off <= M2_MAX_OFFSET && len <= M2_MAX_LEN {
      NearMatchDecodes(s, ip, out, off, len, state);
    } else if off <= M3_MAX_OFFSET {
      MiddleMatchDecodes(s, ip, out, off, len, state);
    } else {
      FarMatchDecodes(s, ip, out, off, len, state);
    }
  }

  function StateAfterTail(tail: seq<byte>): After {
    if tail == [] then Fresh else AfterTail
  }

  lemma MatchStep(s: Stream, ip: nat, out: seq<byte>, after: After, off: nat, len: nat, tail: seq<byte>)
    requires s.Valid() && |out| + len + |tail| <= s.room
    requires 1 <= off <= M4_MAX_OFFSET && off <= |out| && len >= 3 && |tail| <= 3
    requires Holds(s.bytes, ip, MatchBytes(off, len, |tail|) + tail)
             && ip + |MatchBytes(off, len, |tail|) + tail| < s.len
    ensures DecodeInstr(s, ip, out, after)
         == DecodeInstr(s, ip + |MatchBytes(off, len, |tail|) + tail|, CopyBack(out, off, len) + tail,
                        StateAfterTail(tail))
  {
    hide DecodeMatch, MatchBytes, ScanExtension, Decode, CopyBack;
    var m := MatchBytes(off, len, |tail|);
    HoldsParts(s.bytes, ip, m, tail);
    MatchBytesDecode(s, ip, out, off, len, |tail|);
    var end, c := ip + |m|, CopyBack(out, off, len);
    assert DecodeInstr(s, ip, out, after) == DecodeMatch(s, ip, out);
    assert DecodeCopy(s, ip, end, out, off, len) == AfterCopy(s, end, c);
    if tail == [] {
      assert c + tail == c;
    } else {
      assert AfterCopy(s, end, c) == DecodeTail(s, end, c, |tail|);
      assert s.bytes[end..end + |tail|] == tail;
    }
  }

  /** The end marker never reads as a match. */
  lemma EndStep(s: Stream, ip: nat, out: seq<byte>, after: After)
    requires s.Valid() && |out| <= s.room
    requires Holds(s.bytes, ip, END_MARKER) && ip + 3 == s.len
    ensures DecodeInstr(s, ip, out, after) == Outcome(Ok, out)
  {
    HoldsAt(s.bytes, ip, END_MARKER, 0);
    HoldsAt(s.bytes, ip, END_MARKER, 1);
    HoldsAt(s.bytes, ip, END_MARKER, 2);
  }

  // Whole programs

  lemma {:induction false} PrefixOfProgram(p: seq<Instr>, k: nat)
    requires ValidProgram(p) && k <= |p|
    ensures ValidProgram(p[..k])
    ensures ProgramBytes(p[..k]) <= ProgramBytes(p) && Output(p[..k]) <= Output(p)
    decreases |p|
  {
    hide InstrBytes, ValidInstr;
    if k < |p| {
      PrefixOfProgram(p[..|p| - 1], k);
      assert p[..|p| - 1][..k] == p[..k];
    } else {
      assert p[..k] == p;
    }
  }

  function AfterInstr(i: Instr): After {
    match i
    case Run(_) => AfterRun
    case Match(_, _, tail) => StateAfterTail(tail)
  }

  function StateAfter(p: seq<Instr>): After {
    if p == [] then Fresh else AfterInstr(p[|p| - 1])
  }

  /** One encoded instruction is decoded as the instruction it encodes. */
  lemma InstrStep(s: Stream, ip: nat, out: seq<byte>, after: After, i: Instr)
    requires s.Valid() && ValidInstr(i) && (i.Match? ==> i.off <= |out|) && (i.Run? ==> after == Fresh)
    requires |Apply(out, i)| <= s.room
    requires Holds(s.bytes, ip, InstrBytes(i)) && ip + |InstrBytes(i)| < s.len
    ensures DecodeInstr(s, ip, out, after) == DecodeInstr(s, ip + |InstrBytes(i)|, Apply(out, i), AfterInstr(i))
  {
    hide DecodeInstr, RunHeader, MatchBytes, CopyBack;
    match i
    case Run(lits) => RunStep(s, ip, out, lits);
    case Match(off, len, tail) => MatchStep(s, ip, out, after, off, len, tail);
  }

  lemma NextInstr(p: seq<Instr>, k: nat)
    requires ValidProgram(p) && k < |p|
    ensures ValidProgram(p[..k]) && ValidProgram(p[..k + 1]) && ValidInstr(p[k])
    ensures p[k].Match? ==> p[k].off <= |Output(p[..k])|
    ensures p[k].Run? ==> StateAfter(p[..k]) == Fresh
    ensures ProgramBytes(p[..k + 1]) == ProgramBytes(p[..k]) + InstrBytes(p[k]) <= ProgramBytes(p)
    ensures Output(p[..k + 1]) == Apply(Output(p[..k]), p[k]) <= Output(p)
  {
    hide RunHeader, MatchBytes, CopyBack, InstrBytes, Apply;
    PrefixOfProgram(p, k + 1);
    var q := p[..k + 1];
    assert q[..k] == p[..k] && q[k] == p[k];
  }

  lemma {:induction false} DecodeProgram(s: Stream, p: seq<Instr>, k: nat)
    requires s.Valid() && ValidProgram(p) && k <= |p|
    requires s.bytes[..s.len] == ProgramBytes(p) + END_MARKER
    requires |Output(p)| <= s.room
    ensures ValidProgram(p[..k]) && |ProgramBytes(p[..k])| + 3 <= s.len && |Output(p[..k])| <= s.room
    ensures DecodeInstr(s, |ProgramBytes(p[..k])|, Output(p[..k]), StateAfter(p[..k])) == Outcome(Ok, Output(p))
    decreases |p| - k
  {
    hide DecodeInstr, InstrBytes, ProgramBytes, Output, Apply, ValidProgram;
    PrefixOfProgram(p, k);
    var ip := |ProgramBytes(p[..k])|;
    if k == |p| {
      assert p[..k] == p;
      HoldsInPrefix(s.bytes, s.len, ProgramBytes(p), END_MARKER);
      EndStep(s, ip, Output(p), StateAfter(p));
    } else {
      DecodeProgram(s, p, k + 1);
      NextInstr(p, k);
      var x := InstrBytes(p[k]);
      assert ProgramBytes(p) <= s.bytes[..s.len];
      HoldsInPrefix(s.bytes, s.len, ProgramBytes(p[..k]), x);
      InstrStep(s, ip, Output(p[..k]), StateAfter(p[..k]), p[k]);
      assert StateAfter(p[..k + 1]) == AfterInstr(p[k]);
    }
  }

  /** `packed` decodes to `data` wherever it lies in memory and whenever the room suffices. */
  ghost predicate DecodesTo(packed: seq<byte>, data: seq<byte>) {
    && |packed| >= 1
    && forall s: Stream :: s.Valid() && s.len == |packed| && s.bytes[..s.len] == packed && |data| <= s.room
        ==> Decode(s) == Outcome(Ok, data)
  }

  lemma ProgramDecodes(p: seq<Instr>)
    requires ValidProgram(p)
    ensures DecodesTo(ProgramBytes(p) + END_MARKER, Output(p))
  {
    var packed := ProgramBytes(p) + END_MARKER;
    forall s: Stream | s.Valid() && s.len == |packed| && s.bytes[..s.len] == packed && |Output(p)| <= s.room
      ensures Decode(s) == Outcome(Ok, Output(p))
    {
      FirstByte(p);
      assert s.At(0) == s.bytes[..s.len][0];
      DecodeProgram(s, p, 0);
      assert p[..0] == [];
    }
  }

  /** A program never begins with a byte that reads as the short form of a lone run. */
  lemma FirstByte(p: seq<Instr>)
    requires ValidProgram(p)
    ensures (ProgramBytes(p) + END_MARKER)[0] <= 17
  {
    if p != [] {
      PrefixOfProgram(p, 1);
      assert p[..1][..0] == [];
      assert p[..1] == [p[0]];
    }
  }

  /** The short form: a lone run of at most 238 literals. */
  lemma LoneRunDecodes(lits: seq<byte>)
    requires 1 <= |lits| <= 238
    ensures DecodesTo([17 + |lits|] + lits + END_MARKER, lits)
  {
    var packed := [17 + |lits|] + lits + END_MARKER;
    forall s: Stream | s.Valid() && s.len == |packed| && s.bytes[..s.len] == packed && |lits| <= s.room
      ensures Decode(s) == Outcome(Ok, lits)
    {
      assert s.At(0) == s.bytes[..s.len][0];
      assert s.bytes[1..1 + |lits|] == s.bytes[..s.len][1..1 + |lits|] == lits;
      assert s.bytes[1 + |lits|..s.len] == s.bytes[..s.len][1 + |lits|..] == END_MARKER;
      EndStep(s, 1 + |lits|, lits, if |lits| < 4 then AfterTail else AfterRun);
      assert [] + lits == lits;
    }
  }
}
