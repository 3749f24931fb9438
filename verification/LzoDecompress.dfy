/** lzo1x_decompress and lzo1x_decompress_safe: one body, compiled without and with the
    input, output and look-behind checks, and written as jumps between labels. */
module LzoDecompress {
  import opened Basics
  import opened Bytes
  import opened LzoFormat

  /** Four bytes read before any is written. */
  method Copy4(out: array<byte>, d: nat, a: byte, b: byte, c: byte, e: byte)
    requires d + 4 <= out.Length
    modifies out
    ensures out[..d + 4] == old(out[..d]) + [a, b, c, e]
    ensures out[d + 4..] == old(out[d + 4..])
  {
    out[d], out[d + 1], out[d + 2], out[d + 3] := a, b, c, e;
  }

  method CopyLiterals(s: Stream, from: nat, out: array<byte>, at: nat, t: nat) returns (ip: nat, op: nat)
    requires from + t <= |s.bytes| && at + t <= out.Length
    modifies out
    ensures ip == from + t && op == at + t
    ensures out[..op] == old(out[..at]) + s.bytes[from..ip]
    ensures out[op..] == old(out[op..])
  {
    ip, op := from, at;
    for k := 0 to t
      invariant ip == from + k && op == at + k
      invariant out[..op] == old(out[..at]) + s.bytes[from..ip]
      invariant out[op..] == old(out[op..])
    {
      out[op] := s.bytes[ip];
      op, ip := op + 1, ip + 1;
      assert out[..op] == out[..op - 1] + [s.bytes[ip - 1]];
      assert s.bytes[from..ip] == s.bytes[from..ip - 1] + [s.bytes[ip - 1]];
    }
  }

  /** A run of `run` literals, at least four, in blocks of four and a remainder. */
  method CopyRun(s: Stream, from: nat, out: array<byte>, at: nat, run: nat) returns (ip: nat, op: nat)
    requires run >= 4 && from + run <= |s.bytes| && at + run <= out.Length
    modifies out
    ensures ip == from + run && op == at + run
    ensures out[..op] == old(out[..at]) + s.bytes[from..ip]
    ensures out[op..] == old(out[op..])
  {
    ghost var was := out[..];
    var t := run;
    ip, op := from, at;
    while t >= 4
      invariant t <= run && ip == from + (run - t) && op == at + (run - t)
      invariant out[..op] == was[..at] + s.bytes[from..ip]
      invariant out[op..] == was[op..]
    {
      Copy4(out, op, s.bytes[ip], s.bytes[ip + 1], s.bytes[ip + 2], s.bytes[ip + 3]);
      assert s.bytes[ip..ip + 4] == [s.bytes[ip], s.bytes[ip + 1], s.bytes[ip + 2], s.bytes[ip + 3]];
      Appended(was[..at], s.bytes, from, ip, ip + 4);
      op, ip, t := op + 4, ip + 4, t - 4;
    }
    ghost var mid, half := out[..], ip;
    ip, op := CopyLiterals(s, ip, out, op, t);
    Appended(was[..at], s.bytes, from, half, ip);
    SuffixesAgree(mid, was, op - t, op);
  }

  /** The byte-at-a-time overlapping copy. */
  method CopyMatch(out: array<byte>, at: nat, from: nat, n: nat) returns (op: nat)
    requires from < at && at + n <= out.Length
    modifies out
    ensures op == at + n
    ensures out[..op] == CopyBack(old(out[..at]), at - from, n)
    ensures out[op..] == old(out[op..])
  {
    op := at;
    var mPos := from;
    for k := 0 to n
      invariant op == at + k && mPos == from + k
      invariant out[..op] == CopyBack(old(out[..at]), at - from, k)
      invariant out[op..] == old(out[op..])
    {
      ghost var r := out[..op];
      out[op] := out[mPos];
      op, mPos := op + 1, mPos + 1;
      assert out[..op] == r + [r[|r| - (at - from)]];
    }
  }

  method CopyBlock(out: array<byte>, op: nat, mPos: nat)
    requires mPos + 4 <= op && op + 4 <= out.Length
    modifies out
    ensures out[..op + 4] == CopyBack(old(out[..op]), op - mPos, 4)
    ensures out[op + 4..] == old(out[op + 4..])
  {
    ghost var r := out[..op];
    CopyBackBlock(r, op - mPos, 4);
    assert r[mPos..mPos + 4] == [out[mPos], out[mPos + 1], out[mPos + 2], out[mPos + 3]];
    Copy4(out, op, out[mPos], out[mPos + 1], out[mPos + 2], out[mPos + 3]);
  }

  /** The copy of the longer matches: in blocks of four when source and destination are at
      least four apart, byte by byte otherwise. Both are the overlapping copy. */
  method CopyMatchByBlocks(out: array<byte>, at: nat, from: nat, n: nat) returns (op: nat)
    requires from < at && at + n <= out.Length
    modifies out
    ensures op == at + n
    ensures out[..op] == CopyBack(old(out[..at]), at - from, n)
    ensures out[op..] == old(out[op..])
  {
    hide CopyBack;
    if n >= 8 && at - from >= 4 {
      ghost var d, start := at - from, out[..at];
      op := at;
      var mPos, t := from, n;
      CopyBackNothing(start, d);
      while t >= 4
        invariant t <= n && op == at + (n - t) && mPos == from + (n - t)
        invariant out[..op] == CopyBack(start, d, n - t)
        invariant out[op..] == old(out[op..])
      {
        CopyBackSplit(start, d, n - t, 4);
        ghost var rest := out[op..];
        CopyBlock(out, op, mPos);
        op, mPos, t := op + 4, mPos + 4, t - 4;
        assert out[op..] == rest[4..];
      }
      CopyBackSplit(start, d, n - t, t);
      ghost var rest := out[op..];
      op := CopyMatch(out, op, mPos, t);
      assert out[op..] == rest[t..];
    } else {
      op := CopyMatch(out, at, from, n);
    }
  }

  // The labels

  datatype Label = LoopTop | FirstLiteralRun | MatchTop | MatchDone | MatchNext

  /** Where control goes: to a label with the two cursors and the last byte or count read,
      or out of the function. */
  datatype Jump = Goto(at: Label, ip: nat, op: nat, t: nat) | Return(status: Status, op: nat)

  /** What holds whenever control reaches a label. */
  predicate Ready(s: Stream, at: Label, ip: nat, out: seq<byte>, t: nat)
    requires s.Valid()
  {
    && |out| <= s.room
    && match at
       case LoopTop => ip <= s.len + 5
       case FirstLiteralRun => ip < s.len
       case MatchTop => 1 <= ip <= s.len && t == s.At(ip - 1) && (t < 16 ==> ip < s.len)
       case MatchDone => 2 <= ip <= s.len + 2
       case MatchNext => 1 <= ip <= s.len + 2 && 1 <= t <= 3
  }

  /** The outcome that control at a label leads to. */
  ghost function Resume(s: Stream, at: Label, ip: nat, out: seq<byte>, t: nat): Outcome
    requires s.Valid() && Ready(s, at, ip, out, t)
  {
    match at
    case LoopTop => DecodeInstr(s, ip, out, Fresh)
    case FirstLiteralRun => DecodeInstr(s, ip, out, AfterRun)
    case MatchTop =>
      if t >= 16 then DecodeMatch(s, ip - 1, out)
      else DecodeCopy(s, ip - 1, ip + 1, out, 1 + t / 4 + s.At(ip) * 4, 2)
    case MatchDone => AfterCopy(s, ip, out)
    case MatchNext => DecodeTail(s, ip, out, t)
  }

  ghost predicate Leads(s: Stream, j: Jump, out: seq<byte>, outcome: Outcome) {
    && s.Valid()
    && match j
       case Goto(at, ip, op, t) =>
         op <= |out| && Ready(s, at, ip, out[..op], t) && Resume(s, at, ip, out[..op], t) == outcome
       case Return(status, op) => op <= |out| && outcome == Outcome(status, out[..op])
  }

  /** Scans a length whose instruction byte is at `ip`; fails where the input check would. */
  method ReadLength(s: Stream, checked: bool, ip: nat, short: nat, mask: nat) returns (ok: bool, next: nat, value: nat)
    requires s.Valid() && ip < s.len
    requires !checked ==> LengthAt(s, ip, short, mask).0 < s.len
    ensures var (end, v) := LengthAt(s, ip, short, mask);
            && ok == (end < s.len)
            && (ok ==> next == end + 1 && value == v)
  {
    value, next := short, ip + 1;
    if value == 0 {
      if checked && s.len - next < 1 {
        return false, next, value;
      }
      var base: nat := mask;
      while s.At(next) == 0
        invariant ip < next < s.len
        invariant ScanExtension(s, next, base) == ScanExtension(s, ip + 1, mask)
        decreases s.len - next
      {
        base := base + 255;
        next := next + 1;
        if checked && s.len - next < 1 {
          return false, next, value;
        }
      }
      value := base + s.At(next);
      next := next + 1;
    }
    ok := true;
  }

  /** The special reading of the first byte. */
  method AtStart(s: Stream, checked: bool, out: array<byte>) returns (j: Jump)
    requires s.Valid() && s.room == out.Length
    requires !checked ==> Decode(s).status == Ok
    modifies out
    ensures Leads(s, j, out[..], Decode(s))
    ensures j.op <= out.Length && out[j.op..] == old(out[j.op..])
  {
    hide DecodeInstr, DecodeTail;
    assert out[..][..0] == [];
    if s.At(0) <= 17 {
      return Goto(LoopTop, 0, 0, 0);
    }
    var t := s.At(0) - 17;
    if t < 4 {
      return Goto(MatchNext, 1, 0, t);
    }
    if checked && out.Length < t {
      return Return(OutputOverrun, 0);
    }
    if checked && InputShort(s, 1, t + 1) {
      return Return(InputOverrun, 0);
    }
    var ip, op := CopyLiterals(s, 1, out, 0, t);
    assert out[..][..op] == out[..op] == s.bytes[1..1 + t];
    j := Goto(FirstLiteralRun, ip, op, t);
  }

  /** LoopTop: a run, or a jump to a match. */
  method AtLoopTop(s: Stream, checked: bool, out: array<byte>, ip0: nat, op0: nat) returns (j: Jump)
    requires s.Valid() && s.room == out.Length && op0 <= out.Length
    requires Ready(s, LoopTop, ip0, out[..op0], 0)
    requires !checked ==> Resume(s, LoopTop, ip0, out[..op0], 0).status == Ok
    modifies out
    ensures Leads(s, j, out[..], old(Resume(s, LoopTop, ip0, out[..op0], 0)))
    ensures j.Goto? ==> j.ip > ip0
    ensures op0 <= j.op && out[j.op..] == old(out[j.op..])
  {
    hide LengthAt, DecodeMatch, DecodeCopy, DecodeTail;
    var ip, op := ip0, op0;
    if checked && ip >= s.len {
      return Return(EofNotFound, op);
    }
    var t := s.At(ip);
    if t >= 16 {
      return Goto(MatchTop, ip + 1, op, t);
    }
    assert DecodeInstr(s, ip, out[..op], Fresh) == DecodeRun(s, ip, out[..op]);
    var ok, next, value := ReadLength(s, checked, ip, t, 15);
    if !ok {
      return Return(InputOverrun, op);
    }
    var run := value + 3;
    if checked && out.Length - op < run {
      return Return(OutputOverrun, op);
    }
    if checked && InputShort(s, next, run + 1) {
      return Return(InputOverrun, op);
    }
    ip, op := CopyRun(s, next, out, op, run);
    j := Goto(FirstLiteralRun, ip, op, t);
    assert out[..][..op] == out[..op];
  }

  /** The look-behind and room checks, and the copy. */
  method CheckAndCopy(s: Stream, checked: bool, out: array<byte>, ghost from: nat, ip: nat, op0: nat, mPos: int,
                      len: nat, byBlocks: bool)
    returns (j: Jump)
    requires s.Valid() && s.room == out.Length && op0 <= out.Length
    requires from + 2 <= ip <= s.len + 2 && mPos < op0
    requires !checked ==> DecodeCopy(s, from, ip, out[..op0], op0 - mPos, len).status == Ok
    modifies out
    ensures Leads(s, j, out[..], old(DecodeCopy(s, from, ip, out[..op0], op0 - mPos, len)))
    ensures j.Goto? ==> j.ip == ip
    ensures op0 <= j.op && out[j.op..] == old(out[j.op..])
  {
    hide AfterCopy, CopyBack;
    if checked && (mPos < 0 || mPos >= op0) {
      return Return(LookbehindOverrun, op0);
    }
    if checked && out.Length - op0 < len {
      return Return(OutputOverrun, op0);
    }
    var op: nat;
    if byBlocks {
      op := CopyMatchByBlocks(out, op0, mPos, len);
    } else {
      op := CopyMatch(out, op0, mPos, len);
    }
    j := Goto(MatchDone, ip, op, 0);
    assert out[..][..op] == out[..op];
  }

  /** FirstLiteralRun: a match of three bytes, or a jump to a match. */
  method AtFirstLiteralRun(s: Stream, checked: bool, out: array<byte>, ip: nat, op0: nat) returns (j: Jump)
    requires s.Valid() && s.room == out.Length && op0 <= out.Length
    requires Ready(s, FirstLiteralRun, ip, out[..op0], 0)
    requires !checked ==> Resume(s, FirstLiteralRun, ip, out[..op0], 0).status == Ok
    modifies out
    ensures Leads(s, j, out[..], old(Resume(s, FirstLiteralRun, ip, out[..op0], 0)))
    ensures j.Goto? ==> j.ip > ip
    ensures op0 <= j.op && out[j.op..] == old(out[j.op..])
  {
    hide DecodeMatch, DecodeCopy;
    var t := s.At(ip);
    if t >= 16 {
      return Goto(MatchTop, ip + 1, op0, t);
    }
    var mPos: int := op0 - (1 + M2_MAX_OFFSET) - t / 4 - s.At(ip + 1) * 4;
    j := CheckAndCopy(s, checked, out, ip, ip + 2, op0, mPos, 3, false);
  }

  /** MatchTop: reads the distance and length of a match and copies it, or finds the end. */
  method AtMatchTop(s: Stream, checked: bool, out: array<byte>, ip: nat, op0: nat, t: nat) returns (j: Jump)
    requires s.Valid() && s.room == out.Length && op0 <= out.Length
    requires Ready(s, MatchTop, ip, out[..op0], t)
    requires !checked ==> Resume(s, MatchTop, ip, out[..op0], t).status == Ok
    modifies out
    ensures Leads(s, j, out[..], old(Resume(s, MatchTop, ip, out[..op0], t)))
    ensures j.Goto? ==> j.ip > ip
    ensures op0 <= j.op && out[j.op..] == old(out[j.op..])
  {
    hide LengthAt, DecodeCopy;
    if t >= 64 {
      var mPos: int := op0 - 1 - t / 4 % 8 - s.At(ip) * 8;
      j := CheckAndCopy(s, checked, out, ip - 1, ip + 1, op0, mPos, t / 32 - 1 + 2, false);
    } else if t >= 32 {
      var ok, next, value := ReadLength(s, checked, ip - 1, t % 32, 31);
      if !ok {
        return Return(InputOverrun, op0);
      }
      var mPos: int := op0 - 1 - (s.At(next) / 4 + s.At(next + 1) * 64);
      j := CheckAndCopy(s, checked, out, ip - 1, next + 2, op0, mPos, value + 2, true);
    } else if t >= 16 {
      var mPos: int := op0 - t / 8 % 2 * 0x4000;
      var ok, next, value := ReadLength(s, checked, ip - 1, t % 8, 7);
      if !ok {
        return Return(InputOverrun, op0);
      }
      mPos := mPos - (s.At(next) / 4 + s.At(next + 1) * 64);
      if mPos == op0 {
        return Return(if next + 2 == s.len then Ok
                      else if next + 2 < s.len then InputNotConsumed
                      else InputOverrun, op0);
      }
      mPos := mPos - 0x4000;
      j := CheckAndCopy(s, checked, out, ip - 1, next + 2, op0, mPos, value + 2, true);
    } else {
      var mPos: int := op0 - 1 - t / 4 - s.At(ip) * 4;
      j := CheckAndCopy(s, checked, out, ip - 1, ip + 1, op0, mPos, 2, false);
    }
  }

  /** MatchNext: one to three literals, and the next instruction byte. */
  method AtMatchNext(s: Stream, checked: bool, out: array<byte>, ip0: nat, op0: nat, t: nat) returns (j: Jump)
    requires s.Valid() && s.room == out.Length && op0 <= out.Length
    requires Ready(s, MatchNext, ip0, out[..op0], t)
    requires !checked ==> Resume(s, MatchNext, ip0, out[..op0], t).status == Ok
    modifies out
    ensures Leads(s, j, out[..], old(Resume(s, MatchNext, ip0, out[..op0], t)))
    ensures j.Goto? ==> j.ip > ip0
    ensures op0 <= j.op && out[j.op..] == old(out[j.op..])
  {
    hide DecodeMatch, DecodeCopy, DecodeRun;
    if checked && out.Length - op0 < t {
      return Return(OutputOverrun, op0);
    }
    if checked && InputShort(s, ip0, t + 1) {
      return Return(InputOverrun, op0);
    }
    var ip, op := CopyLiterals(s, ip0, out, op0, t);
    assert out[..][..op] == out[..op];
    assert old(Resume(s, MatchNext, ip0, out[..op0], t)) == DecodeInstr(s, ip, out[..op], AfterTail);
    var next := s.At(ip);
    ip := ip + 1;
    if !checked || ip < s.len {
      j := Goto(MatchTop, ip, op, next);
    } else {
      j := Return(EofNotFound, op);
    }
  }

  lemma AfterCopyLeads(s: Stream, ip: nat, out: seq<byte>)
    requires s.Valid() && Ready(s, MatchDone, ip, out, 0)
    ensures var t := s.At(ip - 2) % 4;
            var at := if t == 0 then LoopTop else MatchNext;
            Ready(s, at, ip, out, t) && Resume(s, at, ip, out, t) == AfterCopy(s, ip, out)
  {
    hide DecodeInstr, DecodeTail;
  }

  /** The decompressor. Without the checks it is only meant for streams that the checked
      one accepts; on those both do the same. */
  method Decompress(s: Stream, checked: bool, out: array<byte>) returns (status: Status, op: nat)
    requires s.Valid() && s.room == out.Length
    requires !checked ==> Decode(s).status == Ok
    modifies out
    ensures op <= out.Length && Outcome(status, out[..op]) == Decode(s)
    ensures out[op..] == old(out[op..])
  {
    hide DecodeInstr, DecodeTail, AfterCopy, DecodeMatch, DecodeCopy, Decode;
    var j := AtStart(s, checked, out);
    while j.Goto?
      invariant Leads(s, j, out[..], Decode(s))
      invariant j.op <= out.Length && out[j.op..] == old(out[j.op..])
      decreases if j.Goto? then |s.bytes| - j.ip else -1, j.Goto? && j.at == MatchDone
    {
      ghost var before, from := out[..], j.op;
      assert out[..][..j.op] == out[..j.op];
      match j.at
      case LoopTop => j := AtLoopTop(s, checked, out, j.ip, j.op);
      case FirstLiteralRun => j := AtFirstLiteralRun(s, checked, out, j.ip, j.op);
      case MatchTop => j := AtMatchTop(s, checked, out, j.ip, j.op, j.t);
      case MatchDone =>
        AfterCopyLeads(s, j.ip, out[..j.op]);
        var t := s.At(j.ip - 2) % 4;
        j := Goto(if t == 0 then LoopTop else MatchNext, j.ip, j.op, t);
      case MatchNext => j := AtMatchNext(s, checked, out, j.ip, j.op, j.t);
      SuffixesAgree(before, old(out[..]), from, j.op);
    }
    status, op := j.status, j.op;
  }
}
