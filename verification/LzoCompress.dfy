/** lzo1x_1_compress: a greedy match finder over a hash dictionary whose contents are never
    trusted, and the emission of runs and matches into a caller-supplied buffer. */
module LzoCompress {
  import opened Basics
  import opened Bytes
  import opened LzoFormat
  import opened LzoRoundTrip

  const D_SIZE: nat := 0x4000

  /** A hash of four bytes into the dictionary, and the second probe made from the first. */
  datatype Hash = Hash(first: (byte, byte, byte, byte) -> nat, second: nat -> nat) {
    ghost predicate Valid() {
      && (forall a, b, c, d :: first(a, b, c, d) < D_SIZE)
      && (forall i :: second(i) < D_SIZE)
    }
  }

  /** The size the callers of the compressor allocate for `n` bytes of input. */
  function WorstCase(n: nat): nat {
    n + n / 16 + 64 + 3
  }

  // Growth

  lemma RunHeaderGrowth(t: nat)
    requires t >= 4
    ensures 16 * |RunHeader(t)| <= 16 + t
  {
  }

  /** A match is at least one byte shorter than what it stands for: those beyond the near
      offsets are only taken from four bytes up. */
  lemma MatchSavesAByte(off: nat, len: nat)
    requires 1 <= off <= M4_MAX_OFFSET && len >= 3 && (off <= M2_MAX_OFFSET || len >= 4)
    ensures |MatchBytes(off, len, 0)| <= len - 1
  {
  }

  // The program built so far

  /** The bytes emitted so far are those of `p`, which produces the input up to `ii`. */
  ghost predicate Emitted(p: seq<Instr>, bytes: seq<byte>, input: seq<byte>, ii: nat) {
    && ii <= |input|
    && ValidProgram(p)
    && ProgramBytes(p) == bytes
    && Output(p) == input[..ii]
  }

  /** The last instruction is a match whose literal count is still zero. */
  ghost predicate EndsInBareMatch(p: seq<Instr>) {
    p != [] && p[|p| - 1].Match? && p[|p| - 1].tail == []
  }

  lemma NothingEmitted(input: seq<byte>)
    ensures Emitted([], [], input, 0)
  {
  }

  lemma AppendRun(p: seq<Instr>, bytes: seq<byte>, input: seq<byte>, ii: nat, t: nat)
    requires Emitted(p, bytes, input, ii) && (p == [] || EndsInBareMatch(p))
    requires t >= 4 && ii + t <= |input|
    ensures Emitted(p + [Run(input[ii..ii + t])], bytes + RunHeader(t) + input[ii..ii + t], input, ii + t)
  {
    hide RunHeader, MatchBytes, CopyBack;
    var r := Run(input[ii..ii + t]);
    assert (p + [r])[..|p|] == p;
    assert input[..ii] + input[ii..ii + t] == input[..ii + t];
    assert bytes + RunHeader(t) + input[ii..ii + t] == bytes + (RunHeader(t) + input[ii..ii + t]);
  }

  lemma AppendMatch(p: seq<Instr>, bytes: seq<byte>, input: seq<byte>, ii: nat, off: nat, len: nat)
    requires Emitted(p, bytes, input, ii) && p != []
    requires 1 <= off <= M4_MAX_OFFSET && off <= ii && len >= 3 && ii + len <= |input|
    requires forall j :: ii <= j < ii + len ==> input[j] == input[j - off]
    ensures Emitted(p + [Match(off, len, [])], bytes + MatchBytes(off, len, 0), input, ii + len)
  {
    hide MatchBytes, CopyBack;
    var m := Match(off, len, []);
    assert (p + [m])[..|p|] == p;
    CopyBackReproduces(input, ii, off, len);
    assert CopyBack(input[..ii], off, len) + [] == CopyBack(input[..ii], off, len);
    assert MatchBytes(off, len, 0) + [] == MatchBytes(off, len, 0);
  }

  /** The literal count of a match is the low two bits of its second byte from the end. */
  lemma MatchBytesPatched(off: nat, len: nat, t: nat)
    requires 1 <= off <= M4_MAX_OFFSET && len >= 3 && t <= 3
    ensures var m := MatchBytes(off, len, 0);
            && m[|m| - 2] % 4 == 0
            && MatchBytes(off, len, t) == m[..|m| - 2] + [m[|m| - 2] + t, m[|m| - 1]]
  {
    hide LengthBytes;
  }

  ghost function WithTail(p: seq<Instr>, lits: seq<byte>): (q: seq<Instr>)
    requires EndsInBareMatch(p)
    ensures |q| == |p|
  {
    p[..|p| - 1] + [p[|p| - 1].(tail := lits)]
  }

  lemma LastInstr(p: seq<Instr>)
    requires ValidProgram(p) && p != []
    ensures ValidProgram(p[..|p| - 1]) && ValidInstr(p[|p| - 1])
    ensures p[|p| - 1].Match? ==> p[|p| - 1].off <= |Output(p[..|p| - 1])|
    ensures ProgramBytes(p) == ProgramBytes(p[..|p| - 1]) + InstrBytes(p[|p| - 1])
    ensures Output(p) == Apply(Output(p[..|p| - 1]), p[|p| - 1])
  {
  }

  lemma PatchValid(p: seq<Instr>, lits: seq<byte>)
    requires ValidProgram(p) && EndsInBareMatch(p) && |lits| <= 3
    ensures ValidProgram(WithTail(p, lits))
    ensures ProgramBytes(WithTail(p, lits))
            == ProgramBytes(p[..|p| - 1]) + (MatchBytes(p[|p| - 1].off, p[|p| - 1].len, |lits|) + lits)
    ensures Output(WithTail(p, lits)) == Output(p) + lits
  {
    hide MatchBytes, CopyBack;
    var n, q := |p| - 1, WithTail(p, lits);
    assert q[..n] == p[..n];
    LastInstr(p);
    var c := CopyBack(Output(p[..n]), p[n].off, p[n].len);
    assert c + [] == c;
  }

  lemma PatchedBytes(pre: seq<byte>, m: seq<byte>, low: byte, lits: seq<byte>)
    requires |m| >= 2
    ensures var bytes := pre + m;
            bytes[..|bytes| - 2] + [low, bytes[|bytes| - 1]] + lits == pre + ((m[..|m| - 2] + [low, m[|m| - 1]]) + lits)
  {
  }

  /** Or-ing the count of up to three literals into the patched byte and appending the
      literals turns the last match into one with that tail. */
  lemma PatchTail(p: seq<Instr>, bytes: seq<byte>, input: seq<byte>, ii: nat, t: nat)
    requires Emitted(p, bytes, input, ii) && EndsInBareMatch(p)
    requires 1 <= t <= 3 && ii + t <= |input|
    ensures |bytes| >= 2
    ensures Emitted(WithTail(p, input[ii..ii + t]),
                    bytes[..|bytes| - 2] + [OrLowBits(bytes[|bytes| - 2], t), bytes[|bytes| - 1]] + input[ii..ii + t],
                    input, ii + t)
  {
    hide MatchBytes, OrLowBits, WithTail, ProgramBytes, Output, Apply, ValidProgram;
    LastInstr(p);
    var last, lits, pre := p[|p| - 1], input[ii..ii + t], ProgramBytes(p[..|p| - 1]);
    PatchValid(p, lits);
    var m := MatchBytes(last.off, last.len, 0);
    assert m + [] == m;
    MatchBytesPatched(last.off, last.len, t);
    OrLowBitsAdds(m[|m| - 2], t);
    PatchedBytes(pre, m, m[|m| - 2] + t, lits);
    assert input[..ii] + lits == input[..ii + t];
  }

  // Emission

  method PutExtension(out: array<byte>, start: nat, n: nat) returns (op: nat)
    requires n > 0 && start + |Extension(n)| <= out.Length
    modifies out
    ensures op == start + |Extension(n)|
    ensures out[..op] == old(out[..start]) + Extension(n)
  {
    op := start;
    var tt: nat := n;
    while tt > 255
      invariant 0 < tt && op + |Extension(tt)| == start + |Extension(n)|
      invariant out[..op] + Extension(tt) == old(out[..start]) + Extension(n)
      decreases tt
    {
      ghost var before := out[..op];
      out[op] := 0;
      op, tt := op + 1, tt - 255;
      assert out[..op] == before + [0];
      Regroup(before, [0], Extension(tt));
    }
    ghost var before := out[..op];
    out[op] := tt;
    op := op + 1;
    assert out[..op] == before + [tt];
  }

  method PutLiterals(out: array<byte>, start: nat, input: seq<byte>, ii: nat, t: nat) returns (op: nat)
    requires start + t <= out.Length && ii + t <= |input|
    modifies out
    ensures op == start + t
    ensures out[..op] == old(out[..start]) + input[ii..ii + t]
  {
    op := start;
    for k := 0 to t
      invariant op == start + k
      invariant out[..op] == old(out[..start]) + input[ii..ii + k]
    {
      out[op] := input[ii + k];
      op := op + 1;
      assert out[..op] == out[..op - 1] + [input[ii + k]];
      assert input[ii..ii + k + 1] == input[ii..ii + k] + [input[ii + k]];
    }
  }

  /** An instruction byte with a length value, which may overflow into an extension. */
  method PutLength(out: array<byte>, start: nat, first: nat, mask: nat, value: nat) returns (op: nat)
    requires value >= 1 && first + mask < 256
    requires start + |LengthBytes(first, mask, value)| <= out.Length
    modifies out
    ensures op == start + |LengthBytes(first, mask, value)|
    ensures out[..op] == old(out[..start]) + LengthBytes(first, mask, value)
  {
    hide Extension;
    ghost var before := out[..start];
    if value <= mask {
      out[start] := first + value;
      op := start + 1;
      assert out[..op] == before + [first + value];
    } else {
      out[start] := first;
      assert out[..start + 1] == before + [first];
      op := PutExtension(out, start + 1, value - mask);
      Regroup(before, [first], Extension(value - mask));
    }
  }

  /** Emits the literals pending before a match, or after the last one. */
  method PutPending(out: array<byte>, start: nat, input: seq<byte>, ii: nat, t: nat, ghost p: seq<Instr>)
    returns (op: nat, ghost q: seq<Instr>)
    requires start <= out.Length && Emitted(p, out[..start], input, ii)
    requires p == [] || EndsInBareMatch(p)
    requires t > 0 && ii + t <= |input| && (p == [] ==> t >= 4)
    requires 16 * start <= 17 * ii && out.Length >= WorstCase(|input|)
    modifies out
    ensures start <= op <= out.Length && Emitted(q, out[..op], input, ii + t) && q != []
    ensures 16 * op <= 17 * (ii + t) + 16
  {
    hide Emitted, LengthBytes, WithTail, OrLowBits;
    if t <= 3 {
      ghost var bytes := out[..start];
      PatchTail(p, bytes, input, ii, t);
      q := WithTail(p, input[ii..ii + t]);
      out[start - 2] := OrLowBits(out[start - 2], t);
      assert out[..start] == bytes[..start - 2] + [OrLowBits(bytes[start - 2], t), bytes[start - 1]];
      op := PutLiterals(out, start, input, ii, t);
    } else {
      AppendRun(p, out[..start], input, ii, t);
      q := p + [Run(input[ii..ii + t])];
      RunHeaderGrowth(t);
      op := PutLength(out, start, 0, 15, t - 3);
      op := PutLiterals(out, op, input, ii, t);
    }
  }

  method PutNearMatch(out: array<byte>, start: nat, off: nat, len: nat) returns (op: nat)
    requires 1 <= off <= M2_MAX_OFFSET && 3 <= len <= M2_MAX_LEN && start + 2 <= out.Length
    modifies out
    ensures op == start + 2
    ensures out[..op] == old(out[..start]) + [(len - 1) * 32 + (off - 1) % 8 * 4, (off - 1) / 8]
  {
    var d := off - 1;
    out[start] := (len - 1) * 32 + d % 8 * 4;
    out[start + 1] := d / 8;
    op := start + 2;
  }

  method PutMatch(out: array<byte>, start: nat, off: nat, len: nat) returns (op: nat)
    requires 1 <= off <= M4_MAX_OFFSET && len >= 3
    requires start + |MatchBytes(off, len, 0)| <= out.Length
    modifies out
    ensures op == start + |MatchBytes(off, len, 0)|
    ensures out[..op] == old(out[..start]) + MatchBytes(off, len, 0)
  {
    hide LengthBytes, OffsetBytes;
    if off <= M2_MAX_OFFSET && len <= M2_MAX_LEN {
      op := PutNearMatch(out, start, off, len);
    } else if off <= M3_MAX_OFFSET {
      op := PutLength(out, start, 32, M3_MAX_LEN - 2, len - 2);
      op := PutOffset(out, op, off - 1);
    } else {
      var v := off - 0x4000;
      op := PutLength(out, start, if v >= 0x4000 then 24 else 16, M4_MAX_LEN - 2, len - 2);
      op := PutOffset(out, op, v);
    }
  }

  method PutOffset(out: array<byte>, start: nat, v: nat) returns (op: nat)
    requires start + 2 <= out.Length
    modifies out
    ensures op == start + 2
    ensures out[..op] == old(out[..start]) + OffsetBytes(v, 0)
  {
    out[start] := v % 64 * 4;
    out[start + 1] := v / 64 % 256;
    op := start + 2;
  }

  // Matching

  /** What makes a dictionary entry usable as a match position, whatever it holds. */
  predicate Usable(mPos: int, ip: nat) {
    0 <= mPos < ip && ip - mPos <= M4_MAX_OFFSET
  }

  /** A match that may be taken: near, or of four bytes. */
  predicate Worth(input: seq<byte>, mPos: int, ip: nat)
    requires Usable(mPos, ip) && ip + 4 <= |input|
  {
    ip - mPos <= M2_MAX_OFFSET || input[mPos + 3] == input[ip + 3]
  }

  /** Where the search ends: at the second entry if the first is a far match of three bytes only. */
  function LookedUp(input: seq<byte>, ip: nat, dict: seq<int>, hash: Hash): (d: nat)
    requires hash.Valid() && |dict| == D_SIZE && ip + 4 <= |input|
    ensures d < D_SIZE
  {
    var d := hash.first(input[ip], input[ip + 1], input[ip + 2], input[ip + 3]);
    if Usable(dict[d], ip) && !Worth(input, dict[d], ip) then hash.second(d) else d
  }

  /** Looks the four bytes at `ip` up, possibly twice, and enters `ip` where it looked last. It
      finds exactly the entries that are usable and match. */
  method FindMatch(input: seq<byte>, ip: nat, dict: array<int>, hash: Hash) returns (found: bool, mPos: int)
    requires hash.Valid() && dict.Length == D_SIZE && ip + 4 <= |input|
    modifies dict
    ensures found ==> Usable(mPos, ip) && input[mPos..mPos + 3] == input[ip..ip + 3]
    ensures found ==> ip - mPos <= M2_MAX_OFFSET || input[mPos + 3] == input[ip + 3]
    ensures var d := LookedUp(input, ip, old(dict[..]), hash);
            var m := old(dict[..])[d];
            && (found <==> Usable(m, ip) && Worth(input, m, ip) && input[m..m + 3] == input[ip..ip + 3])
            && (found ==> mPos == m) && dict[..] == old(dict[..])[d := ip]
  {
    var dindex := hash.first(input[ip], input[ip + 1], input[ip + 2], input[ip + 3]);
    mPos := dict[dindex];
    var try := false;
    if Usable(mPos, ip) {
      if ip - mPos <= M2_MAX_OFFSET || input[mPos + 3] == input[ip + 3] {
        try := true;
      } else {
        dindex := hash.second(dindex);
        mPos := dict[dindex];
        if Usable(mPos, ip) {
          try := ip - mPos <= M2_MAX_OFFSET || input[mPos + 3] == input[ip + 3];
        }
      }
    }
    found := try && input[mPos] == input[ip] && input[mPos + 1] == input[ip + 1] && input[mPos + 2] == input[ip + 2];
    ThreeAgree(input, mPos, ip);
    dict[dindex] := ip;
  }

  lemma ThreeAgree(input: seq<byte>, m: int, ip: nat)
    requires ip + 4 <= |input|
    ensures Usable(m, ip) ==>
              (input[m..m + 3] == input[ip..ip + 3] <==>
               input[m] == input[ip] && input[m + 1] == input[ip + 1] && input[m + 2] == input[ip + 2])
  {
    if Usable(m, ip) {
      assert input[m..m + 3] == [input[m], input[m + 1], input[m + 2]];
      assert input[ip..ip + 3] == [input[ip], input[ip + 1], input[ip + 2]];
    }
  }

  /** Extends a match of three bytes: the next six are compared one by one, then it runs on
      to the end of the input if it can. */
  method ExtendMatch(input: seq<byte>, ip: nat, mPos: nat) returns (len: nat)
    requires mPos < ip && ip + 9 <= |input|
    requires input[mPos..mPos + 3] == input[ip..ip + 3]
    ensures 3 <= len <= |input| - ip
    ensures forall j :: ip <= j < ip + len ==> input[j] == input[j - (ip - mPos)]
    ensures ip + len == |input| || input[mPos + len] != input[ip + len]
  {
    forall j | ip <= j < ip + 3
      ensures input[j] == input[j - (ip - mPos)]
    {
      assert input[ip..ip + 3][j - ip] == input[mPos..mPos + 3][j - ip];
    }
    len := 3;
    while len < 9 && input[mPos + len] == input[ip + len]
      invariant 3 <= len <= 9
      invariant forall j :: ip <= j < ip + len ==> input[j] == input[j - (ip - mPos)]
    {
      len := len + 1;
    }
    if len == 9 {
      while ip + len < |input| && input[mPos + len] == input[ip + len]
        invariant 9 <= len <= |input| - ip
        invariant forall j :: ip <= j < ip + len ==> input[j] == input[j - (ip - mPos)]
      {
        len := len + 1;
      }
    }
  }

  // The compressor

  /** Emits a match behind what has been emitted for the input before it. */
  method EmitMatch(out: array<byte>, start: nat, input: seq<byte>, ip: nat, off: nat, len: nat, ghost q: seq<Instr>)
    returns (op: nat, ghost p: seq<Instr>)
    requires start <= out.Length && Emitted(q, out[..start], input, ip) && q != []
    requires 1 <= off <= M4_MAX_OFFSET && off <= ip && len >= 3 && ip + len <= |input|
    requires off > M2_MAX_OFFSET ==> len >= 4
    requires forall k :: ip <= k < ip + len ==> input[k] == input[k - off]
    requires 16 * start <= 17 * ip + 16 && out.Length >= WorstCase(|input|)
    modifies out
    ensures op <= out.Length && Emitted(p, out[..op], input, ip + len) && EndsInBareMatch(p)
    ensures 16 * op <= 17 * (ip + len)
  {
    hide MatchBytes, Emitted;
    MatchSavesAByte(off, len);
    AppendMatch(q, out[..start], input, ip, off, len);
    op := PutMatch(out, start, off, len);
    p := q + [Match(off, len, [])];
  }

  /** The main loop. Returns the bytes written and the number of input bytes left over. */
  method DoCompress(input: seq<byte>, out: array<byte>, dict: array<int>, hash: Hash)
    returns (op: nat, t: nat, ghost p: seq<Instr>)
    requires |input| > M2_MAX_LEN + 5 && out.Length >= WorstCase(|input|)
    requires hash.Valid() && dict.Length == D_SIZE && dict as object != out
    modifies out, dict
    ensures op <= out.Length && t <= |input|
    ensures Emitted(p, out[..op], input, |input| - t) && (p == [] || EndsInBareMatch(p))
    ensures 16 * op <= 17 * (|input| - t)
  {
    hide MatchBytes, ProgramBytes, Output, ValidProgram, Hash.Valid;
    op, p := 0, [];
    NothingEmitted(input);
    assert out[..0] == [];
    var ipEnd := |input| - M2_MAX_LEN - 5;
    var ii, ip := 0, 4;
    while true
      invariant op <= out.Length && ii <= ip && ip + 10 <= |input|
      invariant Emitted(p, out[..op], input, ii) && (p == [] || EndsInBareMatch(p))
      invariant p == [] ==> ii == 0 && ip >= 4
      invariant 16 * op <= 17 * ii
      decreases |input| - ip
    {
      var found, mPos := FindMatch(input, ip, dict, hash);
      if !found {
        ip := ip + 1;
        if ip >= ipEnd {
          break;
        }
        continue;
      }
      ghost var q := p;
      if ip - ii > 0 {
        op, q := PutPending(out, op, input, ii, ip - ii, p);
        ii := ip;
      }
      var off := ip - mPos;
      var len := ExtendMatch(input, ip, mPos);
      if off > M2_MAX_OFFSET {
        assert input[ip + 3] == input[mPos + 3];
      }
      op, p := EmitMatch(out, op, input, ip, off, len, q);
      ip := ip + len;
      ii := ip;
      if ip >= ipEnd {
        break;
      }
    }
    t := |input| - ii;
  }

  method PutEndMarker(out: array<byte>, start: nat) returns (op: nat)
    requires start + 3 <= out.Length
    modifies out
    ensures op == start + 3
    ensures out[..op] == old(out[..start]) + END_MARKER
  {
    out[start] := 16 + 1;
    out[start + 1] := 0;
    out[start + 2] := 0;
    op := start + 3;
  }

  /** The whole compressor. The result decodes to the input for any hash and any starting
      dictionary, and fits the buffer its callers allocate with 63 bytes to spare. */
  method Compress(input: seq<byte>, out: array<byte>, dict: array<int>, hash: Hash) returns (op: nat)
    requires out.Length >= WorstCase(|input|)
    requires hash.Valid() && dict.Length == D_SIZE && dict as object != out
    modifies out, dict
    ensures op <= |input| + |input| / 16 + 4 <= out.Length
    ensures DecodesTo(out[..op], input)
  {
    hide MatchBytes, ProgramBytes, Output, ValidProgram, Hash.Valid, DecodesTo, Emitted;
    var t := |input|;
    ghost var p := [];
    op := 0;
    NothingEmitted(input);
    assert out[..0] == [];
    if |input| > M2_MAX_LEN + 5 {
      op, t, p := DoCompress(input, out, dict, hash);
    }
    if t > 0 {
      var ii := |input| - t;
      if op == 0 && t <= 238 {
        WholeInputPending(p, input, ii);
        out[0] := 17 + t;
        assert out[..1] == [17 + t];
        op := PutLiterals(out, 1, input, 0, t);
        op := PutEndMarker(out, op);
        LoneRunDecodes(input);
        assert input[0..t] == input;
        return;
      }
      if op == 0 {
        WholeInputPending(p, input, ii);
      } else {
        SomethingEmitted(p, out[..op], input, ii);
      }
      op, p := PutPending(out, op, input, ii, t, p);
    }
    EmittedDecodes(p, out[..op], input);
    op := PutEndMarker(out, op);
  }

  lemma WholeInputPending(p: seq<Instr>, input: seq<byte>, ii: nat)
    requires Emitted(p, [], input, ii)
    ensures ii == 0
  {
  }

  lemma SomethingEmitted(p: seq<Instr>, bytes: seq<byte>, input: seq<byte>, ii: nat)
    requires Emitted(p, bytes, input, ii) && bytes != []
    ensures p != []
  {
  }

  lemma EmittedDecodes(p: seq<Instr>, bytes: seq<byte>, input: seq<byte>)
    requires Emitted(p, bytes, input, |input|)
    ensures DecodesTo(bytes + END_MARKER, input)
  {
    ProgramDecodes(p);
    assert input[..|input|] == input;
  }

  // The hash that is compiled in

  function HashOf(a: byte, b: byte, c: byte, d: byte): (i: nat)
    ensures i < D_SIZE
  {
    var x: bv32 := (((((d as bv32 << 6) ^ c as bv32) << 5) ^ b as bv32) << 5) ^ a as bv32;
    (((0x21 * x) >> 5) & 0x3fff) as nat
  }

  function Rehash(i: nat): (r: nat)
    ensures r < D_SIZE
  {
    var d: bv32 := (i % D_SIZE) as bv32;
    ((d & 0x7ff) ^ 0x201f) as nat
  }

  const LZO_HASH: Hash := Hash(HashOf, Rehash)

  lemma HashIsValid()
    ensures LZO_HASH.Valid()
  {
  }
}
