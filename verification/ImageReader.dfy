/** The input of the image loaders of `stb_image`: bytes from memory, and zeros after them. */
module ImageReader {
  import opened Bytes

  /** Byte `k` of what is left to read. */
  function At(s: seq<byte>, k: nat): byte {
    if k < |s| then s[k] else 0
  }

  function Dropped(s: seq<byte>, k: nat): seq<byte> {
    if k <= |s| then s[k..] else []
  }

  function Taken(s: seq<byte>, k: nat): (t: seq<byte>)
    ensures |t| == k
  {
    seq(k, i requires 0 <= i < k => At(s, i))
  }

  function Word(low: nat, high: nat): nat {
    low + high * 0x100
  }

  function Le16At(s: seq<byte>, k: nat): nat {
    Word(At(s, k), At(s, k + 1))
  }

  function Le32At(s: seq<byte>, k: nat): nat {
    Le16At(s, k) + Le16At(s, k + 2) * 0x1_0000
  }

  lemma DroppedTwice(s: seq<byte>, j: nat, k: nat)
    ensures Dropped(Dropped(s, j), k) == Dropped(s, j + k)
    ensures At(Dropped(s, j), k) == At(s, j + k)
  {
  }

  lemma DropNothing(s: seq<byte>)
    ensures Dropped(s, 0) == s
  {
  }

  /** Reading on past bytes that are known. */
  lemma AfterKnown(a: seq<byte>, b: seq<byte>)
    ensures Dropped(a + b, |a|) == b && Taken(a + b, |a|) == a
  {
    assert Taken(a + b, |a|) == a;
  }

  class Stbi {
    const buffer: seq<byte>
    var at: nat

    constructor (buffer: seq<byte>)
      ensures Rest() == buffer
    {
      this.buffer, at := buffer, 0;
    }

    ghost function Rest(): seq<byte>
      reads this
    {
      Dropped(buffer, at)
    }

    method Get8() returns (v: byte)
      modifies this
      ensures v == At(old(Rest()), 0) && Rest() == Dropped(old(Rest()), 1)
    {
      if at < |buffer| {
        v := buffer[at];
        at := at + 1;
      } else {
        v := 0;
      }
    }

    method Skip(n: nat)
      modifies this
      ensures Rest() == Dropped(old(Rest()), n)
    {
      at := at + n;
    }

    /** The bytes left, for the callers that copy without asking. */
    method Left() returns (n: nat)
      ensures n == |Rest()|
    {
      n := if at <= |buffer| then |buffer| - at else 0;
    }

    method Getn(n: nat) returns (bytes: seq<byte>)
      requires n <= |Rest()|
      modifies this
      ensures bytes == old(Rest())[..n] && Rest() == old(Rest())[n..]
    {
      if n == 0 {
        return [];
      }
      bytes := buffer[at..at + n];
      at := at + n;
    }

    method Get16le() returns (v: nat)
      modifies this
      ensures v == Le16At(old(Rest()), 0) && Rest() == Dropped(old(Rest()), 2)
    {
      ghost var s := Rest();
      var z := Get8();
      var y := Get8();
      DroppedTwice(s, 1, 0);
      DroppedTwice(s, 1, 1);
      v := Word(z, y);
    }

    method Get32le() returns (v: nat)
      modifies this
      ensures v == Le32At(old(Rest()), 0) && Rest() == Dropped(old(Rest()), 4)
    {
      ghost var s := Rest();
      var z := Get16le();
      var y := Get16le();
      DroppedTwice(s, 2, 0);
      DroppedTwice(s, 2, 1);
      DroppedTwice(s, 2, 2);
      v := z + y * 0x1_0000;
    }

    method GetBytes(n: nat) returns (bytes: seq<byte>)
      modifies this
      ensures bytes == Taken(old(Rest()), n) && Rest() == Dropped(old(Rest()), n)
    {
      ghost var s := Rest();
      bytes := [];
      DropNothing(s);
      for i := 0 to n
        invariant bytes == Taken(s, i) && Rest() == Dropped(s, i)
      {
        var b := Get8();
        DroppedTwice(s, i, 0);
        DroppedTwice(s, i, 1);
        bytes := bytes + [b];
      }
    }
  }
}
