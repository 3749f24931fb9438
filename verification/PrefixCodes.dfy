/** Canonical codes by the room that they take: a code of `l` bits takes one part in 2 to the
    `l`th, and the codes follow one another without gaps, the shorter ones first and among those
    of one length that of the smaller symbol. */
module PrefixCodes {
  import opened Powers
  import opened Huffman

  /** The room of a code of `l` bits, in parts of 2 to the 15th. */
  function Room(l: nat): nat {
    if 1 <= l <= 15 then Pow2(15 - l) else 0
  }

  /** Symbol `k` has a code, and it comes before that of symbol `i`. */
  predicate Precedes(lens: seq<nat>, k: nat, i: nat)
    requires k < |lens| && i < |lens|
  {
    1 <= lens[k] && (lens[k] < lens[i] || (lens[k] == lens[i] && k < i))
  }

  /** The room of those of the first `n` symbols that precede symbol `i`. */
  function RoomBefore(lens: seq<nat>, i: nat, n: nat): nat
    requires i < |lens| && n <= |lens|
  {
    if n == 0 then 0
    else RoomBefore(lens, i, n - 1) + if Precedes(lens, n - 1, i) then Room(lens[n - 1]) else 0
  }

  function TotalRoom(lens: seq<nat>, n: nat): nat
    requires n <= |lens|
  {
    if n == 0 then 0 else TotalRoom(lens, n - 1) + Room(lens[n - 1])
  }

  /** The room of the codes shorter than `l` bits. */
  function RoomBelow(lens: seq<nat>, l: nat, n: nat): nat
    requires n <= |lens|
  {
    if n == 0 then 0 else RoomBelow(lens, l, n - 1) + if lens[n - 1] < l then Room(lens[n - 1]) else 0
  }

  lemma {:induction false} NothingBelow(lens: seq<nat>, n: nat)
    requires n <= |lens|
    ensures RoomBelow(lens, 1, n) == 0
    decreases n
  {
    if n > 0 {
      NothingBelow(lens, n - 1);
    }
  }

  lemma {:induction false} BelowAll(lens: seq<nat>, n: nat)
    requires n <= |lens|
    ensures RoomBelow(lens, 16, n) == TotalRoom(lens, n)
    decreases n
  {
    if n > 0 {
      BelowAll(lens, n - 1);
    }
  }

  /** Symbols of one length add their number times their room. */
  lemma {:induction false} BelowNext(lens: seq<nat>, l: nat, n: nat)
    requires 1 <= l <= 15 && n <= |lens|
    ensures RoomBelow(lens, l + 1, n) == RoomBelow(lens, l, n) + Rank(lens, l, n) * Room(l)
    decreases n
  {
    hide Room;
    if n > 0 {
      BelowNext(lens, l, n - 1);
      Distributes(Rank(lens, l, n - 1), 1, Room(l));
    }
  }

  lemma RoomHalves(l: nat)
    requires 2 <= l <= 15
    ensures Room(l - 1) == 2 * Room(l)
  {
  }

  lemma {:induction false} StartByRoom(lens: seq<nat>, l: nat)
    requires 1 <= l <= 15
    ensures Start(lens, l) * Room(l) == RoomBelow(lens, l, |lens|)
    decreases l
  {
    hide Room, Rank;
    if l == 1 {
      NothingBelow(lens, |lens|);
    } else {
      StartByRoom(lens, l - 1);
      BelowNext(lens, l - 1, |lens|);
      RoomHalves(l);
      var start, count, room := Start(lens, l - 1), Count(lens, l - 1), Room(l);
      Distributes(start, count, 2 * room);
      MulAssociates(start + count, 2, room);
    }
  }

  lemma {:induction false} BeforeByRoom(lens: seq<nat>, i: nat, n: nat)
    requires i < |lens| && 1 <= lens[i] <= 15 && n <= |lens|
    ensures RoomBefore(lens, i, n)
            == RoomBelow(lens, lens[i], n) + Rank(lens, lens[i], if n < i then n else i) * Room(lens[i])
    decreases n
  {
    hide Room;
    if n > 0 {
      BeforeByRoom(lens, i, n - 1);
      Distributes(Rank(lens, lens[i], n - 1), 1, Room(lens[i]));
      NoRoom();
    }
  }

  lemma NoRoom()
    ensures Room(0) == 0
  {
  }

  /** The code of a symbol says how much room the codes before it take. */
  lemma CodeByRoom(lens: seq<nat>, i: nat)
    requires i < |lens| && 1 <= lens[i] <= 15
    ensures Code(lens, i) * Room(lens[i]) == RoomBefore(lens, i, |lens|)
  {
    hide Room, Rank, Start;
    var l := lens[i];
    StartByRoom(lens, l);
    BeforeByRoom(lens, i, |lens|);
    Distributes(Start(lens, l), Rank(lens, l, i), Room(l));
  }

  lemma FitsByRoom(lens: seq<nat>, l: nat)
    requires 1 <= l <= 15
    ensures FitsAt(lens, l) <==> RoomBelow(lens, l + 1, |lens|) <= 0x8000
  {
    hide Room, Rank, Start, Pow2;
    StartByRoom(lens, l);
    BelowNext(lens, l, |lens|);
    var used, room := Start(lens, l) + Count(lens, l), Room(l);
    Distributes(Start(lens, l), Count(lens, l), room);
    WholeRoom(l);
    if used <= Pow2(l) {
      MulMonotone(used, Pow2(l), room);
    } else {
      MulMonotone(Pow2(l) + 1, used, room);
      Distributes(Pow2(l), 1, room);
    }
  }

  lemma WholeRoom(l: nat)
    requires 1 <= l <= 15
    ensures Pow2(l) * Room(l) == 0x8000 && Room(l) > 0
  {
    hide Pow2;
    Pow2Adds(l, 15 - l);
    Pow2Of16();
  }

  lemma {:induction false} BelowGrows(lens: seq<nat>, l: nat, n: nat)
    requires n <= |lens|
    ensures RoomBelow(lens, l, n) <= TotalRoom(lens, n)
    decreases n
  {
    if n > 0 {
      BelowGrows(lens, l, n - 1);
    }
  }

  /** Lengths are those of codes exactly if the codes have room (the inequality of Kraft). */
  lemma FitsIff(lens: seq<nat>)
    ensures Fits(lens) <==> TotalRoom(lens, |lens|) <= 0x8000
  {
    hide FitsAt, RoomBelow, TotalRoom;
    BelowAll(lens, |lens|);
    FitsByRoom(lens, 15);
    if TotalRoom(lens, |lens|) <= 0x8000 {
      forall l: nat | 1 <= l <= MAX_BITS
        ensures FitsAt(lens, l)
      {
        FitsByRoom(lens, l);
        BelowGrows(lens, l + 1, |lens|);
      }
    } else {
      assert !FitsAt(lens, 15);
    }
  }
}
