/**
 The cuckoo cache (src/cuckoocache.h): a lossy set of elements with eight hash locations each,
 bit-packed garbage-collection flags and two generations ("epochs") of live entries.
 */
module CuckooCache {
  import opened Bits

  const TWO32 := 0x1_0000_0000

  // ---------------------------------------------------------------------------------------
  // bit_packed_atomic_flags
  // ---------------------------------------------------------------------------------------

  /** A byte as its bits, the lowest first. */
  type Byte = b: seq<bool> | |b| == 8 witness seq(8, _ => false)

  /** `1 << k` */
  function Mask(k: nat): Byte { seq(8, i => i == k) }

  function Or(a: Byte, b: Byte): Byte { seq(8, i requires 0 <= i < 8 => a[i] || b[i]) }
  function And(a: Byte, b: Byte): Byte { seq(8, i requires 0 <= i < 8 => a[i] && b[i]) }
  function Not(a: Byte): Byte { seq(8, i requires 0 <= i < 8 => !a[i]) }
  function Ones(): Byte { seq(8, _ => true) }

  /** `(1 << k) & b`, as a condition */
  predicate TestBit(b: Byte, k: nat)
    requires k < 8
  {
    exists i :: 0 <= i < 8 && And(Mask(k), b)[i]
  }

  lemma TestBitIs(b: Byte, k: nat)
    requires k < 8
    ensures TestBit(b, k) == b[k]
  {
    assert And(Mask(k), b)[k] == b[k];
  }

  lemma ByteAndBit(i: nat, j: nat)
    ensures i / 8 == j / 8 && i % 8 == j % 8 <==> i == j
  {
    assert i == 8 * (i / 8) + i % 8 && j == 8 * (j / 8) + j % 8;
  }

  class BitPackedFlags {
    const mem: array<Byte>

    /** The flags, one per entry and some padding. */
    ghost function Bits(): (s: seq<bool>)
      reads mem
      ensures |s| == 8 * mem.Length
      ensures forall j :: 0 <= j < |s| ==> s[j] == mem[j / 8][j % 8]
    {
      seq(8 * mem.Length, j requires 0 <= j < 8 * mem.Length reads mem => mem[j / 8][j % 8])
    }

    /** All flags are set at first, including those that only pad the last byte. The size is 32-bit. */
    constructor (size: nat)
      requires size < TWO32
      ensures fresh(mem) && mem.Length == (size + 7) % TWO32 / 8
      ensures forall j :: 0 <= j < |Bits()| ==> Bits()[j]
    {
      mem := new Byte[(size + 7) % TWO32 / 8](_ => Ones());
    }

    method BitIsSet(s: nat) returns (r: bool)
      requires s < 8 * mem.Length
      ensures r == Bits()[s]
    {
      r := TestBit(mem[s / 8], s % 8);
      TestBitIs(mem[s / 8], s % 8);
    }

    method BitSet(s: nat)
      requires s < 8 * mem.Length
      modifies mem
      ensures Bits() == old(Bits())[s := true]
    {
      mem[s / 8] := Or(mem[s / 8], Mask(s % 8));
      forall j | 0 <= j < |Bits()|
        ensures Bits()[j] == old(Bits())[s := true][j]
      {
        ByteAndBit(j, s);
      }
    }

    method BitUnset(s: nat)
      requires s < 8 * mem.Length
      modifies mem
      ensures Bits() == old(Bits())[s := false]
    {
      mem[s / 8] := And(mem[s / 8], Not(Mask(s % 8)));
      forall j | 0 <= j < |Bits()|
        ensures Bits()[j] == old(Bits())[s := false][j]
      {
        ByteAndBit(j, s);
      }
    }
  }

  /** In 32-bit arithmetic the flag bytes cover all entries exactly up to this size. */
  lemma FlagBytesSuffice(size: nat)
    requires size < TWO32
    ensures 8 * ((size + 7) % TWO32 / 8) >= size <==> size <= TWO32 - 8 || size == 0
  {
  }

  // ---------------------------------------------------------------------------------------
  // The table as a sequence of slots.
  // ---------------------------------------------------------------------------------------

  datatype Slot<E> = Slot(elem: E, collected: bool, epoch: bool)

  /** The three arrays of the cache read as one sequence; padding flags are ignored. */
  function Zip<E>(t: seq<E>, c: seq<bool>, p: seq<bool>): (s: seq<Slot<E>>)
    requires |t| == |p| <= |c|
    ensures |s| == |t| && forall i :: 0 <= i < |t| ==> s[i] == Slot(t[i], c[i], p[i])
  {
    seq(|t|, i requires 0 <= i < |t| => Slot(t[i], c[i], p[i]))
  }

  lemma ZipUpdate<E>(t: seq<E>, c: seq<bool>, p: seq<bool>, i: nat, x: Slot<E>)
    requires |t| == |p| <= |c| && i < |t|
    ensures Zip(t[i := x.elem], c[i := x.collected], p[i := x.epoch]) == Zip(t, c, p)[i := x]
  {
  }

  /** The elements that are not up for collection. */
  ghost function Live<E>(s: seq<Slot<E>>): multiset<E> {
    if s == [] then multiset{}
    else Live(s[..|s| - 1]) + LiveSlot(s[|s| - 1])
  }

  ghost function LiveSlot<E>(x: Slot<E>): multiset<E> {
    if x.collected then multiset{} else multiset{x.elem}
  }

  /** How many of them belong to the current epoch. */
  function LiveEpoch<E>(s: seq<Slot<E>>): nat {
    if s == [] then 0
    else LiveEpoch(s[..|s| - 1]) + EpochSlot(s[|s| - 1])
  }

  function EpochSlot<E>(x: Slot<E>): nat { if x.epoch && !x.collected then 1 else 0 }

  lemma {:induction false} LiveUpdate<E>(s: seq<Slot<E>>, i: nat, x: Slot<E>)
    requires i < |s|
    ensures Live(s[i := x]) + LiveSlot(s[i]) == Live(s) + LiveSlot(x)
  {
    hide LiveSlot;
    var n := |s| - 1;
    if i < n {
      LiveUpdate(s[..n], i, x);
      assert s[i := x][..n] == s[..n][i := x];
      AddBoth(Live(s[..n][i := x]), Live(s[..n]), LiveSlot(s[i]), LiveSlot(x), LiveSlot(s[n]));
    } else {
      assert s[i := x][..n] == s[..n];
    }
  }

  lemma AddBoth<E>(a: multiset<E>, b: multiset<E>, x: multiset<E>, y: multiset<E>, z: multiset<E>)
    requires a + x == b + y
    ensures (a + z) + x == (b + z) + y
  {
    assert (a + z) + x == (a + x) + z;
    assert (b + z) + y == (b + y) + z;
  }

  lemma {:induction false} LiveEpochUpdate<E>(s: seq<Slot<E>>, i: nat, x: Slot<E>)
    requires i < |s|
    ensures LiveEpoch(s[i := x]) == LiveEpoch(s) - EpochSlot(s[i]) + EpochSlot(x)
  {
    var n := |s| - 1;
    if i < n {
      LiveEpochUpdate(s[..n], i, x);
      assert s[i := x][..n] == s[..n][i := x];
    } else {
      assert s[i := x][..n] == s[..n];
    }
  }

  lemma {:induction false} LiveHas<E>(s: seq<Slot<E>>, i: nat)
    requires i < |s| && !s[i].collected
    ensures s[i].elem in Live(s)
  {
    var n := |s| - 1;
    if i < n {
      LiveHas(s[..n], i);
    }
  }

  lemma {:induction false} LiveFind<E>(s: seq<Slot<E>>, e: E) returns (i: nat)
    requires e in Live(s)
    ensures i < |s| && !s[i].collected && s[i].elem == e
  {
    i := |s| - 1;
    if e !in LiveSlot(s[i]) {
      i := LiveFind(s[..i], e);
    }
  }

  // ---------------------------------------------------------------------------------------
  // Epochs.
  // ---------------------------------------------------------------------------------------

  function Max(a: nat, b: nat): nat { if a > b then a else b }

  function Age<E>(x: Slot<E>): Slot<E> {
    if x.epoch then x.(epoch := false) else x.(collected := true)
  }

  /** A new epoch: the old generation may be collected, the current one becomes old. */
  function Aged<E>(s: seq<Slot<E>>): (r: seq<Slot<E>>)
    ensures |r| == |s| && forall i :: 0 <= i < |s| ==> r[i] == Age(s[i])
  {
    seq(|s|, i requires 0 <= i < |s| => Age(s[i]))
  }

  /** What epoch_check does to the slots and to the heuristic counter. */
  function EpochChecked<E>(s: seq<Slot<E>>, counter: nat, epochSize: nat): (seq<Slot<E>>, nat) {
    if counter != 0 then (s, counter - 1)
    else if LiveEpoch(s) >= epochSize then (Aged(s), epochSize)
    else (s, Max(1, Max(epochSize / 16, epochSize - LiveEpoch(s))))
  }

  /** 45% of the table, in 32-bit arithmetic: the product wraps for large tables. */
  function EpochSizeFor(size: nat): (r: nat)
    ensures r >= 1
    ensures r == Max(1, 45 * size / 100) <==> 45 * size < TWO32
  {
    Max(1, 45 * size % TWO32 / 100)
  }

  function EpochBound(epochSize: nat): nat { epochSize + Max(1, epochSize / 16) }

  lemma {:induction false} AgedHasNoCurrent<E>(s: seq<Slot<E>>)
    ensures LiveEpoch(Aged(s)) == 0
  {
    if s != [] {
      AgedHasNoCurrent(s[..|s| - 1]);
      assert Aged(s)[..|s| - 1] == Aged(s[..|s| - 1]);
    }
  }

  /** The slots that hold a live element of the current epoch. */
  ghost function Current<E>(s: seq<Slot<E>>): set<nat> {
    set i | 0 <= i < |s| && s[i].epoch && !s[i].collected
  }

  /** Slot for slot, what an epoch check has given up and what it has kept. */
  ghost predicate CheckedSlots<E>(s: seq<Slot<E>>, s': seq<Slot<E>>, counter: nat, epochSize: nat) {
    if counter == 0 && |Current(s)| >= epochSize then
      && |s'| == |s|
      && forall i :: 0 <= i < |s| ==>
           && s'[i].elem == s[i].elem && !s'[i].epoch
           && (!s'[i].collected <==> !s[i].collected && s[i].epoch)
    else s' == s
  }

  /** The old generation is given up, and the current one becomes old, exactly if a scan finds it full. */
  lemma EpochCheckOutcome<E>(s: seq<Slot<E>>, counter: nat, epochSize: nat)
    ensures var (s', c') := EpochChecked(s, counter, epochSize);
            && CheckedSlots(s, s', counter, epochSize)
            && (counter == 0 && |Current(s)| >= epochSize >= 1 ==> Current(s') == {} && c' == epochSize)
            && (counter == 0 && |Current(s)| < epochSize ==>
                  && c' >= 1 && 16 * (c' + 1) > epochSize && |Current(s)| + c' >= epochSize
                  && (c' == 1 || 16 * c' <= epochSize || |Current(s)| + c' == epochSize))
            && (counter > 0 ==> c' == counter - 1)
  {
    LiveEpochCounts(s);
  }

  lemma {:induction false} LiveEpochCounts<E>(s: seq<Slot<E>>)
    ensures LiveEpoch(s) == |Current(s)|
  {
    if s == [] {
      assert Current(s) == {};
    } else {
      var n := |s| - 1;
      LiveEpochCounts(s[..n]);
      var now := if s[n].epoch && !s[n].collected then {n} else {};
      assert Current(s) == Current(s[..n]) + now;
      assert Current(s[..n]) !! now;
    }
  }

  /** Before an insertion there is room for one more live entry of the current epoch. */
  lemma EpochCheckBound<E>(s: seq<Slot<E>>, counter: nat, epochSize: nat)
    requires LiveEpoch(s) + counter <= EpochBound(epochSize) && epochSize >= 1
    ensures var (s', c') := EpochChecked(s, counter, epochSize);
            LiveEpoch(s') + 1 + c' <= EpochBound(epochSize)
  {
    AgedHasNoCurrent(s);
  }

  /** A live entry of the current epoch is never given up by an epoch check. */
  lemma EpochCheckKeepsCurrent<E>(s: seq<Slot<E>>, counter: nat, epochSize: nat, i: nat)
    requires i < |s| && s[i].epoch && !s[i].collected
    ensures var s' := EpochChecked(s, counter, epochSize).0;
            |s'| == |s| && s'[i].elem == s[i].elem && !s'[i].collected
  {
  }

  // ---------------------------------------------------------------------------------------
  // Hash locations.
  // ---------------------------------------------------------------------------------------

  /** The 32-bit hash as a fraction of 2^32, scaled to the table size. */
  function Location(hash: nat, size: nat): (r: nat)
    requires size >= 1
    ensures r < size && r * TWO32 <= hash % TWO32 * size < (r + 1) * TWO32
  {
    ScaledTo(hash % TWO32, size)
  }

  function Locations<E>(hashFn: (nat, E) -> nat, e: E, size: nat): (r: seq<nat>)
    requires size >= 1
    ensures |r| == 8
    ensures forall k :: 0 <= k < 8 ==>
              r[k] < size && r[k] * TWO32 <= hashFn(k, e) % TWO32 * size < (r[k] + 1) * TWO32
  {
    [Location(hashFn(0, e), size), Location(hashFn(1, e), size),
     Location(hashFn(2, e), size), Location(hashFn(3, e), size),
     Location(hashFn(4, e), size), Location(hashFn(5, e), size),
     Location(hashFn(6, e), size), Location(hashFn(7, e), size)]
  }

  /** Every live element sits at one of its hash locations. */
  ghost predicate Placed<E(!new)>(s: seq<Slot<E>>, locs: E -> seq<nat>)
  {
    forall i :: 0 <= i < |s| && !s[i].collected ==> i in locs(s[i].elem)
  }

  /** Replacing one slot keeps the others where they are. */
  lemma PlacedUpdate<E(!new)>(s: seq<Slot<E>>, i: nat, x: Slot<E>, locs: E -> seq<nat>)
    requires Placed(s, locs) && i < |s| && (!x.collected ==> i in locs(x.elem))
    ensures Placed(s[i := x], locs)
  {
  }

  /** `e` is in slot `i`, one of its locations, whether or not it is up for collection. */
  ghost predicate FoundAt<E(!new)>(s: seq<Slot<E>>, e: E, locs: E -> seq<nat>, i: int) {
    0 <= i < |s| && i in locs(e) && s[i].elem == e
  }

  lemma LiveIsFound<E(!new)>(s: seq<Slot<E>>, e: E, locs: E -> seq<nat>)
    requires Placed(s, locs) && e in Live(s)
    ensures exists i :: FoundAt(s, e, locs, i)
  {
    var i := LiveFind(s, e);
    assert FoundAt(s, e, locs, i);
  }

  /** Slot `i`, one of the locations of `e`, may be overwritten. */
  ghost predicate FreeAt<E(!new)>(s: seq<Slot<E>>, e: E, locs: E -> seq<nat>, i: int) {
    0 <= i < |s| && i in locs(e) && s[i].collected
  }

  /**
   The possible outcomes of inserting `e`.  If it is in the table, it is live again.  If one of its
   locations is free, it is added.  Otherwise it is added and at most one live element, possibly
   `e` itself, is dropped.
   */
  ghost predicate Inserted<E(!new)>(s: seq<Slot<E>>, s': seq<Slot<E>>, e: E, locs: E -> seq<nat>) {
    if exists i :: FoundAt(s, e, locs, i) then
      exists i :: FoundAt(s, e, locs, i) && s' == s[i := Slot(e, false, true)]
    else
      || Live(s') == Live(s) + multiset{e}
      || ((forall i :: !FreeAt(s, e, locs, i)) && exists d :: Live(s') + multiset{d} == Live(s) + multiset{e})
  }

  ghost predicate LocsOk<E(!new)>(locs: E -> seq<nat>, size: nat) {
    forall e :: |locs(e)| == 8 && forall k :: 0 <= k < 8 ==> locs(e)[k] < size
  }

  lemma LocsOf<E(!new)>(locs: E -> seq<nat>, size: nat, e: E)
    requires LocsOk(locs, size)
    ensures |locs(e)| == 8 && forall k :: 0 <= k < 8 ==> locs(e)[k] < size
  {
  }

  /** The first of the locations `ls`, from number `k` on, that may be overwritten, or 8. */
  function FirstFree<E>(s: seq<Slot<E>>, ls: seq<nat>, k: nat): (r: nat)
    requires k <= |ls| == 8 && forall j :: 0 <= j < 8 ==> ls[j] < |s|
    ensures k <= r <= 8 && (r < 8 ==> s[ls[r]].collected)
    decreases 8 - k
  {
    if k == 8 || s[ls[k]].collected then k else FirstFree(s, ls, k + 1)
  }

  lemma FirstFreeMeans<E(!new)>(s: seq<Slot<E>>, e: E, locs: E -> seq<nat>)
    requires LocsOk(locs, |s|)
    ensures var k := FirstFree(s, locs(e), 0);
            if k < 8 then FreeAt(s, e, locs, locs(e)[k]) else forall i :: !FreeAt(s, e, locs, i)
  {
    NoneBefore(s, locs(e), 0);
  }

  lemma {:induction false} NoneBefore<E>(s: seq<Slot<E>>, ls: seq<nat>, k: nat)
    requires k <= |ls| == 8 && forall j :: 0 <= j < 8 ==> ls[j] < |s|
    ensures forall j :: k <= j < FirstFree(s, ls, k) ==> !s[ls[j]].collected
    decreases 8 - k
  {
    if k < 8 && !s[ls[k]].collected {
      NoneBefore(s, ls, k + 1);
    }
  }

  /**
   The table after at most `depth` rounds with the element in hand: it goes to its first free
   location, or else it is exchanged at the location after `last`.
   */
  function Cuckooed<E(!new)>(s: seq<Slot<E>>, hand: E, epoch: bool, last: nat, depth: nat, locs: E -> seq<nat>): seq<Slot<E>>
    requires LocsOk(locs, |s|)
    decreases depth
  {
    if depth == 0 then s
    else
      var ls := locs(hand);
      var k := FirstFree(s, ls, 0);
      if k < 8 then s[ls[k] := Slot(hand, false, epoch)]
      else
        var i := NextLocation(ls, last);
        Cuckooed(s[i := Slot(hand, s[i].collected, epoch)], s[i].elem, s[i].epoch, i, depth - 1, locs)
  }

  lemma CuckooStops<E(!new)>(s: seq<Slot<E>>, hand: E, epoch: bool, last: nat, locs: E -> seq<nat>)
    requires LocsOk(locs, |s|)
    ensures Cuckooed(s, hand, epoch, last, 0, locs) == s
  {
  }

  lemma CuckooRound<E(!new)>(s: seq<Slot<E>>, hand: E, epoch: bool, last: nat, depth: nat, locs: E -> seq<nat>)
    requires LocsOk(locs, |s|) && depth > 0
    ensures Cuckooed(s, hand, epoch, last, depth, locs)
         == var ls := locs(hand);
            var k, i := FirstFree(s, ls, 0), NextLocation(ls, last);
            if k < 8 then s[ls[k] := Slot(hand, false, epoch)]
            else Cuckooed(s[i := Slot(hand, s[i].collected, epoch)], s[i].elem, s[i].epoch, i, depth - 1, locs)
  {
  }

  /** The first exchange is at the second location: the invalid location is not found, and 1 + 8 wraps to 1. */
  lemma FirstExchange<E(!new)>(s: seq<Slot<E>>, e: E, epoch: bool, depth: nat, locs: E -> seq<nat>)
    requires LocsOk(locs, |s|) && |s| < TWO32
    ensures |locs(e)| == 8 && NextLocation(locs(e), TWO32 - 1) == locs(e)[1]
    ensures depth > 0 && (forall k :: 0 <= k < 8 ==> !s[locs(e)[k]].collected) ==>
              var i := locs(e)[1];
              Cuckooed(s, e, epoch, TWO32 - 1, depth, locs)
              == Cuckooed(s[i := Slot(e, false, epoch)], s[i].elem, s[i].epoch, i, depth - 1, locs)
  {
    LocsOf(locs, |s|, e);
    NotIn(locs(e), TWO32 - 1);
    NoneBefore(s, locs(e), 0);
  }

  lemma {:induction false} NotIn(s: seq<nat>, x: nat)
    requires forall k :: 0 <= k < |s| ==> s[k] != x
    ensures IndexOf(s, x) == |s|
  {
    if s != [] {
      NotIn(s[1..], x);
    }
  }

  /** One moment of the displacement loop: the table, the element in hand, its epoch and the last location. */
  datatype Moment<E> = Moment(slots: seq<Slot<E>>, hand: E, epoch: bool, last: nat)

  /** Location number `k` follows `last`, cyclically; the second one follows a location that is not among them. */
  ghost predicate Follows(ls: seq<nat>, last: nat, k: nat)
    requires |ls| == 8
  {
    if last in ls then exists j :: 0 <= j < 8 && ls[j] == last && last !in ls[..j] && k == (j + 1) % 8
    else k == 1
  }

  /** No location of the element in hand is free, and it is exchanged at the one that follows. */
  ghost predicate Exchanges<E(!new)>(x: Moment<E>, y: Moment<E>, locs: E -> seq<nat>) {
    var ls := locs(x.hand);
    && |ls| == 8 && y.last < |x.slots| && (forall k :: 0 <= k < 8 ==> ls[k] < |x.slots| && !x.slots[ls[k]].collected)
    && (exists k :: 0 <= k < 8 && Follows(ls, x.last, k) && y.last == ls[k])
    && y.slots == x.slots[y.last := Slot(x.hand, false, x.epoch)]
    && y.hand == x.slots[y.last].elem && y.epoch == x.slots[y.last].epoch
  }

  /** The element in hand goes to its first free location. */
  ghost predicate Rests<E(!new)>(x: Moment<E>, r: seq<Slot<E>>, locs: E -> seq<nat>) {
    var ls := locs(x.hand);
    |ls| == 8 && exists k :: 0 <= k < 8 && ls[k] < |x.slots| && x.slots[ls[k]].collected
                             && (forall j :: 0 <= j < k ==> ls[j] < |x.slots| && !x.slots[ls[j]].collected)
                             && r == x.slots[ls[k] := Slot(x.hand, false, x.epoch)]
  }

  ghost predicate IsWalk<E(!new)>(path: seq<Moment<E>>, locs: E -> seq<nat>) {
    |path| > 0 && forall i :: 0 < i < |path| ==> Exchanges(path[i - 1], path[i], locs)
  }

  /**
   The loop is a walk of exchanges. It ends at the first element that has a free location; otherwise it
   makes exactly `depth` exchanges, and what is then in hand is lost.
   */
  lemma {:induction false} CuckooWalk<E(!new)>(s: seq<Slot<E>>, hand: E, epoch: bool, last: nat, depth: nat,
                                               locs: E -> seq<nat>) returns (path: seq<Moment<E>>)
    requires LocsOk(locs, |s|)
    ensures IsWalk(path, locs) && path[0] == Moment(s, hand, epoch, last)
    ensures var r, x := Cuckooed(s, hand, epoch, last, depth, locs), path[|path| - 1];
            if |path| <= depth then Rests(x, r, locs) else |path| == depth + 1 && r == x.slots
    decreases depth
  {
    hide LocsOk, FirstFree, NextLocation, Exchanges, Rests;
    LocsOf(locs, |s|, hand);
    var x := Moment(s, hand, epoch, last);
    path := [x];
    if depth > 0 {
      var ls := locs(hand);
      FirstRests(s, hand, epoch, last, locs);
      if FirstFree(s, ls, 0) == 8 {
        var i := NextLocation(ls, last);
        NextExchanges(s, hand, epoch, last, locs);
        var y := Moment(s[i := Slot(hand, s[i].collected, epoch)], s[i].elem, s[i].epoch, i);
        var rest := CuckooWalk(y.slots, y.hand, y.epoch, i, depth - 1, locs);
        path := [x] + rest;
        Prepended(x, rest, locs);
      }
    }
  }

  lemma Prepended<E(!new)>(x: Moment<E>, rest: seq<Moment<E>>, locs: E -> seq<nat>)
    requires IsWalk(rest, locs) && Exchanges(x, rest[0], locs)
    ensures IsWalk([x] + rest, locs)
  {
    hide Exchanges;
    var path := [x] + rest;
    forall i | 0 < i < |path|
      ensures Exchanges(path[i - 1], path[i], locs)
    {
      if i > 1 {
        assert path[i - 1] == rest[i - 2] && path[i] == rest[i - 1];
      }
    }
  }

  lemma FirstRests<E(!new)>(s: seq<Slot<E>>, hand: E, epoch: bool, last: nat, locs: E -> seq<nat>)
    requires LocsOk(locs, |s|)
    ensures var ls := locs(hand);
            |ls| == 8 && (forall j :: 0 <= j < 8 ==> ls[j] < |s|) &&
            var k := FirstFree(s, ls, 0);
            k < 8 ==> Rests(Moment(s, hand, epoch, last), s[ls[k] := Slot(hand, false, epoch)], locs)
  {
    LocsOf(locs, |s|, hand);
    NoneBefore(s, locs(hand), 0);
  }

  lemma NextExchanges<E(!new)>(s: seq<Slot<E>>, hand: E, epoch: bool, last: nat, locs: E -> seq<nat>)
    requires LocsOk(locs, |s|) && FirstFree(s, locs(hand), 0) == 8
    ensures |locs(hand)| == 8 && NextLocation(locs(hand), last) < |s|
    ensures var i := NextLocation(locs(hand), last);
            Exchanges(Moment(s, hand, epoch, last),
                      Moment(s[i := Slot(hand, s[i].collected, epoch)], s[i].elem, s[i].epoch, i), locs)
            && locs(hand)[(1 + IndexOf(locs(hand), last)) % 8] == i
  {
    hide FirstFree;
    var ls := locs(hand);
    LocsOf(locs, |s|, hand);
    NoneBefore(s, ls, 0);
    IndexOfIs(ls, last);
    assert Follows(ls, last, (1 + IndexOf(ls, last)) % 8);
  }

  lemma {:induction false} IndexOfIs(ls: seq<nat>, x: nat)
    ensures var j := IndexOf(ls, x);
            x !in ls[..j] && if x in ls then j < |ls| && ls[j] == x else j == |ls|
  {
    if ls != [] && ls[0] != x {
      IndexOfIs(ls[1..], x);
      assert ls == [ls[0]] + ls[1..];
      assert ls[..IndexOf(ls, x)] == [ls[0]] + ls[1..][..IndexOf(ls[1..], x)];
    }
  }

  ghost predicate KeptExcept<E(!new)>(s: seq<Slot<E>>, s': seq<Slot<E>>, e: E, d: E) {
    forall x :: (x in Live(s) || x == e) && x != d ==> x in Live(s')
  }

  /** Reading of `Inserted` element by element: at most one element is lost, and nothing else appears. */
  lemma InsertLosesAtMostOne<E(!new)>(s: seq<Slot<E>>, s': seq<Slot<E>>, e: E, locs: E -> seq<nat>)
    requires Inserted(s, s', e, locs)
    ensures exists d :: KeptExcept(s, s', e, d)
    ensures forall x :: x in Live(s') ==> x in Live(s) || x == e
  {
    if i :| FoundAt(s, e, locs, i) && s' == s[i := Slot(e, false, true)] {
      LiveAgain(s, i);
      assert KeptExcept(s, s', e, e);
    } else if Live(s') == Live(s) + multiset{e} {
      assert KeptExcept(s, s', e, e);
    } else {
      var d :| Live(s') + multiset{d} == Live(s) + multiset{e};
      DropOne(Live(s), Live(s'), e, d);
      assert KeptExcept(s, s', e, d);
    }
  }

  /** Reviving slot `i` adds its element to the live ones and loses none. */
  lemma LiveAgain<E(!new)>(s: seq<Slot<E>>, i: nat)
    requires i < |s|
    ensures forall x :: x in Live(s[i := Slot(s[i].elem, false, true)]) <==> x in Live(s) || x == s[i].elem
  {
    var x := Slot(s[i].elem, false, true);
    LiveUpdate(s, i, x);
    if s[i].collected {
      assert Live(s[i := x]) == Live(s) + multiset{s[i].elem} by {
        assert Live(s[i := x]) + multiset{} == Live(s) + multiset{s[i].elem};
      }
    } else {
      LiveHas(s, i);
      SameSum(Live(s[i := x]), Live(s), multiset{s[i].elem});
    }
  }

  lemma SameSum<E>(a: multiset<E>, b: multiset<E>, x: multiset<E>)
    requires a + x == b + x
    ensures a == b
  {
    assert a == (a + x) - x;
    assert b == (b + x) - x;
  }

  lemma DropOne<E(!new)>(m: multiset<E>, m': multiset<E>, e: E, d: E)
    requires m' + multiset{d} == m + multiset{e}
    ensures forall x :: (x in m || x == e) && x != d ==> x in m'
    ensures forall x :: x in m' ==> x in m || x == e
  {
    forall x
      ensures (x in m || x == e) && x != d ==> x in m'
      ensures x in m' ==> x in m || x == e
    {
      assert (m' + multiset{d})[x] == (m + multiset{e})[x];
    }
  }

  class Cache<E(==, !new)> {
    const size: nat
    const epochSize: nat
    const depthLimit: nat
    const locations: E -> seq<nat>   // compute_hashes
    const table: array<E>
    const collectionFlags: BitPackedFlags
    const epochFlags: array<bool>
    var heuristicCounter: nat

    ghost predicate Shape() {
      && 2 <= size < TWO32 && epochSize >= 1 && depthLimit >= 1
      && (table as object) != collectionFlags.mem && (table as object) != epochFlags
      && (epochFlags as object) != collectionFlags.mem
      && table.Length == size && epochFlags.Length == size && 8 * collectionFlags.mem.Length >= size
      && LocsOk(locations, size)
    }

    ghost function Slots(): (s: seq<Slot<E>>)
      requires Shape()
      reads table, epochFlags, collectionFlags.mem
    {
      Zip(table[..], collectionFlags.Bits(), epochFlags[..])
    }

    ghost predicate Valid()
      reads this, table, epochFlags, collectionFlags.mem
    {
      && Shape()
      && Placed(Slots(), locations)
      && LiveEpoch(Slots()) + heuristicCounter <= EpochBound(epochSize)
    }

    /** `setup`: `45 * size` is 32-bit arithmetic; the depth limit is log2 of the size, at least 1. */
    constructor (newSize: nat, depth: nat, dflt: E, hashFn: (nat, E) -> nat)
      requires newSize < TWO32 && depth >= 1
      ensures size == Max(2, newSize) && depthLimit == depth && epochSize == EpochSizeFor(size)
      ensures forall e :: locations(e) == Locations(hashFn, e, size)
      ensures Valid() <==> newSize <= TWO32 - 8
      ensures Valid() ==> Live(Slots()) == multiset{}
    {
      var n := Max(2, newSize);
      size := n;
      depthLimit := depth;
      locations := e => Locations(hashFn, e, n);
      table := new E[n](_ => dflt);
      collectionFlags := new BitPackedFlags(n);
      epochFlags := new bool[n](_ => false);
      epochSize := EpochSizeFor(n);
      heuristicCounter := EpochSizeFor(n);
      new;
      FlagBytesSuffice(n);
      if n <= TWO32 - 8 {
        NothingLive(Slots());
      }
    }

    /** `contains`: found at any of the locations; `erase` only marks the slot. */
    method Contains(e: E, erase: bool) returns (found: bool)
      requires Valid()
      modifies collectionFlags.mem
      ensures Valid()
      ensures found <==> exists i :: FoundAt(old(Slots()), e, locations, i)
      ensures old(e in Live(Slots())) ==> found
      ensures if erase && found then exists i :: 0 <= i < size && Marked(old(Slots()), Slots(), e, i)
              else Slots() == old(Slots())
    {
      ghost var live := e in Live(Slots());
      if live {
        LiveIsFound(Slots(), e, locations);
      }
      var k := FindElement(e);
      if k == 8 {
        return false;
      }
      if erase {
        AllowErase(locations(e)[k]);
        assert Marked(old(Slots()), Slots(), e, locations(e)[k]);
      }
      return true;
    }

    /** Erasing only marks: what was found for erasure is found again. */
    method EraseThenContains(e: E) returns (r: bool)
      requires Valid()
      modifies collectionFlags.mem
      ensures r && Valid()
    {
      r := Contains(e, true);
      if r {
        ghost var i :| FoundAt(old(Slots()), e, locations, i);
        assert FoundAt(Slots(), e, locations, i);
        r := Contains(e, false);
      } else {
        r := true;
      }
    }

    /** The first of the eight locations that holds `e`, or 8. */
    method FindElement(e: E) returns (k: nat)
      requires Shape()
      ensures k <= 8
      ensures k < 8 ==> FoundAt(Slots(), e, locations, locations(e)[k])
      ensures k == 8 ==> forall i :: !FoundAt(Slots(), e, locations, i)
    {
      var locs := locations(e);
      k := 0;
      while k < 8 && table[locs[k]] != e
        invariant k <= 8 && forall j :: 0 <= j < k ==> Slots()[locs[j]].elem != e
      {
        k := k + 1;
      }
    }

    /** The first of the eight locations of `e` that may be overwritten, or 8. */
    method FindCollected(e: E) returns (k: nat)
      requires Shape()
      ensures k <= 8
      ensures k < 8 ==> FreeAt(Slots(), e, locations, locations(e)[k])
      ensures k == 8 ==> forall i :: !FreeAt(Slots(), e, locations, i)
      ensures k == FirstFree(Slots(), locations(e), 0)
    {
      hide LocsOk, FreeAt, Zip;
      LocsOf(locations, size, e);
      FirstFreeMeans(Slots(), e, locations);
      var locs := locations(e);
      k := 0;
      while k < 8
        invariant k <= 8
        invariant FirstFree(Slots(), locs, 0) == FirstFree(Slots(), locs, k)
      {
        var free := collectionFlags.BitIsSet(locs[k]);
        if free {
          return;
        }
        k := k + 1;
      }
    }

    /** `allow_erase` */
    method AllowErase(loc: nat)
      requires Valid() && loc < size
      modifies collectionFlags.mem
      ensures Valid() && Slots() == old(Slots())[loc := old(Slots()[loc]).(collected := true)]
    {
      ghost var x := Slots()[loc].(collected := true);
      LiveEpochUpdate(Slots(), loc, x);
      PlacedUpdate(Slots(), loc, x, locations);
      ZipUpdate(table[..], collectionFlags.Bits(), epochFlags[..], loc, x);
      collectionFlags.BitSet(loc);
      assert table[..][loc := x.elem] == table[..] && epochFlags[..][loc := x.epoch] == epochFlags[..];
    }

    /** Writes an element to a slot that may be overwritten, and keeps it: the store of `insert`. */
    method PleaseKeep(loc: nat, e: E, epoch: bool)
      requires Shape() && loc < size
      modifies table, epochFlags, collectionFlags.mem
      ensures Slots() == old(Slots())[loc := Slot(e, false, epoch)]
    {
      ZipUpdate(table[..], collectionFlags.Bits(), epochFlags[..], loc, Slot(e, false, epoch));
      table[loc] := e;
      collectionFlags.BitUnset(loc);
      epochFlags[loc] := epoch;
      assert table[..] == old(table[..])[loc := e] && epochFlags[..] == old(epochFlags[..])[loc := epoch];
    }

    /** Exchanges the carried element and its epoch with those of a slot. */
    method SwapSlot(loc: nat, e: E, epoch: bool) returns (e': E, epoch': bool)
      requires Shape() && loc < size
      modifies table, epochFlags
      ensures Slots() == old(Slots())[loc := Slot(e, old(Slots()[loc]).collected, epoch)]
      ensures e' == old(Slots()[loc]).elem && epoch' == old(Slots()[loc]).epoch
    {
      ghost var x := Slot(e, Slots()[loc].collected, epoch);
      ZipUpdate(table[..], collectionFlags.Bits(), epochFlags[..], loc, x);
      e' := table[loc];
      table[loc] := e;
      epoch' := epochFlags[loc];
      epochFlags[loc] := epoch;
      assert table[..] == old(table[..])[loc := e] && epochFlags[..] == old(epochFlags[..])[loc := epoch];
      assert collectionFlags.Bits()[loc := x.collected] == collectionFlags.Bits();
    }

    /** `epoch_check`: decrements the counter, or scans and starts a new epoch if the current one is full. */
    method EpochCheck()
      requires Valid()
      modifies this, epochFlags, collectionFlags.mem
      ensures Shape() && Placed(Slots(), locations)
      ensures (Slots(), heuristicCounter) == EpochChecked(old(Slots()), old(heuristicCounter), epochSize)
      ensures CheckedSlots(old(Slots()), Slots(), old(heuristicCounter), epochSize)
    {
      EpochCheckOutcome(Slots(), heuristicCounter, epochSize);
      if heuristicCounter != 0 {
        heuristicCounter := heuristicCounter - 1;
        return;
      }
      var unused := CountCurrent();
      if unused >= epochSize {
        AgeAll();
        heuristicCounter := epochSize;
      } else {
        heuristicCounter := Max(1, Max(epochSize / 16, epochSize - unused));
      }
    }

    method CountCurrent() returns (n: nat)
      requires Shape()
      ensures n == LiveEpoch(Slots())
    {
      n := 0;
      var i := 0;
      while i < size
        invariant 0 <= i <= size && n == LiveEpoch(Slots()[..i])
      {
        var c := collectionFlags.BitIsSet(i);
        assert Slots()[..i + 1][..i] == Slots()[..i];
        n := n + (if epochFlags[i] && !c then 1 else 0);
        i := i + 1;
      }
      assert Slots()[..size] == Slots();
    }

    method AgeAll()
      requires Shape() && Placed(Slots(), locations)
      modifies epochFlags, collectionFlags.mem
      ensures Slots() == Aged(old(Slots())) && Placed(Slots(), locations)
    {
      var i := 0;
      while i < size
        invariant 0 <= i <= size
        invariant forall j :: 0 <= j < size ==> Slots()[j] == if j < i then Age(old(Slots())[j]) else old(Slots())[j]
      {
        ghost var s := Slots();
        ZipUpdate(table[..], collectionFlags.Bits(), epochFlags[..], i, Age(s[i]));
        if epochFlags[i] {
          epochFlags[i] := false;
        } else {
          collectionFlags.BitSet(i);
        }
        assert Slots() == s[i := Age(s[i])];
        i := i + 1;
      }
      assert Slots() == Aged(old(Slots()));
    }

    /**
     `insert`: after the epoch check, `e` becomes live and at most one live element is dropped.
     The number of live entries of the current epoch stays within its bound.
     */
    method Insert(e: E)
      requires Valid()
      modifies this, table, epochFlags, collectionFlags.mem
      ensures Valid()
      ensures var s := EpochChecked(old(Slots()), old(heuristicCounter), epochSize).0;
              && Inserted(s, Slots(), e, locations)
              && ((forall i :: !FoundAt(s, e, locations, i)) ==>
                    Slots() == Cuckooed(s, e, true, TWO32 - 1, depthLimit, locations))
    {
      hide Live, LiveEpoch, Placed, Zip, LocsOk, FreeAt, Cuckooed, EpochChecked, FirstFree;
      EpochCheckBound(Slots(), heuristicCounter, epochSize);
      EpochCheck();
      ghost var s := Slots();
      LocsOf(locations, size, e);
      var k := FindElement(e);
      if k < 8 {
        var loc := locations(e)[k];
        FoundAgain(s, loc, locations);
        assert FoundAt(s, e, locations, loc);
        PleaseKeep(loc, e, true);
        return;
      }
      Place(e);
    }

    /** One round of the loop: put the element in hand into a free slot, or exchange it with another. */
    method PlaceRound(hand: E, epoch: bool, last: nat) returns (done: bool, hand': E, epoch': bool, last': nat)
      requires Shape()
      modifies table, epochFlags, collectionFlags.mem
      ensures |locations(hand)| == 8 && forall k :: 0 <= k < 8 ==> locations(hand)[k] < size
      ensures done <==> FirstFree(old(Slots()), locations(hand), 0) < 8
      ensures done ==> Slots() == Settled(old(Slots()), hand, epoch, locations)
      ensures !done ==> last' == NextLocation(locations(hand), last)
                        && Slots() == old(Slots())[last' := Slot(hand, old(Slots())[last'].collected, epoch)]
                        && hand' == old(Slots())[last'].elem && epoch' == old(Slots())[last'].epoch
    {
      hide FirstFree, IndexOf, Zip, LocsOk, FreeAt;
      hand', epoch', last' := hand, epoch, last;
      var locs := locations(hand);
      LocsOf(locations, size, hand);
      var free := FindCollected(hand);
      done := free < 8;
      if done {
        PleaseKeep(locs[free], hand, epoch);
      } else {
        last' := NextLocation(locs, last);
        hand', epoch' := SwapSlot(last', hand, epoch);
      }
    }

    /** The cuckoo loop. */
    method Place(e: E)
      requires Shape() && Placed(Slots(), locations)
      modifies table, epochFlags, collectionFlags.mem
      ensures PlacedAs(old(Slots()), Slots(), e, depthLimit, locations)
    {
      hide PlacedAs, Midway, Placed, Zip, LocsOk, FirstFree, NextLocation, Settled;
      ghost var s := Slots();
      var hand, epoch := e, true;
      var last: nat := TWO32 - 1;
      var depth := 0;
      MidwayStarts(s, e, depthLimit, locations);
      while depth < depthLimit
        invariant 0 <= depth <= depthLimit
        invariant Midway(s, Slots(), e, hand, epoch, last, depth, depthLimit, locations)
      {
        ghost var now := Slots();
        MidwayRound(s, now, e, hand, epoch, last, depth, depthLimit, locations);
        var done;
        done, hand, epoch, last := PlaceRound(hand, epoch, last);
        if done {
          return;
        }
        depth := depth + 1;
      }
      MidwayEnds(s, Slots(), e, hand, epoch, last, depth, depthLimit, locations);
    }
  }

  // ---------------------------------------------------------------------------------------
  // The cuckoo loop on sequences of slots.
  // ---------------------------------------------------------------------------------------

  /** The location after `last`, cyclically; not finding it counts as the number of locations. */
  function NextLocation(ls: seq<nat>, last: nat): (i: nat)
    requires |ls| == 8
  {
    ls[(1 + IndexOf(ls, last)) % 8]
  }

  /** The element in hand goes to its first free location. */
  function Settled<E(!new)>(s: seq<Slot<E>>, hand: E, epoch: bool, locs: E -> seq<nat>): seq<Slot<E>>
    requires |locs(hand)| == 8 && forall k :: 0 <= k < 8 ==> locs(hand)[k] < |s|
    requires FirstFree(s, locs(hand), 0) < 8
  {
    s[locs(hand)[FirstFree(s, locs(hand), 0)] := Slot(hand, false, epoch)]
  }

  /** What an insertion of an absent element does to the slots. */
  ghost predicate PlacedAs<E(!new)>(s: seq<Slot<E>>, s': seq<Slot<E>>, e: E, limit: nat, locs: E -> seq<nat>) {
    && Placed(s', locs) && LiveEpoch(s') <= LiveEpoch(s) + 1
    && (|| Live(s') == Live(s) + multiset{e}
        || ((forall i :: !FreeAt(s, e, locs, i)) && exists d :: Live(s') + multiset{d} == Live(s) + multiset{e}))
    && LocsOk(locs, |s|) && s' == Cuckooed(s, e, true, TWO32 - 1, limit, locs)
  }

  /** After `depth` rounds. */
  ghost predicate Midway<E(!new)>(s0: seq<Slot<E>>, s: seq<Slot<E>>, e: E, hand: E, epoch: bool, last: nat,
    depth: nat, limit: nat, locs: E -> seq<nat>)
  {
    && depth <= limit && Carrying(s0, s, e, hand, epoch, locs) && LocsOk(locs, |s|)
    && (depth == 0 ==> s == s0 && hand == e)
    && (depth > 0 ==> forall i :: !FreeAt(s0, e, locs, i))
    && Cuckooed(s0, e, true, TWO32 - 1, limit, locs) == Cuckooed(s, hand, epoch, last, limit - depth, locs)
  }

  lemma MidwayStarts<E(!new)>(s: seq<Slot<E>>, e: E, limit: nat, locs: E -> seq<nat>)
    requires Placed(s, locs) && LocsOk(locs, |s|)
    ensures Midway(s, s, e, e, true, TWO32 - 1, 0, limit, locs)
  {
    hide Live, LiveEpoch, Placed, Cuckooed, LocsOk, FreeAt;
  }

  lemma MidwayRound<E(!new)>(s0: seq<Slot<E>>, s: seq<Slot<E>>, e: E, hand: E, epoch: bool, last: nat,
    depth: nat, limit: nat, locs: E -> seq<nat>)
    requires Midway(s0, s, e, hand, epoch, last, depth, limit, locs) && depth < limit
    ensures |locs(hand)| == 8 && forall k :: 0 <= k < 8 ==> locs(hand)[k] < |s|
    ensures FirstFree(s, locs(hand), 0) < 8 ==> PlacedAs(s0, Settled(s, hand, epoch, locs), e, limit, locs)
    ensures FirstFree(s, locs(hand), 0) >= 8 ==>
              var i := NextLocation(locs(hand), last);
              && i < |s|
              && Midway(s0, s[i := Slot(hand, s[i].collected, epoch)], e, s[i].elem, s[i].epoch, i, depth + 1, limit, locs)
  {
    hide Live, LiveEpoch, Placed, Cuckooed, LocsOk, FreeAt, FirstFree, IndexOf, Carrying;
    LocsOf(locs, |s|, hand);
    CuckooRound(s, hand, epoch, last, limit - depth, locs);
    FirstFreeMeans(s, hand, locs);
    var ls, k := locs(hand), FirstFree(s, locs(hand), 0);
    SameSize(s0, s, e, hand, epoch, locs);
    if k < 8 {
      FreeIs(s, hand, locs, ls[k]);
      CarryPlace(s0, s, e, hand, epoch, locs, ls[k]);
    } else {
      var i := NextLocation(ls, last);
      NotFree(s, hand, locs, i);
      CarrySwap(s0, s, e, hand, epoch, locs, i);
    }
  }

  lemma MidwayEnds<E(!new)>(s0: seq<Slot<E>>, s: seq<Slot<E>>, e: E, hand: E, epoch: bool, last: nat,
    depth: nat, limit: nat, locs: E -> seq<nat>)
    requires Midway(s0, s, e, hand, epoch, last, depth, limit, locs) && depth == limit >= 1
    ensures PlacedAs(s0, s, e, limit, locs)
  {
    hide Live, LiveEpoch, Placed, Cuckooed, LocsOk, FreeAt;
    CuckooStops(s, hand, epoch, last, locs);
  }

  lemma SameSize<E(!new)>(s0: seq<Slot<E>>, s: seq<Slot<E>>, e: E, hand: E, epoch: bool, locs: E -> seq<nat>)
    requires Carrying(s0, s, e, hand, epoch, locs)
    ensures |s| == |s0|
  {
  }

  lemma NotFree<E(!new)>(s: seq<Slot<E>>, e: E, locs: E -> seq<nat>, i: nat)
    requires !FreeAt(s, e, locs, i) && i < |s| && i in locs(e)
    ensures !s[i].collected
  {
  }

  lemma FreeIs<E(!new)>(s: seq<Slot<E>>, e: E, locs: E -> seq<nat>, i: nat)
    requires FreeAt(s, e, locs, i)
    ensures i < |s| && s[i].collected && i in locs(e)
  {
  }

  ghost predicate Marked<E>(s: seq<Slot<E>>, s': seq<Slot<E>>, e: E, i: int) {
    0 <= i < |s| && s[i].elem == e && s' == s[i := s[i].(collected := true)]
  }

  lemma {:induction false} NothingLive<E>(s: seq<Slot<E>>)
    requires forall i :: 0 <= i < |s| ==> s[i].collected
    ensures Live(s) == multiset{} && LiveEpoch(s) == 0
  {
    if s != [] {
      NothingLive(s[..|s| - 1]);
    }
  }

  /** std::find: the first index of `x`, or the length. */
  function IndexOf(s: seq<nat>, x: nat): (k: nat)
    ensures k <= |s| && (k < |s| ==> s[k] == x)
  {
    if s == [] then 0 else if s[0] == x then 0 else 1 + IndexOf(s[1..], x)
  }

  /**
   In the middle of an insertion of `e` into `s0`: the element in hand, with its epoch, is what
   the table lacks.
   */
  ghost predicate Carrying<E(!new)>(s0: seq<Slot<E>>, s: seq<Slot<E>>, e: E, hand: E, epoch: bool, locs: E -> seq<nat>) {
    && |s| == |s0| && Placed(s, locs)
    && Live(s) + multiset{hand} == Live(s0) + multiset{e}
    && LiveEpoch(s) + (if epoch then 1 else 0) == LiveEpoch(s0) + 1
  }

  lemma CarrySwap<E(!new)>(s0: seq<Slot<E>>, s: seq<Slot<E>>, e: E, hand: E, epoch: bool, locs: E -> seq<nat>, i: nat)
    requires Carrying(s0, s, e, hand, epoch, locs)
    requires i < |s| && !s[i].collected && i in locs(hand)
    ensures Carrying(s0, s[i := Slot(hand, false, epoch)], e, s[i].elem, s[i].epoch, locs)
  {
    var x := Slot(hand, false, epoch);
    PlacedUpdate(s, i, x, locs);
    LiveUpdate(s, i, x);
    LiveEpochUpdate(s, i, x);
  }

  lemma CarryPlace<E(!new)>(s0: seq<Slot<E>>, s: seq<Slot<E>>, e: E, hand: E, epoch: bool, locs: E -> seq<nat>, i: nat)
    requires Carrying(s0, s, e, hand, epoch, locs)
    requires i < |s| && s[i].collected && i in locs(hand)
    ensures var s' := s[i := Slot(hand, false, epoch)];
            && Placed(s', locs) && Live(s') == Live(s0) + multiset{e} && LiveEpoch(s') == LiveEpoch(s0) + 1
  {
    var x := Slot(hand, false, epoch);
    PlacedUpdate(s, i, x, locs);
    LiveUpdate(s, i, x);
    assert Live(s[i := x]) + multiset{} == Live(s[i := x]);
    LiveEpochUpdate(s, i, x);
  }

  lemma FoundAgain<E(!new)>(s: seq<Slot<E>>, i: nat, locs: E -> seq<nat>)
    requires Placed(s, locs) && i < |s| && i in locs(s[i].elem)
    ensures var s' := s[i := Slot(s[i].elem, false, true)];
            Placed(s', locs) && LiveEpoch(s') <= LiveEpoch(s) + 1
  {
    PlacedUpdate(s, i, Slot(s[i].elem, false, true), locs);
    LiveEpochUpdate(s, i, Slot(s[i].elem, false, true));
  }
}
