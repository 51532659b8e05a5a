/**
 The address manager (src/addrman.h, src/addrman.cpp): the stateful operations on its indexes.
 Randomness and the clock are arbitrary choices; the key and its hash functions are one value.
 */
module AddrMan {
  import opened AddrBook
  import opened AddrDump
  import AddrLoad
  import opened Bits
  import opened Wrappers

  const HORIZON_DAYS := 30
  const RETRIES := 3
  const MAX_FAILURES := 10
  const MIN_FAIL_DAYS := 7
  const GETADDR_MAX_PCT := 23
  const GETADDR_MAX := 2500

  datatype Address = Address(addr: Service, nTime: int, nServices: nat)

  predicate IsTerrible(x: Info, now: int) {
    if x.nLastTry != 0 && x.nLastTry >= now - 60 then false
    else if x.nTime > now + 10 * 60 then true
    else if x.nTime == 0 || now - x.nTime > HORIZON_DAYS * 24 * 60 * 60 then true
    else if x.nLastSuccess == 0 && x.nAttempts >= RETRIES then true
    else now - x.nLastSuccess > MIN_FAIL_DAYS * 24 * 60 * 60 && x.nAttempts >= MAX_FAILURES
  }

  /** Not tried within a minute, and from the future, older than 30 days, or failing too often. */
  lemma TerribleIff(x: Info, now: int)
    ensures IsTerrible(x, now) <==>
            && (x.nLastTry == 0 || now - x.nLastTry > 60)
            && (|| x.nTime - now > 600 || x.nTime == 0 || now - x.nTime > 30 * 86400
                || (x.nLastSuccess == 0 && x.nAttempts >= 3)
                || (x.nAttempts >= 10 && now - x.nLastSuccess > 7 * 86400))
  {
  }

  function MaxInt(a: int, b: int): int { if a > b then a else b }

  /** A table of buckets; -1 marks an empty slot. */
  class BucketTable {
    const cells: array2<int>

    constructor (buckets: nat)
      ensures fresh(cells) && cells.Length0 == buckets && cells.Length1 == BUCKET_SIZE
      ensures Map() == map[]
    {
      cells := new int[buckets, BUCKET_SIZE]((_, _) => -1);
    }

    ghost predicate InRange(s: Slot) { s.bucket < cells.Length0 && s.pos < cells.Length1 }

    ghost function Map(): (t: Table)
      reads cells
      ensures forall s :: s in t <==> InRange(s) && cells[s.bucket, s.pos] != -1
      ensures forall s :: s in t ==> InRange(s) && t[s] == cells[s.bucket, s.pos]
    {
      var all := set b, p | 0 <= b < cells.Length0 && 0 <= p < cells.Length1 :: Slot(b, p);
      map s | s in all && cells[s.bucket, s.pos] != -1 :: cells[s.bucket, s.pos]
    }

    method Get(s: Slot) returns (id: int)
      requires InRange(s)
      ensures id == if s in Map() then Map()[s] else -1
    {
      id := cells[s.bucket, s.pos];
    }

    method Set(s: Slot, id: int)
      requires InRange(s) && id >= 0
      modifies cells
      ensures Map() == old(Map())[s := id]
    {
      cells[s.bucket, s.pos] := id;
      assert forall q :: q in Map() <==> q in old(Map())[s := id];
      assert Map() == old(Map())[s := id];
    }

    method Reset(s: Slot)
      requires InRange(s)
      modifies cells
      ensures Map() == old(Map()) - {s}
    {
      cells[s.bucket, s.pos] := -1;
      assert forall q :: q in Map() <==> q in old(Map()) - {s};
      assert Map() == old(Map()) - {s};
    }

    method Clear()
      modifies cells
      ensures Map() == map[]
    {
      var b := 0;
      while b < cells.Length0
        invariant 0 <= b <= cells.Length0
        invariant forall i, j :: 0 <= i < b && 0 <= j < cells.Length1 ==> cells[i, j] == -1
      {
        var p := 0;
        while p < cells.Length1
          invariant 0 <= p <= cells.Length1
          invariant forall i, j :: 0 <= i < b && 0 <= j < cells.Length1 ==> cells[i, j] == -1
          invariant forall j :: 0 <= j < p ==> cells[b, j] == -1
        {
          cells[b, p] := -1;
          p := p + 1;
        }
        b := b + 1;
      }
    }
  }

  /** A call on the manager, with the time it reads from the clock. */
  datatype Request =
    | Adding(a: Address, source: NetAddr, penalty: int, now: int, draw: nat)
    | Succeeding(s: Service, time: int)
    | Attempting(s: Service, countFailure: bool, time: int)
    | Connecting(s: Service, time: int)
    | Selecting(now: int)

  class AddressManager {
    const discriminatePorts: bool
    const isRoutable: Service -> bool
    const vvNew: BucketTable
    const vvTried: BucketTable
    var h: Hashing
    var nIdCount: int
    var mapInfo: map<int, Info>
    var mapAddr: map<Service, int>
    var vRandom: seq<int>
    var nTried: int
    var nNew: int
    var nLastGood: int

    ghost predicate Shape() {
      && vvNew.cells.Length0 == NEW_BUCKET_COUNT && vvNew.cells.Length1 == BUCKET_SIZE
      && vvTried.cells.Length0 == TRIED_BUCKET_COUNT && vvTried.cells.Length1 == BUCKET_SIZE
      && vvNew.cells != vvTried.cells
    }

    /** The indexes and counters as one value. */
    ghost function TheBook(): Book
      reads this, vvNew.cells, vvTried.cells
    {
      Book(mapInfo, mapAddr, vRandom, vvNew.Map(), vvTried.Map(), nNew, nTried, nIdCount)
    }

    ghost predicate Valid()
      reads this, vvNew.cells, vvTried.cells
    {
      Shape() && Consistent(TheBook(), h, discriminatePorts)
    }

    /** A new manager is cleared. */
    constructor (ports: bool, routable: Service -> bool, hashing: Hashing)
      ensures Valid() && mapAddr == map[] && discriminatePorts == ports && isRoutable == routable
      ensures fresh(vvNew.cells) && fresh(vvTried.cells)
    {
      discriminatePorts, isRoutable, h := ports, routable, hashing;
      vvNew := new BucketTable(NEW_BUCKET_COUNT);
      vvTried := new BucketTable(TRIED_BUCKET_COUNT);
      nIdCount, nTried, nNew, nLastGood := 0, 0, 0, 1;
      mapInfo, mapAddr, vRandom := map[], map[], [];
      new;
      EmptyConsistent(h, discriminatePorts);
    }

    /** The id of an address, or None. */
    method Find(a: Service) returns (r: Option<int>)
      requires Valid()
      ensures r == (var n := Normal(a, discriminatePorts); if n in mapAddr then Some(mapAddr[n]) else None)
      ensures r.Some? ==> r.value in mapInfo && Normal(mapInfo[r.value].addr, discriminatePorts) == Normal(a, discriminatePorts)
    {
      var n := Normal(a, discriminatePorts);
      r := if n in mapAddr then Some(mapAddr[n]) else None;
    }

    method SwapRandom(i: nat, j: nat)
      requires i < |vRandom| && j < |vRandom| && vRandom[i] in mapInfo && vRandom[j] in mapInfo
      modifies this`mapInfo, this`vRandom
      ensures TheBook() == Swapped(old(TheBook()), i, j)
    {
      if i == j {
        return;
      }
      var id1, id2 := vRandom[i], vRandom[j];
      mapInfo := mapInfo[id1 := mapInfo[id1].(nRandomPos := j)];
      mapInfo := mapInfo[id2 := mapInfo[id2].(nRandomPos := i)];
      vRandom := vRandom[i := id2][j := id1];
    }

    method Create(a: Address, source: NetAddr) returns (id: int)
      modifies this`mapInfo, this`mapAddr, this`vRandom, this`nIdCount
      ensures id == old(nIdCount)
      ensures TheBook() == Created(old(TheBook()), NewInfo(a, source), discriminatePorts)
    {
      id := nIdCount;
      nIdCount := nIdCount + 1;
      mapInfo := mapInfo[id := NewInfo(a, source)];
      mapAddr := mapAddr[Normal(a.addr, discriminatePorts) := id];
      mapInfo := mapInfo[id := mapInfo[id].(nRandomPos := |vRandom|)];
      vRandom := vRandom + [id];
    }

    /** The source asserts that the entry exists, is not tried and has no references. */
    method Delete(id: int)
      requires RandomOk(TheBook()) && id in mapInfo && !mapInfo[id].fInTried && mapInfo[id].nRefCount == 0
      modifies this`mapInfo, this`mapAddr, this`vRandom, this`nNew
      ensures TheBook() == Deleted(old(TheBook()), id, discriminatePorts)
    {
      hide Swapped, RandomOk;
      ghost var b := TheBook();
      SwappedLast(b, id);
      SwappedEntries(b, mapInfo[id].nRandomPos, |vRandom| - 1);
      LastKnown(b);
      var a := Normal(mapInfo[id].addr, discriminatePorts);
      SwapRandom(mapInfo[id].nRandomPos, |vRandom| - 1);
      vRandom := vRandom[..|vRandom| - 1];
      mapAddr := mapAddr - {a};
      mapInfo := mapInfo - {id};
      nNew := nNew - 1;
    }

    /** The entry in slot `s` of the new table loses that reference. */
    method DropSlot(s: Slot, id: int)
      requires Shape() && s in vvNew.Map() && vvNew.Map()[s] == id && id in mapInfo
      modifies this`mapInfo, vvNew.cells
      ensures TheBook() == Unlinked(old(TheBook()), s)
    {
      mapInfo := mapInfo[id := mapInfo[id].(nRefCount := mapInfo[id].nRefCount - 1)];
      vvNew.Reset(s);
    }

    /** Entry `id` gains slot `s` of the new table. */
    method GainSlot(s: Slot, id: int)
      requires Shape() && s.bucket < NEW_BUCKET_COUNT && s.pos < BUCKET_SIZE && id >= 0 && id in mapInfo
      modifies this`mapInfo, vvNew.cells
      ensures TheBook() == Linked(old(TheBook()), id, s)
    {
      mapInfo := mapInfo[id := mapInfo[id].(nRefCount := mapInfo[id].nRefCount + 1)];
      vvNew.Set(s, id);
    }

    /** The source asserts that an entry found in the slot has references. */
    method ClearNew(s: Slot)
      requires Shape() && s.bucket < NEW_BUCKET_COUNT && s.pos < BUCKET_SIZE && RandomOk(TheBook())
      requires s in vvNew.Map() ==>
        var id := vvNew.Map()[s];
        id in mapInfo && !mapInfo[id].fInTried && mapInfo[id].nRefCount > 0
      modifies this`mapInfo, this`mapAddr, this`vRandom, this`nNew, vvNew.cells
      ensures TheBook() == Cleared(old(TheBook()), s, discriminatePorts)
    {
      var id := vvNew.Get(s);
      if id != -1 {
        UnlinkRandomOk(TheBook(), s);
        DropSlot(s, id);
        if mapInfo[id].nRefCount == 0 {
          Delete(id);
        }
      }
    }

    /** Empties all slots of `id` in the new table and counts it out. */
    method Delist(id: int)
      requires Shape() && id in mapInfo && id >= 0
      modifies this`mapInfo, this`nNew, vvNew.cells
      ensures TheBook() == Delisted(old(TheBook()), id, old(mapInfo)[id].addr, h)
    {
      hide Unlinked;
      var a := mapInfo[id].addr;
      var bucket := 0;
      while bucket < NEW_BUCKET_COUNT
        invariant 0 <= bucket <= NEW_BUCKET_COUNT
        invariant id in mapInfo && TheBook() == Drained(old(TheBook()), id, a, h, bucket)
      {
        var s := h.NewSlot(a, bucket);
        var at := vvNew.Get(s);
        UnlinkedKeeps(TheBook(), s, id);
        if at == id {
          DropSlot(s, id);
        }
        bucket := bucket + 1;
      }
      nNew := nNew - 1;
    }

    method EvictSlot(s: Slot) returns (id: int)
      requires Shape() && s in vvTried.Map() && vvTried.Map()[s] in mapInfo
      modifies this`mapInfo, this`nTried, vvTried.cells
      ensures id == old(vvTried.Map())[s] && TheBook() == Evicted(old(TheBook()), s)
    {
      id := vvTried.Get(s);
      mapInfo := mapInfo[id := mapInfo[id].(fInTried := false)];
      vvTried.Reset(s);
      nTried := nTried - 1;
    }

    /** Moves the entry at tried slot `s` back to the new table. */
    method Demote(s: Slot)
      requires Shape() && DemoteReady(TheBook(), s, h, discriminatePorts)
      modifies this`mapInfo, this`mapAddr, this`vRandom, this`nNew, this`nTried, vvNew.cells, vvTried.cells
      ensures TheBook() == Demoted(old(TheBook()), s, h, discriminatePorts)
    {
      hide Cleared, Linked, Consistent;
      var evict := EvictSlot(s);
      var home := HomeSlot(mapInfo[evict], h);
      ClearNew(home);
      GainSlot(home, evict);
      nNew := nNew + 1;
    }

    method EnterTried(id: int)
      requires Shape() && id >= 0 && id in mapInfo
      modifies this`mapInfo, this`nTried, vvTried.cells
      ensures TheBook() == Promoted(old(TheBook()), id, h)
    {
      vvTried.Set(h.TriedSlot(mapInfo[id].addr), id);
      nTried := nTried + 1;
      mapInfo := mapInfo[id := mapInfo[id].(fInTried := true)];
    }

    /** Moves an entry from the new table to its place in the tried table. */
    method MakeTried(id: int)
      requires Shape() && MakeTriedReady(TheBook(), id, h, discriminatePorts)
      modifies this`mapInfo, this`mapAddr, this`vRandom, this`nNew, this`nTried, vvNew.cells, vvTried.cells
      ensures TheBook() == MadeTried(old(TheBook()), id, old(mapInfo)[id].addr, h, discriminatePorts)
      ensures old(Consistent(TheBook(), h, discriminatePorts) && !mapInfo[id].fInTried) ==>
                MovedToTried(old(TheBook()), TheBook(), id, h, discriminatePorts)
    {
      hide MovedToTried, Consistent, Delisted, Demoted, Promoted, DemoteReady;
      if Consistent(TheBook(), h, discriminatePorts) && !mapInfo[id].fInTried {
        MakeTriedMoves(TheBook(), h, discriminatePorts, id);
      }
      var s := h.TriedSlot(mapInfo[id].addr);
      Delist(id);
      var at := vvTried.Get(s);
      if at != -1 {
        Demote(s);
      }
      EnterTried(id);
    }

    /** The source's search for a bucket that holds `id`, starting at a random one. */
    method FindBucket(id: int, start: nat) returns (r: int)
      requires Shape() && id >= 0 && id in mapInfo && start < NEW_BUCKET_COUNT
      ensures -1 <= r < NEW_BUCKET_COUNT
      ensures r >= 0 ==> h.NewSlot(mapInfo[id].addr, r) in SlotsOf(vvNew.Map(), id)
      ensures r == -1 ==> forall k :: 0 <= k < NEW_BUCKET_COUNT ==> h.NewSlot(mapInfo[id].addr, k) !in SlotsOf(vvNew.Map(), id)
    {
      var n := 0;
      while n < NEW_BUCKET_COUNT
        invariant 0 <= n <= NEW_BUCKET_COUNT
        invariant forall k :: 0 <= k < n ==>
            h.NewSlot(mapInfo[id].addr, Around(k, start)) !in SlotsOf(vvNew.Map(), id)
      {
        var b := Around(n, start);
        var at := vvNew.Get(h.NewSlot(mapInfo[id].addr, b));
        if at == id {
          return b;
        }
        n := n + 1;
      }
      forall k | 0 <= k < NEW_BUCKET_COUNT
        ensures h.NewSlot(mapInfo[id].addr, k) !in SlotsOf(vvNew.Map(), id)
      {
        AroundCovers(k, start);
        assert h.NewSlot(mapInfo[id].addr, Around((k + NEW_BUCKET_COUNT - start) % NEW_BUCKET_COUNT, start))
               !in SlotsOf(vvNew.Map(), id);
      }
      return -1;
    }

    /**
     Marks an address as good.  If exactly this address and port is known, it ends up in the tried
     table with fresh statistics; at most one other address is forgotten.  The exit for an entry
     that is in no bucket is not taken.
     */
    method Good(a: Service, time: int)
      requires Valid()
      modifies this, vvNew.cells, vvTried.cells
      ensures Valid() && KeepsAllButOne(old(mapAddr), mapAddr) && nLastGood == time
      ensures !old(KnownExactly(TheBook(), a, discriminatePorts)) ==> TheBook() == old(TheBook())
      ensures old(KnownExactly(TheBook(), a, discriminatePorts)) ==>
                var id := old(mapAddr)[Normal(a, discriminatePorts)];
                && id in mapInfo && mapInfo[id].fInTried && mapInfo[id].addr == a
                && mapInfo[id].nLastSuccess == time && mapInfo[id].nLastTry == time && mapInfo[id].nAttempts == 0
                && TheBook() == WithGood(old(TheBook()), id, time, h, discriminatePorts)
                && var b := Succeeded(old(TheBook()), id, time);
                   if b.info[id].fInTried then TheBook() == b
                   else MovedToTried(b, TheBook(), id, h, discriminatePorts)
    {
      hide MadeTried, MovedToTried;
      nLastGood := time;
      assert KeepsAllBut(mapAddr, mapAddr, Service(0, 0));
      var found := Find(a);
      if found.None? || mapInfo[found.value].addr != a {
        return;
      }
      var id := found.value;
      UpdateStats(id, mapInfo[id].(nLastSuccess := time, nLastTry := time, nAttempts := 0));
      if !mapInfo[id].fInTried {
        MoveToTried(id);
      }
    }

    /** The second half of `Good_`: a new entry is found in some bucket and moved to the tried table. */
    method MoveToTried(id: int)
      requires Valid() && id in mapInfo && !mapInfo[id].fInTried
      modifies this`mapInfo, this`mapAddr, this`vRandom, this`nNew, this`nTried, vvNew.cells, vvTried.cells
      ensures Valid() && id in mapInfo && mapInfo[id].fInTried && SameStats(old(mapInfo)[id], mapInfo[id])
      ensures KeepsAllButOne(old(mapAddr), mapAddr)
      ensures TheBook() == MadeTried(old(TheBook()), id, old(mapInfo)[id].addr, h, discriminatePorts)
      ensures MovedToTried(old(TheBook()), TheBook(), id, h, discriminatePorts)
    {
      hide MovedToTried, Consistent, MadeTried, MakeTriedReady, KeepsAllButOne, SameStats, SlotsOf;
      ChosenIsState(TheBook(), h, discriminatePorts, id);
      MakeTriedIsReady(TheBook(), h, discriminatePorts, id);
      var rnd: nat :| rnd < NEW_BUCKET_COUNT;
      var bucket := FindBucket(id, rnd);
      assert bucket != -1 by {
        HasBucket(TheBook(), h, discriminatePorts, id);
      }
      if bucket == -1 {
        return;
      }
      MakeTriedInv(TheBook(), h, discriminatePorts, id);
      MakeTriedMoves(TheBook(), h, discriminatePorts, id);
      MakeTried(id);
    }

    /** Changes statistics of an entry, but none of the fields that the indexes depend on. */
    method UpdateStats(id: int, x: Info)
      requires Valid() && id in mapInfo && x.addr == mapInfo[id].addr && x.nRefCount == mapInfo[id].nRefCount
      requires x.fInTried == mapInfo[id].fInTried && x.nRandomPos == mapInfo[id].nRandomPos
      modifies this`mapInfo
      ensures Valid() && mapInfo == old(mapInfo)[id := x]
    {
      StatsInv(TheBook(), h, discriminatePorts, {}, 0, id, x);
      ghost var b := TheBook();
      mapInfo := mapInfo[id := x];
      assert TheBook() == b.(info := b.info[id := x]);
    }

    /**
     Adds an address heard of from `source`.  The result says that it was unknown and routable.  It
     is then stored exactly if its slot admits it; a known address stays known, and at most one
     other address is forgotten. `draw` is the random number of the stochastic test.
     */
    method Add(a: Address, source: NetAddr, penalty: int, now: int, draw: nat) returns (added: bool)
      requires Valid()
      modifies this, vvNew.cells
      ensures Valid() && KeepsAllButOne(old(mapAddr), mapAddr)
      ensures added <==> isRoutable(a.addr) && Normal(a.addr, discriminatePorts) !in old(mapAddr)
      ensures !isRoutable(a.addr) ==> TheBook() == old(TheBook())
      ensures isRoutable(a.addr) && Normal(a.addr, discriminatePorts) in old(mapAddr) ==>
                var id := old(mapAddr)[Normal(a.addr, discriminatePorts)];
                && id in mapInfo && Normal(a.addr, discriminatePorts) in mapAddr
                && SameStats(Refreshed(old(mapInfo)[id], a, Penalty(a, source, penalty), now), mapInfo[id])
      ensures added ==> (Normal(a.addr, discriminatePorts) in mapAddr <==>
                         Admits(old(TheBook()), h.NewSlot(a.addr, h.NewBucket(a.addr, source)), 0, now))
      ensures added && Normal(a.addr, discriminatePorts) in mapAddr ==>
                var id := mapAddr[Normal(a.addr, discriminatePorts)];
                && id in mapInfo && SameStats(NewInfo(Aged(a, Penalty(a, source, penalty)), source), mapInfo[id])
      ensures added ==>
                TheBook() == WithUnknown(old(TheBook()), a, source, Penalty(a, source, penalty), h, now, discriminatePorts)
                && NewEntry(TheBook(), a, source, if a.addr.ip == source then 0 else penalty, discriminatePorts)
                && Learned(old(TheBook()), TheBook(), NewInfo(Aged(a, Penalty(a, source, penalty)), source),
                           h.NewSlot(a.addr, h.NewBucket(a.addr, source)), now, discriminatePorts)
      ensures isRoutable(a.addr) && !added ==>
                var id := old(mapAddr)[Normal(a.addr, discriminatePorts)];
                var b := WithRefreshed(old(TheBook()), id, a, Penalty(a, source, penalty), now);
                if id in b.info && Extends(b.info[id], a, draw) then
                  PlacedAt(b, TheBook(), id, h.NewSlot(b.info[id].addr, h.NewBucket(b.info[id].addr, source)), now,
                           discriminatePorts)
                  && TheBook() == WithKnown(b, id, source, h, now, discriminatePorts)
                else TheBook() == b
    {
      hide Consistent, Inv, Learned, NewEntry, PlacedAt, Refreshed, IsTerrible, Admits, KeepsAllButOne, SameStats;
      KeepsSelf(mapAddr);
      if !isRoutable(a.addr) {
        return false;
      }
      var penalty' := Penalty(a, source, penalty);
      var found := Find(a.addr);
      if found.Some? {
        added := false;
        HearAgain(found.value, a, source, penalty', now, draw);
        KnownAddr(TheBook(), h, discriminatePorts, found.value);
      } else {
        added := true;
        PlaceUnknown(a, source, penalty', now);
      }
    }

    /** A known address is heard of again. */
    method HearAgain(id: int, a: Address, source: NetAddr, penalty: int, now: int, draw: nat)
      requires Valid() && id in mapInfo
      modifies this`mapInfo, this`mapAddr, this`vRandom, this`nNew, vvNew.cells
      ensures Valid() && KeepsAllButOne(old(mapAddr), mapAddr)
      ensures id in mapInfo && SameStats(Refreshed(old(mapInfo)[id], a, penalty, now), mapInfo[id])
      ensures mapInfo[id].addr == old(mapInfo)[id].addr
      ensures var b := WithRefreshed(old(TheBook()), id, a, penalty, now);
              if id in b.info && Extends(b.info[id], a, draw) then
                PlacedAt(b, TheBook(), id, h.NewSlot(b.info[id].addr, h.NewBucket(b.info[id].addr, source)), now,
                         discriminatePorts)
                && TheBook() == WithKnown(b, id, source, h, now, discriminatePorts)
              else TheBook() == b
    {
      hide Consistent, Inv, PlacedAt, Refreshed, IsTerrible, Placed, KeepsAllButOne, SameStats;
      KeepsSelf(mapAddr);
      ghost var b := WithRefreshed(TheBook(), id, a, penalty, now);
      var more := Refresh(id, a, penalty, now, draw);
      assert TheBook() == b;
      SameStatsSelf(mapInfo[id]);
      RefreshedAddr(old(mapInfo)[id], a, penalty, now);
      if more {
        PlaceKnown(id, source, now);
      }
      SameStatsAddr(Refreshed(old(mapInfo)[id], a, penalty, now), mapInfo[id]);
    }

    /** Updates time and services of a known entry, and decides whether to give it another slot. */
    method Refresh(id: int, a: Address, penalty: int, now: int, draw: nat) returns (more: bool)
      requires Valid() && id in mapInfo
      modifies this`mapInfo
      ensures Valid() && mapInfo == old(mapInfo)[id := Refreshed(old(mapInfo)[id], a, penalty, now)]
      ensures more <==> Extends(mapInfo[id], a, draw)
      ensures more ==> mapInfo[id].nRefCount < NEW_BUCKETS_PER_ADDRESS
    {
      hide Consistent, BitOr;
      ReferenceBound(TheBook(), h, discriminatePorts, id);
      var x := mapInfo[id];
      var online := now - a.nTime < 24 * 60 * 60;
      var interval := if online then 60 * 60 else 24 * 60 * 60;
      if a.nTime != 0 && (x.nTime == 0 || x.nTime < a.nTime - interval - penalty) {
        x := x.(nTime := MaxInt(0, a.nTime - penalty));
      }
      x := x.(nServices := BitOr(x.nServices, a.nServices));
      UpdateStats(id, x);
      if a.nTime == 0 || (x.nTime != 0 && a.nTime <= x.nTime) {
        return false;
      }
      if x.fInTried || x.nRefCount == NEW_BUCKETS_PER_ADDRESS {
        return false;
      }
      var factor, n := 1, 0;
      assert Pow2(0) == 1;
      while n < x.nRefCount
        invariant 0 <= n <= x.nRefCount && factor == Pow2(n)
      {
        assert Pow2(n + 1) == 2 * Pow2(n);
        factor := factor * 2;
        n := n + 1;
      }
      return !(factor > 1 && draw % factor != 0);
    }

    method PlaceKnown(id: int, source: NetAddr, now: int)
      requires Valid() && id in mapInfo && !mapInfo[id].fInTried && mapInfo[id].nRefCount < NEW_BUCKETS_PER_ADDRESS
      modifies this`mapInfo, this`mapAddr, this`vRandom, this`nNew, vvNew.cells
      ensures Valid() && KeepsAllButOne(old(mapAddr), mapAddr)
      ensures id in mapInfo && SameStats(old(mapInfo)[id], mapInfo[id])
      ensures TheBook() == WithKnown(old(TheBook()), id, source, h, now, discriminatePorts)
      ensures PlacedAt(old(TheBook()), TheBook(), id,
                       h.NewSlot(old(mapInfo)[id].addr, h.NewBucket(old(mapInfo)[id].addr, source)), now, discriminatePorts)
    {
      hide Consistent, Placed, PlaceReady, KeepsAllButOne, SameStats, Hashing.NewSlot, Hashing.NewBucket;
      KnownOutcome(TheBook(), h, discriminatePorts, id, source, now);
      var s := h.NewSlot(mapInfo[id].addr, h.NewBucket(mapInfo[id].addr, source));
      PlaceMoves(TheBook(), id, s, now, discriminatePorts);
      Place(id, s, now);
    }

    method PlaceUnknown(a: Address, source: NetAddr, penalty: int, now: int)
      requires Valid() && Normal(a.addr, discriminatePorts) !in mapAddr
      modifies this`mapInfo, this`mapAddr, this`vRandom, this`nIdCount, this`nNew, vvNew.cells
      ensures Valid() && KeepsAllButOne(old(mapAddr), mapAddr)
      ensures Normal(a.addr, discriminatePorts) in mapAddr <==>
                Admits(old(TheBook()), h.NewSlot(a.addr, h.NewBucket(a.addr, source)), 0, now)
      ensures Normal(a.addr, discriminatePorts) in mapAddr ==>
                var id := mapAddr[Normal(a.addr, discriminatePorts)];
                id in mapInfo && SameStats(NewInfo(Aged(a, penalty), source), mapInfo[id])
      ensures TheBook() == WithUnknown(old(TheBook()), a, source, penalty, h, now, discriminatePorts)
      ensures Learned(old(TheBook()), TheBook(), NewInfo(Aged(a, penalty), source),
                      h.NewSlot(a.addr, h.NewBucket(a.addr, source)), now, discriminatePorts)
      ensures NewEntry(TheBook(), a, source, penalty, discriminatePorts)
    {
      hide Learned, NewEntry, IsTerrible;
      var s := h.NewSlot(a.addr, h.NewBucket(a.addr, source));
      ghost var b := TheBook();
      var id := Create(Aged(a, penalty), source);
      nNew := nNew + 1;
      ghost var x := NewInfo(Aged(a, penalty), source);
      assert TheBook() == Listed(b, x, discriminatePorts);
      ListInv(b, h, discriminatePorts, x);
      PlaceInv(TheBook(), h, discriminatePorts, id, s, now);
      Place(id, s, now);
      UnknownOutcome(b, h, discriminatePorts, x, s, now);
      UnknownMoves(b, h, discriminatePorts, x, s, now);
      LearnedEntry(b, TheBook(), a, source, penalty, s, now, discriminatePorts);
    }

    /** Puts entry `id` into slot `s` if the slot admits it, and drops it if it then has no slot at all. */
    method Place(id: int, s: Slot, now: int)
      requires Shape() && PlaceReady(TheBook(), id, s)
      modifies this`mapInfo, this`mapAddr, this`vRandom, this`nNew, vvNew.cells
      ensures TheBook() == Placed(old(TheBook()), id, s, now, discriminatePorts)
    {
      var at := vvNew.Get(s);
      if at != id {
        var insert := at == -1;
        if !insert {
          insert := IsTerrible(mapInfo[at], now) || (mapInfo[at].nRefCount > 1 && mapInfo[id].nRefCount == 0);
        }
        if insert {
          ClearedOthers(TheBook(), s, discriminatePorts);
          ClearNew(s);
          GainSlot(s, id);
        } else if mapInfo[id].nRefCount == 0 {
          Delete(id);
        }
      }
    }

    /** Notes a connection attempt; failures are counted once per success of any address. */
    method Attempt(a: Service, countFailure: bool, time: int)
      requires Valid()
      modifies this`mapInfo
      ensures Valid()
      ensures !KnownExactly(old(TheBook()), a, discriminatePorts) ==> mapInfo == old(mapInfo)
      ensures KnownExactly(old(TheBook()), a, discriminatePorts) ==>
                var id := mapAddr[Normal(a, discriminatePorts)];
                var x := old(mapInfo)[id];
                var counts := countFailure && x.nLastCountAttempt < nLastGood;
                mapInfo == old(mapInfo)[id := x.(nLastTry := time,
                                                 nLastCountAttempt := if counts then time else x.nLastCountAttempt,
                                                 nAttempts := x.nAttempts + if counts then 1 else 0)]
    {
      hide Consistent, Inv;
      var found := Find(a);
      if found.Some? && mapInfo[found.value].addr == a {
        UpdateStats(found.value, Attempted(mapInfo[found.value], countFailure, time, nLastGood));
      }
    }

    method Connected(a: Service, time: int)
      requires Valid()
      modifies this`mapInfo
      ensures Valid()
      ensures !KnownExactly(old(TheBook()), a, discriminatePorts) ==> mapInfo == old(mapInfo)
      ensures KnownExactly(old(TheBook()), a, discriminatePorts) ==>
                var id := mapAddr[Normal(a, discriminatePorts)];
                var x := old(mapInfo)[id];
                mapInfo == if time > x.nTime + 1200 then old(mapInfo)[id := x.(nTime := time)] else old(mapInfo)
    {
      var found := Find(a);
      if found.Some? && mapInfo[found.value].addr == a {
        UpdateStats(found.value, StillConnected(mapInfo[found.value], time));
      }
    }

    /**
     A random selection of addresses that are not terrible, each at most once and at most 23% of
     all or 2500.  If the quota is not reached, every such address is in it.
     */
    method GetAddr(now: int) returns (ids: seq<int>)
      requires Valid()
      modifies this`mapInfo, this`vRandom
      ensures Valid() && mapAddr == old(mapAddr)
      ensures |ids| <= 2500 && 100 * |ids| <= 23 * |vRandom| && |vRandom| == |old(vRandom)|
      ensures forall i, j :: 0 <= i < j < |ids| ==> ids[i] != ids[j]
      ensures forall i :: 0 <= i < |ids| ==> ids[i] in mapInfo && !IsTerrible(mapInfo[ids[i]], now)
      ensures |ids| < 2500 && 100 * (|ids| + 1) <= 23 * |vRandom| ==>
                forall id :: id in mapInfo && !IsTerrible(mapInfo[id], now) ==> id in ids
    {
      var quota := Quota(|vRandom|);
      ids := [];
      var n := 0;
      while n < |vRandom| && |ids| < quota
        invariant Valid() && 0 <= n <= |vRandom| == |old(vRandom)| && |ids| <= quota
        invariant Picked(TheBook(), ids, n, now)
      {
        ids := PickNext(ids, n, now);
        n := n + 1;
      }
      PickedAll(TheBook(), ids, n, now);
    }

    /** Every sequence of calls keeps the manager consistent. */
    method Run(requests: seq<Request>)
      requires Valid()
      modifies this, vvNew.cells, vvTried.cells
      ensures Valid()
    {
      var i := 0;
      while i < |requests|
        invariant 0 <= i <= |requests| && Valid()
      {
        match requests[i] {
          case Adding(a, source, penalty, now, draw) => var _ := Add(a, source, penalty, now, draw);
          case Succeeding(s, time) => Good(s, time);
          case Attempting(s, countFailure, time) => Attempt(s, countFailure, time);
          case Connecting(s, time) => Connected(s, time);
          case Selecting(now) => var _ := GetAddr(now);
        }
        i := i + 1;
      }
    }

    /** Swaps a random one of the remaining ids to place `n`, and selects it unless it is terrible. */
    method PickNext(ids: seq<int>, n: nat, now: int) returns (more: seq<int>)
      requires Valid() && n < |vRandom| && Picked(TheBook(), ids, n, now)
      modifies this`mapInfo, this`vRandom
      ensures Valid() && |vRandom| == |old(vRandom)| && Picked(TheBook(), more, n + 1, now)
      ensures |more| <= |ids| + 1
    {
      hide Consistent, Picked, IsTerrible, Swapped;
      var r: nat :| r < |vRandom| - n;
      PickedTurn(TheBook(), h, discriminatePorts, ids, n, r + n, now);
      SwapRandom(n, r + n);
      more := if IsTerrible(mapInfo[vRandom[n]], now) then ids else ids + [vRandom[n]];
    }

    // -------------------------------------------------------------------------------------
    // Saving and loading.
    // -------------------------------------------------------------------------------------

    /** The records of one pass over the entries in order of id, and their numbers. */
    method WriteRecords(tried: bool) returns (rs: seq<Record>, numbers: map<int, int>)
      requires Valid()
      ensures rs == RecordsBelow(TheBook(), nIdCount, tried)
      ensures forall id :: id in mapInfo ==> id in numbers && numbers[id] == Rank(TheBook(), id, tried)
    {
      hide Consistent, IdsBelow, RecordsBelow, Rank;
      ghost var b := TheBook();
      CountersOf(b, h, discriminatePorts);
      rs, numbers := [], map[];
      var id := 0;
      RecordsStep(b, 0, tried);
      while id < nIdCount
        invariant 0 <= id <= nIdCount && rs == RecordsBelow(b, id, tried)
        invariant forall i :: 0 <= i < id && i in mapInfo ==> i in numbers && numbers[i] == Rank(b, i, tried)
      {
        RecordsStep(b, id, tried);
        if id in mapInfo {
          RankOf(b, h, discriminatePorts, id, tried);
          numbers := numbers[id := |rs|];
          if Chosen(mapInfo[id], tried) {
            assert |rs| != if tried then nTried else nNew;
            rs := rs + [RecordOf(mapInfo[id])];
          }
        }
        id := id + 1;
      }
      forall i | i in mapInfo
        ensures 0 <= i < nIdCount
      {
        ChosenIsState(b, h, discriminatePorts, i);
      }
    }

    /** The numbers of the entries in one bucket of the new table, by position. */
    method WriteBucket(bucket: nat, numbers: map<int, int>) returns (xs: seq<int>)
      requires Valid() && bucket < NEW_BUCKET_COUNT
      requires forall id :: id in mapInfo ==> id in numbers && numbers[id] == Rank(TheBook(), id, false)
      ensures xs == Indexes(TheBook(), bucket, BUCKET_SIZE)
    {
      hide Rank, Consistent;
      xs := [];
      var p := 0;
      while p < BUCKET_SIZE
        invariant 0 <= p <= BUCKET_SIZE && xs == Indexes(TheBook(), bucket, p)
      {
        var id := vvNew.Get(Slot(bucket, p));
        if id != -1 {
          SlotKnown(TheBook(), h, discriminatePorts, Slot(bucket, p));
          xs := xs + [numbers[id]];
        }
        p := p + 1;
      }
    }

    method Serialize() returns (d: Dump)
      requires Valid()
      ensures nIdCount >= 0 && d == DumpOf(TheBook(), h)
    {
      hide Consistent, RecordsBelow, Indexes, Rank;
      CountersOf(TheBook(), h, discriminatePorts);
      var news, numbers := WriteRecords(false);
      var tried, _ := WriteRecords(true);
      var slots: seq<seq<int>> := [];
      var bucket := 0;
      while bucket < NEW_BUCKET_COUNT
        invariant 0 <= bucket <= NEW_BUCKET_COUNT && slots == BucketsBelow(TheBook(), bucket)
      {
        var xs := WriteBucket(bucket, numbers);
        slots := slots + [xs];
        bucket := bucket + 1;
      }
      d := Dump(1, h, nNew, nTried, NEW_BUCKET_COUNT, news, tried, slots);
    }

    method Clear(key: Hashing)
      requires Shape()
      modifies this, vvNew.cells, vvTried.cells
      ensures TheBook() == Empty() && h == key && nLastGood == 1
    {
      vRandom, h := [], key;
      vvNew.Clear();
      vvTried.Clear();
      nIdCount, nTried, nNew, nLastGood := 0, 0, 0, 1;
      mapInfo, mapAddr := map[], map[];
    }

    method ReadNewsOne(n: nat, r: Record, usable: bool)
      requires Shape()
      modifies this`mapInfo, this`mapAddr, this`vRandom, vvNew.cells
      ensures TheBook() == LoadNew(old(TheBook()), n, r, h, usable)
    {
      hide Linked;
      mapInfo := mapInfo[n := InfoOf(r, |vRandom|, false)];
      mapAddr := mapAddr[r.addr := n];
      vRandom := vRandom + [n];
      if !usable {
        var bucket := h.NewBucket(r.addr, r.source);
        var s := h.NewSlot(r.addr, bucket);
        var taken := vvNew.Get(s);
        if taken == -1 {
          GainSlot(s, n);
        }
      }
    }

    /** Lists the records of the new table under the numbers 0, 1, ... */
    method ReadNews(d: Dump)
      requires Shape() && Complete(d) && h == d.h && Numbered(TheBook(), 0)
      modifies this`mapInfo, this`mapAddr, this`vRandom, vvNew.cells
      ensures TheBook() == LoadNews(old(TheBook()), d.news, |d.news|, d.h, Usable(d))
    {
      hide Numbered, LoadNew;
      ghost var b := TheBook();
      var n := 0;
      while n < d.nNew
        invariant 0 <= n <= d.nNew && TheBook() == LoadNews(b, d.news, n, d.h, Usable(d))
      {
        ReadNewsOne(n, d.news[n], d.version == 1 && d.buckets == NEW_BUCKET_COUNT);
        n := n + 1;
      }
    }

    /** Lists the records of the tried table, except those whose place is taken. */
    method ReadTried(d: Dump)
      requires Shape() && Complete(d) && h == d.h && nIdCount >= 0 && Numbered(TheBook(), nIdCount)
      modifies this`mapInfo, this`mapAddr, this`vRandom, this`nIdCount, this`nTried, vvTried.cells
      ensures TheBook() == LoadTried(old(TheBook()), d.tried, |d.tried|, d.h)
      ensures old(nIdCount) <= nIdCount <= old(nIdCount) + d.nTried && Numbered(TheBook(), nIdCount)
    {
      hide Numbered, LoadTriedOne;
      ghost var b := TheBook();
      var lost, n := 0, 0;
      while n < d.nTried
        invariant 0 <= n <= d.nTried && 0 <= b.nextId <= nIdCount <= b.nextId + n && nTried == b.nTried
        invariant TheBook().(nTried := nTried - lost) == LoadTried(b, d.tried, n, d.h)
        invariant Numbered(TheBook(), nIdCount)
      {
        TriedNumbered(TheBook(), d.tried[n], d.h);
        LostLater(TheBook(), d.tried[n], d.h, nTried - lost);
        ghost var c := LoadTriedOne(TheBook(), d.tried[n], d.h);
        var one := ReadTriedOne(d.tried[n]);
        SameNumbered(c, nIdCount, nTried);
        lost := lost + one;
        n := n + 1;
      }
      SameNumbered(TheBook(), nIdCount, nTried - lost);
      nTried := nTried - lost;
    }

    method ReadTriedOne(r: Record) returns (lost: int)
      requires Shape() && nIdCount >= 0
      modifies this`mapInfo, this`mapAddr, this`vRandom, this`nIdCount, vvTried.cells
      ensures TheBook().(nTried := nTried - lost) == LoadTriedOne(old(TheBook()), r, h)
      ensures lost == 0 || lost == 1
    {
      hide Hashing.TriedSlot;
      ghost var b := TheBook();
      TriedSlotInRange(h, r.addr);
      var s := h.TriedSlot(r.addr);
      var taken := vvTried.Get(s);
      if taken == -1 {
        mapInfo := mapInfo[nIdCount := InfoOf(r, |vRandom|, true)];
        vRandom := vRandom + [nIdCount];
        mapAddr := mapAddr[r.addr := nIdCount];
        vvTried.Set(s, nIdCount);
        nIdCount := nIdCount + 1;
        assert vvNew.Map() == b.news;
        lost := 0;
      } else {
        lost := 1;
      }
    }

    /** Puts entries back into the slots of one bucket. */
    method ReadBucket(bucket: nat, xs: seq<int>, usable: bool)
      requires Shape() && nIdCount >= 0 && nNew <= nIdCount && Numbered(TheBook(), nIdCount)
      requires usable ==> bucket < NEW_BUCKET_COUNT
      modifies this`mapInfo, vvNew.cells
      ensures TheBook() == LoadBucket(old(TheBook()), bucket, xs, |xs|, h, usable)
      ensures Numbered(TheBook(), nIdCount)
    {
      ghost var b := TheBook();
      var n := 0;
      while n < |xs|
        invariant 0 <= n <= |xs| && TheBook() == LoadBucket(b, bucket, xs, n, h, usable)
        invariant Numbered(TheBook(), nIdCount)
      {
        SlotNumbered(TheBook(), nIdCount, bucket, xs[n], h, usable);
        if 0 <= xs[n] < nNew {
          var s := h.NewSlot(mapInfo[xs[n]].addr, bucket);
          if usable {
            var taken := vvNew.Get(s);
            if taken == -1 && mapInfo[xs[n]].nRefCount < NEW_BUCKETS_PER_ADDRESS {
              GainSlot(s, xs[n]);
            }
          }
        }
        n := n + 1;
      }
    }

    method ReadBuckets(d: Dump)
      requires Shape() && Complete(d) && h == d.h
      requires nIdCount >= 0 && nNew <= nIdCount && Numbered(TheBook(), nIdCount)
      modifies this`mapInfo, vvNew.cells
      ensures TheBook() == LoadBuckets(old(TheBook()), d.slots, |d.slots|, d.h, Usable(d))
      ensures Numbered(TheBook(), nIdCount)
    {
      hide Numbered, LoadBucket;
      ghost var b := TheBook();
      var bucket := 0;
      while bucket < d.buckets
        invariant 0 <= bucket <= d.buckets && TheBook() == LoadBuckets(b, d.slots, bucket, d.h, Usable(d))
        invariant Numbered(TheBook(), nIdCount)
      {
        ReadBucket(bucket, d.slots[bucket], Usable(d));
        bucket := bucket + 1;
      }
    }

    /** Deletes the entries of the new table that ended up in no slot. */
    method Prune(n: nat)
      requires RandomOk(TheBook())
      modifies this`mapInfo, this`mapAddr, this`vRandom, this`nNew
      ensures TheBook() == Pruned(old(TheBook()), n, discriminatePorts)
    {
      hide RandomOk, Deleted;
      ghost var b := TheBook();
      var id := 0;
      while id < n
        invariant 0 <= id <= n && TheBook() == Pruned(b, id, discriminatePorts)
      {
        PrunedRandom(b, id, discriminatePorts);
        if id in mapInfo && !mapInfo[id].fInTried && mapInfo[id].nRefCount == 0 {
          Delete(id);
        }
        id := id + 1;
      }
    }

    /** Loads a stream; refused, after the old contents are gone, if it announces too many entries. */
    method Unserialize(d: Dump) returns (ok: bool)
      requires Shape() && Complete(d)
      modifies this, vvNew.cells, vvTried.cells
      ensures h == d.h && nLastGood == 1 && (ok <==> InLimits(d))
      ensures TheBook() == if ok then Loaded(d, discriminatePorts) else Empty().(nNew := d.nNew, nTried := d.nTried)
      ensures ok ==> (Consistent(TheBook(), h, discriminatePorts)
                      <==> AllNormal(Entered(d), discriminatePorts) && AddrLoad.OnlyPrunedRepeat(Entered(d)))
    {
      hide Numbered, LoadNews, LoadTried, LoadBuckets, Pruned, RandomOk;
      Clear(d.h);
      nNew, nTried := d.nNew, d.nTried;
      if nNew > NEW_BUCKET_COUNT * BUCKET_SIZE {
        return false;
      }
      if nTried > TRIED_BUCKET_COUNT * BUCKET_SIZE {
        return false;
      }
      EmptyNumbered(d.nNew, d.nTried);
      NewsNumbered(TheBook(), d.news, |d.news|, d.h, Usable(d));
      ReadNews(d);
      StillNumbered(TheBook(), d.nNew);
      nIdCount := nNew;
      ReadTried(d);
      ReadBuckets(d);
      NumberedRandom(TheBook(), nIdCount);
      Prune(d.nNew + d.nTried);
      AddrLoad.LoadedIff(d, discriminatePorts);
      ok := true;
    }
  }

  /** A record is numbered by those before it, and there is still room for it in the announced number. */
  lemma RankOf(b: Book, h: Hashing, ports: bool, id: nat, tried: bool)
    requires Consistent(b, h, ports) && id in b.info && id < b.nextId
    ensures Rank(b, id, tried) == |RecordsBelow(b, id, tried)|
    ensures Chosen(b.info[id], tried) ==> |RecordsBelow(b, id, tried)| < if tried then b.nTried else b.nNew
  {
    hide Consistent, IdsBelow, RecordsBelow;
    RecordCounts(b, h, ports);
    RecordsLength(b, id, tried);
    if Chosen(b.info[id], tried) {
      IdAtRank(b, b.nextId, tried, id);
      RecordsLength(b, b.nextId, tried);
    }
  }

  lemma RecordsLength(b: Book, n: nat, tried: bool)
    ensures |RecordsBelow(b, n, tried)| == |IdsBelow(b, n, tried)|
  {
  }

  lemma ReferenceBound(b: Book, h: Hashing, ports: bool, id: int)
    requires Consistent(b, h, ports) && id in b.info
    ensures 0 <= b.info[id].nRefCount <= NEW_BUCKETS_PER_ADDRESS
  {
    if b.info[id].fInTried {
      assert TriedFound(b, h, id);
    } else {
      assert RefCounted(b, {}, id);
    }
  }

  lemma TriedSlotInRange(h: Hashing, a: Service)
    ensures h.TriedSlot(a).bucket < TRIED_BUCKET_COUNT && h.TriedSlot(a).pos < BUCKET_SIZE
  {
  }

  lemma LastKnown(b: Book)
    requires RandomOk(b) && |b.random| > 0
    ensures b.random[|b.random| - 1] in b.info
  {
    assert IdAtOk(b, |b.random| - 1);
  }

  lemma UnlinkedKeeps(b: Book, s: Slot, id: int)
    ensures id in Unlinked(b, s).info <==> id in b.info
  {
  }

  lemma SlotKnown(b: Book, h: Hashing, ports: bool, s: Slot)
    requires Consistent(b, h, ports) && s in b.news
    ensures b.news[s] in b.info
  {
  }

  /** The count of lost tried entries is subtracted once at the end. */
  lemma LostLater(b: Book, r: Record, h: Hashing, n: int)
    ensures LoadTriedOne(b.(nTried := n), r, h) == LoadTriedOne(b, r, h).(nTried := LoadTriedOne(b, r, h).nTried - b.nTried + n)
  {
  }

  lemma EmptyNumbered(n: int, t: int)
    ensures Numbered(Empty().(nNew := n, nTried := t), 0)
  {
  }

  lemma StillNumbered(b: Book, k: nat)
    requires Numbered(b, k)
    ensures Numbered(b.(nextId := k), k)
  {
  }

  lemma SameNumbered(b: Book, k: nat, n: int)
    requires Numbered(b, k)
    ensures Numbered(b.(nTried := n), k)
  {
  }

  /** A failed attempt counts once per success of any address. */
  function Attempted(x: Info, countFailure: bool, time: int, lastGood: int): Info {
    var y := x.(nLastTry := time);
    if countFailure && x.nLastCountAttempt < lastGood
    then y.(nLastCountAttempt := time, nAttempts := x.nAttempts + 1) else y
  }

  function StillConnected(x: Info, time: int): Info {
    if time - x.nTime > 20 * 60 then x.(nTime := time) else x
  }

  /** The book after a success: statistics, and a move to the tried table unless already there. */
  function WithGood(b: Book, id: int, time: int, h: Hashing, ports: bool): Book {
    if id !in b.info then b
    else
      var c := Succeeded(b, id, time);
      if c.info[id].fInTried then c else MadeTried(c, id, c.info[id].addr, h, ports)
  }

  /** The statistics of a successful connection. */
  function Succeeded(b: Book, id: int, time: int): Book
    requires id in b.info
  {
    b.(info := b.info[id := b.info[id].(nLastSuccess := time, nLastTry := time, nAttempts := 0)])
  }

  /** A source's announcement of itself carries no penalty. */
  function Penalty(a: Address, source: NetAddr, penalty: int): int {
    if a.addr.ip == source then 0 else penalty
  }

  /** The announced time, put back by the penalty. */
  function Aged(a: Address, penalty: int): Address {
    a.(nTime := MaxInt(0, a.nTime - penalty))
  }

  /** A known entry after it is heard of again: time if stale enough, and all services. */
  function Refreshed(x: Info, a: Address, penalty: int, now: int): Info {
    var interval := if now - a.nTime < 24 * 60 * 60 then 60 * 60 else 24 * 60 * 60;
    var stale := a.nTime != 0 && (x.nTime == 0 || x.nTime < a.nTime - interval - penalty);
    x.(nTime := if stale then Aged(a, penalty).nTime else x.nTime, nServices := BitOr(x.nServices, a.nServices))
  }

  /** Whether a refreshed entry is offered another slot: it is newer information, and the draw allows it. */
  predicate Extends(x: Info, a: Address, draw: nat) {
    && a.nTime != 0 && (x.nTime == 0 || x.nTime < a.nTime)
    && !x.fInTried && x.nRefCount != NEW_BUCKETS_PER_ADDRESS
    && (x.nRefCount <= 0 || draw % Pow2(x.nRefCount) == 0)
  }

  function NewInfo(a: Address, source: NetAddr): Info {
    Info(a.addr, a.nServices, a.nTime, source, 0, 0, 0, 0, 0, false, -1)
  }

  lemma EmptyConsistent(h: Hashing, ports: bool)
    ensures Consistent(Book(map[], map[], [], map[], map[], 0, 0, 0), h, ports)
  {
    var b := Book(map[], map[], [], map[], map[], 0, 0, 0);
    assert NewIds(b) == {} && TriedIds(b) == {};
  }

  lemma KnownIds(b: Book, uncounted: int, id: int)
    requires CountsOk(b, uncounted) && id in b.info
    ensures 0 <= id < b.nextId
  {
  }

  /** The entry found for `a` has the same port as well. */
  ghost predicate KnownExactly(b: Book, a: Service, ports: bool) {
    var n := Normal(a, ports);
    n in b.addrs && b.addrs[n] in b.info && b.info[b.addrs[n]].addr == a
  }

  function Around(n: nat, start: nat): (b: nat)
    ensures b < NEW_BUCKET_COUNT
  {
    (n + start) % NEW_BUCKET_COUNT
  }

  lemma AroundCovers(k: nat, start: nat)
    requires k < NEW_BUCKET_COUNT && start < NEW_BUCKET_COUNT
    ensures Around((k + NEW_BUCKET_COUNT - start) % NEW_BUCKET_COUNT, start) == k
  {
  }

  /** A new entry of a consistent book is found in some bucket. */
  lemma HasBucket(b: Book, h: Hashing, ports: bool, id: int)
    requires Consistent(b, h, ports) && id in b.info && !b.info[id].fInTried
    ensures exists k :: 0 <= k < NEW_BUCKET_COUNT && h.NewSlot(b.info[id].addr, k) in SlotsOf(b.news, id)
  {
    assert RefCounted(b, {}, id);
    assert SlotsOf(b.news, id) != {};
    var s :| s in SlotsOf(b.news, id);
    assert NewPlaced(b, h, s);
  }

  // ---------------------------------------------------------------------------------------
  // Adding an address.
  // ---------------------------------------------------------------------------------------

  /** Whether slot `s` takes a new entry that has `refs` references. */
  predicate Admits(b: Book, s: Slot, refs: int, now: int) {
    s !in b.news || b.news[s] !in b.info || IsTerrible(b.info[b.news[s]], now) ||
    (b.info[b.news[s]].nRefCount > 1 && refs == 0)
  }

  function Placed(b: Book, id: int, s: Slot, now: int, ports: bool): Book {
    if id !in b.info || (s in b.news && b.news[s] == id) then b
    else if Admits(b, s, b.info[id].nRefCount, now) then Linked(Cleared(b, s, ports), id, s)
    else if b.info[id].nRefCount == 0 then Deleted(b, id, ports)
    else b
  }

  /** Everything `Place` reads is there. */
  ghost predicate PlaceReady(b: Book, id: int, s: Slot) {
    && id in b.info && id >= 0 && !b.info[id].fInTried && RandomOk(b)
    && s.bucket < NEW_BUCKET_COUNT && s.pos < BUCKET_SIZE
    && (s in b.news ==> b.news[s] in b.info && !b.info[b.news[s]].fInTried && b.info[b.news[s]].nRefCount > 0)
  }

  /** Placing an entry makes the book consistent again, and costs at most one other entry. */
  lemma PlaceInv(b: Book, h: Hashing, ports: bool, id: int, s: Slot, now: int)
    requires Inv(b, h, ports, {id}, 0) && id in b.info && !b.info[id].fInTried
    requires b.info[id].nRefCount < NEW_BUCKETS_PER_ADDRESS
    requires s.bucket < NEW_BUCKET_COUNT && s == h.NewSlot(b.info[id].addr, s.bucket)
    ensures PlaceReady(b, id, s)
    ensures var c := Placed(b, id, s, now, ports);
            && Consistent(c, h, ports) && KeepsAllButOne(b.addrs, c.addrs)
            && (id in c.info <==> b.info[id].nRefCount > 0 || Admits(b, s, 0, now))
            && (id in c.info ==> SameStats(b.info[id], c.info[id]))
  {
    KnownIds(b, 0, id);
    assert KeepsAllBut(b.addrs, b.addrs, Service(0, 0));
    assert RefCounted(b, {id}, id);
    if s in b.news {
      assert NewPlaced(b, h, s);
      assert RefCounted(b, {id}, b.news[s]);
      assert s in SlotsOf(b.news, b.news[s]);
    }
    if s in b.news && b.news[s] == id {
      TightenOne(b, h, ports, id);
    } else if Admits(b, s, b.info[id].nRefCount, now) {
      PlaceAdmitted(b, h, ports, id, s);
    } else if b.info[id].nRefCount == 0 {
      DeleteInv(b, h, ports, {id}, 0, id);
      assert {id} - {id} == {};
      DeletedOthers(b, id, ports);
      assert KeepsAllBut(b.addrs, Deleted(b, id, ports).addrs, Normal(b.info[id].addr, ports));
    } else {
      TightenOne(b, h, ports, id);
    }
  }

  lemma PlaceAdmitted(b: Book, h: Hashing, ports: bool, id: int, s: Slot)
    requires Inv(b, h, ports, {id}, 0) && id in b.info && !b.info[id].fInTried
    requires b.info[id].nRefCount < NEW_BUCKETS_PER_ADDRESS && (s in b.news ==> b.news[s] != id)
    requires s.bucket < NEW_BUCKET_COUNT && s == h.NewSlot(b.info[id].addr, s.bucket)
    ensures var c := Linked(Cleared(b, s, ports), id, s);
            && Consistent(c, h, ports) && KeepsAllButOne(b.addrs, c.addrs)
            && id in c.info && SameStats(b.info[id], c.info[id])
  {
    ClearInv(b, h, ports, {id}, 0, s);
    ClearedOthers(b, s, ports);
    LinkInv(Cleared(b, s, ports), h, ports, {id}, 0, id, s);
    assert {id} - {id} == {};
  }

  /** Why an occupied slot takes the entry: its occupant is terrible, or has other slots and the entry has none. */
  predicate GivesWay(y: Info, refs: int, now: int) {
    IsTerrible(y, now) || (y.nRefCount > 1 && refs == 0)
  }

  /**
   The whole effect of offering entry `id` slot `s`, up to the order of vRandom: it gets a slot that is
   free or gives way, and otherwise it is forgotten if it has no slot at all.
   */
  ghost predicate PlacedAt(b: Book, c: Book, id: int, s: Slot, now: int, ports: bool)
    requires id in b.info
  {
    if s in b.news && b.news[s] == id then c == b
    else if s !in b.news || b.news[s] !in b.info || GivesWay(b.info[b.news[s]], b.info[id].nRefCount, now) then
      && c.news == b.news[s := id] && c.tried == b.tried && c.nextId == b.nextId
      && id in c.info && SameEntry(b.info[id].(nRefCount := b.info[id].nRefCount + 1), c.info[id])
      && GivenUp(b, c, s, {id}, ports)
    else if b.info[id].nRefCount == 0 then
      && c.news == b.news && c.tried == b.tried && c.nextId == b.nextId
      && id !in c.info && c.addrs == b.addrs - {Normal(b.info[id].addr, ports)} && OthersSame(b, c, {id})
    else c == b
  }

  lemma PlaceMoves(b: Book, id: int, s: Slot, now: int, ports: bool)
    requires PlaceReady(b, id, s)
    ensures PlacedAt(b, Placed(b, id, s, now, ports), id, s, now, ports)
  {
    hide RandomOk, Cleared, Deleted, IsTerrible;
    ClearedIs(b, s, ports);
    DeletedOthers(b, id, ports);
    assert (b.news - {s})[s := id] == b.news[s := id];
  }

  /**
   The whole effect of learning the unknown address of `x`: it gets one slot, which is free or gives
   way, and is listed under a fresh id; otherwise everything stays as it was.
   */
  ghost predicate Learned(b: Book, c: Book, x: Info, s: Slot, now: int, ports: bool) {
    var a, id := Normal(x.addr, ports), b.nextId;
    && c.tried == b.tried && c.nextId == id + 1
    && if s !in b.news || b.news[s] !in b.info || GivesWay(b.info[b.news[s]], 0, now) then
         && c.news == b.news[s := id] && a in c.addrs && c.addrs[a] == id
         && id in c.info && SameEntry(x.(nRefCount := 1), c.info[id])
         && GivenUp(b, c.(addrs := c.addrs - {a}), s, {id}, ports)
       else c.news == b.news && c.addrs == b.addrs && OthersSame(b, c, {})
  }

  lemma KnownAddr(b: Book, h: Hashing, ports: bool, id: int)
    requires Consistent(b, h, ports) && id in b.info
    ensures Normal(b.info[id].addr, ports) in b.addrs
  {
    assert AddrKnown(b, ports, id);
  }

  lemma KeepsSelf(m: map<Service, int>)
    ensures KeepsAllButOne(m, m)
  {
    assert KeepsAllBut(m, m, Service(0, 0));
  }

  lemma RefreshedAddr(x: Info, a: Address, penalty: int, now: int)
    ensures Refreshed(x, a, penalty, now).addr == x.addr
  {
  }

  lemma SameStatsAddr(x: Info, y: Info)
    requires SameStats(x, y)
    ensures x.addr == y.addr
  {
  }

  lemma SameStatsSelf(x: Info)
    ensures SameStats(x, x)
  {
  }

  /** If the address is known, its entry holds what was announced, with the time put back, and one reference. */
  ghost predicate NewEntry(c: Book, a: Address, source: NetAddr, penalty: int, ports: bool) {
    var n := Normal(a.addr, ports);
    n in c.addrs ==>
      && c.addrs[n] in c.info
      && var x := c.info[c.addrs[n]];
         var time := if a.nTime > penalty then a.nTime - penalty else 0;
         x == Info(a.addr, a.nServices, time, source, 0, 0, 0, 0, 1, false, x.nRandomPos)
  }

  lemma LearnedEntry(b: Book, c: Book, a: Address, source: NetAddr, penalty: int, s: Slot, now: int, ports: bool)
    requires Learned(b, c, NewInfo(Aged(a, penalty), source), s, now, ports) && Normal(a.addr, ports) !in b.addrs
    ensures NewEntry(c, a, source, penalty, ports)
  {
    hide GivenUp, OthersSame, IsTerrible;
  }

  lemma UnknownMoves(b: Book, h: Hashing, ports: bool, x: Info, s: Slot, now: int)
    requires Consistent(b, h, ports) && Normal(x.addr, ports) !in b.addrs && x.nRefCount == 0 && !x.fInTried
    requires s.bucket < NEW_BUCKET_COUNT && s == h.NewSlot(x.addr, s.bucket)
    ensures Learned(b, Placed(Listed(b, x, ports), b.nextId, s, now, ports), x, s, now, ports)
  {
    hide Placed, Inv, IsTerrible;
    var l := Listed(b, x, ports);
    ListInv(b, h, ports, x);
    KnownSlots(b, h, ports, x, s);
    PlaceInv(l, h, ports, b.nextId, s, now);
    PlaceMoves(l, b.nextId, s, now, ports);
    ListedGivesUp(b, l, Placed(l, b.nextId, s, now, ports), x, s, ports);
  }

  /** Facts about a consistent book that an unknown address is new to. */
  lemma KnownSlots(b: Book, h: Hashing, ports: bool, x: Info, s: Slot)
    requires Consistent(b, h, ports) && Normal(x.addr, ports) !in b.addrs
    ensures b.nextId !in b.info && b.nextId >= 0 && forall j :: j in b.info ==> Normal(b.info[j].addr, ports) in b.addrs
    ensures s in b.news ==> b.news[s] in b.info
  {
    forall j | j in b.info
      ensures Normal(b.info[j].addr, ports) in b.addrs
    {
      assert AddrKnown(b, ports, j);
    }
  }

  lemma ListedGivesUp(b: Book, l: Book, c: Book, x: Info, s: Slot, ports: bool)
    requires l == Listed(b, x, ports) && b.nextId !in b.info && Normal(x.addr, ports) !in b.addrs
    requires forall j :: j in b.info ==> Normal(b.info[j].addr, ports) in b.addrs
    requires s in b.news ==> b.news[s] in b.info
    ensures GivenUp(l, c, s, {b.nextId}, ports) ==>
              GivenUp(b, c.(addrs := c.addrs - {Normal(x.addr, ports)}), s, {b.nextId}, ports)
              && Normal(x.addr, ports) in c.addrs && c.addrs[Normal(x.addr, ports)] == b.nextId
    ensures OthersSame(l, c, {b.nextId}) && b.nextId !in c.info ==> OthersSame(b, c, {})
    ensures l.addrs - {Normal(x.addr, ports)} == b.addrs
  {
    var a := Normal(x.addr, ports);
    assert l.addrs - {a} == b.addrs;
    if GivenUp(l, c, s, {b.nextId}, ports) && s in b.news {
      var y := b.news[s];
      assert (b.addrs[a := b.nextId] - {Normal(b.info[y].addr, ports)}) - {a} == b.addrs - {Normal(b.info[y].addr, ports)};
    }
  }

  /** An entry with references is not in transit. */
  lemma TightenOne(b: Book, h: Hashing, ports: bool, id: int)
    requires Inv(b, h, ports, {id}, 0) && id in b.info && b.info[id].nRefCount >= 1
    ensures Consistent(b, h, ports)
  {
    forall j | j in b.info && !b.info[j].fInTried
      ensures RefCounted(b, {}, j)
    {
      assert RefCounted(b, {id}, j);
    }
  }

  /** A created entry, already counted as new. */
  function Listed(b: Book, x: Info, ports: bool): Book {
    Created(b, x, ports).(nNew := b.nNew + 1)
  }

  /** The book after an unknown address is created and placed. */
  function WithUnknown(b: Book, a: Address, source: NetAddr, penalty: int, h: Hashing, now: int, ports: bool): Book {
    Placed(Listed(b, NewInfo(Aged(a, penalty), source), ports), b.nextId,
      h.NewSlot(a.addr, h.NewBucket(a.addr, source)), now, ports)
  }

  function WithRefreshed(b: Book, id: int, a: Address, penalty: int, now: int): Book {
    if id in b.info then b.(info := b.info[id := Refreshed(b.info[id], a, penalty, now)]) else b
  }

  /** The book after a known entry is offered another slot. */
  function WithKnown(b: Book, id: int, source: NetAddr, h: Hashing, now: int, ports: bool): Book {
    if id !in b.info then b
    else Placed(b, id, h.NewSlot(b.info[id].addr, h.NewBucket(b.info[id].addr, source)), now, ports)
  }

  /** Offering a known entry another slot keeps the book consistent and the entry known. */
  lemma KnownOutcome(b: Book, h: Hashing, ports: bool, id: int, source: NetAddr, now: int)
    requires Consistent(b, h, ports) && id in b.info && !b.info[id].fInTried
    requires b.info[id].nRefCount < NEW_BUCKETS_PER_ADDRESS
    ensures PlaceReady(b, id, h.NewSlot(b.info[id].addr, h.NewBucket(b.info[id].addr, source)))
    ensures var c := WithKnown(b, id, source, h, now, ports);
            && Consistent(c, h, ports) && KeepsAllButOne(b.addrs, c.addrs)
            && id in c.info && SameStats(b.info[id], c.info[id])
  {
    hide Consistent, Placed, Admits, Inv, PlaceReady, KeepsAllButOne, SameStats;
    LoosenOne(b, h, ports, id);
    ChosenIsState(b, h, ports, id);
    PlaceInv(b, h, ports, id, h.NewSlot(b.info[id].addr, h.NewBucket(b.info[id].addr, source)), now);
  }

  lemma ListInv(b: Book, h: Hashing, ports: bool, x: Info)
    requires Consistent(b, h, ports) && Normal(x.addr, ports) !in b.addrs
    ensures Inv(Listed(b, x, ports), h, ports, {b.nextId}, 0)
  {
    CreateInv(b, h, ports, x);
    CountInv(Created(b, x, ports), h, ports, {b.nextId}, 1, 1);
  }

  /** An unknown address is known afterwards exactly if its slot admitted it. */
  lemma UnknownOutcome(b: Book, h: Hashing, ports: bool, x: Info, s: Slot, now: int)
    requires Consistent(b, h, ports) && Normal(x.addr, ports) !in b.addrs
    requires s.bucket < NEW_BUCKET_COUNT && s == h.NewSlot(x.addr, s.bucket)
    ensures var c := Placed(Listed(b, x, ports), b.nextId, s, now, ports);
            && (Normal(x.addr, ports) in c.addrs <==> Admits(b, s, 0, now))
            && KeepsAllButOne(b.addrs, c.addrs)
            && (Normal(x.addr, ports) in c.addrs ==>
                  c.addrs[Normal(x.addr, ports)] in c.info && SameStats(x, c.info[c.addrs[Normal(x.addr, ports)]]))
  {
    var a := Normal(x.addr, ports);
    var l := Listed(b, x, ports);
    ListInv(b, h, ports, x);
    PlaceInv(l, h, ports, b.nextId, s, now);
    var c := Placed(l, b.nextId, s, now, ports);
    assert b.nextId !in b.info;
    if s in b.news {
      assert NewPlaced(b, h, s);
    }
    assert Admits(l, s, 0, now) <==> Admits(b, s, 0, now);
    if b.nextId in c.info {
      assert AddrKnown(c, ports, b.nextId);
    }
    PlacedForgets(l, h, ports, b.nextId, s, now);
    var y :| KeepsAllBut(l.addrs, c.addrs, y);
    assert KeepsAllBut(b.addrs, c.addrs, y);
  }

  /** If the new entry itself is dropped, its address is forgotten. */
  lemma PlacedForgets(b: Book, h: Hashing, ports: bool, id: int, s: Slot, now: int)
    requires RandomOk(b) && id in b.info && b.info[id].nRefCount == 0 && (s in b.news ==> b.news[s] != id)
    ensures !Admits(b, s, 0, now) ==> Normal(b.info[id].addr, ports) !in Placed(b, id, s, now, ports).addrs
  {
    DeletedOthers(b, id, ports);
  }

  // ---------------------------------------------------------------------------------------
  // Selecting addresses.
  // ---------------------------------------------------------------------------------------

  function Quota(n: nat): (q: nat)
    ensures q <= 2500 && 100 * q <= 23 * n && (q < 2500 ==> 100 * (q + 1) > 23 * n)
  {
    var q := GETADDR_MAX_PCT * n / 100;
    if q > GETADDR_MAX then GETADDR_MAX else q
  }

  /** `ids` are exactly the ids among the first `n` of vRandom whose entries are not terrible. */
  ghost predicate Picked(b: Book, ids: seq<int>, n: nat, now: int) {
    && n <= |b.random|
    && (forall i, j :: 0 <= i < j < |ids| ==> ids[i] != ids[j])
    && (forall id :: id in ids <==> exists i :: 0 <= i < n && Offered(b, i, id, now))
  }

  ghost predicate Offered(b: Book, i: nat, id: int, now: int) {
    i < |b.random| && b.random[i] == id && id in b.info && !IsTerrible(b.info[id], now)
  }

  lemma PickedSwap(b: Book, ids: seq<int>, i: nat, j: nat, now: int)
    requires RandomOk(b) && i <= j < |b.random| && Picked(b, ids, i, now)
    ensures Picked(Swapped(b, i, j), ids, i, now) && i < |Swapped(b, i, j).random|
  {
    var c := Swapped(b, i, j);
    assert IdAtOk(b, i) && IdAtOk(b, j);
    forall k, id | 0 <= k < i
      ensures Offered(c, k, id, now) <==> Offered(b, k, id, now)
    {
    }
  }

  lemma PickedStep(b: Book, ids: seq<int>, n: nat, now: int)
    requires RandomOk(b) && n < |b.random| && Picked(b, ids, n, now)
    ensures b.random[n] in b.info
    ensures Picked(b, if IsTerrible(b.info[b.random[n]], now) then ids else ids + [b.random[n]], n + 1, now)
  {
    assert IdAtOk(b, n);
    var id := b.random[n];
    forall i | 0 <= i < n
      ensures b.random[i] != id
    {
      assert IdAtOk(b, i);
    }
    assert id !in ids;
    var more := if IsTerrible(b.info[id], now) then ids else ids + [id];
    forall x
      ensures x in more <==> exists i :: 0 <= i < n + 1 && Offered(b, i, x, now)
    {
      if x in ids {
        var i :| 0 <= i < n && Offered(b, i, x, now);
        assert 0 <= i < n + 1 && Offered(b, i, x, now);
      } else if x == id {
        assert Offered(b, n, x, now) <==> x in more;
      }
    }
  }

  lemma PickedTurn(b: Book, h: Hashing, ports: bool, ids: seq<int>, n: nat, j: nat, now: int)
    requires Consistent(b, h, ports) && n <= j < |b.random| && Picked(b, ids, n, now)
    ensures b.random[n] in b.info && b.random[j] in b.info
    ensures var c := Swapped(b, n, j);
            && Consistent(c, h, ports) && |c.random| == |b.random| && c.random[n] in c.info
            && Picked(c, if IsTerrible(c.info[c.random[n]], now) then ids else ids + [c.random[n]], n + 1, now)
  {
    SwapInv(b, h, ports, {}, 0, n, j);
    PickedSwap(b, ids, n, j, now);
    PickedStep(Swapped(b, n, j), ids, n, now);
  }

  lemma PickedAll(b: Book, ids: seq<int>, n: nat, now: int)
    requires RandomOk(b) && Picked(b, ids, n, now)
    ensures forall i :: 0 <= i < |ids| ==> ids[i] in b.info && !IsTerrible(b.info[ids[i]], now)
    ensures n == |b.random| ==> forall id :: id in b.info && !IsTerrible(b.info[id], now) ==> id in ids
  {
    forall i | 0 <= i < |ids|
      ensures ids[i] in b.info && !IsTerrible(b.info[ids[i]], now)
    {
      assert ids[i] in ids;
      var k :| 0 <= k < n && Offered(b, k, ids[i], now);
    }
    if n == |b.random| {
      forall id | id in b.info && !IsTerrible(b.info[id], now)
        ensures id in ids
      {
        assert PosOk(b, id);
        assert Offered(b, b.info[id].nRandomPos, id, now);
      }
    }
  }

  // ---------------------------------------------------------------------------------------
  // Saving and loading a manager that ignores ports.
  // ---------------------------------------------------------------------------------------

  /** A new manager that hears of one address with a port is no longer consistent after it is saved and loaded. */
  method ReloadLosesPorts(hashing: Hashing) returns (m: AddressManager)
    ensures fresh(m) && !m.Valid()
  {
    m := new AddressManager(false, _ => true, hashing);
    var a := Address(Service(1, 1), 0, 0);
    var _ := m.Add(a, 0, 0, 0, 0);
    ghost var b := m.TheBook();
    var d := m.Serialize();
    AddrLoad.SaveThenLoad(b, m.h, false);
    ghost var id := m.mapAddr[Normal(a.addr, false)];
    assert id in b.info && b.info[id].addr == a.addr;
    assert !AllNormal(b, false);
    var _ := m.Unserialize(d);
  }
}
