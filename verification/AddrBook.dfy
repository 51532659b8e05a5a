/**
 The consistency of the address manager (src/addrman.h, src/addrman.cpp) as a property of plain
 values: the five cross-linked indexes and the counters, the elementary changes that its
 operations are made of, and a lemma for each that the indexes stay consistent.
 */
module AddrBook {

  const TRIED_BUCKET_COUNT := 256
  const NEW_BUCKET_COUNT := 1024
  const BUCKET_SIZE := 64
  const NEW_BUCKETS_PER_ADDRESS := 8

  datatype Service = Service(ip: nat, port: nat)
  type NetAddr = nat

  datatype Info = Info(
    addr: Service, nServices: nat, nTime: int, source: NetAddr,
    nLastTry: int, nLastCountAttempt: int, nLastSuccess: int, nAttempts: int,
    nRefCount: int, fInTried: bool, nRandomPos: int)

  datatype Slot = Slot(bucket: nat, pos: nat)
  type Table = map<Slot, int>

  /** The hash functions under the current key, before reduction to a bucket or position. */
  datatype Hashing = Hashing(
    triedHash: Service -> nat,
    newHash: (Service, NetAddr) -> nat,
    positionHash: (Service, bool, nat) -> nat)
  {
    function TriedBucket(a: Service): nat { triedHash(a) % TRIED_BUCKET_COUNT }
    function NewBucket(a: Service, source: NetAddr): nat { newHash(a, source) % NEW_BUCKET_COUNT }
    function Position(a: Service, isNew: bool, bucket: nat): nat { positionHash(a, isNew, bucket) % BUCKET_SIZE }

    /** The only place in the tried table where `a` may be. */
    function TriedSlot(a: Service): Slot { Slot(TriedBucket(a), Position(a, false, TriedBucket(a))) }

    /** The only place in new bucket `b` where `a` may be. */
    function NewSlot(a: Service, b: nat): Slot { Slot(b, Position(a, true, b)) }
  }

  /** The places: 256 tried and 1024 new buckets of 64 positions, by three independent hashes. */
  lemma SlotsAre(h: Hashing, a: Service, source: NetAddr)
    ensures h.TriedSlot(a) == var k := h.triedHash(a) % 256; Slot(k, h.positionHash(a, false, k) % 64)
    ensures h.NewSlot(a, h.NewBucket(a, source))
         == var k := h.newHash(a, source) % 1024; Slot(k, h.positionHash(a, true, k) % 64)
  {
  }

  /** The indexes and counters. */
  datatype Book = Book(
    info: map<int, Info>, addrs: map<Service, int>, random: seq<int>,
    news: Table, tried: Table, nNew: int, nTried: int, nextId: int)

  function Normal(a: Service, discriminatePorts: bool): Service {
    if discriminatePorts then a else a.(port := 0)
  }

  // ---------------------------------------------------------------------------------------
  // Consistency.
  // ---------------------------------------------------------------------------------------

  /** vRandom and nRandomPos are inverse to each other. */
  ghost predicate RandomOk(b: Book) {
    && (forall id :: id in b.info ==> PosOk(b, id))
    && (forall i :: 0 <= i < |b.random| ==> IdAtOk(b, i))
  }

  ghost predicate PosOk(b: Book, id: int)
    requires id in b.info
  {
    0 <= b.info[id].nRandomPos < |b.random| && b.random[b.info[id].nRandomPos] == id
  }

  ghost predicate IdAtOk(b: Book, i: nat)
    requires i < |b.random|
  {
    b.random[i] in b.info && b.info[b.random[i]].nRandomPos == i
  }

  /** mapAddr is a bijection between the normalised addresses and the ids. */
  ghost predicate AddrsOk(b: Book, ports: bool) {
    && (forall id :: id in b.info ==> AddrKnown(b, ports, id))
    && (forall a :: a in b.addrs ==> b.addrs[a] in b.info && Normal(b.info[b.addrs[a]].addr, ports) == a)
  }

  ghost predicate AddrKnown(b: Book, ports: bool, id: int)
    requires id in b.info
  {
    var a := Normal(b.info[id].addr, ports);
    a in b.addrs && b.addrs[a] == id
  }

  /** Every occupied slot of the new table is the hashed place of an entry that is not tried. */
  ghost predicate NewsOk(b: Book, h: Hashing) {
    forall s :: s in b.news ==> b.news[s] in b.info && NewPlaced(b, h, s)
  }

  ghost predicate NewPlaced(b: Book, h: Hashing, s: Slot)
    requires s in b.news && b.news[s] in b.info
  {
    var x := b.info[b.news[s]];
    !x.fInTried && s.bucket < NEW_BUCKET_COUNT && s == h.NewSlot(x.addr, s.bucket)
  }

  /** Tried entries are exactly those in the tried table, each at its hashed place, with no new slots. */
  ghost predicate TriedOk(b: Book, h: Hashing) {
    && (forall s :: s in b.tried ==> b.tried[s] in b.info && TriedPlaced(b, h, s))
    && (forall id :: id in b.info && b.info[id].fInTried ==> TriedFound(b, h, id))
  }

  ghost predicate TriedPlaced(b: Book, h: Hashing, s: Slot)
    requires s in b.tried && b.tried[s] in b.info
  {
    var x := b.info[b.tried[s]];
    x.fInTried && s == h.TriedSlot(x.addr)
  }

  ghost predicate TriedFound(b: Book, h: Hashing, id: int)
    requires id in b.info
  {
    var s := h.TriedSlot(b.info[id].addr);
    b.info[id].nRefCount == 0 && s in b.tried && b.tried[s] == id
  }

  ghost function SlotsOf(t: Table, id: int): set<Slot> { set s | s in t && t[s] == id }

  /** New entries count their slots: 1 to 8 of them, or none for the `loose` entries in transit. */
  ghost predicate RefsOk(b: Book, loose: set<int>) {
    forall id :: id in b.info && !b.info[id].fInTried ==> RefCounted(b, loose, id)
  }

  ghost predicate RefCounted(b: Book, loose: set<int>, id: int)
    requires id in b.info
  {
    && b.info[id].nRefCount == |SlotsOf(b.news, id)| <= NEW_BUCKETS_PER_ADDRESS
    && (id !in loose ==> b.info[id].nRefCount >= 1)
  }

  ghost function NewIds(b: Book): set<int> { set id | id in b.info && !b.info[id].fInTried }
  ghost function TriedIds(b: Book): set<int> { set id | id in b.info && b.info[id].fInTried }

  /** The counters are exact, except that `uncounted` new entries are in transit. */
  ghost predicate CountsOk(b: Book, uncounted: int) {
    && b.nNew == |NewIds(b)| - uncounted && b.nTried == |TriedIds(b)| && b.nextId >= 0
    && forall id :: id in b.info ==> 0 <= id < b.nextId
  }

  ghost predicate Inv(b: Book, h: Hashing, ports: bool, loose: set<int>, uncounted: int) {
    && RandomOk(b) && AddrsOk(b, ports) && NewsOk(b, h) && TriedOk(b, h)
    && RefsOk(b, loose) && CountsOk(b, uncounted)
  }

  /** The consistency that holds between operations. */
  ghost predicate Consistent(b: Book, h: Hashing, ports: bool) { Inv(b, h, ports, {}, 0) }

  // ---------------------------------------------------------------------------------------
  // Changes that leave links, places and states alone: statistics and SwapRandom.
  // ---------------------------------------------------------------------------------------

  /** The entries agree in everything that the other indexes depend on. */
  ghost predicate SameCore(b: Book, c: Book) {
    && (forall id :: id in c.info <==> id in b.info)
    && forall id :: id in b.info ==>
         && c.info[id].addr == b.info[id].addr && c.info[id].nRefCount == b.info[id].nRefCount
         && c.info[id].fInTried == b.info[id].fInTried
  }

  lemma CarryAddrs(b: Book, c: Book, ports: bool)
    requires AddrsOk(b, ports) && SameCore(b, c) && c.addrs == b.addrs
    ensures AddrsOk(c, ports)
  {
    forall id | id in c.info
      ensures AddrKnown(c, ports, id)
    {
      assert AddrKnown(b, ports, id);
    }
    forall a | a in c.addrs
      ensures c.addrs[a] in c.info && Normal(c.info[c.addrs[a]].addr, ports) == a
    {
      var id := b.addrs[a];
      assert id in b.info && id in c.info;
    }
  }

  lemma CarryNews(b: Book, c: Book, h: Hashing)
    requires NewsOk(b, h) && SameCore(b, c) && c.news == b.news
    ensures NewsOk(c, h)
  {
    forall s | s in c.news
      ensures c.news[s] in c.info && NewPlaced(c, h, s)
    {
      var id := b.news[s];
      assert id in b.info && id in c.info && NewPlaced(b, h, s);
    }
  }

  lemma CarryTried(b: Book, c: Book, h: Hashing)
    requires TriedOk(b, h) && SameCore(b, c) && c.tried == b.tried
    ensures TriedOk(c, h)
  {
    forall s | s in c.tried
      ensures c.tried[s] in c.info && TriedPlaced(c, h, s)
    {
      var id := b.tried[s];
      assert id in b.info && id in c.info && TriedPlaced(b, h, s);
    }
    forall id | id in c.info && c.info[id].fInTried
      ensures TriedFound(c, h, id)
    {
      assert id in b.info && TriedFound(b, h, id);
    }
  }

  lemma CarryRefs(b: Book, c: Book, loose: set<int>)
    requires RefsOk(b, loose) && SameCore(b, c) && c.news == b.news
    ensures RefsOk(c, loose)
  {
    forall id | id in c.info && !c.info[id].fInTried
      ensures RefCounted(c, loose, id)
    {
      assert id in b.info && RefCounted(b, loose, id);
    }
  }

  lemma CarryCounts(b: Book, c: Book, uncounted: int)
    requires CountsOk(b, uncounted) && SameCore(b, c)
    requires c.nNew == b.nNew && c.nTried == b.nTried && c.nextId == b.nextId
    ensures CountsOk(c, uncounted)
  {
    forall id
      ensures id in NewIds(c) <==> id in NewIds(b)
      ensures id in TriedIds(c) <==> id in TriedIds(b)
    {
      assert id in c.info <==> id in b.info;
    }
    assert NewIds(c) == NewIds(b) && TriedIds(c) == TriedIds(b);
  }

  /** If only positions in vRandom and statistics differ, vRandom is all there is to check. */
  lemma CoreInv(b: Book, c: Book, h: Hashing, ports: bool, loose: set<int>, uncounted: int)
    requires Inv(b, h, ports, loose, uncounted) && RandomOk(c) && SameCore(b, c)
    requires c == b.(info := c.info, random := c.random)
    ensures Inv(c, h, ports, loose, uncounted)
  {
    CarryAddrs(b, c, ports);
    CarryNews(b, c, h);
    CarryTried(b, c, h);
    CarryRefs(b, c, loose);
    CarryCounts(b, c, uncounted);
  }

  lemma StatsInv(b: Book, h: Hashing, ports: bool, loose: set<int>, uncounted: int, id: int, x: Info)
    requires Inv(b, h, ports, loose, uncounted) && id in b.info
    requires x.addr == b.info[id].addr && x.nRefCount == b.info[id].nRefCount
    requires x.fInTried == b.info[id].fInTried && x.nRandomPos == b.info[id].nRandomPos
    ensures Inv(b.(info := b.info[id := x]), h, ports, loose, uncounted)
  {
    var c := b.(info := b.info[id := x]);
    forall j | j in c.info
      ensures PosOk(c, j)
    {
      assert PosOk(b, j);
    }
    forall i | 0 <= i < |c.random|
      ensures IdAtOk(c, i)
    {
      assert IdAtOk(b, i);
    }
    CoreInv(b, c, h, ports, loose, uncounted);
  }

  function Swapped(b: Book, i: nat, j: nat): Book {
    if i == j || i >= |b.random| || j >= |b.random| || b.random[i] !in b.info || b.random[j] !in b.info then b
    else
      var id1, id2 := b.random[i], b.random[j];
      var info1 := b.info[id1 := b.info[id1].(nRandomPos := j)];
      b.(info := info1[id2 := info1[id2].(nRandomPos := i)],
         random := b.random[i := id2][j := id1])
  }

  lemma SwapInv(b: Book, h: Hashing, ports: bool, loose: set<int>, uncounted: int, i: nat, j: nat)
    requires Inv(b, h, ports, loose, uncounted) && i < |b.random| && j < |b.random|
    ensures IdAtOk(b, i) && IdAtOk(b, j) && Inv(Swapped(b, i, j), h, ports, loose, uncounted)
  {
    assert IdAtOk(b, i) && IdAtOk(b, j);
    SwapRandomOk(b, i, j);
    CoreInv(b, Swapped(b, i, j), h, ports, loose, uncounted);
  }

  lemma SwapRandomOk(b: Book, i: nat, j: nat)
    requires RandomOk(b) && i < |b.random| && j < |b.random|
    ensures IdAtOk(b, i) && IdAtOk(b, j) && RandomOk(Swapped(b, i, j)) && SameCore(b, Swapped(b, i, j))
  {
    assert IdAtOk(b, i) && IdAtOk(b, j);
    var c := Swapped(b, i, j);
    forall id | id in c.info
      ensures PosOk(c, id)
    {
      assert PosOk(b, id);
    }
    forall k | 0 <= k < |c.random|
      ensures IdAtOk(c, k)
    {
      assert IdAtOk(b, k);
    }
  }

  // ---------------------------------------------------------------------------------------
  // Create.
  // ---------------------------------------------------------------------------------------

  function Created(b: Book, x: Info, ports: bool): Book {
    b.(info := b.info[b.nextId := x.(nRefCount := 0, fInTried := false, nRandomPos := |b.random|)],
       addrs := b.addrs[Normal(x.addr, ports) := b.nextId],
       random := b.random + [b.nextId],
       nextId := b.nextId + 1)
  }

  /** A new entry has no slots and is not counted yet. */
  lemma CreateInv(b: Book, h: Hashing, ports: bool, x: Info)
    requires Consistent(b, h, ports) && Normal(x.addr, ports) !in b.addrs
    ensures Inv(Created(b, x, ports), h, ports, {b.nextId}, 1)
  {
    CreateLinks(b, h, ports, x);
    CreatePlaces(b, h, ports, x);
  }

  lemma CreateLinks(b: Book, h: Hashing, ports: bool, x: Info)
    requires Consistent(b, h, ports) && Normal(x.addr, ports) !in b.addrs
    ensures RandomOk(Created(b, x, ports)) && AddrsOk(Created(b, x, ports), ports)
    ensures CountsOk(Created(b, x, ports), 1)
  {
    var c := Created(b, x, ports);
    assert b.nextId !in b.info;
    CreateRandom(b, ports, x);
    CreateAddrs(b, ports, x);
    assert NewIds(c) == NewIds(b) + {b.nextId} && TriedIds(c) == TriedIds(b);
  }

  lemma CreateRandom(b: Book, ports: bool, x: Info)
    requires RandomOk(b) && b.nextId !in b.info
    ensures RandomOk(Created(b, x, ports))
  {
    var c := Created(b, x, ports);
    forall id | id in c.info
      ensures PosOk(c, id)
    {
      assert id != b.nextId ==> PosOk(b, id);
    }
    forall i | 0 <= i < |c.random|
      ensures IdAtOk(c, i)
    {
      assert i < |b.random| ==> IdAtOk(b, i);
    }
  }

  lemma CreateAddrs(b: Book, ports: bool, x: Info)
    requires AddrsOk(b, ports) && b.nextId !in b.info && Normal(x.addr, ports) !in b.addrs
    ensures AddrsOk(Created(b, x, ports), ports)
  {
    var c := Created(b, x, ports);
    forall id | id in c.info
      ensures AddrKnown(c, ports, id)
    {
      assert id != b.nextId ==> AddrKnown(b, ports, id);
    }
  }

  lemma CreatePlaces(b: Book, h: Hashing, ports: bool, x: Info)
    requires Consistent(b, h, ports) && Normal(x.addr, ports) !in b.addrs
    ensures NewsOk(Created(b, x, ports), h) && TriedOk(Created(b, x, ports), h)
    ensures RefsOk(Created(b, x, ports), {b.nextId})
  {
    var c := Created(b, x, ports);
    assert b.nextId !in b.info;
    forall s | s in c.news
      ensures c.news[s] in c.info && NewPlaced(c, h, s)
    {
      assert NewPlaced(b, h, s);
    }
    forall s | s in c.tried
      ensures c.tried[s] in c.info && TriedPlaced(c, h, s)
    {
      assert TriedPlaced(b, h, s);
    }
    forall id | id in c.info && c.info[id].fInTried
      ensures TriedFound(c, h, id)
    {
      assert TriedFound(b, h, id);
    }
    forall id | id in c.info && !c.info[id].fInTried
      ensures RefCounted(c, {b.nextId}, id)
    {
      if id == b.nextId {
        assert SlotsOf(c.news, id) == {};
      } else {
        assert RefCounted(b, {}, id);
      }
    }
  }

  // ---------------------------------------------------------------------------------------
  // Delete.
  // ---------------------------------------------------------------------------------------

  /** The entry at the end of vRandom is dropped from all indexes. */
  function Dropped(b: Book, id: int, ports: bool): Book {
    if id !in b.info || |b.random| == 0 then b
    else b.(random := b.random[..|b.random| - 1],
       addrs := b.addrs - {Normal(b.info[id].addr, ports)},
       info := b.info - {id},
       nNew := b.nNew - 1)
  }

  lemma DropInv(b: Book, h: Hashing, ports: bool, loose: set<int>, uncounted: int, id: int)
    requires Inv(b, h, ports, loose, uncounted) && id in b.info
    requires !b.info[id].fInTried && b.info[id].nRefCount == 0
    requires |b.random| > 0 && b.random[|b.random| - 1] == id
    ensures Inv(Dropped(b, id, ports), h, ports, loose - {id}, uncounted)
  {
    DropLinks(b, h, ports, loose, uncounted, id);
    DropPlaces(b, h, ports, loose, id);
  }

  lemma DropLinks(b: Book, h: Hashing, ports: bool, loose: set<int>, uncounted: int, id: int)
    requires Inv(b, h, ports, loose, uncounted) && id in b.info && !b.info[id].fInTried
    requires |b.random| > 0 && b.random[|b.random| - 1] == id
    ensures RandomOk(Dropped(b, id, ports)) && AddrsOk(Dropped(b, id, ports), ports)
    ensures CountsOk(Dropped(b, id, ports), uncounted)
  {
    var c := Dropped(b, id, ports);
    DropRandom(b, ports, id);
    DropAddrs(b, ports, id);
    assert NewIds(c) == NewIds(b) - {id} && TriedIds(c) == TriedIds(b);
  }

  lemma DropRandom(b: Book, ports: bool, id: int)
    requires RandomOk(b) && id in b.info && |b.random| > 0 && b.random[|b.random| - 1] == id
    ensures RandomOk(Dropped(b, id, ports))
  {
    var c := Dropped(b, id, ports);
    forall j | j in c.info
      ensures PosOk(c, j)
    {
      assert PosOk(b, j);
    }
    assert IdAtOk(b, |b.random| - 1);
    forall i | 0 <= i < |c.random|
      ensures IdAtOk(c, i)
    {
      assert IdAtOk(b, i);
    }
  }

  lemma DropAddrs(b: Book, ports: bool, id: int)
    requires AddrsOk(b, ports) && id in b.info && |b.random| > 0
    ensures AddrsOk(Dropped(b, id, ports), ports)
  {
    var c := Dropped(b, id, ports);
    assert AddrKnown(b, ports, id);
    forall j | j in c.info
      ensures AddrKnown(c, ports, j)
    {
      assert AddrKnown(b, ports, j);
    }
    forall a | a in c.addrs
      ensures c.addrs[a] in c.info && Normal(c.info[c.addrs[a]].addr, ports) == a
    {
      assert a in b.addrs && b.addrs[a] in b.info;
    }
  }

  lemma DropPlaces(b: Book, h: Hashing, ports: bool, loose: set<int>, id: int)
    requires NewsOk(b, h) && TriedOk(b, h) && RefsOk(b, loose) && id in b.info && |b.random| > 0
    requires !b.info[id].fInTried && b.info[id].nRefCount == 0
    ensures NewsOk(Dropped(b, id, ports), h) && TriedOk(Dropped(b, id, ports), h)
    ensures RefsOk(Dropped(b, id, ports), loose - {id})
  {
    var c := Dropped(b, id, ports);
    assert RefCounted(b, loose, id);
    assert SlotsOf(b.news, id) == {};
    forall s | s in c.news
      ensures c.news[s] in c.info && NewPlaced(c, h, s)
    {
      assert NewPlaced(b, h, s) && s !in SlotsOf(b.news, id);
    }
    forall s | s in c.tried
      ensures c.tried[s] in c.info && TriedPlaced(c, h, s)
    {
      assert TriedPlaced(b, h, s);
    }
    forall j | j in c.info && c.info[j].fInTried
      ensures TriedFound(c, h, j)
    {
      assert TriedFound(b, h, j);
    }
    forall j | j in c.info && !c.info[j].fInTried
      ensures RefCounted(c, loose - {id}, j)
    {
      assert RefCounted(b, loose, j);
    }
  }

  /** The id is swapped to the end of vRandom and dropped. */
  function Deleted(b: Book, id: int, ports: bool): Book {
    if id !in b.info || b.info[id].nRandomPos < 0 || |b.random| == 0 then b
    else Dropped(Swapped(b, b.info[id].nRandomPos, |b.random| - 1), id, ports)
  }

  lemma DeleteInv(b: Book, h: Hashing, ports: bool, loose: set<int>, uncounted: int, id: int)
    requires Inv(b, h, ports, loose, uncounted) && id in b.info
    requires !b.info[id].fInTried && b.info[id].nRefCount == 0
    ensures Inv(Deleted(b, id, ports), h, ports, loose - {id}, uncounted)
  {
    hide Inv, Swapped, RandomOk;
    InvRandom(b, h, ports, loose, uncounted);
    SwappedLast(b, id);
    SwapInv(b, h, ports, loose, uncounted, b.info[id].nRandomPos, |b.random| - 1);
    SwappedEntries(b, b.info[id].nRandomPos, |b.random| - 1);
    DropInv(Swapped(b, b.info[id].nRandomPos, |b.random| - 1), h, ports, loose, uncounted, id);
  }

  lemma InvRandom(b: Book, h: Hashing, ports: bool, loose: set<int>, uncounted: int)
    requires Inv(b, h, ports, loose, uncounted)
    ensures RandomOk(b)
  {
  }

  /** Swapping an id to the end of vRandom makes it the last one. */
  lemma SwappedLast(b: Book, id: int)
    requires RandomOk(b) && id in b.info
    ensures PosOk(b, id)
    ensures var c := Swapped(b, b.info[id].nRandomPos, |b.random| - 1);
            id in c.info && |c.random| > 0 && c.random[|c.random| - 1] == id
  {
    assert PosOk(b, id);
    assert IdAtOk(b, |b.random| - 1);
  }

  /** The same entry up to its position in vRandom. */
  predicate SameEntry(x: Info, y: Info) { y == x.(nRandomPos := y.nRandomPos) }

  /** Swapping touches nothing but vRandom and positions in it. */
  lemma SwappedEntries(b: Book, i: nat, j: nat)
    ensures var c := Swapped(b, i, j);
            && c == b.(info := c.info, random := c.random) && |c.random| == |b.random|
            && (forall k :: k in c.info <==> k in b.info)
            && (forall k :: k in c.info ==> SameEntry(b.info[k], c.info[k]))
  {
  }

  /** Deleting touches no other entry beyond its position in vRandom. */
  lemma DeletedOthers(b: Book, id: int, ports: bool)
    requires RandomOk(b) && id in b.info
    ensures var c := Deleted(b, id, ports);
            && c.news == b.news && c.tried == b.tried && c.nextId == b.nextId
            && c.addrs == b.addrs - {Normal(b.info[id].addr, ports)}
            && (forall j :: j in c.info <==> j in b.info && j != id)
            && (forall j :: j in c.info ==> SameEntry(b.info[j], c.info[j]))
  {
    hide Swapped, RandomOk;
    SwappedLast(b, id);
    SwappedEntries(b, b.info[id].nRandomPos, |b.random| - 1);
  }

  // ---------------------------------------------------------------------------------------
  // Slots of the new table.
  // ---------------------------------------------------------------------------------------

  function WithRefs(b: Book, id: int, d: int): map<int, Info> {
    if id !in b.info then b.info else b.info[id := b.info[id].(nRefCount := b.info[id].nRefCount + d)]
  }

  /** The entry in slot `s` loses it. */
  function Unlinked(b: Book, s: Slot): Book {
    if s !in b.news then b else b.(news := b.news - {s}, info := WithRefs(b, b.news[s], -1))
  }

  /** Entry `id` gains slot `s`. */
  function Linked(b: Book, id: int, s: Slot): Book {
    b.(news := b.news[s := id], info := WithRefs(b, id, 1))
  }

  lemma SlotsOfRemove(t: Table, s: Slot, id: int)
    requires s in t
    ensures SlotsOf(t - {s}, id) == SlotsOf(t, id) - (if t[s] == id then {s} else {})
  {
  }

  lemma SlotsOfAdd(t: Table, s: Slot, id: int, j: int)
    requires s !in t
    ensures SlotsOf(t[s := id], j) == SlotsOf(t, j) + (if j == id then {s} else {})
  {
  }

  /** A change of reference counts touches neither links nor counters. */
  lemma RefsLinks(b: Book, c: Book, h: Hashing, ports: bool, uncounted: int, id: int, d: int)
    requires RandomOk(b) && AddrsOk(b, ports) && CountsOk(b, uncounted)
    requires id in b.info && c == b.(news := c.news, info := WithRefs(b, id, d))
    ensures RandomOk(c) && AddrsOk(c, ports) && CountsOk(c, uncounted)
  {
    hide NewIds, TriedIds;
    forall j | j in c.info
      ensures PosOk(c, j) && AddrKnown(c, ports, j)
    {
      assert PosOk(b, j) && AddrKnown(b, ports, j);
    }
    forall i | 0 <= i < |c.random|
      ensures IdAtOk(c, i)
    {
      assert IdAtOk(b, i);
    }
    SameIds(b, c, id, d);
  }

  lemma SameIds(b: Book, c: Book, id: int, d: int)
    requires id in b.info && c.info == WithRefs(b, id, d)
    ensures NewIds(c) == NewIds(b) && TriedIds(c) == TriedIds(b)
  {
  }

  lemma UnlinkInv(b: Book, h: Hashing, ports: bool, loose: set<int>, uncounted: int, s: Slot)
    requires Inv(b, h, ports, loose, uncounted) && s in b.news
    ensures b.news[s] in b.info && b.info[b.news[s]].nRefCount >= 1
    ensures Inv(Unlinked(b, s), h, ports, loose + {b.news[s]}, uncounted)
    ensures b.info[b.news[s]].nRefCount > 1 ==> Inv(Unlinked(b, s), h, ports, loose, uncounted)
  {
    assert NewPlaced(b, h, s);
    var id := b.news[s];
    var c := Unlinked(b, s);
    assert RefCounted(b, loose, id);
    assert s in SlotsOf(b.news, id);
    RefsLinks(b, c, h, ports, uncounted, id, -1);
    UnlinkPlaces(b, h, loose, s);
  }

  lemma UnlinkPlaces(b: Book, h: Hashing, loose: set<int>, s: Slot)
    requires NewsOk(b, h) && TriedOk(b, h) && RefsOk(b, loose) && s in b.news && b.news[s] in b.info
    ensures NewsOk(Unlinked(b, s), h) && TriedOk(Unlinked(b, s), h)
    ensures RefsOk(Unlinked(b, s), loose + {b.news[s]})
    ensures b.info[b.news[s]].nRefCount > 1 ==> RefsOk(Unlinked(b, s), loose)
  {
    var id := b.news[s];
    var c := Unlinked(b, s);
    assert NewPlaced(b, h, s);
    forall q | q in c.news
      ensures c.news[q] in c.info && NewPlaced(c, h, q)
    {
      assert NewPlaced(b, h, q);
    }
    forall q | q in c.tried
      ensures c.tried[q] in c.info && TriedPlaced(c, h, q)
    {
      assert TriedPlaced(b, h, q);
    }
    forall j | j in c.info && c.info[j].fInTried
      ensures TriedFound(c, h, j)
    {
      assert TriedFound(b, h, j);
    }
    forall j | j in c.info && !c.info[j].fInTried
      ensures RefCounted(c, loose + {id}, j)
      ensures b.info[id].nRefCount > 1 ==> RefCounted(c, loose, j)
    {
      assert RefCounted(b, loose, j);
      SlotsOfRemove(b.news, s, j);
    }
  }

  lemma LinkInv(b: Book, h: Hashing, ports: bool, loose: set<int>, uncounted: int, id: int, s: Slot)
    requires Inv(b, h, ports, loose, uncounted) && s !in b.news && id in b.info && !b.info[id].fInTried
    requires b.info[id].nRefCount < NEW_BUCKETS_PER_ADDRESS
    requires s.bucket < NEW_BUCKET_COUNT && s == h.NewSlot(b.info[id].addr, s.bucket)
    ensures Inv(Linked(b, id, s), h, ports, loose - {id}, uncounted)
  {
    RefsLinks(b, Linked(b, id, s), h, ports, uncounted, id, 1);
    LinkPlaces(b, h, loose, id, s);
  }

  lemma LinkPlaces(b: Book, h: Hashing, loose: set<int>, id: int, s: Slot)
    requires NewsOk(b, h) && TriedOk(b, h) && RefsOk(b, loose) && s !in b.news
    requires id in b.info && !b.info[id].fInTried && b.info[id].nRefCount < NEW_BUCKETS_PER_ADDRESS
    requires s.bucket < NEW_BUCKET_COUNT && s == h.NewSlot(b.info[id].addr, s.bucket)
    ensures NewsOk(Linked(b, id, s), h) && TriedOk(Linked(b, id, s), h)
    ensures RefsOk(Linked(b, id, s), loose - {id})
  {
    var c := Linked(b, id, s);
    forall q | q in c.news
      ensures c.news[q] in c.info && NewPlaced(c, h, q)
    {
      assert q != s ==> NewPlaced(b, h, q);
    }
    forall q | q in c.tried
      ensures c.tried[q] in c.info && TriedPlaced(c, h, q)
    {
      assert TriedPlaced(b, h, q);
    }
    forall j | j in c.info && c.info[j].fInTried
      ensures TriedFound(c, h, j)
    {
      assert TriedFound(b, h, j);
    }
    forall j | j in c.info && !c.info[j].fInTried
      ensures RefCounted(c, loose - {id}, j)
    {
      assert RefCounted(b, loose, j);
      SlotsOfAdd(b.news, s, id, j);
    }
  }

  // ---------------------------------------------------------------------------------------
  // The tried table.
  // ---------------------------------------------------------------------------------------

  function WithTried(b: Book, id: int, v: bool): map<int, Info> {
    if id !in b.info then b.info else b.info[id := b.info[id].(fInTried := v)]
  }

  /** The entry in tried slot `s` leaves the tried table. */
  function Evicted(b: Book, s: Slot): Book {
    if s !in b.tried then b else b.(tried := b.tried - {s}, info := WithTried(b, b.tried[s], false), nTried := b.nTried - 1)
  }

  /** Entry `id` enters the tried table at its place. */
  function Promoted(b: Book, id: int, h: Hashing): Book {
    if id !in b.info then b
    else b.(tried := b.tried[h.TriedSlot(b.info[id].addr) := id], info := WithTried(b, id, true), nTried := b.nTried + 1)
  }

  lemma TriedLinks(b: Book, c: Book, ports: bool, id: int, v: bool)
    requires RandomOk(b) && AddrsOk(b, ports) && id in b.info
    requires c == b.(tried := c.tried, nTried := c.nTried, info := WithTried(b, id, v))
    ensures RandomOk(c) && AddrsOk(c, ports)
  {
    forall j | j in c.info
      ensures PosOk(c, j) && AddrKnown(c, ports, j)
    {
      assert PosOk(b, j) && AddrKnown(b, ports, j);
    }
    forall i | 0 <= i < |c.random|
      ensures IdAtOk(c, i)
    {
      assert IdAtOk(b, i);
    }
  }

  lemma EvictInv(b: Book, h: Hashing, ports: bool, loose: set<int>, uncounted: int, s: Slot)
    requires Inv(b, h, ports, loose, uncounted) && s in b.tried
    ensures b.tried[s] in b.info && b.info[b.tried[s]].fInTried && b.info[b.tried[s]].nRefCount == 0
    ensures Inv(Evicted(b, s), h, ports, loose + {b.tried[s]}, uncounted + 1)
  {
    assert TriedPlaced(b, h, s);
    var id := b.tried[s];
    var c := Evicted(b, s);
    assert TriedFound(b, h, id);
    TriedLinks(b, c, ports, id, false);
    EvictPlaces(b, h, loose, s);
    assert NewIds(c) == NewIds(b) + {id} && TriedIds(c) == TriedIds(b) - {id};
  }

  lemma EvictPlaces(b: Book, h: Hashing, loose: set<int>, s: Slot)
    requires NewsOk(b, h) && TriedOk(b, h) && RefsOk(b, loose) && s in b.tried && b.tried[s] in b.info
    ensures NewsOk(Evicted(b, s), h) && TriedOk(Evicted(b, s), h)
    ensures RefsOk(Evicted(b, s), loose + {b.tried[s]})
  {
    var id := b.tried[s];
    var c := Evicted(b, s);
    assert TriedPlaced(b, h, s) && TriedFound(b, h, id);
    forall q | q in c.news
      ensures c.news[q] in c.info && NewPlaced(c, h, q)
    {
      assert NewPlaced(b, h, q);
    }
    forall q | q in c.tried
      ensures c.tried[q] in c.info && TriedPlaced(c, h, q)
    {
      assert TriedPlaced(b, h, q);
    }
    forall j | j in c.info && c.info[j].fInTried
      ensures TriedFound(c, h, j)
    {
      assert TriedFound(b, h, j);
    }
    forall j | j in c.info && !c.info[j].fInTried
      ensures RefCounted(c, loose + {id}, j)
    {
      if j == id {
        NoSlotsOfTried(b, h, id);
      } else {
        assert RefCounted(b, loose, j);
      }
    }
  }

  lemma NoSlotsOfTried(b: Book, h: Hashing, id: int)
    requires NewsOk(b, h) && id in b.info && b.info[id].fInTried
    ensures SlotsOf(b.news, id) == {}
  {
    forall s | s in b.news
      ensures b.news[s] != id
    {
      assert NewPlaced(b, h, s);
    }
  }

  lemma PromoteInv(b: Book, h: Hashing, ports: bool, loose: set<int>, uncounted: int, id: int)
    requires Inv(b, h, ports, loose, uncounted) && id in b.info && !b.info[id].fInTried
    requires b.info[id].nRefCount == 0 && h.TriedSlot(b.info[id].addr) !in b.tried
    ensures Inv(Promoted(b, id, h), h, ports, loose - {id}, uncounted - 1)
  {
    var c := Promoted(b, id, h);
    TriedLinks(b, c, ports, id, true);
    PromotePlaces(b, h, loose, id);
    assert NewIds(c) == NewIds(b) - {id} && TriedIds(c) == TriedIds(b) + {id};
  }

  lemma PromotePlaces(b: Book, h: Hashing, loose: set<int>, id: int)
    requires NewsOk(b, h) && TriedOk(b, h) && RefsOk(b, loose) && id in b.info && !b.info[id].fInTried
    requires b.info[id].nRefCount == 0 && h.TriedSlot(b.info[id].addr) !in b.tried
    ensures NewsOk(Promoted(b, id, h), h) && TriedOk(Promoted(b, id, h), h)
    ensures RefsOk(Promoted(b, id, h), loose - {id})
  {
    var c := Promoted(b, id, h);
    assert RefCounted(b, loose, id);
    assert SlotsOf(b.news, id) == {};
    forall q | q in c.news
      ensures c.news[q] in c.info && NewPlaced(c, h, q)
    {
      assert NewPlaced(b, h, q) && q !in SlotsOf(b.news, id);
    }
    forall q | q in c.tried
      ensures c.tried[q] in c.info && TriedPlaced(c, h, q)
    {
      assert q in b.tried ==> TriedPlaced(b, h, q);
    }
    forall j | j in c.info && c.info[j].fInTried
      ensures TriedFound(c, h, j)
    {
      assert j != id ==> TriedFound(b, h, j);
    }
    forall j | j in c.info && !c.info[j].fInTried
      ensures RefCounted(c, loose - {id}, j)
    {
      assert RefCounted(b, loose, j);
    }
  }

  /** Counting entries in or out. */
  lemma CountInv(b: Book, h: Hashing, ports: bool, loose: set<int>, uncounted: int, d: int)
    requires Inv(b, h, ports, loose, uncounted)
    ensures Inv(b.(nNew := b.nNew + d), h, ports, loose, uncounted - d)
  {
    var c := b.(nNew := b.nNew + d);
    CarryAddrs(b, c, ports);
    CarryNews(b, c, h);
    CarryTried(b, c, h);
    CarryRefs(b, c, loose);
    assert NewIds(c) == NewIds(b) && TriedIds(c) == TriedIds(b);
    forall j | j in c.info
      ensures PosOk(c, j)
    {
      assert PosOk(b, j);
    }
    forall i | 0 <= i < |c.random|
      ensures IdAtOk(c, i)
    {
      assert IdAtOk(b, i);
    }
  }

  // ---------------------------------------------------------------------------------------
  // ClearNew.
  // ---------------------------------------------------------------------------------------

  /** Slot `s` is emptied; an entry that thereby loses its last slot is deleted. */
  function Cleared(b: Book, s: Slot, ports: bool): Book {
    if s !in b.news || b.news[s] !in b.info then b
    else
      var c := Unlinked(b, s);
      if c.info[b.news[s]].nRefCount == 0 then Deleted(c, b.news[s], ports) else c
  }

  lemma UnlinkRandomOk(b: Book, s: Slot)
    requires RandomOk(b) && s in b.news && b.news[s] in b.info
    ensures RandomOk(Unlinked(b, s))
  {
    var c := Unlinked(b, s);
    forall j | j in c.info
      ensures PosOk(c, j)
    {
      assert PosOk(b, j);
    }
    forall i | 0 <= i < |c.random|
      ensures IdAtOk(c, i)
    {
      assert IdAtOk(b, i);
    }
  }

  lemma ClearInv(b: Book, h: Hashing, ports: bool, loose: set<int>, uncounted: int, s: Slot)
    requires Inv(b, h, ports, loose, uncounted) && (s in b.news ==> b.news[s] !in loose)
    ensures s in b.news ==> b.news[s] in b.info && b.info[b.news[s]].nRefCount > 0
    ensures Inv(Cleared(b, s, ports), h, ports, loose, uncounted)
  {
    if s in b.news {
      UnlinkInv(b, h, ports, loose, uncounted, s);
      var id := b.news[s];
      var c := Unlinked(b, s);
      if c.info[id].nRefCount == 0 {
        assert NewPlaced(b, h, s);
        DeleteInv(c, h, ports, loose + {id}, uncounted, id);
        assert loose + {id} - {id} == loose;
      }
    }
  }

  /** Clearing a slot costs at most one entry, the one that was in it; the others keep their slots. */
  lemma ClearedOthers(b: Book, s: Slot, ports: bool)
    requires RandomOk(b) && (s in b.news ==> b.news[s] in b.info)
    ensures var c := Cleared(b, s, ports);
            && c.news == b.news - {s} && c.tried == b.tried && c.nextId == b.nextId
            && (forall j :: j in b.info && !(s in b.news && j == b.news[s]) ==> j in c.info && SameEntry(b.info[j], c.info[j]))
            && KeepsAllButOne(b.addrs, c.addrs)
  {
    if s in b.news {
      UnlinkRandomOk(b, s);
      DeletedOthers(Unlinked(b, s), b.news[s], ports);
      assert KeepsAllBut(b.addrs, Cleared(b, s, ports).addrs, Normal(b.info[b.news[s]].addr, ports));
    } else {
      assert b.news - {s} == b.news;
      assert KeepsAllBut(b.addrs, b.addrs, Service(0, 0));
    }
  }

  /** The entries outside `changed` are there as before, up to their positions in vRandom. */
  ghost predicate OthersSame(b: Book, c: Book, changed: set<int>) {
    forall j :: j !in changed ==> (j in c.info <==> j in b.info) && (j in b.info ==> SameEntry(b.info[j], c.info[j]))
  }

  /**
   Whatever is in slot `s` has one reference less and is forgotten, with its address, exactly if that
   was its last. Apart from it and the entries `moved`, nothing happens to any entry.
   */
  ghost predicate GivenUp(b: Book, c: Book, s: Slot, moved: set<int>, ports: bool) {
    if s in b.news && b.news[s] in b.info then
      var y := b.news[s];
      && y !in moved && (y in c.info <==> b.info[y].nRefCount != 1)
      && (y in c.info ==> SameEntry(b.info[y].(nRefCount := b.info[y].nRefCount - 1), c.info[y]))
      && c.addrs == (if y in c.info then b.addrs else b.addrs - {Normal(b.info[y].addr, ports)})
      && OthersSame(b, c, moved + {y})
    else c.addrs == b.addrs && OthersSame(b, c, moved)
  }

  /** The whole effect of clearing a slot. */
  lemma ClearedIs(b: Book, s: Slot, ports: bool)
    requires RandomOk(b) && (s in b.news ==> b.news[s] in b.info)
    ensures var c := Cleared(b, s, ports);
            c.news == b.news - {s} && c.tried == b.tried && c.nextId == b.nextId && GivenUp(b, c, s, {}, ports)
  {
    hide Deleted, RandomOk;
    if s in b.news {
      UnlinkRandomOk(b, s);
      DeletedOthers(Unlinked(b, s), b.news[s], ports);
    } else {
      assert b.news - {s} == b.news;
    }
  }

  ghost predicate KeepsAllBut(m: map<Service, int>, m': map<Service, int>, a: Service) {
    forall x :: x in m && x != a ==> x in m' && m'[x] == m[x]
  }

  /** At most one known address is forgotten. */
  ghost predicate KeepsAllButOne(m: map<Service, int>, m': map<Service, int>) {
    exists a :: KeepsAllBut(m, m', a)
  }

  // ---------------------------------------------------------------------------------------
  // Moving a tried entry back to the new table.
  // ---------------------------------------------------------------------------------------

  /** The slot of the new table that an entry gets by its own source. */
  function HomeSlot(x: Info, h: Hashing): Slot { h.NewSlot(x.addr, h.NewBucket(x.addr, x.source)) }

  /** An entry without references is in no slot. */
  lemma UnreferencedNowhere(b: Book, loose: set<int>, id: int, s: Slot)
    requires RefsOk(b, loose) && id in b.info && !b.info[id].fInTried && b.info[id].nRefCount == 0
    ensures s in b.news ==> b.news[s] != id
  {
    assert RefCounted(b, loose, id);
    assert SlotsOf(b.news, id) == {};
    assert s !in SlotsOf(b.news, id);
  }

  /** Two unreferenced entries in transit do not stand in the way of clearing a slot. */
  lemma ClearForTwo(b: Book, h: Hashing, ports: bool, id: int, id2: int, uncounted: int, s: Slot)
    requires Inv(b, h, ports, {id, id2}, uncounted) && Unreferenced(b, id) && Unreferenced(b, id2)
    ensures s in b.news ==> b.news[s] in b.info && !b.info[b.news[s]].fInTried && b.info[b.news[s]].nRefCount > 0
    ensures Inv(Cleared(b, s, ports), h, ports, {id, id2}, uncounted)
    ensures Unreferenced(Cleared(b, s, ports), id) && Unreferenced(Cleared(b, s, ports), id2)
    ensures SameEntry(b.info[id], Cleared(b, s, ports).info[id]) && SameEntry(b.info[id2], Cleared(b, s, ports).info[id2])
    ensures s !in Cleared(b, s, ports).news && Cleared(b, s, ports).tried == b.tried
    ensures KeepsAllButOne(b.addrs, Cleared(b, s, ports).addrs)
  {
    UnreferencedNowhere(b, {id, id2}, id, s);
    UnreferencedNowhere(b, {id, id2}, id2, s);
    if s in b.news {
      assert NewPlaced(b, h, s);
    }
    ClearInv(b, h, ports, {id, id2}, uncounted, s);
    ClearedOthers(b, s, ports);
  }

  ghost predicate Unreferenced(b: Book, id: int) {
    id in b.info && !b.info[id].fInTried && b.info[id].nRefCount == 0
  }

  /** An entry leaves the tried table while `id` is in transit to it. */
  lemma EvictForOther(b: Book, h: Hashing, ports: bool, id: int, s: Slot)
    requires Inv(b, h, ports, {id}, 1) && s in b.tried && Unreferenced(b, id)
    ensures b.tried[s] in b.info && b.tried[s] != id
    ensures Inv(Evicted(b, s), h, ports, {id, b.tried[s]}, 2)
    ensures Unreferenced(Evicted(b, s), id) && Unreferenced(Evicted(b, s), b.tried[s])
    ensures Evicted(b, s).info[id] == b.info[id]
  {
    EvictInv(b, h, ports, {id}, 1, s);
    assert {id} + {b.tried[s]} == {id, b.tried[s]};
  }

  /** Entry `id` gains slot `s` and is counted as a new entry. */
  function Relisted(b: Book, id: int, s: Slot): Book {
    Linked(b, id, s).(nNew := b.nNew + 1)
  }

  /** The evicted entry gets its home slot and is counted again. */
  lemma LinkForOther(b: Book, h: Hashing, ports: bool, id: int, id2: int)
    requires Inv(b, h, ports, {id, id2}, 2) && id != id2 && Unreferenced(b, id) && Unreferenced(b, id2)
    requires HomeSlot(b.info[id2], h) !in b.news
    ensures var c := Relisted(b, id2, HomeSlot(b.info[id2], h));
            Inv(c, h, ports, {id}, 1) && id in c.info && c.info[id] == b.info[id]
  {
    hide RandomOk, NewsOk, TriedOk, AddrsOk;
    var s := HomeSlot(b.info[id2], h);
    LinkInv(b, h, ports, {id, id2}, 2, id2, s);
    assert {id, id2} - {id2} == {id};
    CountInv(Linked(b, id2, s), h, ports, {id}, 2, 1);
  }

  /** The entry at tried slot `s` is evicted, its home slot cleared, and it moves in there. */
  function Demoted(b: Book, s: Slot, h: Hashing, ports: bool): Book {
    if s !in b.tried || b.tried[s] !in b.info then b
    else
      var home := HomeSlot(b.info[b.tried[s]], h);
      Relisted(Cleared(Evicted(b, s), home, ports), b.tried[s], home)
  }

  /** What holds on the way: the entries that are read exist, and the evicted one survives. */
  ghost predicate DemoteReady(b: Book, s: Slot, h: Hashing, ports: bool) {
    && s in b.tried && b.tried[s] in b.info && b.tried[s] >= 0
    && var home := HomeSlot(b.info[b.tried[s]], h);
       var c := Evicted(b, s);
       && RandomOk(c) && home.bucket < NEW_BUCKET_COUNT && home.pos < BUCKET_SIZE
       && (home in c.news ==> c.news[home] in c.info && !c.info[c.news[home]].fInTried && c.info[c.news[home]].nRefCount > 0)
       && b.tried[s] in Cleared(c, home, ports).info && Cleared(c, home, ports).info[b.tried[s]].nRefCount == 0
  }

  lemma DemoteInv(b: Book, h: Hashing, ports: bool, id: int, s: Slot)
    requires Inv(b, h, ports, {id}, 1) && s in b.tried && Unreferenced(b, id)
    ensures DemoteReady(b, s, h, ports)
    ensures Inv(Demoted(b, s, h, ports), h, ports, {id}, 1)
    ensures id in Demoted(b, s, h, ports).info && SameEntry(b.info[id], Demoted(b, s, h, ports).info[id])
    ensures Demoted(b, s, h, ports).tried == b.tried - {s}
    ensures KeepsAllButOne(b.addrs, Demoted(b, s, h, ports).addrs)
  {
    EvictForOther(b, h, ports, id, s);
    var id2 := b.tried[s];
    var home := HomeSlot(b.info[id2], h);
    var c := Evicted(b, s);
    ClearForTwo(c, h, ports, id, id2, 2, home);
    LinkForOther(Cleared(c, home, ports), h, ports, id, id2);
  }

  // ---------------------------------------------------------------------------------------
  // MakeTried.
  // ---------------------------------------------------------------------------------------

  /** The slots of `id`, whose address is `a`, in the first `n` buckets of the new table are emptied. */
  function Drained(b: Book, id: int, a: Service, h: Hashing, n: nat): Book {
    if n == 0 then b
    else
      var c := Drained(b, id, a, h, n - 1);
      var s := h.NewSlot(a, n - 1);
      if s in c.news && c.news[s] == id then Unlinked(c, s) else c
  }

  /** The slots of `id` in the buckets below `n` are gone; nothing but its reference count has changed. */
  ghost predicate Draining(b: Book, h: Hashing, ports: bool, id: int, n: nat, x: Info, start: Book) {
    && Inv(b, h, ports, {id}, 0)
    && id in b.info && !x.fInTried && b.info[id] == x.(nRefCount := b.info[id].nRefCount)
    && (forall s :: s in SlotsOf(b.news, id) ==> s.bucket >= n)
    && b == start.(news := b.news, info := start.info[id := b.info[id]]) && KeepsOthers(start.news, b.news, id)
  }

  /** Only slots of `id` are gone. */
  ghost predicate KeepsOthers(t: Table, u: Table, id: int) {
    && (forall s :: s in u ==> s in t && u[s] == t[s])
    && (forall s :: s in t && t[s] != id ==> s in u)
  }

  lemma DrainStep(b: Book, c: Book, h: Hashing, ports: bool, id: int, n: nat, x: Info, start: Book)
    requires Draining(b, h, ports, id, n, x, start)
    requires var s := h.NewSlot(x.addr, n); c == if s in b.news && b.news[s] == id then Unlinked(b, s) else b
    ensures Draining(c, h, ports, id, n + 1, x, start)
  {
    hide RandomOk, NewsOk, TriedOk, RefsOk, AddrsOk, CountsOk, KeepsOthers;
    var s := h.NewSlot(x.addr, n);
    SlotsInBucket(b, h, id, n);
    if s in b.news && b.news[s] == id {
      UnlinkInv(b, h, ports, {id}, 0, s);
      SlotsOfRemove(b.news, s, id);
      OneLess(start.news, b.news, id, s);
      assert {id} + {id} == {id};
    }
  }

  lemma OneLess(t: Table, u: Table, id: int, s: Slot)
    requires KeepsOthers(t, u, id) && s in u && u[s] == id
    ensures KeepsOthers(t, u - {s}, id)
  {
  }

  /** The only slot of `id` in a bucket is its hashed place. */
  lemma SlotsInBucket(b: Book, h: Hashing, id: int, n: nat)
    requires NewsOk(b, h) && id in b.info
    ensures forall s :: s in SlotsOf(b.news, id) && s.bucket == n ==> s == h.NewSlot(b.info[id].addr, n)
  {
    forall s | s in SlotsOf(b.news, id) && s.bucket == n
      ensures s == h.NewSlot(b.info[id].addr, n)
    {
      assert NewPlaced(b, h, s);
    }
  }

  lemma DrainStart(b: Book, h: Hashing, ports: bool, id: int)
    requires Consistent(b, h, ports) && id in b.info && !b.info[id].fInTried
    ensures Draining(b, h, ports, id, 0, b.info[id], b)
  {
    LoosenOne(b, h, ports, id);
  }

  lemma {:induction false} DrainedInv(b: Book, h: Hashing, ports: bool, id: int, n: nat)
    requires Consistent(b, h, ports) && id in b.info && !b.info[id].fInTried
    ensures Draining(Drained(b, id, b.info[id].addr, h, n), h, ports, id, n, b.info[id], b)
  {
    hide Draining, Consistent, Unlinked;
    if n == 0 {
      DrainStart(b, h, ports, id);
    } else {
      var a := b.info[id].addr;
      DrainedInv(b, h, ports, id, n - 1);
      DrainStep(Drained(b, id, a, h, n - 1), Drained(b, id, a, h, n), h, ports, id, n - 1, b.info[id], b);
    }
  }

  /** A consistent book is consistent with one entry allowed to be in transit. */
  lemma LoosenOne(b: Book, h: Hashing, ports: bool, id: int)
    requires Consistent(b, h, ports)
    ensures Inv(b, h, ports, {id}, 0)
  {
    forall j | j in b.info && !b.info[j].fInTried
      ensures RefCounted(b, {id}, j)
    {
      assert RefCounted(b, {}, j);
    }
  }

  /** Once all buckets are drained, the entry has no references: the assertion in MakeTried. */
  lemma NoSlotsLeft(b: Book, h: Hashing, id: int)
    requires NewsOk(b, h) && RefsOk(b, {id}) && id in b.info && !b.info[id].fInTried
    requires forall s :: s in SlotsOf(b.news, id) ==> s.bucket >= NEW_BUCKET_COUNT
    ensures Unreferenced(b, id)
  {
    forall s | s in b.news
      ensures s !in SlotsOf(b.news, id)
    {
      assert NewPlaced(b, h, s);
    }
    assert SlotsOf(b.news, id) == {};
    assert RefCounted(b, {id}, id);
  }

  lemma AllGone(t: Table, b: Book, h: Hashing, id: int)
    requires KeepsOthers(t, b.news, id) && NewsOk(b, h) && id in b.info
    requires forall s :: s in SlotsOf(b.news, id) ==> s.bucket >= NEW_BUCKET_COUNT
    ensures b.news == t - SlotsOf(t, id)
  {
    forall s | s in b.news
      ensures b.news[s] != id
    {
      assert NewPlaced(b, h, s);
      assert s !in SlotsOf(b.news, id);
    }
  }

  /** `id` is out of the new table and no longer counted there. */
  function Delisted(b: Book, id: int, a: Service, h: Hashing): Book {
    var c := Drained(b, id, a, h, NEW_BUCKET_COUNT);
    c.(nNew := c.nNew - 1)
  }

  lemma DelistInv(b: Book, h: Hashing, ports: bool, id: int)
    requires Consistent(b, h, ports) && id in b.info && !b.info[id].fInTried
    ensures var c := Delisted(b, id, b.info[id].addr, h);
            && Inv(c, h, ports, {id}, 1) && Unreferenced(c, id)
            && c == b.(news := b.news - SlotsOf(b.news, id), info := b.info[id := b.info[id].(nRefCount := 0)],
                       nNew := b.nNew - 1)
  {
    hide Drained, RandomOk, NewsOk, TriedOk, AddrsOk;
    var c := Drained(b, id, b.info[id].addr, h, NEW_BUCKET_COUNT);
    DrainedInv(b, h, ports, id, NEW_BUCKET_COUNT);
    NoSlotsLeft(c, h, id);
    AllGone(b.news, c, h, id);
    CountInv(c, h, ports, {id}, 0, -1);
  }

  function RoomMade(b: Book, s: Slot, h: Hashing, ports: bool): Book {
    if s in b.tried then Demoted(b, s, h, ports) else b
  }

  /** The whole of MakeTried. */
  function MadeTried(b: Book, id: int, a: Service, h: Hashing, ports: bool): Book {
    Promoted(RoomMade(Delisted(b, id, a, h), h.TriedSlot(a), h, ports), id, h)
  }

  /** The same address and statistics; only links, references and the tried flag may differ. */
  predicate SameStats(x: Info, y: Info) {
    y == x.(nRefCount := y.nRefCount, fInTried := y.fInTried, nRandomPos := y.nRandomPos)
  }

  lemma RoomInv(b: Book, h: Hashing, ports: bool, id: int)
    requires Inv(b, h, ports, {id}, 1) && Unreferenced(b, id)
    ensures var s := h.TriedSlot(b.info[id].addr);
            var c := RoomMade(b, s, h, ports);
            && Inv(c, h, ports, {id}, 1) && Unreferenced(c, id) && SameEntry(b.info[id], c.info[id])
            && s !in c.tried && KeepsAllButOne(b.addrs, c.addrs)
  {
    var s := h.TriedSlot(b.info[id].addr);
    if s in b.tried {
      DemoteInv(b, h, ports, id, s);
    } else {
      assert KeepsAllBut(b.addrs, b.addrs, Service(0, 0));
    }
  }

  lemma MakeTriedInv(b: Book, h: Hashing, ports: bool, id: int)
    requires Consistent(b, h, ports) && id in b.info && !b.info[id].fInTried
    ensures var c := MadeTried(b, id, b.info[id].addr, h, ports);
            && Consistent(c, h, ports)
            && id in c.info && c.info[id].fInTried && SameStats(b.info[id], c.info[id])
            && KeepsAllButOne(b.addrs, c.addrs)
  {
    var d := Delisted(b, id, b.info[id].addr, h);
    DelistInv(b, h, ports, id);
    RoomInv(d, h, ports, id);
    var e := RoomMade(d, h.TriedSlot(b.info[id].addr), h, ports);
    PromoteInv(e, h, ports, {id}, 1, id);
    assert {id} - {id} == {};
  }

  /**
   The whole effect of MakeTried, up to the order of vRandom: the entry leaves all its slots in the new
   table and takes its place in the tried table. If that is taken, the occupant goes back to the new
   table with one reference, to the slot that its own source gives it, and what was there gives way.
   */
  ghost predicate MovedToTried(b: Book, c: Book, id: int, h: Hashing, ports: bool)
    requires id in b.info
  {
    var s, left := h.TriedSlot(b.info[id].addr), b.news - SlotsOf(b.news, id);
    && c.tried == b.tried[s := id] && c.nextId == b.nextId
    && id in c.info && SameEntry(b.info[id].(nRefCount := 0, fInTried := true), c.info[id])
    && if s in b.tried && b.tried[s] in b.info then
         var x := b.tried[s];
         var home := h.NewSlot(b.info[x].addr, h.NewBucket(b.info[x].addr, b.info[x].source));
         && x != id && c.news == left[home := x]
         && x in c.info && SameEntry(b.info[x].(nRefCount := 1, fInTried := false), c.info[x])
         && GivenUp(b.(news := left), c, home, {id, x}, ports)
       else c.news == left && c.addrs == b.addrs && OthersSame(b, c, {id})
  }

  lemma MakeTriedMoves(b: Book, h: Hashing, ports: bool, id: int)
    requires Consistent(b, h, ports) && id in b.info && !b.info[id].fInTried
    ensures MovedToTried(b, MadeTried(b, id, b.info[id].addr, h, ports), id, h, ports)
  {
    hide RandomOk, NewsOk, TriedOk, RefsOk, AddrsOk, CountsOk, Delisted, Demoted, SlotsOf;
    var s, left := h.TriedSlot(b.info[id].addr), b.news - SlotsOf(b.news, id);
    var d := Delisted(b, id, b.info[id].addr, h);
    DelistInv(b, h, ports, id);
    if s in b.tried {
      TriedEntry(b, h, id, s);
      DemoteMoves(d, h, ports, id, s);
      var x := b.tried[s];
      var home := HomeSlot(b.info[x], h);
      var c := MadeTried(b, id, b.info[id].addr, h, ports);
      GivenUpFrom(b.(news := left), d, Demoted(d, s, h, ports), c, home, id, x, ports);
    }
  }

  lemma TriedEntry(b: Book, h: Hashing, id: int, s: Slot)
    requires TriedOk(b, h) && s in b.tried && id in b.info && !b.info[id].fInTried
    ensures b.tried[s] in b.info && b.tried[s] != id && b.info[b.tried[s]].fInTried && b.info[b.tried[s]].nRefCount == 0
  {
    assert TriedPlaced(b, h, s);
    assert TriedFound(b, h, b.tried[s]);
  }

  /** The same of the eviction alone, while `id` is in transit. */
  lemma DemoteMoves(d: Book, h: Hashing, ports: bool, id: int, s: Slot)
    requires Inv(d, h, ports, {id}, 1) && s in d.tried && Unreferenced(d, id)
    ensures d.tried[s] in d.info && d.tried[s] != id
    ensures var x, e := d.tried[s], Demoted(d, s, h, ports);
            var home := HomeSlot(d.info[x], h);
            && e.news == d.news[home := x] && e.tried == d.tried - {s} && e.nextId == d.nextId
            && x in e.info && SameEntry(d.info[x].(nRefCount := 1, fInTried := false), e.info[x])
            && id in e.info && SameEntry(d.info[id], e.info[id]) && GivenUp(d, e, home, {x}, ports)
  {
    hide RandomOk, NewsOk, TriedOk, RefsOk, AddrsOk, CountsOk, Cleared;
    EvictForOther(d, h, ports, id, s);
    var x := d.tried[s];
    var home := HomeSlot(d.info[x], h);
    var c := Evicted(d, s);
    UnreferencedNowhere(c, {id, x}, x, home);
    UnreferencedNowhere(c, {id, x}, id, home);
    ClearForTwo(c, h, ports, id, x, 2, home);
    ClearedIs(c, home, ports);
    assert (d.news - {home})[home := x] == d.news[home := x];
  }

  /** Moving `id` on does not matter to what was given up. */
  lemma GivenUpFrom(b: Book, d: Book, e: Book, c: Book, s: Slot, id: int, x: int, ports: bool)
    requires GivenUp(d, e, s, {x}, ports) && id in b.info && id in d.info && id in e.info && (s in b.news ==> b.news[s] != id)
    requires d.news == b.news && d.addrs == b.addrs && d.info == b.info[id := d.info[id]]
    requires c.addrs == e.addrs && c.info.Keys == e.info.Keys && forall j :: j in e.info && j != id ==> c.info[j] == e.info[j]
    ensures GivenUp(b, c, s, {id, x}, ports)
  {
  }

  /** What holds on the way through MakeTried: whatever it reads or asserts is there. */
  ghost predicate MakeTriedReady(b: Book, id: int, h: Hashing, ports: bool) {
    && id in b.info && id >= 0
    && var s := h.TriedSlot(b.info[id].addr);
       var c := Delisted(b, id, b.info[id].addr, h);
       && (s in c.tried ==> DemoteReady(c, s, h, ports))
       && id in RoomMade(c, s, h, ports).info
  }

  lemma MakeTriedIsReady(b: Book, h: Hashing, ports: bool, id: int)
    requires Consistent(b, h, ports) && id in b.info && !b.info[id].fInTried
    ensures MakeTriedReady(b, id, h, ports)
  {
    var s := h.TriedSlot(b.info[id].addr);
    var c := Delisted(b, id, b.info[id].addr, h);
    DelistInv(b, h, ports, id);
    RoomInv(c, h, ports, id);
    if s in c.tried {
      DemoteInv(c, h, ports, id, s);
    }
  }
}
