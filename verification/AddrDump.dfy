/**
 Saving and loading the address manager (src/addrman.h). The stream is modelled as the structured
 value that its bytes spell out; ids are not saved, so loading renames them.
 */
module AddrDump {
  import opened AddrBook

  /** What is written of an entry; the rest is in memory only. */
  datatype Record = Record(
    addr: Service, nServices: nat, nTime: int, source: NetAddr, nLastSuccess: int, nAttempts: int)

  datatype Dump = Dump(
    version: nat, h: Hashing, nNew: int, nTried: int, buckets: int,
    news: seq<Record>, tried: seq<Record>, slots: seq<seq<int>>)

  function RecordOf(x: Info): Record {
    Record(x.addr, x.nServices, x.nTime, x.source, x.nLastSuccess, x.nAttempts)
  }

  function InfoOf(r: Record, pos: int, tried: bool): Info {
    Info(r.addr, r.nServices, r.nTime, r.source, 0, 0, r.nLastSuccess, r.nAttempts, 0, tried, pos)
  }

  // ---------------------------------------------------------------------------------------
  // Saving.
  // ---------------------------------------------------------------------------------------

  /** The two passes over the entries: those with references, and the tried ones. */
  predicate Chosen(x: Info, tried: bool) {
    if tried then x.fInTried else x.nRefCount != 0
  }

  /** The chosen ids below `n`, in order. */
  function IdsBelow(b: Book, n: nat, tried: bool): (ids: seq<int>)
    ensures |ids| <= n
    ensures forall k :: 0 <= k < |ids| ==> 0 <= ids[k] < n && ids[k] in b.info && Chosen(b.info[ids[k]], tried)
  {
    if n == 0 then []
    else if n - 1 in b.info && Chosen(b.info[n - 1], tried) then IdsBelow(b, n - 1, tried) + [n - 1]
    else IdsBelow(b, n - 1, tried)
  }

  /** The number written for an entry of the new table. */
  function Rank(b: Book, id: int, tried: bool): nat {
    if id < 0 then 0 else |IdsBelow(b, id, tried)|
  }

  function RecordsBelow(b: Book, n: nat, tried: bool): (rs: seq<Record>)
    ensures |rs| == |IdsBelow(b, n, tried)|
    ensures forall k :: 0 <= k < |rs| ==> rs[k] == RecordOf(b.info[IdsBelow(b, n, tried)[k]])
  {
    var ids := IdsBelow(b, n, tried);
    seq(|ids|, k requires 0 <= k < |ids| => RecordOf(b.info[ids[k]]))
  }

  /** The numbers of the entries in the first `p` slots of a bucket. */
  function Indexes(b: Book, bucket: nat, p: nat): seq<int> {
    if p == 0 then []
    else Indexes(b, bucket, p - 1)
         + if Slot(bucket, p - 1) in b.news then [Rank(b, b.news[Slot(bucket, p - 1)], false)] else []
  }

  function BucketsBelow(b: Book, n: nat): seq<seq<int>> {
    seq(n, bucket requires 0 <= bucket < n => Indexes(b, bucket, BUCKET_SIZE))
  }

  function DumpOf(b: Book, h: Hashing): Dump
    requires b.nextId >= 0
  {
    Dump(1, h, b.nNew, b.nTried, NEW_BUCKET_COUNT,
      RecordsBelow(b, b.nextId, false), RecordsBelow(b, b.nextId, true), BucketsBelow(b, NEW_BUCKET_COUNT))
  }

  // ---------------------------------------------------------------------------------------
  // Loading.
  // ---------------------------------------------------------------------------------------

  function Empty(): Book {
    Book(map[], map[], [], map[], map[], 0, 0, 0)
  }

  /** Lists a loaded entry under `id`, without looking at the ports. */
  function Enlisted(b: Book, id: int, r: Record, tried: bool): Book {
    b.(info := b.info[id := InfoOf(r, |b.random|, tried)],
       addrs := b.addrs[r.addr := id],
       random := b.random + [id])
  }

  /** An entry of the new table; if the saved slots are unusable it is placed by its own source. */
  function LoadNew(b: Book, n: nat, r: Record, h: Hashing, usable: bool): Book {
    var c := Enlisted(b, n, r, false);
    var s := h.NewSlot(r.addr, h.NewBucket(r.addr, r.source));
    if usable || s in c.news then c else Linked(c, n, s)
  }

  function LoadNews(b: Book, rs: seq<Record>, n: nat, h: Hashing, usable: bool): Book
    requires n <= |rs|
  {
    if n == 0 then b else LoadNew(LoadNews(b, rs, n - 1, h, usable), n - 1, rs[n - 1], h, usable)
  }

  /** An entry of the tried table, lost if its place is taken. */
  function LoadTriedOne(b: Book, r: Record, h: Hashing): Book {
    var s := h.TriedSlot(r.addr);
    if s in b.tried then b.(nTried := b.nTried - 1)
    else Enlisted(b, b.nextId, r, true).(tried := b.tried[s := b.nextId], nextId := b.nextId + 1)
  }

  function LoadTried(b: Book, rs: seq<Record>, n: nat, h: Hashing): Book
    requires n <= |rs|
  {
    if n == 0 then b else LoadTriedOne(LoadTried(b, rs, n - 1, h), rs[n - 1], h)
  }

  /** One saved slot: the position is recomputed, and a taken one is left alone. */
  function LoadSlot(b: Book, bucket: nat, index: int, h: Hashing, usable: bool): Book {
    if !usable || !(0 <= index < b.nNew) || index !in b.info then b
    else
      var s := h.NewSlot(b.info[index].addr, bucket);
      if s in b.news || b.info[index].nRefCount >= NEW_BUCKETS_PER_ADDRESS then b else Linked(b, index, s)
  }

  function LoadBucket(b: Book, bucket: nat, xs: seq<int>, n: nat, h: Hashing, usable: bool): Book
    requires n <= |xs|
  {
    if n == 0 then b else LoadSlot(LoadBucket(b, bucket, xs, n - 1, h, usable), bucket, xs[n - 1], h, usable)
  }

  function LoadBuckets(b: Book, slots: seq<seq<int>>, n: nat, h: Hashing, usable: bool): Book
    requires n <= |slots|
  {
    if n == 0 then b
    else LoadBucket(LoadBuckets(b, slots, n - 1, h, usable), n - 1, slots[n - 1], |slots[n - 1]|, h, usable)
  }

  /** Entries below `n` that ended up in no slot are deleted. */
  function Pruned(b: Book, n: nat, ports: bool): Book {
    if n == 0 then b
    else
      var c := Pruned(b, n - 1, ports);
      if n - 1 in c.info && !c.info[n - 1].fInTried && c.info[n - 1].nRefCount == 0 then Deleted(c, n - 1, ports) else c
  }

  predicate Usable(d: Dump) {
    d.version == 1 && d.buckets == NEW_BUCKET_COUNT
  }

  /** A stream from which all announced records and buckets can be read. */
  predicate Complete(d: Dump) {
    |d.news| == d.nNew && |d.tried| == d.nTried && |d.slots| == d.buckets
  }

  /** The header limits that loading enforces. */
  predicate InLimits(d: Dump) {
    d.nNew <= NEW_BUCKET_COUNT * BUCKET_SIZE && d.nTried <= TRIED_BUCKET_COUNT * BUCKET_SIZE
  }

  function Entered(d: Dump): Book
    requires Complete(d)
  {
    var start := Empty().(nNew := d.nNew, nTried := d.nTried);
    var b := LoadNews(start, d.news, |d.news|, d.h, Usable(d)).(nextId := d.nNew);
    LoadBuckets(LoadTried(b, d.tried, |d.tried|, d.h), d.slots, |d.slots|, d.h, Usable(d))
  }

  function Loaded(d: Dump, ports: bool): Book
    requires Complete(d) && InLimits(d)
  {
    Pruned(Entered(d), d.nNew + d.nTried, ports)
  }

  // ---------------------------------------------------------------------------------------
  // The renaming of ids.
  // ---------------------------------------------------------------------------------------

  lemma {:induction false} IdAtRank(b: Book, n: nat, tried: bool, id: int)
    requires 0 <= id < n && id in b.info && Chosen(b.info[id], tried)
    ensures Rank(b, id, tried) < |IdsBelow(b, n, tried)| && IdsBelow(b, n, tried)[Rank(b, id, tried)] == id
  {
    if id < n - 1 {
      IdAtRank(b, n - 1, tried, id);
    }
  }

  lemma {:induction false} RankOfId(b: Book, n: nat, tried: bool, k: nat)
    requires k < |IdsBelow(b, n, tried)|
    ensures Rank(b, IdsBelow(b, n, tried)[k], tried) == k
  {
    if n - 1 in b.info && Chosen(b.info[n - 1], tried) && k == |IdsBelow(b, n - 1, tried)| {
    } else {
      RankOfId(b, n - 1, tried, k);
    }
  }

  ghost function ChosenIds(b: Book, n: nat, tried: bool): set<int> {
    set id | id in b.info && 0 <= id < n && Chosen(b.info[id], tried)
  }

  lemma {:induction false} IdsCount(b: Book, n: nat, tried: bool)
    ensures |IdsBelow(b, n, tried)| == |ChosenIds(b, n, tried)|
  {
    if n == 0 {
      assert ChosenIds(b, 0, tried) == {};
    } else {
      IdsCount(b, n - 1, tried);
      if n - 1 in b.info && Chosen(b.info[n - 1], tried) {
        assert ChosenIds(b, n, tried) == ChosenIds(b, n - 1, tried) + {n - 1};
      } else {
        assert ChosenIds(b, n, tried) == ChosenIds(b, n - 1, tried);
      }
    }
  }

  /** In a consistent book the two passes together write every entry once. */
  lemma ChosenIsState(b: Book, h: Hashing, ports: bool, id: int)
    requires Consistent(b, h, ports) && id in b.info
    ensures Chosen(b.info[id], false) <==> !b.info[id].fInTried
    ensures 0 <= id < b.nextId && b.info[id].nRefCount >= 0
  {
    if b.info[id].fInTried {
      assert TriedFound(b, h, id);
    } else {
      assert RefCounted(b, {}, id);
    }
  }

  /** The counters are the numbers of records written, so the asserts of the writer hold. */
  lemma RecordCounts(b: Book, h: Hashing, ports: bool)
    requires Consistent(b, h, ports)
    ensures |IdsBelow(b, b.nextId, false)| == b.nNew && |IdsBelow(b, b.nextId, true)| == b.nTried
  {
    hide Consistent;
    CountersOf(b, h, ports);
    IdsCount(b, b.nextId, false);
    IdsCount(b, b.nextId, true);
    forall id | id in b.info
      ensures Chosen(b.info[id], false) <==> !b.info[id].fInTried
      ensures 0 <= id < b.nextId
    {
      ChosenIsState(b, h, ports, id);
    }
    assert ChosenIds(b, b.nextId, false) == NewIds(b);
    assert ChosenIds(b, b.nextId, true) == TriedIds(b);
  }

  lemma CountersOf(b: Book, h: Hashing, ports: bool)
    requires Consistent(b, h, ports)
    ensures b.nNew == |NewIds(b)| && b.nTried == |TriedIds(b)| && b.nextId >= 0
  {
  }

  /** The entry that is loaded as number `k`. */
  ghost function OldId(b: Book, k: nat): int
    requires b.nextId >= 0
  {
    var all := IdsBelow(b, b.nextId, false) + IdsBelow(b, b.nextId, true);
    if k < |all| then all[k] else -1
  }

  /** The number under which an entry is loaded. */
  ghost function NewId(b: Book, id: int): int
    requires id in b.info
  {
    if b.info[id].fInTried then b.nNew + Rank(b, id, true) else Rank(b, id, false)
  }

  /** Renaming is a bijection between the entries and the numbers below their count. */
  lemma Renaming(b: Book, h: Hashing, ports: bool, id: int)
    requires Consistent(b, h, ports) && id in b.info
    ensures 0 <= NewId(b, id) < b.nNew + b.nTried && OldId(b, NewId(b, id)) == id
    ensures NewId(b, id) < b.nNew <==> !b.info[id].fInTried
  {
    hide Consistent, IdsBelow, Rank;
    ChosenIsState(b, h, ports, id);
    RecordCounts(b, h, ports);
    IdAtRank(b, b.nextId, b.info[id].fInTried, id);
  }

  lemma RenamingBack(b: Book, h: Hashing, ports: bool, k: nat)
    requires Consistent(b, h, ports) && k < b.nNew + b.nTried
    ensures OldId(b, k) in b.info && NewId(b, OldId(b, k)) == k
    ensures b.info[OldId(b, k)].fInTried <==> k >= b.nNew
  {
    hide Consistent, IdsBelow, Rank;
    RecordCounts(b, h, ports);
    var tried := k >= b.nNew;
    var i := if tried then k - b.nNew else k;
    RankOfId(b, b.nextId, tried, i);
    ChosenIsState(b, h, ports, OldId(b, k));
  }

  // ---------------------------------------------------------------------------------------
  // Loading what was saved: the entries.
  // ---------------------------------------------------------------------------------------

  /** Entry `j` of the loaded book is the saved one, at position `j`, with `refs` references. */
  ghost predicate EntryLoaded(x: Info, y: Info, j: int) {
    x == y.(nLastTry := 0, nLastCountAttempt := 0, nRefCount := x.nRefCount, nRandomPos := j)
  }

  function Iota(n: nat): (s: seq<int>)
    ensures |s| == n && forall i :: 0 <= i < n ==> s[i] == i
  {
    seq(n, i => i)
  }

  /** The first `k` entries have been listed. */
  ghost predicate Listing(c: Book, b: Book, k: nat) {
    && b.nextId >= 0 && k <= b.nNew + b.nTried && c.random == Iota(k)
    && (forall j :: j in c.info <==> 0 <= j < k)
    && (forall j :: 0 <= j < k ==> OldId(b, j) in b.info && EntryLoaded(c.info[j], b.info[OldId(b, j)], j))
  }

  /** The addresses of the first `k` entries lead to their numbers. */
  ghost predicate Addressed(c: Book, b: Book, k: nat) {
    && (forall a :: a in b.addrs ==> b.addrs[a] in b.info)
    && (forall a :: a in c.addrs <==> a in b.addrs && NewId(b, b.addrs[a]) < k)
    && (forall a :: a in c.addrs ==> c.addrs[a] == NewId(b, b.addrs[a]))
  }

  /** The tried slots of the first `k` entries lead to their numbers. */
  ghost predicate TriedListed(c: Book, b: Book, k: nat) {
    && (forall s :: s in b.tried ==> b.tried[s] in b.info)
    && (forall s :: s in c.tried <==> s in b.tried && NewId(b, b.tried[s]) < k)
    && (forall s :: s in c.tried ==> c.tried[s] == NewId(b, b.tried[s]))
  }

  /** Listing entry `k` under its number. */
  lemma EnlistStep(c: Book, b: Book, h: Hashing, k: nat)
    requires Consistent(b, h, true) && k < b.nNew + b.nTried && Listing(c, b, k) && Addressed(c, b, k)
    ensures OldId(b, k) in b.info
    ensures var x := b.info[OldId(b, k)];
      var e := Enlisted(c, k, RecordOf(x), x.fInTried);
      Listing(e, b, k + 1) && Addressed(e, b, k + 1)
  {
    hide Consistent, OldId, NewId;
    RenamingBack(b, h, true, k);
    var id := OldId(b, k);
    var x := b.info[id];
    var e := Enlisted(c, k, RecordOf(x), x.fInTried);
    EntryAddress(b, h, id);
    assert Iota(k + 1) == Iota(k) + [k];
    forall a | a in b.addrs
      ensures NewId(b, b.addrs[a]) == k <==> a == x.addr
    {
      Renaming(b, h, true, b.addrs[a]);
      EntryAddress(b, h, b.addrs[a]);
      AddressEntry(b, h, a);
    }
  }

  lemma EntryAddress(b: Book, h: Hashing, id: int)
    requires Consistent(b, h, true) && id in b.info
    ensures b.info[id].addr in b.addrs && b.addrs[b.info[id].addr] == id
  {
    assert AddrKnown(b, true, id);
  }

  lemma AddressEntry(b: Book, h: Hashing, a: Service)
    requires Consistent(b, h, true) && a in b.addrs
    ensures b.addrs[a] in b.info && b.info[b.addrs[a]].addr == a
  {
  }

  ghost predicate NoRefs(c: Book) {
    forall j :: j in c.info ==> c.info[j].nRefCount == 0
  }

  lemma NothingListed(c: Book, b: Book, h: Hashing)
    requires Consistent(b, h, true) && c.info == map[] && c.addrs == map[] && c.random == []
    ensures b.nextId >= 0 && Listing(c, b, 0) && Addressed(c, b, 0)
  {
    hide Consistent, NewId;
    CountersOf(b, h, true);
    forall a | a in b.addrs
      ensures b.addrs[a] in b.info && NewId(b, b.addrs[a]) >= 0
    {
      AddressEntry(b, h, a);
      Renaming(b, h, true, b.addrs[a]);
    }
  }

  /** The new records, in order. */
  lemma {:induction false} NewsLoaded(b: Book, h: Hashing, start: Book, k: nat)
    requires Consistent(b, h, true) && k <= b.nNew && b.nextId >= 0
    requires start == Empty().(nNew := b.nNew, nTried := b.nTried)
    requires |RecordsBelow(b, b.nextId, false)| == b.nNew
    ensures var c := LoadNews(start, RecordsBelow(b, b.nextId, false), k, h, true);
      && Listing(c, b, k) && Addressed(c, b, k) && NoRefs(c)
      && c.news == map[] && c.tried == map[] && c.nNew == b.nNew && c.nTried == b.nTried
  {
    hide Consistent, NewId, RecordsBelow, Listing, Addressed;
    RecordCounts(b, h, true);
    if k == 0 {
      NothingListed(start, b, h);
    } else {
      NewsLoaded(b, h, start, k - 1);
      var c := LoadNews(start, RecordsBelow(b, b.nextId, false), k - 1, h, true);
      EnlistStep(c, b, h, k - 1);
      RenamingBack(b, h, true, k - 1);
    }
  }

  /** A tried entry finds its place free, because no other saved entry has the same place. */
  lemma TriedStep(c: Book, b: Book, h: Hashing, k: nat)
    requires Consistent(b, h, true) && b.nNew <= k < b.nNew + b.nTried
    requires Listing(c, b, k) && Addressed(c, b, k) && TriedListed(c, b, k) && NoRefs(c) && c.nextId == k
    ensures OldId(b, k) in b.info
    ensures var e := LoadTriedOne(c, RecordOf(b.info[OldId(b, k)]), h);
      && Listing(e, b, k + 1) && Addressed(e, b, k + 1) && TriedListed(e, b, k + 1) && NoRefs(e)
      && e.nextId == k + 1 && e.news == c.news && e.nNew == c.nNew && e.nTried == c.nTried
  {
    hide Consistent, NewId, OldId;
    RenamingBack(b, h, true, k);
    var id := OldId(b, k);
    var x := b.info[id];
    EnlistStep(c, b, h, k);
    EntryTriedSlot(b, h, id);
    forall s | s in b.tried
      ensures NewId(b, b.tried[s]) == k <==> s == h.TriedSlot(x.addr)
    {
      TriedSlotEntry(b, h, s);
      Renaming(b, h, true, b.tried[s]);
    }
  }

  lemma EntryTriedSlot(b: Book, h: Hashing, id: int)
    requires Consistent(b, h, true) && id in b.info && b.info[id].fInTried
    ensures h.TriedSlot(b.info[id].addr) in b.tried && b.tried[h.TriedSlot(b.info[id].addr)] == id
  {
    assert TriedFound(b, h, id);
  }

  lemma TriedSlotEntry(b: Book, h: Hashing, s: Slot)
    requires Consistent(b, h, true) && s in b.tried
    ensures b.tried[s] in b.info && b.info[b.tried[s]].fInTried && s == h.TriedSlot(b.info[b.tried[s]].addr)
  {
    assert TriedPlaced(b, h, s);
  }

  lemma NoneTried(c: Book, b: Book, h: Hashing)
    requires Consistent(b, h, true) && c.tried == map[] && b.nNew >= 0
    ensures TriedListed(c, b, b.nNew)
  {
    hide Consistent, NewId;
    forall s | s in b.tried
      ensures b.tried[s] in b.info && NewId(b, b.tried[s]) >= b.nNew
    {
      TriedSlotEntry(b, h, s);
      Renaming(b, h, true, b.tried[s]);
    }
  }

  lemma {:induction false} TriedLoaded(b: Book, h: Hashing, start: Book, k: nat)
    requires Consistent(b, h, true) && k <= b.nTried && b.nNew >= 0 && b.nextId >= 0
    requires Listing(start, b, b.nNew) && Addressed(start, b, b.nNew) && NoRefs(start)
    requires start.news == map[] && start.tried == map[] && start.nextId == b.nNew
    requires |RecordsBelow(b, b.nextId, true)| == b.nTried
    ensures var c := LoadTried(start, RecordsBelow(b, b.nextId, true), k, h);
      && Listing(c, b, b.nNew + k) && Addressed(c, b, b.nNew + k) && TriedListed(c, b, b.nNew + k) && NoRefs(c)
      && c.nextId == b.nNew + k && c.news == map[] && c.nNew == start.nNew && c.nTried == start.nTried
  {
    hide Consistent, NewId, RecordsBelow, Listing, Addressed, TriedListed, NoRefs;
    RecordCounts(b, h, true);
    if k == 0 {
      NoneTried(start, b, h);
    } else {
      TriedLoaded(b, h, start, k - 1);
      var c := LoadTried(start, RecordsBelow(b, b.nextId, true), k - 1, h);
      TriedStep(c, b, h, b.nNew + k - 1);
    }
  }

  // ---------------------------------------------------------------------------------------
  // Loading what was saved: the new table.
  // ---------------------------------------------------------------------------------------

  /** Slot `s` comes before position `p` of `bucket` in the stream. */
  ghost predicate Before(s: Slot, bucket: nat, p: nat) {
    s.bucket < bucket || (s.bucket == bucket && s.pos < p)
  }

  /** The new slots up to a point of the stream have been filled, and references counted. */
  ghost predicate Filling(c: Book, b: Book, bucket: nat, p: nat) {
    && (forall s :: s in b.news ==> b.news[s] in b.info)
    && (forall s :: s in c.news <==> s in b.news && Before(s, bucket, p))
    && (forall s :: s in c.news ==> c.news[s] == NewId(b, b.news[s]))
    && (forall j :: j in c.info ==> c.info[j].nRefCount == |SlotsOf(c.news, j)|)
  }

  lemma NewSlotEntry(b: Book, h: Hashing, s: Slot)
    requires Consistent(b, h, true) && s in b.news
    ensures b.news[s] in b.info && !b.info[b.news[s]].fInTried
    ensures s.bucket < NEW_BUCKET_COUNT && s.pos < BUCKET_SIZE && s == h.NewSlot(b.info[b.news[s]].addr, s.bucket)
  {
    assert NewPlaced(b, h, s);
  }

  /** The slots of an entry, before and after renaming. */
  lemma SlotsRenamed(c: Book, b: Book, h: Hashing, bucket: nat, p: nat, id: int)
    requires Consistent(b, h, true) && Filling(c, b, bucket, p) && id in b.info
    ensures SlotsOf(c.news, NewId(b, id)) == set s | s in SlotsOf(b.news, id) && Before(s, bucket, p)
  {
    hide Consistent, NewId;
    forall s | s in b.news
      ensures NewId(b, b.news[s]) == NewId(b, id) <==> b.news[s] == id
    {
      Renaming(b, h, true, b.news[s]);
      Renaming(b, h, true, id);
    }
  }

  /** There is always room for one more reference. */
  lemma RoomForReference(c: Book, b: Book, h: Hashing, bucket: nat, p: nat)
    requires Consistent(b, h, true) && Filling(c, b, bucket, p) && Slot(bucket, p) in b.news
    ensures b.news[Slot(bucket, p)] in b.info
    ensures |SlotsOf(c.news, NewId(b, b.news[Slot(bucket, p)]))| < NEW_BUCKETS_PER_ADDRESS
  {
    hide NewId;
    var s := Slot(bucket, p);
    var id := b.news[s];
    NewSlotEntry(b, h, s);
    SlotsRenamed(c, b, h, bucket, p, id);
    assert RefCounted(b, {}, id);
    var done := SlotsOf(c.news, NewId(b, id));
    assert s in SlotsOf(b.news, id) && s !in done;
    SubsetCard(done + {s}, SlotsOf(b.news, id));
  }

  lemma {:induction false} SubsetCard<T>(a: set<T>, b: set<T>)
    requires a <= b
    ensures |a| <= |b|
  {
    if a != {} {
      var x :| x in a;
      SubsetCard(a - {x}, b - {x});
    }
  }

  /** The saved position of the entry in slot `s`, found again. */
  lemma SlotFoundAgain(c: Book, b: Book, h: Hashing, s: Slot)
    requires Consistent(b, h, true) && s in b.news && Filling(c, b, s.bucket, s.pos)
    requires Listing(c, b, b.nNew + b.nTried) && c.nNew == b.nNew
    ensures b.news[s] in b.info
    ensures LoadSlot(c, s.bucket, NewId(b, b.news[s]), h, true) == Linked(c, NewId(b, b.news[s]), s)
    ensures NewId(b, b.news[s]) in c.info && s !in c.news
  {
    hide Consistent, NewId, OldId;
    var id := b.news[s];
    NewSlotEntry(b, h, s);
    Renaming(b, h, true, id);
    RoomForReference(c, b, h, s.bucket, s.pos);
    assert EntryLoaded(c.info[NewId(b, id)], b.info[id], NewId(b, id));
    assert s !in c.news;
  }

  lemma LinkedListing(c: Book, b: Book, k: nat, j: int, s: Slot)
    requires Listing(c, b, k) && j in c.info
    ensures Listing(Linked(c, j, s), b, k)
  {
    hide OldId;
  }

  /** Loading one saved slot puts the entry back where it was. */
  lemma FillStep(c: Book, b: Book, h: Hashing, s: Slot)
    requires Consistent(b, h, true) && s in b.news && Filling(c, b, s.bucket, s.pos)
    requires Listing(c, b, b.nNew + b.nTried) && c.nNew == b.nNew
    ensures b.news[s] in b.info
    ensures var e := LoadSlot(c, s.bucket, NewId(b, b.news[s]), h, true);
      && Filling(e, b, s.bucket, s.pos + 1) && Listing(e, b, b.nNew + b.nTried)
      && e == c.(info := e.info, news := e.news)
  {
    hide Consistent, NewId, Listing, LoadSlot, SlotsOf;
    CountersOf(b, h, true);
    SlotFoundAgain(c, b, h, s);
    var j := NewId(b, b.news[s]);
    var e := Linked(c, j, s);
    LinkedListing(c, b, b.nNew + b.nTried, j, s);
    forall i | i in e.info
      ensures e.info[i].nRefCount == |SlotsOf(e.news, i)|
    {
      SlotsOfAdd(c.news, s, j, i);
      if i == j {
        NotYetOf(c.news, s, j);
      }
    }
  }

  lemma NotYetOf(t: Table, s: Slot, j: int)
    requires s !in t
    ensures |SlotsOf(t, j) + {s}| == |SlotsOf(t, j)| + 1
  {
  }

  /** One bucket, up to position `p`. */
  lemma {:induction false} BucketFilled(c: Book, b: Book, h: Hashing, bucket: nat, p: nat)
    requires Consistent(b, h, true) && Filling(c, b, bucket, 0) && p <= BUCKET_SIZE
    requires Listing(c, b, b.nNew + b.nTried) && c.nNew == b.nNew
    ensures var xs := Indexes(b, bucket, p);
      var e := LoadBucket(c, bucket, xs, |xs|, h, true);
      && Filling(e, b, bucket, p) && Listing(e, b, b.nNew + b.nTried) && e == c.(info := e.info, news := e.news)
  {
    hide Consistent, NewId, Listing, Filling, LoadSlot, Rank;
    if p > 0 {
      BucketFilled(c, b, h, bucket, p - 1);
      var ws, xs := Indexes(b, bucket, p - 1), Indexes(b, bucket, p);
      var e := LoadBucket(c, bucket, ws, |ws|, h, true);
      var s := Slot(bucket, p - 1);
      LoadPrefix(c, bucket, ws, xs, |ws|, h);
      if s in b.news {
        NewSlotEntry(b, h, s);
        FillStep(e, b, h, s);
        NewIdOfNew(b, b.news[s]);
        assert xs[|ws|] == NewId(b, b.news[s]);
      } else {
        SkipSlot(e, b, s);
        assert xs == ws;
      }
    }
  }

  lemma NewIdOfNew(b: Book, id: int)
    requires id in b.info && !b.info[id].fInTried
    ensures NewId(b, id) == Rank(b, id, false)
  {
  }

  lemma SkipSlot(c: Book, b: Book, s: Slot)
    requires Filling(c, b, s.bucket, s.pos) && s !in b.news
    ensures Filling(c, b, s.bucket, s.pos + 1)
  {
    hide NewId;
    forall t | t in b.news
      ensures Before(t, s.bucket, s.pos) <==> Before(t, s.bucket, s.pos + 1)
    {
      assert t != s;
    }
  }

  /** Only the first `n` numbers matter. */
  lemma {:induction false} LoadPrefix(c: Book, bucket: nat, ws: seq<int>, xs: seq<int>, n: nat, h: Hashing)
    requires n <= |ws| <= |xs| && ws == xs[..|ws|]
    ensures LoadBucket(c, bucket, ws, n, h, true) == LoadBucket(c, bucket, xs, n, h, true)
  {
    hide LoadSlot;
    if n > 0 {
      LoadPrefix(c, bucket, ws, xs, n - 1, h);
    }
  }

  lemma NextBucket(c: Book, b: Book, h: Hashing, bucket: nat)
    requires Consistent(b, h, true) && Filling(c, b, bucket, BUCKET_SIZE)
    ensures Filling(c, b, bucket + 1, 0)
  {
    hide Consistent, NewId;
    forall s | s in b.news
      ensures Before(s, bucket, BUCKET_SIZE) <==> Before(s, bucket + 1, 0)
    {
      NewSlotEntry(b, h, s);
    }
  }

  lemma {:induction false} BucketsFilled(c: Book, b: Book, h: Hashing, n: nat)
    requires Consistent(b, h, true) && n <= NEW_BUCKET_COUNT && c.news == map[] && NoRefs(c)
    requires Listing(c, b, b.nNew + b.nTried) && c.nNew == b.nNew
    ensures var e := LoadBuckets(c, BucketsBelow(b, NEW_BUCKET_COUNT), n, h, true);
      && Filling(e, b, n, 0) && Listing(e, b, b.nNew + b.nTried) && e == c.(info := e.info, news := e.news)
  {
    hide Consistent, NewId, Listing, LoadBucket, Indexes;
    if n == 0 {
      forall s | s in b.news
        ensures b.news[s] in b.info && !Before(s, 0, 0)
      {
        NewSlotEntry(b, h, s);
      }
      assert forall j :: SlotsOf(c.news, j) == {};
    } else {
      BucketsFilled(c, b, h, n - 1);
      var e := LoadBuckets(c, BucketsBelow(b, NEW_BUCKET_COUNT), n - 1, h, true);
      BucketFilled(e, b, h, n - 1, BUCKET_SIZE);
      NextBucket(LoadBuckets(c, BucketsBelow(b, NEW_BUCKET_COUNT), n, h, true), b, h, n - 1);
    }
  }

  // ---------------------------------------------------------------------------------------
  // The round trip.
  // ---------------------------------------------------------------------------------------

  /** `c` is `b` with every id replaced, memory-only statistics reset and vRandom in load order. */
  ghost predicate Renamed(c: Book, b: Book) {
    && b.nNew + b.nTried >= 0
    && Listing(c, b, b.nNew + b.nTried) && Addressed(c, b, b.nNew + b.nTried)
    && TriedListed(c, b, b.nNew + b.nTried)
    && (forall s :: s in b.news ==> b.news[s] in b.info)
    && (forall s :: s in c.news <==> s in b.news)
    && (forall s :: s in c.news ==> c.news[s] == NewId(b, b.news[s]))
    && (forall j :: j in c.info ==> c.info[j].nRefCount == b.info[OldId(b, j)].nRefCount)
    && c.nNew == b.nNew && c.nTried == b.nTried && c.nextId == b.nNew + b.nTried
  }

  lemma EntriesLoaded(b: Book, h: Hashing)
    requires Consistent(b, h, true)
    ensures b.nextId >= 0 && Complete(DumpOf(b, h))
    ensures var c := Entered(DumpOf(b, h));
      && Filling(c, b, NEW_BUCKET_COUNT, 0) && Listing(c, b, b.nNew + b.nTried)
      && Addressed(c, b, b.nNew + b.nTried) && TriedListed(c, b, b.nNew + b.nTried)
      && c.nNew == b.nNew && c.nTried == b.nTried && c.nextId == b.nNew + b.nTried
  {
    hide Consistent, Filling, Listing, Addressed, TriedListed, NoRefs, LoadNews, LoadTried, LoadBuckets, RecordsBelow, IdsBelow;
    CountersOf(b, h, true);
    RecordCounts(b, h, true);
    var start := Empty().(nNew := b.nNew, nTried := b.nTried);
    NewsLoaded(b, h, start, b.nNew);
    var c := LoadNews(start, RecordsBelow(b, b.nextId, false), b.nNew, h, true);
    var d := c.(nextId := b.nNew);
    SameListing(c, d, b, b.nNew);
    TriedLoaded(b, h, d, b.nTried);
    var e := LoadTried(d, RecordsBelow(b, b.nextId, true), b.nTried, h);
    BucketsFilled(e, b, h, NEW_BUCKET_COUNT);
    var f := LoadBuckets(e, BucketsBelow(b, NEW_BUCKET_COUNT), NEW_BUCKET_COUNT, h, true);
    SameListed(e, f, b, b.nNew + b.nTried);
  }

  lemma SameListing(c: Book, d: Book, b: Book, k: nat)
    requires Listing(c, b, k) && Addressed(c, b, k) && NoRefs(c) && d == c.(nextId := d.nextId)
    ensures Listing(d, b, k) && Addressed(d, b, k) && NoRefs(d)
  {
  }

  lemma SameListed(c: Book, d: Book, b: Book, k: nat)
    requires Addressed(c, b, k) && TriedListed(c, b, k) && d == c.(info := d.info, news := d.news)
    ensures Addressed(d, b, k) && TriedListed(d, b, k)
  {
  }

  /** Every reference that was saved is restored. */
  lemma RefsRestored(c: Book, b: Book, h: Hashing)
    requires Consistent(b, h, true) && Filling(c, b, NEW_BUCKET_COUNT, 0) && Listing(c, b, b.nNew + b.nTried)
    ensures forall s :: s in c.news <==> s in b.news
    ensures forall j :: j in c.info ==> c.info[j].nRefCount == b.info[OldId(b, j)].nRefCount
  {
    hide NewId, OldId;
    forall s | s in b.news
      ensures Before(s, NEW_BUCKET_COUNT, 0)
    {
      NewSlotEntry(b, h, s);
    }
    forall j | j in c.info
      ensures c.info[j].nRefCount == b.info[OldId(b, j)].nRefCount
    {
      RenamingBack(b, h, true, j);
      var id := OldId(b, j);
      SlotsRenamed(c, b, h, NEW_BUCKET_COUNT, 0, id);
      assert SlotsOf(c.news, j) == SlotsOf(b.news, id);
      if b.info[id].fInTried {
        assert TriedFound(b, h, id);
        NoSlotsOfTried(b, h, id);
      } else {
        assert RefCounted(b, {}, id);
      }
    }
  }

  lemma {:induction false} NothingPruned(c: Book, n: nat, ports: bool)
    requires forall j :: j in c.info && !c.info[j].fInTried ==> c.info[j].nRefCount != 0
    ensures Pruned(c, n, ports) == c
  {
    if n > 0 {
      NothingPruned(c, n - 1, ports);
    }
  }

  lemma {:induction false} ValuesCard(t: Table)
    ensures |t.Values| <= |t|
  {
    if t.Keys == {} {
      assert t.Values == {};
    } else {
      var s :| s in t;
      var u := t - {s};
      ValuesCard(u);
      forall v | v in t.Values
        ensures v in u.Values + {t[s]}
      {
        var k :| k in t && t[k] == v;
        assert k != s ==> k in u && u[k] == v;
      }
      SubsetCard(t.Values, u.Values + {t[s]});
      assert t.Keys == u.Keys + {s};
      assert |t| == |t.Keys| && |u| == |u.Keys|;
    }
  }

  ghost function Row(i: nat, m: nat): set<Slot> {
    set j | 0 <= j < m :: Slot(i, j)
  }

  ghost function Grid(n: nat): set<Slot> {
    set i, j | 0 <= i < n && 0 <= j < BUCKET_SIZE :: Slot(i, j)
  }

  lemma {:induction false} GridCard(n: nat)
    ensures |Grid(n)| == n * BUCKET_SIZE
  {
    if n == 0 {
      assert Grid(0) == {};
    } else {
      GridCard(n - 1);
      RowCard(n - 1, BUCKET_SIZE);
      assert Grid(n) == Grid(n - 1) + Row(n - 1, BUCKET_SIZE);
      assert Grid(n - 1) !! Row(n - 1, BUCKET_SIZE);
    }
  }

  lemma {:induction false} RowCard(i: nat, m: nat)
    ensures |Row(i, m)| == m
  {
    if m == 0 {
      assert Row(i, 0) == {};
    } else {
      RowCard(i, m - 1);
      assert Row(i, m) == Row(i, m - 1) + {Slot(i, m - 1)};
    }
  }

  /** A table holds no more different ids than it has slots. */
  lemma TableBound(t: Table, ids: set<int>, n: nat)
    requires ids <= t.Values && forall s :: s in t ==> s.bucket < n && s.pos < BUCKET_SIZE
    ensures |ids| <= n * BUCKET_SIZE
  {
    SubsetCard(ids, t.Values);
    ValuesCard(t);
    assert t.Keys <= Grid(n);
    SubsetCard(t.Keys, Grid(n));
    GridCard(n);
    assert |t| == |t.Keys|;
  }

  /** The limits that loading enforces hold for everything that is saved. */
  lemma SavedInLimits(b: Book, h: Hashing, ports: bool)
    requires Consistent(b, h, ports)
    ensures b.nNew <= NEW_BUCKET_COUNT * BUCKET_SIZE && b.nTried <= TRIED_BUCKET_COUNT * BUCKET_SIZE
  {
    forall id | id in NewIds(b)
      ensures id in b.news.Values
    {
      assert RefCounted(b, {}, id);
      var s :| s in SlotsOf(b.news, id);
    }
    forall id | id in TriedIds(b)
      ensures id in b.tried.Values
    {
      assert TriedFound(b, h, id);
    }
    forall s | s in b.news
      ensures s.bucket < NEW_BUCKET_COUNT && s.pos < BUCKET_SIZE
    {
      assert NewPlaced(b, h, s);
    }
    forall s | s in b.tried
      ensures s.bucket < TRIED_BUCKET_COUNT && s.pos < BUCKET_SIZE
    {
      assert TriedPlaced(b, h, s);
    }
    TableBound(b.news, NewIds(b), NEW_BUCKET_COUNT);
    TableBound(b.tried, TriedIds(b), TRIED_BUCKET_COUNT);
  }

  lemma RenamedNews(c: Book, b: Book)
    requires Filling(c, b, NEW_BUCKET_COUNT, 0)
    ensures forall s :: s in b.news ==> b.news[s] in b.info
    ensures forall s :: s in c.news ==> c.news[s] == NewId(b, b.news[s])
  {
  }

  lemma AllReferenced(c: Book, b: Book, h: Hashing)
    requires Consistent(b, h, true) && Listing(c, b, b.nNew + b.nTried)
    requires forall j :: j in c.info ==> c.info[j].nRefCount == b.info[OldId(b, j)].nRefCount
    ensures forall j :: j in c.info && !c.info[j].fInTried ==> c.info[j].nRefCount != 0
  {
    hide Consistent, OldId;
    forall j | j in c.info && !c.info[j].fInTried
      ensures c.info[j].nRefCount != 0
    {
      ChosenIsState(b, h, true, OldId(b, j));
    }
  }

  /** What is entered is the saved book up to the names of the ids, with every entry in some slot. */
  lemma EnteredRenamed(b: Book, h: Hashing)
    requires Consistent(b, h, true)
    ensures b.nextId >= 0 && Complete(DumpOf(b, h)) && Renamed(Entered(DumpOf(b, h)), b)
    ensures var c := Entered(DumpOf(b, h));
            forall j :: j in c.info && !c.info[j].fInTried ==> c.info[j].nRefCount != 0
  {
    hide Consistent, Addressed, TriedListed, Listing, Filling, NewId, OldId, Entered, Complete, DumpOf;
    CountersOf(b, h, true);
    EntriesLoaded(b, h);
    var c := Entered(DumpOf(b, h));
    RefsRestored(c, b, h);
    RenamedNews(c, b);
    AllReferenced(c, b, h);
  }

  /** Loading restores a book whose index holds full addresses up to the names of the ids. */
  lemma FullyRestored(b: Book, h: Hashing, ports: bool)
    requires Consistent(b, h, true)
    ensures b.nextId >= 0 && Complete(DumpOf(b, h)) && InLimits(DumpOf(b, h))
    ensures Loaded(DumpOf(b, h), ports) == Entered(DumpOf(b, h)) && Renamed(Entered(DumpOf(b, h)), b)
  {
    hide Consistent, Renamed, Entered, Complete, Pruned, RecordsBelow, BucketsBelow;
    EnteredRenamed(b, h);
    SavedInLimits(b, h, true);
    CountersOf(b, h, true);
    NothingPruned(Entered(DumpOf(b, h)), b.nNew + b.nTried, ports);
  }

  ghost function Range(lo: int, hi: int): (r: set<int>)
    ensures forall j :: j in r <==> lo <= j < hi
    decreases hi - lo
  {
    if lo >= hi then {} else Range(lo, hi - 1) + {hi - 1}
  }

  lemma {:induction false} RangeCard(lo: int, hi: int)
    requires lo <= hi
    ensures |Range(lo, hi)| == hi - lo
    decreases hi - lo
  {
    if lo < hi {
      RangeCard(lo, hi - 1);
    }
  }

  // ---------------------------------------------------------------------------------------
  // The address index. Adding an address normalises its port; loading does not.
  // ---------------------------------------------------------------------------------------

  ghost predicate AllNormal(b: Book, ports: bool) {
    forall id :: id in b.info ==> Normal(b.info[id].addr, ports) == b.info[id].addr
  }

  ghost predicate Distinct(b: Book) {
    forall i, j :: i in b.info && j in b.info && b.info[i].addr == b.info[j].addr ==> i == j
  }

  /** The book with the index that loading builds. */
  ghost function ByFullAddress(b: Book): Book
    requires Distinct(b)
  {
    b.(addrs := map id | id in b.info :: b.info[id].addr := id)
  }

  lemma EntriesDistinct(b: Book, h: Hashing, ports: bool)
    requires Consistent(b, h, ports)
    ensures Distinct(b)
  {
    forall i, j | i in b.info && j in b.info && b.info[i].addr == b.info[j].addr
      ensures i == j
    {
      assert AddrKnown(b, ports, i) && AddrKnown(b, ports, j);
    }
  }

  lemma FullConsistent(b: Book, h: Hashing, ports: bool)
    requires Consistent(b, h, ports)
    ensures Distinct(b) && Consistent(ByFullAddress(b), h, true)
  {
    hide Normal, RandomOk, AddrsOk, NewsOk, TriedOk, RefsOk, CountsOk;
    EntriesDistinct(b, h, ports);
    var c := ByFullAddress(b);
    FullAddrs(b);
    SameRandom(b, c);
    CarryNews(b, c, h);
    CarryTried(b, c, h);
    CarryRefs(b, c, {});
    CarryCounts(b, c, 0);
  }

  lemma SameRandom(b: Book, c: Book)
    requires RandomOk(b) && c.info == b.info && c.random == b.random
    ensures RandomOk(c)
  {
    forall id | id in c.info
      ensures PosOk(c, id)
    {
      assert PosOk(b, id);
    }
    forall i | 0 <= i < |c.random|
      ensures IdAtOk(c, i)
    {
      assert IdAtOk(b, i);
    }
  }

  lemma FullAddrs(b: Book)
    requires Distinct(b)
    ensures AddrsOk(ByFullAddress(b), true)
  {
  }

  lemma {:induction false} SameIds(b: Book, c: Book, n: nat, tried: bool)
    requires b.info == c.info
    ensures IdsBelow(b, n, tried) == IdsBelow(c, n, tried)
  {
    if n > 0 {
      SameIds(b, c, n - 1, tried);
    }
  }

  lemma {:induction false} SameIndexes(b: Book, c: Book, bucket: nat, p: nat)
    requires b.info == c.info && b.news == c.news
    ensures Indexes(b, bucket, p) == Indexes(c, bucket, p)
  {
    if p > 0 {
      SameIndexes(b, c, bucket, p - 1);
      var s := Slot(bucket, p - 1);
      if s in b.news && b.news[s] >= 0 {
        SameIds(b, c, b.news[s], false);
      }
    }
  }

  /** The index is not saved. */
  lemma SameDump(b: Book, c: Book, h: Hashing)
    requires b.nextId >= 0 && c == b.(addrs := c.addrs)
    ensures DumpOf(c, h) == DumpOf(b, h)
  {
    SameIds(b, c, b.nextId, false);
    SameIds(b, c, b.nextId, true);
    forall bucket: nat
      ensures Indexes(b, bucket, BUCKET_SIZE) == Indexes(c, bucket, BUCKET_SIZE)
    {
      SameIndexes(b, c, bucket, BUCKET_SIZE);
    }
    assert BucketsBelow(b, NEW_BUCKET_COUNT) == BucketsBelow(c, NEW_BUCKET_COUNT);
  }

  lemma RenamedAddresses(c: Book, b: Book, h: Hashing, ports: bool)
    requires Consistent(b, h, true) && Renamed(c, b)
    ensures AllNormal(c, ports) <==> AllNormal(b, ports)
  {
    hide Consistent, NewId, OldId, Normal;
    forall id | id in b.info
      ensures NewId(b, id) in c.info && c.info[NewId(b, id)].addr == b.info[id].addr
    {
      Renaming(b, h, true, id);
    }
  }

  // ---------------------------------------------------------------------------------------
  // Loading any stream: ids are numbers in load order, so that vRandom stays in step.
  // ---------------------------------------------------------------------------------------

  ghost predicate Numbered(c: Book, k: nat) {
    c.random == Iota(k) && (forall j :: j in c.info <==> 0 <= j < k)
    && forall j :: j in c.info ==> c.info[j].nRandomPos == j
  }

  lemma NumberedRandom(c: Book, k: nat)
    requires Numbered(c, k)
    ensures RandomOk(c)
  {
  }

  lemma EnlistNumbered(c: Book, k: nat, r: Record, tried: bool)
    requires Numbered(c, k)
    ensures Numbered(Enlisted(c, k, r, tried), k + 1)
  {
    assert Iota(k + 1) == Iota(k) + [k];
  }

  lemma LinkNumbered(c: Book, k: nat, id: int, s: Slot)
    requires Numbered(c, k)
    ensures Numbered(Linked(c, id, s), k)
  {
  }

  lemma {:induction false} NewsNumbered(b: Book, rs: seq<Record>, n: nat, h: Hashing, usable: bool)
    requires n <= |rs| && Numbered(b, 0)
    ensures Numbered(LoadNews(b, rs, n, h, usable), n)
  {
    hide Numbered, Enlisted;
    if n > 0 {
      NewsNumbered(b, rs, n - 1, h, usable);
      var c := LoadNews(b, rs, n - 1, h, usable);
      EnlistNumbered(c, n - 1, rs[n - 1], false);
      var s := h.NewSlot(rs[n - 1].addr, h.NewBucket(rs[n - 1].addr, rs[n - 1].source));
      LinkNumbered(Enlisted(c, n - 1, rs[n - 1], false), n, n - 1, s);
    }
  }

  lemma TriedNumbered(b: Book, r: Record, h: Hashing)
    requires b.nextId >= 0 && Numbered(b, b.nextId)
    ensures var c := LoadTriedOne(b, r, h); c.nextId >= b.nextId && Numbered(c, c.nextId) && c.nextId <= b.nextId + 1
  {
    EnlistNumbered(b, b.nextId, r, true);
  }

  lemma SlotNumbered(b: Book, k: nat, bucket: nat, index: int, h: Hashing, usable: bool)
    requires Numbered(b, k)
    ensures Numbered(LoadSlot(b, bucket, index, h, usable), k)
  {
    if index in b.info {
      LinkNumbered(b, k, index, h.NewSlot(b.info[index].addr, bucket));
    }
  }

  lemma {:induction false} PrunedRandom(b: Book, n: nat, ports: bool)
    requires RandomOk(b)
    ensures RandomOk(Pruned(b, n, ports))
  {
    hide RandomOk, Deleted;
    if n > 0 {
      PrunedRandom(b, n - 1, ports);
      var c := Pruned(b, n - 1, ports);
      if n - 1 in c.info {
        DeletedRandomOk(c, n - 1, ports);
      }
    }
  }

  lemma DeletedRandomOk(b: Book, id: int, ports: bool)
    requires RandomOk(b) && id in b.info
    ensures RandomOk(Deleted(b, id, ports))
  {
    assert PosOk(b, id);
    var c := Swapped(b, b.info[id].nRandomPos, |b.random| - 1);
    SwapRandomOk(b, b.info[id].nRandomPos, |b.random| - 1);
    SwappedLast(b, id);
    DropRandom(c, ports, id);
  }

  lemma RecordsStep(b: Book, n: nat, tried: bool)
    ensures RecordsBelow(b, 0, tried) == []
    ensures RecordsBelow(b, n + 1, tried)
         == RecordsBelow(b, n, tried)
            + if n in b.info && Chosen(b.info[n], tried) then [RecordOf(b.info[n])] else []
  {
  }
}
