/**
 Loading an arbitrary stream into the address manager (src/addrman.h), not only one that was saved:
 the tables, the order of the entries and the counters always come out right, and the address index
 does under a condition on what was read.
 */
module AddrLoad {
  import opened AddrBook
  import opened AddrDump

  // ---------------------------------------------------------------------------------------
  // Everything but the address index.
  // ---------------------------------------------------------------------------------------

  /** The tables and vRandom are right, ids are below `k`, and new entries may have no references. */
  ghost predicate Sound(b: Book, h: Hashing, k: int) {
    && RandomOk(b) && NewsOk(b, h) && TriedOk(b, h) && RefsOk(b, b.info.Keys)
    && forall id :: id in b.info ==> 0 <= id < k
  }

  lemma SoundSame(b: Book, c: Book, h: Hashing, k: int)
    requires Sound(b, h, k) && c == b.(addrs := c.addrs, nNew := c.nNew, nTried := c.nTried, nextId := c.nextId)
    ensures Sound(c, h, k)
  {
    SameRandom(b, c);
    CarryNews(b, c, h);
    CarryTried(b, c, h);
    CarryRefs(b, c, b.info.Keys);
  }

  lemma EnlistRandom(b: Book, id: int, r: Record, tried: bool)
    requires RandomOk(b) && id !in b.info
    ensures RandomOk(Enlisted(b, id, r, tried))
  {
    var c := Enlisted(b, id, r, tried);
    forall j | j in c.info
      ensures PosOk(c, j)
    {
      assert j != id ==> PosOk(b, j);
    }
    forall i | 0 <= i < |c.random|
      ensures IdAtOk(c, i)
    {
      assert i < |b.random| ==> IdAtOk(b, i);
    }
  }

  /** A record is listed as a new entry without references. */
  lemma EnlistSound(b: Book, h: Hashing, k: nat, r: Record)
    requires Sound(b, h, k)
    ensures Sound(Enlisted(b, k, r, false), h, k + 1)
  {
    var c := Enlisted(b, k, r, false);
    EnlistRandom(b, k, r, false);
    forall s | s in c.news
      ensures c.news[s] in c.info && NewPlaced(c, h, s)
    {
      assert NewPlaced(b, h, s);
    }
    forall s | s in c.tried
      ensures c.tried[s] in c.info && TriedPlaced(c, h, s)
    {
      assert TriedPlaced(b, h, s);
    }
    forall id | id in c.info && c.info[id].fInTried
      ensures TriedFound(c, h, id)
    {
      assert TriedFound(b, h, id);
    }
    forall id | id in c.info && !c.info[id].fInTried
      ensures RefCounted(c, c.info.Keys, id)
    {
      if id == k {
        assert SlotsOf(c.news, id) == {};
      } else {
        assert RefCounted(b, b.info.Keys, id);
      }
    }
  }

  lemma LinkRandom(b: Book, id: int, s: Slot)
    requires RandomOk(b)
    ensures RandomOk(Linked(b, id, s))
  {
    var c := Linked(b, id, s);
    forall j | j in c.info
      ensures PosOk(c, j)
    {
      assert PosOk(b, j);
    }
    forall i | 0 <= i < |c.random|
      ensures IdAtOk(c, i)
    {
      assert IdAtOk(b, i);
    }
  }

  lemma LinkSound(b: Book, h: Hashing, k: int, id: int, s: Slot)
    requires Sound(b, h, k) && s !in b.news && id in b.info && !b.info[id].fInTried
    requires b.info[id].nRefCount < NEW_BUCKETS_PER_ADDRESS
    requires s.bucket < NEW_BUCKET_COUNT && s == h.NewSlot(b.info[id].addr, s.bucket)
    ensures Sound(Linked(b, id, s), h, k)
  {
    LinkRandom(b, id, s);
    LinkPlaces(b, h, b.info.Keys, id, s);
    LooserRefs(Linked(b, id, s), b.info.Keys - {id}, b.info.Keys);
    assert Linked(b, id, s).info.Keys == b.info.Keys;
  }

  lemma LooserRefs(b: Book, few: set<int>, many: set<int>)
    requires RefsOk(b, few) && few <= many
    ensures RefsOk(b, many)
  {
    forall id | id in b.info && !b.info[id].fInTried
      ensures RefCounted(b, many, id)
    {
      assert RefCounted(b, few, id);
    }
  }

  lemma {:induction false} NewsSound(start: Book, rs: seq<Record>, n: nat, h: Hashing, usable: bool)
    requires n <= |rs| && start.info == map[] && start.random == [] && start.news == map[] && start.tried == map[]
    ensures Sound(LoadNews(start, rs, n, h, usable), h, n)
    ensures var c := LoadNews(start, rs, n, h, usable);
            && c.tried == map[] && c.nNew == start.nNew && c.nTried == start.nTried
            && c.info.Keys == Range(0, n) && forall id :: id in c.info ==> !c.info[id].fInTried
  {
    hide Sound;
    if n == 0 {
      NothingSound(start, h);
    } else {
      NewsSound(start, rs, n - 1, h, usable);
      var b := LoadNews(start, rs, n - 1, h, usable);
      var r := rs[n - 1];
      EnlistSound(b, h, n - 1, r);
      var c := Enlisted(b, n - 1, r, false);
      var s := h.NewSlot(r.addr, h.NewBucket(r.addr, r.source));
      if !usable && s !in c.news {
        LinkSound(c, h, n, n - 1, s);
      }
    }
  }

  lemma NothingSound(b: Book, h: Hashing)
    requires b.info == map[] && b.random == [] && b.news == map[] && b.tried == map[]
    ensures Sound(b, h, 0) && b.info.Keys == Range(0, 0)
  {
  }

  /** A record is listed at its place in the tried table. */
  lemma TriedSound(b: Book, h: Hashing, r: Record)
    requires b.nextId >= 0 && Sound(b, h, b.nextId)
    ensures Sound(LoadTriedOne(b, r, h), h, LoadTriedOne(b, r, h).nextId)
  {
    var s := h.TriedSlot(r.addr);
    var c := LoadTriedOne(b, r, h);
    if s in b.tried {
      SoundSame(b, c, h, b.nextId);
    } else {
      var id := b.nextId;
      var e := Enlisted(b, id, r, true);
      EnlistRandom(b, id, r, true);
      SameRandom(e, c);
      forall q | q in c.news
        ensures c.news[q] in c.info && NewPlaced(c, h, q)
      {
        assert NewPlaced(b, h, q);
      }
      forall q | q in c.tried
        ensures c.tried[q] in c.info && TriedPlaced(c, h, q)
      {
        assert q != s ==> TriedPlaced(b, h, q);
      }
      forall j | j in c.info && c.info[j].fInTried
        ensures TriedFound(c, h, j)
      {
        assert j != id ==> TriedFound(b, h, j);
      }
      forall j | j in c.info && !c.info[j].fInTried
        ensures RefCounted(c, c.info.Keys, j)
      {
        assert RefCounted(b, b.info.Keys, j);
      }
    }
  }

  /** The numbers of new and of tried entries, and the id counter. */
  ghost predicate Counted(b: Book, news: nat, tried: int) {
    |NewIds(b)| == news && |TriedIds(b)| == tried && b.nextId >= 0
  }

  lemma {:induction false} AllTriedSound(b: Book, rs: seq<Record>, n: nat, h: Hashing)
    requires n <= |rs| && b.nextId >= 0 && Sound(b, h, b.nextId) && Counted(b, |NewIds(b)|, 0)
    ensures var c := LoadTried(b, rs, n, h);
            && Sound(c, h, c.nextId) && c.nNew == b.nNew && b.nextId <= c.nextId
            && Counted(c, |NewIds(b)|, n + c.nTried - b.nTried)
            && (forall id :: id in b.info ==> id in c.info && c.info[id].fInTried == b.info[id].fInTried)
  {
    hide Sound, LoadTriedOne;
    if n > 0 {
      AllTriedSound(b, rs, n - 1, h);
      var c := LoadTried(b, rs, n - 1, h);
      TriedSound(c, h, rs[n - 1]);
      TriedCounts(c, rs[n - 1], h);
    }
  }

  lemma TriedCounts(b: Book, r: Record, h: Hashing)
    requires b.nextId >= 0 && Sound(b, h, b.nextId)
    ensures var c := LoadTriedOne(b, r, h);
            && NewIds(c) == NewIds(b) && |TriedIds(c)| == |TriedIds(b)| + 1 + c.nTried - b.nTried
            && c.nNew == b.nNew && b.nextId <= c.nextId
            && (forall id :: id in b.info ==> id in c.info && c.info[id].fInTried == b.info[id].fInTried)
  {
    hide Sound, NewIds, TriedIds;
    SoundFresh(b, h);
    var c := LoadTriedOne(b, r, h);
    if h.TriedSlot(r.addr) in b.tried {
      SameInfoIds(b, c);
    } else {
      EnlistedIds(b, b.nextId, r);
      SameInfoIds(Enlisted(b, b.nextId, r, true), c);
    }
  }

  lemma SameInfoIds(b: Book, c: Book)
    requires b.info == c.info
    ensures NewIds(b) == NewIds(c) && TriedIds(b) == TriedIds(c)
  {
  }

  lemma EnlistedIds(b: Book, id: int, r: Record)
    requires id !in b.info
    ensures var c := Enlisted(b, id, r, true);
            NewIds(c) == NewIds(b) && |TriedIds(c)| == |TriedIds(b)| + 1
  {
    assert TriedIds(Enlisted(b, id, r, true)) == TriedIds(b) + {id};
  }

  lemma SoundFresh(b: Book, h: Hashing)
    requires Sound(b, h, b.nextId)
    ensures b.nextId !in b.info
  {
  }

  // ---------------------------------------------------------------------------------------
  // The slots of the new table.
  // ---------------------------------------------------------------------------------------

  /** Only references and slots differ. */
  ghost predicate Relisted(b: Book, c: Book) {
    && c == b.(info := c.info, news := c.news) && c.info.Keys == b.info.Keys
    && forall id :: id in b.info ==> c.info[id] == b.info[id].(nRefCount := c.info[id].nRefCount)
  }

  lemma SlotSound(b: Book, bucket: nat, index: int, h: Hashing, usable: bool, k: int)
    requires Sound(b, h, k) && (usable ==> bucket < NEW_BUCKET_COUNT)
    requires forall id :: id in b.info && 0 <= id < b.nNew ==> !b.info[id].fInTried
    ensures var c := LoadSlot(b, bucket, index, h, usable);
            Sound(c, h, k) && Relisted(b, c)
  {
    hide Sound;
    if usable && 0 <= index < b.nNew && index in b.info {
      var s := h.NewSlot(b.info[index].addr, bucket);
      if s !in b.news && b.info[index].nRefCount < NEW_BUCKETS_PER_ADDRESS {
        LinkSound(b, h, k, index, s);
      }
    }
  }

  lemma {:induction false} BucketSound(b: Book, bucket: nat, xs: seq<int>, n: nat, h: Hashing, usable: bool, k: int)
    requires n <= |xs| && Sound(b, h, k) && (usable ==> bucket < NEW_BUCKET_COUNT)
    requires forall id :: id in b.info && 0 <= id < b.nNew ==> !b.info[id].fInTried
    ensures var c := LoadBucket(b, bucket, xs, n, h, usable);
            Sound(c, h, k) && Relisted(b, c)
  {
    hide Sound, LoadSlot;
    if n > 0 {
      BucketSound(b, bucket, xs, n - 1, h, usable, k);
      SlotSound(LoadBucket(b, bucket, xs, n - 1, h, usable), bucket, xs[n - 1], h, usable, k);
    }
  }

  lemma {:induction false} BucketsSound(b: Book, slots: seq<seq<int>>, n: nat, h: Hashing, usable: bool, k: int)
    requires n <= |slots| && Sound(b, h, k) && (usable ==> |slots| == NEW_BUCKET_COUNT)
    requires forall id :: id in b.info && 0 <= id < b.nNew ==> !b.info[id].fInTried
    ensures var c := LoadBuckets(b, slots, n, h, usable);
            Sound(c, h, k) && Relisted(b, c)
  {
    hide Sound, LoadBucket;
    if n > 0 {
      BucketsSound(b, slots, n - 1, h, usable, k);
      BucketSound(LoadBuckets(b, slots, n - 1, h, usable), n - 1, slots[n - 1], |slots[n - 1]|, h, usable, k);
    }
  }

  lemma ListingCounts(b: Book, c: Book)
    requires Relisted(b, c)
    ensures NewIds(c) == NewIds(b) && TriedIds(c) == TriedIds(b)
  {
    forall id
      ensures id in NewIds(c) <==> id in NewIds(b)
      ensures id in TriedIds(c) <==> id in TriedIds(b)
    {
      assert id in c.info <==> id in b.info;
    }
  }

  /** After all records and slots have been read. */
  lemma EnteredSound(d: Dump)
    requires Complete(d)
    ensures var e := Entered(d);
            Sound(e, d.h, e.nextId) && e.nextId >= 0 && e.nNew == |NewIds(e)| && e.nTried == |TriedIds(e)|
    ensures Entered(d).nextId <= d.nNew + d.nTried
  {
    hide Sound, LoadNews, LoadTried, LoadBuckets, Range;
    var start := Empty().(nNew := d.nNew, nTried := d.nTried);
    var usable := Usable(d);
    NewsSound(start, d.news, |d.news|, d.h, usable);
    var a := LoadNews(start, d.news, |d.news|, d.h, usable);
    var b := a.(nextId := d.nNew);
    SoundSame(a, b, d.h, d.nNew);
    NewsCounts(b, d.nNew);
    AllTriedSound(b, d.tried, |d.tried|, d.h);
    var c := LoadTried(b, d.tried, |d.tried|, d.h);
    NextIds(b, d.tried, |d.tried|, d.h);
    BucketsSound(c, d.slots, |d.slots|, d.h, usable, c.nextId);
    ListingCounts(c, Entered(d));
  }

  lemma NewsCounts(b: Book, n: nat)
    requires b.info.Keys == Range(0, n) && forall id :: id in b.info ==> !b.info[id].fInTried
    ensures |NewIds(b)| == n && TriedIds(b) == {}
    ensures forall id :: 0 <= id < n ==> id in b.info
  {
    RangeCard(0, n);
    assert NewIds(b) == Range(0, n);
    forall id | 0 <= id < n
      ensures id in b.info
    {
      assert id in Range(0, n);
    }
  }

  lemma {:induction false} NextIds(b: Book, rs: seq<Record>, n: nat, h: Hashing)
    requires n <= |rs|
    ensures LoadTried(b, rs, n, h).nextId <= b.nextId + n
  {
    if n > 0 {
      NextIds(b, rs, n - 1, h);
    }
  }

  // ---------------------------------------------------------------------------------------
  // The index by full address.
  // ---------------------------------------------------------------------------------------

  /** Every address of an entry is indexed, and leads to an entry with that address. */
  ghost predicate Indexed(b: Book) {
    && (forall id :: id in b.info ==> b.info[id].addr in b.addrs)
    && (forall a :: a in b.addrs ==> b.addrs[a] in b.info && b.info[b.addrs[a]].addr == a)
  }

  lemma EnlistIndexed(b: Book, id: int, r: Record, tried: bool)
    requires Indexed(b) && id !in b.info
    ensures Indexed(Enlisted(b, id, r, tried))
  {
  }

  lemma RelistIndexed(b: Book, c: Book)
    requires Indexed(b) && Relisted(b, c)
    ensures Indexed(c)
  {
    forall id | id in c.info
      ensures c.info[id].addr in c.addrs
    {
      assert id in b.info;
    }
    forall a | a in c.addrs
      ensures c.addrs[a] in c.info && c.info[c.addrs[a]].addr == a
    {
      var id := b.addrs[a];
      assert id in b.info && c.info[id] == b.info[id].(nRefCount := c.info[id].nRefCount);
    }
  }

  lemma {:induction false} NewsIndexed(start: Book, rs: seq<Record>, n: nat, h: Hashing, usable: bool)
    requires n <= |rs| && start.info == map[] && start.addrs == map[]
    ensures Indexed(LoadNews(start, rs, n, h, usable))
    ensures forall id :: id in LoadNews(start, rs, n, h, usable).info ==> 0 <= id < n
  {
    hide LoadNew;
    if n > 0 {
      NewsIndexed(start, rs, n - 1, h, usable);
      NewIndexed(LoadNews(start, rs, n - 1, h, usable), n - 1, rs[n - 1], h, usable);
    }
  }

  lemma NewIndexed(b: Book, n: nat, r: Record, h: Hashing, usable: bool)
    requires Indexed(b) && forall id :: id in b.info ==> 0 <= id < n
    ensures var c := LoadNew(b, n, r, h, usable);
            Indexed(c) && forall id :: id in c.info ==> 0 <= id < n + 1
  {
    hide Indexed;
    EnlistIndexed(b, n, r, false);
    var c := Enlisted(b, n, r, false);
    RelistIndexed(c, Linked(c, n, h.NewSlot(r.addr, h.NewBucket(r.addr, r.source))));
  }

  lemma {:induction false} TriedIndexed(b: Book, rs: seq<Record>, n: nat, h: Hashing)
    requires n <= |rs| && Indexed(b) && forall id :: id in b.info ==> id < b.nextId
    ensures var c := LoadTried(b, rs, n, h);
            Indexed(c) && forall id :: id in c.info ==> id < c.nextId
  {
    if n > 0 {
      TriedIndexed(b, rs, n - 1, h);
      var c := LoadTried(b, rs, n - 1, h);
      if h.TriedSlot(rs[n - 1].addr) !in c.tried {
        EnlistIndexed(c, c.nextId, rs[n - 1], true);
      }
    }
  }

  lemma EnteredIndexed(d: Dump)
    requires Complete(d)
    ensures Indexed(Entered(d))
  {
    hide LoadNews, LoadTried, LoadBuckets, Indexed, Sound, Range;
    var start := Empty().(nNew := d.nNew, nTried := d.nTried);
    var usable := Usable(d);
    NewsIndexed(start, d.news, |d.news|, d.h, usable);
    NewsSound(start, d.news, |d.news|, d.h, usable);
    var a := LoadNews(start, d.news, |d.news|, d.h, usable);
    var b := a.(nextId := d.nNew);
    SameIndexed(a, b);
    TriedIndexed(b, d.tried, |d.tried|, d.h);
    SoundSame(a, b, d.h, d.nNew);
    NewsCounts(b, d.nNew);
    AllTriedSound(b, d.tried, |d.tried|, d.h);
    var c := LoadTried(b, d.tried, |d.tried|, d.h);
    BucketsSound(c, d.slots, |d.slots|, d.h, usable, c.nextId);
    RelistIndexed(c, Entered(d));
  }

  lemma SameIndexed(b: Book, c: Book)
    requires Indexed(b) && c.info == b.info && c.addrs == b.addrs
    ensures Indexed(c)
  {
  }

  // ---------------------------------------------------------------------------------------
  // What is entered, record by record.
  // ---------------------------------------------------------------------------------------

  /** An entry is what the record says; attempts that were not saved are forgotten. */
  predicate Restored(x: Info, r: Record, tried: bool) {
    && x.addr == r.addr && x.nServices == r.nServices && x.nTime == r.nTime && x.source == r.source
    && x.nLastSuccess == r.nLastSuccess && x.nAttempts == r.nAttempts && x.fInTried == tried
    && x.nLastTry == 0 && x.nLastCountAttempt == 0
  }

  /** The slot where a record belongs: the tried one, or the new one that its own source gives it. */
  function Home(r: Record, h: Hashing, tried: bool): Slot {
    if tried then h.TriedSlot(r.addr) else h.NewSlot(r.addr, h.NewBucket(r.addr, r.source))
  }

  /** Record `k` is the first of the first `n` that belongs in slot `s`. */
  ghost predicate FirstFor(rs: seq<Record>, n: nat, h: Hashing, tried: bool, s: Slot, k: int) {
    n <= |rs| && 0 <= k < n && Home(rs[k], h, tried) == s && forall j :: 0 <= j < k ==> Home(rs[j], h, tried) != s
  }

  lemma FirstForMore(rs: seq<Record>, n: nat, h: Hashing, tried: bool)
    requires n < |rs|
    ensures forall s, k {:trigger FirstFor(rs, n, h, tried, s, k)} ::
              FirstFor(rs, n, h, tried, s, k) ==> FirstFor(rs, n + 1, h, tried, s, k)
    ensures (forall k :: !FirstFor(rs, n, h, tried, Home(rs[n], h, tried), k)) ==>
              FirstFor(rs, n + 1, h, tried, Home(rs[n], h, tried), n)
    ensures forall s, k {:trigger FirstFor(rs, n + 1, h, tried, s, k)} ::
              FirstFor(rs, n + 1, h, tried, s, k) && s != Home(rs[n], h, tried) ==> FirstFor(rs, n, h, tried, s, k)
  {
    if forall k :: !FirstFor(rs, n, h, tried, Home(rs[n], h, tried), k) {
      forall j | 0 <= j < n
        ensures Home(rs[j], h, tried) != Home(rs[n], h, tried)
      {
        if Home(rs[j], h, tried) == Home(rs[n], h, tried) {
          var i := LeastFor(rs, n, h, tried, Home(rs[n], h, tried), j);
        }
      }
    }
  }

  lemma {:induction false} LeastFor(rs: seq<Record>, n: nat, h: Hashing, tried: bool, s: Slot, j: nat) returns (i: nat)
    requires j < n <= |rs| && Home(rs[j], h, tried) == s
    ensures FirstFor(rs, n, h, tried, s, i)
  {
    if k: nat :| k < j && Home(rs[k], h, tried) == s {
      i := LeastFor(rs, n, h, tried, s, k);
    } else {
      i := j;
    }
  }

  /** The slots belong to the first records for them. */
  ghost predicate Homed(t: Table, rs: seq<Record>, n: nat, h: Hashing, tried: bool) {
    && (forall s :: s in t ==> FirstFor(rs, n, h, tried, s, t[s]))
    && (forall s, k :: FirstFor(rs, n, h, tried, s, k) ==> s in t)
  }

  lemma HomedMore(t: Table, rs: seq<Record>, n: nat, h: Hashing, tried: bool)
    requires n < |rs| && Homed(t, rs, n, h, tried)
    ensures Homed(if Home(rs[n], h, tried) in t then t else t[Home(rs[n], h, tried) := n], rs, n + 1, h, tried)
  {
    hide FirstFor;
    FirstForMore(rs, n, h, tried);
  }

  ghost predicate NewsListed(b: Book, rs: seq<Record>, n: nat) {
    && n <= |rs| && (forall k :: k in b.info <==> 0 <= k < n)
    && forall k :: 0 <= k < n ==> Restored(b.info[k], rs[k], false)
  }

  lemma {:induction false} NewsRestored(start: Book, rs: seq<Record>, n: nat, h: Hashing, usable: bool)
    requires n <= |rs| && start.info == map[] && start.news == map[]
    ensures var b := LoadNews(start, rs, n, h, usable);
            && NewsListed(b, rs, n) && b.tried == start.tried
            && if usable then b.news == map[] else Homed(b.news, rs, n, h, false)
  {
    hide NewsListed, Homed, Home, LoadNew;
    if n == 0 {
      NoneHomed(rs, h, false);
      NoneListed(start, rs);
    } else {
      NewsRestored(start, rs, n - 1, h, usable);
      var b := LoadNews(start, rs, n - 1, h, usable);
      OneListed(b, rs, n - 1, h, usable);
      if !usable {
        HomedMore(b.news, rs, n - 1, h, false);
      }
    }
  }

  lemma NoneListed(b: Book, rs: seq<Record>)
    requires b.info == map[]
    ensures NewsListed(b, rs, 0)
  {
  }

  lemma OneListed(b: Book, rs: seq<Record>, n: nat, h: Hashing, usable: bool)
    requires n < |rs| && NewsListed(b, rs, n)
    ensures var c := LoadNew(b, n, rs[n], h, usable);
            && NewsListed(c, rs, n + 1) && c.tried == b.tried
            && c.news == if usable || Home(rs[n], h, false) in b.news then b.news else b.news[Home(rs[n], h, false) := n]
  {
    hide LoadNew, Home, Restored;
    NewRestored(b, n, rs[n], h, usable);
  }

  lemma NoneHomed(rs: seq<Record>, h: Hashing, tried: bool)
    ensures Homed(map[], rs, 0, h, tried)
  {
  }

  lemma NewRestored(b: Book, n: nat, r: Record, h: Hashing, usable: bool)
    requires n !in b.info
    ensures var c := LoadNew(b, n, r, h, usable);
            && c.info.Keys == b.info.Keys + {n} && (forall k :: k in b.info ==> c.info[k] == b.info[k])
            && Restored(c.info[n], r, false) && c.tried == b.tried
            && c.news == if usable || Home(r, h, false) in b.news then b.news else b.news[Home(r, h, false) := n]
  {
  }

  /** The tried slots lead to entries restored from the first records for them. */
  ghost predicate TriedHomed(c: Book, rs: seq<Record>, n: nat, h: Hashing) {
    forall s :: if s in c.tried
                then c.tried[s] in c.info && exists k :: FirstFor(rs, n, h, true, s, k)
                                                      && Restored(c.info[c.tried[s]], rs[k], true)
                else forall k :: !FirstFor(rs, n, h, true, s, k)
  }

  lemma {:induction false} TriedRestored(b: Book, rs: seq<Record>, n: nat, h: Hashing)
    requires n <= |rs| && b.tried == map[] && forall id :: id in b.info ==> id < b.nextId
    ensures var c := LoadTried(b, rs, n, h);
            && (forall k :: k in b.info ==> k in c.info && c.info[k] == b.info[k]) && c.news == b.news
            && b.nextId <= c.nextId && (forall id :: id in c.info ==> id < c.nextId)
            && TriedHomed(c, rs, n, h)
  {
    hide Restored, FirstFor, LoadTriedOne, TriedHomed;
    if n == 0 {
      NoneTried(b, rs, h);
    } else {
      TriedRestored(b, rs, n - 1, h);
      OneRestored(LoadTried(b, rs, n - 1, h), rs, n - 1, h);
    }
  }

  lemma NoneTried(b: Book, rs: seq<Record>, h: Hashing)
    requires b.tried == map[]
    ensures TriedHomed(b, rs, 0, h)
  {
  }

  lemma OneRestored(c: Book, rs: seq<Record>, n: nat, h: Hashing)
    requires n < |rs| && TriedHomed(c, rs, n, h) && forall id :: id in c.info ==> id < c.nextId
    ensures var d := LoadTriedOne(c, rs[n], h);
            && (forall k :: k in c.info ==> k in d.info && d.info[k] == c.info[k]) && d.news == c.news
            && c.nextId <= d.nextId && (forall id :: id in d.info ==> id < d.nextId)
            && TriedHomed(d, rs, n + 1, h)
  {
    FirstForMore(rs, n, h, true);
    var d, next := LoadTriedOne(c, rs[n], h), n + 1;
    forall s
      ensures if s in d.tried
              then d.tried[s] in d.info && exists k :: FirstFor(rs, next, h, true, s, k)
                                                    && Restored(d.info[d.tried[s]], rs[k], true)
              else forall k :: !FirstFor(rs, next, h, true, s, k)
    {
      if s in c.tried {
        var k :| FirstFor(rs, n, h, true, s, k) && Restored(c.info[c.tried[s]], rs[k], true);
        assert FirstFor(rs, next, h, true, s, k);
      } else if s == Home(rs[n], h, true) {
        assert FirstFor(rs, next, h, true, s, n);
      }
    }
  }

  lemma {:induction false} UnusableBuckets(b: Book, slots: seq<seq<int>>, n: nat, h: Hashing)
    requires n <= |slots|
    ensures LoadBuckets(b, slots, n, h, false) == b
  {
    if n > 0 {
      UnusableBuckets(b, slots, n - 1, h);
      UnusableBucket(b, n - 1, slots[n - 1], |slots[n - 1]|, h);
    }
  }

  lemma {:induction false} UnusableBucket(b: Book, bucket: nat, xs: seq<int>, n: nat, h: Hashing)
    requires n <= |xs|
    ensures LoadBucket(b, bucket, xs, n, h, false) == b
  {
    if n > 0 {
      UnusableBucket(b, bucket, xs, n - 1, h);
    }
  }

  /**
   For every stream: each record of the new table is restored under its number, a tried slot holds the
   first record for it, and if the saved slots are unusable a new slot holds the first record whose own
   source leads there.
   */
  lemma EnteredEntries(d: Dump)
    requires Complete(d)
    ensures var e := Entered(d);
            && (forall k :: 0 <= k < d.nNew ==> k in e.info && Restored(e.info[k], d.news[k], false))
            && TriedHomed(e, d.tried, |d.tried|, d.h)
            && (!Usable(d) ==> Homed(e.news, d.news, |d.news|, d.h, false))
  {
    hide LoadNews, LoadTried, LoadBuckets, Sound, Range, Restored, Homed, TriedHomed;
    var start := Empty().(nNew := d.nNew, nTried := d.nTried);
    var usable := Usable(d);
    NewsRestored(start, d.news, |d.news|, d.h, usable);
    NewsSound(start, d.news, |d.news|, d.h, usable);
    var a := LoadNews(start, d.news, |d.news|, d.h, usable);
    var b := a.(nextId := d.nNew);
    TriedRestored(b, d.tried, |d.tried|, d.h);
    SoundSame(a, b, d.h, d.nNew);
    NewsCounts(b, d.nNew);
    AllTriedSound(b, d.tried, |d.tried|, d.h);
    var c := LoadTried(b, d.tried, |d.tried|, d.h);
    BucketsSound(c, d.slots, |d.slots|, d.h, usable, c.nextId);
    if !usable {
      UnusableBuckets(c, d.slots, |d.slots|, d.h);
    }
    RelistRestored(c, Entered(d), d);
  }

  lemma SameRestored(x: Info, y: Info, r: Record, tried: bool)
    requires Restored(x, r, tried) && y == x.(nRefCount := y.nRefCount)
    ensures Restored(y, r, tried)
  {
  }

  lemma RelistRestored(c: Book, e: Book, d: Dump)
    requires Relisted(c, e) && |d.news| == d.nNew && TriedHomed(c, d.tried, |d.tried|, d.h)
    requires forall k :: 0 <= k < d.nNew ==> k in c.info && Restored(c.info[k], d.news[k], false)
    ensures forall k :: 0 <= k < d.nNew ==> k in e.info && Restored(e.info[k], d.news[k], false)
    ensures TriedHomed(e, d.tried, |d.tried|, d.h)
  {
    forall k | 0 <= k < d.nNew
      ensures k in e.info && Restored(e.info[k], d.news[k], false)
    {
      assert k in c.info && Restored(c.info[k], d.news[k], false);
    }
    forall s | s in c.tried
      ensures e.tried[s] in e.info && exists k :: FirstFor(d.tried, |d.tried|, d.h, true, s, k)
                                               && Restored(e.info[e.tried[s]], d.tried[k], true)
    {
      var id := c.tried[s];
      assert id in c.info && e.tried == c.tried && id in e.info.Keys;
      var k :| FirstFor(d.tried, |d.tried|, d.h, true, s, k) && Restored(c.info[id], d.tried[k], true);
      assert e.info[id] == c.info[id].(nRefCount := e.info[id].nRefCount);
      SameRestored(c.info[id], e.info[id], d.tried[k], true);
    }
  }

  // ---------------------------------------------------------------------------------------
  // Pruning.
  // ---------------------------------------------------------------------------------------

  /** A new entry that no slot refers to. */
  predicate Unreferenced(b: Book, id: int) {
    id in b.info && !b.info[id].fInTried && b.info[id].nRefCount == 0
  }

  lemma DeleteSound(b: Book, h: Hashing, k: int, id: int, ports: bool)
    requires Sound(b, h, k) && Unreferenced(b, id)
    ensures var c := Deleted(b, id, ports);
            && Sound(c, h, k) && c.nNew == b.nNew - 1 && c.nTried == b.nTried
            && NewIds(c) == NewIds(b) - {id} && TriedIds(c) == TriedIds(b)
  {
    hide Swapped, RandomOk, NewsOk, TriedOk, RefsOk;
    SwappedLast(b, id);
    var i, j := b.info[id].nRandomPos, |b.random| - 1;
    SwapRandomOk(b, i, j);
    SwappedEntries(b, i, j);
    var s := Swapped(b, i, j);
    CarryNews(b, s, h);
    CarryTried(b, s, h);
    CarryRefs(b, s, b.info.Keys);
    DropRandom(s, ports, id);
    DropPlaces(s, h, ports, b.info.Keys, id);
    var c := Dropped(s, id, ports);
    forall j
      ensures j in c.info.Keys <==> j in b.info.Keys - {id}
    {
      assert j in s.info <==> j in b.info;
    }
    assert c.info.Keys == b.info.Keys - {id};
    DeletedCounts(b, id, ports);
  }

  lemma DeletedCounts(b: Book, id: int, ports: bool)
    requires RandomOk(b) && Unreferenced(b, id)
    ensures var c := Deleted(b, id, ports);
            NewIds(c) == NewIds(b) - {id} && TriedIds(c) == TriedIds(b)
  {
    hide RandomOk, Deleted;
    DeletedOthers(b, id, ports);
    var c := Deleted(b, id, ports);
    forall j
      ensures j in NewIds(c) <==> j in NewIds(b) - {id}
      ensures j in TriedIds(c) <==> j in TriedIds(b)
    {
      assert j in c.info <==> j in b.info && j != id;
      assert j in c.info ==> SameEntry(b.info[j], c.info[j]);
    }
  }

  /** What pruning the ids below `n` leaves: the other entries, and the addresses not removed with the pruned ones. */
  ghost predicate PrunedTo(e: Book, c: Book, n: nat, ports: bool) {
    && (forall id :: id in c.info <==> id in e.info && !(0 <= id < n && Unreferenced(e, id)))
    && (forall id :: id in c.info ==> SameEntry(e.info[id], c.info[id]))
    && (forall a :: a in c.addrs <==> a in e.addrs && !RemovedKey(e, n, ports, a))
    && (forall a :: a in c.addrs ==> c.addrs[a] == e.addrs[a])
    && c.nextId == e.nextId
  }

  ghost predicate RemovedKey(e: Book, n: nat, ports: bool, a: Service) {
    exists i :: 0 <= i < n && Unreferenced(e, i) && Normal(e.info[i].addr, ports) == a
  }

  lemma {:induction false} PruneSound(e: Book, h: Hashing, n: nat, ports: bool)
    requires Sound(e, h, e.nextId) && e.nNew == |NewIds(e)| && e.nTried == |TriedIds(e)|
    ensures var c := Pruned(e, n, ports);
            && Sound(c, h, e.nextId) && c.nNew == |NewIds(c)| && c.nTried == |TriedIds(c)| && PrunedTo(e, c, n, ports)
  {
    hide Sound, Deleted, RemovedKey, Normal;
    if n == 0 {
      NoneRemoved(e, ports);
    } else {
      PruneSound(e, h, n - 1, ports);
      var b := Pruned(e, n - 1, ports);
      if Unreferenced(b, n - 1) {
        DeleteSound(b, h, e.nextId, n - 1, ports);
        SoundRandom(b, h, e.nextId);
        DeletedOthers(b, n - 1, ports);
      }
      PruneStep(e, b, Pruned(e, n, ports), n - 1, ports);
    }
  }

  lemma SoundRandom(b: Book, h: Hashing, k: int)
    requires Sound(b, h, k)
    ensures RandomOk(b)
  {
  }

  lemma NoneRemoved(e: Book, ports: bool)
    ensures PrunedTo(e, e, 0, ports)
  {
  }

  lemma PruneStep(e: Book, b: Book, c: Book, n: nat, ports: bool)
    requires PrunedTo(e, b, n, ports)
    requires if Unreferenced(b, n) then
               && c.nextId == b.nextId && c.addrs == b.addrs - {Normal(b.info[n].addr, ports)}
               && (forall j :: j in c.info <==> j in b.info && j != n)
               && (forall j :: j in c.info ==> SameEntry(b.info[j], c.info[j]))
             else c == b
    ensures PrunedTo(e, c, n + 1, ports)
  {
    hide Normal;
    assert Unreferenced(b, n) <==> Unreferenced(e, n);
    forall a
      ensures RemovedKey(e, n + 1, ports, a) <==>
                RemovedKey(e, n, ports, a) || (Unreferenced(e, n) && Normal(e.info[n].addr, ports) == a)
    {
      RemovedStep(e, n, ports, a);
    }
  }

  lemma RemovedStep(e: Book, n: nat, ports: bool, a: Service)
    ensures RemovedKey(e, n + 1, ports, a) <==>
              RemovedKey(e, n, ports, a) || (Unreferenced(e, n) && Normal(e.info[n].addr, ports) == a)
  {
    hide Normal;
  }

  // ---------------------------------------------------------------------------------------
  // When a loaded book is consistent.
  // ---------------------------------------------------------------------------------------

  /** An address that occurs more than once occurs only in entries that are pruned. */
  ghost predicate OnlyPrunedRepeat(e: Book) {
    forall i, j :: i in e.info && j in e.info && i != j && e.info[i].addr == e.info[j].addr ==> Unreferenced(e, i)
  }

  /** All of it, except possibly the address index. */
  lemma LoadedSound(d: Dump, ports: bool)
    requires Complete(d) && InLimits(d)
    ensures var c := Loaded(d, ports);
            && RandomOk(c) && NewsOk(c, d.h) && TriedOk(c, d.h) && RefsOk(c, {}) && CountsOk(c, 0)
            && PrunedTo(Entered(d), c, d.nNew + d.nTried, ports)
    ensures forall id :: id in Entered(d).info ==> 0 <= id < d.nNew + d.nTried
  {
    hide Entered, Pruned;
    EnteredSound(d);
    var e := Entered(d);
    var n := d.nNew + d.nTried;
    PruneSound(e, d.h, n, ports);
    PrunedReferenced(e, Pruned(e, n, ports), n, d.h, ports);
  }

  lemma PrunedReferenced(e: Book, c: Book, n: nat, h: Hashing, ports: bool)
    requires PrunedTo(e, c, n, ports) && Sound(c, h, e.nextId) && e.nextId <= n
    ensures RefsOk(c, {})
  {
    forall id | id in c.info && !c.info[id].fInTried
      ensures RefCounted(c, {}, id)
    {
      assert RefCounted(c, c.info.Keys, id);
      assert SameEntry(e.info[id], c.info[id]);
      assert !Unreferenced(e, id);
    }
  }

  /** The index of what is left is right exactly under this condition. */
  lemma IndexIff(e: Book, c: Book, n: nat, ports: bool)
    requires Indexed(e) && PrunedTo(e, c, n, ports) && forall id :: id in e.info ==> 0 <= id < n
    ensures AddrsOk(c, ports) <==> AllNormal(e, ports) && OnlyPrunedRepeat(e)
  {
    if AllNormal(e, ports) && OnlyPrunedRepeat(e) {
      IndexRight(e, c, n, ports);
    }
    if AddrsOk(c, ports) {
      MustBeNormal(e, c, n, ports);
      MustNotRepeat(e, c, n, ports);
    }
  }

  /** An entry that stays keeps its key. */
  lemma NotRemoved(e: Book, n: nat, ports: bool, id: int)
    requires AllNormal(e, ports) && OnlyPrunedRepeat(e) && id in e.info && !Unreferenced(e, id)
    ensures !RemovedKey(e, n, ports, e.info[id].addr)
  {
    hide Normal, OnlyPrunedRepeat;
    if RemovedKey(e, n, ports, e.info[id].addr) {
      var i :| 0 <= i < n && Unreferenced(e, i) && Normal(e.info[i].addr, ports) == e.info[id].addr;
      SameOnly(e, i, id);
    }
  }

  lemma SameOnly(e: Book, i: int, id: int)
    requires OnlyPrunedRepeat(e) && i in e.info && id in e.info && e.info[i].addr == e.info[id].addr && !Unreferenced(e, id)
    ensures i == id
  {
  }

  lemma IndexRight(e: Book, c: Book, n: nat, ports: bool)
    requires Indexed(e) && PrunedTo(e, c, n, ports) && forall id :: id in e.info ==> 0 <= id < n
    requires AllNormal(e, ports) && OnlyPrunedRepeat(e)
    ensures AddrsOk(c, ports)
  {
    hide Normal, OnlyPrunedRepeat, RemovedKey;
    forall id | id in c.info
      ensures AddrKnown(c, ports, id)
    {
      assert SameEntry(e.info[id], c.info[id]);
      var a := e.info[id].addr;
      assert a in e.addrs && e.info[e.addrs[a]].addr == a;
      NotRemoved(e, n, ports, id);
      SameOnly(e, e.addrs[a], id);
    }
    forall a | a in c.addrs
      ensures c.addrs[a] in c.info && Normal(c.info[c.addrs[a]].addr, ports) == a
    {
      var id := e.addrs[a];
      assert id in e.info && e.info[id].addr == a && Normal(a, ports) == a;
      NotPruned(e, n, ports, id);
      assert id in c.info && SameEntry(e.info[id], c.info[id]);
    }
  }

  lemma NotPruned(e: Book, n: nat, ports: bool, id: int)
    requires AllNormal(e, ports) && id in e.info && 0 <= id < n && !RemovedKey(e, n, ports, e.info[id].addr)
    ensures !Unreferenced(e, id)
  {
    hide Normal;
    assert Normal(e.info[id].addr, ports) == e.info[id].addr;
  }

  lemma KeyNormal(c: Book, ports: bool, a: Service)
    requires AddrsOk(c, ports) && a in c.addrs
    ensures Normal(a, ports) == a
  {
  }

  lemma RemovedNormal(e: Book, n: nat, ports: bool, a: Service)
    requires RemovedKey(e, n, ports, a)
    ensures Normal(a, ports) == a
  {
  }

  lemma MustBeNormal(e: Book, c: Book, n: nat, ports: bool)
    requires Indexed(e) && PrunedTo(e, c, n, ports) && AddrsOk(c, ports)
    ensures AllNormal(e, ports)
  {
    hide Normal, AddrsOk, RemovedKey;
    forall id | id in e.info
      ensures Normal(e.info[id].addr, ports) == e.info[id].addr
    {
      var a := e.info[id].addr;
      if a in c.addrs {
        KeyNormal(c, ports, a);
      } else {
        RemovedNormal(e, n, ports, a);
      }
    }
  }

  /** An entry that stays is found under its address. */
  lemma StaysKnown(e: Book, c: Book, n: nat, ports: bool, i: int)
    requires PrunedTo(e, c, n, ports) && AddrsOk(c, ports) && AllNormal(e, ports) && i in e.info && !Unreferenced(e, i)
    ensures e.info[i].addr in c.addrs && c.addrs[e.info[i].addr] == i && !RemovedKey(e, n, ports, e.info[i].addr)
  {
    hide Normal, RemovedKey;
    assert i in c.info && AddrKnown(c, ports, i) && SameEntry(e.info[i], c.info[i]);
  }

  lemma MustNotRepeat(e: Book, c: Book, n: nat, ports: bool)
    requires PrunedTo(e, c, n, ports) && AddrsOk(c, ports) && AllNormal(e, ports)
    requires forall id :: id in e.info ==> 0 <= id < n
    ensures OnlyPrunedRepeat(e)
  {
    hide Normal, AddrsOk, RemovedKey, PrunedTo;
    forall i, j | i in e.info && j in e.info && i != j && e.info[i].addr == e.info[j].addr
      ensures Unreferenced(e, i)
    {
      if !Unreferenced(e, i) {
        StaysKnown(e, c, n, ports, i);
        NotPruned(e, n, ports, j);
        StaysKnown(e, c, n, ports, j);
      }
    }
  }

  /**
   Whatever complete stream within the limits is loaded, the result is consistent if and only if the
   addresses that were listed are normal and none of them repeats, except among entries that end up
   in no slot and are pruned.
   */
  lemma LoadedIff(d: Dump, ports: bool)
    requires Complete(d) && InLimits(d)
    ensures Consistent(Loaded(d, ports), d.h, ports) <==> AllNormal(Entered(d), ports) && OnlyPrunedRepeat(Entered(d))
  {
    hide Loaded, Entered, PrunedTo, Indexed, RandomOk, NewsOk, TriedOk, RefsOk, CountsOk, AddrsOk, AllNormal, OnlyPrunedRepeat;
    LoadedSound(d, ports);
    EnteredIndexed(d);
    IndexIff(Entered(d), Loaded(d, ports), d.nNew + d.nTried, ports);
  }

  /** In particular a stream of different full addresses loads well if ports matter. */
  lemma DistinctLoads(d: Dump)
    requires Complete(d) && InLimits(d)
    requires forall i, j :: i in Entered(d).info && j in Entered(d).info && i != j ==>
               Entered(d).info[i].addr != Entered(d).info[j].addr
    ensures Consistent(Loaded(d, true), d.h, true)
  {
    hide Loaded, Entered;
    LoadedIff(d, true);
  }

  // ---------------------------------------------------------------------------------------
  // Loading what was saved.
  // ---------------------------------------------------------------------------------------

  lemma RenamedDistinct(c: Book, b: Book, h: Hashing)
    requires Consistent(b, h, true) && Renamed(c, b) && Distinct(b)
    ensures Distinct(c)
  {
    hide Consistent, NewId, OldId;
    forall i, j | i in c.info && j in c.info && c.info[i].addr == c.info[j].addr
      ensures i == j
    {
      RenamingBack(b, h, true, i);
      RenamingBack(b, h, true, j);
    }
  }

  /**
   Loading what was saved loses nothing and restores every table up to the names of the ids, with
   full addresses in the index. The result is consistent if and only if no port had been normalised.
   */
  lemma SaveThenLoad(b: Book, h: Hashing, ports: bool)
    requires Consistent(b, h, ports)
    ensures b.nextId >= 0 && Complete(DumpOf(b, h)) && InLimits(DumpOf(b, h)) && Distinct(b)
    ensures Renamed(Loaded(DumpOf(b, h), ports), ByFullAddress(b))
    ensures Consistent(Loaded(DumpOf(b, h), ports), h, ports) <==> AllNormal(b, ports)
  {
    hide Consistent, Renamed, Loaded, Entered, Complete, InLimits, AllNormal;
    FullConsistent(b, h, ports);
    var f := ByFullAddress(b);
    FullyRestored(f, h, ports);
    SameDump(b, f, h);
    var d := DumpOf(b, h);
    LoadedIff(d, ports);
    RenamedAddresses(Entered(d), f, h, ports);
    SameNormal(b, f, ports);
    RenamedDistinct(Entered(d), f, h);
  }

  lemma SameNormal(b: Book, f: Book, ports: bool)
    requires b.info == f.info
    ensures AllNormal(b, ports) <==> AllNormal(f, ports)
  {
  }
}
