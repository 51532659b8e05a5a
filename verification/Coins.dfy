/**
 The unspent-output cache stack (src/coins.h, src/coins.cpp).  A cache overlays a backing view,
 which is the coin database or another cache, and marks its entries DIRTY and FRESH so that
 flushing can skip work.  Every layer is proved to behave as a plain map from outpoints to
 unspent coins, whatever the depth of the stack.
 */
module Coins {
  import opened Wrappers

  datatype OutPoint = OutPoint(hash: nat, n: nat)

  /** A script; `zeroAsset` says that it parses as an asset script with amount zero. */
  datatype Script = Script(bytes: seq<nat>, zeroAsset: bool)

  datatype TxOut = TxOut(nValue: int, scriptPubKey: Script)

  datatype Coin = Coin(out: TxOut, fCoinBase: bool, nHeight: nat) {
    predicate IsSpent() { out.nValue == -1 }

    /** What malloc takes for a script that does not fit the 28 bytes stored in place. */
    function DynamicMemoryUsage(): nat {
      var n := |out.scriptPubKey.bytes|;
      if n <= 28 then 0 else (n + 31) / 16 * 16
    }
  }

  const OP_RETURN := 0x6a
  const OP_BLKR_ASSET := 0xc0
  const MAX_SCRIPT_SIZE := 10000

  const EmptyCoin := Coin(TxOut(-1, Script([], false)), false, 0)

  predicate IsUnspendable(s: Script) {
    || (|s.bytes| > 0 && s.bytes[0] == OP_RETURN)
    || (|s.bytes| > 0 && s.bytes[0] == OP_BLKR_ASSET)
    || |s.bytes| > MAX_SCRIPT_SIZE
    || s.zeroAsset
  }

  /** What makes a script unspendable: its first byte, its length, or an asset amount of zero. */
  lemma UnspendableIff(b: nat, rest: seq<nat>, zero: bool)
    ensures IsUnspendable(Script([b] + rest, zero)) <==> b == 106 || b == 192 || |rest| >= 10_000 || zero
    ensures IsUnspendable(Script([], zero)) <==> zero
  {
  }

  datatype CacheEntry = CacheEntry(coin: Coin, isDirty: bool, isFresh: bool)

  type CoinsMap = map<OutPoint, CacheEntry>
  type Utxo = map<OutPoint, Coin>

  // ---------------------------------------------------------------------------------------
  // The reference: a plain map, and a cache seen as an overlay of one.
  // ---------------------------------------------------------------------------------------

  /** Writing a coin into a plain map; writing a spent coin removes the output. */
  function Put(v: Utxo, k: OutPoint, c: Coin): Utxo {
    if c.IsSpent() then v - {k} else v[k := c]
  }

  /** The map that a cache over `base` stands for. */
  function Overlay(cache: CoinsMap, base: Utxo): Utxo {
    map k | k in cache.Keys + base.Keys && (k in cache ==> !cache[k].coin.IsSpent())
      :: if k in cache then cache[k].coin else base[k]
  }

  ghost predicate AllUnspent(v: Utxo) {
    forall k :: k in v ==> !v[k].IsSpent()
  }

  /** What the flags of one entry promise about the view underneath. */
  ghost predicate EntryOk(k: OutPoint, e: CacheEntry, base: Utxo) {
    && (!e.isDirty ==> if e.coin.IsSpent() then k !in base else k in base && base[k] == e.coin)
    && (e.isFresh ==> k !in base)
  }

  ghost predicate FlagsOk(cache: CoinsMap, base: Utxo) {
    forall k :: k in cache ==> EntryOk(k, cache[k], base)
  }

  /** One layer over `base`: truthful flags and an exact memory counter. */
  ghost predicate LayerOk(cache: CoinsMap, usage: int, base: Utxo) {
    AllUnspent(base) && FlagsOk(cache, base) && usage == SumUsage(cache)
  }

  ghost function SumUsage(m: CoinsMap): nat
  {
    if m == map[] then 0
    else
      var k :| k in m;
      m[k].coin.DynamicMemoryUsage() + SumUsage(m - {k})
  }

  lemma {:induction false} SumUsageRemove(m: CoinsMap, k: OutPoint)
    requires k in m
    ensures SumUsage(m) == m[k].coin.DynamicMemoryUsage() + SumUsage(m - {k})
    decreases |m|
  {
    var j :| j in m && SumUsage(m) == m[j].coin.DynamicMemoryUsage() + SumUsage(m - {j});
    if j != k {
      SumUsageRemove(m - {j}, k);
      SumUsageRemove(m - {k}, j);
      assert m - {j} - {k} == m - {k} - {j};
    }
  }

  lemma SumUsagePut(m: CoinsMap, k: OutPoint, e: CacheEntry)
    ensures SumUsage(m[k := e]) == SumUsage(m - {k}) + e.coin.DynamicMemoryUsage()
  {
    SumUsageRemove(m[k := e], k);
    assert m[k := e] - {k} == m - {k};
  }

  /** Replacing one entry changes the overlay at that outpoint only. */
  lemma OverlayPut(cache: CoinsMap, base: Utxo, k: OutPoint, e: CacheEntry)
    requires AllUnspent(base)
    ensures Overlay(cache[k := e], base) == Put(Overlay(cache, base), k, e.coin)
    ensures FlagsOk(cache, base) && EntryOk(k, e, base) ==> FlagsOk(cache[k := e], base)
  {
  }

  /** Copying an unspent coin up from the view underneath changes nothing visible. */
  lemma OverlayFetch(cache: CoinsMap, base: Utxo, k: OutPoint)
    requires k !in cache && k in base && AllUnspent(base)
    ensures var up := cache[k := CacheEntry(base[k], false, false)];
            && Overlay(up, base) == Overlay(cache, base)
            && (FlagsOk(cache, base) ==> FlagsOk(up, base))
            && SumUsage(up) == SumUsage(cache) + base[k].DynamicMemoryUsage()
  {
    SumUsagePut(cache, k, CacheEntry(base[k], false, false));
    assert cache - {k} == cache;
  }

  /** Dropping an entry reveals what is underneath. */
  lemma OverlayErase(cache: CoinsMap, base: Utxo, k: OutPoint)
    requires k in cache && AllUnspent(base)
    ensures Overlay(cache - {k}, base) ==
            Put(Overlay(cache, base), k, if k in base then base[k] else EmptyCoin)
    ensures FlagsOk(cache, base) ==> FlagsOk(cache - {k}, base)
  {
  }

  /** `cur` is `base` with the entries of `batch` applied, except those still in `todo`. */
  ghost predicate Applied(batch: CoinsMap, todo: CoinsMap, base: Utxo, cur: Utxo) {
    && todo.Keys <= batch.Keys && (forall k :: k in todo ==> todo[k] == batch[k])
    && AllUnspent(base) && FlagsOk(batch, base)
    && cur == Overlay(batch - todo.Keys, base) && AllUnspent(cur)
  }

  lemma AppliedStart(batch: CoinsMap, base: Utxo)
    requires AllUnspent(base) && FlagsOk(batch, base)
    ensures Applied(batch, batch, base, base)
  {
    assert batch - batch.Keys == map[];
  }

  lemma AppliedEnd(batch: CoinsMap, base: Utxo, cur: Utxo)
    requires Applied(batch, map[], base, cur)
    ensures cur == Overlay(batch, base)
  {
    assert batch - {} == batch;
  }

  /** One more entry is applied; an entry that is not DIRTY needs no write. */
  lemma AppliedStep(batch: CoinsMap, todo: CoinsMap, k: OutPoint, base: Utxo, cur: Utxo)
    requires Applied(batch, todo, base, cur) && k in todo
    ensures Applied(batch, todo - {k}, base, Put(cur, k, todo[k].coin))
    ensures !todo[k].isDirty ==> Put(cur, k, todo[k].coin) == cur
    ensures EntryOk(k, todo[k], cur)
  {
    var done := batch - todo.Keys;
    assert EntryOk(k, batch[k], base);
    OverlayPut(done, base, k, todo[k]);
    assert batch - (todo - {k}).Keys == done[k := todo[k]];
  }

  /** Storing an entry: the new overlay, the flags and the memory in use. */
  lemma StoreEntry(cache: CoinsMap, base: Utxo, k: OutPoint, e: CacheEntry)
    requires AllUnspent(base) && FlagsOk(cache, base)
    ensures Overlay(cache[k := e], base) == Put(Overlay(cache, base), k, e.coin)
    ensures FlagsOk(cache[k := e], base) <==> EntryOk(k, e, base)
    ensures SumUsage(cache[k := e]) == SumUsage(cache) + e.coin.DynamicMemoryUsage()
                                       - (if k in cache then cache[k].coin.DynamicMemoryUsage() else 0)
  {
    OverlayPut(cache, base, k, e);
    SumUsagePut(cache, k, e);
    if k in cache {
      SumUsageRemove(cache, k);
    } else {
      assert cache - {k} == cache;
    }
    assert cache[k := e][k] == e;
  }

  lemma EmptyOverlay(base: Utxo)
    ensures Overlay(map[], base) == base
    ensures AllUnspent(base) ==> LayerOk(map[], 0, base)
  {
  }

  /**
   The entry that `AddCoin` stores when it does not throw: the flags it leaves are truthful
   exactly if an overwrite was allowed or the view had no such coin.
   */
  lemma AddedEntry(cache: CoinsMap, base: Utxo, k: OutPoint, coin: Coin, possibleOverwrite: bool)
    requires AllUnspent(base) && FlagsOk(cache, base) && !coin.IsSpent()
    requires possibleOverwrite || k !in cache || cache[k].coin.IsSpent()
    ensures var e := if k in cache then cache[k] else CacheEntry(EmptyCoin, false, false);
            var up := cache[k := CacheEntry(coin, true, e.isFresh || (!possibleOverwrite && !e.isDirty))];
            && Overlay(up, base) == Overlay(cache, base)[k := coin]
            && (FlagsOk(up, base) <==> possibleOverwrite || k !in Overlay(cache, base))
            && SumUsage(up) == SumUsage(cache) - e.coin.DynamicMemoryUsage() + coin.DynamicMemoryUsage()
  {
    var e := if k in cache then cache[k] else CacheEntry(EmptyCoin, false, false);
    StoreEntry(cache, base, k, CacheEntry(coin, true, e.isFresh || (!possibleOverwrite && !e.isDirty)));
  }

  /** Erasing an entry whose output the view underneath does not have. */
  lemma EraseEntry(cache: CoinsMap, base: Utxo, k: OutPoint)
    requires AllUnspent(base) && FlagsOk(cache, base) && k in cache && k !in base
    ensures Overlay(cache - {k}, base) == Put(Overlay(cache, base), k, EmptyCoin)
    ensures FlagsOk(cache - {k}, base)
    ensures SumUsage(cache - {k}) == SumUsage(cache) - cache[k].coin.DynamicMemoryUsage()
  {
    OverlayErase(cache, base, k);
    SumUsageRemove(cache, k);
  }

  /** Erasing an entry without flags: the view underneath has the same coin. */
  lemma UncacheEntry(cache: CoinsMap, base: Utxo, k: OutPoint)
    requires AllUnspent(base) && FlagsOk(cache, base) && k in cache && !cache[k].isDirty
    ensures Overlay(cache - {k}, base) == Overlay(cache, base)
    ensures FlagsOk(cache - {k}, base)
    ensures SumUsage(cache - {k}) == SumUsage(cache) - cache[k].coin.DynamicMemoryUsage()
  {
    assert EntryOk(k, cache[k], base);
    OverlayErase(cache, base, k);
    SumUsageRemove(cache, k);
  }

  /** Removing from a map is the same whichever spent coin is written. */
  lemma PutSpent(v: Utxo, k: OutPoint, c: Coin, d: Coin)
    requires c.IsSpent() && d.IsSpent()
    ensures Put(v, k, c) == Put(v, k, d)
  {
  }

  // ---------------------------------------------------------------------------------------
  // The database at the bottom of the stack.
  // ---------------------------------------------------------------------------------------

  class CoinsViewDB {
    var coins: Utxo

    constructor ()
      ensures coins == map[]
    {
      coins := map[];
    }

    /** Writes the DIRTY entries: spent ones are erased, the others stored. */
    method BatchWrite(batch: CoinsMap)
      requires AllUnspent(coins) && FlagsOk(batch, coins)
      modifies this
      ensures coins == Overlay(batch, old(coins)) && AllUnspent(coins)
    {
      var todo := batch;
      AppliedStart(batch, coins);
      while todo != map[]
        invariant Applied(batch, todo, old(coins), coins)
        decreases |todo|
      {
        var k :| k in todo;
        AppliedStep(batch, todo, k, old(coins), coins);
        if todo[k].isDirty {
          if todo[k].coin.IsSpent() {
            coins := coins - {k};
          } else {
            coins := coins[k := todo[k].coin];
          }
        }
        todo := todo - {k};
      }
      AppliedEnd(batch, old(coins), coins);
    }
  }

  // ---------------------------------------------------------------------------------------
  // The caches.
  // ---------------------------------------------------------------------------------------

  datatype Backing = Disk(db: CoinsViewDB) | Layer(cache: CoinsViewCache)

  class CoinsViewCache {
    const base: Backing
    ghost const depth: nat
    ghost const repr: set<object>

    var cacheCoins: CoinsMap
    var cachedCoinsUsage: int

    /** The layers underneath are distinct objects, ending in a database. */
    ghost predicate Shape()
      decreases depth
    {
      && this in repr
      && match base
         case Disk(db) => depth == 0 && repr == {this, db}
         case Layer(c) => depth == c.depth + 1 && repr == {this} + c.repr && this !in c.repr && c.Shape()
    }

    /** The map this layer stands for. */
    ghost function View(): Utxo
      requires Shape()
      reads repr
      decreases depth, 2
    {
      Overlay(cacheCoins, BaseView())
    }

    /** The map the backing view stands for. */
    ghost function BaseView(): Utxo
      requires Shape()
      reads repr
      decreases depth, 1
    {
      match base
      case Disk(db) => db.coins
      case Layer(c) => c.View()
    }

    /** The maps of all layers, from the database up. */
    ghost function Levels(): (vs: seq<Utxo>)
      requires Shape()
      reads repr
      ensures |vs| == depth + 2 && vs[|vs| - 1] == View() && vs[|vs| - 2] == BaseView()
      decreases depth, 2
    {
      BaseLevels() + [View()]
    }

    ghost function BaseLevels(): (vs: seq<Utxo>)
      requires Shape()
      reads repr
      ensures |vs| == depth + 1 && vs[|vs| - 1] == BaseView()
      decreases depth, 1
    {
      match base
      case Disk(db) => [db.coins]
      case Layer(c) => c.Levels()
    }

    /** At every layer the flags are truthful and the memory counter is exact. */
    ghost predicate Valid()
      reads repr
      decreases depth
    {
      && Shape()
      && LayerOk(cacheCoins, cachedCoinsUsage, BaseView())
      && (base.Layer? ==> base.cache.Valid())
    }

    /** The same of the layers underneath. */
    ghost predicate BaseValid()
      requires Shape()
      reads repr
    {
      AllUnspent(BaseView()) && (base.Layer? ==> base.cache.Valid())
    }

    /** Sets the fields of this layer; the layers underneath are untouched. */
    method Assign(coins: CoinsMap, usage: int)
      requires Shape() && BaseValid()
      modifies this
      ensures cacheCoins == coins && cachedCoinsUsage == usage
      ensures BaseLevels() == old(BaseLevels()) && View() == Overlay(coins, BaseView()) && BaseValid()
      ensures Valid() <==> LayerOk(coins, usage, BaseView())
    {
      cacheCoins := coins;
      cachedCoinsUsage := usage;
    }

    constructor (b: Backing)
      requires b.Disk? ==> AllUnspent(b.db.coins)
      requires b.Layer? ==> b.cache.Valid()
      ensures base == b && Valid() && cacheCoins == map[]
      ensures View() == BaseView()
    {
      base := b;
      depth := match b case Disk(_) => 0 case Layer(c) => c.depth + 1;
      ghost var below: set<object> := match b case Disk(db) => {db} case Layer(c) => c.repr;
      repr := {this} + below;
      cacheCoins := map[];
      cachedCoinsUsage := 0;
      new;
      assert View() == BaseView();
    }

    /** Pulls an entry into this cache, and into every cache it is read through. */
    method FetchCoin(k: OutPoint) returns (found: bool)
      requires Valid()
      modifies repr
      ensures Valid() && View() == old(View()) && BaseLevels() == old(BaseLevels())
      ensures found <==> k in cacheCoins
      ensures !found ==> k !in View()
      ensures k in old(cacheCoins) ==> cacheCoins == old(cacheCoins)
      ensures k !in old(cacheCoins) && found ==>
                k in View() && cacheCoins == old(cacheCoins)[k := CacheEntry(View()[k], false, false)]
      decreases depth, 1
    {
      if k in cacheCoins {
        return true;
      }
      var got, tmp := BaseGetCoin(k);
      if !got {
        return false;
      }
      OverlayFetch(cacheCoins, BaseView(), k);
      Assign(cacheCoins[k := CacheEntry(tmp, false, tmp.IsSpent())], cachedCoinsUsage + tmp.DynamicMemoryUsage());
      return true;
    }

    /** `base->GetCoin`: the virtual call on the backing view. */
    method BaseGetCoin(k: OutPoint) returns (got: bool, coin: Coin)
      requires Valid()
      modifies repr - {this}
      ensures Valid() && View() == old(View()) && BaseLevels() == old(BaseLevels())
      ensures got <==> k in BaseView()
      ensures got ==> coin == BaseView()[k]
      decreases depth, 0
    {
      match base {
        case Disk(db) =>
          got := k in db.coins;
          coin := if got then db.coins[k] else EmptyCoin;
        case Layer(c) =>
          got, coin := c.GetCoin(k);
      }
    }

    method GetCoin(k: OutPoint) returns (got: bool, coin: Coin)
      requires Valid()
      modifies repr
      ensures Valid() && View() == old(View()) && BaseLevels() == old(BaseLevels())
      ensures got <==> k in View()
      ensures got ==> coin == View()[k]
      decreases depth, 2
    {
      var found := FetchCoin(k);
      if found {
        coin := cacheCoins[k].coin;
        return !coin.IsSpent(), coin;
      }
      return false, EmptyCoin;
    }

    method HaveCoin(k: OutPoint) returns (have: bool)
      requires Valid()
      modifies repr
      ensures Valid() && View() == old(View()) && BaseLevels() == old(BaseLevels())
      ensures have <==> k in View()
    {
      var found := FetchCoin(k);
      return found && !cacheCoins[k].coin.IsSpent();
    }

    /** Returns the coin, or a spent one if the view has no such output. */
    method AccessCoin(k: OutPoint) returns (coin: Coin)
      requires Valid()
      modifies repr
      ensures Valid() && View() == old(View()) && BaseLevels() == old(BaseLevels())
      ensures if k in View() then coin == View()[k] else coin.IsSpent()
    {
      var found := FetchCoin(k);
      return if found then cacheCoins[k].coin else EmptyCoin;
    }

    /**
     Adds a coin; `ok` is false where the code throws.  The view always ends up with the coin.
     The flags stay truthful exactly when the caller keeps the documented convention: without
     `possibleOverwrite` there must be no such coin in the view yet.
     */
    method AddCoin(k: OutPoint, coin: Coin, possibleOverwrite: bool) returns (ok: bool)
      requires Shape() && BaseValid() && !coin.IsSpent()
      modifies this
      ensures BaseLevels() == old(BaseLevels()) && BaseValid()
      ensures forall j :: j != k ==> (j in cacheCoins <==> j in old(cacheCoins))
      ensures forall j :: j != k && j in cacheCoins ==> cacheCoins[j] == old(cacheCoins)[j]
      ensures !ok <==> !possibleOverwrite && !IsUnspendable(coin.out.scriptPubKey)
                       && k in old(cacheCoins) && !old(cacheCoins)[k].coin.IsSpent()
      ensures ok ==> View() == if IsUnspendable(coin.out.scriptPubKey) then old(View()) else old(View())[k := coin]
      ensures ok && old(Valid()) ==>
                (Valid() <==> possibleOverwrite || IsUnspendable(coin.out.scriptPubKey) || k !in old(View()))
      ensures ok && !possibleOverwrite && !IsUnspendable(coin.out.scriptPubKey) && k !in old(cacheCoins) ==>
                k in cacheCoins && cacheCoins[k] == CacheEntry(coin, true, true)
      ensures !ok ==> cacheCoins == old(cacheCoins)
                      && cachedCoinsUsage == old(cachedCoinsUsage) - cacheCoins[k].coin.DynamicMemoryUsage()
    {
      hide Overlay, FlagsOk, SumUsage;
      if IsUnspendable(coin.out.scriptPubKey) {
        return true;
      }
      var inserted := k !in cacheCoins;
      var e := if inserted then CacheEntry(EmptyCoin, false, false) else cacheCoins[k];
      var markFresh := false;
      var usage := cachedCoinsUsage;
      if !inserted {
        usage := usage - e.coin.DynamicMemoryUsage();
      }
      if !possibleOverwrite {
        if !e.coin.IsSpent() {
          Assign(cacheCoins, usage);
          return false;
        }
        markFresh := !e.isDirty;
      }
      OverlayPut(cacheCoins, BaseView(), k, CacheEntry(coin, true, e.isFresh || markFresh));
      if Valid() {
        AddedEntry(cacheCoins, BaseView(), k, coin, possibleOverwrite);
      }
      Assign(cacheCoins[k := CacheEntry(coin, true, e.isFresh || markFresh)],
             usage + coin.DynamicMemoryUsage());
      return true;
    }

    /**
     Spends a coin.  The view loses the output; the layer underneath does not change.  The result
     says whether the cache had an entry, which it also has for an output already spent in it.
     */
    method SpendCoin(k: OutPoint) returns (r: bool, moveout: Coin)
      requires Valid()
      modifies repr
      ensures Valid() && BaseLevels() == old(BaseLevels())
      ensures View() == old(View()) - {k}
      ensures r <==> k in old(View()) || k in old(cacheCoins)
      ensures if k in old(View()) then moveout == old(View())[k] else moveout.IsSpent()
    {
      var found := FetchCoin(k);
      if !found {
        assert View() - {k} == View();
        return false, EmptyCoin;
      }
      var e := cacheCoins[k];
      moveout := e.coin;
      r := true;
      var usage := cachedCoinsUsage - e.coin.DynamicMemoryUsage();
      if e.isFresh {
        EraseEntry(cacheCoins, BaseView(), k);
        Assign(cacheCoins - {k}, usage);
      } else {
        StoreEntry(cacheCoins, BaseView(), k, CacheEntry(EmptyCoin, true, false));
        Assign(cacheCoins[k := CacheEntry(EmptyCoin, true, false)], usage);
      }
    }

    /** Drops an entry that carries no flags. */
    method Uncache(k: OutPoint)
      requires Valid()
      modifies this
      ensures Valid() && View() == old(View()) && BaseLevels() == old(BaseLevels())
      ensures cacheCoins == if k in old(cacheCoins) && !old(cacheCoins)[k].isDirty && !old(cacheCoins)[k].isFresh
                            then old(cacheCoins) - {k} else old(cacheCoins)
    {
      if k in cacheCoins && !cacheCoins[k].isDirty && !cacheCoins[k].isFresh {
        UncacheEntry(cacheCoins, BaseView(), k);
        Assign(cacheCoins - {k}, cachedCoinsUsage - cacheCoins[k].coin.DynamicMemoryUsage());
      }
    }

    /** One DIRTY entry of a child that is being flushed into this cache; `ok` is false where the code throws. */
    method MergeEntry(k: OutPoint, e: CacheEntry) returns (ok: bool)
      requires Valid() && e.isDirty && EntryOk(k, e, View())
      modifies this
      ensures ok && Valid() && BaseLevels() == old(BaseLevels())
      ensures View() == Put(old(View()), k, e.coin)
    {
      if k !in cacheCoins {
        if e.isFresh && e.coin.IsSpent() {
          assert View() - {k} == View();
        } else {
          StoreEntry(cacheCoins, BaseView(), k, e);
          Assign(cacheCoins[k := CacheEntry(e.coin, true, e.isFresh)],
                 cachedCoinsUsage + e.coin.DynamicMemoryUsage());
        }
      } else {
        var us := cacheCoins[k];
        if e.isFresh && !us.coin.IsSpent() {
          return false;
        }
        if us.isFresh && e.coin.IsSpent() {
          EraseEntry(cacheCoins, BaseView(), k);
          PutSpent(View(), k, e.coin, EmptyCoin);
          Assign(cacheCoins - {k}, cachedCoinsUsage - us.coin.DynamicMemoryUsage());
        } else {
          StoreEntry(cacheCoins, BaseView(), k, CacheEntry(e.coin, true, us.isFresh));
          Assign(cacheCoins[k := CacheEntry(e.coin, true, us.isFresh)],
                 cachedCoinsUsage - us.coin.DynamicMemoryUsage() + e.coin.DynamicMemoryUsage());
        }
      }
      return true;
    }

    /**
     Takes over the entries of a child cache whose flags are truthful about this view.  The throw
     for a misapplied FRESH flag is not reached, and the flags of this cache stay truthful about
     the view underneath it.
     */
    method BatchWrite(batch: CoinsMap) returns (ok: bool)
      requires Valid() && FlagsOk(batch, View())
      modifies this
      ensures ok && Valid() && BaseLevels() == old(BaseLevels())
      ensures View() == Overlay(batch, old(View()))
    {
      var todo := batch;
      ok := true;
      ViewUnspent();
      AppliedStart(batch, View());
      while todo != map[]
        invariant ok && Valid() && BaseLevels() == old(BaseLevels())
        invariant Applied(batch, todo, old(View()), View())
        decreases |todo|
      {
        var k :| k in todo;
        AppliedStep(batch, todo, k, old(View()), View());
        if todo[k].isDirty {
          ok := MergeEntry(k, todo[k]);
        }
        todo := todo - {k};
      }
      AppliedEnd(batch, old(View()), View());
    }

    lemma ViewUnspent()
      requires Valid()
      ensures AllUnspent(View())
    {
    }

    /** Pushes all changes one layer down: the top view is unchanged and the layer below equals it. */
    method Flush() returns (ok: bool)
      requires Valid()
      modifies repr
      ensures ok && Valid() && cacheCoins == map[]
      ensures View() == old(View()) && BaseView() == old(View())
      ensures BaseLevels() == old(BaseLevels())[..depth] + [old(View())]
    {
      hide Overlay, FlagsOk, SumUsage;
      ok := BaseBatchWrite();
      EmptyOverlay(BaseView());
      Assign(map[], 0);
    }

    /** `base->BatchWrite`: the virtual call on the backing view. */
    method BaseBatchWrite() returns (ok: bool)
      requires Valid()
      modifies repr - {this}
      ensures ok && BaseValid() && BaseView() == old(View())
      ensures BaseLevels() == old(BaseLevels())[..depth] + [old(View())]
    {
      hide Overlay, FlagsOk, SumUsage;
      ViewUnspent();
      match base {
        case Disk(db) =>
          db.BatchWrite(cacheCoins);
          ok := true;
        case Layer(c) =>
          ok := c.BatchWrite(cacheCoins);
      }
    }

    method AddTo(k: OutPoint, coin: Coin, possibleOverwrite: bool)
      requires Valid() && !coin.IsSpent() && (possibleOverwrite || k !in View())
      modifies this
      ensures Valid() && BaseLevels() == old(BaseLevels())
      ensures View() == if IsUnspendable(coin.out.scriptPubKey) then old(View()) else old(View())[k := coin]
    {
      hide Overlay, FlagsOk, SumUsage;
      OverlayHas(cacheCoins, BaseView(), k);
      var _ := AddCoin(k, coin, possibleOverwrite);
    }

    /** One operation on the top of a stack. */
    method Perform(op: Op) returns (read: Option<Coin>)
      requires Valid() && LegalOp(Levels(), op) && !op.Push? && !op.Drop?
      modifies repr
      ensures Valid() && Levels() == Exec(old(Levels()), op) && read == ReadBy(old(Levels()), op)
    {
      hide View, BaseView, BaseLevels, LayerOk, LegalOp, Exec, ReadBy;
      ExecOn(BaseLevels(), View(), op);
      read := None;
      match op {
        case Add(k, coin, overwrite) =>
          AddTo(k, coin, overwrite);
        case Spend(k) =>
          var _, _ := SpendCoin(k);
        case Read(k) =>
          var got, coin := GetCoin(k);
          if got {
            read := Some(coin);
          }
        case Uncached(k) =>
          Uncache(k);
        case Flushed =>
          var _ := Flush();
      }
    }
  }

  // ---------------------------------------------------------------------------------------
  // Runs of operations against the reference maps.
  // ---------------------------------------------------------------------------------------

  /** What can be done with the top of a stack: besides the operations, put a cache on it or give it up. */
  datatype Op =
    | Add(k: OutPoint, coin: Coin, possibleOverwrite: bool)
    | Spend(k: OutPoint)
    | Read(k: OutPoint)
    | Uncached(k: OutPoint)
    | Flushed
    | Push
    | Drop

  /** Overwriting is declared, and the lowest cache is never given up. */
  ghost predicate LegalOp(vs: seq<Utxo>, op: Op)
    requires |vs| >= 2
  {
    && (op.Add? ==> !op.coin.IsSpent() && (op.possibleOverwrite || op.k !in vs[|vs| - 1]))
    && (op.Drop? ==> |vs| > 2)
  }

  /** The effect on plain maps, the database first. */
  ghost function Exec(vs: seq<Utxo>, op: Op): (ws: seq<Utxo>)
    requires |vs| >= 2 && LegalOp(vs, op)
    ensures |ws| >= 2
  {
    var below, top := vs[..|vs| - 1], vs[|vs| - 1];
    match op
    case Add(k, coin, _) => if IsUnspendable(coin.out.scriptPubKey) then vs else below + [top[k := coin]]
    case Spend(k) => below + [top - {k}]
    case Read(_) => vs
    case Uncached(_) => vs
    case Flushed => vs[..|vs| - 2] + [top] + [top]
    case Push => vs + [top]
    case Drop => below
  }

  /** What a lookup returns. */
  ghost function ReadBy(vs: seq<Utxo>, op: Op): Option<Coin>
    requires |vs| >= 2
  {
    var top := vs[|vs| - 1];
    if op.Read? && op.k in top then Some(top[op.k]) else None
  }

  lemma ExecOn(below: seq<Utxo>, top: Utxo, op: Op)
    requires |below| > 0 && LegalOp(below + [top], op)
    ensures op.Add? ==> !op.coin.IsSpent() && (op.possibleOverwrite || op.k !in top)
    ensures ReadBy(below + [top], op) == if op.Read? && op.k in top then Some(top[op.k]) else None
    ensures Exec(below + [top], op) ==
            match op
            case Add(k, coin, _) => below + [if IsUnspendable(coin.out.scriptPubKey) then top else top[k := coin]]
            case Spend(k) => below + [top - {k}]
            case Read(_) => below + [top]
            case Uncached(_) => below + [top]
            case Flushed => below[..|below| - 1] + [top] + [top]
            case Push => below + [top] + [top]
            case Drop => below
  {
    var vs := below + [top];
    assert vs[..|vs| - 1] == below && vs[..|vs| - 2] == below[..|below| - 1];
  }

  ghost predicate LegalRun(vs: seq<Utxo>, ops: seq<Op>)
    requires |vs| >= 2
    decreases |ops|
  {
    ops == [] || (LegalOp(vs, ops[0]) && LegalRun(Exec(vs, ops[0]), ops[1..]))
  }

  ghost function ExecAll(vs: seq<Utxo>, ops: seq<Op>): seq<Utxo>
    requires |vs| >= 2 && LegalRun(vs, ops)
    decreases |ops|
  {
    if ops == [] then vs else ExecAll(Exec(vs, ops[0]), ops[1..])
  }

  ghost function ReadAll(vs: seq<Utxo>, ops: seq<Op>): seq<Option<Coin>>
    requires |vs| >= 2 && LegalRun(vs, ops)
    decreases |ops|
  {
    if ops == [] then [] else [ReadBy(vs, ops[0])] + ReadAll(Exec(vs, ops[0]), ops[1..])
  }

  /**
   Any legal run on a stack of caches, with caches put on and given up along the way, reads and leaves
   what the same run does on a stack of plain maps.
   */
  method Run(start: CoinsViewCache, ops: seq<Op>) returns (top: CoinsViewCache, values: seq<Option<Coin>>)
    requires start.Valid() && LegalRun(start.Levels(), ops)
    modifies start.repr
    ensures top.Valid() && top.Levels() == ExecAll(old(start.Levels()), ops)
    ensures values == ReadAll(old(start.Levels()), ops)
    decreases |ops|
  {
    hide Exec, ReadBy, LegalOp;
    if ops == [] {
      return start, [];
    }
    var next, value := StackStep(start, ops[0]);
    top, values := Run(next, ops[1..]);
    values := [value] + values;
  }

  method StackStep(top: CoinsViewCache, op: Op) returns (now: CoinsViewCache, read: Option<Coin>)
    requires top.Valid() && LegalOp(top.Levels(), op)
    modifies top.repr
    ensures now.Valid() && now.Levels() == Exec(old(top.Levels()), op) && read == ReadBy(old(top.Levels()), op)
    ensures fresh(now.repr - top.repr)
  {
    hide Overlay, FlagsOk, SumUsage;
    now, read := top, None;
    match op {
      case Push =>
        now := new CoinsViewCache(Layer(top));
      case Drop =>
        now := top.base.cache;
      case _ =>
        read := top.Perform(op);
    }
  }

  /**
   What goes wrong when the convention is broken: a coin that only the view underneath has is
   added without `possibleOverwrite` and spent again.  The entry is erased as FRESH, and the old
   coin shows through.
   */
  lemma MisappliedFreshLosesSpend(cache: CoinsMap, base: Utxo, k: OutPoint, coin: Coin)
    requires AllUnspent(base) && FlagsOk(cache, base)
    requires k !in cache && k in base && !coin.IsSpent()
    ensures var added := cache[k := CacheEntry(coin, true, true)];
            && !FlagsOk(added, base)
            && k in Overlay(added - {k}, base) && Overlay(added - {k}, base)[k] == base[k]
  {
    var added := cache[k := CacheEntry(coin, true, true)];
    assert !EntryOk(k, added[k], base);
  }

  /** The outputs of one transaction in a plain map. */
  ghost function PutOutputs(v: Utxo, txid: nat, outs: seq<TxOut>, n: nat, height: nat, coinbase: bool): Utxo
    requires n <= |outs|
  {
    if n == 0 then v
    else
      var w := PutOutputs(v, txid, outs, n - 1, height, coinbase);
      if IsUnspendable(outs[n - 1].scriptPubKey) then w
      else w[OutPoint(txid, n - 1) := Coin(outs[n - 1], coinbase, height)]
  }

  lemma {:induction false} PutOutputsKeys(v: Utxo, txid: nat, outs: seq<TxOut>, n: nat, height: nat, coinbase: bool)
    requires n <= |outs|
    ensures forall i :: n <= i ==>
      (OutPoint(txid, i) in PutOutputs(v, txid, outs, n, height, coinbase) <==> OutPoint(txid, i) in v)
  {
    if n > 0 {
      PutOutputsKeys(v, txid, outs, n - 1, height, coinbase);
    }
  }

  /** Every spendable output becomes its own coin, and nothing else changes. */
  lemma {:induction false} PutOutputsAre(v: Utxo, txid: nat, outs: seq<TxOut>, n: nat, height: nat, coinbase: bool)
    requires n <= |outs|
    ensures var w := PutOutputs(v, txid, outs, n, height, coinbase);
            && (forall i :: 0 <= i < n && !IsUnspendable(outs[i].scriptPubKey) ==>
                  OutPoint(txid, i) in w && w[OutPoint(txid, i)] == Coin(outs[i], coinbase, height))
            && (forall k: OutPoint :: k.hash != txid || k.n >= n || IsUnspendable(outs[k.n].scriptPubKey) ==>
                  (k in w <==> k in v) && (k in v ==> w[k] == v[k]))
  {
    if n > 0 {
      PutOutputsAre(v, txid, outs, n - 1, height, coinbase);
    }
  }

  /** An output that is added without looking, although the view has a coin there. */
  ghost predicate Conflict(v: Utxo, k: OutPoint, out: TxOut, coinbase: bool, check: bool) {
    !check && !coinbase && !IsUnspendable(out.scriptPubKey) && k in v
  }

  /** One output of `AddCoins`. */
  method AddOutput(cache: CoinsViewCache, k: OutPoint, out: TxOut, height: nat, coinbase: bool, check: bool)
      returns (ok: bool)
    requires cache.Shape() && cache.BaseValid() && out.nValue != -1 && (check ==> cache.Valid())
    modifies cache.repr
    ensures cache.Shape() && cache.BaseValid() && cache.BaseLevels() == old(cache.BaseLevels())
    ensures ok <==> !(Conflict(old(cache.View()), k, out, coinbase, check) && k in old(cache.cacheCoins))
    ensures cache.View() == if !ok || IsUnspendable(out.scriptPubKey) then old(cache.View())
                            else old(cache.View())[k := Coin(out, coinbase, height)]
    ensures ok && old(cache.Valid()) ==> (cache.Valid() <==> !Conflict(old(cache.View()), k, out, coinbase, check))
    ensures ok && Conflict(old(cache.View()), k, out, coinbase, check) ==>
              Misapplied(cache.cacheCoins, cache.BaseView(), k)
    ensures !check ==> forall j :: j != k ==> Untouched(cache.cacheCoins, old(cache.cacheCoins), j)
  {
    hide Overlay, FlagsOk, SumUsage;
    OverlayHas(cache.cacheCoins, cache.BaseView(), k);
    var overwrite := coinbase;
    if check {
      overwrite := cache.HaveCoin(k);
      OverlayHas(cache.cacheCoins, cache.BaseView(), k);
    }
    ok := cache.AddCoin(k, Coin(out, coinbase, height), overwrite);
  }

  /**
   `AddCoins`: overwrites are looked up if `check`, and otherwise expected of coinbases only. It throws
   exactly if an output conflicts with a cached coin. Otherwise all outputs are put, and the flags stay
   truthful exactly if none conflicts.
   */
  method AddCoins(cache: CoinsViewCache, txid: nat, outs: seq<TxOut>, height: nat, coinbase: bool, check: bool)
      returns (ok: bool, n: nat)
    requires cache.Valid()
    requires forall i :: 0 <= i < |outs| ==> outs[i].nValue != -1
    modifies cache.repr
    ensures cache.Shape() && cache.BaseLevels() == old(cache.BaseLevels()) && n <= |outs|
    ensures ok <==> n == |outs|
    ensures n == |outs| || (Conflict(old(cache.View()), OutPoint(txid, n), outs[n], coinbase, check)
                            && OutPoint(txid, n) in old(cache.cacheCoins))
    ensures forall i :: 0 <= i < n && Conflict(old(cache.View()), OutPoint(txid, i), outs[i], coinbase, check) ==>
              OutPoint(txid, i) !in old(cache.cacheCoins)
    ensures cache.View() == PutOutputs(old(cache.View()), txid, outs, n, height, coinbase)
    ensures ok ==> (cache.Valid() <==> NoConflict(old(cache.View()), txid, outs, n, coinbase, check))
  {
    hide Overlay, FlagsOk, SumUsage, Conflict, Misapplied, Untouched;
    ghost var v, base, before := cache.View(), cache.BaseView(), cache.cacheCoins;
    ok, n := true, 0;
    NoneMisled(before, v, base, txid, outs, coinbase, check);
    while n < |outs|
      invariant 0 <= n <= |outs| && ok
      invariant cache.Shape() && cache.BaseValid() && cache.BaseLevels() == old(cache.BaseLevels())
      invariant cache.View() == PutOutputs(v, txid, outs, n, height, coinbase)
      invariant cache.Valid() <==> NoConflict(v, txid, outs, n, coinbase, check)
      invariant Misled(before, cache.cacheCoins, v, base, txid, outs, n, coinbase, check)
    {
      PutOutputsKeys(v, txid, outs, n, height, coinbase);
      ghost var was, seen := cache.cacheCoins, cache.View();
      CheckedIsCalm(v, txid, outs, n, coinbase, check);
      ok := AddOutput(cache, OutPoint(txid, n), outs[n], height, coinbase, check);
      MisledMore(before, was, cache.cacheCoins, v, seen, base, txid, outs, n, coinbase, check, ok);
      if !ok {
        return;
      }
      n := n + 1;
    }
  }

  lemma OverlayHas(cache: CoinsMap, base: Utxo, k: OutPoint)
    ensures k in Overlay(cache, base) <==> if k in cache then !cache[k].coin.IsSpent() else k in base
  {
  }

  ghost predicate NoConflict(v: Utxo, txid: nat, outs: seq<TxOut>, n: nat, coinbase: bool, check: bool)
    requires n <= |outs|
  {
    forall i :: 0 <= i < n ==> !Conflict(v, OutPoint(txid, i), outs[i], coinbase, check)
  }

  lemma CheckedIsCalm(v: Utxo, txid: nat, outs: seq<TxOut>, n: nat, coinbase: bool, check: bool)
    requires n <= |outs|
    ensures check ==> NoConflict(v, txid, outs, n, coinbase, check)
  {
  }

  ghost predicate Misapplied(cache: CoinsMap, base: Utxo, k: OutPoint) {
    k in cache && cache[k].isFresh && k in base
  }

  ghost predicate Untouched(cache: CoinsMap, before: CoinsMap, k: OutPoint) {
    (k in cache <==> k in before) && (k in cache ==> cache[k] == before[k])
  }

  /** Every conflict so far was with the view underneath and left a wrong FRESH flag. */
  ghost predicate Misled(before: CoinsMap, now: CoinsMap, v: Utxo, base: Utxo,
                         txid: nat, outs: seq<TxOut>, n: nat, coinbase: bool, check: bool)
    requires n <= |outs|
  {
    && (forall i :: 0 <= i < n && Conflict(v, OutPoint(txid, i), outs[i], coinbase, check) ==>
          OutPoint(txid, i) !in before && Misapplied(now, base, OutPoint(txid, i)))
    && (!check ==> forall i :: n <= i ==> Untouched(now, before, OutPoint(txid, i)))
  }

  lemma NoneMisled(before: CoinsMap, v: Utxo, base: Utxo, txid: nat, outs: seq<TxOut>, coinbase: bool, check: bool)
    ensures Misled(before, before, v, base, txid, outs, 0, coinbase, check)
  {
  }

  lemma MisledMore(before: CoinsMap, was: CoinsMap, now: CoinsMap, v: Utxo, seen: Utxo, base: Utxo,
                   txid: nat, outs: seq<TxOut>, n: nat, coinbase: bool, check: bool, ok: bool)
    requires n < |outs| && Misled(before, was, v, base, txid, outs, n, coinbase, check)
    requires OutPoint(txid, n) in seen <==> OutPoint(txid, n) in v
    requires ok <==> !(Conflict(seen, OutPoint(txid, n), outs[n], coinbase, check) && OutPoint(txid, n) in was)
    requires ok && Conflict(seen, OutPoint(txid, n), outs[n], coinbase, check) ==>
               Misapplied(now, base, OutPoint(txid, n))
    requires !check ==> forall j :: j != OutPoint(txid, n) ==> Untouched(now, was, j)
    ensures Conflict(v, OutPoint(txid, n), outs[n], coinbase, check)
            <==> Conflict(seen, OutPoint(txid, n), outs[n], coinbase, check)
    ensures ok <==> !(Conflict(v, OutPoint(txid, n), outs[n], coinbase, check) && OutPoint(txid, n) in before)
    ensures ok ==> Misled(before, now, v, base, txid, outs, n + 1, coinbase, check)
    ensures !NoConflict(v, txid, outs, n, coinbase, check) ==> !FlagsOk(now, base)
  {
    assert !check ==> Untouched(was, before, OutPoint(txid, n));
    forall i | 0 <= i < n && Conflict(v, OutPoint(txid, i), outs[i], coinbase, check)
      ensures OutPoint(txid, i) !in before && Misapplied(now, base, OutPoint(txid, i))
      ensures !EntryOk(OutPoint(txid, i), now[OutPoint(txid, i)], base)
    {
      assert Untouched(now, was, OutPoint(txid, i));
    }
    if !check {
      forall i | n + 1 <= i
        ensures Untouched(now, before, OutPoint(txid, i))
      {
        assert Untouched(now, was, OutPoint(txid, i)) && Untouched(was, before, OutPoint(txid, i));
      }
    }
  }
}
