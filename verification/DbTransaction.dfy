/**
 The database transaction overlay and its merging iterator (src/dbwrapper.h).  A transaction keeps
 writes and deletes on top of a parent, which is the database or another transaction; a stack of
 any depth behaves as one map, and its iterator walks the keys of that map in ascending order.
 The stack of two that the deterministic data is kept in (src/evo/evodb.h) is at the end.
 */
module DbTransaction {
  import opened Wrappers

  type Byte = b: nat | b < 256
  type Key = seq<Byte>

  // ---------------------------------------------------------------------------------------
  // Keys in lexicographic order of their bytes.
  // ---------------------------------------------------------------------------------------

  predicate Less(a: Key, b: Key) {
    if b == [] then false
    else if a == [] then true
    else a[0] < b[0] || (a[0] == b[0] && Less(a[1..], b[1..]))
  }

  lemma {:induction false} LessIrreflexive(a: Key)
    ensures !Less(a, a)
  {
    if a != [] {
      LessIrreflexive(a[1..]);
    }
  }

  lemma {:induction false} LessTransitive(a: Key, b: Key, c: Key)
    requires Less(a, b) && Less(b, c)
    ensures Less(a, c)
  {
    if a != [] && a[0] == b[0] == c[0] {
      LessTransitive(a[1..], b[1..], c[1..]);
    }
  }

  lemma {:induction false} LessTotal(a: Key, b: Key)
    ensures Less(a, b) || Less(b, a) || a == b
  {
    if a != [] && b != [] && a[0] == b[0] {
      LessTotal(a[1..], b[1..]);
      assert a == [a[0]] + a[1..] && b == [b[0]] + b[1..];
    }
  }

  /** The order: a proper prefix comes first, otherwise the smaller byte at the first difference. */
  lemma {:induction false} LessIff(a: Key, b: Key)
    ensures Less(a, b) <==>
            (|a| < |b| && a == b[..|a|])
            || exists i :: 0 <= i < |a| && i < |b| && a[..i] == b[..i] && a[i] < b[i]
  {
    if a != [] && b != [] {
      if a[0] == b[0] {
        LessIff(a[1..], b[1..]);
        PrefixTail(a, b);
      } else if a[0] < b[0] {
        assert a[..0] == b[..0];
      } else {
        if i: nat :| i < |a| && i < |b| && a[..i] == b[..i] && a[i] < b[i] {
          SameHead(a, b, i);
        }
        if |a| < |b| {
          assert b[..|a|][0] == b[0];
        }
      }
    }
  }

  lemma SameHead(a: Key, b: Key, i: nat)
    requires i < |a| && i < |b| && a[..i] == b[..i]
    ensures i == 0 || a[0] == b[0]
  {
    if i > 0 {
      assert a[..i][0] == b[..i][0];
    }
  }

  lemma PrefixTail(a: Key, b: Key)
    requires a != [] && b != [] && a[0] == b[0]
    ensures |a| < |b| ==> (a == b[..|a|] <==> a[1..] == b[1..][..|a| - 1])
    ensures (exists i :: 0 <= i < |a| && i < |b| && a[..i] == b[..i] && a[i] < b[i])
            <==> exists j :: 0 <= j < |a| - 1 && j < |b| - 1 && a[1..][..j] == b[1..][..j] && a[1..][j] < b[1..][j]
  {
    assert a == [a[0]] + a[1..] && b == [b[0]] + b[1..];
    if |a| < |b| {
      assert b[..|a|] == [b[0]] + b[1..][..|a| - 1];
    }
    forall i | 1 <= i < |a| && i < |b|
      ensures a[..i] == b[..i] <==> a[1..][..i - 1] == b[1..][..i - 1]
    {
      assert a[..i] == [a[0]] + a[1..][..i - 1] && b[..i] == [b[0]] + b[1..][..i - 1];
    }
    if i :| 0 <= i < |a| && i < |b| && a[..i] == b[..i] && a[i] < b[i] {
      assert a[1..][..i - 1] == b[1..][..i - 1] && a[1..][i - 1] < b[1..][i - 1];
    }
    if j :| 0 <= j < |a| - 1 && j < |b| - 1 && a[1..][..j] == b[1..][..j] && a[1..][j] < b[1..][j] {
      assert a[..j + 1] == b[..j + 1] && a[j + 1] < b[j + 1];
    }
  }

  /** Where an iteration has got to: at the start, at the first key not below `k`, or past `k`. */
  datatype Bound = Start | From(k: Key) | After(k: Key)

  predicate Above(b: Bound, x: Key) {
    match b
    case Start => true
    case From(k) => !Less(x, k)
    case After(k) => Less(k, x)
  }

  /** `r` is the least key above the bound, or none if there is no such key. */
  ghost predicate IsLeast(keys: set<Key>, b: Bound, r: Option<Key>) {
    match r
    case None => forall x :: x in keys ==> !Above(b, x)
    case Some(k) => k in keys && Above(b, k) && forall x :: x in keys && Above(b, x) ==> !Less(x, k)
  }

  /** The position a sorted container's `begin`, `lower_bound` or increment leads to. */
  method FindLeast(keys: set<Key>, b: Bound) returns (r: Option<Key>)
    ensures IsLeast(keys, b, r)
  {
    r := None;
    var todo := keys;
    assert keys - todo == {};
    while todo != {}
      invariant todo <= keys && IsLeast(keys - todo, b, r)
      decreases |todo|
    {
      var k :| k in todo;
      LeastStep(keys - todo, b, r, k);
      assert keys - (todo - {k}) == (keys - todo) + {k};
      if Above(b, k) && (r.None? || Less(k, r.value)) {
        r := Some(k);
      }
      todo := todo - {k};
    }
    assert keys - todo == keys;
  }

  lemma LeastStep(keys: set<Key>, b: Bound, r: Option<Key>, k: Key)
    requires IsLeast(keys, b, r)
    ensures IsLeast(keys + {k}, b, if Above(b, k) && (r.None? || Less(k, r.value)) then Some(k) else r)
  {
    LessIrreflexive(k);
    if r.Some? && Less(k, r.value) {
      forall x | x in keys && Above(b, x)
        ensures !Less(x, k)
      {
        if Less(x, k) {
          LessTransitive(x, k, r.value);
        }
      }
    }
  }

  /** Past the least key above a bound, the other keys above the bound are still ahead. */
  lemma LeastAfter(keys: set<Key>, b: Bound, k: Key, x: Key)
    requires IsLeast(keys, b, Some(k)) && x in keys
    ensures Above(After(k), x) <==> Above(b, x) && x != k
  {
    LessIrreflexive(k);
    LessTotal(k, x);
    if Less(k, x) && !Above(b, x) {
      match b {
        case Start =>
        case From(f) =>
          LessTransitive(k, x, f);
        case After(f) =>
          LessTransitive(f, k, x);
      }
    }
  }

  // ---------------------------------------------------------------------------------------
  // The overlay.
  // ---------------------------------------------------------------------------------------

  /** Batched changes are applied in order. */
  datatype BatchOp<V> = Put(k: Key, v: V) | Delete(k: Key)

  function AppliedOp<V>(op: BatchOp<V>, data: map<Key, V>): map<Key, V> {
    match op
    case Put(k, v) => data[k := v]
    case Delete(k) => data - {k}
  }

  function Applied<V>(ops: seq<BatchOp<V>>, data: map<Key, V>): map<Key, V> {
    if ops == [] then data else AppliedOp(ops[|ops| - 1], Applied(ops[..|ops| - 1], data))
  }

  lemma AppliedMore<V>(ops: seq<BatchOp<V>>, op: BatchOp<V>, data: map<Key, V>)
    ensures Applied(ops + [op], data) == AppliedOp(op, Applied(ops, data))
  {
    assert (ops + [op])[..|ops|] == ops;
  }

  /** Changes that are queued to be written to the database. */
  class Batch<V> {
    var ops: seq<BatchOp<V>>

    constructor ()
      ensures ops == []
    {
      ops := [];
    }

    method Write(k: Key, v: V)
      modifies this
      ensures ops == old(ops) + [Put(k, v)]
    {
      ops := ops + [Put(k, v)];
    }

    method Erase(k: Key)
      modifies this
      ensures ops == old(ops) + [Delete(k)]
    {
      ops := ops + [Delete(k)];
    }

    method Clear()
      modifies this
      ensures ops == []
    {
      ops := [];
    }
  }

  /** The database. */
  class Store<V> {
    var data: map<Key, V>

    constructor ()
      ensures data == map[]
    {
      data := map[];
    }

    method WriteBatch(batch: Batch<V>)
      modifies this
      ensures data == Applied(batch.ops, old(data))
    {
      hide AppliedOp;
      var i := 0;
      assert batch.ops[..0] == [];
      while i < |batch.ops|
        invariant 0 <= i <= |batch.ops| && data == Applied(batch.ops[..i], old(data))
      {
        AppliedMore(batch.ops[..i], batch.ops[i], old(data));
        assert batch.ops[..i + 1] == batch.ops[..i] + [batch.ops[i]];
        data := AppliedOp(batch.ops[i], data);
        i := i + 1;
      }
      assert batch.ops[..i] == batch.ops;
    }
  }

  datatype Holder<V> = Holder(value: V, memoryUsage: nat)

  /** The map that writes and deletes over `parent` stand for. */
  function Overlaid<V>(parent: map<Key, V>, writes: map<Key, Holder<V>>, deletes: set<Key>): map<Key, V> {
    map k | k in parent.Keys + writes.Keys && k !in deletes
      :: if k in writes then writes[k].value else parent[k]
  }

  lemma OverlaidWrite<V>(parent: map<Key, V>, writes: map<Key, Holder<V>>, deletes: set<Key>, k: Key, h: Holder<V>)
    ensures Overlaid(parent, writes[k := h], deletes - {k}) == Overlaid(parent, writes, deletes)[k := h.value]
  {
  }

  lemma OverlaidErase<V>(parent: map<Key, V>, writes: map<Key, Holder<V>>, deletes: set<Key>, k: Key)
    ensures Overlaid(parent, writes - {k}, deletes + {k}) == Overlaid(parent, writes, deletes) - {k}
  {
  }

  ghost function WritesUsage<V>(m: map<Key, Holder<V>>): nat {
    if m == map[] then 0
    else
      var k :| k in m;
      |k| + m[k].memoryUsage + WritesUsage(m - {k})
  }

  lemma {:induction false} WritesUsageRemove<V>(m: map<Key, Holder<V>>, k: Key)
    requires k in m
    ensures WritesUsage(m) == |k| + m[k].memoryUsage + WritesUsage(m - {k})
    decreases |m|
  {
    var j :| j in m && WritesUsage(m) == |j| + m[j].memoryUsage + WritesUsage(m - {j});
    if j != k {
      WritesUsageRemove(m - {j}, k);
      WritesUsageRemove(m - {k}, j);
      assert m - {j} - {k} == m - {k} - {j};
    }
  }

  ghost function DeletesUsage(s: set<Key>): nat {
    if s == {} then 0
    else
      var k :| k in s;
      |k| + DeletesUsage(s - {k})
  }

  lemma {:induction false} DeletesUsageRemove(s: set<Key>, k: Key)
    requires k in s
    ensures DeletesUsage(s) == |k| + DeletesUsage(s - {k})
    decreases |s|
  {
    var j :| j in s && DeletesUsage(s) == |j| + DeletesUsage(s - {j});
    if j != k {
      DeletesUsageRemove(s - {j}, k);
      DeletesUsageRemove(s - {k}, j);
      assert s - {j} - {k} == s - {k} - {j};
    }
  }

  lemma WriteUsage<V>(writes: map<Key, Holder<V>>, k: Key, h: Holder<V>)
    ensures WritesUsage(writes[k := h]) ==
            WritesUsage(writes) + |k| + h.memoryUsage - (if k in writes then |k| + writes[k].memoryUsage else 0)
  {
    WritesUsageRemove(writes[k := h], k);
    assert writes[k := h] - {k} == writes - {k};
    if k in writes {
      WritesUsageRemove(writes, k);
    } else {
      assert writes - {k} == writes;
    }
  }

  lemma EraseUsage<V>(writes: map<Key, Holder<V>>, deletes: set<Key>, k: Key)
    ensures WritesUsage(writes - {k}) == WritesUsage(writes) - (if k in writes then |k| + writes[k].memoryUsage else 0)
    ensures DeletesUsage(deletes + {k}) == DeletesUsage(deletes) + (if k in deletes then 0 else |k|)
    ensures DeletesUsage(deletes - {k}) == DeletesUsage(deletes) - (if k in deletes then |k| else 0)
  {
    if k in writes {
      WritesUsageRemove(writes, k);
    } else {
      assert writes - {k} == writes;
    }
    if k in deletes {
      DeletesUsageRemove(deletes, k);
      assert deletes + {k} == deletes;
    } else {
      DeletesUsageRemove(deletes + {k}, k);
      assert deletes + {k} - {k} == deletes;
      assert deletes - {k} == deletes;
    }
  }

  function Values<V>(writes: map<Key, Holder<V>>): (m: map<Key, V>)
    ensures m.Keys == writes.Keys && forall k :: k in m ==> m[k] == writes[k].value
  {
    map k | k in writes :: writes[k].value
  }

  /** The parent once all writes but those `todo` have reached it. */
  ghost function Merged<V>(base: map<Key, V>, all: map<Key, V>, todo: set<Key>): map<Key, V> {
    base + (all - todo)
  }

  lemma CommitEnds<V>(base: map<Key, V>, all: map<Key, V>)
    ensures Merged(base, all, all.Keys) == base && Merged(base, all, {}) == base + all
  {
    assert all - all.Keys == map[] && all - {} == all;
  }

  lemma CommitStep<V>(base: map<Key, V>, all: map<Key, V>, todo: set<Key>, k: Key)
    requires k in todo && todo <= all.Keys
    ensures Merged(base, all, todo)[k := all[k]] == Merged(base, all, todo - {k})
  {
  }

  /** The target once all erasures but those `todo` have reached it. */
  ghost function Erased<V>(base: map<Key, V>, all: set<Key>, todo: set<Key>): map<Key, V> {
    base - (all - todo)
  }

  lemma EraseEnds<V>(base: map<Key, V>, all: set<Key>)
    ensures Erased(base, all, all) == base && Erased(base, all, {}) == base - all
  {
    assert all - all == {} && all - {} == all;
  }

  lemma EraseStep<V>(base: map<Key, V>, all: set<Key>, todo: set<Key>, k: Key)
    requires k in todo && todo <= all
    ensures Erased(base, all, todo) - {k} == Erased(base, all, todo - {k})
  {
    assert all - (todo - {k}) == (all - todo) + {k};
  }

  /** No key is both written and deleted, and the memory counter is exact. */
  ghost predicate LevelOk<V>(writes: map<Key, Holder<V>>, deletes: set<Key>, usage: int, sizeOf: V -> nat) {
    && writes.Keys !! deletes && usage == WritesUsage(writes) + DeletesUsage(deletes)
    && forall k :: k in writes ==> writes[k].memoryUsage == sizeOf(writes[k].value)
  }

  /** What a transaction reads from and commits to: the database and a batch for it, or a transaction. */
  datatype Backing<V> = Disk(db: Store<V>, batch: Batch<V>) | Layer(below: Transaction<V>)

  class Transaction<V> {
    const backing: Backing<V>
    const sizeOf: V -> nat
    ghost const depth: nat
    ghost const repr: set<object>
    var writes: map<Key, Holder<V>>
    var deletes: set<Key>
    var memoryUsage: int

    /** The transactions underneath are distinct objects, ending in a database. */
    ghost predicate Shape()
      decreases depth
    {
      && this in repr
      && match backing
         case Disk(db, batch) => depth == 0 && repr == {this, db, batch}
         case Layer(t) => depth == t.depth + 1 && repr == {this} + t.repr && this !in t.repr && t.Shape()
    }

    ghost predicate Valid()
      reads repr
      decreases depth
    {
      Shape() && LevelOk(writes, deletes, memoryUsage, sizeOf) && (backing.Layer? ==> backing.below.Valid())
    }

    /** The map that this transaction stands for. */
    ghost function View(): map<Key, V>
      requires Shape()
      reads repr
      decreases depth, 2
    {
      Overlaid(BaseView(), writes, deletes)
    }

    /** The map that the parent stands for. */
    ghost function BaseView(): map<Key, V>
      requires Shape()
      reads repr
      decreases depth, 1
    {
      match backing
      case Disk(db, _) => db.data
      case Layer(t) => t.View()
    }

    /** The map that the commit target stands for: a batch stands for the database once it is written. */
    ghost function Target(): map<Key, V>
      requires Shape()
      reads repr
      decreases depth, 1
    {
      match backing
      case Disk(db, batch) => Applied(batch.ops, db.data)
      case Layer(t) => t.View()
    }

    lemma CleanView()
      requires Shape() && writes == map[] && deletes == {}
      ensures View() == BaseView()
    {
    }

    /** What committing changes besides this transaction. */
    ghost function Touched(): set<object> {
      match backing
      case Disk(_, batch) => {batch}
      case Layer(t) => {t}
    }

    constructor (b: Backing<V>, size: V -> nat)
      requires b.Layer? ==> b.below.Valid()
      ensures Valid() && backing == b && sizeOf == size && writes == map[] && deletes == {} && fresh(this)
      ensures View() == BaseView()
      ensures repr == {this} + match b case Disk(db, batch) => {db, batch} case Layer(t) => t.repr
    {
      backing := b;
      sizeOf := size;
      depth := match b case Disk(_, _) => 0 case Layer(t) => t.depth + 1;
      ghost var under: set<object> := match b case Disk(db, batch) => {db, batch} case Layer(t) => t.repr;
      repr := {this} + under;
      writes := map[];
      deletes := {};
      memoryUsage := 0;
      new;
      assert View() == BaseView();
    }

    /** Sets the fields of this level; what is underneath is untouched. */
    method Assign(w: map<Key, Holder<V>>, d: set<Key>, usage: int)
      requires Valid()
      modifies this
      ensures writes == w && deletes == d && memoryUsage == usage
      ensures BaseView() == old(BaseView()) && Target() == old(Target()) && View() == Overlaid(BaseView(), w, d)
      ensures Valid() <==> LevelOk(w, d, usage, sizeOf)
    {
      hide LevelOk, Overlaid, Applied;
      writes, deletes, memoryUsage := w, d, usage;
    }

    method Write(k: Key, v: V)
      requires Valid()
      modifies this
      ensures Valid() && View() == old(View())[k := v]
      ensures BaseView() == old(BaseView()) && Target() == old(Target())
    {
      hide Overlaid, Applied, WritesUsage, DeletesUsage;
      var size := sizeOf(v);
      WriteUsage(writes, k, Holder(v, size));
      EraseUsage(writes, deletes, k);
      OverlaidWrite(BaseView(), writes, deletes, k, Holder(v, size));
      var usage := memoryUsage;
      if k in deletes {
        usage := usage - |k|;
      }
      if k in writes {
        usage := usage - (|k| + writes[k].memoryUsage);
      }
      Assign(writes[k := Holder(v, size)], deletes - {k}, usage + |k| + size);
    }

    method Erase(k: Key)
      requires Valid()
      modifies this
      ensures Valid() && View() == old(View()) - {k}
      ensures BaseView() == old(BaseView()) && Target() == old(Target())
    {
      hide Overlaid, Applied, WritesUsage, DeletesUsage;
      EraseUsage(writes, deletes, k);
      OverlaidErase(BaseView(), writes, deletes, k);
      var usage := memoryUsage;
      if k in writes {
        usage := usage - (|k| + writes[k].memoryUsage);
      }
      if k !in deletes {
        usage := usage + |k|;
      }
      Assign(writes - {k}, deletes + {k}, usage);
    }

    /** Reads go through any number of levels. */
    method Read(k: Key) returns (r: Option<V>)
      requires Valid()
      ensures r == if k in View() then Some(View()[k]) else None
      decreases depth
    {
      if k in deletes {
        return None;
      }
      if k in writes {
        return Some(writes[k].value);
      }
      match backing {
        case Disk(db, _) =>
          return if k in db.data then Some(db.data[k]) else None;
        case Layer(t) =>
          r := t.Read(k);
      }
    }

    method Exists(k: Key) returns (r: bool)
      requires Valid()
      ensures r <==> k in View()
      decreases depth
    {
      if k in deletes {
        return false;
      }
      if k in writes {
        return true;
      }
      match backing {
        case Disk(db, _) =>
          return k in db.data;
        case Layer(t) =>
          r := t.Exists(k);
      }
    }

    method Clear()
      requires Valid()
      modifies this
      ensures Valid() && writes == map[] && deletes == {}
      ensures View() == BaseView() == old(BaseView()) && Target() == old(Target())
    {
      Assign(map[], {}, 0);
      CleanView();
    }

    method IsClean() returns (r: bool)
      requires Valid()
      ensures r <==> writes == map[] && deletes == {}
      ensures r ==> View() == BaseView()
    {
      r := writes == map[] && deletes == {};
    }

    /** Never negative, so the fallback for a miscounted total is not needed. */
    method GetMemoryUsage() returns (n: int)
      requires Valid()
      ensures n == WritesUsage(writes) + DeletesUsage(deletes)
    {
      return if memoryUsage < 0 then 0 else memoryUsage;
    }

    /**
     Applies everything to the target and starts again empty. In a transaction underneath, no read can
     tell the difference afterwards; in a batch the changes wait for the database, and until then the
     view falls back to the database as it was.
     */
    method Commit()
      requires Valid()
      modifies this, Touched()
      ensures Valid() && writes == map[] && deletes == {}
      ensures Target() == Overlaid(old(Target()), old(writes), old(deletes))
      ensures View() == BaseView()
      ensures backing.Layer? ==> View() == old(View()) && backing.below.BaseView() == old(backing.below.BaseView())
      ensures backing.Layer? ==> backing.below.Target() == old(backing.below.Target())
    {
      hide Values, Overlaid, Applied, WritesUsage, DeletesUsage;
      CommitDeletes();
      CommitWrites();
      OverlaidCommit(old(Target()), writes, deletes);
      Clear();
    }

    method CommitErase(k: Key)
      requires Valid()
      modifies Touched()
      ensures Valid() && Target() == old(Target()) - {k}
      ensures backing.Layer? ==> backing.below.BaseView() == old(backing.below.BaseView())
      ensures backing.Layer? ==> backing.below.Target() == old(backing.below.Target())
    {
      match backing {
        case Disk(db, batch) =>
          AppliedMore(batch.ops, Delete(k), db.data);
          batch.Erase(k);
        case Layer(t) =>
          t.Erase(k);
      }
    }

    method CommitWrite(k: Key, v: V)
      requires Valid()
      modifies Touched()
      ensures Valid() && Target() == old(Target())[k := v]
      ensures backing.Layer? ==> backing.below.BaseView() == old(backing.below.BaseView())
      ensures backing.Layer? ==> backing.below.Target() == old(backing.below.Target())
    {
      match backing {
        case Disk(db, batch) =>
          AppliedMore(batch.ops, Put(k, v), db.data);
          batch.Write(k, v);
        case Layer(t) =>
          t.Write(k, v);
      }
    }

    method CommitDeletes()
      requires Valid()
      modifies Touched()
      ensures Valid() && Target() == old(Target()) - deletes
      ensures backing.Layer? ==> backing.below.BaseView() == old(backing.below.BaseView())
      ensures backing.Layer? ==> backing.below.Target() == old(backing.below.Target())
    {
      hide Overlaid, Applied, Erased, LevelOk;
      var todo := deletes;
      EraseEnds(Target(), deletes);
      while todo != {}
        invariant todo <= deletes && Valid() && Target() == Erased(old(Target()), deletes, todo)
        invariant backing.Layer? ==> backing.below.BaseView() == old(backing.below.BaseView())
        invariant backing.Layer? ==> backing.below.Target() == old(backing.below.Target())
        decreases |todo|
      {
        var k :| k in todo;
        EraseStep(old(Target()), deletes, todo, k);
        CommitErase(k);
        todo := todo - {k};
      }
    }

    method CommitWrites()
      requires Valid()
      modifies Touched()
      ensures Valid() && Target() == old(Target()) + Values(writes)
      ensures backing.Layer? ==> backing.below.BaseView() == old(backing.below.BaseView())
      ensures backing.Layer? ==> backing.below.Target() == old(backing.below.Target())
    {
      hide Values, Merged, Overlaid, Applied, LevelOk;
      var todo := writes.Keys;
      ghost var all := Values(writes);
      CommitEnds(Target(), all);
      while todo != {}
        invariant todo <= all.Keys && Valid() && Target() == Merged(old(Target()), all, todo)
        invariant backing.Layer? ==> backing.below.BaseView() == old(backing.below.BaseView())
        invariant backing.Layer? ==> backing.below.Target() == old(backing.below.Target())
        decreases |todo|
      {
        var k :| k in todo;
        CommitStep(old(Target()), all, todo, k);
        CommitWrite(k, writes[k].value);
        todo := todo - {k};
      }
    }
  }

  /** Erasing the deleted keys and then storing the written values is the overlay. */
  lemma OverlaidCommit<V>(base: map<Key, V>, writes: map<Key, Holder<V>>, deletes: set<Key>)
    requires writes.Keys !! deletes
    ensures base - deletes + Values(writes) == Overlaid(base, writes, deletes)
  {
  }

  // ---------------------------------------------------------------------------------------
  // The merging iterator.
  // ---------------------------------------------------------------------------------------

  /** The parent keys that the transaction neither deletes nor overwrites. */
  ghost function Untouched<V>(parent: set<Key>, writes: map<Key, Holder<V>>, deletes: set<Key>): set<Key> {
    parent - deletes - writes.Keys
  }

  lemma OverlaidKeys<V>(parent: map<Key, V>, writes: map<Key, Holder<V>>, deletes: set<Key>)
    requires writes.Keys !! deletes
    ensures Overlaid(parent, writes, deletes).Keys == writes.Keys + Untouched(parent.Keys, writes, deletes)
  {
  }

  /** The smaller of two positions is the least key of the union. */
  lemma LeastOfUnion(a: set<Key>, b: set<Key>, bound: Bound, ra: Option<Key>, rb: Option<Key>)
    requires IsLeast(a, bound, ra) && IsLeast(b, bound, rb)
    ensures IsLeast(a + b, bound,
                    if ra.None? then rb else if rb.None? then ra
                    else if Less(ra.value, rb.value) then ra else rb)
  {
    if ra.Some? && rb.Some? {
      if Less(ra.value, rb.value) {
        forall x | x in b && Above(bound, x) && Less(x, ra.value) ensures false {
          LessTransitive(x, ra.value, rb.value);
        }
      } else {
        forall x | x in a && Above(bound, x) && Less(x, rb.value) ensures false {
          LessTotal(ra.value, rb.value);
          if ra.value != rb.value {
            LessTransitive(x, rb.value, ra.value);
          }
        }
      }
    }
  }

  /** The smaller of two positions is taken; the other one stays right when the bound moves past it. */
  lemma PassLeast(mine: set<Key>, theirs: set<Key>, bound: Bound, rm: Option<Key>, rt: Option<Key>, curIsParent: bool)
    requires IsLeast(mine, bound, rm) && IsLeast(theirs, bound, rt) && mine !! theirs
    requires if curIsParent then rt.Some? && (rm.None? || !Less(rm.value, rt.value))
             else rm.Some? && (rt.None? || Less(rm.value, rt.value))
    ensures curIsParent ==> IsLeast(mine, After(rt.value), rm)
    ensures !curIsParent ==> IsLeast(theirs, After(rm.value), rt)
  {
    LeastOfUnion(mine, theirs, bound, rm, rt);
    if curIsParent {
      LeastStays(mine + theirs, mine, bound, rt.value, rm);
    } else {
      LeastStays(mine + theirs, theirs, bound, rm.value, rt);
    }
  }

  /** A position in a part of the keys stays right when the bound moves past the least key of all. */
  lemma LeastStays(all: set<Key>, part: set<Key>, bound: Bound, k: Key, r: Option<Key>)
    requires IsLeast(all, bound, Some(k)) && part <= all && k !in part && IsLeast(part, bound, r)
    ensures IsLeast(part, After(k), r)
  {
    forall x | x in part
      ensures Above(After(k), x) <==> Above(bound, x)
    {
      LeastAfter(all, bound, k, x);
    }
  }

  /**
   The iterator of a transaction holds a cursor into its writes and an iterator of the parent: a
   cursor into the database, or in turn the iterator of a transaction.
   */
  class TransactionIterator<V> {
    const transaction: Transaction<V>
    const below: TransactionIterator?<V>
    ghost const its: set<object>
    var transactionIt: Option<Key>
    var diskIt: Option<Key>
    var curIsParent: bool
    ghost var bound: Bound

    /** One iterator per transaction, all distinct from the transactions. */
    ghost predicate Shape()
      decreases transaction.depth
    {
      && transaction.Shape() && this in its && its !! transaction.repr
      && match transaction.backing
         case Disk(_, _) => below == null && its == {this}
         case Layer(t) =>
           && below != null && t == below.transaction && its == {this} + below.its && this !in below.its
           && t.depth < transaction.depth && below.Shape()
    }

    /** Where the iterator of the parent stands. */
    ghost function ParentKey(): Option<Key>
      requires Shape()
      reads its
      decreases transaction.depth, 0
    {
      if below == null then diskIt else below.Current()
    }

    ghost function Current(): Option<Key>
      requires Shape()
      reads its
      decreases transaction.depth, 1
    {
      if transactionIt.None? && ParentKey().None? then None
      else if curIsParent then ParentKey() else transactionIt
    }

    /** The smaller key is current. */
    ghost predicate Decided()
      requires Shape()
      reads its
    {
      transactionIt.Some? || ParentKey().Some? ==>
        (curIsParent <==> transactionIt.None? ||
                          (ParentKey().Some? && !Less(transactionIt.value, ParentKey().value)))
    }

    ghost predicate ParentValid()
      requires Shape()
      reads its, transaction.repr
      decreases transaction.depth, 0
    {
      transaction.Valid() && (below != null ==> below.Valid())
    }

    /** Both cursors stand at their least key above a common bound, and the smaller one is current. */
    ghost predicate Valid()
      requires Shape()
      reads its, transaction.repr
      decreases transaction.depth, 1
    {
      && ParentValid()
      && IsLeast(transaction.writes.Keys, bound, transactionIt)
      && IsLeast(Untouched(transaction.BaseView().Keys, transaction.writes, transaction.deletes), bound, ParentKey())
      && Decided()
    }

    constructor (t: Transaction<V>)
      requires t.Valid()
      ensures Shape() && transaction == t && fresh(its)
      decreases t.depth
    {
      transaction := t;
      transactionIt, diskIt, curIsParent, bound := None, None, false, Start;
      match t.backing {
        case Disk(_, _) =>
          below := null;
          its := {this};
        case Layer(under) =>
          var it := new TransactionIterator(under);
          below := it;
          its := {this} + it.its;
      }
    }

    /** A valid iterator stands at the least key of the overlaid map above its bound. */
    lemma CurrentIsLeast()
      requires Shape() && Valid()
      ensures IsLeast(transaction.View().Keys, bound, Current())
    {
      var parentKeys := Untouched(transaction.BaseView().Keys, transaction.writes, transaction.deletes);
      OverlaidKeys(transaction.BaseView(), transaction.writes, transaction.deletes);
      LeastOfUnion(transaction.writes.Keys, parentKeys, bound, transactionIt, ParentKey());
    }

    /** The key it stands at, if any. */
    method GetKey() returns (r: Option<Key>)
      requires Shape()
      ensures r == Current()
      decreases transaction.depth, 1
    {
      var parentKey := GetParentKey();
      if transactionIt.None? && parentKey.None? {
        return None;
      }
      return if curIsParent then parentKey else transactionIt;
    }

    method GetParentKey() returns (r: Option<Key>)
      requires Shape()
      ensures r == ParentKey()
      decreases transaction.depth, 0
    {
      if below == null {
        return diskIt;
      }
      r := below.GetKey();
    }

    /** `parentIt->Seek`, or from the start. */
    method SeekParent(from: Bound)
      requires Shape() && transaction.Valid()
      modifies its - {this}, this`diskIt
      ensures ParentValid() && IsLeast(transaction.BaseView().Keys, from, ParentKey())
      decreases transaction.depth, 0
    {
      match transaction.backing {
        case Disk(db, _) =>
          diskIt := FindLeast(db.data.Keys, from);
        case Layer(_) =>
          below.Position(from);
      }
    }

    /** `parentIt->Next`. */
    method NextParent()
      requires Shape() && ParentValid() && ParentKey().Some?
      requires below == null ==> diskIt.value in transaction.BaseView().Keys
      modifies its - {this}, this`diskIt
      ensures ParentValid() && IsLeast(transaction.BaseView().Keys, After(old(ParentKey()).value), ParentKey())
      decreases transaction.depth, 0
    {
      match transaction.backing {
        case Disk(db, _) =>
          diskIt := FindLeast(db.data.Keys, After(diskIt.value));
        case Layer(_) =>
          below.Next();
      }
    }

    /** Moves the parent cursor to the first key above `from` that the transaction leaves alone. */
    method SkipDeletedAndOverwritten(ghost from: Bound)
      requires Shape() && ParentValid() && IsLeast(transaction.BaseView().Keys, from, ParentKey())
      modifies its - {this}, this`diskIt
      ensures ParentValid()
      ensures IsLeast(Untouched(transaction.BaseView().Keys, transaction.writes, transaction.deletes), from, ParentKey())
      decreases transaction.depth, 1
    {
      hide Overlaid, Applied, LevelOk, Less, Decided, Ahead;
      ghost var keys := transaction.BaseView().Keys;
      ghost var rest := Untouched(keys, transaction.writes, transaction.deletes);
      ghost var at := from;
      ghost var ahead := Ahead(keys, from);
      var parentKey := GetParentKey();
      while parentKey.Some?
        invariant ParentValid() && parentKey == ParentKey() && transaction.BaseView().Keys == keys
        invariant IsLeast(keys, at, parentKey) && ahead == Ahead(keys, at)
        invariant forall x :: x in rest ==> (Above(at, x) <==> Above(from, x))
        decreases ahead
      {
        var k := parentKey.value;
        if k !in transaction.deletes && k !in transaction.writes {
          break;
        }
        AheadStep(keys, at, k);
        NextParent();
        parentKey := GetParentKey();
        at := After(k);
        ahead := Ahead(keys, at);
      }
      LeastOfRest(keys, rest, at, from, parentKey);
    }

    /** Chooses the cursor with the smaller key. */
    method DecideCur()
      requires Shape()
      modifies this`curIsParent
      ensures ParentKey() == old(ParentKey()) && Decided()
    {
      var parentKey := GetParentKey();
      if transactionIt.Some? && parentKey.None? {
        curIsParent := false;
      } else if transactionIt.None? && parentKey.Some? {
        curIsParent := true;
      } else if transactionIt.Some? && parentKey.Some? {
        curIsParent := !Less(transactionIt.value, parentKey.value);
      }
    }

    /** Takes the bound and chooses the current cursor. */
    method Settle(ghost from: Bound)
      requires Shape() && ParentValid() && IsLeast(transaction.writes.Keys, from, transactionIt)
      requires IsLeast(Untouched(transaction.BaseView().Keys, transaction.writes, transaction.deletes), from, ParentKey())
      modifies this`bound, this`curIsParent
      ensures Valid() && bound == from && IsLeast(transaction.View().Keys, from, Current())
    {
      hide IsLeast, Overlaid, Applied, Untouched, LevelOk;
      bound := from;
      DecideCur();
      CurrentIsLeast();
    }

    method Position(from: Bound)
      requires Shape() && transaction.Valid()
      modifies its
      ensures Valid() && bound == from && IsLeast(transaction.View().Keys, from, Current())
      decreases transaction.depth, 3
    {
      hide IsLeast, Overlaid, Applied, Untouched, LevelOk, Decided;
      transactionIt := FindLeast(transaction.writes.Keys, from);
      SeekParent(from);
      SkipDeletedAndOverwritten(from);
      Settle(from);
    }

    method SeekToFirst()
      requires Shape() && transaction.Valid()
      modifies its
      ensures Valid() && bound == Start && IsLeast(transaction.View().Keys, Start, Current())
    {
      Position(Start);
    }

    method Seek(k: Key)
      requires Shape() && transaction.Valid()
      modifies its
      ensures Valid() && bound == From(k) && IsLeast(transaction.View().Keys, From(k), Current())
    {
      Position(From(k));
    }

    /** Advances the current cursor: the new current key is the next one of the overlaid map. */
    method Next()
      requires Shape() && Valid()
      modifies its
      ensures Valid()
      ensures old(Current()).None? ==> Current() == None && bound == old(bound)
      ensures old(Current()).Some? ==>
                bound == After(old(Current()).value) && IsLeast(transaction.View().Keys, bound, Current())
      decreases transaction.depth, 3
    {
      hide Overlaid, Applied, LevelOk, IsLeast, Untouched;
      var key := GetKey();
      if key.None? {
        return;
      }
      var k := key.value;
      OtherStays();
      if curIsParent {
        AdvanceParent();
      } else {
        transactionIt := FindLeast(transaction.writes.Keys, After(k));
      }
      Settle(After(k));
    }

    /** The cursor that is not current need not move. */
    lemma OtherStays()
      requires Shape() && Valid() && Current().Some?
      ensures if curIsParent then
                ParentKey() == Current() && IsLeast(transaction.writes.Keys, After(Current().value), transactionIt)
              else
                && transactionIt == Current()
                && IsLeast(Untouched(transaction.BaseView().Keys, transaction.writes, transaction.deletes),
                           After(Current().value), ParentKey())
    {
      var theirs := Untouched(transaction.BaseView().Keys, transaction.writes, transaction.deletes);
      PassLeast(transaction.writes.Keys, theirs, bound, transactionIt, ParentKey(), curIsParent);
    }

    method AdvanceParent()
      requires Shape() && Valid() && ParentKey().Some?
      modifies its - {this}, this`diskIt
      ensures ParentValid()
      ensures IsLeast(Untouched(transaction.BaseView().Keys, transaction.writes, transaction.deletes),
                      After(old(ParentKey()).value), ParentKey())
      decreases transaction.depth, 2
    {
      hide Overlaid, Applied, LevelOk, IsLeast, Untouched, Decided;
      ghost var k := ParentKey().value;
      ParentInRange();
      NextParent();
      SkipDeletedAndOverwritten(After(k));
    }

    lemma ParentInRange()
      requires Shape() && Valid() && ParentKey().Some?
      ensures ParentKey().value in transaction.BaseView().Keys
    {
    }

    /** The value at the current key, read through the transaction. */
    method GetValue() returns (r: Option<V>)
      requires Shape() && Valid()
      ensures match Current()
              case None => r == None
              case Some(k) => k in transaction.View() && r == Some(transaction.View()[k])
    {
      CurrentIsLeast();
      var key := GetKey();
      if key.None? {
        return None;
      }
      r := transaction.Read(key.value);
    }

    /**
     The walk from `from` to the end: it visits exactly the keys of the overlaid map above the bound,
     in ascending order and each once.
     */
    method Walk(from: Bound) returns (keys: seq<Key>)
      requires Shape() && transaction.Valid()
      modifies its
      ensures forall i, j :: 0 <= i < j < |keys| ==> Less(keys[i], keys[j])
      ensures forall k :: k in keys <==> k in transaction.View() && Above(from, k)
    {
      hide Overlaid, Applied, LevelOk, Untouched, IsLeast, Less;
      Position(from);
      keys := [];
      ghost var view := transaction.View().Keys;
      ghost var ahead := Ahead(view, bound);
      var key := GetKey();
      while key.Some?
        invariant Valid() && transaction.View().Keys == view && key == Current() && IsLeast(view, bound, key)
        invariant ahead == Ahead(view, bound) && Ascending(keys, bound)
        invariant forall x :: x in keys <==> x in view && Above(from, x) && x !in ahead
        decreases ahead
      {
        AheadStep(view, bound, key.value);
        AscendingStep(keys, bound, key.value);
        keys := keys + [key.value];
        Next();
        key := GetKey();
        ahead := Ahead(view, bound);
      }
      NothingAhead(view, bound);
    }
  }

  /** The keys that are still to come. */
  ghost function Ahead(keys: set<Key>, b: Bound): set<Key> {
    set x | x in keys && Above(b, x)
  }

  lemma NothingAhead(keys: set<Key>, b: Bound)
    requires IsLeast(keys, b, None)
    ensures Ahead(keys, b) == {}
  {
  }

  /** Moving past the least key takes it, and only it, from what is to come. */
  lemma AheadStep(keys: set<Key>, b: Bound, k: Key)
    requires IsLeast(keys, b, Some(k))
    ensures k in Ahead(keys, b) && Ahead(keys, After(k)) == Ahead(keys, b) - {k}
    ensures forall x :: x in keys ==> (Above(After(k), x) <==> Above(b, x) && x != k)
  {
    forall x | x in keys
      ensures Above(After(k), x) <==> Above(b, x) && x != k
    {
      LeastAfter(keys, b, k, x);
    }
  }

  /** A least key that is in the smaller set is the least of it. */
  lemma LeastOfRest(keys: set<Key>, rest: set<Key>, at: Bound, from: Bound, r: Option<Key>)
    requires IsLeast(keys, at, r) && rest <= keys && (r.Some? ==> r.value in rest)
    requires forall x :: x in rest ==> (Above(at, x) <==> Above(from, x))
    ensures IsLeast(rest, from, r)
  {
  }

  /** Strictly ascending, and entirely behind the bound. */
  ghost predicate Ascending(keys: seq<Key>, b: Bound) {
    && (forall i, j :: 0 <= i < j < |keys| ==> Less(keys[i], keys[j]))
    && forall i, x :: 0 <= i < |keys| && Above(b, x) ==> Less(keys[i], x)
  }

  lemma AscendingStep(keys: seq<Key>, b: Bound, k: Key)
    requires Ascending(keys, b) && Above(b, k)
    ensures Ascending(keys + [k], After(k))
  {
    forall i, x | 0 <= i < |keys| && Above(After(k), x)
      ensures Less(keys[i], x)
    {
      LessTransitive(keys[i], k, x);
    }
  }

  // ---------------------------------------------------------------------------------------
  // The two levels of the deterministic database.
  // ---------------------------------------------------------------------------------------

  class EvoDB<V> {
    const db: Store<V>
    const rootBatch: Batch<V>
    const root: Transaction<V>
    const cur: Transaction<V>

    ghost predicate Valid()
      reads db, rootBatch, root, cur
    {
      && root.backing == Disk(db, rootBatch) && cur.backing == Layer(root)
      && root.repr == {root, db, rootBatch} && cur.repr == {cur, root, db, rootBatch}
      && cur.Valid()
    }

    constructor (store: Store<V>, size: V -> nat)
      ensures Valid() && db == store && cur.View() == root.View() == db.data && rootBatch.ops == []
      ensures fresh(rootBatch) && fresh(root) && fresh(cur)
    {
      db := store;
      var batch := new Batch<V>();
      var below := new Transaction(Disk(store, batch), size);
      rootBatch := batch;
      root := below;
      cur := new Transaction(Layer(below), size);
    }

    /** Ends a scope: the changes become part of the root transaction. */
    method CommitCurTransaction()
      requires Valid()
      modifies cur, root
      ensures Valid() && cur.View() == root.View() == old(cur.View()) && cur.writes == map[] && cur.deletes == {}
    {
      cur.Commit();
    }

    /** Ends a scope: the changes since the last commit are gone, and nothing else. */
    method RollbackCurTransaction()
      requires Valid()
      modifies cur
      ensures Valid() && cur.View() == root.View() == old(root.View()) && cur.writes == map[] && cur.deletes == {}
    {
      cur.Clear();
    }

    /**
     Writes the root transaction to the database. The batch may still hold what an earlier call could
     not write; `stored` says whether the database accepts it this time, and a refusal is thrown.
     */
    method CommitRootTransaction(stored: bool) returns (ok: bool)
      requires Valid() && cur.writes == map[] && cur.deletes == {}
      modifies root, db, rootBatch
      ensures Valid() && ok == stored && cur.View() == root.View() == db.data
      ensures Applied(rootBatch.ops, db.data)
           == Overlaid(old(Applied(rootBatch.ops, db.data)), old(root.writes), old(root.deletes))
      ensures stored ==> rootBatch.ops == [] && (old(rootBatch.ops) == [] ==> cur.View() == old(cur.View()))
      ensures !stored ==> db.data == old(db.data)
    {
      hide LevelOk, Overlaid;
      assert root.Valid();
      cur.CleanView();
      ghost var queued := Applied(rootBatch.ops, db.data);
      assert root.Target() == queued;
      assert cur.View() == root.View() == Overlaid(db.data, root.writes, root.deletes);
      root.Commit();
      cur.CleanView();
      assert Applied(rootBatch.ops, db.data) == root.Target() == Overlaid(queued, old(root.writes), old(root.deletes));
      if !stored {
        return false;
      }
      db.WriteBatch(rootBatch);
      rootBatch.Clear();
      assert root.Valid() && cur.Valid();
      root.CleanView();
      cur.CleanView();
      return true;
    }

    /** What the levels stand for; `clean` says that a scope has just ended. */
    ghost function Now(): Levels<V>
      requires Valid()
      reads db, rootBatch, root, cur
    {
      Levels(cur.View(), root.View(), db.data, cur.writes == map[] && cur.deletes == {})
    }

    /** Any run of operations does to the levels what `ExecAll` does to three maps. */
    method Run(ops: seq<EvoOp<V>>)
      requires Valid() && rootBatch.ops == [] && LegalRun(Now(), ops)
      modifies cur, root, db, rootBatch
      ensures Valid() && rootBatch.ops == [] && SameLevels(Now(), ExecAll(old(Now()), ops))
    {
      ghost var model := Now();
      var i := 0;
      while i < |ops|
        invariant 0 <= i <= |ops| && Valid() && rootBatch.ops == []
        invariant LegalRun(model, ops[i..]) && SameLevels(Now(), model)
        invariant ExecAll(model, ops[i..]) == ExecAll(old(Now()), ops)
      {
        assert ops[i..][0] == ops[i] && ops[i..][1..] == ops[i + 1..];
        Perform(ops[i], model);
        model := Exec(model, ops[i]);
        i := i + 1;
      }
    }

    method Perform(op: EvoOp<V>, ghost model: Levels<V>)
      requires Valid() && rootBatch.ops == [] && SameLevels(Now(), model)
      requires op.CommitRoot? ==> model.clean
      modifies cur, root, db, rootBatch
      ensures Valid() && rootBatch.ops == [] && SameLevels(Now(), Exec(model, op))
    {
      hide LevelOk, Overlaid, Applied;
      match op {
        case Set(k, v) =>
          cur.Write(k, v);
        case Del(k) =>
          cur.Erase(k);
        case CommitCur =>
          CommitCurTransaction();
        case RollbackCur =>
          RollbackCurTransaction();
        case CommitRoot =>
          cur.CleanView();
          var _ := CommitRootTransaction(true);
      }
    }
  }

  datatype EvoOp<V> = Set(k: Key, v: V) | Del(k: Key) | CommitCur | RollbackCur | CommitRoot

  datatype Levels<V> = Levels(cur: map<Key, V>, root: map<Key, V>, disk: map<Key, V>, clean: bool)

  ghost predicate SameLevels<V>(a: Levels<V>, b: Levels<V>) {
    a.cur == b.cur && a.root == b.root && a.disk == b.disk && (b.clean ==> a.clean)
  }

  ghost function Exec<V>(s: Levels<V>, op: EvoOp<V>): Levels<V> {
    match op
    case Set(k, v) => s.(cur := s.cur[k := v], clean := false)
    case Del(k) => s.(cur := s.cur - {k}, clean := false)
    case CommitCur => s.(root := s.cur, clean := true)
    case RollbackCur => s.(cur := s.root, clean := true)
    case CommitRoot => s.(disk := s.root)
  }

  ghost function ExecAll<V>(s: Levels<V>, ops: seq<EvoOp<V>>): Levels<V>
    decreases |ops|
  {
    if ops == [] then s else ExecAll(Exec(s, ops[0]), ops[1..])
  }

  /** The root transaction is written between scopes only. */
  ghost predicate LegalRun<V>(s: Levels<V>, ops: seq<EvoOp<V>>)
    decreases |ops|
  {
    ops == [] || ((ops[0].CommitRoot? ==> s.clean) && LegalRun(Exec(s, ops[0]), ops[1..]))
  }
}
