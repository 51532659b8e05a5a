/**
 Compact block relay (src/blockencodings.h, src/blockencodings.cpp): a block is sent as short
 transaction ids plus a few whole transactions, and rebuilt from the receiver's own pool.
 */
module CompactBlocks {
  import opened Wrappers

  datatype Tx = Tx(hash: nat, witnessHash: nat, empty: bool)

  /** In a message, `index` counts the slots since the previous prefilled one. */
  datatype PrefilledTx = PrefilledTx(index: nat, tx: Tx)

  datatype CompactBlock = CompactBlock(headerNull: bool, shortIds: seq<nat>, prefilled: seq<PrefilledTx>)

  /** What a call returns; `Hangs` stands for a call that never does. */
  datatype Status = Okay | Invalid | Failed | CheckBlockFailed | Hangs

  /** What validating the rebuilt block reports. */
  datatype Verdict = Accepted | Corrupt | Rejected

  type Slots = seq<Option<Tx>>

  // ---------------------------------------------------------------------------------------
  // Differential index coding.
  // ---------------------------------------------------------------------------------------

  ghost predicate Increasing(xs: seq<nat>) {
    forall i :: 0 < i < |xs| ==> xs[i - 1] < xs[i]
  }

  ghost predicate Words(xs: seq<nat>) {
    forall i :: 0 <= i < |xs| ==> xs[i] < 0x1_0000
  }

  /** The coded form of entry `i`: a 64-bit difference, which wraps when the list does not rise. */
  function Difference(xs: seq<nat>, i: nat): nat
    requires i < |xs| && Words(xs)
  {
    var d := xs[i] as int - if i == 0 then 0 else xs[i - 1] + 1;
    if d < 0 then d + 0x1_0000_0000_0000_0000 else d
  }

  method EncodeIndexes(xs: seq<nat>) returns (ds: seq<nat>)
    requires Words(xs)
    ensures |ds| == |xs| && forall i :: 0 <= i < |xs| ==> ds[i] == Difference(xs, i)
  {
    ds := [];
    var i := 0;
    while i < |xs|
      invariant 0 <= i <= |xs| && |ds| == i
      invariant forall k :: 0 <= k < i ==> ds[k] == Difference(xs, k)
    {
      ds := ds + [Difference(xs, i)];
      i := i + 1;
    }
  }

  /** What 16 bits keep of a position. */
  function Position(p: nat): (q: nat)
    ensures q < 0x1_0000 && (q == p <==> p < 0x1_0000)
  {
    p % 0x1_0000
  }

  /** The entries from `j` on, given the running 16-bit offset. */
  function DecodedFrom(ds: seq<nat>, j: nat, offset: nat): Option<seq<nat>>
    requires j <= |ds|
    decreases |ds| - j
  {
    if j == |ds| then Some([])
    else if ds[j] + offset > 0xFFFF then None
    else
      var x := ds[j] + offset;
      match DecodedFrom(ds, j + 1, Position(x + 1))
      case None => None
      case Some(rest) => Some([x] + rest)
  }

  function Prepended(p: seq<nat>, r: Option<seq<nat>>): (q: Option<seq<nat>>)
    ensures p == [] ==> q == r
  {
    match r
    case None => None
    case Some(rest) =>
      assert [] + rest == rest;
      Some(p + rest)
  }

  function Decoded(ds: seq<nat>): Option<seq<nat>> {
    if exists i :: 0 <= i < |ds| && ds[i] > 0xFFFF then None else DecodedFrom(ds, 0, 0)
  }

  method DecodeIndexes(ds: seq<nat>) returns (r: Option<seq<nat>>)
    ensures r == Decoded(ds)
  {
    var i := 0;
    while i < |ds|
      invariant 0 <= i <= |ds| && forall k :: 0 <= k < i ==> ds[k] <= 0xFFFF
    {
      if ds[i] > 0xFFFF {
        return None;
      }
      i := i + 1;
    }
    var xs, offset, j := ds, 0, 0;
    while j < |xs|
      invariant 0 <= j <= |xs| == |ds| && offset < 0x1_0000
      invariant forall k :: j <= k < |ds| ==> xs[k] == ds[k]
      invariant DecodedFrom(ds, 0, 0) == Prepended(xs[..j], DecodedFrom(ds, j, offset))
    {
      if xs[j] + offset > 0xFFFF {
        return None;
      }
      ghost var before := xs[..j];
      xs := xs[j := xs[j] + offset];
      offset := Position(xs[j] + 1);
      assert xs[..j + 1] == before + [xs[j]];
      assert forall rest :: before + ([xs[j]] + rest) == xs[..j + 1] + rest;
      j := j + 1;
    }
    assert xs[..j] == xs && xs + [] == xs;
    return Some(xs);
  }

  lemma {:induction false} DecodesBack(xs: seq<nat>, ds: seq<nat>, j: nat, offset: nat)
    requires Words(xs) && Increasing(xs) && |ds| == |xs| && j <= |xs|
    requires forall i :: 0 <= i < |xs| ==> ds[i] == Difference(xs, i)
    requires j < |xs| ==> offset == if j == 0 then 0 else xs[j - 1] + 1
    ensures DecodedFrom(ds, j, offset) == Some(xs[j..])
    decreases |xs| - j
  {
    hide Position;
    if j == |xs| {
      assert xs[j..] == [];
    } else {
      assert j > 0 ==> xs[j - 1] < xs[j];
      assert ds[j] == Difference(xs, j);
      assert xs[j] < 0x1_0000;
      assert j + 1 < |xs| ==> xs[j] < xs[j + 1] < 0x1_0000;
      DecodesBack(xs, ds, j + 1, Position(xs[j] + 1));
      assert xs[j..] == [xs[j]] + xs[j + 1..];
    }
  }

  /** A list of indexes survives coding exactly when it is strictly increasing. */
  lemma IndexRoundTrip(xs: seq<nat>, ds: seq<nat>)
    requires Words(xs) && |ds| == |xs| && forall i :: 0 <= i < |xs| ==> ds[i] == Difference(xs, i)
    ensures Decoded(ds) == Some(xs) <==> Increasing(xs)
  {
    if Increasing(xs) {
      DecodesBack(xs, ds, 0, 0);
      assert xs[0..] == xs;
      forall i | 0 <= i < |ds|
        ensures ds[i] <= 0xFFFF
      {
        assert i > 0 ==> xs[i - 1] < xs[i];
      }
    } else {
      var i :| 0 < i < |xs| && xs[i] <= xs[i - 1];
      assert ds[i] > 0xFFFF;
    }
  }

  // ---------------------------------------------------------------------------------------
  // Slots.
  // ---------------------------------------------------------------------------------------

  ghost function CountSome(z: Slots): nat {
    if z == [] then 0 else CountSome(z[..|z| - 1]) + if z[|z| - 1].Some? then 1 else 0
  }

  function Weight(v: Option<Tx>): nat {
    if v.Some? then 1 else 0
  }

  lemma {:induction false} CountUpdate(z: Slots, q: nat, v: Option<Tx>)
    requires q < |z|
    ensures CountSome(z[q := v]) == CountSome(z) - Weight(z[q]) + Weight(v)
  {
    var n := |z| - 1;
    if q < n {
      CountUpdate(z[..n], q, v);
      assert z[q := v][..n] == z[..n][q := v];
    } else {
      assert z[q := v][..n] == z[..n];
    }
  }

  lemma {:induction false} CountNone(z: Slots)
    requires forall p :: 0 <= p < |z| ==> z[p].None?
    ensures CountSome(z) == 0
  {
    if z != [] {
      CountNone(z[..|z| - 1]);
    }
  }

  /** With every slot filled, the count is the length, and conversely. */
  lemma {:induction false} CountAll(z: Slots)
    ensures CountSome(z) <= |z|
    ensures CountSome(z) == |z| <==> forall p :: 0 <= p < |z| ==> z[p].Some?
  {
    if z != [] {
      CountAll(z[..|z| - 1]);
    }
  }

  /** The empty slots below `n`, in order. */
  ghost function FreeBelow(z: Slots, n: nat): (ps: seq<nat>)
    requires n <= |z|
    ensures forall i :: 0 <= i < |ps| ==> ps[i] < n && z[ps[i]].None?
  {
    if n == 0 then []
    else if z[n - 1].None? then FreeBelow(z, n - 1) + [n - 1]
    else FreeBelow(z, n - 1)
  }

  lemma {:induction false} FreeCount(z: Slots, n: nat)
    requires n <= |z|
    ensures |FreeBelow(z, n)| + CountSome(z[..n]) == n
  {
    if n > 0 {
      FreeCount(z, n - 1);
      assert z[..n][..n - 1] == z[..n - 1];
    }
  }

  lemma {:induction false} FreePrefix(z: Slots, m: nat, n: nat)
    requires m <= n <= |z|
    ensures |FreeBelow(z, m)| <= |FreeBelow(z, n)| && FreeBelow(z, n)[..|FreeBelow(z, m)|] == FreeBelow(z, m)
  {
    if m < n {
      FreePrefix(z, m, n - 1);
    }
  }

  // ---------------------------------------------------------------------------------------
  // Prefilled transactions.
  // ---------------------------------------------------------------------------------------

  /** The slot of prefilled entry `i`. */
  function SlotOf(pre: seq<PrefilledTx>, i: nat): nat
    requires i < |pre|
  {
    pre[i].index + if i == 0 then 0 else SlotOf(pre, i - 1) + 1
  }

  lemma {:induction false} SlotsRise(pre: seq<PrefilledTx>, i: nat, k: nat)
    requires i < k < |pre|
    ensures SlotOf(pre, i) < SlotOf(pre, k)
  {
    if i < k - 1 {
      SlotsRise(pre, i, k - 1);
    }
  }

  /** Entry `i` is a real transaction at a slot that the message can account for. */
  predicate PrefillOk(c: CompactBlock, i: nat)
    requires i < |c.prefilled|
  {
    !c.prefilled[i].tx.empty
    && SlotOf(c.prefilled, i) <= 0xFFFF
    && SlotOf(c.prefilled, i) <= |c.shortIds| + i
  }

  /** The slots hold the first `k` prefilled transactions and nothing else. */
  ghost predicate Prefills(z: Slots, pre: seq<PrefilledTx>, k: nat) {
    k <= |pre| && CountSome(z) == k
    && (forall i :: 0 <= i < k ==> SlotOf(pre, i) < |z| && z[SlotOf(pre, i)] == Some(pre[i].tx))
    && forall p :: 0 <= p < |z| && z[p].Some? ==> exists i :: 0 <= i < k && p == SlotOf(pre, i)
  }

  lemma PrefillStep(z: Slots, pre: seq<PrefilledTx>, k: nat)
    requires Prefills(z, pre, k) && k < |pre| && SlotOf(pre, k) < |z|
    ensures Prefills(z[SlotOf(pre, k) := Some(pre[k].tx)], pre, k + 1)
  {
    hide SlotOf, CountSome;
    var q := SlotOf(pre, k);
    var y := z[q := Some(pre[k].tx)];
    forall i | 0 <= i < k
      ensures SlotOf(pre, i) < q
    {
      SlotsRise(pre, i, k);
    }
    assert z[q].None?;
    CountUpdate(z, q, Some(pre[k].tx));
    forall p | 0 <= p < |y| && y[p].Some?
      ensures exists i :: 0 <= i < k + 1 && p == SlotOf(pre, i)
    {
      if p != q {
        var i :| 0 <= i < k && p == SlotOf(pre, i);
      }
    }
  }

  // ---------------------------------------------------------------------------------------
  // Short ids.
  // ---------------------------------------------------------------------------------------

  function IdsBelow(ids: seq<nat>, i: nat): set<nat>
    requires i <= |ids|
  {
    if i == 0 then {} else IdsBelow(ids, i - 1) + {ids[i - 1]}
  }

  ghost predicate Distinct(ids: seq<nat>) {
    forall i, j :: 0 <= i < j < |ids| ==> ids[i] != ids[j]
  }

  /** Every id among the first `i` leads to the position of the free slot of one of its occurrences. */
  ghost predicate IdMap(m: map<nat, nat>, ids: seq<nat>, free: seq<nat>, i: nat) {
    i <= |ids| <= |free| && m.Keys == IdsBelow(ids, i)
    && forall k :: k in m ==> exists j :: 0 <= j < i && ids[j] == k && m[k] == Position(free[j])
  }

  lemma IdMapStep(m: map<nat, nat>, ids: seq<nat>, free: seq<nat>, i: nat)
    requires IdMap(m, ids, free, i) && i < |ids|
    ensures IdMap(m[ids[i] := Position(free[i])], ids, free, i + 1)
  {
    hide Position;
    var n := m[ids[i] := Position(free[i])];
    forall k | k in n
      ensures exists j :: 0 <= j < i + 1 && ids[j] == k && n[k] == Position(free[j])
    {
      if k != ids[i] {
        var j :| 0 <= j < i && ids[j] == k && m[k] == Position(free[j]);
        assert n[k] == Position(free[j]);
      }
    }
  }

  lemma {:induction false} IdsMember(ids: seq<nat>, i: nat, x: nat)
    requires i <= |ids|
    ensures x in IdsBelow(ids, i) <==> exists j :: 0 <= j < i && ids[j] == x
  {
    if i > 0 {
      IdsMember(ids, i - 1, x);
      if x == ids[i - 1] {
        assert ids[i - 1] == x;
      }
    }
  }

  /** No id occurs twice exactly when there are as many ids as entries. */
  lemma {:induction false} IdsCount(ids: seq<nat>, i: nat)
    requires i <= |ids|
    ensures |IdsBelow(ids, i)| <= i
    ensures |IdsBelow(ids, i)| == i <==> Distinct(ids[..i])
  {
    hide Distinct;
    if i == 0 {
      DistinctNone(ids[..0]);
    } else {
      var x, before := ids[i - 1], IdsBelow(ids, i - 1);
      IdsCount(ids, i - 1);
      IdsMember(ids, i - 1, x);
      assert ids[..i][..i - 1] == ids[..i - 1];
      if x in before {
        var j :| 0 <= j < i - 1 && ids[j] == x;
        NotDistinct(ids[..i], j, i - 1);
        assert IdsBelow(ids, i) == before;
      } else {
        DistinctAppend(ids[..i]);
        assert |before + {x}| == |before| + 1;
      }
    }
  }

  lemma DistinctNone(s: seq<nat>)
    requires s == []
    ensures Distinct(s)
  {
  }

  lemma NotDistinct(s: seq<nat>, j: nat, k: nat)
    requires j < k < |s| && s[j] == s[k]
    ensures !Distinct(s)
  {
  }

  lemma DistinctAppend(s: seq<nat>)
    requires s != [] && forall j :: 0 <= j < |s| - 1 ==> s[j] != s[|s| - 1]
    ensures Distinct(s) <==> Distinct(s[..|s| - 1])
  {
    var t := s[..|s| - 1];
    assert forall i :: 0 <= i < |t| ==> t[i] == s[i];
  }

  // ---------------------------------------------------------------------------------------
  // Filling slots from the pool.
  // ---------------------------------------------------------------------------------------

  /** A transaction the receiver has, under the hash its short id is computed from. */
  datatype Offer = Offer(hash: nat, tx: Tx)

  /** Offer `k` is for slot `p`. */
  ghost predicate Fits(offers: seq<Offer>, sid: nat -> nat, m: map<nat, nat>, k: nat, p: nat) {
    k < |offers| && sid(offers[k].hash) in m && m[sid(offers[k].hash)] == p
  }

  /** Offer `k` is the first for slot `p`. */
  ghost predicate First(offers: seq<Offer>, sid: nat -> nat, m: map<nat, nat>, k: nat, p: nat) {
    Fits(offers, sid, m, k, p) && forall j :: 0 <= j < k ==> !Fits(offers, sid, m, j, p)
  }

  /**
   Among the first `n` offers a later one for slot `p` spoils offer `k`: any from the pool, which are the
   first `edge` offers, and a different transaction from the extra ones.
   */
  ghost predicate Spoiled(offers: seq<Offer>, sid: nat -> nat, m: map<nat, nat>, edge: nat, n: nat, k: nat, p: nat) {
    exists j :: k < j < n && Spoils(offers, sid, m, edge, j, k, p)
  }

  ghost predicate Spoils(offers: seq<Offer>, sid: nat -> nat, m: map<nat, nat>, edge: nat, j: nat, k: nat, p: nat) {
    Fits(offers, sid, m, j, p) && k < |offers|
    && (j < edge || offers[j].tx.witnessHash != offers[k].tx.witnessHash)
  }

  /** What slot `p` holds after the first `n` offers: the first one for it unless spoiled, or what it held before. */
  ghost predicate SlotHas(v: Option<Tx>, before: Option<Tx>, offers: seq<Offer>, sid: nat -> nat, m: map<nat, nat>,
    edge: nat, n: nat, p: nat)
  {
    && ((forall k :: 0 <= k < n ==> !Fits(offers, sid, m, k, p)) ==> v == before)
    && forall k :: 0 <= k < n && First(offers, sid, m, k, p) ==>
         v == if Spoiled(offers, sid, m, edge, n, k, p) then None else Some(offers[k].tx)
  }

  /** Slot `p` after the first `n` offers: untouched, filled by one of them, or given up on. */
  ghost predicate SlotOk(z: Slots, base: Slots, have: seq<bool>, offers: seq<Offer>, sid: nat -> nat,
    m: map<nat, nat>, edge: nat, n: nat, p: nat)
    requires p < |z| && p < |base| && p < |have|
  {
    && SlotHas(z[p], base[p], offers, sid, m, edge, n, p)
    && (have[p] <==> exists k :: 0 <= k < n && Fits(offers, sid, m, k, p))
    && (!have[p] ==> z[p] == base[p])
    && (have[p] && z[p].Some? ==> exists k :: 0 <= k < n && Fits(offers, sid, m, k, p) && offers[k].tx == z[p].value)
    && (have[p] && z[p].None? ==>
          exists j, k :: 0 <= j < k < n && Fits(offers, sid, m, j, p) && Fits(offers, sid, m, k, p))
  }

  /** The slots that hold an offer. */
  ghost function Got(z: Slots, have: seq<bool>): set<nat>
    requires |z| == |have|
  {
    set p | 0 <= p < |z| && have[p] && z[p].Some?
  }

  /** The whole picture after the first `n` offers; `count` is the number of slots that hold one. */
  ghost predicate Scanned(z: Slots, base: Slots, have: seq<bool>, count: int, offers: seq<Offer>,
    sid: nat -> nat, m: map<nat, nat>, edge: nat, n: nat)
  {
    |z| == |base| == |have| && n <= |offers| && count == |Got(z, have)|
    && (forall x :: x in m ==> m[x] < |base|)
    && forall p :: 0 <= p < |z| ==> SlotOk(z, base, have, offers, sid, m, edge, n, p)
  }

  /** An offer that fits nowhere changes nothing. */
  lemma ScanSkips(z: Slots, base: Slots, have: seq<bool>, count: int, offers: seq<Offer>,
    sid: nat -> nat, m: map<nat, nat>, edge: nat, n: nat)
    requires Scanned(z, base, have, count, offers, sid, m, edge, n) && n < |offers|
    requires sid(offers[n].hash) !in m
    ensures Scanned(z, base, have, count, offers, sid, m, edge, n + 1)
  {
    hide Got;
    var next := n + 1;
    forall p | 0 <= p < |z|
      ensures SlotOk(z, base, have, offers, sid, m, edge, next, p)
    {
      assert SlotOk(z, base, have, offers, sid, m, edge, n, p);
      SlotKept(z, z, base, have, have, offers, sid, m, edge, n, p);
    }
  }

  /** A slot that offer `n` is not for stays as it is. */
  lemma SlotKept(z: Slots, y: Slots, base: Slots, have: seq<bool>, got: seq<bool>, offers: seq<Offer>,
    sid: nat -> nat, m: map<nat, nat>, edge: nat, n: nat, p: nat)
    requires p < |z| == |y| == |base| == |have| == |got| && SlotOk(z, base, have, offers, sid, m, edge, n, p)
    requires y[p] == z[p] && got[p] == have[p] && !Fits(offers, sid, m, n, p) && n < |offers|
    ensures SlotOk(y, base, got, offers, sid, m, edge, n + 1, p)
  {
    hide Fits, SlotHas;
    if k :| 0 <= k < n + 1 && Fits(offers, sid, m, k, p) {
      assert k < n;
    }
    StillIs(z[p], base[p], offers, sid, m, edge, n, p);
  }

  lemma StillIs(v: Option<Tx>, before: Option<Tx>, offers: seq<Offer>, sid: nat -> nat, m: map<nat, nat>,
    edge: nat, n: nat, p: nat)
    requires SlotHas(v, before, offers, sid, m, edge, n, p) && !Fits(offers, sid, m, n, p) && n < |offers|
    ensures SlotHas(v, before, offers, sid, m, edge, n + 1, p)
  {
    hide Fits;
    forall k | 0 <= k < n + 1 && First(offers, sid, m, k, p)
      ensures v == if Spoiled(offers, sid, m, edge, n + 1, k, p) then None else Some(offers[k].tx)
    {
      assert k < n;
      if j :| k < j < n + 1 && Spoils(offers, sid, m, edge, j, k, p) {
        assert j < n;
      }
    }
  }

  /** What a matching offer does to its slot: fill it, empty it for good, or leave it. */
  ghost predicate SlotStep(z: Slots, y: Slots, have: seq<bool>, got: seq<bool>, p: nat, tx: Tx, extra: bool)
    requires p < |z| == |y| == |have| == |got|
  {
    && y == z[p := y[p]] && got == have[p := true]
    && y[p] == if !have[p] then Some(tx)
               else if z[p].Some? && (!extra || z[p].value.witnessHash != tx.witnessHash) then None
               else z[p]
  }

  /** Some offer is the first. */
  lemma {:induction false} FirstOne(offers: seq<Offer>, sid: nat -> nat, m: map<nat, nat>, k: nat, p: nat) returns (i: nat)
    requires Fits(offers, sid, m, k, p)
    ensures i <= k && First(offers, sid, m, i, p)
  {
    hide Fits;
    if j: nat :| j < k && Fits(offers, sid, m, j, p) {
      i := FirstOne(offers, sid, m, j, p);
    } else {
      i := k;
    }
  }

  lemma OnlyFirstOne(offers: seq<Offer>, sid: nat -> nat, m: map<nat, nat>, i: nat, k: nat, p: nat)
    requires First(offers, sid, m, i, p) && First(offers, sid, m, k, p)
    ensures i == k
  {
    hide Fits;
  }

  /** The effect of one more offer on what its slot holds. */
  lemma NowIs(v: Option<Tx>, w: Option<Tx>, before: Option<Tx>, offers: seq<Offer>, sid: nat -> nat, m: map<nat, nat>,
    edge: nat, n: nat, k: nat, p: nat)
    requires SlotHas(v, before, offers, sid, m, edge, n, p) && Fits(offers, sid, m, n, p) && n < |offers|
    requires k < n && First(offers, sid, m, k, p)
    requires w == if v.Some? && (n < edge || v.value.witnessHash != offers[n].tx.witnessHash) then None else v
    ensures SlotHas(w, before, offers, sid, m, edge, n + 1, p)
  {
    hide Fits;
    var was, now := Spoiled(offers, sid, m, edge, n, k, p), Spoiled(offers, sid, m, edge, n + 1, k, p);
    assert Fits(offers, sid, m, k, p);
    FitsInRange(offers, sid, m, k, p);
    assert v == if was then None else Some(offers[k].tx);
    assert now <==> was || Spoils(offers, sid, m, edge, n, k, p) by {
      if j :| k < j < n + 1 && Spoils(offers, sid, m, edge, j, k, p) {
        assert j < n || j == n;
      }
    }
    forall i | 0 <= i < n + 1 && First(offers, sid, m, i, p)
      ensures i == k
    {
      OnlyFirstOne(offers, sid, m, i, k, p);
    }
  }

  /** The first offer for a slot fills it. */
  lemma FirstIs(before: Option<Tx>, offers: seq<Offer>, sid: nat -> nat, m: map<nat, nat>, edge: nat, n: nat, p: nat)
    requires n < |offers| && Fits(offers, sid, m, n, p) && forall k :: 0 <= k < n ==> !Fits(offers, sid, m, k, p)
    ensures SlotHas(Some(offers[n].tx), before, offers, sid, m, edge, n + 1, p)
  {
    hide Fits;
    forall k | 0 <= k < n + 1 && First(offers, sid, m, k, p)
      ensures k == n && !Spoiled(offers, sid, m, edge, n + 1, k, p)
    {
      assert Fits(offers, sid, m, k, p);
    }
  }

  /** The change in the number of slots that hold an offer. */
  lemma GotStep(z: Slots, y: Slots, have: seq<bool>, got: seq<bool>, p: nat, tx: Tx, extra: bool)
    requires p < |z| == |y| == |have| == |got| && SlotStep(z, y, have, got, p, tx, extra)
    ensures |Got(y, got)| == |Got(z, have)| + Weight(y[p]) - if have[p] then Weight(z[p]) else 0
  {
    var rest := Got(z, have) - {p};
    assert Got(z, have) == if have[p] && z[p].Some? then rest + {p} else rest;
    assert Got(y, got) == if y[p].Some? then rest + {p} else rest;
  }

  lemma ScanMatches(z: Slots, y: Slots, base: Slots, have: seq<bool>, got: seq<bool>, count: int,
    offers: seq<Offer>, sid: nat -> nat, m: map<nat, nat>, edge: nat, n: nat, p: nat)
    requires Scanned(z, base, have, count, offers, sid, m, edge, n) && n < |offers|
    requires |y| == |z| && |got| == |have| && Fits(offers, sid, m, n, p) && p < |z|
    requires SlotStep(z, y, have, got, p, offers[n].tx, n >= edge)
    ensures Scanned(y, base, got, count + Weight(y[p]) - (if have[p] then Weight(z[p]) else 0), offers, sid, m, edge, n + 1)
  {
    hide Got, Weight;
    var next := n + 1;
    GotStep(z, y, have, got, p, offers[n].tx, n >= edge);
    assert SlotOk(z, base, have, offers, sid, m, edge, n, p);
    forall q | 0 <= q < |y|
      ensures SlotOk(y, base, got, offers, sid, m, edge, next, q)
    {
      assert SlotOk(z, base, have, offers, sid, m, edge, n, q);
      if q != p {
        SlotKept(z, y, base, have, got, offers, sid, m, edge, n, q);
      } else {
        SlotHit(z, y, base, have, got, offers, sid, m, edge, n, p);
      }
    }
  }

  lemma SlotHit(z: Slots, y: Slots, base: Slots, have: seq<bool>, got: seq<bool>, offers: seq<Offer>,
    sid: nat -> nat, m: map<nat, nat>, edge: nat, n: nat, p: nat)
    requires p < |z| == |y| == |base| == |have| == |got| && SlotOk(z, base, have, offers, sid, m, edge, n, p)
    requires Fits(offers, sid, m, n, p) && SlotStep(z, y, have, got, p, offers[n].tx, n >= edge)
    ensures SlotOk(y, base, got, offers, sid, m, edge, n + 1, p)
  {
    hide SlotHas, First;
    assert got[p];
    if have[p] {
      var j :| 0 <= j < n && Fits(offers, sid, m, j, p);
      var i := FirstOne(offers, sid, m, j, p);
      NowIs(z[p], y[p], base[p], offers, sid, m, edge, n, i, p);
      if y[p].Some? {
        var k :| 0 <= k < n && Fits(offers, sid, m, k, p) && offers[k].tx == z[p].value;
        assert offers[k].tx == y[p].value;
      } else {
        assert 0 <= j < n < n + 1;
      }
    } else {
      FirstIs(base[p], offers, sid, m, edge, n, p);
    }
  }

  /** Before any offer has been looked at. */
  lemma ScanStarts(base: Slots, offers: seq<Offer>, sid: nat -> nat, m: map<nat, nat>, edge: nat)
    requires forall x :: x in m ==> m[x] < |base|
    ensures Scanned(base, base, seq(|base|, _ => false), 0, offers, sid, m, edge, 0)
  {
    assert Got(base, seq(|base|, _ => false)) == {};
  }

  /** Only the offers looked at so far matter. */
  lemma ScanOfPrefix(z: Slots, base: Slots, have: seq<bool>, count: int, a: seq<Offer>, b: seq<Offer>,
    sid: nat -> nat, m: map<nat, nat>, e: nat, edge: nat, n: nat)
    requires Scanned(z, base, have, count, a, sid, m, e, n) && n <= |b| && a[..n] == b[..n] && n <= e && n <= edge
    ensures Scanned(z, base, have, count, b, sid, m, edge, n)
  {
    hide Got, SlotHas;
    assert forall k :: 0 <= k < n ==> a[k] == a[..n][k] && b[k] == b[..n][k];
    forall p | 0 <= p < |z|
      ensures SlotOk(z, base, have, b, sid, m, edge, n, p)
    {
      assert SlotOk(z, base, have, a, sid, m, e, n, p);
      assert forall k :: 0 <= k < n ==> (Fits(a, sid, m, k, p) <==> Fits(b, sid, m, k, p));
      SameIs(z[p], base[p], a, b, sid, m, e, edge, n, p);
    }
  }

  lemma SameIs(v: Option<Tx>, before: Option<Tx>, a: seq<Offer>, b: seq<Offer>, sid: nat -> nat, m: map<nat, nat>,
    e: nat, edge: nat, n: nat, p: nat)
    requires n <= |a| && n <= |b| && n <= e && n <= edge && forall k :: 0 <= k < n ==> a[k] == b[k]
    requires forall k :: 0 <= k < n ==> (Fits(a, sid, m, k, p) <==> Fits(b, sid, m, k, p))
    requires SlotHas(v, before, a, sid, m, e, n, p)
    ensures SlotHas(v, before, b, sid, m, edge, n, p)
  {
    hide Fits;
    forall k | 0 <= k < n && First(b, sid, m, k, p)
      ensures First(a, sid, m, k, p) && (Spoiled(b, sid, m, edge, n, k, p) <==> Spoiled(a, sid, m, e, n, k, p))
    {
      assert forall j :: k < j < n ==> (Spoils(a, sid, m, e, j, k, p) <==> Spoils(b, sid, m, edge, j, k, p));
    }
  }

  /** Slot `p` holds an offer after the first `n`. */
  ghost predicate Holds(offers: seq<Offer>, sid: nat -> nat, m: map<nat, nat>, edge: nat, n: nat, p: nat) {
    exists k :: 0 <= k < n && First(offers, sid, m, k, p) && !Spoiled(offers, sid, m, edge, n, k, p)
  }

  ghost function Held(size: nat, offers: seq<Offer>, sid: nat -> nat, m: map<nat, nat>, edge: nat, n: nat): set<nat> {
    set p | 0 <= p < size && Holds(offers, sid, m, edge, n, p)
  }

  lemma GotIsHeld(z: Slots, base: Slots, have: seq<bool>, count: int, offers: seq<Offer>, sid: nat -> nat,
    m: map<nat, nat>, edge: nat, n: nat)
    requires Scanned(z, base, have, count, offers, sid, m, edge, n)
    ensures count == |Held(|base|, offers, sid, m, edge, n)|
  {
    hide Holds, Fits, First, Spoiled;
    forall p | 0 <= p < |z|
      ensures have[p] && z[p].Some? <==> Holds(offers, sid, m, edge, n, p)
    {
      assert SlotOk(z, base, have, offers, sid, m, edge, n, p);
      HoldsIff(z, base, have, offers, sid, m, edge, n, p);
    }
    assert Got(z, have) == Held(|base|, offers, sid, m, edge, n);
  }

  lemma HoldsIff(z: Slots, base: Slots, have: seq<bool>, offers: seq<Offer>, sid: nat -> nat,
    m: map<nat, nat>, edge: nat, n: nat, p: nat)
    requires p < |z| == |base| == |have| && SlotOk(z, base, have, offers, sid, m, edge, n, p)
    ensures have[p] && z[p].Some? <==> Holds(offers, sid, m, edge, n, p)
  {
    hide Fits, Spoiled;
    if have[p] {
      var j :| 0 <= j < n && Fits(offers, sid, m, j, p);
      var k := FirstOne(offers, sid, m, j, p);
    }
  }

  /** A scan of the offers `from..to` stops after the first offer that leaves every short id with its slot. */
  ghost predicate StopsAt(size: nat, offers: seq<Offer>, sid: nat -> nat, m: map<nat, nat>, edge: nat,
    from: nat, to: nat, n: nat)
  {
    && from <= n <= to && (n < to ==> from < n && |Held(size, offers, sid, m, edge, n)| == |m|)
    && forall i :: from < i < n ==> |Held(size, offers, sid, m, edge, i)| != |m|
  }

  /**
   The exact result of both scans: `a` offers of the pool are looked at, then extra ones up to number `n`
   in all, and every slot holds what these leave in it.
   */
  ghost predicate Looked(z: Slots, base: Slots, count: int, pool: seq<Offer>, extra: seq<Offer>, sid: nat -> nat,
    m: map<nat, nat>, a: nat, n: nat)
  {
    && StopsAt(|base|, pool, sid, m, |pool|, 0, |pool|, a)
    && var seen := pool[..a] + extra;
       && StopsAt(|base|, seen, sid, m, a, a, |seen|, n)
       && |z| == |base| && count == |Held(|base|, seen, sid, m, a, n)|
       && forall p :: 0 <= p < |z| ==> SlotHas(z[p], base[p], seen, sid, m, a, n, p)
  }

  lemma ScanIs(z: Slots, base: Slots, have: seq<bool>, count: int, offers: seq<Offer>, sid: nat -> nat,
    m: map<nat, nat>, edge: nat, n: nat)
    requires Scanned(z, base, have, count, offers, sid, m, edge, n)
    ensures |z| == |base| && forall p :: 0 <= p < |z| ==> SlotHas(z[p], base[p], offers, sid, m, edge, n, p)
  {
    hide SlotHas;
    forall p | 0 <= p < |z|
      ensures SlotHas(z[p], base[p], offers, sid, m, edge, n, p)
    {
      assert SlotOk(z, base, have, offers, sid, m, edge, n, p);
    }
  }

  /** Some offer is for slot `p`. */
  ghost predicate Offered(offers: seq<Offer>, sid: nat -> nat, m: map<nat, nat>, p: nat) {
    exists k: nat :: Fits(offers, sid, m, k, p)
  }

  /** An offer is in slot `p`, or there was more than one. */
  ghost predicate OfferTaken(z: Slots, offers: seq<Offer>, sid: nat -> nat, m: map<nat, nat>, p: nat)
    requires p < |z|
  {
    && (z[p].Some? ==> exists k: nat :: Fits(offers, sid, m, k, p) && offers[k].tx == z[p].value)
    && (z[p].None? ==> exists j: nat, k: nat :: j != k && Fits(offers, sid, m, j, p) && Fits(offers, sid, m, k, p))
  }

  ghost function Taken(z: Slots, offers: seq<Offer>, sid: nat -> nat, m: map<nat, nat>): set<nat> {
    set p | 0 <= p < |z| && Offered(offers, sid, m, p) && z[p].Some?
  }

  /**
   The result of filling the slots `base` from `offers`: a slot that was offered something holds an
   offer for it, or is empty because there were several; the others are as before.
   */
  ghost predicate FilledFrom(z: Slots, base: Slots, count: int, offers: seq<Offer>, sid: nat -> nat,
    m: map<nat, nat>)
  {
    |z| == |base| && count == |Taken(z, offers, sid, m)|
    && forall p :: 0 <= p < |z| ==>
         if Offered(offers, sid, m, p) then OfferTaken(z, offers, sid, m, p) else z[p] == base[p]
  }

  ghost predicate AllHad(have: seq<bool>, m: map<nat, nat>) {
    forall x :: x in m ==> m[x] < |have| && have[m[x]]
  }

  /** Once the count reaches the number of short ids, every position has an offer. */
  lemma AllTaken(z: Slots, base: Slots, have: seq<bool>, count: int, offers: seq<Offer>, sid: nat -> nat,
    m: map<nat, nat>, edge: nat, n: nat)
    requires Scanned(z, base, have, count, offers, sid, m, edge, n) && count == |m|
    ensures AllHad(have, m)
  {
    forall p | p in Got(z, have)
      ensures p in m.Values
    {
      assert SlotOk(z, base, have, offers, sid, m, edge, n, p);
      var k :| 0 <= k < n && Fits(offers, sid, m, k, p);
      assert m[sid(offers[k].hash)] == p;
    }
    ValuesCard(m);
    SubsetFull(Got(z, have), m.Values);
    forall x | x in m
      ensures m[x] < |have| && have[m[x]]
    {
      assert m[x] in m.Values;
    }
  }

  lemma {:induction false} ValuesCard(m: map<nat, nat>)
    ensures |m.Values| <= |m|
  {
    if m.Keys == {} {
      assert m.Values == {};
    } else {
      var x :| x in m;
      var rest := m - {x};
      ValuesCard(rest);
      forall v | v in m.Values
        ensures v in rest.Values + {m[x]}
      {
        var k :| k in m && m[k] == v;
        assert k != x ==> k in rest && rest[k] == v;
      }
      SubsetFull(m.Values, rest.Values + {m[x]});
      assert m.Keys == rest.Keys + {x};
      assert |m| == |m.Keys| && |rest| == |rest.Keys|;
    }
  }

  /** A subset is no larger, and all of it if it is no smaller. */
  lemma {:induction false} SubsetFull(a: set<nat>, b: set<nat>)
    requires a <= b
    ensures |a| <= |b| && (|a| >= |b| ==> a == b)
  {
    if a != {} {
      var x :| x in a;
      SubsetFull(a - {x}, b - {x});
    }
  }

  /** Where offer `i` of the ones looked at stands among all of them. */
  function Source(i: nat, a: nat, pool: nat): nat {
    if i < a || a > pool then i else pool + (i - a)
  }

  /** What both scans together leave, although each may stop early. */
  lemma ScansFinish(z: Slots, base: Slots, have: seq<bool>, count: int, pool: seq<Offer>, extra: seq<Offer>,
    sid: nat -> nat, m: map<nat, nat>, a: nat, n: nat)
    requires a <= |pool| && a <= n <= a + |extra|
    requires Scanned(z, base, have, count, pool[..a] + extra, sid, m, a, n)
    requires a < |pool| || n < a + |extra| ==> AllHad(have, m)
    ensures FilledFrom(z, base, count, pool + extra, sid, m)
  {
    hide Got, Taken, Offered, OfferTaken, SlotOk;
    var seen, offers := pool[..a] + extra, pool + extra;
    forall p | 0 <= p < |z|
      ensures have[p] <==> Offered(offers, sid, m, p)
      ensures if have[p] then OfferTaken(z, offers, sid, m, p) else z[p] == base[p]
    {
      assert SlotOk(z, base, have, seen, sid, m, a, n, p);
      SlotFinish(z, base, have, pool, extra, sid, m, a, n, p);
    }
    SameTaken(z, have, offers, sid, m);
  }

  lemma SameTaken(z: Slots, have: seq<bool>, offers: seq<Offer>, sid: nat -> nat, m: map<nat, nat>)
    requires |z| == |have| && forall p :: 0 <= p < |z| ==> (have[p] <==> Offered(offers, sid, m, p))
    ensures Taken(z, offers, sid, m) == Got(z, have)
  {
    hide Offered;
  }

  /** Offers looked at are among all of them, at different places. */
  lemma SourceFits(pool: seq<Offer>, extra: seq<Offer>, sid: nat -> nat, m: map<nat, nat>, a: nat, k: nat, p: nat)
    requires a <= |pool| && Fits(pool[..a] + extra, sid, m, k, p)
    ensures Fits(pool + extra, sid, m, Source(k, a, |pool|), p)
    ensures (pool + extra)[Source(k, a, |pool|)] == (pool[..a] + extra)[k]
  {
  }

  lemma SlotFinish(z: Slots, base: Slots, have: seq<bool>, pool: seq<Offer>, extra: seq<Offer>,
    sid: nat -> nat, m: map<nat, nat>, a: nat, n: nat, p: nat)
    requires a <= |pool| && a <= n <= a + |extra| && p < |z| == |base| == |have|
    requires SlotOk(z, base, have, pool[..a] + extra, sid, m, a, n, p)
    requires a < |pool| || n < a + |extra| ==> AllHad(have, m)
    ensures have[p] <==> Offered(pool + extra, sid, m, p)
    ensures if have[p] then OfferTaken(z, pool + extra, sid, m, p) else z[p] == base[p]
  {
    hide Fits, Source;
    var seen, offers := pool[..a] + extra, pool + extra;
    if k: nat :| Fits(offers, sid, m, k, p) {
      if a == |pool| && n == a + |extra| {
        assert seen == offers;
        FitsInRange(seen, sid, m, k, p);
      } else {
        FitsTarget(offers, sid, m, k, p, have);
      }
    }
    if have[p] {
      var i :| 0 <= i < n && Fits(seen, sid, m, i, p);
      SourceFits(pool, extra, sid, m, a, i, p);
      if z[p].Some? {
        var k :| 0 <= k < n && Fits(seen, sid, m, k, p) && seen[k].tx == z[p].value;
        SourceFits(pool, extra, sid, m, a, k, p);
      } else {
        var j, k :| 0 <= j < k < n && Fits(seen, sid, m, j, p) && Fits(seen, sid, m, k, p);
        SourceFits(pool, extra, sid, m, a, j, p);
        SourceFits(pool, extra, sid, m, a, k, p);
        SourceRises(j, k, a, |pool|);
      }
    }
  }

  lemma FitsInRange(offers: seq<Offer>, sid: nat -> nat, m: map<nat, nat>, k: nat, p: nat)
    requires Fits(offers, sid, m, k, p)
    ensures k < |offers|
  {
  }

  lemma FitsTarget(offers: seq<Offer>, sid: nat -> nat, m: map<nat, nat>, k: nat, p: nat, have: seq<bool>)
    requires Fits(offers, sid, m, k, p) && AllHad(have, m)
    ensures p < |have| && have[p]
  {
  }

  lemma SourceRises(j: nat, k: nat, a: nat, pool: nat)
    requires j < k && a <= pool
    ensures Source(j, a, pool) < Source(k, a, pool)
  {
  }

  // ---------------------------------------------------------------------------------------
  // The receiving side.
  // ---------------------------------------------------------------------------------------

  class PartiallyDownloadedBlock {
    var headerNull: bool
    var available: Slots
    var prefilledCount: nat
    var mempoolCount: int

    constructor ()
      ensures headerNull && available == []
    {
      headerNull, available, prefilledCount, mempoolCount := true, [], 0, 0;
    }

    /** Places the prefilled transactions; refused at the first that is not acceptable. */
    method Prefill(c: CompactBlock) returns (ok: bool)
      modifies this
      ensures headerNull == old(headerNull) && mempoolCount == old(mempoolCount)
      ensures ok <==> forall i :: 0 <= i < |c.prefilled| ==> PrefillOk(c, i)
      ensures ok ==> |available| == |c.shortIds| + |c.prefilled|
      ensures ok ==> Prefills(available, c.prefilled, |c.prefilled|) && prefilledCount == |c.prefilled|
    {
      hide SlotOf, CountSome;
      available := seq(|c.shortIds| + |c.prefilled|, _ => None);
      CountNone(available);
      var last := -1;
      var i := 0;
      while i < |c.prefilled|
        invariant 0 <= i <= |c.prefilled| && last == if i == 0 then -1 else SlotOf(c.prefilled, i - 1)
        invariant |available| == |c.shortIds| + |c.prefilled| && Prefills(available, c.prefilled, i)
        invariant forall k :: 0 <= k < i ==> PrefillOk(c, k)
        invariant headerNull == old(headerNull) && mempoolCount == old(mempoolCount)
      {
        SlotIs(c.prefilled, i);
        if c.prefilled[i].tx.empty {
          assert !PrefillOk(c, i);
          return false;
        }
        last := last + c.prefilled[i].index + 1;
        if last > 0xFFFF {
          assert !PrefillOk(c, i);
          return false;
        }
        if last > |c.shortIds| + i {
          assert !PrefillOk(c, i);
          return false;
        }
        PrefillStep(available, c.prefilled, i);
        available := available[last := Some(c.prefilled[i].tx)];
        i := i + 1;
      }
      prefilledCount := |c.prefilled|;
      ok := true;
    }

    /**
     Moves the 16-bit offset past filled slots. It stops at the next free slot, unless it would have
     to pass 65535: then it starts again at 0, where all it can reach is filled, and never ends.
     */
    method NextFree(i: nat, from: nat) returns (ends: bool, offset: nat)
      requires i + from <= |available| && from < 0x1_0000 && |FreeBelow(available, i + from)| == i
      requires i < |FreeBelow(available, |available|)|
      requires CountSome(available) < 0x1_0000 || (i == 0 && LowSlots(available) && CountSome(available) == 0x1_0000)
      ensures ends <==> CountSome(available) < 0x1_0000
      ensures ends ==> i + offset < |available| && FreeBelow(available, |available|)[i] == i + offset
      ensures ends ==> offset < 0x1_0000 && |FreeBelow(available, i + 1 + offset)| == i + 1
      ensures !ends ==> i + 0x1_0000 <= |available| && forall p :: i <= p < i + 0x1_0000 ==> available[p].Some?
    {
      hide FreeBelow, CountSome, LowSlots;
      ghost var z, end := available, |available|;
      if i == 0 && LowSlots(z) && CountSome(z) == 0x1_0000 {
        AllLowFilled(z);
      }
      offset := from;
      while available[i + offset].Some?
        invariant i + offset < end && offset < 0x1_0000 && |FreeBelow(z, i + offset)| == i
        decreases end - offset
      {
        FreeStep(z, i + offset);
        FilledBelow(z, i, offset);
        if offset == 0xFFFF {
          return false, 0;
        }
        offset := offset + 1;
      }
      FreeFound(z, i + offset);
      FilledBelow(z, i, offset);
      ends := true;
    }

    /**
     Gives the short ids the free slots in order, in 16 bits. Refused when a hash bucket is overfull,
     which depends on the table and is a parameter here, or when two short ids are equal.
     */
    method IndexIds(ids: seq<nat>, overfull: nat -> bool) returns (status: Status, m: map<nat, nat>)
      requires |FreeBelow(available, |available|)| == |ids|
      requires LowSlots(available) && CountSome(available) <= 0x1_0000
      ensures status == Hangs <==> ids != [] && CountSome(available) == 0x1_0000
      ensures status == Okay <==> status != Hangs && Distinct(ids) && forall i :: 0 <= i < |ids| ==> !overfull(i)
      ensures status == Okay || status == Hangs || status == Failed
      ensures status == Okay ==> IdMap(m, ids, FreeBelow(available, |available|), |ids|)
    {
      hide FreeBelow, IdsBelow, CountSome, Position, LowSlots, IdMap, Distinct;
      ghost var free := FreeBelow(available, |available|);
      m := map[];
      var offset: nat, i: nat := 0, 0;
      FreeNone(available);
      IdMapStarts(ids, free);
      while i < |ids|
        invariant i <= |ids| && i + offset <= |available| && offset < 0x1_0000
        invariant |FreeBelow(available, i + offset)| == i && IdMap(m, ids, free, i)
        invariant i > 0 ==> CountSome(available) < 0x1_0000
        invariant forall k :: 0 <= k < i ==> !overfull(k)
      {
        var ends;
        ends, offset := NextFree(i, offset);
        if !ends {
          return Hangs, m;
        }
        IdMapStep(m, ids, free, i);
        m := m[ids[i] := Position(i + offset)];
        if overfull(i) {
          return Failed, m;
        }
        i := i + 1;
      }
      IdCount(m, ids, free);
      status := if |m| == |ids| then Okay else Failed;
    }

    /**
     Looks the offers `from..to` up by short id. A second match empties the slot again; from the
     extra pool only if it is a different transaction. Stops once every short id has its slot.
     */
    method TakeFrom(offers: seq<Offer>, from: nat, to: nat, extra: bool, sid: nat -> nat, m: map<nat, nat>,
      had: seq<bool>, ghost base: Slots, ghost edge: nat) returns (have: seq<bool>, n: nat)
      requires if extra then edge <= from else to <= edge
      requires from <= to <= |offers| && Scanned(available, base, had, mempoolCount, offers, sid, m, edge, from)
      modifies this`available, this`mempoolCount
      ensures from <= n <= to && Scanned(available, base, have, mempoolCount, offers, sid, m, edge, n)
      ensures StopsAt(|base|, offers, sid, m, edge, from, to, n)
      ensures n < to ==> mempoolCount == |m|
      ensures |have| == |had| && forall p :: 0 <= p < |had| && had[p] ==> have[p]
    {
      hide Scanned, SlotOk, Held;
      have, n := had, from;
      while n < to
        invariant from <= n <= to && Scanned(available, base, have, mempoolCount, offers, sid, m, edge, n)
        invariant |have| == |had| && forall p :: 0 <= p < |had| && had[p] ==> have[p]
        invariant forall i :: from < i <= n ==> |Held(|base|, offers, sid, m, edge, i)| != |m|
      {
        ghost var z, before := available, have;
        var id := sid(offers[n].hash);
        if id in m {
          var p := m[id];
          ScanBounds(available, base, have, mempoolCount, offers, sid, m, edge, n, id);
          if !have[p] {
            available := available[p := Some(offers[n].tx)];
            have := have[p := true];
            mempoolCount := mempoolCount + 1;
          } else if available[p].Some?
                    && (!extra || available[p].value.witnessHash != offers[n].tx.witnessHash) {
            available := available[p := None];
            mempoolCount := mempoolCount - 1;
          }
          ScanMatches(z, available, base, before, have,
            mempoolCount - Weight(available[p]) + (if before[p] then Weight(z[p]) else 0), offers, sid, m, edge, n, p);
        } else {
          ScanSkips(available, base, have, mempoolCount, offers, sid, m, edge, n);
        }
        n := n + 1;
        GotIsHeld(available, base, have, mempoolCount, offers, sid, m, edge, n);
        if mempoolCount == |m| {
          break;
        }
      }
    }

    /** Both scans, over the pool and then over the extra transactions. */
    method FillSlots(c: CompactBlock, pool: seq<Offer>, extra: seq<Offer>, sid: nat -> nat, m: map<nat, nat>)
      returns (a: nat, n: nat)
      requires |available| == |c.shortIds| + |c.prefilled| && Prefills(available, c.prefilled, |c.prefilled|)
      requires IdMap(m, c.shortIds, FreeBelow(available, |available|), |c.shortIds|)
      requires Distinct(c.shortIds) && mempoolCount == 0
      modifies this`available, this`mempoolCount
      ensures FilledBy(available, mempoolCount, c, pool, extra, sid, old(available), m, a, n)
    {
      hide Scanned, SlotOk, FreeBelow, FilledFrom, Prefills, IdMap, Distinct, AllHad, StopsAt, Held, SlotHas;
      ghost var base := available;
      MapInRange(m, c.shortIds, base);
      var have := seq(|available|, _ => false);
      ScanStarts(base, pool, sid, m, |pool|);
      have, a := TakeFrom(pool, 0, |pool|, false, sid, m, have, base, |pool|);
      ScanLengths(available, base, have, mempoolCount, pool, sid, m, |pool|, a);
      if a < |pool| {
        AllTaken(available, base, have, mempoolCount, pool, sid, m, |pool|, a);
      }
      ghost var had := have;
      var seen := pool[..a] + extra;
      assert seen[..a] == pool[..a];
      ScanOfPrefix(available, base, have, mempoolCount, pool, seen, sid, m, |pool|, a, a);
      have, n := TakeFrom(seen, a, |seen|, true, sid, m, have, base, a);
      if n < |seen| {
        AllTaken(available, base, have, mempoolCount, seen, sid, m, a, n);
      } else if a < |pool| {
        StillHad(had, have, m);
      }
      ScansFinish(available, base, have, mempoolCount, pool, extra, sid, m, a, n);
      ScanIs(available, base, have, mempoolCount, seen, sid, m, a, n);
      GotIsHeld(available, base, have, mempoolCount, seen, sid, m, a, n);
    }

    method InitData(c: CompactBlock, pool: seq<Offer>, extra: seq<Offer>, sid: nat -> nat, maxTx: nat,
      overfull: nat -> bool) returns (status: Status)
      requires headerNull && available == []
      modifies this
      ensures status != CheckBlockFailed
      ensures status == Invalid <==> Malformed(c, maxTx)
      ensures status == Hangs <==> !Malformed(c, maxTx) && c.shortIds != [] && |c.prefilled| == 0x1_0000
      ensures status == Failed <==> !Malformed(c, maxTx) && status != Hangs && Colliding(c, overfull)
      ensures status == Okay ==> !headerNull && prefilledCount == |c.prefilled|
      ensures status == Okay ==> Initialised(available, mempoolCount, c, pool, extra, sid)
    {
      hide CountSome, FreeBelow, FilledFrom, Prefills, IdMap, SlotOf;
      if c.headerNull || (c.shortIds == [] && c.prefilled == []) {
        return Invalid;
      }
      if |c.shortIds| + |c.prefilled| > maxTx {
        return Invalid;
      }
      headerNull := false;
      mempoolCount := 0;
      var ok := Prefill(c);
      if !ok {
        return Invalid;
      }
      ghost var base := available;
      FreeOfPrefilled(base, c);
      PrefilledLow(base, c);
      var m;
      status, m := IndexIds(c.shortIds, overfull);
      if status != Okay {
        return;
      }
      var a, n := FillSlots(c, pool, extra, sid, m);
      assert FilledBy(available, mempoolCount, c, pool, extra, sid, base, m, a, n);
    }

    /**
     Puts the requested transactions into the empty slots, in order. Too few of them fail part way,
     with the slots before the gap already moved out; otherwise the object is spent.
     */
    method FillBlock(missing: seq<Tx>, check: seq<Tx> -> Verdict) returns (status: Status, vtx: seq<Tx>)
      requires !headerNull
      modifies this
      ensures var z, free := old(available), FreeBelow(old(available), |old(available)|);
        if |missing| < |free| then
          status == Invalid && !headerNull && |available| == |z|
          && forall p :: 0 <= p < |z| ==> available[p] == if p < free[|missing|] then None else z[p]
        else
          headerNull && available == [] && Merged(vtx, z, missing)
          && status == if |missing| > |free| then Invalid
                       else if check(vtx) == Accepted then Okay
                       else if check(vtx) == Corrupt then Failed
                       else CheckBlockFailed
    {
      hide FreeBelow;
      ghost var z := available;
      ghost var free := FreeBelow(z, |z|);
      var offset: nat, i: nat := 0, 0;
      vtx := [];
      FreeNone(z);
      while i < |available|
        invariant i <= |available| == |z| && |vtx| == i && offset == |FreeBelow(z, i)| <= |missing|
        invariant !headerNull && forall p :: 0 <= p < |z| ==> available[p] == if p < i then None else z[p]
        invariant forall p :: 0 <= p < i && z[p].Some? ==> vtx[p] == z[p].value
        invariant forall k :: 0 <= k < offset ==> FreeBelow(z, i)[k] < i && vtx[FreeBelow(z, i)[k]] == missing[k]
      {
        FreeStep(z, i);
        if available[i].None? {
          FreeFound(z, i);
          if |missing| <= offset {
            return Invalid, vtx;
          }
          vtx := vtx + [missing[offset]];
          offset := offset + 1;
        } else {
          vtx := vtx + [available[i].value];
          available := available[i := None];
        }
        i := i + 1;
      }
      headerNull := true;
      available := [];
      if |missing| != offset {
        return Invalid, vtx;
      }
      status := OfVerdict(check(vtx));
    }
  }

  function OfVerdict(v: Verdict): Status {
    match v
    case Accepted => Okay
    case Corrupt => Failed
    case Rejected => CheckBlockFailed
  }

  /** `vtx` holds the filled slots and, in the empty ones, the given transactions in order. */
  ghost predicate Merged(vtx: seq<Tx>, z: Slots, missing: seq<Tx>) {
    var free := FreeBelow(z, |z|);
    |vtx| == |z| && |free| <= |missing|
    && (forall p :: 0 <= p < |z| && z[p].Some? ==> vtx[p] == z[p].value)
    && forall k :: 0 <= k < |free| ==> vtx[free[k]] == missing[k]
  }

  /** The refusals on account of the short ids. */
  ghost predicate Colliding(c: CompactBlock, overfull: nat -> bool) {
    !Distinct(c.shortIds) || exists i :: 0 <= i < |c.shortIds| && overfull(i)
  }

  /** The refusals that do not depend on the short ids. */
  ghost predicate Malformed(c: CompactBlock, maxTx: nat) {
    c.headerNull || (c.shortIds == [] && c.prefilled == []) || |c.shortIds| + |c.prefilled| > maxTx
    || !(forall i :: 0 <= i < |c.prefilled| ==> PrefillOk(c, i))
  }

  ghost predicate FilledBy(z: Slots, count: int, c: CompactBlock, pool: seq<Offer>, extra: seq<Offer>, sid: nat -> nat,
    base: Slots, m: map<nat, nat>, a: nat, n: nat)
  {
    FilledOver(z, count, c, pool + extra, sid, base, m) && Looked(z, base, count, pool, extra, sid, m, a, n)
  }

  /** The slots after a successful start, exactly. */
  ghost predicate Initialised(z: Slots, count: int, c: CompactBlock, pool: seq<Offer>, extra: seq<Offer>, sid: nat -> nat) {
    exists base: Slots, m: map<nat, nat>, a: nat, n: nat :: FilledBy(z, count, c, pool, extra, sid, base, m, a, n)
  }

  /** What follows for all offers together, wherever the scans stop. */
  ghost predicate FilledOver(z: Slots, count: int, c: CompactBlock, offers: seq<Offer>, sid: nat -> nat,
    base: Slots, m: map<nat, nat>)
  {
    |base| == |c.shortIds| + |c.prefilled| && Prefills(base, c.prefilled, |c.prefilled|)
    && IdMap(m, c.shortIds, FreeBelow(base, |base|), |c.shortIds|)
    && FilledFrom(z, base, count, offers, sid, m)
  }

  ghost predicate Started(z: Slots, count: int, c: CompactBlock, offers: seq<Offer>, sid: nat -> nat) {
    exists base: Slots, m: map<nat, nat> :: FilledOver(z, count, c, offers, sid, base, m)
  }

  /** The message, the pool and the extra transactions leave no choice about the slots. */
  lemma InitialisedOnce(z: Slots, z': Slots, count: int, count': int, c: CompactBlock, pool: seq<Offer>,
    extra: seq<Offer>, sid: nat -> nat)
    requires Initialised(z, count, c, pool, extra, sid) && Initialised(z', count', c, pool, extra, sid)
    requires Distinct(c.shortIds)
    ensures z == z' && count == count'
  {
    hide FilledFrom, Looked, Prefills, IdMap, FreeBelow;
    var base: Slots, m: map<nat, nat>, a: nat, n: nat :| FilledBy(z, count, c, pool, extra, sid, base, m, a, n);
    var base': Slots, m': map<nat, nat>, a': nat, n': nat :| FilledBy(z', count', c, pool, extra, sid, base', m', a', n');
    PrefillsOnce(base, base', c.prefilled);
    IdMapOnce(m, m', c.shortIds, FreeBelow(base, |base|));
    LookedOnce(z, z', base, count, count', pool, extra, sid, m, a, a', n, n');
  }

  lemma PrefillsOnce(base: Slots, base': Slots, pre: seq<PrefilledTx>)
    requires |base| == |base'| && Prefills(base, pre, |pre|) && Prefills(base', pre, |pre|)
    ensures base == base'
  {
  }

  lemma IdMapOnce(m: map<nat, nat>, m': map<nat, nat>, ids: seq<nat>, free: seq<nat>)
    requires IdMap(m, ids, free, |ids|) && IdMap(m', ids, free, |ids|) && Distinct(ids)
    ensures m == m'
  {
    hide IdsBelow, Position;
    forall x | x in m
      ensures x in m' && m[x] == m'[x]
    {
      assert x in m.Keys && x in m'.Keys;
    }
  }

  lemma LookedOnce(z: Slots, z': Slots, base: Slots, count: int, count': int, pool: seq<Offer>, extra: seq<Offer>,
    sid: nat -> nat, m: map<nat, nat>, a: nat, a': nat, n: nat, n': nat)
    requires Looked(z, base, count, pool, extra, sid, m, a, n) && Looked(z', base, count', pool, extra, sid, m, a', n')
    ensures z == z' && count == count'
  {
    hide Held, SlotHas;
    StopsOnce(|base|, pool, sid, m, |pool|, 0, |pool|, a, a');
    var seen := pool[..a] + extra;
    StopsOnce(|base|, seen, sid, m, a, a, |seen|, n, n');
    forall p | 0 <= p < |z|
      ensures z[p] == z'[p]
    {
      HasOnce(z[p], z'[p], base[p], seen, sid, m, a, n, p);
    }
  }

  lemma StopsOnce(size: nat, offers: seq<Offer>, sid: nat -> nat, m: map<nat, nat>, edge: nat, from: nat, to: nat,
    n: nat, n': nat)
    requires StopsAt(size, offers, sid, m, edge, from, to, n) && StopsAt(size, offers, sid, m, edge, from, to, n')
    ensures n == n'
  {
    hide Held;
  }

  lemma HasOnce(v: Option<Tx>, v': Option<Tx>, before: Option<Tx>, offers: seq<Offer>, sid: nat -> nat,
    m: map<nat, nat>, edge: nat, n: nat, p: nat)
    requires SlotHas(v, before, offers, sid, m, edge, n, p) && SlotHas(v', before, offers, sid, m, edge, n, p)
    ensures v == v'
  {
    hide Fits, Spoiled;
    if j: nat :| j < n && Fits(offers, sid, m, j, p) {
      var k := FirstOne(offers, sid, m, j, p);
      assert First(offers, sid, m, k, p);
    }
  }

  lemma InitialisedStarts(z: Slots, count: int, c: CompactBlock, pool: seq<Offer>, extra: seq<Offer>, sid: nat -> nat)
    requires Initialised(z, count, c, pool, extra, sid)
    ensures Started(z, count, c, pool + extra, sid)
  {
    hide FilledOver, Looked;
    var base: Slots, m: map<nat, nat>, a: nat, n: nat :| FilledBy(z, count, c, pool, extra, sid, base, m, a, n);
    assert FilledOver(z, count, c, pool + extra, sid, base, m);
  }

  lemma FreeOfPrefilled(base: Slots, c: CompactBlock)
    requires |base| == |c.shortIds| + |c.prefilled| && Prefills(base, c.prefilled, |c.prefilled|)
    ensures |FreeBelow(base, |base|)| == |c.shortIds| && CountSome(base) + |c.shortIds| == |base|
  {
    FreeCount(base, |base|);
    assert base[..|base|] == base;
  }

  lemma MapInRange(m: map<nat, nat>, ids: seq<nat>, base: Slots)
    requires IdMap(m, ids, FreeBelow(base, |base|), |ids|)
    ensures forall x :: x in m ==> m[x] < |base|
  {
  }

  lemma StillHad(had: seq<bool>, have: seq<bool>, m: map<nat, nat>)
    requires AllHad(had, m) && |have| == |had| && forall p :: 0 <= p < |had| && had[p] ==> have[p]
    ensures AllHad(have, m)
  {
  }

  /** All filled slots have 16-bit numbers. */
  ghost predicate LowSlots(z: Slots) {
    forall p :: 0 <= p < |z| && z[p].Some? ==> p < 0x1_0000
  }

  ghost function Filled(z: Slots): set<nat> {
    set p | 0 <= p < |z| && z[p].Some?
  }

  lemma {:induction false} CountIsCard(z: Slots)
    ensures CountSome(z) == |Filled(z)|
  {
    if z == [] {
      assert Filled(z) == {};
    } else {
      var n := |z| - 1;
      CountIsCard(z[..n]);
      assert Filled(z) == Filled(z[..n]) + if z[n].Some? then {n} else {};
    }
  }

  ghost function Below(n: nat): (s: set<nat>)
    ensures |s| == n && forall p: nat :: p in s <==> p < n
  {
    if n == 0 then {} else Below(n - 1) + {n - 1}
  }

  /** If there are 65536 of them, they are the first 65536. */
  lemma AllLowFilled(z: Slots)
    requires LowSlots(z) && CountSome(z) >= 0x1_0000
    ensures CountSome(z) == 0x1_0000 <= |z| && forall p :: 0 <= p < 0x1_0000 ==> z[p].Some?
  {
    hide CountSome;
    CountIsCard(z);
    hide Below;
    var low := Below(0x1_0000);
    SubsetFull(Filled(z), low);
    assert 0xFFFF in low;
    assert 0xFFFF in Filled(z);
    forall p | 0 <= p < 0x1_0000
      ensures z[p].Some?
    {
      assert p in low;
    }
  }

  lemma PrefilledLow(base: Slots, c: CompactBlock)
    requires |base| == |c.shortIds| + |c.prefilled| && Prefills(base, c.prefilled, |c.prefilled|)
    requires forall i :: 0 <= i < |c.prefilled| ==> PrefillOk(c, i)
    ensures LowSlots(base) && CountSome(base) == |c.prefilled| <= 0x1_0000
  {
    hide CountSome, SlotOf;
    forall p | 0 <= p < |base| && base[p].Some?
      ensures p < 0x1_0000
    {
      var i :| 0 <= i < |c.prefilled| && p == SlotOf(c.prefilled, i);
      assert PrefillOk(c, i);
    }
    if |c.prefilled| >= 0x1_0000 {
      AllLowFilled(base);
    }
  }

  /** The offset counts the filled slots that were passed. */
  lemma FilledBelow(z: Slots, i: nat, offset: nat)
    requires i + offset < |z| && |FreeBelow(z, i + offset)| == i
    ensures offset + Weight(z[i + offset]) <= CountSome(z)
  {
    FreeCount(z, i + offset);
    CountPrefix(z, i + offset + 1);
    assert z[..i + offset + 1][..i + offset] == z[..i + offset];
  }

  lemma {:induction false} CountPrefix(z: Slots, n: nat)
    requires n <= |z|
    ensures CountSome(z[..n]) <= CountSome(z)
    decreases |z|
  {
    if n < |z| {
      CountPrefix(z[..|z| - 1], n);
      assert z[..|z| - 1][..n] == z[..n];
    } else {
      assert z[..n] == z;
    }
  }

  lemma ScanLengths(z: Slots, base: Slots, have: seq<bool>, count: int, offers: seq<Offer>,
    sid: nat -> nat, m: map<nat, nat>, edge: nat, n: nat)
    requires Scanned(z, base, have, count, offers, sid, m, edge, n)
    ensures |z| == |base| == |have|
  {
  }

  lemma ScanBounds(z: Slots, base: Slots, have: seq<bool>, count: int, offers: seq<Offer>,
    sid: nat -> nat, m: map<nat, nat>, edge: nat, n: nat, id: nat)
    requires Scanned(z, base, have, count, offers, sid, m, edge, n) && id in m
    ensures m[id] < |z| == |have|
  {
  }

  lemma FreeNone(z: Slots)
    ensures FreeBelow(z, 0) == []
  {
  }

  lemma IdMapStarts(ids: seq<nat>, free: seq<nat>)
    requires |ids| <= |free|
    ensures IdMap(map[], ids, free, 0)
  {
  }

  /** As many ids in the map as in the message: none occurs twice. */
  lemma IdCount(m: map<nat, nat>, ids: seq<nat>, free: seq<nat>)
    requires IdMap(m, ids, free, |ids|)
    ensures |m| == |ids| <==> Distinct(ids)
  {
    hide Distinct, IdsBelow;
    IdsCount(ids, |ids|);
    assert ids[..|ids|] == ids;
    assert |m| == |m.Keys|;
  }

  /** A free slot is listed after the free slots below it. */
  lemma FreeFound(z: Slots, q: nat)
    requires q < |z| && z[q].None?
    ensures |FreeBelow(z, q)| < |FreeBelow(z, |z|)| && FreeBelow(z, |z|)[|FreeBelow(z, q)|] == q
    ensures |FreeBelow(z, q + 1)| == |FreeBelow(z, q)| + 1
  {
    hide FreeBelow;
    FreeStep(z, q);
    FreePrefix(z, q + 1, |z|);
    assert FreeBelow(z, q + 1)[|FreeBelow(z, q)|] == q;
  }

  lemma FreeStep(z: Slots, n: nat)
    requires n < |z|
    ensures FreeBelow(z, n + 1) == if z[n].None? then FreeBelow(z, n) + [n] else FreeBelow(z, n)
  {
  }

  lemma SlotIs(pre: seq<PrefilledTx>, i: nat)
    requires i < |pre|
    ensures SlotOf(pre, i) == pre[i].index + if i == 0 then 0 else SlotOf(pre, i - 1) + 1
  {
  }

  // ---------------------------------------------------------------------------------------
  // The sending side and the round trip.
  // ---------------------------------------------------------------------------------------

  /** Slot `p` carries no prefilled transaction. */
  ghost predicate Unfilled(pre: seq<PrefilledTx>, p: nat) {
    forall i :: 0 <= i < |pre| ==> SlotOf(pre, i) != p
  }

  /** `c` is a compact form of `vtx`: prefilled entries are its own, the rest by short id in order. */
  ghost predicate Describes(c: CompactBlock, vtx: seq<Tx>, sid: nat -> nat, hash: Tx -> nat) {
    |vtx| == |c.shortIds| + |c.prefilled|
    && (forall i :: 0 <= i < |c.prefilled| ==>
          SlotOf(c.prefilled, i) < |vtx| && c.prefilled[i].tx == vtx[SlotOf(c.prefilled, i)])
    && forall base: Slots :: |base| == |vtx| && Prefills(base, c.prefilled, |c.prefilled|) ==>
          ShortIdsOf(c.shortIds, vtx, FreeBelow(base, |base|), sid, hash)
  }

  ghost predicate ShortIdsOf(ids: seq<nat>, vtx: seq<Tx>, free: seq<nat>, sid: nat -> nat, hash: Tx -> nat) {
    |free| == |ids|
    && forall i :: 0 <= i < |ids| ==> free[i] < |vtx| && ids[i] == sid(hash(vtx[free[i]]))
  }

  /** The compact form of a block: the first transaction whole, the others by short id. */
  method Compact(vtx: seq<Tx>, sid: nat -> nat, hash: Tx -> nat) returns (c: CompactBlock)
    requires vtx != []
    ensures Describes(c, vtx, sid, hash) && !c.headerNull
    ensures c.prefilled == [PrefilledTx(0, vtx[0])] && |c.shortIds| == |vtx| - 1
    ensures forall k :: 0 <= k < |vtx| - 1 ==> c.shortIds[k] == sid(hash(vtx[k + 1]))
  {
    hide CountSome, FreeBelow, Prefills;
    var ids := [];
    var i := 1;
    while i < |vtx|
      invariant 1 <= i <= |vtx| && |ids| == i - 1
      invariant forall k :: 0 <= k < i - 1 ==> ids[k] == sid(hash(vtx[k + 1]))
    {
      ids := ids + [sid(hash(vtx[i]))];
      i := i + 1;
    }
    c := CompactBlock(false, ids, [PrefilledTx(0, vtx[0])]);
    forall base: Slots | |base| == |vtx| && Prefills(base, c.prefilled, 1)
      ensures ShortIdsOf(ids, vtx, FreeBelow(base, |base|), sid, hash)
    {
      OnlyFirst(base, c.prefilled, |base|);
    }
  }

  /** With only slot 0 prefilled, the free slots are all the others. */
  lemma {:induction false} OnlyFirst(base: Slots, pre: seq<PrefilledTx>, n: nat)
    requires |pre| == 1 && pre[0].index == 0 && Prefills(base, pre, 1) && 1 <= n <= |base|
    ensures FreeBelow(base, n) == seq(n - 1, k requires 0 <= k < n - 1 => k + 1)
  {
    hide CountSome;
    assert SlotOf(pre, 0) == 0;
    if n == 1 {
      assert FreeBelow(base, 0) == [];
    } else {
      OnlyFirst(base, pre, n - 1);
    }
  }

  /** Every offer that matches the short id of a slot is the block's transaction for that slot. */
  ghost predicate OwnOffers(c: CompactBlock, vtx: seq<Tx>, offers: seq<Offer>, sid: nat -> nat, hash: Tx -> nat) {
    forall k, p :: 0 <= k < |offers| && 0 <= p < |vtx| && Unfilled(c.prefilled, p) ==>
      sid(offers[k].hash) == sid(hash(vtx[p])) ==> offers[k].tx == vtx[p]
  }

  /** Whatever a started download has available is the block's own, if positions fit in 16 bits. */
  lemma SlotsAreOwn(z: Slots, count: int, c: CompactBlock, vtx: seq<Tx>, offers: seq<Offer>, sid: nat -> nat,
    hash: Tx -> nat)
    requires Started(z, count, c, offers, sid) && Describes(c, vtx, sid, hash)
    requires OwnOffers(c, vtx, offers, sid, hash) && |vtx| <= 0x1_0000
    ensures |z| == |vtx| && CountSome(z) == |c.prefilled| + count
    ensures forall p :: 0 <= p < |z| && z[p].Some? ==> z[p].value == vtx[p]
    ensures forall p :: 0 <= p < |z| && !Unfilled(c.prefilled, p) ==> z[p] == Some(vtx[p])
  {
    hide CountSome, FreeBelow, SlotOf, Describes, OwnOffers, IdMap, Taken, Offered, OfferTaken, Prefills;
    var base: Slots, m: map<nat, nat> :| FilledOver(z, count, c, offers, sid, base, m);
    DescribedLength(c, vtx, sid, hash);
    TakenCount(z, count, c, offers, sid, base, m);
    forall p | 0 <= p < |z|
      ensures z[p].Some? ==> z[p].value == vtx[p]
      ensures !Unfilled(c.prefilled, p) ==> z[p] == Some(vtx[p])
    {
      SlotIsOwn(z, count, c, vtx, offers, sid, hash, base, m, p);
    }
  }

  lemma DescribedLength(c: CompactBlock, vtx: seq<Tx>, sid: nat -> nat, hash: Tx -> nat)
    requires Describes(c, vtx, sid, hash)
    ensures |vtx| == |c.shortIds| + |c.prefilled|
  {
  }

  lemma SlotIsOwn(z: Slots, count: int, c: CompactBlock, vtx: seq<Tx>, offers: seq<Offer>, sid: nat -> nat,
    hash: Tx -> nat, base: Slots, m: map<nat, nat>, p: nat)
    requires FilledOver(z, count, c, offers, sid, base, m) && Describes(c, vtx, sid, hash)
    requires OwnOffers(c, vtx, offers, sid, hash) && p < |z| && |vtx| <= 0x1_0000
    ensures z[p].Some? ==> z[p].value == vtx[p]
    ensures !Unfilled(c.prefilled, p) ==> z[p] == Some(vtx[p])
  {
    hide CountSome, FreeBelow, SlotOf, Describes, OwnOffers, IdMap, Offered, Taken;
    DescribedLength(c, vtx, sid, hash);
    if base[p].Some? {
      PrefilledIsOwn(base, c, vtx, sid, hash, p);
      NotOffered(c, offers, sid, base, m, p);
    } else {
      FreeIsUnfilled(base, c.prefilled, p);
      if z[p].Some? {
        OfferedIsOwn(z, count, c, vtx, offers, sid, hash, base, m, p);
      }
    }
  }

  lemma PrefilledIsOwn(base: Slots, c: CompactBlock, vtx: seq<Tx>, sid: nat -> nat, hash: Tx -> nat, p: nat)
    requires Describes(c, vtx, sid, hash) && |base| == |vtx| && Prefills(base, c.prefilled, |c.prefilled|)
    requires p < |base| && base[p].Some?
    ensures base[p].value == vtx[p]
  {
    hide CountSome, FreeBelow, SlotOf;
    var i :| 0 <= i < |c.prefilled| && p == SlotOf(c.prefilled, i);
  }

  lemma FreeIsUnfilled(base: Slots, pre: seq<PrefilledTx>, p: nat)
    requires Prefills(base, pre, |pre|) && p < |base|
    ensures base[p].None? <==> Unfilled(pre, p)
  {
    hide CountSome, SlotOf;
  }

  /** Offers go to the positions of free slots. */
  lemma OfferedWhere(ids: seq<nat>, offers: seq<Offer>, sid: nat -> nat, base: Slots, m: map<nat, nat>, p: nat)
    requires IdMap(m, ids, FreeBelow(base, |base|), |ids|) && Offered(offers, sid, m, p)
    ensures exists j :: 0 <= j < |FreeBelow(base, |base|)| && Position(FreeBelow(base, |base|)[j]) == p
  {
    hide Position, FreeBelow;
    var k: nat :| Fits(offers, sid, m, k, p);
    var j :| 0 <= j < |ids| && m[sid(offers[k].hash)] == Position(FreeBelow(base, |base|)[j]);
  }

  /** With 16-bit slots nothing is offered to a prefilled one. */
  lemma NotOffered(c: CompactBlock, offers: seq<Offer>, sid: nat -> nat, base: Slots, m: map<nat, nat>, p: nat)
    requires IdMap(m, c.shortIds, FreeBelow(base, |base|), |c.shortIds|) && |base| <= 0x1_0000
    requires p < |base| && base[p].Some?
    ensures !Offered(offers, sid, m, p)
  {
    hide Offered, IdMap;
    if Offered(offers, sid, m, p) {
      OfferedWhere(c.shortIds, offers, sid, base, m, p);
    }
  }

  lemma OfferedIsOwn(z: Slots, count: int, c: CompactBlock, vtx: seq<Tx>, offers: seq<Offer>, sid: nat -> nat,
    hash: Tx -> nat, base: Slots, m: map<nat, nat>, p: nat)
    requires FilledOver(z, count, c, offers, sid, base, m) && Describes(c, vtx, sid, hash) && |vtx| <= 0x1_0000
    requires OwnOffers(c, vtx, offers, sid, hash) && p < |z| && base[p].None? && z[p].Some?
    ensures z[p].value == vtx[p]
  {
    hide CountSome, FreeBelow, SlotOf, Taken, Offered;
    var free := FreeBelow(base, |base|);
    assert ShortIdsOf(c.shortIds, vtx, free, sid, hash);
    assert Offered(offers, sid, m, p);
    var k: nat :| Fits(offers, sid, m, k, p) && offers[k].tx == z[p].value;
    var j :| 0 <= j < |c.shortIds| && c.shortIds[j] == sid(offers[k].hash) && p == Position(free[j]);
    assert free[j] < |base|;
    assert Unfilled(c.prefilled, p);
  }

  /** The count is that of the filled slots that are not prefilled. */
  lemma TakenCount(z: Slots, count: int, c: CompactBlock, offers: seq<Offer>, sid: nat -> nat, base: Slots,
    m: map<nat, nat>)
    requires FilledOver(z, count, c, offers, sid, base, m) && |base| <= 0x1_0000
    ensures CountSome(z) == |c.prefilled| + count
  {
    hide CountSome, FreeBelow, SlotOf, IdMap, Offered, OfferTaken;
    CountIsCard(z);
    CountIsCard(base);
    forall p | 0 <= p < |base|
      ensures base[p].Some? ==> !Offered(offers, sid, m, p) && z[p] == base[p]
      ensures base[p].None? && z[p].Some? ==> Offered(offers, sid, m, p)
    {
      if base[p].Some? {
        NotOffered(c, offers, sid, base, m, p);
      }
    }
    assert Filled(z) == Filled(base) + Taken(z, offers, sid, m);
    assert Filled(base) !! Taken(z, offers, sid, m);
  }

  /** Filling the empty slots with the block's own transactions, in order, rebuilds the block. */
  lemma Rebuilds(z: Slots, count: int, c: CompactBlock, vtx: seq<Tx>, offers: seq<Offer>, sid: nat -> nat,
    hash: Tx -> nat, missing: seq<Tx>, got: seq<Tx>)
    requires Started(z, count, c, offers, sid) && Describes(c, vtx, sid, hash) && |vtx| <= 0x1_0000
    requires OwnOffers(c, vtx, offers, sid, hash)
    requires |missing| == |FreeBelow(z, |z|)|
    requires forall k :: 0 <= k < |missing| ==> FreeBelow(z, |z|)[k] < |vtx| && missing[k] == vtx[FreeBelow(z, |z|)[k]]
    requires Merged(got, z, missing)
    ensures got == vtx
  {
    hide CountSome, FreeBelow, SlotOf, Started, Describes, OwnOffers;
    SlotsAreOwn(z, count, c, vtx, offers, sid, hash);
    forall p | 0 <= p < |z|
      ensures got[p] == vtx[p]
    {
      if z[p].None? {
        FreeFound(z, p);
      }
    }
  }

  // ---------------------------------------------------------------------------------------
  // Blocks of more than 65536 transactions: positions wrap.
  // ---------------------------------------------------------------------------------------

  /** Every short id has a position of its own, and it is a free slot. */
  ghost predicate OwnPositions(base: Slots) {
    var free := FreeBelow(base, |base|);
    && (forall j :: 0 <= j < |free| ==> Position(free[j]) < |base| && base[Position(free[j])].None?)
    && forall j, k :: 0 <= j < k < |free| ==> Position(free[j]) != Position(free[k])
  }

  lemma {:induction false} FreeRises(z: Slots, n: nat, j: nat, k: nat)
    requires n <= |z| && j < k < |FreeBelow(z, n)|
    ensures FreeBelow(z, n)[j] < FreeBelow(z, n)[k]
  {
    if z[n - 1].None? && k == |FreeBelow(z, n)| - 1 {
    } else {
      FreeRises(z, n - 1, j, k);
    }
  }

  lemma OwnPositionsIff(base: Slots)
    requires LowSlots(base)
    ensures OwnPositions(base) <==> |base| <= 0x1_0000
  {
    hide FreeBelow;
    var free := FreeBelow(base, |base|);
    if |base| <= 0x1_0000 {
      forall j, k | 0 <= j < k < |free|
        ensures Position(free[j]) != Position(free[k])
      {
        FreeRises(base, |base|, j, k);
      }
    } else {
      var q := |base| - 1;
      var p := Position(q);
      FreeFound(base, q);
      if base[p].None? {
        FreeFound(base, p);
        FreePrefix(base, p + 1, q);
        assert Position(free[|FreeBelow(base, p)|]) == Position(free[|FreeBelow(base, q)|]);
      }
    }
  }

  /** No short id leads to a prefilled slot exactly if none of them is 65536 slots before another slot. */
  lemma PrefilledSafeIff(base: Slots)
    requires LowSlots(base)
    ensures (forall j :: 0 <= j < |FreeBelow(base, |base|)| ==>
               Position(FreeBelow(base, |base|)[j]) < |base| && base[Position(FreeBelow(base, |base|)[j])].None?)
       <==> forall p :: 0 <= p < |base| && base[p].Some? ==> p + 0x1_0000 >= |base|
  {
    hide FreeBelow;
    forall p | 0 <= p < |base| && base[p].Some? && p + 0x1_0000 < |base|
      ensures exists j :: 0 <= j < |FreeBelow(base, |base|)| && Position(FreeBelow(base, |base|)[j]) == p
    {
      FreeFound(base, p + 0x1_0000);
    }
  }

  /** Then the prefilled transactions stay, whatever the pool offers. */
  lemma PrefilledStay(z: Slots, count: int, c: CompactBlock, offers: seq<Offer>, sid: nat -> nat, i: nat)
    requires Started(z, count, c, offers, sid) && i < |c.prefilled|
    requires forall k :: 0 <= k < |c.prefilled| ==> PrefillOk(c, k)
    requires forall k :: 0 <= k < |c.prefilled| ==> SlotOf(c.prefilled, k) + 0x1_0000 >= |c.shortIds| + |c.prefilled|
    ensures SlotOf(c.prefilled, i) < |z| && z[SlotOf(c.prefilled, i)] == Some(c.prefilled[i].tx)
  {
    hide CountSome, FreeBelow, SlotOf, Offered, OfferTaken, Taken, IdMap, Position;
    var base: Slots, m: map<nat, nat> :| FilledOver(z, count, c, offers, sid, base, m);
    PrefilledLow(base, c);
    forall p | 0 <= p < |base| && base[p].Some?
      ensures p + 0x1_0000 >= |base|
    {
      var k :| 0 <= k < |c.prefilled| && p == SlotOf(c.prefilled, k);
    }
    PrefilledSafeIff(base);
    var p := SlotOf(c.prefilled, i);
    if Offered(offers, sid, m, p) {
      OfferedWhere(c.shortIds, offers, sid, base, m, p);
    }
  }

  /** The free slot with number `q` above all prefilled ones belongs to this short id. */
  lemma HighSlot(base: Slots, c: CompactBlock, q: nat)
    requires |base| == |c.shortIds| + |c.prefilled| && Prefills(base, c.prefilled, |c.prefilled|)
    requires forall i :: 0 <= i < |c.prefilled| ==> PrefillOk(c, i)
    requires 0x1_0000 <= q < |base|
    ensures |c.prefilled| <= q && q - |c.prefilled| < |FreeBelow(base, |base|)| == |c.shortIds|
    ensures FreeBelow(base, |base|)[q - |c.prefilled|] == q
  {
    hide CountSome, FreeBelow, SlotOf;
    PrefilledLow(base, c);
    FreeOfPrefilled(base, c);
    FreeFound(base, q);
    FreeCount(base, q);
    SameCount(base, q);
  }

  /** Slots that are all empty do not count. */
  lemma {:induction false} SameCount(z: Slots, n: nat)
    requires n <= |z| && forall p :: n <= p < |z| ==> z[p].None?
    ensures CountSome(z[..n]) == CountSome(z)
    decreases |z|
  {
    if n < |z| {
      SameCount(z[..|z| - 1], n);
      assert z[..|z| - 1][..n] == z[..n];
    } else {
      assert z[..n] == z;
    }
  }

  lemma IdPosition(m: map<nat, nat>, ids: seq<nat>, free: seq<nat>, j: nat)
    requires IdMap(m, ids, free, |ids|) && Distinct(ids) && j < |ids|
    ensures ids[j] in m && m[ids[j]] == Position(free[j])
  {
    hide Position, IdsBelow;
    IdsMember(ids, |ids|, ids[j]);
  }

  lemma OnlyOffer(z: Slots, base: Slots, count: int, offer: Offer, sid: nat -> nat, m: map<nat, nat>)
    requires FilledFrom(z, base, count, [offer], sid, m) && sid(offer.hash) in m && m[sid(offer.hash)] < |z|
    ensures z[m[sid(offer.hash)]] == Some(offer.tx)
  {
    hide Taken;
    assert Fits([offer], sid, m, 0, m[sid(offer.hash)]);
  }

  /** A single offer for the id of slot `q` ends up at the position of `q`. */
  lemma SingleOffer(z: Slots, count: int, c: CompactBlock, offer: Offer, sid: nat -> nat, q: nat)
    requires Started(z, count, c, [offer], sid) && Distinct(c.shortIds)
    requires forall i :: 0 <= i < |c.prefilled| ==> PrefillOk(c, i)
    requires 0x1_0000 <= q < |c.shortIds| + |c.prefilled| && |c.prefilled| <= q && q - |c.prefilled| < |c.shortIds|
    requires sid(offer.hash) == c.shortIds[q - |c.prefilled|]
    ensures |z| == |c.shortIds| + |c.prefilled| && Position(q) < |z| && z[Position(q)] == Some(offer.tx)
  {
    hide CountSome, FreeBelow, SlotOf, Taken, Prefills, IdMap, Offered, OfferTaken, Distinct;
    var base: Slots, m: map<nat, nat> :| FilledOver(z, count, c, [offer], sid, base, m);
    HighSlot(base, c, q);
    IdPosition(m, c.shortIds, FreeBelow(base, |base|), q - |c.prefilled|);
    OnlyOffer(z, base, count, offer, sid, m);
  }

  /** Otherwise some pool overwrites a prefilled transaction. */
  method PrefilledLost(c: CompactBlock, i: nat, tx: Tx, maxTx: nat, overfull: nat -> bool)
    returns (d: PartiallyDownloadedBlock)
    requires !Malformed(c, maxTx) && !Colliding(c, overfull) && |c.prefilled| < 0x1_0000
    requires i < |c.prefilled| && SlotOf(c.prefilled, i) + 0x1_0000 < |c.shortIds| + |c.prefilled|
    ensures fresh(d) && SlotOf(c.prefilled, i) < |d.available| && d.available[SlotOf(c.prefilled, i)] == Some(tx)
  {
    hide SlotOf, Initialised, Started, Distinct;
    d := new PartiallyDownloadedBlock();
    assert PrefillOk(c, i);
    var q := SlotOf(c.prefilled, i) + 0x1_0000;
    var offer := Offer(c.shortIds[q - |c.prefilled|], tx);
    var sid := x => x;
    var status := d.InitData(c, [offer], [], sid, maxTx, overfull);
    InitialisedStarts(d.available, d.mempoolCount, c, [offer], [], sid);
    assert [offer] + [] == [offer];
    SingleOffer(d.available, d.mempoolCount, c, offer, sid, q);
  }

  /** The block's own transactions for the empty slots, in order. */
  method OwnMissing(z: Slots, vtx: seq<Tx>) returns (missing: seq<Tx>)
    requires |z| == |vtx|
    ensures |missing| == |FreeBelow(z, |z|)|
    ensures forall k :: 0 <= k < |missing| ==> FreeBelow(z, |z|)[k] < |vtx| && missing[k] == vtx[FreeBelow(z, |z|)[k]]
  {
    hide FreeBelow;
    missing := [];
    var p := 0;
    FreeNone(z);
    while p < |z|
      invariant p <= |z| && |missing| == |FreeBelow(z, p)|
      invariant forall k :: 0 <= k < |missing| ==> FreeBelow(z, p)[k] < |vtx| && missing[k] == vtx[FreeBelow(z, p)[k]]
    {
      FreeStep(z, p);
      if z[p].None? {
        missing := missing + [vtx[p]];
      }
      p := p + 1;
    }
  }

  /**
   A block of more than 65536 different transactions is not rebuilt: offered its last transaction by
   the pool and given its own transactions for the empty slots, the receiver assembles another one.
   */
  method BlockLost(c: CompactBlock, vtx: seq<Tx>, sid: nat -> nat, hash: Tx -> nat, maxTx: nat, overfull: nat -> bool,
    check: seq<Tx> -> Verdict) returns (pool: seq<Offer>, got: seq<Tx>)
    requires Describes(c, vtx, sid, hash) && !Malformed(c, maxTx) && !Colliding(c, overfull) && |c.prefilled| < 0x1_0000
    requires |vtx| > 0x1_0000 && forall i, j :: 0 <= i < j < |vtx| ==> vtx[i] != vtx[j]
    ensures OwnOffers(c, vtx, pool, sid, hash) && |got| == |vtx| && got != vtx
  {
    hide SlotOf, Initialised, Started, Distinct, Describes, OwnOffers, FreeBelow, Colliding, Malformed, Position;
    var q := |vtx| - 1;
    pool := [Offer(hash(vtx[q]), vtx[q])];
    var d := new PartiallyDownloadedBlock();
    var status := d.InitData(c, pool, [], sid, maxTx, overfull);
    InitialisedStarts(d.available, d.mempoolCount, c, pool, [], sid);
    assert pool + [] == pool;
    LastOffer(d.available, d.mempoolCount, c, vtx, sid, hash, maxTx, overfull);
    var missing := OwnMissing(d.available, vtx);
    ghost var p := Position(q);
    ghost var z := d.available;
    assert z[p] == Some(vtx[q]);
    status, got := d.FillBlock(missing, check);
    assert got[p] == vtx[q];
  }

  lemma LastOffer(z: Slots, count: int, c: CompactBlock, vtx: seq<Tx>, sid: nat -> nat, hash: Tx -> nat, maxTx: nat,
    overfull: nat -> bool)
    requires Describes(c, vtx, sid, hash) && !Malformed(c, maxTx) && !Colliding(c, overfull) && |vtx| > 0x1_0000
    requires Started(z, count, c, [Offer(hash(vtx[|vtx| - 1]), vtx[|vtx| - 1])], sid)
    ensures |z| == |vtx| && Position(|vtx| - 1) < |vtx| - 1 && z[Position(|vtx| - 1)] == Some(vtx[|vtx| - 1])
    ensures OwnOffers(c, vtx, [Offer(hash(vtx[|vtx| - 1]), vtx[|vtx| - 1])], sid, hash)
  {
    hide CountSome, FreeBelow, SlotOf, Taken, FilledFrom, IdMap, OwnOffers;
    var q := |vtx| - 1;
    var offer := Offer(hash(vtx[q]), vtx[q]);
    var base: Slots, m: map<nat, nat> :| FilledOver(z, count, c, [offer], sid, base, m);
    HighSlot(base, c, q);
    assert ShortIdsOf(c.shortIds, vtx, FreeBelow(base, |base|), sid, hash);
    SingleOffer(z, count, c, offer, sid, q);
    LastIsOwn(base, c, vtx, sid, hash);
  }

  lemma LastIsOwn(base: Slots, c: CompactBlock, vtx: seq<Tx>, sid: nat -> nat, hash: Tx -> nat)
    requires |base| == |vtx| > 0 && Prefills(base, c.prefilled, |c.prefilled|) && Distinct(c.shortIds)
    requires ShortIdsOf(c.shortIds, vtx, FreeBelow(base, |base|), sid, hash) && base[|vtx| - 1].None?
    ensures OwnOffers(c, vtx, [Offer(hash(vtx[|vtx| - 1]), vtx[|vtx| - 1])], sid, hash)
  {
    hide CountSome, FreeBelow, SlotOf, Prefills;
    var q := |vtx| - 1;
    FreeFound(base, q);
    forall p | 0 <= p < |vtx| && Unfilled(c.prefilled, p) && sid(hash(vtx[q])) == sid(hash(vtx[p]))
      ensures p == q
    {
      FreeIsUnfilled(base, c.prefilled, p);
      FreeFound(base, p);
      assert c.shortIds[|FreeBelow(base, p)|] == c.shortIds[|FreeBelow(base, q)|];
    }
  }

  /** A message within the limit of 200000 transactions whose prefilled transaction can be lost. */
  lemma PositionsMayWrap(tx: Tx)
    requires !tx.empty
    ensures var c := CompactBlock(false, seq(0x1_0000, i => i), [PrefilledTx(0, tx)]);
            && !Malformed(c, 200_000) && Distinct(c.shortIds)
            && SlotOf(c.prefilled, 0) + 0x1_0000 < |c.shortIds| + |c.prefilled|
  {
  }

  /** A message within the limit of 200000 transactions for which the offset scan never ends. */
  lemma ScanMayHang(tx: Tx)
    requires !tx.empty
    ensures var c := CompactBlock(false, [0], seq(0x1_0000, _ => PrefilledTx(0, tx)));
            !Malformed(c, 200_000) && c.shortIds != [] && |c.prefilled| == 0x1_0000
  {
    var pre := seq(0x1_0000, _ => PrefilledTx(0, tx));
    forall i | 0 <= i < |pre|
      ensures SlotOf(pre, i) == i
    {
      Consecutive(pre, i);
    }
  }

  lemma {:induction false} Consecutive(pre: seq<PrefilledTx>, i: nat)
    requires i < |pre| && forall k :: 0 <= k < |pre| ==> pre[k].index == 0
    ensures SlotOf(pre, i) == i
  {
    if i > 0 {
      Consecutive(pre, i - 1);
    }
  }
}
