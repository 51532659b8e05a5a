/**
 The in-memory block tree (src/chain.h, src/chain.cpp): block index entries with a skip
 pointer, the active-chain vector, fork finding and block locators.  The fast operations are
 proved against `Ancestor`, the plain walk along the predecessor links.
 */
module BlockTree {
  import opened Bits
  import opened SkipList

  class BlockIndex {
    const pprev: BlockIndex?
    const nHeight: nat
    var pskip: BlockIndex?

    /** A new entry as `AddToBlockIndex` links it: height and predecessor are set once. */
    constructor (prev: BlockIndex?)
      ensures pprev == prev && pskip == null
      ensures nHeight == if prev == null then 0 else prev.nHeight + 1
    {
      pprev := prev;
      pskip := null;
      nHeight := if prev == null then 0 else prev.nHeight + 1;
    }

    /**
     Follows skip pointers where they do not overshoot, predecessor links otherwise.  The number of
     steps is what `SkipList.WalkBound` bounds.
     */
    method GetAncestor(height: int, ghost tree: set<BlockIndex>) returns (r: BlockIndex?, ghost steps: nat)
      requires this in tree && TreeOk(tree)
      ensures r == Ancestor(this, height)
      ensures 0 <= height <= nHeight ==> r != null && r in tree
      ensures !(0 <= height <= nHeight) ==> r == null
      ensures steps == if height < 0 then 0 else Steps(nHeight, height)
    {
      hide Steps, GetSkipHeight, Ancestor, NodeOk;
      AncestorEnds(this, height);
      if height > nHeight || height < 0 {
        if height > nHeight {
          NoSteps(nHeight, height);
        }
        return null, 0;
      }
      var walk: BlockIndex := this;
      var heightWalk := nHeight;
      steps := 0;
      while heightWalk > height
        invariant height <= heightWalk <= nHeight
        invariant steps + Steps(heightWalk, height) == Steps(nHeight, height)
        invariant walk in tree && walk == Ancestor(this, heightWalk) && walk.nHeight == heightWalk
      {
        StepsDown(heightWalk, height);
        Links(walk, tree);
        var heightSkip := GetSkipHeight(heightWalk);
        var heightSkipPrev := GetSkipHeight(heightWalk - 1);
        steps := steps + 1;
        if walk.pskip != null &&
           (heightSkip == height ||
            (heightSkip > height && !(heightSkipPrev < heightSkip - 2 && heightSkipPrev >= height)))
        {
          AncestorCompose(this, heightWalk, heightSkip, tree);
          walk := walk.pskip;
          heightWalk := heightSkip;
        } else {
          assert walk.pprev != null;
          AncestorCompose(this, heightWalk, heightWalk - 1, tree);
          walk := walk.pprev;
          heightWalk := heightWalk - 1;
        }
      }
      NoSteps(heightWalk, height);
      return walk, steps;
    }

    /** Sets the skip pointer; the entry joins a tree whose other entries are complete. */
    method BuildSkip(ghost tree: set<BlockIndex>)
      requires TreeOk(tree) && this !in tree
      requires pprev == null ==> nHeight == 0 && pskip == null
      requires pprev != null ==> pprev in tree && nHeight == pprev.nHeight + 1
      modifies this`pskip
      ensures TreeOk(tree + {this})
      ensures pprev != null ==> pskip != null && pskip == Ancestor(this, GetSkipHeight(nHeight))
    {
      if pprev != null {
        ghost var steps;
        pskip, steps := pprev.GetAncestor(GetSkipHeight(nHeight), tree);
      }
      forall b | b in tree + {this}
        ensures NodeOk(b, tree + {this})
      {
        assert b != this ==> old(NodeOk(b, tree));
      }
    }
  }

  /** The block at height `h` on the path from `b` to its root, by walking predecessors. */
  ghost function Ancestor(b: BlockIndex, h: int): (r: BlockIndex?)
    ensures r != null ==> r.nHeight == h
    decreases b.nHeight
  {
    if h < 0 || h > b.nHeight then null
    else if h == b.nHeight then b
    else if b.pprev == null || b.pprev.nHeight >= b.nHeight then null
    else Ancestor(b.pprev, h)
  }

  /** `b` is linked inside the tree and carries the skip pointer of its height. */
  ghost predicate NodeOk(b: BlockIndex, tree: set<BlockIndex>)
    reads b
  {
    && (b.pprev == null ==> b.nHeight == 0 && b.pskip == null)
    && (b.pprev != null ==>
          && b.pprev in tree && b.nHeight == b.pprev.nHeight + 1
          && b.pskip == Ancestor(b, GetSkipHeight(b.nHeight)))
  }

  ghost predicate TreeOk(tree: set<BlockIndex>)
    reads tree
  {
    forall b {:trigger NodeOk(b, tree)} :: b in tree ==> NodeOk(b, tree)
  }

  lemma AncestorEnds(b: BlockIndex, h: int)
    ensures h < 0 || h > b.nHeight ==> Ancestor(b, h) == null
    ensures Ancestor(b, b.nHeight) == b
  {
  }

  lemma Links(b: BlockIndex, tree: set<BlockIndex>)
    requires TreeOk(tree) && b in tree && b.nHeight > 0
    ensures b.pprev != null && b.pprev in tree && b.pprev.nHeight == b.nHeight - 1
            && b.pprev == Ancestor(b, b.nHeight - 1)
    ensures GetSkipHeight(b.nHeight) < b.nHeight
    ensures b.pskip != null && b.pskip in tree && b.pskip.nHeight == GetSkipHeight(b.nHeight)
            && b.pskip == Ancestor(b, GetSkipHeight(b.nHeight))
  {
    assert NodeOk(b, tree);
    AncestorInTree(b, GetSkipHeight(b.nHeight), tree);
  }

  /** The walk never leaves the tree and finds a block at every height up to its start. */
  lemma {:induction false} AncestorInTree(b: BlockIndex, h: nat, tree: set<BlockIndex>)
    requires TreeOk(tree) && b in tree && h <= b.nHeight
    ensures Ancestor(b, h) != null && Ancestor(b, h) in tree
    decreases b.nHeight
  {
    assert NodeOk(b, tree);
    if h < b.nHeight {
      AncestorInTree(b.pprev, h, tree);
    }
  }

  lemma {:induction false} AncestorCompose(b: BlockIndex, h: nat, k: nat, tree: set<BlockIndex>)
    requires TreeOk(tree) && b in tree && k <= h <= b.nHeight
    ensures Ancestor(b, h) != null && Ancestor(b, h) in tree
    ensures Ancestor(Ancestor(b, h), k) == Ancestor(b, k)
    decreases b.nHeight
  {
    assert NodeOk(b, tree);
    if h < b.nHeight {
      AncestorCompose(b.pprev, h, k, tree);
    }
  }

  /** `AddToBlockIndex`: the whole tree stays complete when a block is appended. */
  method AppendBlock(prev: BlockIndex?, ghost tree: set<BlockIndex>)
      returns (b: BlockIndex, ghost tree': set<BlockIndex>)
    requires TreeOk(tree) && (prev != null ==> prev in tree)
    ensures fresh(b) && tree' == tree + {b} && TreeOk(tree')
    ensures b.pprev == prev
  {
    b := new BlockIndex(prev);
    assert b !in tree;
    b.BuildSkip(tree);
    tree' := tree + {b};
  }

  /** The active chain: slot `i` holds the block at height `i`. */
  class Chain {
    var vChain: seq<BlockIndex?>

    constructor ()
      ensures vChain == []
    {
      vChain := [];
    }

    /** Every slot is the tip's ancestor at that height. */
    ghost predicate Valid(tree: set<BlockIndex>)
      reads this, tree
    {
      && TreeOk(tree)
      && (vChain != [] ==>
           var tip := vChain[|vChain| - 1];
           && tip != null && tip in tree && tip.nHeight == |vChain| - 1
           && forall i :: 0 <= i < |vChain| ==> vChain[i] == Ancestor(tip, i))
    }

    function At(h: int): (r: BlockIndex?)
      reads this
    {
      if h < 0 || h >= |vChain| then null else vChain[h]
    }

    function Tip(): (r: BlockIndex?)
      reads this
    {
      if |vChain| > 0 then vChain[|vChain| - 1] else null
    }

    predicate Contains(b: BlockIndex)
      reads this
    {
      At(b.nHeight) == b
    }

    function Next(b: BlockIndex): (r: BlockIndex?)
      reads this
    {
      if Contains(b) then At(b.nHeight + 1) else null
    }

    /** Membership in the chain vector is ancestry of the tip. */
    lemma ContainsIsAncestry(b: BlockIndex, tree: set<BlockIndex>)
      requires Valid(tree) && b in tree
      ensures Contains(b) <==> Tip() != null && Ancestor(Tip(), b.nHeight) == b
      ensures Next(b) != null <==> Contains(b) && b != Tip()
      ensures Next(b) != null ==> Next(b).pprev == b && Contains(Next(b))
    {
      if Contains(b) && b != Tip() {
        AncestorInTree(Tip(), b.nHeight + 1, tree);
      }
      if Next(b) != null {
        AncestorCompose(Tip(), b.nHeight + 1, b.nHeight, tree);
      }
    }

    method SetTip(b: BlockIndex?, ghost tree: set<BlockIndex>)
      requires Valid(tree) && (b != null ==> b in tree)
      modifies this
      ensures Valid(tree) && Tip() == b
    {
      if b == null {
        vChain := [];
        return;
      }
      ghost var old_tip := Tip();
      var n := b.nHeight + 1;
      vChain := if |vChain| >= n then vChain[..n] else vChain + seq(n - |vChain|, i => null);
      ghost var before := vChain;
      var walk: BlockIndex? := b;
      while walk != null && vChain[walk.nHeight] != walk
        invariant |vChain| == n
        invariant walk != null ==> walk in tree && walk == Ancestor(b, walk.nHeight)
        invariant forall i :: (if walk == null then -1 else walk.nHeight) < i < n ==> vChain[i] == Ancestor(b, i)
        invariant forall i :: 0 <= i <= (if walk == null then -1 else walk.nHeight) ==> vChain[i] == before[i]
        decreases if walk == null then 0 else walk.nHeight + 1
      {
        assert NodeOk(walk, tree);
        vChain := vChain[walk.nHeight := walk];
        if walk.pprev != null {
          AncestorCompose(b, walk.nHeight, walk.nHeight - 1, tree);
        }
        walk := walk.pprev;
      }
      if walk != null {
        var h := walk.nHeight;
        forall i | 0 <= i <= h
          ensures vChain[i] == Ancestor(b, i)
        {
          AncestorCompose(b, h, i, tree);
          AncestorCompose(old_tip, h, i, tree);
        }
      }
    }

    /** No block of `b`'s branch above height `low` is in this chain. */
    ghost predicate NoneAbove(b: BlockIndex, low: int)
      reads this
    {
      forall h :: low < h <= b.nHeight && h >= 0 ==> At(h) != Ancestor(b, h)
    }

    lemma NoneAboveStep(b: BlockIndex, low: nat)
      requires NoneAbove(b, low) && At(low) != Ancestor(b, low)
      ensures NoneAbove(b, low - 1)
    {
    }

    /** The highest block of `b`'s branch that is in this chain, or null if there is none. */
    method FindFork(b: BlockIndex?, ghost tree: set<BlockIndex>) returns (r: BlockIndex?)
      requires Valid(tree) && (b != null ==> b in tree)
      ensures b == null ==> r == null
      ensures b != null && r != null ==> Ancestor(b, r.nHeight) == r && Contains(r)
      ensures b != null ==> NoneAbove(b, if r == null then -1 else r.nHeight)
    {
      if b == null {
        return null;
      }
      r := b;
      ghost var low: int := b.nHeight;
      if b.nHeight > |vChain| - 1 {
        ghost var steps;
        r, steps := b.GetAncestor(|vChain| - 1, tree);
        low := |vChain| - 1;
        forall h | low < h <= b.nHeight
          ensures At(h) != Ancestor(b, h)
        {
          AncestorInTree(b, h, tree);
        }
      }
      while r != null && !Contains(r)
        invariant -1 <= low <= b.nHeight && NoneAbove(b, low)
        invariant low == if r == null then -1 else r.nHeight
        invariant r != null ==> r in tree && r == Ancestor(b, low)
        decreases low
      {
        assert NodeOk(r, tree);
        NoneAboveStep(b, low);
        if low > 0 {
          AncestorCompose(b, low, low - 1, tree);
        }
        low := low - 1;
        r := r.pprev;
      }
    }

    /**
     The blocks named by a locator starting at `start` (the tip if null).  Its heights step back
     by 1 ten times and then by doubling steps, and it ends with the genesis block.  Whether a
     step is taken through the chain vector or through skip pointers makes no difference.
     */
    method GetLocator(start: BlockIndex?, ghost tree: set<BlockIndex>) returns (have: seq<BlockIndex>)
      requires Valid(tree) && (start != null ==> start in tree)
      ensures var from := if start == null then Tip() else start;
              if from == null then have == [] else IsLocator(have, from)
    {
      hide Ancestor, Pow2;
      have := [];
      var nStep := 1;
      var b := if start == null then Tip() else start;
      if b == null {
        return;
      }
      ghost var from: BlockIndex := b;
      AncestorEnds(from, 0);
      while b != null
        invariant from in tree && Scheduled(have, from)
        invariant b != null ==> b in tree && b == LocatorBlock(from, |have|)
        invariant b != null ==> nStep == Offset(|have| + 1) - Offset(|have|)
        invariant b != null && |have| > 0 ==> have[|have| - 1].nHeight > 0
        invariant b == null ==> IsLocator(have, from)
        decreases if b == null then 0 else b.nHeight + 1
      {
        ScheduledAppend(have, b, from);
        have := have + [b];
        if b.nHeight == 0 {
          LocatorHeights(have, from);
          break;
        }
        var nHeight := if b.nHeight - nStep > 0 then b.nHeight - nStep else 0;
        OffsetSteps(|have| - 1);
        assert Ancestor(b, nHeight) == LocatorBlock(from, |have|) by {
          AncestorCompose(from, b.nHeight, nHeight, tree);
        }
        b := StepBack(b, nHeight, tree);
        if |have| > 10 {
          nStep := nStep * 2;
        }
      }
    }

    /** One step of a locator: by index where the block is in the chain, by skip pointers otherwise. */
    method StepBack(b: BlockIndex, h: nat, ghost tree: set<BlockIndex>) returns (r: BlockIndex)
      requires Valid(tree) && b in tree && h <= b.nHeight
      ensures r == Ancestor(b, h) && r in tree
    {
      AncestorInTree(b, h, tree);
      if Contains(b) {
        AncestorCompose(Tip(), b.nHeight, h, tree);
        r := At(h);
      } else {
        ghost var steps;
        r, steps := b.GetAncestor(h, tree);
      }
    }
  }

  function Clamp(h: int): (r: nat) { if h > 0 then h else 0 }

  /** How far below its start the `i`-th entry of a locator lies (before clamping at genesis). */
  function Offset(i: nat): (r: nat)
  {
    if i <= 10 then i else 9 + Pow2(i - 10)
  }

  lemma OffsetSteps(i: nat)
    ensures Offset(i + 1) > Offset(i)
    ensures Offset(i + 2) - Offset(i + 1) ==
            (if i + 1 > 10 then 2 else 1) * (Offset(i + 1) - Offset(i))
  {
    if i > 9 {
      assert Pow2(i + 1 - 10) == 2 * Pow2(i - 10);
    }
  }

  ghost function LocatorBlock(from: BlockIndex, i: nat): (r: BlockIndex?)
    ensures r != null ==> r.nHeight == Clamp(from.nHeight - Offset(i))
  {
    Ancestor(from, Clamp(from.nHeight - Offset(i)))
  }

  /** Entry `i` is the ancestor of `from` at the scheduled height. */
  ghost predicate Scheduled(have: seq<BlockIndex>, from: BlockIndex)
  {
    forall i :: 0 <= i < |have| ==> have[i] == LocatorBlock(from, i)
  }

  lemma ScheduledAppend(have: seq<BlockIndex>, b: BlockIndex, from: BlockIndex)
    requires Scheduled(have, from)
    requires b == LocatorBlock(from, |have|)
    ensures Scheduled(have + [b], from)
  {
    var more := have + [b];
    forall i | 0 <= i < |more|
      ensures more[i] == LocatorBlock(from, i)
    {
      if i < |have| {
        assert more[i] == have[i] == LocatorBlock(from, i);
      } else {
        assert more[i] == b;
        assert i == |have|;
      }
    }
  }

  /**
   What a locator promises: it starts at `from`, every entry is the ancestor at the scheduled
   height, heights strictly decrease, first by one and later by twice as much each time, it ends at
   height 0, and its length is logarithmic: Pow2(length - 12) + 9 is still below the starting height.
   */
  ghost predicate IsLocator(have: seq<BlockIndex>, from: BlockIndex)
  {
    && |have| > 0 && have[0] == from && have[|have| - 1].nHeight == 0
    && Scheduled(have, from)
    && (forall i, j :: 0 <= i < j < |have| ==> have[j].nHeight < have[i].nHeight)
    && (forall i :: 0 <= i < |have| && i <= 11 ==> have[i] == Ancestor(from, from.nHeight - i))
    && (forall i :: 11 <= i < |have| ==> Doubles(have, i))
    && (|have| > 12 ==> 9 + Pow2(|have| - 12) < from.nHeight)
  }

  /** The next gap after entry `i` is twice the last one, unless genesis is nearer. */
  ghost predicate Doubles(have: seq<BlockIndex>, i: nat)
    requires 1 <= i < |have|
  {
    var h := have[i].nHeight;
    i + 1 < |have| ==> have[i + 1].nHeight == Clamp(h - 2 * (have[i - 1].nHeight - h))
  }

  lemma {:induction false} OffsetMonotone(i: nat, j: nat)
    requires i < j
    ensures Offset(i) < Offset(j)
    decreases j
  {
    OffsetSteps(j - 1);
    if i < j - 1 {
      OffsetMonotone(i, j - 1);
    }
  }

  lemma LocatorHeights(have: seq<BlockIndex>, from: BlockIndex)
    requires |have| > 0 && have[|have| - 1].nHeight == 0
    requires |have| > 1 ==> have[|have| - 2].nHeight > 0
    requires Scheduled(have, from)
    ensures IsLocator(have, from)
  {
    hide Offset, Pow2, Ancestor, Doubles;
    FirstEntries(have, from, 0);
    AncestorEnds(from, 0);
    forall i, j | 0 <= i < j < |have|
      ensures have[j].nHeight < have[i].nHeight
    {
      OffsetMonotone(i, j);
      if i < |have| - 2 {
        OffsetMonotone(i, |have| - 2);
      }
    }
    forall i | 0 <= i < |have| && i <= 11
      ensures have[i] == Ancestor(from, from.nHeight - i)
    {
      FirstEntries(have, from, i);
    }
    forall i | 11 <= i < |have|
      ensures Doubles(have, i)
    {
      LaterEntries(have, from, i);
    }
    LocatorLength(have, from);
  }

  /** Every entry but the last is above genesis. */
  lemma AboveGenesis(have: seq<BlockIndex>, from: BlockIndex, i: nat)
    requires Scheduled(have, from) && i < |have| - 1 && have[|have| - 2].nHeight > 0
    ensures have[i].nHeight == from.nHeight - Offset(i) > 0
  {
    hide Offset, Ancestor;
    if i < |have| - 2 {
      OffsetMonotone(i, |have| - 2);
    }
  }

  lemma FirstEntries(have: seq<BlockIndex>, from: BlockIndex, i: nat)
    requires Scheduled(have, from) && |have| > 0 && (|have| > 1 ==> have[|have| - 2].nHeight > 0)
    requires i < |have| && i <= 11
    ensures have[i] == Ancestor(from, from.nHeight - i)
  {
    hide Ancestor, Pow2;
    SmallOffset(i);
    if i > 0 {
      AboveGenesis(have, from, i - 1);
      SmallOffset(i - 1);
    }
  }

  lemma SmallOffset(i: nat)
    requires i <= 11
    ensures Offset(i) == i
  {
    assert Pow2(1) == 2;
  }

  lemma LaterEntries(have: seq<BlockIndex>, from: BlockIndex, i: nat)
    requires Scheduled(have, from) && (|have| > 1 ==> have[|have| - 2].nHeight > 0) && 11 <= i < |have|
    ensures Doubles(have, i)
  {
    hide Offset, Ancestor;
    if i + 1 < |have| {
      AboveGenesis(have, from, i);
      AboveGenesis(have, from, i - 1);
      OffsetSteps(i - 1);
    }
  }

  lemma LocatorLength(have: seq<BlockIndex>, from: BlockIndex)
    requires Scheduled(have, from) && |have| > 0 && (|have| > 1 ==> have[|have| - 2].nHeight > 0)
    ensures |have| > 12 ==> 9 + Pow2(|have| - 12) < from.nHeight
  {
    hide Ancestor, Pow2;
    if |have| > 12 {
      AboveGenesis(have, from, |have| - 2);
    }
  }

  /** Above height `low` the branches of `a` and `b` have no block in common. */
  ghost predicate Apart(a: BlockIndex, b: BlockIndex, low: int)
  {
    forall h :: low < h <= a.nHeight && h <= b.nHeight ==> Ancestor(a, h) != Ancestor(b, h)
  }

  lemma ApartStep(a: BlockIndex, b: BlockIndex, low: nat)
    requires Apart(a, b, low) && Ancestor(a, low) != Ancestor(b, low)
    ensures Apart(a, b, low - 1)
  {
  }

  /** The highest block on both branches; the caller's blocks share a genesis. */
  method LastCommonAncestor(a: BlockIndex, b: BlockIndex, ghost tree: set<BlockIndex>) returns (r: BlockIndex)
    requires TreeOk(tree) && a in tree && b in tree
    requires Ancestor(a, 0) == Ancestor(b, 0)
    ensures Ancestor(a, r.nHeight) == r == Ancestor(b, r.nHeight)
    ensures Apart(a, b, r.nHeight)
  {
    var pa: BlockIndex?, pb: BlockIndex? := a, b;
    if pa.nHeight > pb.nHeight {
      ghost var steps;
      pa, steps := pa.GetAncestor(pb.nHeight, tree);
    } else if pb.nHeight > pa.nHeight {
      ghost var steps;
      pb, steps := pb.GetAncestor(pa.nHeight, tree);
    }
    while pa != pb && pa != null && pb != null
      invariant pa != null && pb != null && pa.nHeight == pb.nHeight
      invariant pa in tree && pb in tree
      invariant pa == Ancestor(a, pa.nHeight) && pb == Ancestor(b, pb.nHeight)
      invariant Apart(a, b, pa.nHeight)
      decreases pa.nHeight
    {
      assert NodeOk(pa, tree) && NodeOk(pb, tree);
      ApartStep(a, b, pa.nHeight);
      AncestorCompose(a, pa.nHeight, pa.nHeight - 1, tree);
      AncestorCompose(b, pb.nHeight, pb.nHeight - 1, tree);
      pa, pb := pa.pprev, pb.pprev;
    }
    r := pa;
  }
}
