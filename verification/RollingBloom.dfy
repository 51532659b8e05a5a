/**
 The rolling bloom filter (src/bloom.cpp): every filter position carries a two-bit generation
 label in two parallel 64-bit words.  The labels are proved to be exactly what the history of
 insertions since the last reset determines, so that `contains` is characterised completely.
 */
module RollingBloom {
  import opened Bits

  const TWO32 := 0x1_0000_0000

  // ---------------------------------------------------------------------------------------
  // 64-bit words as their bits, and labels in pairs of words.
  // ---------------------------------------------------------------------------------------

  type Word = w: seq<bool> | |w| == 64 witness seq(64, _ => false)

  function And(a: Word, b: Word): Word { seq(64, i requires 0 <= i < 64 => a[i] && b[i]) }
  function Or(a: Word, b: Word): Word { seq(64, i requires 0 <= i < 64 => a[i] || b[i]) }
  function Xor(a: Word, b: Word): Word { seq(64, i requires 0 <= i < 64 => a[i] != b[i]) }
  function Not(a: Word): Word { seq(64, i requires 0 <= i < 64 => !a[i]) }
  function Zero(): Word { seq(64, _ => false) }

  /** `0 - v` for a bit `v`: all bits equal to it. */
  function Fill(v: nat): Word { seq(64, _ => v == 1) }

  /** `v << b` for a bit `v`. */
  function Shifted(v: nat, b: nat): Word { seq(64, i => v == 1 && i == b) }

  /** The label at one bit of a pair of words: 0 is unset, 1 to 3 are generations. */
  function Label(p1: Word, p2: Word, b: nat): (l: nat)
    requires b < 64
  {
    (if p1[b] then 1 else 0) + (if p2[b] then 2 else 0)
  }

  /** The bits that survive when label `g` is wiped from a pair of words. */
  function WipeMask(p1: Word, p2: Word, g: nat): Word {
    Or(Xor(p1, Fill(g % 2)), Xor(p2, Fill(g / 2)))
  }

  /** Word `p` with bit `b` replaced by `v`. */
  function Stored(p: Word, v: nat, b: nat): Word {
    Or(And(p, Not(Shifted(1, b))), Shifted(v, b))
  }

  /** Wiping label `g` unsets the bits that carry it and leaves the other labels. */
  lemma WipedLabel(p1: Word, p2: Word, g: nat, b: nat)
    requires 1 <= g <= 3 && b < 64
    ensures var m := WipeMask(p1, p2, g);
            Label(And(p1, m), And(p2, m), b) == if Label(p1, p2, b) == g then 0 else Label(p1, p2, b)
  {
  }

  /** Storing label `g` at bit `b` is seen at `b` only. */
  lemma StoredLabel(p1: Word, p2: Word, g: nat, b: nat, c: nat)
    requires 1 <= g <= 3 && b < 64 && c < 64
    ensures Label(Stored(p1, g % 2, b), Stored(p2, g / 2, b), c) == if b == c then g else Label(p1, p2, c)
  {
  }

  // ---------------------------------------------------------------------------------------
  // Positions, and the history that determines the labels.
  // ---------------------------------------------------------------------------------------

  /** Bit `bit` of the words `2 * pair` and `2 * pair + 1`. */
  datatype Pos = Pos(pair: nat, bit: nat)

  /** FastMod picks the word, the low six bits of the hash pick the bit. */
  function PosOf(hash: nat, words: nat): (p: Pos)
    requires words >= 2 && words % 2 == 0
    ensures p.bit < 64 && 2 * p.pair + 1 < words
    ensures p.bit == hash % 64 && 2 * p.pair <= ScaledTo(hash % TWO32, words) <= 2 * p.pair + 1
  {
    SixBits(hash);
    Pos(ScaledTo(hash % TWO32, words) / 2, hash % TWO32 % 64)
  }

  lemma SixBits(hash: nat)
    ensures hash % TWO32 % 64 == hash % 64
  {
    assert hash == 64 * (0x400_0000 * (hash / TWO32)) + hash % TWO32;
  }

  /** The label that generation number `g` uses. */
  function Tag(g: nat): (l: nat)
    ensures 1 <= l <= 3
  {
    g % 3 + 1
  }

  /** The index of the last of the `n` inserted keys that wrote position `p`, or -1. */
  ghost function LastWrite<K>(keys: seq<K>, hits: (K, Pos) -> bool, p: Pos): (i: int)
    ensures -1 <= i < |keys|
    ensures i >= 0 ==> hits(keys[i], p)
    ensures forall j :: i < j < |keys| ==> !hits(keys[j], p)
  {
    if keys == [] then -1
    else if hits(keys[|keys| - 1], p) then |keys| - 1
    else LastWrite(keys[..|keys| - 1], hits, p)
  }

  /** The label of a position last written by key number `i`, when generation `gen` is filling. */
  function Expected(i: int, gen: int, perGen: nat): nat
    requires perGen >= 1
  {
    if i < 0 || i / perGen < gen - 2 then 0 else Tag(i / perGen)
  }

  /** Starting a generation: exactly the labels that leave the window of three are wiped. */
  lemma NextGeneration(i: int, gen: nat, perGen: nat)
    requires perGen >= 1 && i / perGen <= gen && i >= -1
    ensures Expected(i, gen + 1, perGen) ==
            if Expected(i, gen, perGen) == Tag(gen + 1) then 0 else Expected(i, gen, perGen)
  {
    hide Tag;
    TagRange(gen + 1);
    if i >= 0 {
      TagRange(Over(i, perGen));
      TagsApart(Over(i, perGen), gen);
    }
  }

  lemma TagRange(g: nat)
    ensures 1 <= Tag(g) <= 3
  {
  }

  /** Within a window of three generations only the oldest shares its label with the next one. */
  lemma TagsApart(g: nat, gen: nat)
    ensures gen - 2 <= g <= gen ==> (Tag(g) == Tag(gen + 1) <==> g == gen - 2)
  {
  }

  lemma TagNext(g: nat)
    ensures Tag(g + 1) == if Tag(g) == 3 then 1 else Tag(g) + 1
  {
  }

  lemma OneMore(q: nat, d: nat)
    ensures (q + 1) * d == q * d + d
  {
  }

  lemma QuotientOf(q: nat, d: nat, r: nat)
    requires r < d
    ensures (q * d + r) / d == q
  {
    DivisionIs(q * d + r, q, d, r);
  }

  lemma QuotientAtMost(i: nat, q: nat, d: nat)
    requires d >= 1 && i < q * d + d
    ensures i / d <= q
  {
    Quotient(i, d);
    if i / d > q {
      TimesMonotone(q + 1, i / d, d);
    }
  }

  lemma QuotientAtLeast(i: nat, q: int, d: nat)
    requires d >= 1 && q * d <= i
    ensures q <= i / d
  {
    Quotient(i, d);
    if q > i / d {
      TimesMonotone(i / d + 1, q, d);
    }
  }

  ghost function LabelAt(data: seq<Word>, p: Pos): nat
    requires p.bit < 64 && 2 * p.pair + 1 < |data|
  {
    Label(data[2 * p.pair], data[2 * p.pair + 1], p.bit)
  }

  ghost predicate InRange(p: Pos, words: nat) { p.bit < 64 && 2 * p.pair + 1 < words }

  /** Every label is the one that the inserted keys determine. */
  ghost predicate LabelsOk<K(!new)>(data: seq<Word>, keys: seq<K>, hits: (K, Pos) -> bool, gen: nat, perGen: nat)
    requires perGen >= 1
  {
    forall p :: InRange(p, |data|) ==> LabelAt(data, p) == Expected(LastWrite(keys, hits, p), gen, perGen)
  }

  ghost function HitsOf<K>(at: (nat, nat, K) -> Pos, funcs: nat, tweak: nat): (K, Pos) -> bool {
    (k: K, p: Pos) => exists n :: 0 <= n < funcs && at(n, tweak, k) == p
  }

  /** In the middle of an insertion: the first `n` positions of `k` carry the current label. */
  ghost predicate Inserting<K(!new)>(data: seq<Word>, keys: seq<K>, at: (nat, nat, K) -> Pos, funcs: nat, tweak: nat,
                                     gen: nat, perGen: nat, k: K, n: nat)
    requires perGen >= 1
  {
    forall p :: InRange(p, |data|) ==>
      LabelAt(data, p) == if HitsOf(at, n, tweak)(k, p) then Tag(gen)
                          else Expected(LastWrite(keys, HitsOf(at, funcs, tweak), p), gen, perGen)
  }

  lemma HasRoom(n: nat)
    requires n < TWO32
    ensures (n + 1) % TWO32 / 2 >= 1 <==> 1 <= n < TWO32 - 1
  {
  }

  class RollingBloomFilter<K(!new)> {
    const nEntriesPerGeneration: nat
    const nHashFuncs: nat
    const at: (nat, nat, K) -> Pos   // hash number, tweak, key
    const data: array<Word>
    var nEntriesThisGeneration: nat
    var nGeneration: nat
    var nTweak: nat
    ghost var keys: seq<K>           // inserted since the last reset
    ghost var gen: nat               // generations started since then

    ghost predicate Shape() {
      && nEntriesPerGeneration >= 1 && data.Length >= 2 && data.Length % 2 == 0
      && forall n: nat, t: nat, k :: InRange(at(n, t, k), data.Length)
    }

    ghost predicate Valid()
      reads this, data
    {
      && Shape()
      && nGeneration == Tag(gen)
      && nEntriesThisGeneration <= nEntriesPerGeneration
      && (keys != [] ==> nEntriesThisGeneration >= 1)
      && |keys| == gen * nEntriesPerGeneration + nEntriesThisGeneration
      && LabelsOk(data[..], keys, HitsOf(at, nHashFuncs, nTweak), gen, nEntriesPerGeneration)
    }

    /**
     The sizes that the source computes from the false-positive rate are parameters here.  Without
     elements, and with so many that their number plus one wraps, a generation has no room.
     */
    constructor (nElements: nat, funcs: nat, words: nat, tweak: nat, hash: (nat, nat, K) -> nat)
      requires nElements < TWO32 && words % 2 == 0
      ensures keys == [] && nEntriesPerGeneration == (nElements + 1) % TWO32 / 2 && nHashFuncs == funcs
      ensures Valid() <==> 1 <= nElements < TWO32 - 1 && words >= 2
      ensures words >= 2 ==> forall n: nat, t: nat, k :: at(n, t, k) == PosOf(hash(n, t, k), words)
    {
      hide PosOf;
      nEntriesPerGeneration := (nElements + 1) % TWO32 / 2;
      nHashFuncs := funcs;
      at := (n: nat, t: nat, k: K) => if words >= 2 then PosOf(hash(n, t, k), words) else Pos(0, 0);
      data := new Word[words](_ => Zero());
      nEntriesThisGeneration, nGeneration, nTweak := 0, 1, tweak;
      keys, gen := [], 0;
      new;
      HasRoom(nElements);
      if words >= 2 {
        forall n: nat, t: nat, k
          ensures InRange(at(n, t, k), data.Length)
        {
          assert at(n, t, k) == PosOf(hash(n, t, k), words);
        }
      }
    }

    method Reset(tweak: nat)
      requires Valid()
      modifies this, data
      ensures Valid() && keys == [] && nTweak == tweak
    {
      nTweak := tweak;
      nEntriesThisGeneration, nGeneration := 0, 1;
      keys, gen := [], 0;
      for i := 0 to data.Length
        modifies data
        invariant forall j :: 0 <= j < i ==> data[j] == Zero()
      {
        data[i] := Zero();
      }
    }

    /** Exactly the keys whose every position was written in one of the last three generations. */
    method Contains(k: K) returns (r: bool)
      requires Valid()
      ensures r <==> AllRecent(k)
      ensures Recent(k) ==> r
    {
      RecentImpliesAllRecent(k);
      var n := 0;
      while n < nHashFuncs
        invariant 0 <= n <= nHashFuncs
        invariant forall i :: 0 <= i < n ==> PositionRecent(at(i, nTweak, k))
      {
        var p := at(n, nTweak, k);
        assert LabelAt(data[..], p) == Expected(LastWrite(keys, HitsOf(at, nHashFuncs, nTweak), p), gen, nEntriesPerGeneration);
        if !data[2 * p.pair][p.bit] && !data[2 * p.pair + 1][p.bit] {
          return false;
        }
        n := n + 1;
      }
      return true;
    }

    /** The position was last written in the current generation or one of the two before it. */
    ghost predicate PositionRecent(p: Pos)
      requires nEntriesPerGeneration >= 1
      reads this
    {
      var i := LastWrite(keys, HitsOf(at, nHashFuncs, nTweak), p);
      i >= 0 && i / nEntriesPerGeneration >= gen - 2
    }

    ghost predicate AllRecent(k: K)
      requires nEntriesPerGeneration >= 1
      reads this
    {
      forall n :: 0 <= n < nHashFuncs ==> PositionRecent(at(n, nTweak, k))
    }

    /** `k` is among the last two full generations of keys or those of the current one. */
    ghost predicate Recent(k: K)
      reads this
    {
      exists i :: 0 <= i < |keys| && keys[i] == k && i >= |keys| - (2 * nEntriesPerGeneration + nEntriesThisGeneration)
    }

    lemma RecentImpliesAllRecent(k: K)
      requires Valid()
      ensures Recent(k) ==> AllRecent(k)
    {
      if Recent(k) {
        var i :| 0 <= i < |keys| && keys[i] == k && i >= |keys| - (2 * nEntriesPerGeneration + nEntriesThisGeneration);
        var hits := HitsOf(at, nHashFuncs, nTweak);
        forall n | 0 <= n < nHashFuncs
          ensures PositionRecent(at(n, nTweak, k))
        {
          var p := at(n, nTweak, k);
          assert hits(keys[i], p);
          var j := LastWrite(keys, hits, p);
          assert j >= i;
          assert (gen - 2) * nEntriesPerGeneration == gen * nEntriesPerGeneration - 2 * nEntriesPerGeneration;
          QuotientAtLeast(j, gen - 2, nEntriesPerGeneration);
        }
      }
    }

    /** Adds a key, first starting a new generation if the current one is full. */
    method Insert(k: K)
      requires Valid()
      modifies this, data
      ensures Valid() && keys == old(keys) + [k] && Recent(k)
      ensures nTweak == old(nTweak)
    {
      if nEntriesThisGeneration == nEntriesPerGeneration {
        StartGeneration();
      }
      nEntriesThisGeneration := nEntriesThisGeneration + 1;
      Mark(k);
      keys := keys + [k];
      assert keys[|keys| - 1] == k;
    }

    method StartGeneration()
      requires Valid() && nEntriesThisGeneration == nEntriesPerGeneration
      modifies this, data
      ensures keys == old(keys) && nTweak == old(nTweak)
      ensures nGeneration == Tag(gen) && nEntriesThisGeneration == 0
      ensures |keys| == gen * nEntriesPerGeneration
      ensures LabelsOk(data[..], keys, HitsOf(at, nHashFuncs, nTweak), gen, nEntriesPerGeneration)
    {
      TagNext(gen);
      nEntriesThisGeneration := 0;
      nGeneration := nGeneration + 1;
      if nGeneration == 4 {
        nGeneration := 1;
      }
      Wipe();
      OneMore(gen, nEntriesPerGeneration);
      gen := gen + 1;
    }

    /** Unsets every position that carries the label of the generation that is about to start. */
    method Wipe()
      requires Shape() && nGeneration == Tag(gen + 1)
      requires |keys| <= gen * nEntriesPerGeneration + nEntriesPerGeneration
      requires LabelsOk(data[..], keys, HitsOf(at, nHashFuncs, nTweak), gen, nEntriesPerGeneration)
      modifies data
      ensures LabelsOk(data[..], keys, HitsOf(at, nHashFuncs, nTweak), gen + 1, nEntriesPerGeneration)
    {
      hide LabelsOk, And, WipeMask, Tag;
      ghost var before := data[..];
      var p := 0;
      ghost var i := 0;
      while p < data.Length
        invariant 0 <= p <= data.Length && p == 2 * i
        invariant forall j :: p <= j < data.Length ==> data[j] == before[j]
        invariant forall j :: 0 <= j < i ==> PairWiped(before, data[..], j, nGeneration)
      {
        ghost var mid := data[..];
        var p1, p2 := data[p], data[p + 1];
        var mask := WipeMask(p1, p2, nGeneration);
        data[p] := And(p1, mask);
        data[p + 1] := And(p2, mask);
        forall j | 0 <= j < i + 1
          ensures PairWiped(before, data[..], j, nGeneration)
        {
          assert j < i ==> PairWiped(before, mid, j, nGeneration);
        }
        p := p + 2;
        i := i + 1;
      }
      WipedLabelsOk(before, data[..], keys, HitsOf(at, nHashFuncs, nTweak), gen, nEntriesPerGeneration);
    }

    /** Writes the current label at all positions of `k`. */
    method Mark(k: K)
      requires Shape() && nGeneration == Tag(gen)
      requires gen * nEntriesPerGeneration <= |keys| < gen * nEntriesPerGeneration + nEntriesPerGeneration
      requires LabelsOk(data[..], keys, HitsOf(at, nHashFuncs, nTweak), gen, nEntriesPerGeneration)
      modifies data
      ensures LabelsOk(data[..], keys + [k], HitsOf(at, nHashFuncs, nTweak), gen, nEntriesPerGeneration)
    {
      hide Stored, Expected, LastWrite;
      var n := 0;
      while n < nHashFuncs
        invariant 0 <= n <= nHashFuncs
        invariant Inserting(data[..], keys, at, nHashFuncs, nTweak, gen, nEntriesPerGeneration, k, n)
      {
        ghost var before := data[..];
        var p := at(n, nTweak, k);
        var w1, w2 := data[2 * p.pair], data[2 * p.pair + 1];
        data[2 * p.pair] := Stored(w1, nGeneration % 2, p.bit);
        data[2 * p.pair + 1] := Stored(w2, nGeneration / 2, p.bit);
        forall q | InRange(q, data.Length)
          ensures LabelAt(data[..], q) == if q == p then nGeneration else LabelAt(before, q)
        {
          StoredLabel(w1, w2, nGeneration, p.bit, q.bit);
        }
        InsertingStep(before, data[..], keys, at, nHashFuncs, nTweak, gen, nEntriesPerGeneration, k, n);
        n := n + 1;
      }
      InsertedLabels(data[..], keys, at, nHashFuncs, nTweak, gen, nEntriesPerGeneration, k);
    }
  }

  /** The words of pair `j` are what wiping label `g` leaves of them. */
  ghost predicate PairWiped(before: seq<Word>, data: seq<Word>, j: nat, g: nat) {
    && |before| == |data| && 2 * j + 1 < |data|
    && var mask := WipeMask(before[2 * j], before[2 * j + 1], g);
       data[2 * j] == And(before[2 * j], mask) && data[2 * j + 1] == And(before[2 * j + 1], mask)
  }

  lemma WipedLabelsOk<K(!new)>(before: seq<Word>, data: seq<Word>, keys: seq<K>, hits: (K, Pos) -> bool, gen: nat, perGen: nat)
    requires perGen >= 1 && |before| == |data| && |data| % 2 == 0
    requires |keys| <= gen * perGen + perGen
    requires LabelsOk(before, keys, hits, gen, perGen)
    requires forall j :: 0 <= j && 2 * j < |data| ==> PairWiped(before, data, j, Tag(gen + 1))
    ensures LabelsOk(data, keys, hits, gen + 1, perGen)
  {
    forall q | InRange(q, |data|)
      ensures LabelAt(data, q) == Expected(LastWrite(keys, hits, q), gen + 1, perGen)
    {
      assert PairWiped(before, data, q.pair, Tag(gen + 1));
      WipedLabel(before[2 * q.pair], before[2 * q.pair + 1], Tag(gen + 1), q.bit);
      var i := LastWrite(keys, hits, q);
      if i >= 0 {
        QuotientAtMost(i, gen, perGen);
      }
      NextGeneration(i, gen, perGen);
    }
  }

  lemma InsertingStep<K(!new)>(before: seq<Word>, data: seq<Word>, keys: seq<K>, at: (nat, nat, K) -> Pos, funcs: nat,
                               tweak: nat, gen: nat, perGen: nat, k: K, n: nat)
    requires perGen >= 1 && |before| == |data|
    requires Inserting(before, keys, at, funcs, tweak, gen, perGen, k, n)
    requires forall q :: InRange(q, |data|) ==>
      LabelAt(data, q) == if q == at(n, tweak, k) then Tag(gen) else LabelAt(before, q)
    ensures Inserting(data, keys, at, funcs, tweak, gen, perGen, k, n + 1)
  {
    forall p | InRange(p, |data|)
      ensures HitsOf(at, n + 1, tweak)(k, p) <==> p == at(n, tweak, k) || HitsOf(at, n, tweak)(k, p)
    {
      if i :| 0 <= i < n && at(i, tweak, k) == p {
      }
    }
  }

  lemma InsertedLabels<K(!new)>(data: seq<Word>, keys: seq<K>, at: (nat, nat, K) -> Pos, funcs: nat,
                                tweak: nat, gen: nat, perGen: nat, k: K)
    requires perGen >= 1 && gen * perGen <= |keys| < gen * perGen + perGen
    requires Inserting(data, keys, at, funcs, tweak, gen, perGen, k, funcs)
    ensures LabelsOk(data, keys + [k], HitsOf(at, funcs, tweak), gen, perGen)
  {
    QuotientOf(gen, perGen, |keys| - gen * perGen);
    assert (keys + [k])[..|keys|] == keys;
  }
}
