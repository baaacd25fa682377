/**
 The sorted order of the blocks is unique as a sequence of blocks, so the layout does not
 depend on the order in which the blocks arrive or on the sorting algorithm.
 */
module PackedOrder {
  import opened Sequences
  import opened Sorting
  import opened PackedModel
  import opened PackedInvariants

  /** `o` lists the blocks in the order in which the allocator handles them. */
  ghost predicate IsOrder(bs: seq<Block>, o: seq<nat>) {
    IsPermutation(o, |bs|) && InRange(o, |bs|) && Sorted(Pick(bs, o))
  }

  lemma OrderKeepsBlocks(bs: seq<Block>, o: seq<nat>)
    requires IsOrder(bs, o)
    ensures multiset(Pick(bs, o)) == multiset(bs)
  {
    PickMultiset(bs, o, Iota(|bs|));
    assert Pick(bs, Iota(|bs|)) == bs;
  }

  /** The layout order is total: of two different blocks exactly one goes first. */
  lemma BeforeIsTotal(a: Block, b: Block)
    ensures a != b ==> (Before(a, b) <==> !Before(b, a))
  {
  }

  /** Two sorted sequences with the same blocks are the same sequence. */
  lemma SortedUnique(s: seq<Block>, t: seq<Block>)
    requires multiset(s) == multiset(t) && Sorted(s) && Sorted(t)
    ensures s == t
  {
    var before := (a: Block, b: Block) => !Before(b, a);
    forall a, b | a in multiset(s) && b in multiset(s) && a != b ensures before(a, b) <==> !before(b, a) {
      BeforeIsTotal(a, b);
    }
    OrderedIsUnique(s, t, before);
  }

  lemma SameOrderedBlocks(bs: seq<Block>, o: seq<nat>, cs: seq<Block>, p: seq<nat>)
    requires multiset(bs) == multiset(cs) && IsOrder(bs, o) && IsOrder(cs, p)
    ensures Pick(bs, o) == Pick(cs, p)
  {
    OrderKeepsBlocks(bs, o);
    OrderKeepsBlocks(cs, p);
    SortedUnique(Pick(bs, o), Pick(cs, p));
  }

  /** The address the run in order `o` gives to block `i`. */
  ghost function AddressOf(start: nat, bs: seq<Block>, o: seq<nat>, i: nat): nat
    requires ValidBlocks(bs) && IsPermutation(o, |bs|) && InRange(o, |bs|) && i < |bs|
  {
    OrderKeepsValid(bs, o);
    RunHoles(start, Pick(bs, o));
    Run(start, Pick(bs, o)).addrs[PositionOf(o, |bs|, i)]
  }

  lemma OrderKeepsValid(bs: seq<Block>, o: seq<nat>)
    requires ValidBlocks(bs) && InRange(o, |bs|)
    ensures ValidBlocks(Pick(bs, o))
  {
  }

  /**
   Input-order independence: when the same blocks arrive in another order, and whatever the
   sort does with ties, the layout ends at the same address and, original orders being
   distinct, every block gets the same address.
   */
  lemma InputOrderIndependent(start: nat, bs: seq<Block>, o: seq<nat>, cs: seq<Block>, p: seq<nat>)
    requires ValidBlocks(bs) && ValidBlocks(cs) && multiset(bs) == multiset(cs)
    requires IsOrder(bs, o) && IsOrder(cs, p)
    ensures Run(start, Pick(bs, o)) == Run(start, Pick(cs, p))
    ensures DistinctOrders(bs) ==>
              forall i, j :: 0 <= i < |bs| && 0 <= j < |cs| && bs[i].originalOrder == cs[j].originalOrder ==>
                bs[i] == cs[j] && AddressOf(start, bs, o, i) == AddressOf(start, cs, p, j)
  {
    SameOrderedBlocks(bs, o, cs, p);
    if DistinctOrders(bs) {
      forall i, j | 0 <= i < |bs| && 0 <= j < |cs| && bs[i].originalOrder == cs[j].originalOrder
        ensures bs[i] == cs[j] && AddressOf(start, bs, o, i) == AddressOf(start, cs, p, j)
      {
        SamePosition(bs, o, cs, p, i, j);
      }
    }
  }

  lemma SamePosition(bs: seq<Block>, o: seq<nat>, cs: seq<Block>, p: seq<nat>, i: nat, j: nat)
    requires DistinctOrders(bs) && IsPermutation(o, |bs|) && IsPermutation(p, |cs|)
    requires InRange(o, |bs|) && InRange(p, |cs|) && Pick(bs, o) == Pick(cs, p)
    requires i < |bs| && j < |cs| && bs[i].originalOrder == cs[j].originalOrder
    ensures bs[i] == cs[j] && PositionOf(o, |bs|, i) == PositionOf(p, |cs|, j)
  {
    PermutationFacts(o, |bs|);
    var k, l := PositionOf(o, |bs|, i), PositionOf(p, |cs|, j);
    PermutationFacts(p, |cs|);
    assert Pick(bs, o)[l] == Pick(cs, p)[l] == cs[j];
    assert bs[o[l]].originalOrder == bs[o[k]].originalOrder;
    assert o[l] == o[k];
  }
}
