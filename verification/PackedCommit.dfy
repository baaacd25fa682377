/**
 Committing a packed layout to the linker's own section lists, and what survives when the
 linker runs the pass again on lists it has already reordered.
 */
module PackedCommit {
  import opened Target
  import opened FixedWidth
  import opened LinkerObjects
  import opened PackedModel
  import opened Wrappers
  import opened PackedInvariants
  import opened PackedOrder
  import opened Sequences
  import opened PackedQuality
  import opened PackedSections

  datatype Config = Config(isV6Clang: bool, relocatable: bool)

  /** Whether the section is laid out normally, rejected with an error, or packed. */
  datatype PackOutcome = NormalLayout | Rejected | Packed

  function PackKind(name: string): Option<Kind> {
    if name == ".bss.pack.align" then Some(Anchor)
    else if name == ".bss.pack.window" then Some(Window)
    else if name == ".bss.pack" then Some(Filler)
    else None
  }

  predicate ValidSection(s: InputSection, kind: Kind) {
    && s.nobits
    && s.flags.alloc && s.flags.write
    && !(s.flags.execinstr || s.flags.tls || s.flags.merge || s.flags.strings || s.flags.linkOrder)
    && s.addralign == 1
    && s.size != 0
    && (kind.Window? ==> s.size <= PAGE64)
    && !s.hasRelocs
  }

  predicate IsPackSection(s: InputSection) {
    PackKind(s.name).Some?
  }

  ghost predicate AllPackSections(secs: seq<InputSection>) {
    forall i :: 0 <= i < |secs| ==> IsPackSection(secs[i])
  }

  ghost predicate AllValidSections(secs: seq<InputSection>)
    requires AllPackSections(secs)
  {
    forall i :: 0 <= i < |secs| ==> ValidSection(secs[i], PackKind(secs[i].name).value)
  }

  /** The position of the first entry for a section in the linker's input list. */
  function FirstIndex(inputs: seq<InputSection?>, s: InputSection): (i: nat)
    requires s in inputs
    ensures i < |inputs| && inputs[i] == s && s !in inputs[..i]
  {
    if inputs[0] == s then 0 else 1 + FirstIndex(inputs[1..], s)
  }

  /** A section missing from the list counts as number 0, like a failed map lookup. */
  function OriginalOrder(inputs: seq<InputSection?>, s: InputSection): nat {
    if s in inputs then FirstIndex(inputs, s) else 0
  }

  function BlockOf(inputs: seq<InputSection?>, s: InputSection): Block
    requires IsPackSection(s)
  {
    Block(PackKind(s.name).value, s.size as nat, OriginalOrder(inputs, s))
  }

  ghost function BlocksOf(inputs: seq<InputSection?>, secs: seq<InputSection>): (bs: seq<Block>)
    requires AllPackSections(secs)
    ensures |bs| == |secs| && forall i :: 0 <= i < |secs| ==> bs[i] == BlockOf(inputs, secs[i])
  {
    seq(|secs|, i requires 0 <= i < |secs| => BlockOf(inputs, secs[i]))
  }

  lemma ValidSectionsAreBlocks(inputs: seq<InputSection?>, secs: seq<InputSection>)
    requires AllPackSections(secs) && AllValidSections(secs)
    ensures ValidBlocks(BlocksOf(inputs, secs))
  {
    forall i | 0 <= i < |secs| ensures ValidBlock(BlocksOf(inputs, secs)[i]) {
      assert ValidSection(secs[i], PackKind(secs[i].name).value);
    }
  }

  // What a layout guarantees for the blocks as the caller numbers them.

  ghost predicate SafeLayout(start: nat, bs: seq<Block>, o: seq<nat>, end: nat)
    requires ValidBlocks(bs) && IsPermutation(o, |bs|) && InRange(o, |bs|)
  {
    && (forall i, j :: 0 <= i < |bs| && 0 <= j < |bs| && i != j ==>
         Disjoint(AddressOf(start, bs, o, i), bs[i].size, AddressOf(start, bs, o, j), bs[j].size))
    && (forall i :: 0 <= i < |bs| ==>
         && start <= AddressOf(start, bs, o, i)
         && AddressOf(start, bs, o, i) + bs[i].size <= end
         && KindRespected(bs[i], AddressOf(start, bs, o, i)))
  }

  /** Blocks do not overlap, lie inside the used space, and anchors and windows are where they must be. */
  lemma LayoutIsSafe(start: nat, bs: seq<Block>, o: seq<nat>)
    requires ValidBlocks(bs) && IsPermutation(o, |bs|) && InRange(o, |bs|)
    ensures SafeLayout(start, bs, o, Run(start, Pick(bs, o)).cursor)
  {
    hide Run;
    hide KindRespected;
    OrderKeepsValid(bs, o);
    var arranged := Pick(bs, o);
    RunPartition(start, arranged);
    RunRespectsKinds(start, arranged);
    forall i | 0 <= i < |bs|
      ensures start <= AddressOf(start, bs, o, i)
      ensures AddressOf(start, bs, o, i) + bs[i].size <= Run(start, arranged).cursor
      ensures KindRespected(bs[i], AddressOf(start, bs, o, i))
    {
      var k := PositionOf(o, |bs|, i);
      assert arranged[k] == bs[i];
    }
    forall i, j | 0 <= i < |bs| && 0 <= j < |bs| && i != j
      ensures Disjoint(AddressOf(start, bs, o, i), bs[i].size, AddressOf(start, bs, o, j), bs[j].size)
    {
      var k, l := PositionOf(o, |bs|, i), PositionOf(o, |bs|, j);
      assert arranged[k] == bs[i] && arranged[l] == bs[j] && k != l;
      assert BlocksApart(arranged, Run(start, arranged).addrs);
    }
  }

  /** If appending everything stays within the address space, the packed layout succeeds too. */
  lemma SucceedsWhenAppendingDoes(start: nat, bs: seq<Block>)
    requires ValidBlocks(bs) && AppendOnly(start, bs) <= ADDRESS_SPACE
    ensures Outcome(Run(start, bs).cursor) == Success
  {
    PackingNeverLoses(start, bs);
  }

  // Running the pass again on reordered lists.

  lemma FirstIndexInjective(inputs: seq<InputSection?>, s: InputSection, t: InputSection)
    requires s in inputs && t in inputs && s != t
    ensures OriginalOrder(inputs, s) != OriginalOrder(inputs, t)
  {
  }

  lemma DistinctSectionsDistinctOrders(inputs: seq<InputSection?>, secs: seq<InputSection>)
    requires AllPackSections(secs) && NoDuplicates(secs)
    requires forall i :: 0 <= i < |secs| ==> secs[i] in inputs
    ensures DistinctOrders(BlocksOf(inputs, secs))
  {
    forall i, j | 0 <= i < j < |secs|
      ensures BlocksOf(inputs, secs)[i].originalOrder != BlocksOf(inputs, secs)[j].originalOrder
    {
      FirstIndexInjective(inputs, secs[i], secs[j]);
    }
  }

  lemma BlocksWithout(inputs: seq<InputSection?>, secs: seq<InputSection>, k: nat)
    requires AllPackSections(secs) && k < |secs|
    ensures AllPackSections(Without(secs, k))
    ensures BlocksOf(inputs, Without(secs, k)) == Without(BlocksOf(inputs, secs), k)
  {
    hide BlockOf, IsPackSection;
  }

  lemma {:induction false} BlocksMultiset(inputs: seq<InputSection?>, secs: seq<InputSection>, secs': seq<InputSection>)
    requires AllPackSections(secs) && AllPackSections(secs') && multiset(secs) == multiset(secs')
    ensures multiset(BlocksOf(inputs, secs)) == multiset(BlocksOf(inputs, secs'))
  {
    if secs == [] {
      assert |multiset(secs')| == 0;
      assert secs' == [];
    } else {
      assert secs[0] in multiset(secs');
      var k :| 0 <= k < |secs'| && secs'[k] == secs[0];
      hide BlockOf, IsPackSection;
      RemoveSame(secs, 0, secs', k);
      BlocksWithout(inputs, secs, 0);
      BlocksWithout(inputs, secs', k);
      BlocksMultiset(inputs, Without(secs, 0), Without(secs', k));
      RemoveSame(BlocksOf(inputs, secs), 0, BlocksOf(inputs, secs'), k);
    }
  }

  /**
   A second run on lists that hold the same sections in any order puts every section where
   a fresh run would, at whatever address the second run starts.
   */
  lemma RerunIsFresh(inputs: seq<InputSection?>, start: nat,
                     secs: seq<InputSection>, o: seq<nat>, secs': seq<InputSection>, p: seq<nat>)
    requires AllPackSections(secs) && AllPackSections(secs') && AllValidSections(secs) && AllValidSections(secs')
    requires NoDuplicates(secs) && forall i :: 0 <= i < |secs| ==> secs[i] in inputs
    requires multiset(secs) == multiset(secs')
    requires IsOrder(BlocksOf(inputs, secs), o) && IsOrder(BlocksOf(inputs, secs'), p)
    ensures ValidBlocks(BlocksOf(inputs, secs)) && ValidBlocks(BlocksOf(inputs, secs'))
    ensures Run(start, Pick(BlocksOf(inputs, secs), o)).cursor == Run(start, Pick(BlocksOf(inputs, secs'), p)).cursor
    ensures forall i, j :: 0 <= i < |secs| && 0 <= j < |secs'| && secs[i] == secs'[j] ==>
              AddressOf(start, BlocksOf(inputs, secs), o, i) == AddressOf(start, BlocksOf(inputs, secs'), p, j)
  {
    hide Run;
    var bs, bs' := BlocksOf(inputs, secs), BlocksOf(inputs, secs');
    ValidSectionsAreBlocks(inputs, secs);
    ValidSectionsAreBlocks(inputs, secs');
    BlocksMultiset(inputs, secs, secs');
    DistinctSectionsDistinctOrders(inputs, secs);
    InputOrderIndependent(start, bs, o, bs', p);
    forall i, j | 0 <= i < |secs| && 0 <= j < |secs'| && secs[i] == secs'[j]
      ensures AddressOf(start, bs, o, i) == AddressOf(start, bs', p, j)
    {
      assert bs[i].originalOrder == bs'[j].originalOrder;
    }
  }

  // The pass over the linker's objects.

  function ByAddrThenOrder(lhs: PackBlock, rhs: PackBlock): bool {
    if lhs.addr != rhs.addr then lhs.addr < rhs.addr else lhs.originalOrder < rhs.originalOrder
  }

  /** The sections of the descriptions, in list order. */
  ghost function Gather(ds: seq<InputSectionDescription>): seq<InputSection>
    reads ds
  {
    if ds == [] then [] else Gather(ds[..|ds| - 1]) + ds[|ds| - 1].sections
  }

  lemma GatherFirstOnly(ds: seq<InputSectionDescription>, n: nat)
    requires 0 < n <= |ds| && forall k :: 1 <= k < n ==> ds[k].sections == []
    ensures Gather(ds[..n]) == ds[0].sections
  {
    assert ds[..n][..n - 1] == ds[..n - 1];
    if n == 1 {
      assert ds[..n][..0] == [];
    } else {
      GatherFirstOnly(ds, n - 1);
    }
  }

  /** The first position of every section of the input list; later entries do not replace it. */
  method OriginalOrders(inputs: seq<InputSection?>) returns (orders: map<InputSection, nat>)
    ensures NumbersSections(orders, inputs, |inputs|)
  {
    orders := map[];
    for i := 0 to |inputs|
      invariant NumbersSections(orders, inputs, i)
    {
      var s := inputs[i];
      if s != null && s !in orders {
        FirstIndexIs(inputs, s, i);
        orders := orders[s := i];
      }
    }
  }

  /** The map holds the first position of every section among the first `n` entries. */
  ghost predicate NumbersSections(orders: map<InputSection, nat>, inputs: seq<InputSection?>, n: nat)
    requires n <= |inputs|
  {
    && (forall s | s in orders :: s in inputs[..n] && s in inputs && orders[s] == FirstIndex(inputs, s))
    && (forall i :: 0 <= i < n && inputs[i] != null ==> inputs[i] in orders)
  }

  lemma FirstIndexIs(inputs: seq<InputSection?>, s: InputSection, i: nat)
    requires i < |inputs| && inputs[i] == s && s !in inputs[..i]
    ensures FirstIndex(inputs, s) == i
  {
  }

  ghost predicate Ascending(secs: seq<InputSection>)
    reads secs
  {
    forall i, j :: 0 <= i < j < |secs| ==> secs[i].outSecOff < secs[j].outSecOff
  }

  ghost predicate OffsetsAre(start: nat, bs: seq<Block>, order: seq<nat>, secs: seq<InputSection>)
    requires |bs| == |secs| && ValidBlocks(bs) && IsPermutation(order, |bs|) && InRange(order, |bs|)
    reads secs
  {
    forall i :: 0 <= i < |secs| ==> secs[i].outSecOff as int == AddressOf(start, bs, order, i) - start
  }

  /** What the allocator wrote into the array, block by block. */
  lemma WrittenAddresses(start: nat, before: seq<PackBlock>, after: seq<PackBlock>, order: seq<nat>)
    requires ValidBlocks(Specs(before)) && IsOrder(Specs(before), order)
    requires Written(before, after, order, Run(start, Pick(Specs(before), order)).addrs, |order|)
    ensures forall i :: 0 <= i < |before| ==>
              && after[i] == before[i].(addr := after[i].addr)
              && after[i].addr as nat == AddressOf(start, Specs(before), order, i)
  {
    hide Run;
    forall i | 0 <= i < |before|
      ensures after[i] == before[i].(addr := after[i].addr)
      ensures after[i].addr as nat == AddressOf(start, Specs(before), order, i)
    {
      var k := PositionOf(order, |before|, i);
      assert order[k] == i;
    }
  }

  /** Sorted by address, blocks that do not overlap and are not empty have rising addresses. */
  lemma SortedAddressesRise(layout: seq<PackBlock>, perm: seq<nat>)
    requires IsPermutation(perm, |layout|) && SortedIndexes(layout, perm, ByAddrThenOrder)
    requires forall i, j :: 0 <= i < |layout| && 0 <= j < |layout| && i != j ==>
               Disjoint(layout[i].addr as int, layout[i].size as int, layout[j].addr as int, layout[j].size as int)
    requires forall i :: 0 <= i < |layout| ==> layout[i].size != 0
    ensures forall k, l :: 0 <= k < l < |perm| ==> layout[perm[k]].addr < layout[perm[l]].addr
  {
    PermutationFacts(perm, |layout|);
    forall k, l | 0 <= k < l < |perm| ensures layout[perm[k]].addr < layout[perm[l]].addr {
      assert !ByAddrThenOrder(layout[perm[l]], layout[perm[k]]);
      assert perm[k] != perm[l];
    }
  }

  /** Writes the offsets and moves every section, in address order, to the first description. */
  method Commit(ds: seq<InputSectionDescription>, secs: seq<InputSection>, layout: seq<PackBlock>, perm: seq<nat>,
                startAddr: uint64)
    requires ds != [] && NoDuplicates(ds) && NoDuplicates(secs) && |layout| == |secs|
    requires IsPermutation(perm, |secs|)
    requires forall i :: 0 <= i < |layout| ==> startAddr <= layout[i].addr
    modifies ds, secs
    ensures InRange(perm, |secs|) && ds[0].sections == Pick(secs, perm)
    ensures forall k :: 1 <= k < |ds| ==> ds[k].sections == []
    ensures forall i :: 0 <= i < |secs| ==> secs[i].outSecOff == layout[i].addr - startAddr
  {
    PermutationFacts(perm, |secs|);
    ds[0].sections := [];
    for k := 0 to |perm|
      invariant ds[0].sections == Pick(secs, perm[..k])
      invariant forall j :: 0 <= j < k ==> secs[perm[j]].outSecOff == layout[perm[j]].addr - startAddr
    {
      assert perm[..k + 1] == perm[..k] + [perm[k]];
      secs[perm[k]].outSecOff := layout[perm[k]].addr - startAddr;
      ds[0].sections := ds[0].sections + [secs[perm[k]]];
    }
    assert perm[..|perm|] == perm;
    forall i | 0 <= i < |secs| ensures secs[i].outSecOff == layout[i].addr - startAddr {
      assert i in perm;
    }
    for k := 1 to |ds|
      invariant ds[0].sections == Pick(secs, perm)
      invariant forall j :: 1 <= j < k ==> ds[j].sections == []
      invariant forall i :: 0 <= i < |secs| ==> secs[i].outSecOff == layout[i].addr - startAddr
    {
      ds[k].sections := [];
    }
  }

  /** What a successful pass leaves behind. */
  ghost predicate Committed(ds: seq<InputSectionDescription>, secs: seq<InputSection>, bs: seq<Block>,
                            order: seq<nat>, start: nat)
    requires ds != [] && |bs| == |secs| && ValidBlocks(bs) && IsPermutation(order, |bs|) && InRange(order, |bs|)
    reads ds, secs
  {
    && OffsetsAre(start, bs, order, secs)
    && multiset(ds[0].sections) == multiset(secs)
    && (forall i :: 0 <= i < |ds[0].sections| ==> ds[0].sections[i] in secs)
    && Ascending(ds[0].sections)
    && Gather(ds) == ds[0].sections
  }

  /** Lays out sections that all have a packed name; nothing changes unless it succeeds. */
  method PackSections(ds: seq<InputSectionDescription>, secs: seq<InputSection>, inputs: seq<InputSection?>,
                      startAddr: uint64)
    returns (outcome: PackOutcome, endAddr: uint64, ghost order: seq<nat>)
    requires ds != [] && NoDuplicates(ds) && NoDuplicates(secs) && |inputs| < TWO64
    requires AllPackSections(secs)
    modifies ds, secs
    ensures outcome == Packed || outcome == Rejected
    ensures outcome == Rejected ==>
              && endAddr == startAddr
              && (forall d :: d in ds ==> d.sections == old(d.sections))
              && (forall s :: s in secs ==> s.outSecOff == old(s.outSecOff))
    ensures !AllValidSections(secs) || startAddr as nat > ADDRESS_SPACE ==> outcome == Rejected
    ensures AllValidSections(secs) && startAddr as nat <= ADDRESS_SPACE ==>
              && ValidBlocks(BlocksOf(inputs, secs)) && IsOrder(BlocksOf(inputs, secs), order)
              && var final := Run(startAddr as nat, Pick(BlocksOf(inputs, secs), order)).cursor;
              && (outcome == Packed <==> final <= ADDRESS_SPACE)
              && (outcome == Packed ==>
                   && endAddr as nat == final
                   && Committed(ds, secs, BlocksOf(inputs, secs), order, startAddr as nat))
  {
    endAddr, order := startAddr, [];
    var valid := true;
    for i := 0 to |secs|
      invariant valid <==> forall k :: 0 <= k < i ==> ValidSection(secs[k], PackKind(secs[k].name).value)
    {
      valid := valid && ValidSection(secs[i], PackKind(secs[i].name).value);
    }
    if !valid {
      return Rejected, endAddr, order;
    }
    var result, layout;
    result, endAddr, layout, order := LayOutSections(secs, inputs, startAddr);
    if !result.Success? {
      return Rejected, endAddr, order;
    }
    CommitSorted(ds, secs, layout, BlocksOf(inputs, secs), order, startAddr);
    outcome := Packed;
  }

  /** Runs the allocator on a fresh copy of the sections' sizes and kinds. */
  method LayOutSections(secs: seq<InputSection>, inputs: seq<InputSection?>, startAddr: uint64)
    returns (result: PackResult, endAddr: uint64, layout: seq<PackBlock>, ghost order: seq<nat>)
    requires AllPackSections(secs) && AllValidSections(secs) && |inputs| < TWO64
    ensures ValidBlocks(BlocksOf(inputs, secs)) && |layout| == |secs|
    ensures startAddr as nat > ADDRESS_SPACE ==> result == AddressSpaceOverflow
    ensures startAddr as nat <= ADDRESS_SPACE ==>
              && IsOrder(BlocksOf(inputs, secs), order)
              && var final := Run(startAddr as nat, Pick(BlocksOf(inputs, secs), order)).cursor;
              && (result.Success? <==> final <= ADDRESS_SPACE)
              && endAddr as nat == (if result.Success? then final else startAddr as nat)
    ensures !result.Success? ==> endAddr == startAddr
    ensures result.Success? ==> startAddr as nat <= ADDRESS_SPACE
    ensures result.Success? ==> LayoutOf(layout, startAddr as nat, BlocksOf(inputs, secs), order)
  {
    hide Run;
    ValidSectionsAreBlocks(inputs, secs);
    var orders := OriginalOrders(inputs);
    var blocks := new PackBlock[|secs|](i requires 0 <= i < |secs| => LayoutBlock(orders, inputs, secs[i]));
    ghost var before := blocks[..];
    assert Specs(before) == BlocksOf(inputs, secs);
    ghost var done;
    result, endAddr, order, done := AssignBlockAddresses(blocks, startAddr);
    layout := blocks[..];
    if result.Success? {
      WrittenAddresses(startAddr as nat, before, layout, order);
    }
  }

  /** The array holds the blocks with the addresses of the run. */
  ghost predicate LayoutOf(layout: seq<PackBlock>, start: nat, bs: seq<Block>, order: seq<nat>)
    requires ValidBlocks(bs) && IsPermutation(order, |bs|) && InRange(order, |bs|)
  {
    |layout| == |bs| && forall i :: 0 <= i < |bs| ==>
      Spec(layout[i]) == bs[i] && layout[i].addr as nat == AddressOf(start, bs, order, i)
  }

  method CommitSorted(ds: seq<InputSectionDescription>, secs: seq<InputSection>, layout: seq<PackBlock>,
                      ghost bs: seq<Block>, ghost order: seq<nat>, startAddr: uint64)
    requires ds != [] && NoDuplicates(ds) && NoDuplicates(secs)
    requires |bs| == |secs| && ValidBlocks(bs) && IsPermutation(order, |bs|) && InRange(order, |bs|)
    requires LayoutOf(layout, startAddr as nat, bs, order)
    modifies ds, secs
    ensures Committed(ds, secs, bs, order, startAddr as nat)
  {
    var indexes := Iota(|secs|);
    var perm := SortIndexes(layout, indexes, ByAddrThenOrder);
    LayoutRises(layout, startAddr as nat, bs, order, perm);
    Commit(ds, secs, layout, perm, startAddr);
    CommitMeans(ds, secs, layout, bs, order, perm, startAddr);
  }

  lemma LayoutRises(layout: seq<PackBlock>, start: nat, bs: seq<Block>, order: seq<nat>, perm: seq<nat>)
    requires ValidBlocks(bs) && IsPermutation(order, |bs|) && InRange(order, |bs|)
    requires LayoutOf(layout, start, bs, order)
    requires IsPermutation(perm, |bs|) && SortedIndexes(layout, perm, ByAddrThenOrder)
    ensures forall i :: 0 <= i < |layout| ==> start <= layout[i].addr as nat
    ensures forall k, l :: 0 <= k < l < |perm| ==> layout[perm[k]].addr < layout[perm[l]].addr
  {
    hide Run, AddressOf, KindRespected;
    LayoutIsSafe(start, bs, order);
    forall i | 0 <= i < |bs| ensures layout[i].size as nat == bs[i].size && layout[i].size != 0 {
      assert Spec(layout[i]) == bs[i] && ValidBlock(bs[i]);
    }
    SortedAddressesRise(layout, perm);
  }

  lemma CommitMeans(ds: seq<InputSectionDescription>, secs: seq<InputSection>, layout: seq<PackBlock>,
                    bs: seq<Block>, order: seq<nat>, perm: seq<nat>, startAddr: uint64)
    requires ds != [] && |bs| == |secs| && ValidBlocks(bs) && IsPermutation(order, |bs|) && InRange(order, |bs|)
    requires LayoutOf(layout, startAddr as nat, bs, order) && IsPermutation(perm, |secs|) && InRange(perm, |secs|)
    requires forall k, l :: 0 <= k < l < |perm| ==> layout[perm[k]].addr < layout[perm[l]].addr
    requires forall i :: 0 <= i < |layout| ==> startAddr <= layout[i].addr
    requires ds[0].sections == Pick(secs, perm) && forall k :: 1 <= k < |ds| ==> ds[k].sections == []
    requires forall i :: 0 <= i < |secs| ==> secs[i].outSecOff == layout[i].addr - startAddr
    ensures Committed(ds, secs, bs, order, startAddr as nat)
  {
    hide Run, AddressOf, ValidBlock, Pick, Ascending, IsPermutation, Gather;
    GatherFirstOnly(ds, |ds|);
    assert ds[..|ds|] == ds;
    PickedSections(secs, perm);
    PickedAscend(secs, layout, perm, startAddr);
    OffsetsFollow(secs, layout, bs, order, startAddr);
  }

  lemma PickedSections(secs: seq<InputSection>, perm: seq<nat>)
    requires IsPermutation(perm, |secs|) && InRange(perm, |secs|)
    ensures multiset(Pick(secs, perm)) == multiset(secs)
    ensures forall i :: 0 <= i < |Pick(secs, perm)| ==> Pick(secs, perm)[i] in secs
  {
    PickMultiset(secs, perm, Iota(|secs|));
    assert Pick(secs, Iota(|secs|)) == secs;
    PickedAreListed(secs, perm);
  }

  lemma PickedAscend(secs: seq<InputSection>, layout: seq<PackBlock>, perm: seq<nat>, startAddr: uint64)
    requires |layout| == |secs| && InRange(perm, |secs|)
    requires forall k, l :: 0 <= k < l < |perm| ==> layout[perm[k]].addr < layout[perm[l]].addr
    requires forall i :: 0 <= i < |layout| ==> startAddr <= layout[i].addr
    requires forall i :: 0 <= i < |secs| ==> secs[i].outSecOff == layout[i].addr - startAddr
    ensures Ascending(Pick(secs, perm))
  {
  }

  lemma OffsetsFollow(secs: seq<InputSection>, layout: seq<PackBlock>, bs: seq<Block>, order: seq<nat>,
                      startAddr: uint64)
    requires |bs| == |secs| && ValidBlocks(bs) && IsPermutation(order, |bs|) && InRange(order, |bs|)
    requires LayoutOf(layout, startAddr as nat, bs, order)
    requires forall i :: 0 <= i < |layout| ==> startAddr <= layout[i].addr
    requires forall i :: 0 <= i < |secs| ==> secs[i].outSecOff == layout[i].addr - startAddr
    ensures OffsetsAre(startAddr as nat, bs, order, secs)
  {
    hide AddressOf, ValidBlock, IsPermutation;
  }

  function LayoutBlock(orders: map<InputSection, nat>, inputs: seq<InputSection?>, s: InputSection): (b: PackBlock)
    requires IsPackSection(s) && |inputs| < TWO64
    requires NumbersSections(orders, inputs, |inputs|)
    ensures Spec(b) == BlockOf(inputs, s)
  {
    PackBlock(PackKind(s.name).value, s.size, if s in orders then orders[s] as uint64 else 0, 0)
  }

  /** The input section descriptions among the commands of an output section. */
  function DescriptionsOf(commands: seq<SectionCommand>): seq<InputSectionDescription> {
    if commands == [] then []
    else
      var init, last := DescriptionsOf(commands[..|commands| - 1]), commands[|commands| - 1];
      if last.Description? then init + [last.description] else init
  }

  /** When the pass takes over; otherwise the linker lays the section out as usual. */
  ghost predicate Applicable(cfg: Config, name: string, commands: seq<SectionCommand>, secs: seq<InputSection>) {
    && cfg.isV6Clang && !cfg.relocatable && name == ".bss.pack"
    && (forall c :: c in commands ==> c.Description?)
    && secs != [] && AllPackSections(secs)
  }

  /** The commands read so far are all descriptions; their sections are gathered in order. */
  method GatherSections(commands: seq<SectionCommand>)
    returns (ok: bool, ds: seq<InputSectionDescription>, secs: seq<InputSection>)
    ensures ok <==> forall c :: c in commands ==> c.Description?
    ensures ok ==> ds == DescriptionsOf(commands) && secs == Gather(ds)
    ensures secs != [] ==> ds != []
  {
    ds, secs := [], [];
    for i := 0 to |commands|
      invariant forall c :: c in commands[..i] ==> c.Description?
      invariant ds == DescriptionsOf(commands[..i]) && secs == Gather(ds)
    {
      assert commands[..i + 1][..i] == commands[..i];
      if !commands[i].Description? {
        assert commands[i] in commands;
        return false, ds, secs;
      }
      var d := commands[i].description;
      assert (ds + [d])[..|ds|] == ds;
      ds, secs := ds + [d], secs + d.sections;
    }
    assert commands[..|commands|] == commands;
    return true, ds, secs;
  }

  /**
   The pass over one output section. It declines exactly when it is not applicable, changes
   nothing unless it succeeds, and on success has put every section at the address of the
   unbounded run and all of them, in rising order, into the first list.
   */
  method AssignSectionOffsets(cfg: Config, name: string, commands: seq<SectionCommand>, inputs: seq<InputSection?>,
                              startAddr: uint64, ghost ds: seq<InputSectionDescription>, ghost secs: seq<InputSection>)
    returns (outcome: PackOutcome, endAddr: uint64, ghost order: seq<nat>)
    requires ds == DescriptionsOf(commands) && secs == Gather(ds)
    // every input section has one parent, so it stands once in one list
    requires NoDuplicates(ds) && NoDuplicates(secs) && |inputs| < TWO64
    modifies ds, secs
    ensures outcome == NormalLayout <==> !Applicable(cfg, name, commands, secs)
    ensures outcome != Packed ==>
              && endAddr == startAddr
              && (forall d :: d in ds ==> d.sections == old(d.sections))
              && (forall s :: s in secs ==> s.outSecOff == old(s.outSecOff))
    ensures outcome == Packed ==> ds != [] && AllValidSections(secs) && startAddr as nat <= ADDRESS_SPACE
    ensures Applicable(cfg, name, commands, secs) && AllValidSections(secs) && startAddr as nat <= ADDRESS_SPACE ==>
              && ValidBlocks(BlocksOf(inputs, secs)) && IsOrder(BlocksOf(inputs, secs), order)
              && var final := Run(startAddr as nat, Pick(BlocksOf(inputs, secs), order)).cursor;
              && (outcome == Packed <==> final <= ADDRESS_SPACE)
              && (outcome == Packed ==>
                   && endAddr as nat == final
                   && ds != []
                   && Committed(ds, secs, BlocksOf(inputs, secs), order, startAddr as nat))
  {
    hide Run, Committed, IsOrder, Gather, DescriptionsOf, AllValidSections, ValidBlocks;
    endAddr, order := startAddr, [];
    if !cfg.isV6Clang || cfg.relocatable || name != ".bss.pack" {
      return NormalLayout, endAddr, order;
    }
    var ok, descriptions, sections := GatherSections(commands);
    if !ok || sections == [] {
      return NormalLayout, endAddr, order;
    }
    for i := 0 to |sections|
      invariant forall k :: 0 <= k < i ==> IsPackSection(sections[k])
    {
      if PackKind(sections[i].name).None? {
        return NormalLayout, endAddr, order;
      }
    }
    outcome, endAddr, order := PackSections(descriptions, sections, inputs, startAddr);
  }

  // The pass run twice.

  lemma PermutedSections(secs: seq<InputSection>, secs': seq<InputSection>)
    requires AllPackSections(secs) && AllValidSections(secs) && NoDuplicates(secs) && multiset(secs) == multiset(secs')
    ensures AllPackSections(secs') && AllValidSections(secs') && NoDuplicates(secs') && |secs| == |secs'|
    ensures forall i :: 0 <= i < |secs| ==> secs[i] in secs'
  {
    SameMultisetNoDuplicates(secs, secs');
    SameLength(secs, secs');
    forall i | 0 <= i < |secs'|
      ensures IsPackSection(secs'[i]) && ValidSection(secs'[i], PackKind(secs'[i].name).value)
    {
      assert secs'[i] in multiset(secs);
      var k :| 0 <= k < |secs| && secs[k] == secs'[i];
    }
    forall i | 0 <= i < |secs| ensures secs[i] in secs' {
      assert secs[i] in multiset(secs');
    }
  }

  /** The offsets of a run over permuted sections are those of a fresh run. */
  lemma OffsetsAreFresh(inputs: seq<InputSection?>, start: nat,
                        secs: seq<InputSection>, o: seq<nat>, secs': seq<InputSection>, p: seq<nat>)
    requires AllPackSections(secs) && AllPackSections(secs') && AllValidSections(secs) && AllValidSections(secs')
    requires NoDuplicates(secs) && forall i :: 0 <= i < |secs| ==> secs[i] in inputs && secs[i] in secs'
    requires multiset(secs) == multiset(secs')
    requires IsOrder(BlocksOf(inputs, secs), o) && IsOrder(BlocksOf(inputs, secs'), p)
    requires ValidBlocks(BlocksOf(inputs, secs')) && OffsetsAre(start, BlocksOf(inputs, secs'), p, secs')
    ensures ValidBlocks(BlocksOf(inputs, secs)) && OffsetsAre(start, BlocksOf(inputs, secs), o, secs)
    ensures Run(start, Pick(BlocksOf(inputs, secs), o)).cursor == Run(start, Pick(BlocksOf(inputs, secs'), p)).cursor
  {
    hide Run, AddressOf, BlocksOf, ValidBlocks, IsPermutation;
    RerunIsFresh(inputs, start, secs, o, secs', p);
    forall i | 0 <= i < |secs|
      ensures secs[i].outSecOff as int == AddressOf(start, BlocksOf(inputs, secs), o, i) - start
    {
      var j :| 0 <= j < |secs'| && secs'[j] == secs[i];
    }
  }

  /**
   What the linker does when it lays a packed section out again, at another start: the second
   pass works on the lists the first has reordered, accepts them exactly when a fresh pass
   would, and puts every section where a fresh pass would.
   */
  method PackTwice(cfg: Config, name: string, commands: seq<SectionCommand>, inputs: seq<InputSection?>,
                   first: uint64, second: uint64, ghost ds: seq<InputSectionDescription>, ghost secs: seq<InputSection>)
    returns (outcome: PackOutcome, again: PackOutcome, end: uint64, ghost order: seq<nat>)
    requires ds == DescriptionsOf(commands) && secs == Gather(ds)
    requires NoDuplicates(ds) && NoDuplicates(secs) && |inputs| < TWO64
    requires forall i :: 0 <= i < |secs| ==> secs[i] in inputs
    modifies ds, secs
    ensures outcome == Packed ==>
              && ds != [] && AllPackSections(secs) && again != NormalLayout
              && ValidBlocks(BlocksOf(inputs, secs)) && IsOrder(BlocksOf(inputs, secs), order)
              && var freshEnd := Run(second as nat, Pick(BlocksOf(inputs, secs), order)).cursor;
              && (again == Packed <==> second as nat <= ADDRESS_SPACE && freshEnd <= ADDRESS_SPACE)
              && (again == Packed ==>
                   && end as nat == freshEnd
                   && OffsetsAre(second as nat, BlocksOf(inputs, secs), order, secs))
              && (again == Rejected ==> OffsetsAre(first as nat, BlocksOf(inputs, secs), order, secs))
  {
    hide Run, IsOrder, Committed, OffsetsAre, DescriptionsOf, Gather, AllValidSections, ValidBlocks, BlocksOf;
    hide NoDuplicates;
    outcome, end, order := AssignSectionOffsets(cfg, name, commands, inputs, first, ds, secs);
    again := outcome;
    if outcome == Packed {
      again, end := PackAgain(cfg, name, commands, inputs, first, second, ds, secs, order);
    }
  }

  /** What a committed layout says about the lists. */
  lemma CommittedLists(ds: seq<InputSectionDescription>, secs: seq<InputSection>, bs: seq<Block>, order: seq<nat>,
                       start: nat)
    requires ds != [] && |bs| == |secs| && ValidBlocks(bs) && IsPermutation(order, |bs|) && InRange(order, |bs|)
    requires Committed(ds, secs, bs, order, start)
    ensures multiset(Gather(ds)) == multiset(secs) && OffsetsAre(start, bs, order, secs)
    ensures forall i :: 0 <= i < |Gather(ds)| ==> Gather(ds)[i] in secs
  {
  }

  /** The second pass. */
  method PackAgain(cfg: Config, name: string, commands: seq<SectionCommand>, inputs: seq<InputSection?>,
                   ghost first: uint64, second: uint64, ghost ds: seq<InputSectionDescription>,
                   ghost secs: seq<InputSection>, ghost order: seq<nat>)
    returns (again: PackOutcome, end: uint64)
    requires ds == DescriptionsOf(commands) && ds != [] && NoDuplicates(ds) && NoDuplicates(secs) && |inputs| < TWO64
    requires forall i :: 0 <= i < |secs| ==> secs[i] in inputs
    requires Applicable(cfg, name, commands, secs) && AllValidSections(secs)
    requires ValidBlocks(BlocksOf(inputs, secs)) && IsOrder(BlocksOf(inputs, secs), order)
    requires Committed(ds, secs, BlocksOf(inputs, secs), order, first as nat)
    modifies ds, secs
    ensures again != NormalLayout
    ensures var freshEnd := Run(second as nat, Pick(BlocksOf(inputs, secs), order)).cursor;
            && (again == Packed <==> second as nat <= ADDRESS_SPACE && freshEnd <= ADDRESS_SPACE)
            && (again == Packed ==>
                 end as nat == freshEnd && OffsetsAre(second as nat, BlocksOf(inputs, secs), order, secs))
            && (again == Rejected ==> OffsetsAre(first as nat, BlocksOf(inputs, secs), order, secs))
  {
    hide Run, Committed, AddressOf, DescriptionsOf, Gather, AllValidSections, ValidBlocks, BlocksOf, NoDuplicates;
    CommittedLists(ds, secs, BlocksOf(inputs, secs), order, first as nat);
    ghost var secs' := Gather(ds);
    PermutedSections(secs, secs');
    ghost var p;
    again, end, p := AssignSectionOffsets(cfg, name, commands, inputs, second, ds, secs');
    if second <= 0x10000 {
      FreshEnd(inputs, second as nat, secs, order, secs', p);
    }
    if again == Packed {
      CommittedLists(ds, secs', BlocksOf(inputs, secs'), p, second as nat);
      OffsetsAreFresh(inputs, second as nat, secs, order, secs', p);
    } else {
      forall i | 0 <= i < |secs| ensures secs[i].outSecOff == old(secs[i].outSecOff) {
        assert secs[i] in secs';
      }
    }
  }

  lemma FreshEnd(inputs: seq<InputSection?>, start: nat,
                 secs: seq<InputSection>, o: seq<nat>, secs': seq<InputSection>, p: seq<nat>)
    requires AllPackSections(secs) && AllPackSections(secs') && multiset(secs) == multiset(secs')
    requires IsOrder(BlocksOf(inputs, secs), o) && IsOrder(BlocksOf(inputs, secs'), p)
    ensures Run(start, Pick(BlocksOf(inputs, secs), o)).cursor == Run(start, Pick(BlocksOf(inputs, secs'), p)).cursor
  {
    hide Run, BlocksOf;
    BlocksMultiset(inputs, secs, secs');
    SameOrderedBlocks(BlocksOf(inputs, secs), o, BlocksOf(inputs, secs'), p);
  }

  /** The sections of a packed output section at `addr` with its last byte below `end`. */
  ghost predicate SectionsSafe(addr: nat, secs: seq<InputSection>, end: nat)
    requires AllPackSections(secs)
    reads secs
  {
    && end <= ADDRESS_SPACE
    && (forall i, j :: 0 <= i < |secs| && 0 <= j < |secs| && i != j ==>
         Disjoint(secs[i].outSecOff as int, secs[i].size as int, secs[j].outSecOff as int, secs[j].size as int))
    && (forall i :: 0 <= i < |secs| ==>
         && addr + secs[i].outSecOff as nat + secs[i].size as nat <= end
         && KindRespected(BlockOf([], secs[i]), addr + secs[i].outSecOff as nat))
  }

  /** After a commit the sections themselves lie apart, in bounds, and in the pages they need. */
  lemma CommittedIsSafe(ds: seq<InputSectionDescription>, secs: seq<InputSection>, inputs: seq<InputSection?>,
                        order: seq<nat>, start: nat)
    requires ds != [] && AllPackSections(secs)
    requires ValidBlocks(BlocksOf(inputs, secs)) && IsOrder(BlocksOf(inputs, secs), order)
    requires Committed(ds, secs, BlocksOf(inputs, secs), order, start)
    requires Run(start, Pick(BlocksOf(inputs, secs), order)).cursor <= ADDRESS_SPACE
    ensures SectionsSafe(start, secs, Run(start, Pick(BlocksOf(inputs, secs), order)).cursor)
  {
    hide Run, AddressOf, IsPermutation, FitsWindow;
    var bs := BlocksOf(inputs, secs);
    LayoutIsSafe(start, bs, order);
    forall i | 0 <= i < |secs|
      ensures secs[i].outSecOff as int == AddressOf(start, bs, order, i) - start && bs[i].size == secs[i].size as nat
      ensures KindRespected(BlockOf([], secs[i]), start + secs[i].outSecOff as nat)
    {
      assert KindRespected(bs[i], AddressOf(start, bs, order, i));
      assert bs[i] == BlockOf(inputs, secs[i]);
    }
  }
}
