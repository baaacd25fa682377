/**
 The allocator as the linker runs it: 64-bit checked arithmetic, a list of holes that is
 erased from and pushed to, and addresses written into the caller's array. It is proved
 against the unbounded model in PackedModel.
 */
module PackedSections {
  import opened Target
  import opened FixedWidth
  import opened PackedModel
  import opened Wrappers
  import opened PackedInvariants
  import opened PackedOrder
  import opened Sequences
  import opened Sorting

  const PAGE64: uint64 := 0x100

  datatype PackBlock = PackBlock(kind: Kind, size: uint64, originalOrder: uint64, addr: uint64)

  datatype PackHole = PackHole(begin: uint64, end: uint64)

  datatype PackResult = Success | InvalidBlock | AddressOverflow | AddressSpaceOverflow

  function Spec(b: PackBlock): Block {
    Block(b.kind, b.size as nat, b.originalOrder as nat)
  }

  function Specs(bs: seq<PackBlock>): (r: seq<Block>)
    ensures |r| == |bs|
    ensures forall i :: 0 <= i < |bs| ==> r[i] == Spec(bs[i])
  {
    seq(|bs|, i requires 0 <= i < |bs| => Spec(bs[i]))
  }

  function CheckedAdd(lhs: uint64, rhs: uint64): (r: Option<uint64>)
    ensures r.Some? <==> lhs as nat + rhs as nat < TWO64
    ensures r.Some? ==> r.value as nat == lhs as nat + rhs as nat
  {
    if rhs > MAX64 - lhs then None else Some(lhs + rhs)
  }

  /** Clearing the low eight bits of the biased value is the same as taking off its remainder. */
  function AlignUp(value: uint64): (r: Option<uint64>)
    ensures r.Some? <==> AlignToPage(value as nat) < TWO64
    ensures r.Some? ==> r.value as nat == AlignToPage(value as nat)
  {
    AlignFacts(value as nat);
    match CheckedAdd(value, PAGE64 - 1)
    case None => None
    case Some(biased) => Some(biased - biased % PAGE64)
  }

  predicate FitsInPage(addr: uint64, size: uint64)
    ensures FitsInPage(addr, size) <==> FitsWindow(addr as nat, size as nat)
  {
    size <= PAGE64 && addr % PAGE64 + size <= PAGE64
  }

  function SpecHole(h: PackHole): Hole {
    Hole(h.begin as nat, h.end as nat)
  }

  function HoleSet(hs: seq<PackHole>): set<Hole> {
    set h | h in hs :: SpecHole(h)
  }

  /** Where a block starts in a hole, if it fits; a window may have to move to a page boundary. */
  function StartInHole(hole: PackHole, size: uint64, window: bool, ghost b: Block): (r: Option<uint64>)
    requires b.size == size as nat && window == b.kind.Window?
    ensures r.Some? <==> Candidate(SpecHole(hole), b).Some?
    ensures r.Some? ==> hole.begin <= hole.end && Candidate(SpecHole(hole), b) == Some(r.value as nat)
  {
    AlignFacts(hole.begin as nat);
    var addr := if window && !FitsInPage(hole.begin, size) then AlignUp(hole.begin) else Some(hole.begin);
    match addr
    case None => None
    case Some(a) => if a > hole.end || size > hole.end - a then None else Some(a)
  }

  predicate ValidPackBlock(b: PackBlock) {
    b.size != 0 && (b.kind.Window? ==> b.size <= PAGE64)
  }

  /** The holes and the cursor that the passes share, with the array they write to. */
  class Packer {
    const blocks: array<PackBlock>
    var holes: seq<PackHole>
    var cursor: uint64
    ghost const start: nat
    ghost const initial: seq<PackBlock>
    ghost const order: seq<nat>      // the indices in the order in which they are handled
    ghost const sequence: seq<Block> // the blocks in that order
    ghost const position: seq<nat>   // where each index stands in that order
    ghost var placed: seq<nat>       // the addresses given so far, in that order

    constructor (blocks: array<PackBlock>, startAddr: uint64, ghost order: seq<nat>)
      requires forall i :: 0 <= i < blocks.Length ==> ValidPackBlock(blocks[i])
      requires IsPermutation(order, blocks.Length)
      ensures OnTrack() && this.blocks == blocks && this.order == order && initial == blocks[..]
      ensures sequence == Pick(Specs(blocks[..]), order)
      ensures start == startAddr as nat && placed == []
    {
      this.blocks := blocks;
      holes := [];
      cursor := startAddr;
      start := startAddr as nat;
      initial := blocks[..];
      this.order := order;
      PermutationFacts(order, blocks.Length);
      sequence := Pick(Specs(blocks[..]), order);
      position := seq(blocks.Length, i requires 0 <= i < blocks.Length => PositionOf(order, blocks.Length, i));
      placed := [];
    }

    /** Handled blocks differ from the initial ones in their address only, the others not at all. */
    ghost predicate BlocksValid()
      reads this`placed, blocks
    {
      && blocks.Length == |initial| == |position| && |placed| <= |order| == |sequence|
      && (forall i :: 0 <= i < |initial| ==> ValidPackBlock(initial[i]))
      && (forall k :: 0 <= k < |order| ==>
           order[k] < |initial| && position[order[k]] == k && sequence[k] == Spec(initial[order[k]]))
      && (forall k :: 0 <= k < |placed| ==>
           && blocks[order[k]] == initial[order[k]].(addr := blocks[order[k]].addr)
           && placed[k] == blocks[order[k]].addr as nat)
      && (forall k :: |placed| <= k < |order| ==> blocks[order[k]] == initial[order[k]])
    }

    ghost predicate Valid()
      reads this, blocks
    {
      BlocksValid() && NoDuplicates(holes) && HolesArePageTails(start, View())
    }

    ghost function View(): State
      reads this
    {
      State(HoleSet(holes), cursor as nat, placed)
    }

    /** `index` is the next block to be handled. */
    ghost predicate IsNext(index: nat)
      reads this`placed, blocks
    {
      BlocksValid() && |placed| < |order| && order[|placed|] == index
    }

    method AddHole(begin: uint64, end: uint64)
      requires NoDuplicates(holes) && (begin < end ==> PackHole(begin, end) !in holes)
      modifies this`holes
      ensures NoDuplicates(holes)
      ensures HoleSet(holes) == PackedModel.AddHole(old(HoleSet(holes)), begin as nat, end as nat)
    {
      if begin < end {
        HoleSetPush(holes, PackHole(begin, end));
        holes := holes + [PackHole(begin, end)];
      }
    }

    /** The scan for the smallest hole that can take a block; |holes| stands for "none". */
    method FindBestHole(size: uint64, window: bool, ghost b: Block) returns (best: nat, bestAddr: uint64)
      requires Valid() && ValidBlock(b) && b.size == size as nat && window == b.kind.Window?
      ensures best <= |holes|
      ensures best == |holes| ==> !exists h :: Best(HoleSet(holes), b, h)
      ensures best < |holes| ==>
                && Best(HoleSet(holes), b, SpecHole(holes[best]))
                && Candidate(SpecHole(holes[best]), b) == Some(bestAddr as nat)
    {
      best, bestAddr := |holes|, 0;
      var bestSize := MAX64;
      var i := 0;
      while i != |holes|
        invariant 0 <= i <= |holes|
        invariant best == |holes| || best < i
        invariant best == |holes| ==> bestSize == MAX64
        invariant best == |holes| ==> forall k :: 0 <= k < i ==> Candidate(SpecHole(holes[k]), b).None?
        invariant best < |holes| ==> bestSize as nat == SpecHole(holes[best]).end - SpecHole(holes[best]).begin
        invariant best < |holes| ==> Candidate(SpecHole(holes[best]), b) == Some(bestAddr as nat)
        invariant best < |holes| ==>
                    forall k :: 0 <= k < i && k != best && Candidate(SpecHole(holes[k]), b).Some? ==>
                                  Better(SpecHole(holes[best]), SpecHole(holes[k]))
      {
        assert SpecHole(holes[i]) in View().holes;
        var hole := holes[i];
        var addr := StartInHole(hole, size, window, b);
        if addr.Some? {
          var holeSize := hole.end - hole.begin;
          if holeSize < bestSize || (holeSize == bestSize && hole.begin < holes[best].begin) {
            best, bestAddr, bestSize := i, addr.value, holeSize;
          } else {
            assert holes[i] != holes[best];
          }
        }
        i := i + 1;
      }
    }

    /**
     Best fit. The block goes into the smallest hole that can take it, the lowest one of
     that size, wherever that hole stands in the list; the answer is no exactly when no
     hole can take it.
     */
    method PlaceInBestHole(index: nat, window: bool) returns (placedInHole: bool)
      requires Valid() && IsNext(index) && window == blocks[index].kind.Window? && !blocks[index].kind.Anchor?
      modifies this`holes, this`placed, blocks
      ensures Valid()
      ensures placedInHole <==> exists h :: Best(old(View()).holes, old(Spec(blocks[index])), h)
      ensures placedInHole ==> |placed| == old(|placed|) + 1 && View() == Step(old(View()), old(Spec(blocks[index])))
      ensures !placedInHole ==> View() == old(View()) && blocks[..] == old(blocks[..])
    {
      hide Step, Candidate;
      ghost var b, st := Spec(blocks[index]), View();
      var best, bestAddr := FindBestHole(blocks[index].size, window, b);
      if best == |holes| {
        return false;
      }
      ghost var h := SpecHole(holes[best]);
      StepIntoBest(start, st, b, h);
      SplitHole(best, bestAddr, bestAddr + blocks[index].size);
      SetAddr(index, bestAddr);
      return true;
    }

    /** Writes the address of the next block. */
    method SetAddr(index: nat, addr: uint64)
      requires IsNext(index)
      modifies this`placed, blocks
      ensures BlocksValid() && placed == old(placed) + [addr as nat]
    {
      blocks[index] := blocks[index].(addr := addr);
      placed := placed + [addr as nat];
    }

    /** Takes hole `k` out of the list and pushes what lies before and after the block. */
    method SplitHole(k: nat, blockAddr: uint64, blockEnd: uint64)
      requires NoDuplicates(holes) && HolesArePageTails(start, State(HoleSet(holes), cursor as nat, []))
      requires k < |holes| && blockAddr == holes[k].begin && holes[k].begin < blockEnd
      modifies this`holes
      ensures NoDuplicates(holes)
      ensures var h := SpecHole(old(holes)[k]);
              HoleSet(holes) == PackedModel.AddHole(HoleSet(old(holes)) - {h}, blockEnd as nat, h.end)
    {
      var hole := holes[k];
      HoleSetErase(holes, k);
      holes := Without(holes, k);
      AddHole(hole.begin, blockAddr);
      assert blockEnd < hole.end ==> PackHole(blockEnd, hole.end) !in holes by {
        forall k | k in holes ensures k.end != hole.end {
          assert SpecHole(k) in HoleSet(holes);
        }
      }
      AddHole(blockEnd, hole.end);
    }

    /** Puts a block at the cursor; a window that would cross a page first moves to the next one. */
    method AppendBlock(index: nat) returns (ok: bool)
      requires Valid() && IsNext(index)
      modifies this`holes, this`cursor, this`placed, blocks
      ensures BlocksValid()
      ensures ok <==> Append(old(View()), old(Spec(blocks[index]))).cursor < TWO64
      ensures ok ==> Valid() && |placed| == old(|placed|) + 1 && View() == Append(old(View()), old(Spec(blocks[index])))
      ensures !ok ==> placed == old(placed) && blocks[..] == old(blocks[..])
    {
      AppendKeepsHoles(start, View(), Spec(blocks[index]));
      var size := blocks[index].size;
      var addr := cursor;
      if blocks[index].kind.Window? && !FitsInPage(addr, size) {
        var aligned := AlignUp(addr);
        if aligned.None? {
          return false;
        }
        addr := aligned.value;
        EndsAtCursor(start, View(), holes, cursor, addr);
        AddHole(cursor, addr);
      }
      var end := CheckedAdd(addr, size);
      if end.None? {
        return false;
      }
      SetAddr(index, addr);
      cursor := end.value;
      return true;
    }

    /** Moves the cursor to a page boundary, leaving a hole, and appends the anchor there. */
    method AppendAnchor(index: nat) returns (ok: bool)
      requires Valid() && IsNext(index) && blocks[index].kind.Anchor?
      modifies this`holes, this`cursor, this`placed, blocks
      ensures BlocksValid()
      ensures ok <==> Step(old(View()), old(Spec(blocks[index]))).cursor < TWO64
      ensures ok ==> Valid() && |placed| == old(|placed|) + 1 && View() == Step(old(View()), old(Spec(blocks[index])))
      ensures !ok ==> placed == old(placed) && blocks[..] == old(blocks[..])
    {
      PadKeepsHoles(start, View());
      var aligned := AlignUp(cursor);
      if aligned.None? {
        return false;
      }
      EndsAtCursor(start, View(), holes, cursor, aligned.value);
      AddHole(cursor, aligned.value);
      cursor := aligned.value;
      ok := AppendBlock(index);
    }

    /** A window or filler goes into the best hole, or at the cursor when no hole takes it. */
    method PlaceOrAppend(index: nat) returns (ok: bool)
      requires Valid() && IsNext(index) && !blocks[index].kind.Anchor?
      modifies this`holes, this`cursor, this`placed, blocks
      ensures BlocksValid()
      ensures ok <==> Step(old(View()), old(Spec(blocks[index]))).cursor < TWO64
      ensures ok ==> Valid() && |placed| == old(|placed|) + 1 && View() == Step(old(View()), old(Spec(blocks[index])))
      ensures !ok ==> placed == old(placed) && blocks[..] == old(blocks[..])
    {
      ok := PlaceInBestHole(index, blocks[index].kind.Window?);
      if !ok {
        ok := AppendBlock(index);
      }
    }

    /** The holes, the cursor and the addresses are those of the unbounded run so far. */
    ghost predicate OnTrack()
      reads this, blocks
    {
      Valid() && View() == RunTo(start, sequence, |placed|)
    }

    /** The addresses so far are the run's, and its next step takes the cursor past 64 bits. */
    ghost predicate Overflowed()
      reads this`placed, blocks
    {
      && BlocksValid() && |placed| < |order|
      && placed == RunTo(start, sequence, |placed|).addrs
      && RunTo(start, sequence, |placed| + 1).cursor >= TWO64
    }

    method PlaceNext(index: nat) returns (ok: bool)
      requires OnTrack() && IsNext(index)
      modifies this`holes, this`cursor, this`placed, blocks
      ensures ok ==> OnTrack() && |placed| == old(|placed|) + 1
      ensures !ok ==> Overflowed()
    {
      hide Step;
      assert RunTo(start, sequence, |placed| + 1) == Step(View(), Spec(blocks[index]));
      if blocks[index].kind.Anchor? {
        ok := AppendAnchor(index);
      } else {
        ok := PlaceOrAppend(index);
      }
    }

    /** One pass over sorted indices; it stops at the first block that does not fit in 64 bits. */
    method Pass(indexes: seq<nat>, ghost first: nat) returns (ok: bool)
      requires OnTrack() && |placed| == first && IsSlice(order, first, indexes)
      modifies this`holes, this`cursor, this`placed, blocks
      ensures ok ==> OnTrack() && |placed| == first + |indexes|
      ensures !ok ==> Overflowed()
    {
      hide RunTo, HolesArePageTails;
      for k := 0 to |indexes|
        invariant OnTrack() && |placed| == first + k
      {
        assert order[first + k] == indexes[k];
        ok := PlaceNext(indexes[k]);
        if !ok {
          return;
        }
      }
      return true;
    }

    /** Anchors, then windows, then fillers. */
    method ThreePasses(anchors: seq<nat>, windows: seq<nat>, fillers: seq<nat>) returns (ok: bool)
      requires OnTrack() && placed == [] && order == anchors + windows + fillers
      modifies this`holes, this`cursor, this`placed, blocks
      ensures ok ==> OnTrack() && |placed| == |order|
      ensures !ok ==> Overflowed()
    {
      hide Overflowed, OnTrack;
      ConcatSlices(order, anchors, windows, fillers);
      ok := Pass(anchors, 0);
      if ok {
        ok := Pass(windows, |anchors|);
      }
      if ok {
        ok := Pass(fillers, |anchors| + |windows|);
      }
    }

    /** Where the passes stopped, in terms of the whole unbounded run. */
    lemma Stopped()
      requires (OnTrack() && |placed| == |order|) || Overflowed()
      requires ValidBlocks(sequence)
      ensures |placed| < |order| ==> Run(start, sequence).cursor >= TWO64
      ensures |placed| == |order| ==> View() == Run(start, sequence)
      ensures Written(initial, blocks[..], order, Run(start, sequence).addrs, |placed|)
    {
      hide Step;
      var done := |placed|;
      RunToIsRun(start, sequence, done);
      CursorMonotone(start, sequence, done);
      if done < |order| {
        RunToIsRun(start, sequence, done + 1);
        CursorMonotone(start, sequence, done + 1);
      } else {
        assert sequence[..done] == sequence;
      }
      assert placed <= Run(start, sequence).addrs;
      forall k | 0 <= k < done ensures placed[k] == Run(start, sequence).addrs[k] {}
    }
  }

  ghost predicate IsSlice(all: seq<nat>, first: nat, part: seq<nat>) {
    first + |part| <= |all| && forall k :: 0 <= k < |part| ==> all[first + k] == part[k]
  }

  lemma ConcatSlices(all: seq<nat>, a: seq<nat>, b: seq<nat>, c: seq<nat>)
    requires all == a + b + c
    ensures IsSlice(all, 0, a) && IsSlice(all, |a|, b) && IsSlice(all, |a| + |b|, c)
    ensures |all| == |a| + |b| + |c|
  {
  }

  lemma {:induction false} CursorMonotone(start: nat, bs: seq<Block>, n: nat)
    requires n <= |bs| && ValidBlocks(bs)
    ensures Run(start, bs[..n]).cursor <= Run(start, bs).cursor
    ensures Run(start, bs[..n]).addrs <= Run(start, bs).addrs
    decreases |bs|
  {
    if n == |bs| {
      assert bs[..n] == bs;
    } else {
      var init := bs[..|bs| - 1];
      CursorMonotone(start, init, n);
      assert init[..n] == bs[..n];
      RunHoles(start, init);
      StepKeepsHoles(start, Run(start, init), bs[|bs| - 1]);
    }
  }

  /** The run over the first `m` blocks. */
  ghost function RunTo(start: nat, bs: seq<Block>, m: nat): State
    requires m <= |bs|
  {
    if m == 0 then State({}, start, []) else Step(RunTo(start, bs, m - 1), bs[m - 1])
  }

  lemma {:induction false} RunToIsRun(start: nat, bs: seq<Block>, m: nat)
    requires m <= |bs|
    ensures RunTo(start, bs, m) == Run(start, bs[..m])
  {
    if m > 0 {
      RunToIsRun(start, bs, m - 1);
      assert bs[..m][..m - 1] == bs[..m - 1];
    }
  }

  lemma EndsAtCursor(start: nat, st: State, hs: seq<PackHole>, cursor: uint64, addr: uint64)
    requires HolesArePageTails(start, st) && st.holes == HoleSet(hs) && st.cursor == cursor as nat
    ensures cursor < addr ==> PackHole(cursor, addr) !in hs
  {
    forall h | h in hs ensures h.end <= cursor {
      assert SpecHole(h) in st.holes;
    }
  }

  lemma HoleSetPush(hs: seq<PackHole>, h: PackHole)
    ensures HoleSet(hs + [h]) == HoleSet(hs) + {SpecHole(h)}
  {
  }

  lemma HoleSetErase(hs: seq<PackHole>, k: nat)
    requires k < |hs| && NoDuplicates(hs)
    ensures HoleSet(Without(hs, k)) == HoleSet(hs) - {SpecHole(hs[k])}
    ensures NoDuplicates(Without(hs, k))
  {
    var r := Without(hs, k);
    forall i | 0 <= i < |hs| && i != k ensures hs[i] in r && SpecHole(hs[i]) != SpecHole(hs[k]) {
      assert r[if i < k then i else i - 1] == hs[i];
    }
  }

  // Sorting and the whole pass.

  /** The comparator: larger blocks first, then by original order. */
  predicate BySizeThenOrder(lhs: PackBlock, rhs: PackBlock) {
    if lhs.size != rhs.size then lhs.size > rhs.size else lhs.originalOrder < rhs.originalOrder
  }

  ghost predicate SortedIndexes(blocks: seq<PackBlock>, idx: seq<nat>, less: (PackBlock, PackBlock) -> bool) {
    InRange(idx, |blocks|) && forall i, j :: 0 <= i < j < |idx| ==> !less(blocks[idx[j]], blocks[idx[i]])
  }

  /**
   What the library sort promises and no more: some arrangement of the indices in which no
   one is out of place. Ties may come out in any order as far as a caller can tell.
   */
  method SortIndexes(blocks: seq<PackBlock>, idx: seq<nat>, less: (PackBlock, PackBlock) -> bool)
    returns (r: seq<nat>)
    requires InRange(idx, |blocks|) && StrictWeakOrder(less)
    ensures multiset(r) == multiset(idx) && SortedIndexes(blocks, r, less)
  {
    // numbers outside the array stand for an empty block
    var at := (i: nat) => if i < |blocks| then blocks[i] else PackBlock(Filler, 0, 0, 0);
    r := Sort(idx, (i: nat, j: nat) => less(at(i), at(j)));
    forall k | 0 <= k < |r| ensures r[k] < |blocks| {
      assert r[k] in multiset(idx);
    }
    forall i, j | 0 <= i < j < |r| ensures !less(blocks[r[j]], blocks[r[i]]) {
      assert at(r[j]) == blocks[r[j]] && at(r[i]) == blocks[r[i]];
    }
  }

  ghost predicate OfKind(blocks: seq<PackBlock>, idx: seq<nat>, kind: Kind) {
    InRange(idx, |blocks|) && forall k :: 0 <= k < |idx| ==> blocks[idx[k]].kind == kind
  }

  lemma OfKindAnyOrder(blocks: seq<PackBlock>, idx: seq<nat>, r: seq<nat>, kind: Kind)
    requires OfKind(blocks, idx, kind) && multiset(r) == multiset(idx)
    ensures OfKind(blocks, r, kind)
  {
    forall k | 0 <= k < |r| ensures r[k] in idx {
      assert r[k] in multiset(idx);
    }
  }

  /** Anchors, then windows, then fillers, each sorted: together they are sorted. */
  lemma SortedByKind(blocks: seq<PackBlock>, a: seq<nat>, w: seq<nat>, f: seq<nat>)
    requires OfKind(blocks, a, Anchor) && OfKind(blocks, w, Window) && OfKind(blocks, f, Filler)
    requires SortedIndexes(blocks, a, BySizeThenOrder)
    requires SortedIndexes(blocks, w, BySizeThenOrder) && SortedIndexes(blocks, f, BySizeThenOrder)
    ensures InRange(a + w + f, |blocks|) && Sorted(Pick(Specs(blocks), a + w + f))
  {
  }

  /** The indices of the blocks, by kind and in array order. */
  method SplitByKind(blocks: seq<PackBlock>) returns (anchors: seq<nat>, windows: seq<nat>, fillers: seq<nat>)
    ensures multiset(anchors) + multiset(windows) + multiset(fillers) == multiset(Iota(|blocks|))
    ensures OfKind(blocks, anchors, Anchor) && OfKind(blocks, windows, Window) && OfKind(blocks, fillers, Filler)
  {
    anchors, windows, fillers := [], [], [];
    for i := 0 to |blocks|
      invariant multiset(anchors) + multiset(windows) + multiset(fillers) == multiset(Iota(i))
      invariant OfKind(blocks, anchors, Anchor) && OfKind(blocks, windows, Window) && OfKind(blocks, fillers, Filler)
    {
      IotaSnoc(i);
      if blocks[i].kind.Anchor? {
        AddToOne(anchors, i, multiset(windows), multiset(fillers));
        anchors := anchors + [i];
      } else if blocks[i].kind.Window? {
        AddToOne(windows, i, multiset(anchors), multiset(fillers));
        windows := windows + [i];
      } else {
        AddToOne(fillers, i, multiset(anchors), multiset(windows));
        fillers := fillers + [i];
      }
    }
  }

  lemma AddToOne(s: seq<nat>, i: nat, m: multiset<nat>, n: multiset<nat>)
    ensures multiset(s + [i]) + m + n == multiset(s) + m + n + multiset{i}
    ensures m + multiset(s + [i]) + n == m + multiset(s) + n + multiset{i}
    ensures m + n + multiset(s + [i]) == m + n + multiset(s) + multiset{i}
  {
  }

  /** The first `done` blocks of `order` have got their addresses; nothing else has changed. */
  ghost predicate Written(before: seq<PackBlock>, after: seq<PackBlock>, order: seq<nat>, addrs: seq<nat>, done: nat) {
    && |after| == |before| && InRange(order, |before|) && done <= |order| && done <= |addrs|
    && (forall k :: 0 <= k < done ==>
         after[order[k]] == before[order[k]].(addr := after[order[k]].addr) && after[order[k]].addr as nat == addrs[k])
    && (forall k :: done <= k < |order| ==> after[order[k]] == before[order[k]])
  }

  function Outcome(cursor: nat): PackResult {
    if cursor >= TWO64 then AddressOverflow
    else if cursor > ADDRESS_SPACE then AddressSpaceOverflow
    else Success
  }

  /**
   The allocator. For a start in the address space and valid blocks its result is decided by
   where the unbounded run ends: past 64 bits, past 64 KiB, or inside; the addresses written
   are those of that run, and the end address moves on success only.
   */
  method AssignBlockAddresses(blocks: array<PackBlock>, startAddr: uint64)
    returns (result: PackResult, endAddr: uint64, ghost order: seq<nat>, ghost done: nat)
    modifies blocks
    ensures startAddr as nat > ADDRESS_SPACE ==> result == AddressSpaceOverflow
    ensures startAddr as nat <= ADDRESS_SPACE && !ValidBlocks(Specs(old(blocks[..]))) ==> result == InvalidBlock
    ensures startAddr as nat > ADDRESS_SPACE || !ValidBlocks(Specs(old(blocks[..]))) ==>
              blocks[..] == old(blocks[..]) && endAddr == startAddr
    ensures startAddr as nat <= ADDRESS_SPACE && ValidBlocks(Specs(old(blocks[..]))) ==>
              && IsOrder(Specs(old(blocks[..])), order)
              && var final := Run(startAddr as nat, Pick(Specs(old(blocks[..])), order));
              && result == Outcome(final.cursor)
              && endAddr as nat == (if result.Success? then final.cursor else startAddr as nat)
              && (!result.AddressOverflow? ==> done == |order|)
              && Written(old(blocks[..]), blocks[..], order, final.addrs, done)
  {
    endAddr, order, done := startAddr, [], 0;
    if startAddr > 0x10000 {
      return AddressSpaceOverflow, endAddr, order, done;
    }
    var valid := AllValid(blocks[..]);
    if !valid {
      return InvalidBlock, endAddr, order, done;
    }
    var anchors, windows, fillers := SortedOrder(blocks[..]);
    order := anchors + windows + fillers;
    result, endAddr, done := LayOut(blocks, startAddr, anchors, windows, fillers);
  }

  /** The passes over valid blocks, and what their outcome means for the caller. */
  method LayOut(blocks: array<PackBlock>, startAddr: uint64, anchors: seq<nat>, windows: seq<nat>, fillers: seq<nat>)
    returns (result: PackResult, endAddr: uint64, ghost done: nat)
    requires ValidBlocks(Specs(blocks[..])) && IsOrder(Specs(blocks[..]), anchors + windows + fillers)
    requires forall i :: 0 <= i < blocks.Length ==> ValidPackBlock(blocks[i])
    modifies blocks
    ensures var order := anchors + windows + fillers;
            var final := Run(startAddr as nat, Pick(Specs(old(blocks[..])), order));
            && result == Outcome(final.cursor)
            && endAddr as nat == (if result.Success? then final.cursor else startAddr as nat)
            && (!result.AddressOverflow? ==> done == |order|)
            && Written(old(blocks[..]), blocks[..], order, final.addrs, done)
  {
    ghost var order := anchors + windows + fillers;
    hide Run;
    OrderKeepsValid(Specs(blocks[..]), order);
    var packer := new Packer(blocks, startAddr, order);
    var ok := packer.ThreePasses(anchors, windows, fillers);
    packer.Stopped();
    done := |packer.placed|;
    if !ok {
      return AddressOverflow, startAddr, done;
    }
    if packer.cursor > 0x10000 {
      return AddressSpaceOverflow, startAddr, done;
    }
    return Success, packer.cursor, done;
  }

  method AllValid(blocks: seq<PackBlock>) returns (ok: bool)
    ensures ok <==> ValidBlocks(Specs(blocks))
    ensures ok <==> forall i :: 0 <= i < |blocks| ==> ValidPackBlock(blocks[i])
  {
    for i := 0 to |blocks|
      invariant forall k :: 0 <= k < i ==> ValidPackBlock(blocks[k])
    {
      if blocks[i].size == 0 || (blocks[i].kind.Window? && blocks[i].size > PAGE64) {
        assert !ValidBlock(Specs(blocks)[i]);
        return false;
      }
    }
    return true;
  }

  method SortedOrder(blocks: seq<PackBlock>) returns (anchors: seq<nat>, windows: seq<nat>, fillers: seq<nat>)
    ensures IsOrder(Specs(blocks), anchors + windows + fillers)
  {
    var a, w, f := SplitByKind(blocks);
    anchors := SortIndexes(blocks, a, BySizeThenOrder);
    windows := SortIndexes(blocks, w, BySizeThenOrder);
    fillers := SortIndexes(blocks, f, BySizeThenOrder);
    OfKindAnyOrder(blocks, a, anchors, Anchor);
    OfKindAnyOrder(blocks, w, windows, Window);
    OfKindAnyOrder(blocks, f, fillers, Filler);
    SortedByKind(blocks, anchors, windows, fillers);
  }
}
