/**
 How good the packed layout is: no byte is lost, nothing that was appended would have fitted
 in a leftover hole, and the result is never longer than appending everything.
 */
module PackedQuality {
  import opened PackedModel
  import opened PackedInvariants

  lemma {:induction false} SumHolesRemove(holes: set<Hole>, h: Hole)
    requires h in holes
    ensures SumHoles(holes) == h.end - h.begin + SumHoles(holes - {h})
    decreases |holes|
  {
    var k :| k in holes && SumHoles(holes) == k.end - k.begin + SumHoles(holes - {k});
    if k != h {
      SumHolesRemove(holes - {k}, h);
      SumHolesRemove(holes - {h}, k);
      assert holes - {k} - {h} == holes - {h} - {k};
    }
  }

  lemma SumHolesAdd(holes: set<Hole>, begin: nat, end: nat)
    requires begin < end ==> Hole(begin, end) !in holes
    requires begin <= end
    ensures SumHoles(AddHole(holes, begin, end)) == SumHoles(holes) + (end - begin)
  {
    if begin < end {
      var all := AddHole(holes, begin, end);
      SumHolesRemove(all, Hole(begin, end));
      assert all - {Hole(begin, end)} == holes;
    }
  }

  /** What is left of a hole is not a hole already: no two holes end the same page. */
  lemma RestIsNoHole(start: nat, st: State, h: Hole, size: nat)
    requires HolesArePageTails(start, st) && h in st.holes && h.begin + size <= h.end
    ensures Hole(h.begin + size, h.end) !in st.holes - {h}
  {
  }

  lemma PlaceConserves(start: nat, st: State, b: Block, h: Hole)
    requires HolesArePageTails(start, st) && ValidBlock(b) && Best(st.holes, b, h)
    ensures SumHoles(Place(st, b, h).holes) == SumHoles(st.holes) - b.size
  {
    hide Candidate, Place, HolesArePageTails, AddHole, Best, ValidBlock;
    BestIffFits(start, st, b);
    PlaceShrinksOneHole(start, st, b, h);
    SumHolesRemove(st.holes, h);
    RestIsNoHole(start, st, h, b.size);
    SumHolesAdd(st.holes - {h}, h.begin + b.size, h.end);
  }

  /** Leaving the bytes from the cursor to `addr` behind adds exactly them to the holes. */
  lemma GapConserves(start: nat, st: State, addr: nat)
    requires HolesArePageTails(start, st) && st.cursor <= addr
    ensures SumHoles(AddHole(st.holes, st.cursor, addr)) == SumHoles(st.holes) + (addr - st.cursor)
  {
    SumHolesAdd(st.holes, st.cursor, addr);
  }

  /** The bytes one step adds to the used space are the block's own plus what it leaves as holes. */
  lemma StepConserves(start: nat, st: State, b: Block)
    requires HolesArePageTails(start, st) && ValidBlock(b)
    ensures var st' := Step(st, b);
            && st'.cursor - st.cursor == b.size + SumHoles(st'.holes) - SumHoles(st.holes)
            && SumHoles(st'.holes) - SumHoles(st.holes) <= (if b.kind.Filler? then 0 else PAGE - 1)
  {
    AlignFacts(st.cursor);
    if b.kind.Anchor? {
      GapConserves(start, st, AlignToPage(st.cursor));
    } else if exists h :: Best(st.holes, b, h) {
      var h :| Best(st.holes, b, h) && Step(st, b) == Place(st, b, h);
      PlaceConserves(start, st, b, h);
    } else {
      GapConserves(start, st, AppendAddr(st.cursor, b));
    }
  }

  /**
   Exact conservation: the space used is the blocks' bytes plus the leftover holes, and the
   holes together waste at most 255 bytes for each anchor or window.
   */
  lemma {:induction false} Conservation(start: nat, bs: seq<Block>)
    requires ValidBlocks(bs)
    ensures var st := Run(start, bs);
            && st.cursor - start == SumSizes(bs) + SumHoles(st.holes)
            && 0 <= SumHoles(st.holes) <= (PAGE - 1) * CountAligned(bs)
  {
    if bs != [] {
      var init := bs[..|bs| - 1];
      Conservation(start, init);
      RunHoles(start, init);
      StepConserves(start, Run(start, init), bs[|bs| - 1]);
      RunHoles(start, bs);
    }
    RunHoles(start, bs);
    SumHolesNonNegative(Run(start, bs).holes);
  }

  lemma {:induction false} SumHolesNonNegative(holes: set<Hole>)
    requires forall h :: h in holes ==> h.begin <= h.end
    ensures SumHoles(holes) >= 0
    decreases |holes|
  {
    if h :| h in holes {
      SumHolesRemove(holes, h);
      SumHolesNonNegative(holes - {h});
    }
  }

  // Local optimality.

  /** The i-th block was not put in a hole: it went to the end of the layout. */
  ghost predicate Appended(start: nat, bs: seq<Block>, i: nat)
    requires i < |bs|
  {
    !bs[i].kind.Anchor? && !exists h :: Best(Run(start, bs[..i]).holes, bs[i], h)
  }

  ghost predicate LargerThanHoles(size: nat, holes: set<Hole>) {
    forall h :: h in holes ==> h.end - h.begin < size
  }

  lemma WindowGapIsSmaller(cursor: nat, b: Block)
    requires ValidBlock(b)
    ensures AppendAddr(cursor, b) - cursor < b.size
  {
    AlignFacts(cursor);
  }

  /** A later block that is not an anchor and not larger than `size` leaves no hole as large as `size`. */
  lemma StepKeepsLarger(start: nat, st: State, b: Block, size: nat)
    requires HolesArePageTails(start, st) && ValidBlock(b) && !b.kind.Anchor?
    requires LargerThanHoles(size, st.holes)
    requires b.kind.Window? ==> b.size <= size
    ensures LargerThanHoles(size, Step(st, b).holes)
  {
    if h :| Best(st.holes, b, h) {
      StepIntoBest(start, st, b, h);
      assert LargerThanHoles(size, st.holes - {h});
    } else {
      WindowGapIsSmaller(st.cursor, b);
      assert AppendAddr(st.cursor, b) - st.cursor < size || AppendAddr(st.cursor, b) == st.cursor;
    }
  }

  lemma RunNext(start: nat, bs: seq<Block>)
    requires bs != []
    ensures Run(start, bs) == Step(Run(start, bs[..|bs| - 1]), bs[|bs| - 1])
  {
  }

  /** A block without a best hole is larger than all holes. */
  lemma NoneFits(start: nat, st: State, b: Block)
    requires HolesArePageTails(start, st) && ValidBlock(b) && !exists h :: Best(st.holes, b, h)
    ensures LargerThanHoles(b.size, st.holes)
  {
    BestIffFits(start, st, b);
  }

  lemma {:induction false} AppendedStaysLarger(start: nat, bs: seq<Block>, i: nat, n: nat)
    requires ValidBlocks(bs) && Sorted(bs) && i < |bs| && i < n <= |bs| && Appended(start, bs, i)
    ensures LargerThanHoles(bs[i].size, Run(start, bs[..n]).holes)
    decreases n
  {
    hide Run, Step, HolesArePageTails, LargerThanHoles;
    var init, b := bs[..n - 1], bs[n - 1];
    assert bs[..n][..n - 1] == init;
    RunNext(start, bs[..n]);
    RunHoles(start, init);
    if n == i + 1 {
      NoneFits(start, Run(start, init), b);
    } else {
      AppendedStaysLarger(start, bs, i, n - 1);
      assert !Before(b, bs[i]);
    }
    StepKeepsLarger(start, Run(start, init), b, bs[i].size);
  }

  /** No appended window or filler would fit in any hole that is left, whenever that hole arose. */
  lemma LocalOptimality(start: nat, bs: seq<Block>)
    requires ValidBlocks(bs) && Sorted(bs)
    ensures forall i, h :: 0 <= i < |bs| && Appended(start, bs, i) && h in Run(start, bs).holes ==>
              h.end - h.begin < bs[i].size && Candidate(h, bs[i]).None?
  {
    RunHoles(start, bs);
    forall i, h | 0 <= i < |bs| && Appended(start, bs, i) && h in Run(start, bs).holes
      ensures h.end - h.begin < bs[i].size && Candidate(h, bs[i]).None?
    {
      AppendedStaysLarger(start, bs, i, |bs|);
      assert bs[..|bs|] == bs;
      CandidateInPageTail(h, bs[i]);
    }
  }

  // Comparison with the append-only layout.

  lemma AppendMonotone(c: nat, d: nat, b: Block)
    requires c <= d && ValidBlock(b)
    ensures AppendAddr(c, b) <= AppendAddr(d, b)
    ensures AlignToPage(c) <= AlignToPage(d)
  {
    AlignFacts(c);
    AlignFacts(d);
    var p, q := c / PAGE, d / PAGE;
    assert p <= q;
    assert c == p * PAGE + c % PAGE && d == q * PAGE + d % PAGE;
  }

  /** Filling holes never makes the layout end later than appending every block. */
  lemma {:induction false} PackingNeverLoses(start: nat, bs: seq<Block>)
    requires ValidBlocks(bs)
    ensures Run(start, bs).cursor <= AppendOnly(start, bs)
  {
    if bs != [] {
      var init, b := bs[..|bs| - 1], bs[|bs| - 1];
      PackingNeverLoses(start, init);
      var c, d := Run(start, init).cursor, AppendOnly(start, init);
      AppendMonotone(c, d, b);
      if b.kind.Anchor? {
        AppendMonotone(AlignToPage(c), AlignToPage(d), b);
      } else {
        AlignFacts(d);
      }
    }
  }
}
