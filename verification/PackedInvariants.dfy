/** What every reachable state of the packed-section allocator satisfies. */
module PackedInvariants {
  import opened PackedModel
  import opened Wrappers

  /** Every hole is non-empty, lies in one page, and runs to the end of that page. */
  ghost predicate HolesArePageTails(start: nat, st: State) {
    && start <= st.cursor
    && (forall h :: h in st.holes ==>
         start <= h.begin < h.end <= st.cursor && h.end % PAGE == 0 && h.end <= h.begin + PAGE)
    // no two holes end the same page
    && (forall h, k :: h in st.holes && k in st.holes && h.end == k.end ==> h == k)
  }

  lemma AlignFacts(a: nat)
    ensures var r := AlignToPage(a);
            a <= r < a + PAGE && r % PAGE == 0 && (a % PAGE == 0 <==> r == a)
            && (a % PAGE != 0 ==> r == a - a % PAGE + PAGE)
  {
  }

  /** In a page tail a block goes at the very beginning, and only the size decides. */
  lemma CandidateInPageTail(h: Hole, b: Block)
    requires h.begin < h.end && h.end % PAGE == 0 && h.end <= h.begin + PAGE
    requires ValidBlock(b)
    ensures Candidate(h, b) == if b.size <= h.end - h.begin then Some(h.begin) else None
    ensures b.kind.Window? && !FitsWindow(h.begin, b.size) ==> Candidate(h, b).None?
  {
    AlignFacts(h.begin);
    var q := h.end / PAGE;
    assert h.end == q * PAGE;
    if h.begin % PAGE == 0 {
      assert h.begin == h.end - PAGE;
    } else {
      assert AlignToPage(h.begin) == h.end;
    }
  }

  /** A finite set of holes, one of which can take the block, has a best one. */
  lemma {:induction false} BestExists(holes: set<Hole>, b: Block, h0: Hole) returns (h: Hole)
    requires h0 in holes && Candidate(h0, b).Some?
    requires forall k, l :: k in holes && l in holes && k.begin == l.begin && k.end - k.begin == l.end - l.begin ==>
               k == l
    ensures Best(holes, b, h)
    decreases |holes|
  {
    if k :| k in holes && Candidate(k, b).Some? && k != h0 {
      if Better(h0, k) {
        h := BestExists(holes - {k}, b, h0);
      } else {
        h := BestExists(holes - {h0}, b, k);
      }
    } else {
      h := h0;
    }
  }

  /** A best hole exists exactly when some hole is large enough; the block goes at its start. */
  lemma BestIffFits(start: nat, st: State, b: Block)
    requires HolesArePageTails(start, st) && ValidBlock(b)
    ensures (exists h :: Best(st.holes, b, h)) <==> (exists h :: h in st.holes && b.size <= h.end - h.begin)
    ensures forall h :: Best(st.holes, b, h) ==>
              h in st.holes && b.size <= h.end - h.begin && Candidate(h, b) == Some(h.begin)
  {
    forall h | h in st.holes
      ensures Candidate(h, b) == if b.size <= h.end - h.begin then Some(h.begin) else None
    {
      CandidateInPageTail(h, b);
    }
    if h0 :| h0 in st.holes && b.size <= h0.end - h0.begin {
      var h := BestExists(st.holes, b, h0);
    }
  }

  /** The block takes the front of the hole; what is left, if anything, stays a hole. */
  lemma PlaceTakesFront(st: State, b: Block, h: Hole)
    requires Candidate(h, b) == Some(h.begin) && h.begin + b.size <= h.end
    ensures Place(st, b, h) == State(AddHole(st.holes - {h}, h.begin + b.size, h.end), st.cursor, st.addrs + [h.begin])
  {
  }

  lemma AddHoleCount(holes: set<Hole>, h: Hole, begin: nat)
    requires h in holes
    ensures |AddHole(holes - {h}, begin, h.end)| <= |holes|
  {
    var left := holes - {h};
    assert |left| == |holes| - 1;
    assert |left + {Hole(begin, h.end)}| <= |left| + 1;
  }

  /** Placement replaces the hole by what is left of it, so it never adds a hole. */
  lemma PlaceShrinksOneHole(start: nat, st: State, b: Block, h: Hole)
    requires HolesArePageTails(start, st) && ValidBlock(b) && Best(st.holes, b, h)
    ensures var st' := Place(st, b, h);
            && HolesArePageTails(start, st')
            && st'.holes == AddHole(st.holes - {h}, h.begin + b.size, h.end)
            && st'.addrs == st.addrs + [h.begin] && st'.cursor == st.cursor
            && |st'.holes| <= |st.holes|
  {
    CandidateInPageTail(h, b);
    PlaceTakesFront(st, b, h);
    AddHoleCount(st.holes, h, h.begin + b.size);
  }

  /** There is one best hole, so the step takes that one. */
  lemma BestUnique(st: State, b: Block, h: Hole)
    requires Best(st.holes, b, h) && !b.kind.Anchor?
    ensures Step(st, b) == Place(st, b, h)
  {
    var k :| Best(st.holes, b, k) && Step(st, b) == Place(st, b, k);
    assert Best(st.holes, b, k);
    if k != h {
      BestBeats(st, b, h, k);
      BestBeats(st, b, k, h);
    }
  }

  lemma StepIntoBest(start: nat, st: State, b: Block, h: Hole)
    requires HolesArePageTails(start, st) && ValidBlock(b) && !b.kind.Anchor? && Best(st.holes, b, h)
    ensures Step(st, b) == State(AddHole(st.holes - {h}, h.begin + b.size, h.end), st.cursor, st.addrs + [h.begin])
    ensures HolesArePageTails(start, Step(st, b))
    ensures h in st.holes && h.begin + b.size <= h.end && Candidate(h, b) == Some(h.begin)
  {
    BestUnique(st, b, h);
    BestIffFits(start, st, b);
    PlaceShrinksOneHole(start, st, b, h);
  }

  lemma BestBeats(st: State, b: Block, h: Hole, k: Hole)
    requires Best(st.holes, b, h) && k in st.holes && Candidate(k, b).Some? && k != h
    ensures Better(h, k)
  {
  }

  /** An append leaves at most the tail of the current page behind. */
  lemma AppendKeepsHoles(start: nat, st: State, b: Block)
    requires HolesArePageTails(start, st) && ValidBlock(b)
    ensures HolesArePageTails(start, Append(st, b))
    ensures st.cursor <= AppendAddr(st.cursor, b)
    ensures b.kind.Window? ==> FitsWindow(AppendAddr(st.cursor, b), b.size)
  {
    AlignFacts(st.cursor);
  }

  lemma PadKeepsHoles(start: nat, st: State)
    requires HolesArePageTails(start, st)
    ensures HolesArePageTails(start, PadToPage(st))
  {
    AlignFacts(st.cursor);
  }

  lemma StepKeepsHoles(start: nat, st: State, b: Block)
    requires HolesArePageTails(start, st) && ValidBlock(b)
    ensures HolesArePageTails(start, Step(st, b))
    ensures st.cursor <= Step(st, b).cursor && |Step(st, b).addrs| == |st.addrs| + 1
  {
    if b.kind.Anchor? {
      PadKeepsHoles(start, st);
      AppendKeepsHoles(start, PadToPage(st), b);
      AlignFacts(st.cursor);
    } else if exists h :: Best(st.holes, b, h) {
      var h :| Best(st.holes, b, h) && Step(st, b) == Place(st, b, h);
      PlaceShrinksOneHole(start, st, b, h);
    } else {
      AppendKeepsHoles(start, st, b);
    }
  }

  /** Every reachable state: each hole is the tail of one page, at most one hole a page. */
  lemma {:induction false} RunHoles(start: nat, bs: seq<Block>)
    requires ValidBlocks(bs)
    ensures HolesArePageTails(start, Run(start, bs)) && |Run(start, bs).addrs| == |bs|
  {
    if bs != [] {
      RunHoles(start, bs[..|bs| - 1]);
      StepKeepsHoles(start, Run(start, bs[..|bs| - 1]), bs[|bs| - 1]);
    }
  }

  /** In no reachable state does aligning inside a hole give a usable place. */
  lemma AlignedCandidateNeverUsed(start: nat, bs: seq<Block>, h: Hole, b: Block)
    requires ValidBlocks(bs) && ValidBlock(b) && h in Run(start, bs).holes
    ensures b.kind.Window? && !FitsWindow(h.begin, b.size) ==> Candidate(h, b).None?
    ensures Candidate(h, b).Some? ==> Candidate(h, b).value == h.begin
  {
    RunHoles(start, bs);
    assert h.begin < h.end && h.end % PAGE == 0;
    CandidateInPageTail(h, b);
  }

  // The addresses below the cursor: each one belongs to exactly one block or hole.

  predicate Disjoint(a: int, n: int, b: int, m: int) {
    a + n <= b || b + m <= a
  }

  predicate InHole(h: Hole, x: nat) {
    h.begin <= x < h.end
  }

  predicate InBlock(bs: seq<Block>, addrs: seq<nat>, i: nat, x: nat)
    requires i < |bs| && |bs| == |addrs|
  {
    addrs[i] <= x < addrs[i] + bs[i].size
  }

  ghost predicate BlocksApart(bs: seq<Block>, addrs: seq<nat>)
    requires |bs| == |addrs|
  {
    forall i, j :: 0 <= i < j < |bs| ==> Disjoint(addrs[i], bs[i].size, addrs[j], bs[j].size)
  }

  ghost predicate BlocksInside(start: nat, bs: seq<Block>, addrs: seq<nat>, end: nat)
    requires |bs| == |addrs|
  {
    forall i :: 0 <= i < |bs| ==> start <= addrs[i] && addrs[i] + bs[i].size <= end
  }

  ghost predicate BlocksAvoidHoles(bs: seq<Block>, st: State)
    requires |bs| == |st.addrs|
  {
    forall i, h :: 0 <= i < |bs| && h in st.holes ==> Disjoint(st.addrs[i], bs[i].size, h.begin, h.end - h.begin)
  }

  ghost predicate Covered(bs: seq<Block>, st: State, x: nat)
    requires |bs| == |st.addrs|
  {
    (exists i :: 0 <= i < |bs| && InBlock(bs, st.addrs, i, x)) || (exists h :: h in st.holes && InHole(h, x))
  }

  /** The placed blocks and the holes partition [start, cursor). */
  ghost predicate Partition(start: nat, bs: seq<Block>, st: State) {
    && |bs| == |st.addrs|
    && HolesArePageTails(start, st)
    && BlocksApart(bs, st.addrs)
    && BlocksInside(start, bs, st.addrs, st.cursor)
    && BlocksAvoidHoles(bs, st)
    && forall x: nat :: start <= x < st.cursor ==> Covered(bs, st, x)
  }

  /** An anchor starts a page; a window stays in one page. */
  predicate KindRespected(b: Block, addr: nat) {
    (b.kind.Anchor? ==> addr % PAGE == 0) && (b.kind.Window? ==> FitsWindow(addr, b.size))
  }

  ghost predicate KindsRespected(bs: seq<Block>, addrs: seq<nat>)
    requires |bs| == |addrs|
  {
    forall i :: 0 <= i < |bs| ==> KindRespected(bs[i], addrs[i])
  }

  lemma PadKeepsPartition(start: nat, bs: seq<Block>, st: State)
    requires Partition(start, bs, st)
    ensures Partition(start, bs, PadToPage(st))
  {
    PadKeepsHoles(start, st);
    AlignFacts(st.cursor);
    var st' := PadToPage(st);
    forall x: nat | start <= x < st'.cursor ensures Covered(bs, st', x) {
      if x < st.cursor {
        CoverageGrows(bs, [], st, st', x);
      } else {
        assert InHole(Hole(st.cursor, st'.cursor), x);
      }
    }
  }

  /** Adding blocks at the end and holes anywhere keeps what was covered. */
  lemma CoverageGrows(bs: seq<Block>, more: seq<Block>, st: State, st': State, x: nat)
    requires |bs| == |st.addrs| && |bs + more| == |st'.addrs| && st.addrs <= st'.addrs && st.holes <= st'.holes
    requires Covered(bs, st, x)
    ensures Covered(bs + more, st', x)
  {
    if i :| 0 <= i < |bs| && InBlock(bs, st.addrs, i, x) {
      assert InBlock(bs + more, st'.addrs, i, x);
    }
  }

  lemma AppendKeepsPartition(start: nat, bs: seq<Block>, st: State, b: Block)
    requires Partition(start, bs, st) && ValidBlock(b)
    ensures Partition(start, bs + [b], Append(st, b))
  {
    AppendKeepsHoles(start, st, b);
    AlignFacts(st.cursor);
    var st', bs' := Append(st, b), bs + [b];
    var addr := AppendAddr(st.cursor, b);
    forall x: nat | start <= x < st'.cursor ensures Covered(bs', st', x) {
      if x < st.cursor {
        CoverageGrows(bs, [b], st, st', x);
      } else if x < addr {
        assert InHole(Hole(st.cursor, addr), x);
      } else {
        assert InBlock(bs', st'.addrs, |bs|, x);
      }
    }
  }

  /** The block takes the front of the hole, so it meets neither blocks nor other holes. */
  lemma PlaceKeepsApart(bs: seq<Block>, st: State, b: Block, h: Hole, st': State)
    requires |bs| == |st.addrs| && h in st.holes && 0 < b.size <= h.end - h.begin
    requires BlocksApart(bs, st.addrs) && BlocksAvoidHoles(bs, st)
    requires forall k, l :: k in st.holes && l in st.holes && k != l ==> k.end <= l.begin || l.end <= k.begin
    requires st'.addrs == st.addrs + [h.begin]
    requires forall k :: k in st'.holes ==> (k in st.holes && k != h) || (k.begin == h.begin + b.size && k.end == h.end)
    ensures BlocksApart(bs + [b], st'.addrs) && BlocksAvoidHoles(bs + [b], st')
  {
    forall i | 0 <= i < |bs| ensures Disjoint(st.addrs[i], bs[i].size, h.begin, h.end - h.begin) {}
  }

  lemma PlaceKeepsCover(bs: seq<Block>, st: State, b: Block, h: Hole, st': State, x: nat)
    requires |bs| == |st.addrs| && h in st.holes && Covered(bs, st, x)
    requires st'.addrs == st.addrs + [h.begin]
    requires st'.holes == AddHole(st.holes - {h}, h.begin + b.size, h.end)
    ensures Covered(bs + [b], st', x)
  {
    var bs' := bs + [b];
    if i :| 0 <= i < |bs| && InBlock(bs, st.addrs, i, x) {
      assert InBlock(bs', st'.addrs, i, x);
    } else {
      var k :| k in st.holes && InHole(k, x);
      if k != h {
        assert k in st'.holes;
      } else if x < h.begin + b.size {
        assert InBlock(bs', st'.addrs, |bs|, x);
      } else {
        assert Hole(h.begin + b.size, h.end) in st'.holes && InHole(Hole(h.begin + b.size, h.end), x);
      }
    }
  }

  /** Two page tails of different pages do not meet. */
  lemma PageTailsApart(start: nat, st: State)
    requires HolesArePageTails(start, st)
    ensures forall k, l :: k in st.holes && l in st.holes && k != l ==> k.end <= l.begin || l.end <= k.begin
  {
    forall k, l | k in st.holes && l in st.holes && k != l ensures k.end <= l.begin || l.end <= k.begin {
      assert k.end % PAGE == 0 && l.end % PAGE == 0 && k.end != l.end;
    }
  }

  lemma PlacedKeepsPartition(start: nat, bs: seq<Block>, st: State, b: Block, h: Hole, st': State)
    requires Partition(start, bs, st) && h in st.holes && 0 < b.size <= h.end - h.begin
    requires HolesArePageTails(start, st') && st'.cursor == st.cursor
    requires st'.addrs == st.addrs + [h.begin]
    requires st'.holes == AddHole(st.holes - {h}, h.begin + b.size, h.end)
    ensures Partition(start, bs + [b], st')
  {
    assert BlocksApart(bs + [b], st'.addrs) && BlocksAvoidHoles(bs + [b], st') by {
      PageTailsApart(start, st);
      PlaceKeepsApart(bs, st, b, h, st');
    }
    assert BlocksInside(start, bs + [b], st'.addrs, st'.cursor);
    forall x: nat | start <= x < st'.cursor ensures Covered(bs + [b], st', x) {
      PlaceKeepsCover(bs, st, b, h, st', x);
    }
  }

  lemma PlaceKeepsPartition(start: nat, bs: seq<Block>, st: State, b: Block, h: Hole)
    requires Partition(start, bs, st) && ValidBlock(b) && Best(st.holes, b, h)
    ensures Partition(start, bs + [b], Place(st, b, h))
  {
    BestIffFits(start, st, b);
    PlaceShrinksOneHole(start, st, b, h);
    PlacedKeepsPartition(start, bs, st, b, h, Place(st, b, h));
  }

  lemma StepKeepsPartition(start: nat, bs: seq<Block>, st: State, b: Block)
    requires Partition(start, bs, st) && ValidBlock(b)
    ensures Partition(start, bs + [b], Step(st, b))
  {
    if b.kind.Anchor? {
      PadKeepsPartition(start, bs, st);
      AppendKeepsPartition(start, bs, PadToPage(st), b);
    } else if exists h :: Best(st.holes, b, h) {
      var h :| Best(st.holes, b, h) && Step(st, b) == Place(st, b, h);
      PlaceKeepsPartition(start, bs, st, b, h);
    } else {
      AppendKeepsPartition(start, bs, st, b);
    }
  }

  /** After every placement the blocks and the holes partition the space used so far. */
  lemma {:induction false} RunPartition(start: nat, bs: seq<Block>)
    requires ValidBlocks(bs)
    ensures Partition(start, bs, Run(start, bs))
  {
    hide Step;
    if bs != [] {
      var init := bs[..|bs| - 1];
      RunPartition(start, init);
      StepKeepsPartition(start, init, Run(start, init), bs[|bs| - 1]);
      assert init + [bs[|bs| - 1]] == bs;
    }
  }

  lemma PageTailFitsWindow(h: Hole, size: nat)
    requires h.begin < h.end && h.end % PAGE == 0 && h.end <= h.begin + PAGE
    requires size <= h.end - h.begin
    ensures FitsWindow(h.begin, size)
  {
    var q := h.end / PAGE;
    assert h.end == q * PAGE;
    assert h.begin % PAGE == (h.begin - (q - 1) * PAGE) % PAGE;
  }

  /** Blocks placed in a page tail stay in that page; anchors and windows get what they need. */
  lemma StepRespectsKind(start: nat, st: State, b: Block)
    requires HolesArePageTails(start, st) && ValidBlock(b)
    ensures var addr := Step(st, b).addrs[|st.addrs|];
            Step(st, b).addrs == st.addrs + [addr] && KindRespected(b, addr)
  {
    AlignFacts(st.cursor);
    if b.kind.Anchor? {
    } else if exists h :: Best(st.holes, b, h) {
      var h :| Best(st.holes, b, h) && Step(st, b) == Place(st, b, h);
      CandidateInPageTail(h, b);
      PageTailFitsWindow(h, b.size);
    } else {
      AppendKeepsHoles(start, st, b);
    }
  }

  lemma LastRespectsKind(start: nat, bs: seq<Block>)
    requires ValidBlocks(bs) && bs != []
    ensures var init := bs[..|bs| - 1];
            && |Run(start, init).addrs| == |init| && |Run(start, bs).addrs| == |bs|
            && Run(start, init).addrs <= Run(start, bs).addrs
            && KindRespected(bs[|init|], Run(start, bs).addrs[|init|])
  {
    RunHoles(start, bs[..|bs| - 1]);
    StepRespectsKind(start, Run(start, bs[..|bs| - 1]), bs[|bs| - 1]);
  }

  lemma {:induction false} RunRespectsKinds(start: nat, bs: seq<Block>)
    requires ValidBlocks(bs)
    ensures |Run(start, bs).addrs| == |bs| && KindsRespected(bs, Run(start, bs).addrs)
  {
    hide Step, KindRespected;
    if bs == [] {
    } else {
      var init := bs[..|bs| - 1];
      RunRespectsKinds(start, init);
      LastRespectsKind(start, bs);
      forall i | 0 <= i < |init| ensures KindRespected(bs[i], Run(start, bs).addrs[i]) {
        assert KindRespected(init[i], Run(start, init).addrs[i]);
      }
    }
  }
}
