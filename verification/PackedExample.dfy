/** A worked layout with anchors, windows and fillers, step by step. */
module PackedExample {
  import opened PackedModel
  import opened PackedInvariants
  import opened PackedSections

  const START: nat := 0x10a

  function Blocks(): seq<Block> {
    [Block(Anchor, 300, 1), Block(Anchor, 100, 0),
     Block(Window, 256, 3), Block(Window, 200, 4), Block(Window, 120, 2), Block(Window, 20, 5), Block(Window, 20, 6),
     Block(Filler, 60, 8), Block(Filler, 40, 7)]
  }

  /** The `n`-th block takes the hole `h`. */
  lemma TakesHole(n: nat, st: State, h: Hole, st': State)
    requires n < |Blocks()| && RunTo(START, Blocks(), n) == st
    requires var b := Blocks()[n]; !b.kind.Anchor? && Best(st.holes, b, h) && st' == Place(st, b, h)
    ensures RunTo(START, Blocks(), n + 1) == st'
  {
    BestUnique(st, Blocks()[n], h);
  }

  /** The `n`-th block fits in no hole. */
  lemma GoesToEnd(n: nat, st: State, st': State)
    requires n < |Blocks()| && RunTo(START, Blocks(), n) == st
    requires var b := Blocks()[n]; !b.kind.Anchor? && st' == Append(st, b) && forall h :: h in st.holes ==>
               Candidate(h, b).None?
    ensures RunTo(START, Blocks(), n + 1) == st'
  {
  }

  lemma Anchors()
    ensures RunTo(START, Blocks(), 2) == State({Hole(0x10a, 0x200), Hole(0x32c, 0x400)}, 0x464, [0x200, 0x400])
  {
    assert RunTo(START, Blocks(), 0) == State({}, START, []);
    assert RunTo(START, Blocks(), 1) == State({Hole(0x10a, 0x200)}, 0x32c, [0x200]);
  }

  lemma LargeWindows()
    ensures RunTo(START, Blocks(), 5) ==
            State({Hole(0x10a, 0x200), Hole(0x3f4, 0x400), Hole(0x4dc, 0x500)}, 0x600,
                [0x200, 0x400, 0x500, 0x32c, 0x464])
  {
    hide RunTo;
    Anchors();
    var a, b, c, d, e :=
        Hole(0x10a, 0x200), Hole(0x32c, 0x400), Hole(0x464, 0x500), Hole(0x3f4, 0x400), Hole(0x4dc, 0x500);
    var s2 := State({a, b}, 0x464, [0x200, 0x400]);
    var s3 := State({a, b, c}, 0x600, [0x200, 0x400, 0x500]);
    var s4 := State({a, c, d}, 0x600, [0x200, 0x400, 0x500, 0x32c]);
    var s5 := State({a, d, e}, 0x600, [0x200, 0x400, 0x500, 0x32c, 0x464]);
    GoesToEnd(2, s2, s3);
    TakesHole(3, s3, b, s4);
    TakesHole(4, s4, c, s5);
  }

  lemma SmallWindows()
    ensures RunTo(START, Blocks(), 7) ==
            State({Hole(0x11e, 0x200), Hole(0x3f4, 0x400), Hole(0x4f0, 0x500)}, 0x600,
                  [0x200, 0x400, 0x500, 0x32c, 0x464, 0x4dc, 0x10a])
  {
    hide RunTo;
    LargeWindows();
    var a, d, e, f, g :=
        Hole(0x10a, 0x200), Hole(0x3f4, 0x400), Hole(0x4dc, 0x500), Hole(0x4f0, 0x500), Hole(0x11e, 0x200);
    var s5 := State({a, d, e}, 0x600, [0x200, 0x400, 0x500, 0x32c, 0x464]);
    var s6 := State({a, d, f}, 0x600, s5.addrs + [0x4dc]);
    var s7 := State({d, f, g}, 0x600, s6.addrs + [0x10a]);
    TakesHole(5, s5, e, s6);
    TakesHole(6, s6, a, s7);
  }

  lemma Fillers()
    ensures RunTo(START, Blocks(), 9) ==
            State({Hole(0x182, 0x200), Hole(0x3f4, 0x400), Hole(0x4f0, 0x500)}, 0x600,
                  [0x200, 0x400, 0x500, 0x32c, 0x464, 0x4dc, 0x10a, 0x11e, 0x15a])
  {
    hide RunTo;
    SmallWindows();
    var d, f, g, h := Hole(0x3f4, 0x400), Hole(0x4f0, 0x500), Hole(0x11e, 0x200), Hole(0x15a, 0x200);
    var s7 := State({d, f, g}, 0x600, [0x200, 0x400, 0x500, 0x32c, 0x464, 0x4dc, 0x10a]);
    var s8 := State({d, f, h}, 0x600, s7.addrs + [0x11e]);
    var s9 := State({d, f, Hole(0x182, 0x200)}, 0x600, s8.addrs + [0x15a]);
    TakesHole(7, s7, g, s8);
    TakesHole(8, s8, h, s9);
  }

  /** The small windows and the fillers go into the gaps; nothing is added at the end for them. */
  lemma WorkedLayout()
    ensures Sorted(Blocks()) && ValidBlocks(Blocks())
    ensures Run(START, Blocks()).addrs == [0x200, 0x400, 0x500, 0x32c, 0x464, 0x4dc, 0x10a, 0x11e, 0x15a]
    ensures Run(START, Blocks()).cursor == 0x600
  {
    hide Run, RunTo;
    Fillers();
    RunToIsRun(START, Blocks(), 9);
    assert Blocks()[..9] == Blocks();
  }
}
