/**
 Which input sections an input section description takes, and in which order: a piecewise
 sort by several keys, done with stable sorts on slices of the result.
 */
module InputOrder {
  import opened Sequences
  import opened Sorting

  datatype Policy = Default | NoSort | Alignment | Name | Priority | Reverse

  /** A section; elsewhere it is referred to by its position in the input list. */
  datatype Section = Section(
    live: bool, hasParent: bool, relocatesOther: bool, name: string, file: nat, flags: set<nat>, addralign: nat)

  datatype SectionPattern = SectionPattern(
    sectionPat: string -> bool, excludesFile: nat -> bool, sortOuter: Policy, sortInner: Policy)

  datatype InputDescription = InputDescription(
    patterns: seq<SectionPattern>, matchesFile: nat -> bool, withFlags: set<nat>, withoutFlags: set<nat>)

  /** The --sort-section option, and the priority that a section's name stands for. */
  datatype Options = Options(sortSection: Policy, getPriority: string -> int)

  predicate Matches(cmd: InputDescription, pat: SectionPattern, s: Section) {
    && s.live && !s.hasParent && !s.relocatesOther
    && pat.sectionPat(s.name)
    && cmd.matchesFile(s.file) && !pat.excludesFile(s.file)
    && cmd.withFlags <= s.flags && cmd.withoutFlags !! s.flags
  }

  // Keys.

  /** The comparators of the keyed policies; the others do not distinguish sections. */
  predicate KeyLess(opts: Options, k: Policy, a: Section, b: Section) {
    match k
    case Alignment => a.addralign > b.addralign
    case Name => NameLess(a.name, b.name)
    case Priority => opts.getPriority(a.name) < opts.getPriority(b.name)
    case _ => false
  }

  lemma KeyOrder(opts: Options, k: Policy, a: Section, b: Section, c: Section)
    ensures KeyLess(opts, k, a, b) ==> !KeyLess(opts, k, b, a)
    ensures KeyLess(opts, k, a, c) ==> KeyLess(opts, k, a, b) || KeyLess(opts, k, b, c)
  {
    NameOrder(a.name, b.name, c.name);
  }

  // Sorting section numbers.

  type Order = (nat, nat) -> bool

  /** The section with a number; numbers outside the list stand for a section without a name. */
  function At(sections: seq<Section>, i: nat): Section {
    if i < |sections| then sections[i] else Section(false, false, false, "", 0, {}, 0)
  }

  /** The comparator of a policy on section numbers. */
  function KeyOf(opts: Options, sections: seq<Section>, k: Policy): Order {
    (a: nat, b: nat) => KeyLess(opts, k, At(sections, a), At(sections, b))
  }

  lemma KeyOfIsWeakOrder(opts: Options, sections: seq<Section>, k: Policy)
    ensures StrictWeakOrder(KeyOf(opts, sections, k))
  {
    hide KeyLess;
    forall a: nat, b: nat, c: nat
      ensures KeyOf(opts, sections, k)(a, b) ==> !KeyOf(opts, sections, k)(b, a)
      ensures KeyOf(opts, sections, k)(a, c) ==> KeyOf(opts, sections, k)(a, b) || KeyOf(opts, sections, k)(b, c)
    {
      KeyOrder(opts, k, At(sections, a), At(sections, b), At(sections, c));
    }
  }

  function ByPosition(): Order {
    (a: nat, b: nat) => a < b
  }

  /** Reverse turns the order around; a policy without a key leaves it. */
  function ByPolicy(opts: Options, sections: seq<Section>, k: Policy, before: Order): Order {
    match k
    case Reverse => (a: nat, b: nat) => before(b, a)
    case Default => before
    case NoSort => before
    case _ => ByKey<nat>(KeyOf(opts, sections, k), before)
  }

  /** SORT_NONE keeps the input order; otherwise outer key, then inner key or the option, then input position. */
  function RunOrder(opts: Options, sections: seq<Section>, outer: Policy, inner: Policy): Order {
    if outer.NoSort? then ByPosition()
    else
      var inner := if inner.Default? then opts.sortSection else inner;
      ByPolicy(opts, sections, outer, ByPolicy(opts, sections, inner, ByPosition()))
  }

  function Reversed(v: seq<nat>): (r: seq<nat>)
    ensures |r| == |v| && forall i :: 0 <= i < |v| ==> r[i] == v[|v| - 1 - i]
    ensures multiset(r) == multiset(v)
  {
    if v == [] then []
    else
      assert v == [v[0]] + v[1..];
      Reversed(v[1..]) + [v[0]]
  }

  method SortSections(opts: Options, sections: seq<Section>, v: seq<nat>, k: Policy, ghost before: Order)
    returns (r: seq<nat>)
    requires InRange(v, |sections|) && Ordered(v, before)
    ensures multiset(r) == multiset(v) && InRange(r, |sections|)
    ensures Ordered(r, ByPolicy(opts, sections, k, before))
  {
    match k {
      case Default =>
        r := v;
      case NoSort =>
        r := v;
      case Reverse =>
        r := Reversed(v);
      case _ =>
        KeyOfIsWeakOrder(opts, sections, k);
        r := StableSort(v, KeyOf(opts, sections, k), before);
        SameRange(r, v, |sections|);
    }
  }

  method SortInputSections(opts: Options, sections: seq<Section>, v: seq<nat>, outer: Policy, inner: Policy)
    returns (r: seq<nat>)
    requires InRange(v, |sections|) && Ordered(v, ByPosition())
    ensures multiset(r) == multiset(v) && InRange(r, |sections|)
    ensures Ordered(r, RunOrder(opts, sections, outer, inner))
  {
    if outer.NoSort? {
      return v;
    }
    var k := if inner.Default? then opts.sortSection else inner;
    r := SortSections(opts, sections, v, k, ByPosition());
    r := SortSections(opts, sections, r, outer, ByPolicy(opts, sections, k, ByPosition()));
  }

  // What the description takes, and in which order.

  /** The first pattern from `p` on that takes the section; |patterns| when none does. */
  function PatternFrom(cmd: InputDescription, s: Section, p: nat): (r: nat)
    requires p <= |cmd.patterns|
    ensures p <= r <= |cmd.patterns|
    ensures r < |cmd.patterns| ==> Matches(cmd, cmd.patterns[r], s)
    ensures forall q :: p <= q < r ==> !Matches(cmd, cmd.patterns[q], s)
    decreases |cmd.patterns| - p
  {
    if p == |cmd.patterns| || Matches(cmd, cmd.patterns[p], s) then p else PatternFrom(cmd, s, p + 1)
  }

  function PatternOf(cmd: InputDescription, sections: seq<Section>, i: nat): nat {
    if i < |sections| then PatternFrom(cmd, sections[i], 0) else |cmd.patterns|
  }

  /** A SORT pattern makes a run of its own; the stretches between them are numbered evenly. */
  function Segment(patterns: seq<SectionPattern>, p: nat): nat
    requires p < |patterns|
  {
    2 * SortsBefore(patterns, p) + if patterns[p].sortOuter.Default? then 0 else 1
  }

  function SortsBefore(patterns: seq<SectionPattern>, p: nat): nat
    requires p <= |patterns|
  {
    if p == 0 then 0
    else SortsBefore(patterns, p - 1) + if patterns[p - 1].sortOuter.Default? then 0 else 1
  }

  /** The order inside the segment of a pattern. */
  function SegmentOrder(opts: Options, sections: seq<Section>, pat: SectionPattern): Order {
    if pat.sortOuter.Default? then RunOrder(opts, sections, opts.sortSection, NoSort)
    else RunOrder(opts, sections, pat.sortOuter, pat.sortInner)
  }

  /** The order of the result: by segment, and inside a segment by its keys. */
  ghost predicate Precedes(opts: Options, cmd: InputDescription, sections: seq<Section>, a: nat, b: nat) {
    var p, q := PatternOf(cmd, sections, a), PatternOf(cmd, sections, b);
    && p < |cmd.patterns| && q < |cmd.patterns|
    && (|| Segment(cmd.patterns, p) < Segment(cmd.patterns, q)
        || (&& Segment(cmd.patterns, p) == Segment(cmd.patterns, q)
            && SegmentOrder(opts, sections, cmd.patterns[p])(a, b)))
  }

  lemma {:induction false} SortsMonotone(patterns: seq<SectionPattern>, p: nat, q: nat)
    requires p <= q <= |patterns|
    ensures SortsBefore(patterns, p) <= SortsBefore(patterns, q)
    ensures (forall k :: p <= k < q ==> patterns[k].sortOuter.Default?) ==>
              SortsBefore(patterns, p) == SortsBefore(patterns, q)
    decreases q
  {
    if p < q {
      SortsMonotone(patterns, p, q - 1);
    }
  }

  // The pass over the patterns.

  method SortPositions(v: seq<nat>) returns (r: seq<nat>)
    requires NoDuplicates(v)
    ensures multiset(r) == multiset(v) && Ordered(r, ByPosition())
  {
    r := Sort(v, ByPosition());
    SameMultisetNoDuplicates(v, r);
    forall i, j | 0 <= i < j < |r| ensures ByPosition()(r[i], r[j]) {
      assert !ByPosition()(r[j], r[i]) && r[i] != r[j];
    }
  }

  /** The sections that pattern `p` is the first to take, in input order; those seen are passed over. */
  method MatchPattern(cmd: InputDescription, sections: seq<Section>, p: nat, seen: set<nat>)
    returns (matched: seq<nat>, seen': set<nat>)
    requires p < |cmd.patterns|
    requires forall i: nat :: i in seen <==> i < |sections| && PatternOf(cmd, sections, i) < p
    ensures Ordered(matched, ByPosition())
    ensures forall i: nat :: i in matched <==> i < |sections| && PatternOf(cmd, sections, i) == p
    ensures forall i: nat :: i in seen' <==> i < |sections| && PatternOf(cmd, sections, i) < p + 1
  {
    matched, seen' := [], seen;
    for i := 0 to |sections|
      invariant Ordered(matched, ByPosition())
      invariant forall k: nat :: k in matched <==> k < i && PatternOf(cmd, sections, k) == p
      invariant seen' == seen + set k | k in matched
    {
      if i !in seen' && Matches(cmd, cmd.patterns[p], sections[i]) {
        assert forall j :: 0 <= j < |matched| ==> matched[j] in matched;
        matched := matched + [i];
        seen' := seen' + {i};
      }
    }
  }

  /** Sorts a stretch that belongs to no SORT pattern: by position first, then by the option. */
  method SortByPositionThenCommandLine(opts: Options, sections: seq<Section>, ret: seq<nat>, indexes: seq<nat>,
                                       begin: nat, end: nat, ghost stretch: seq<nat>)
    returns (ret': seq<nat>, indexes': seq<nat>, ghost sorted: seq<nat>)
    requires begin <= end <= |ret| == |indexes| && indexes[begin..end] == stretch
    requires NoDuplicates(stretch) && InRange(stretch, |sections|)
    ensures ret' == ret[..begin] + sorted + ret[end..]
    ensures |indexes'| == |indexes| && indexes'[..begin] == indexes[..begin] && indexes'[end..] == indexes[end..]
    ensures multiset(sorted) == multiset(stretch) && |sorted| == |stretch|
    ensures Ordered(sorted, RunOrder(opts, sections, opts.sortSection, NoSort))
  {
    var slice := SortPositions(indexes[begin..end]);
    assert |multiset(slice)| == |multiset(stretch)|;
    SameRange(slice, stretch, |sections|);
    indexes' := indexes[..begin] + slice + indexes[end..];
    var part := SortInputSections(opts, sections, slice, opts.sortSection, NoSort);
    assert |multiset(part)| == |multiset(slice)|;
    sorted := part;
    ret' := ret[..begin] + part + ret[end..];
  }

  lemma SameRange(r: seq<nat>, v: seq<nat>, n: nat)
    requires multiset(r) == multiset(v) && InRange(v, n)
    ensures InRange(r, n)
  {
    forall k | 0 <= k < |r| ensures r[k] < n {
      assert r[k] in multiset(v);
    }
  }

  ghost function ResultOrder(opts: Options, cmd: InputDescription, sections: seq<Section>): Order {
    (a: nat, b: nat) => Precedes(opts, cmd, sections, a, b)
  }

  /** The positions are those of the sections first taken by a pattern in [lo, hi). */
  ghost predicate TakenBetween(cmd: InputDescription, sections: seq<Section>, v: seq<nat>, lo: nat, hi: nat) {
    NoDuplicates(v) && forall i: nat :: i in v <==> i < |sections| && lo <= PatternOf(cmd, sections, i) < hi
  }

  lemma OrderedConcat(x: seq<nat>, y: seq<nat>, before: Order)
    requires Ordered(x, before) && Ordered(y, before)
    requires forall i, j :: 0 <= i < |x| && 0 <= j < |y| ==> before(x[i], y[j])
    ensures Ordered(x + y, before)
  {
  }

  lemma AscendingHasNoDuplicates(v: seq<nat>)
    requires Ordered(v, ByPosition())
    ensures NoDuplicates(v)
  {
    forall i, j | 0 <= i < j < |v| ensures v[i] != v[j] {
      assert ByPosition()(v[i], v[j]);
    }
  }

  lemma TakenConcat(cmd: InputDescription, sections: seq<Section>, x: seq<nat>, y: seq<nat>, lo: nat, mid: nat, hi: nat)
    requires lo <= mid <= hi && TakenBetween(cmd, sections, x, lo, mid) && TakenBetween(cmd, sections, y, mid, hi)
    ensures TakenBetween(cmd, sections, x + y, lo, hi)
  {
    hide PatternOf;
    forall i, j | 0 <= i < j < |x + y| ensures (x + y)[i] != (x + y)[j] {
      if i < |x| && |x| <= j {
        assert x[i] in x && y[j - |x|] in y;
      }
    }
  }

  lemma TakenPermuted(cmd: InputDescription, sections: seq<Section>, x: seq<nat>, y: seq<nat>, lo: nat, hi: nat)
    requires TakenBetween(cmd, sections, x, lo, hi) && multiset(x) == multiset(y)
    ensures TakenBetween(cmd, sections, y, lo, hi)
  {
    hide PatternOf;
    forall i: nat ensures i in y <==> i in x {
      assert i in multiset(x) <==> i in multiset(y);
    }
    SameMultisetNoDuplicates(x, y);
  }

  /** Sections taken up to and including a SORT pattern come before those taken after it. */
  lemma AcrossSort(opts: Options, cmd: InputDescription, sections: seq<Section>, a: nat, b: nat, sort: nat)
    requires sort < |cmd.patterns| && !cmd.patterns[sort].sortOuter.Default?
    requires PatternOf(cmd, sections, a) <= sort < PatternOf(cmd, sections, b) < |cmd.patterns|
    ensures Precedes(opts, cmd, sections, a, b)
  {
    var p, q := PatternOf(cmd, sections, a), PatternOf(cmd, sections, b);
    SortsMonotone(cmd.patterns, p, sort);
    SortsMonotone(cmd.patterns, sort + 1, q);
  }

  /** In a stretch without SORT patterns the option's order decides, and the next run comes after it. */
  lemma InStretch(opts: Options, cmd: InputDescription, sections: seq<Section>, a: nat, b: nat, lo: nat, hi: nat)
    requires lo <= hi <= |cmd.patterns| && forall k :: lo <= k < hi ==> cmd.patterns[k].sortOuter.Default?
    requires lo <= PatternOf(cmd, sections, a) < hi
    ensures lo <= PatternOf(cmd, sections, b) < hi && RunOrder(opts, sections, opts.sortSection, NoSort)(a, b) ==>
              Precedes(opts, cmd, sections, a, b)
    ensures PatternOf(cmd, sections, b) == hi < |cmd.patterns| && !cmd.patterns[hi].sortOuter.Default? ==>
              Precedes(opts, cmd, sections, a, b)
  {
    var p, q := PatternOf(cmd, sections, a), PatternOf(cmd, sections, b);
    SortsMonotone(cmd.patterns, p, hi);
    if lo <= q < hi {
      SortsMonotone(cmd.patterns, q, hi);
    }
  }

  lemma InRun(opts: Options, cmd: InputDescription, sections: seq<Section>, a: nat, b: nat, p: nat)
    requires p < |cmd.patterns| && !cmd.patterns[p].sortOuter.Default?
    requires PatternOf(cmd, sections, a) == p == PatternOf(cmd, sections, b)
    requires RunOrder(opts, sections, cmd.patterns[p].sortOuter, cmd.patterns[p].sortInner)(a, b)
    ensures Precedes(opts, cmd, sections, a, b)
  {
  }

  lemma TakenInRange(cmd: InputDescription, sections: seq<Section>, v: seq<nat>, lo: nat, hi: nat)
    requires TakenBetween(cmd, sections, v, lo, hi)
    ensures InRange(v, |sections|)
  {
    forall k | 0 <= k < |v| ensures v[k] < |sections| {
      assert v[k] in v;
    }
  }

  lemma TakenMeansMatched(cmd: InputDescription, sections: seq<Section>, v: seq<nat>)
    requires TakenBetween(cmd, sections, v, 0, |cmd.patterns|)
    ensures forall i: nat :: i in v <==>
              i < |sections| && exists p :: 0 <= p < |cmd.patterns| && Matches(cmd, cmd.patterns[p], sections[i])
  {
    forall i: nat | i < |sections|
      ensures PatternOf(cmd, sections, i) < |cmd.patterns| <==>
                exists p :: 0 <= p < |cmd.patterns| && Matches(cmd, cmd.patterns[p], sections[i])
    {
      var r := PatternFrom(cmd, sections[i], 0);
    }
  }

  /** The finished part of the result, and the stretch after the last SORT pattern. */
  ghost predicate PassState(opts: Options, cmd: InputDescription, sections: seq<Section>,
                            head: seq<nat>, tail: seq<nat>, lastSort: nat, p: nat) {
    && lastSort <= p <= |cmd.patterns|
    && (forall k :: lastSort <= k < p ==> cmd.patterns[k].sortOuter.Default?)
    && (lastSort > 0 ==> !cmd.patterns[lastSort - 1].sortOuter.Default?)
    && Ordered(head, ResultOrder(opts, cmd, sections))
    && TakenBetween(cmd, sections, head, 0, lastSort)
    && TakenBetween(cmd, sections, tail, lastSort, p)
  }

  /** Appending a sorted stretch, and after it the run of the SORT pattern `p` if there is one. */
  lemma FinishStretch(opts: Options, cmd: InputDescription, sections: seq<Section>,
                      head: seq<nat>, tail: seq<nat>, sorted: seq<nat>, lastSort: nat, p: nat)
    requires PassState(opts, cmd, sections, head, tail, lastSort, p)
    requires multiset(sorted) == multiset(tail) && Ordered(sorted, RunOrder(opts, sections, opts.sortSection, NoSort))
    ensures Ordered(head + sorted, ResultOrder(opts, cmd, sections))
    ensures TakenBetween(cmd, sections, head + sorted, 0, p)
    ensures forall i :: 0 <= i < |sorted| ==> lastSort <= PatternOf(cmd, sections, sorted[i]) < p
  {
    hide PatternOf, Precedes, RunOrder;
    TakenPermuted(cmd, sections, tail, sorted, lastSort, p);
    TakenConcat(cmd, sections, head, sorted, 0, lastSort, p);
    var order := ResultOrder(opts, cmd, sections);
    forall i | 0 <= i < |sorted| ensures lastSort <= PatternOf(cmd, sections, sorted[i]) < p {
      assert sorted[i] in sorted;
    }
    forall i, j | 0 <= i < j < |sorted| ensures order(sorted[i], sorted[j]) {
      InStretch(opts, cmd, sections, sorted[i], sorted[j], lastSort, p);
    }
    forall i, j | 0 <= i < |head| && 0 <= j < |sorted| ensures order(head[i], sorted[j]) {
      assert head[i] in head;
      AcrossSort(opts, cmd, sections, head[i], sorted[j], lastSort - 1);
    }
    OrderedConcat(head, sorted, order);
  }

  lemma FinishRun(opts: Options, cmd: InputDescription, sections: seq<Section>,
                  head: seq<nat>, sorted: seq<nat>, matched: seq<nat>, run: seq<nat>, lastSort: nat, p: nat)
    requires lastSort <= p < |cmd.patterns| && !cmd.patterns[p].sortOuter.Default?
    requires forall k :: lastSort <= k < p ==> cmd.patterns[k].sortOuter.Default?
    requires lastSort > 0 ==> !cmd.patterns[lastSort - 1].sortOuter.Default?
    requires Ordered(head + sorted, ResultOrder(opts, cmd, sections))
    requires TakenBetween(cmd, sections, head + sorted, 0, p)
    requires TakenBetween(cmd, sections, head, 0, lastSort)
    requires forall i :: 0 <= i < |sorted| ==> lastSort <= PatternOf(cmd, sections, sorted[i]) < p
    requires TakenBetween(cmd, sections, matched, p, p + 1) && multiset(run) == multiset(matched)
    requires Ordered(run, RunOrder(opts, sections, cmd.patterns[p].sortOuter, cmd.patterns[p].sortInner))
    ensures PassState(opts, cmd, sections, head + sorted + run, [], p + 1, p + 1)
  {
    hide PatternOf, Precedes, RunOrder;
    TakenPermuted(cmd, sections, matched, run, p, p + 1);
    TakenConcat(cmd, sections, head + sorted, run, 0, p, p + 1);
    var order := ResultOrder(opts, cmd, sections);
    forall i | 0 <= i < |run| ensures PatternOf(cmd, sections, run[i]) == p {
      assert run[i] in run;
    }
    forall i, j | 0 <= i < j < |run| ensures order(run[i], run[j]) {
      InRun(opts, cmd, sections, run[i], run[j], p);
    }
    forall i, j | 0 <= i < |head + sorted| && 0 <= j < |run| ensures order((head + sorted)[i], run[j]) {
      if i < |head| {
        assert head[i] in head;
        AcrossSort(opts, cmd, sections, head[i], run[j], lastSort - 1);
      } else {
        InStretch(opts, cmd, sections, sorted[i - |head|], run[j], lastSort, p);
      }
    }
    OrderedConcat(head + sorted, run, order);
  }

  /** At a SORT pattern: sorts the stretch before it by the option, and the pattern's own sections by its keys. */
  method CloseRun(opts: Options, cmd: InputDescription, sections: seq<Section>, ret: seq<nat>, indexes: seq<nat>,
                  begin: nat, end: nat, ghost head: seq<nat>, ghost tail: seq<nat>, matched: seq<nat>,
                  ghost lastSort: nat, p: nat)
    returns (ret': seq<nat>, indexes': seq<nat>)
    requires PassState(opts, cmd, sections, head, tail, lastSort, p)
    requires p < |cmd.patterns| && !cmd.patterns[p].sortOuter.Default?
    requires TakenBetween(cmd, sections, matched, p, p + 1) && Ordered(matched, ByPosition())
    requires ret == head + tail + matched && |indexes| == |ret|
    requires begin == |head| && end == |head| + |tail| && indexes[begin..end] == tail
    ensures PassState(opts, cmd, sections, ret', [], p + 1, p + 1) && |ret'| == |indexes'|
  {
    hide PatternOf, Precedes, RunOrder, Ordered;
    TakenInRange(cmd, sections, matched, p, p + 1);
    TakenInRange(cmd, sections, tail, lastSort, p);
    ghost var sorted;
    ret', indexes', sorted := SortByPositionThenCommandLine(opts, sections, ret, indexes, begin, end, tail);
    assert ret[..begin] == head && ret[end..] == matched;
    FinishStretch(opts, cmd, sections, head, tail, sorted, lastSort, p);
    assert ret'[..end] == head + sorted && ret'[end..] == matched;
    var run := SortInputSections(opts, sections, ret'[end..], cmd.patterns[p].sortOuter, cmd.patterns[p].sortInner);
    ret' := ret'[..end] + run;
    FinishRun(opts, cmd, sections, head, sorted, matched, run, lastSort, p);
    assert |multiset(run)| == |multiset(matched)|;
  }

  /**
   The sections an input section description takes: exactly the eligible ones that some
   pattern matches, once each, in the order of segments and keys.
   */
  method ComputeInputSections(opts: Options, cmd: InputDescription, sections: seq<Section>) returns (ret: seq<nat>)
    ensures NoDuplicates(ret)
    ensures forall i: nat :: i in ret <==>
              i < |sections| && exists p :: 0 <= p < |cmd.patterns| && Matches(cmd, cmd.patterns[p], sections[i])
    ensures Ordered(ret, ResultOrder(opts, cmd, sections))
  {
    hide PatternOf, Precedes, RunOrder;
    ret := [];
    var indexes, seen: set<nat>, sizeAfterPrevSort := [], {}, 0;
    ghost var head, tail, lastSort: nat := [], [], 0;
    for p := 0 to |cmd.patterns|
      invariant PassState(opts, cmd, sections, head, tail, lastSort, p)
      invariant ret == head + tail && |head| == sizeAfterPrevSort
      invariant |indexes| == |ret| && indexes[sizeAfterPrevSort..] == tail
      invariant forall i: nat :: i in seen <==> i < |sections| && PatternOf(cmd, sections, i) < p
    {
      var sizeBeforeCurrPat := |ret|;
      var matched;
      matched, seen := MatchPattern(cmd, sections, p, seen);
      AscendingHasNoDuplicates(matched);
      ret, indexes := ret + matched, indexes + matched;
      if cmd.patterns[p].sortOuter.Default? {
        TakenConcat(cmd, sections, tail, matched, lastSort, p, p + 1);
        tail := tail + matched;
      } else {
        assert indexes[sizeAfterPrevSort..sizeBeforeCurrPat] == tail;
        ret, indexes := CloseRun(opts, cmd, sections, ret, indexes, sizeAfterPrevSort, sizeBeforeCurrPat,
                                 head, tail, matched, lastSort, p);
        head, tail, lastSort := ret, [], p + 1;
        sizeAfterPrevSort := |ret|;
      }
    }
    ghost var sorted;
    TakenInRange(cmd, sections, tail, lastSort, |cmd.patterns|);
    ret, indexes, sorted := SortByPositionThenCommandLine(opts, sections, ret, indexes, sizeAfterPrevSort, |ret|, tail);
    FinishStretch(opts, cmd, sections, head, tail, sorted, lastSort, |cmd.patterns|);
    assert ret == head + sorted;
    TakenMeansMatched(cmd, sections, ret);
  }

  // The order leaves nothing open: there is one result.

  lemma ByPolicyDecides(opts: Options, sections: seq<Section>, k: Policy, before: Order, a: nat, b: nat)
    requires a < |sections| && b < |sections| && (before(a, b) <==> !before(b, a))
    ensures ByPolicy(opts, sections, k, before)(a, b) <==> !ByPolicy(opts, sections, k, before)(b, a)
  {
    hide KeyLess;
    KeyOrder(opts, k, At(sections, a), At(sections, b), At(sections, a));
  }

  lemma RunOrderDecides(opts: Options, sections: seq<Section>, outer: Policy, inner: Policy, a: nat, b: nat)
    requires a < |sections| && b < |sections| && a != b
    ensures RunOrder(opts, sections, outer, inner)(a, b) <==> !RunOrder(opts, sections, outer, inner)(b, a)
  {
    hide KeyLess;
    var k := if inner.Default? then opts.sortSection else inner;
    ByPolicyDecides(opts, sections, k, ByPosition(), a, b);
    ByPolicyDecides(opts, sections, outer, ByPolicy(opts, sections, k, ByPosition()), a, b);
  }

  /** Two patterns in one segment are the same SORT pattern, or neither is one. */
  lemma SameSegmentSameOrder(opts: Options, sections: seq<Section>, patterns: seq<SectionPattern>, p: nat, q: nat)
    requires p <= q < |patterns| && Segment(patterns, p) == Segment(patterns, q)
    ensures SegmentOrder(opts, sections, patterns[p]) == SegmentOrder(opts, sections, patterns[q])
  {
    if p < q {
      SortsMonotone(patterns, p + 1, q);
    }
  }

  /** Of two sections that are both taken, exactly one comes first. */
  lemma PrecedesDecides(opts: Options, cmd: InputDescription, sections: seq<Section>, a: nat, b: nat)
    requires a < |sections| && b < |sections| && a != b
    requires PatternOf(cmd, sections, a) < |cmd.patterns| && PatternOf(cmd, sections, b) < |cmd.patterns|
    ensures Precedes(opts, cmd, sections, a, b) <==> !Precedes(opts, cmd, sections, b, a)
  {
    hide PatternOf, RunOrder, Segment;
    var p, q := PatternOf(cmd, sections, a), PatternOf(cmd, sections, b);
    var pat := cmd.patterns[p];
    if Segment(cmd.patterns, p) == Segment(cmd.patterns, q) {
      SameSegmentSameOrder(opts, sections, cmd.patterns, if p <= q then p else q, if p <= q then q else p);
      RunOrderDecides(opts, sections, opts.sortSection, NoSort, a, b);
      RunOrderDecides(opts, sections, pat.sortOuter, pat.sortInner, a, b);
    }
  }

  /** Whatever sorts are used, the contract of ComputeInputSections admits one result. */
  lemma ResultIsUnique(opts: Options, cmd: InputDescription, sections: seq<Section>, x: seq<nat>, y: seq<nat>)
    requires TakenBetween(cmd, sections, x, 0, |cmd.patterns|) && TakenBetween(cmd, sections, y, 0, |cmd.patterns|)
    requires Ordered(x, ResultOrder(opts, cmd, sections)) && Ordered(y, ResultOrder(opts, cmd, sections))
    ensures x == y
  {
    hide PatternOf, Precedes;
    forall a: nat ensures multiset(x)[a] == multiset(y)[a] {
      NoDuplicatesCount(x, a);
      NoDuplicatesCount(y, a);
      assert a in x <==> a in multiset(x);
      assert a in y <==> a in multiset(y);
    }
    assert multiset(x) == multiset(y);
    forall a: nat, b: nat | a in multiset(x) && b in multiset(x) && a != b
      ensures ResultOrder(opts, cmd, sections)(a, b) <==> !ResultOrder(opts, cmd, sections)(b, a)
    {
      assert a in x && b in x;
      PrecedesDecides(opts, cmd, sections, a, b);
    }
    OrderedIsUnique(x, y, ResultOrder(opts, cmd, sections));
  }
}
