/**
 What address assignment computes: where a section starts, where its commands lead, and how the
 positions of the memory regions follow. Everything here is a function of the state before.
 */
module LayoutModel {
  import opened Target
  import opened FixedWidth
  import opened LinkerObjects
  import opened PackedModel
  import opened PackedOrder
  import opened Wrappers
  import opened Sequences
  import opened PackedCommit

  type Positions = map<string, uint64>

  class OutputSection {
    const name: string
    const alloc: bool
    const tls: bool
    const nobits: bool
    const addralign: uint64
    const addrExpr: Option<uint64>
    const lmaExpr: Option<uint64>
    const memRegion: Option<string>
    const lmaRegion: Option<string>
    const relroPadding: bool
    const commands: seq<SectionCommand>
    var addr: uint64
    var size: uint64

    predicate IsTbss() {
      tls && nobits
    }

    /** Occupies space of its own in a memory region. */
    predicate InRegion() {
      alloc && !IsTbss() && memRegion.Some?
    }
  }

  predicate AllAligned(secs: seq<InputSection>) {
    forall i :: 0 <= i < |secs| ==> secs[i].addralign != 0
  }

  /** Where the location counter stands after a list of input sections. */
  function AfterInputs(dot: uint64, secs: seq<InputSection>): uint64
    requires AllAligned(secs)
  {
    if secs == [] then dot
    else
      var s := secs[|secs| - 1];
      Add(AlignTo(AfterInputs(dot, secs[..|secs| - 1]), s.addralign), s.size)
  }

  /** The offset the i-th section of a list gets, relative to its output section. */
  function OffsetAt(dot: uint64, addr: uint64, secs: seq<InputSection>, i: nat): uint64
    requires i < |secs| && AllAligned(secs)
  {
    Sub(AlignTo(AfterInputs(dot, secs[..i]), secs[i].addralign), addr)
  }

  lemma AfterNoInputs(dot: uint64, secs: seq<InputSection>)
    requires AllAligned(secs)
    ensures AfterInputs(dot, secs[..0]) == dot
  {
  }

  lemma AfterOneMore(dot: uint64, addr: uint64, secs: seq<InputSection>, i: nat)
    requires i < |secs| && AllAligned(secs)
    ensures AllAligned(secs[..i]) && AllAligned(secs[..i + 1])
    ensures AfterInputs(dot, secs[..i + 1]) ==
              Add(AlignTo(AfterInputs(dot, secs[..i]), secs[i].addralign), secs[i].size)
    ensures OffsetAt(dot, addr, secs, i) == Sub(AlignTo(AfterInputs(dot, secs[..i]), secs[i].addralign), addr)
  {
    assert secs[..i + 1][..i] == secs[..i];
  }

  ghost predicate ListPlaced(dot: uint64, addr: uint64, secs: seq<InputSection>)
    reads secs
  {
    AllAligned(secs) && forall i :: 0 <= i < |secs| ==> secs[i].outSecOff == OffsetAt(dot, addr, secs, i)
  }

  /** A command with the list it holds before the layout. */
  datatype Step = MoveDot(value: uint64) | Bytes(size: uint64) | Inputs(sections: seq<InputSection>)

  ghost predicate IsStep(c: SectionCommand, step: Step)
    reads if c.Description? then {c.description} else {}
  {
    match c
    case SetDot(value) => step == MoveDot(value)
    case Data(size) => step == Bytes(size)
    case Description(d) => step == Inputs(d.sections)
  }

  /** `steps` is what the commands hold; the descriptions among them are those of `ds`. */
  ghost predicate AreSteps(commands: seq<SectionCommand>, ds: seq<InputSectionDescription>, steps: seq<Step>)
    reads ds
  {
    && |steps| == |commands|
    && (forall k :: 0 <= k < |commands| && commands[k].Description? ==> commands[k].description in ds)
    && (forall k :: 0 <= k < |commands| ==> IsStep(commands[k], steps[k]))
  }

  predicate StepsAligned(steps: seq<Step>) {
    forall k :: 0 <= k < |steps| && steps[k].Inputs? ==> AllAligned(steps[k].sections)
  }

  /** Where the location counter stands after the first `n` commands of a section. */
  function AfterSteps(dot: uint64, steps: seq<Step>, n: nat): uint64
    requires n <= |steps| && StepsAligned(steps)
  {
    if n == 0 then dot
    else
      var before := AfterSteps(dot, steps, n - 1);
      match steps[n - 1]
      case MoveDot(value) => value
      case Bytes(size) => Add(before, size)
      case Inputs(sections) => AfterInputs(before, sections)
  }

  /** Every list holds sections of `secs` only. */
  ghost predicate Within(steps: seq<Step>, secs: seq<InputSection>) {
    forall k, i :: 0 <= k < |steps| && steps[k].Inputs? && 0 <= i < |steps[k].sections| ==> steps[k].sections[i] in secs
  }

  /** The sections of the first `n` commands are where the commands put them, relative to `addr`. */
  ghost predicate StepsPlaced(secs: seq<InputSection>, dot: uint64, addr: uint64, steps: seq<Step>, n: nat)
    requires n <= |steps| && StepsAligned(steps) && Within(steps, secs)
    reads secs
  {
    forall k :: 0 <= k < n && steps[k].Inputs? ==> ListPlaced(AfterSteps(dot, steps, k), addr, steps[k].sections)
  }

  lemma NonePlaced(secs: seq<InputSection>, dot: uint64, addr: uint64, steps: seq<Step>)
    requires StepsAligned(steps) && Within(steps, secs)
    ensures StepsPlaced(secs, dot, addr, steps, 0)
  {
  }

  lemma NothingToPlace(secs: seq<InputSection>, dot: uint64, addr: uint64, steps: seq<Step>, n: nat)
    requires n < |steps| && !steps[n].Inputs? && StepsAligned(steps) && Within(steps, secs)
    requires StepsPlaced(secs, dot, addr, steps, n)
    ensures StepsPlaced(secs, dot, addr, steps, n + 1)
  {
    hide ListPlaced, AfterSteps;
  }

  /** One of the first `n` commands moves the location counter backward. */
  predicate MovesBack(dot: uint64, steps: seq<Step>, n: nat)
    requires n <= |steps| && StepsAligned(steps)
  {
    exists k :: 0 <= k < n && steps[k].MoveDot? && steps[k].value < AfterSteps(dot, steps, k)
  }

  /** No section stands in two of the lists. */
  ghost predicate ListsApart(steps: seq<Step>) {
    forall k, l, s :: 0 <= k < l < |steps| && steps[k].Inputs? && steps[l].Inputs? && s in steps[k].sections ==>
      s !in steps[l].sections
  }

  lemma GatherOfCommands(commands: seq<SectionCommand>)
    requires commands != []
    ensures var init, last := commands[..|commands| - 1], commands[|commands| - 1];
            Gather(DescriptionsOf(commands)) ==
            Gather(DescriptionsOf(init)) + if last.Description? then last.description.sections else []
  {
    var init, last := commands[..|commands| - 1], commands[|commands| - 1];
    if last.Description? {
      var ds := DescriptionsOf(commands);
      assert ds[..|ds| - 1] == DescriptionsOf(init);
    }
  }

  lemma {:induction false} ListedSection(commands: seq<SectionCommand>, ds: seq<InputSectionDescription>,
                                         steps: seq<Step>, k: nat, s: InputSection)
    requires AreSteps(commands, ds, steps) && k < |steps| && steps[k].Inputs? && s in steps[k].sections
    ensures s in Gather(DescriptionsOf(commands))
  {
    GatherOfCommands(commands);
    if k < |commands| - 1 {
      ListedSection(commands[..|commands| - 1], ds, steps[..|steps| - 1], k, s);
    } else {
      assert IsStep(commands[k], steps[k]);
    }
  }

  lemma TwoListsApart(commands: seq<SectionCommand>, ds: seq<InputSectionDescription>, steps: seq<Step>, k: nat,
                      s: InputSection)
    requires AreSteps(commands, ds, steps) && k < |steps| - 1 && steps[k].Inputs? && steps[|steps| - 1].Inputs?
    requires NoDuplicates(Gather(DescriptionsOf(commands))) && s in steps[k].sections
    ensures s !in steps[|steps| - 1].sections
  {
    var init, all := commands[..|commands| - 1], Gather(DescriptionsOf(commands));
    GatherOfCommands(commands);
    ListedSection(init, ds, steps[..|steps| - 1], k, s);
    assert IsStep(commands[|commands| - 1], steps[|steps| - 1]);
    var g, last := Gather(DescriptionsOf(init)), steps[|steps| - 1].sections;
    var i :| 0 <= i < |g| && g[i] == s;
    forall j | 0 <= j < |last| ensures last[j] != s {
      assert all[i] == g[i] && all[|g| + j] == last[j];
    }
  }

  /** What holds of the gathered sections holds of the lists: aligned, and no section twice. */
  lemma {:induction false} GatheredSteps(commands: seq<SectionCommand>, ds: seq<InputSectionDescription>,
                                         steps: seq<Step>)
    requires AreSteps(commands, ds, steps)
    requires var secs := Gather(DescriptionsOf(commands)); NoDuplicates(secs) && AllAligned(secs)
    ensures StepsAligned(steps) && ListsApart(steps) && Within(steps, Gather(DescriptionsOf(commands)))
  {
    hide DescriptionsOf, Gather;
    if commands == [] {
      assert steps == [];
    } else {
      var init, short, n := commands[..|commands| - 1], steps[..|steps| - 1], |steps| - 1;
      var g, all := Gather(DescriptionsOf(init)), Gather(DescriptionsOf(commands));
      GatherOfCommands(commands);
      assert forall i :: 0 <= i < |g| ==> all[i] == g[i];
      assert IsStep(commands[n], steps[n]);
      assert steps[n].Inputs? ==> forall j :: 0 <= j < |steps[n].sections| ==> all[|g| + j] == steps[n].sections[j];
      GatheredSteps(init, ds, short);
      forall k, i | 0 <= k < |steps| && steps[k].Inputs? && 0 <= i < |steps[k].sections|
        ensures steps[k].sections[i] in all
      {
        assert steps[k].sections[i] in steps[k].sections;
        ListedSection(commands, ds, steps, k, steps[k].sections[i]);
      }
      forall k, l, s | 0 <= k < l < |steps| && steps[k].Inputs? && steps[l].Inputs? && s in steps[k].sections
        ensures s !in steps[l].sections
      {
        if l == n {
          TwoListsApart(commands, ds, steps, k, s);
        } else {
          assert short[k] == steps[k] && short[l] == steps[l];
        }
      }
    }
  }

  /** The positions with those of the given regions moved forward. */
  function Bump(pos: Positions, regions: set<string>, amount: uint64): (r: Positions)
    ensures r.Keys == pos.Keys
  {
    map n | n in pos :: if n in regions then Add(pos[n], amount) else pos[n]
  }

  lemma BumpTwice(pos: Positions, regions: set<string>, d0: uint64, d1: uint64, d2: uint64)
    ensures Bump(Bump(pos, regions, Sub(d1, d0)), regions, Sub(d2, d1)) == Bump(pos, regions, Sub(d2, d0))
  {
    forall n | n in pos && n in regions
      ensures Add(Add(pos[n], Sub(d1, d0)), Sub(d2, d1)) == Add(pos[n], Sub(d2, d0))
    {
      ShiftTwice(pos[n], d0, d1, d2);
    }
  }

  lemma BumpByNothing(pos: Positions, regions: set<string>, size: uint64, d: uint64)
    ensures Bump(pos, regions, Sub(d, d)) == pos && Add(size, Sub(d, d)) == size
  {
  }

  lemma SizeFollows(addr: uint64, d: uint64, d': uint64)
    ensures Add(Sub(d, addr), Sub(d', d)) == Sub(d', addr)
  {
  }

  twostate lemma {:induction false} GatherSame(ds: seq<InputSectionDescription>)
    requires forall d :: d in ds ==> d.sections == old(d.sections)
    ensures Gather(ds) == old(Gather(ds))
  {
    if ds != [] {
      GatherSame(ds[..|ds| - 1]);
    }
  }

  lemma {:induction false} DescriptionListed(commands: seq<SectionCommand>, i: nat)
    requires i < |commands| && commands[i].Description?
    ensures commands[i].description in DescriptionsOf(commands)
  {
    if i < |commands| - 1 {
      DescriptionListed(commands[..|commands| - 1], i);
    }
  }

  /** The sections of one list are among the gathered ones, and as distinct as they are. */
  lemma {:induction false} ListGathered(ds: seq<InputSectionDescription>, d: InputSectionDescription)
    requires d in ds && NoDuplicates(Gather(ds)) && AllAligned(Gather(ds))
    ensures NoDuplicates(d.sections) && AllAligned(d.sections)
    ensures forall s :: s in d.sections ==> s in Gather(ds)
  {
    var init, last := ds[..|ds| - 1], ds[|ds| - 1].sections;
    var all := Gather(ds);
    assert all == Gather(init) + last;
    assert forall k :: 0 <= k < |Gather(init)| ==> all[k] == Gather(init)[k];
    assert forall k :: 0 <= k < |last| ==> all[|Gather(init)| + k] == last[k];
    if ds[|ds| - 1] != d {
      ListGathered(init, d);
    }
  }

  /**
   The lists of an output section before it is laid out: its descriptions, the sections they
   hold one after the other, and its commands.
   */
  datatype SectionLists = SectionLists(ds: seq<InputSectionDescription>, secs: seq<InputSection>, steps: seq<Step>)

  /** The lists are those of the commands, with no description and no section twice. */
  ghost predicate AreLists(commands: seq<SectionCommand>, lists: SectionLists)
    reads lists.ds
  {
    && lists.ds == DescriptionsOf(commands) && lists.secs == Gather(lists.ds)
    && AreSteps(commands, lists.ds, lists.steps)
    && NoDuplicates(lists.ds) && NoDuplicates(lists.secs) && AllAligned(lists.secs)
  }

  lemma AlignedSteps(commands: seq<SectionCommand>, lists: SectionLists)
    requires AreLists(commands, lists)
    ensures StepsAligned(lists.steps)
  {
    hide AreSteps, Gather, DescriptionsOf;
    GatheredSteps(commands, lists.ds, lists.steps);
  }

  // Where a section starts, and the state in which its first command finds the regions.

  function RegionsOf(sec: OutputSection): set<string> {
    (if sec.memRegion.Some? then {sec.memRegion.value} else {}) +
        if sec.lmaRegion.Some? then {sec.lmaRegion.value} else {}
  }

  predicate HasRegions(sec: OutputSection, pos: Positions) {
    sec.addralign != 0 && RegionsOf(sec) <= pos.Keys
  }

  /** What a pass carries from one command to the next. */
  datatype Snapshot = Snapshot(dot: uint64, tbssAddr: uint64, pos: Positions, memRegion: Option<string>,
                               lmaRegion: Option<string>, lmaOffset: uint64, backwardDot: bool)

  /** The settings of a link that the layout looks at. */
  datatype Env = Env(config: Config, inputs: seq<InputSection?>, hasSectionsCommand: bool, pageSize: uint64)

  /** Where a section starts before it is aligned. */
  function StartOf(sec: OutputSection, a: Snapshot): uint64
    requires HasRegions(sec, a.pos)
  {
    if !sec.alloc then 0
    else if sec.IsTbss() then if a.tbssAddr == 0 then a.dot else a.tbssAddr
    else if sec.addrExpr.Some? then sec.addrExpr.value
    else if sec.memRegion.Some? then a.pos[sec.memRegion.value]
    else a.dot
  }

  /** The section's address; an explicit one is not aligned under SECTIONS. */
  function AddressFor(env: Env, sec: OutputSection, a: Snapshot): uint64
    requires HasRegions(sec, a.pos)
  {
    var start := StartOf(sec, a);
    if sec.addrExpr.Some? && env.hasSectionsCommand then start else AlignTo(start, sec.addralign)
  }

  /** The positions with the section's own region brought forward to its start. */
  function FoundPos(sec: OutputSection, a: Snapshot): (r: Positions)
    requires HasRegions(sec, a.pos)
    ensures r.Keys == a.pos.Keys
  {
    var start := StartOf(sec, a);
    if sec.InRegion() && a.pos[sec.memRegion.value] < start then a.pos[sec.memRegion.value := start] else a.pos
  }

  /** The positions after the start has been aligned. */
  function AlignedPos(env: Env, sec: OutputSection, a: Snapshot): (r: Positions)
    requires HasRegions(sec, a.pos)
    ensures r.Keys == a.pos.Keys
  {
    Bump(FoundPos(sec, a), RegionsOf(sec), Sub(AddressFor(env, sec, a), StartOf(sec, a)))
  }

  /** The positions when the first command is reached: the load region is aligned too. */
  function EntryPos(env: Env, sec: OutputSection, a: Snapshot): (r: Positions)
    requires HasRegions(sec, a.pos)
    ensures r.Keys == a.pos.Keys
  {
    LoadPos(sec, AlignedPos(env, sec, a))
  }

  function LoadPos(sec: OutputSection, pos: Positions): (r: Positions)
    requires HasRegions(sec, pos)
    ensures r.Keys == pos.Keys
  {
    if sec.lmaExpr.None? && sec.lmaRegion.Some? then
      var l := sec.lmaRegion.value;
      if pos[l] < AlignTo(pos[l], sec.addralign) then pos[l := AlignTo(pos[l], sec.addralign)] else pos
    else pos
  }

  /** Load address minus address: by expression, by load region, or as for the section before. */
  function LoadOffset(env: Env, sec: OutputSection, a: Snapshot): uint64
    requires HasRegions(sec, a.pos)
  {
    var addr := AddressFor(env, sec, a);
    if sec.lmaExpr.Some? then Sub(sec.lmaExpr.value, addr)
    else if sec.lmaRegion.Some? then Sub(AlignTo(AlignedPos(env, sec, a)[sec.lmaRegion.value], sec.addralign), addr)
    else if a.memRegion != sec.memRegion || a.lmaRegion.Some? then 0
    else a.lmaOffset
  }

  /** The state after a section whose contents end at `end`. */
  function AfterSection(env: Env, sec: OutputSection, a: Snapshot, end: uint64, size: uint64, back: bool): Snapshot
    requires HasRegions(sec, a.pos)
  {
    Snapshot(if sec.alloc && !sec.IsTbss() then end else a.dot,
             if sec.alloc && sec.IsTbss() then end else a.tbssAddr,
             Bump(EntryPos(env, sec, a), RegionsOf(sec), size),
             sec.memRegion, sec.lmaRegion, LoadOffset(env, sec, a), a.backwardDot || back)
  }

  ghost predicate FitsInOrder(inputs: seq<InputSection?>, secs: seq<InputSection>, start: nat, order: seq<nat>)
    requires AllPackSections(secs)
  {
    && IsOrder(BlocksOf(inputs, secs), order)
    && Run(start, Pick(BlocksOf(inputs, secs), order)).cursor <= ADDRESS_SPACE
  }

  /** The pass over packed sections succeeds from this start. */
  ghost predicate PackFits(inputs: seq<InputSection?>, secs: seq<InputSection>, start: nat) {
    && AllPackSections(secs) && AllValidSections(secs) && start <= ADDRESS_SPACE
    && exists order :: FitsInOrder(inputs, secs, start, order)
  }

  /** The sections are where the packed run from `start` puts them, and it ends at `end`. */
  ghost predicate PackedBy(inputs: seq<InputSection?>, ds: seq<InputSectionDescription>, secs: seq<InputSection>,
                           start: nat, end: nat, order: seq<nat>)
    requires AllPackSections(secs) && ds != []
    reads ds, secs
  {
    && end <= ADDRESS_SPACE
    && ValidBlocks(BlocksOf(inputs, secs)) && IsOrder(BlocksOf(inputs, secs), order)
    && end == Run(start, Pick(BlocksOf(inputs, secs), order)).cursor
    && Committed(ds, secs, BlocksOf(inputs, secs), order, start)
  }

  ghost predicate PackedAt(inputs: seq<InputSection?>, ds: seq<InputSectionDescription>, secs: seq<InputSection>,
                           start: nat, end: nat)
    requires AllPackSections(secs)
    reads ds, secs
  {
    ds != [] && exists order :: PackedBy(inputs, ds, secs, start, end, order)
  }

  /** Packed sections lie apart, in bounds, and in the pages they need. */
  lemma PackedIsSafe(inputs: seq<InputSection?>, ds: seq<InputSectionDescription>, secs: seq<InputSection>, start: nat,
                     end: nat)
    requires AllPackSections(secs) && PackedAt(inputs, ds, secs, start, end)
    ensures SectionsSafe(start, secs, end)
  {
    hide Run, Committed, IsOrder, BlocksOf, SectionsSafe, ValidBlocks;
    var order :| PackedBy(inputs, ds, secs, start, end, order);
    assert PackedBy(inputs, ds, secs, start, end, order);
    CommittedIsSafe(ds, secs, inputs, order, start);
  }

  /** Whether the packed pass fits does not depend on the order it used. */
  lemma FitsForAnyOrder(inputs: seq<InputSection?>, secs: seq<InputSection>, start: nat, order: seq<nat>)
    requires AllPackSections(secs) && AllValidSections(secs) && start <= ADDRESS_SPACE
    requires IsOrder(BlocksOf(inputs, secs), order)
    ensures PackFits(inputs, secs, start) <==> Run(start, Pick(BlocksOf(inputs, secs), order)).cursor <= ADDRESS_SPACE
  {
    hide Run, BlocksOf;
    assert FitsInOrder(inputs, secs, start, order) <==>
        Run(start, Pick(BlocksOf(inputs, secs), order)).cursor <= ADDRESS_SPACE;
    if PackFits(inputs, secs, start) {
      var other :| FitsInOrder(inputs, secs, start, other);
      assert FitsInOrder(inputs, secs, start, other);
      SameOrderedBlocks(BlocksOf(inputs, secs), order, BlocksOf(inputs, secs), other);
    }
  }

  /**
   The contents of an output section at `addr` end at `end`: packed where the packed pass
   applies and fits, empty where it applies and fails, one command after the other otherwise.
   */
  ghost predicate ContentsEnd(env: Env, sec: OutputSection, addr: uint64, lists: SectionLists, end: uint64)
    requires StepsAligned(lists.steps)
    reads lists.ds, lists.secs
  {
    if Applicable(env.config, sec.name, sec.commands, lists.secs) then
      if PackFits(env.inputs, lists.secs, addr as nat)
      then PackedAt(env.inputs, lists.ds, lists.secs, addr as nat, end as nat)
      else end == addr
    else
      && Within(lists.steps, lists.secs)
      && end == AfterSteps(addr, lists.steps, |lists.steps|)
      && StepsPlaced(lists.secs, addr, addr, lists.steps, |lists.steps|)
  }

  /** The size that goes with the end of the contents; the last page of relro is filled up. */
  function SizeFor(sec: OutputSection, addr: uint64, end: uint64, pageSize: uint64): uint64
    requires pageSize != 0
  {
    Sub(if sec.relroPadding then AlignTo(end, pageSize) else end, addr)
  }

  lemma IsAfterSection(env: Env, sec: OutputSection, a: Snapshot, end: uint64, size: uint64, back: bool, b: Snapshot)
    requires HasRegions(sec, a.pos)
    requires b.dot == if sec.alloc && !sec.IsTbss() then end else a.dot
    requires b.tbssAddr == if sec.alloc && sec.IsTbss() then end else a.tbssAddr
    requires b.pos == Bump(EntryPos(env, sec, a), RegionsOf(sec), size)
    requires b.memRegion == sec.memRegion && b.lmaRegion == sec.lmaRegion && b.lmaOffset == LoadOffset(env, sec, a)
    requires b.backwardDot == (a.backwardDot || back)
    ensures b == AfterSection(env, sec, a, end, size, back)
  {
  }

  /** The section is laid out by its commands and one of them moves the location counter backward. */
  ghost predicate BacksUp(env: Env, sec: OutputSection, addr: uint64, secs: seq<InputSection>, steps: seq<Step>)
    requires StepsAligned(steps)
  {
    !Applicable(env.config, sec.name, sec.commands, secs) && MovesBack(addr, steps, |steps|)
  }

  /**
   The section went from `a` to `b`: its address follows from `a`, its size from where its
   contents end, and `b` from both.
   */
  ghost predicate LaidOut(env: Env, sec: OutputSection, lists: SectionLists, a: Snapshot, b: Snapshot, end: uint64)
    requires env.pageSize != 0
    reads sec, lists.ds, lists.secs
  {
    && HasRegions(sec, a.pos) && StepsAligned(lists.steps)
    && sec.addr == AddressFor(env, sec, a)
    && ContentsEnd(env, sec, sec.addr, lists, end)
    && sec.size == SizeFor(sec, sec.addr, end, env.pageSize)
    && b == AfterSection(env, sec, a, end, sec.size, BacksUp(env, sec, sec.addr, lists.secs, lists.steps))
  }
}
