/**
 What a whole assignment pass does to the memory regions: when their sections come out disjoint
 and ascending, and when a backward move is reported.
 */
module RegionOrder {
  import opened FixedWidth
  import opened LinkerObjects
  import opened PackedInvariants
  import opened PackedOrder
  import opened Sequences
  import opened Wrappers
  import opened PackedCommit
  import opened LayoutModel

  /** A command at the top of the script; the values of assignments are given. */
  datatype ScriptStep = AssignDot(value: uint64) | AssignSymbol | Output(sec: OutputSection)

  /** The lists of every command of a script; no list and no output section appears twice. */
  datatype ScriptLists = ScriptLists(all: seq<SectionLists>, ds: set<InputSectionDescription>, secs: set<InputSection>)
  {
    ghost predicate Fit(cmds: seq<ScriptStep>) {
      && |cmds| == |all|
      && (forall i, d :: 0 <= i < |all| && d in all[i].ds ==> d in ds)
      && (forall i, s :: 0 <= i < |all| && s in all[i].secs ==> s in secs)
      && (forall i, j, d :: 0 <= i < j < |all| && d in all[i].ds ==> d !in all[j].ds)
      && (forall i, j, s :: 0 <= i < j < |all| && s in all[i].secs ==> s !in all[j].secs)
      && (forall i, j :: 0 <= i < j < |cmds| && cmds[i].Output? && cmds[j].Output? ==> cmds[i].sec != cmds[j].sec)
    }
  }

  ghost function Outputs(cmds: seq<ScriptStep>): set<OutputSection> {
    set c | c in cmds && c.Output? :: c.sec
  }

  /** The state in which a pass begins: every region at its origin. */
  function Initial(imageBase: uint64, regions: map<string, MemoryRegion>): Snapshot {
    Snapshot(imageBase, 0, map n | n in regions :: regions[n].origin, None, None, 0, false)
  }

  /** The regions and lists of a section are those of the script. */
  ghost predicate Ready(regions: map<string, MemoryRegion>, sec: OutputSection, lists: SectionLists)
    reads lists.ds
  {
    sec.addralign != 0 && RegionsOf(sec) <= regions.Keys && AreLists(sec.commands, lists)
  }

  /**
   Command `i` took the pass from `trace[i]` to `trace[i + 1]`; the contents of a section end
   at `ends[i]`.
   */
  ghost predicate Took(env: Env, cmds: seq<ScriptStep>, lists: ScriptLists, trace: seq<Snapshot>, ends: seq<uint64>,
                       i: nat)
    requires env.pageSize != 0 && lists.Fit(cmds) && i < |cmds| && i + 1 < |trace| && i < |ends|
    reads Outputs(cmds), lists.ds, lists.secs
  {
    match cmds[i]
    case AssignDot(value) => trace[i + 1] == trace[i].(dot := value)
    case AssignSymbol => trace[i + 1] == trace[i]
    case Output(sec) => LaidOut(env, sec, lists.all[i], trace[i], trace[i + 1], ends[i])
  }

  // Backward moves.

  /** Command `i` is a section whose commands move the location counter backward. */
  ghost predicate MovedBack(env: Env, cmds: seq<ScriptStep>, lists: ScriptLists, i: nat)
    requires lists.Fit(cmds) && i < |cmds|
    reads Outputs(cmds)
  {
    && cmds[i].Output? && StepsAligned(lists.all[i].steps)
    && BacksUp(env, cmds[i].sec, cmds[i].sec.addr, lists.all[i].secs, lists.all[i].steps)
  }

  /** The error is recorded exactly when some section moved backward. */
  lemma {:induction false} BackwardRecorded(env: Env, cmds: seq<ScriptStep>, lists: ScriptLists, trace: seq<Snapshot>,
                                           ends: seq<uint64>, n: nat)
    requires env.pageSize != 0 && lists.Fit(cmds) && n <= |cmds| == |ends| && |trace| == |cmds| + 1
    requires !trace[0].backwardDot && forall i :: 0 <= i < n ==> Took(env, cmds, lists, trace, ends, i)
    ensures trace[n].backwardDot <==> exists i :: 0 <= i < n && MovedBack(env, cmds, lists, i)
  {
    hide ContentsEnd, BacksUp;
    if n > 0 {
      BackwardRecorded(env, cmds, lists, trace, ends, n - 1);
      assert Took(env, cmds, lists, trace, ends, n - 1);
      assert trace[n].backwardDot <==> trace[n - 1].backwardDot || MovedBack(env, cmds, lists, n - 1);
    }
  }

  // Regions.

  predicate Occupies(c: ScriptStep) {
    c.Output? && c.sec.InRegion()
  }

  ghost function End(sec: OutputSection): nat
    reads sec
  {
    sec.addr as nat + sec.size as nat
  }

  /** Between the origin of its region and the region's position. */
  ghost predicate Inside(regions: map<string, MemoryRegion>, pos: Positions, sec: OutputSection)
    requires sec.memRegion.Some?
    reads sec
  {
    var region := sec.memRegion.value;
    region in regions && region in pos && regions[region].origin <= sec.addr && End(sec) <= pos[region] as nat
  }

  ghost function FirstOutputs(cmds: seq<ScriptStep>, n: nat): set<OutputSection>
    requires n <= |cmds|
  {
    set i | 0 <= i < n && cmds[i].Output? :: cmds[i].sec
  }

  /** The sections of a region placed so far lie in it one after the other. */
  ghost predicate RegionsLaidOut(regions: map<string, MemoryRegion>, pos: Positions, cmds: seq<ScriptStep>, n: nat)
    requires n <= |cmds|
    reads FirstOutputs(cmds, n)
  {
    && (forall i :: 0 <= i < n && Occupies(cmds[i]) ==> Inside(regions, pos, cmds[i].sec))
    && (forall i, j :: 0 <= i < j < n && Occupies(cmds[i]) && Occupies(cmds[j])
                       && cmds[i].sec.memRegion == cmds[j].sec.memRegion ==>
         End(cmds[i].sec) <= cmds[j].sec.addr as nat)
  }

  ghost predicate NoneBack(before: Positions, after: Positions) {
    before.Keys == after.Keys && forall n :: n in before ==> before[n] <= after[n]
  }

  /** One more section, placed at or after its region's position, keeps the regions in order. */
  lemma NextLaidOut(regions: map<string, MemoryRegion>, pos: Positions, pos': Positions, cmds: seq<ScriptStep>, k: nat)
    requires k < |cmds| && RegionsLaidOut(regions, pos, cmds, k) && NoneBack(pos, pos')
    requires Occupies(cmds[k]) ==>
               var region := cmds[k].sec.memRegion.value;
               && region in regions && region in pos && regions[region].origin <= pos[region]
               && pos[region] <= cmds[k].sec.addr && End(cmds[k].sec) <= pos'[region] as nat
    ensures RegionsLaidOut(regions, pos', cmds, k + 1)
  {
    forall i | 0 <= i < k && Occupies(cmds[i])
      ensures Inside(regions, pos', cmds[i].sec) && End(cmds[i].sec) <= pos[cmds[i].sec.memRegion.value] as nat
    {
      assert Inside(regions, pos, cmds[i].sec);
    }
  }

  // What a script has to keep to.

  predicate SumFits(x: uint64, y: uint64) {
    x as nat + y as nat < TWO64
  }

  /** Neither aligning nor adding the sizes of the first `n` sections overflows. */
  predicate InputsFit(dot: uint64, secs: seq<InputSection>, n: nat)
    requires AllAligned(secs) && n <= |secs|
  {
    n > 0 ==>
      var d, s := AfterInputs(dot, secs[..n - 1]), secs[n - 1];
      && InputsFit(dot, secs, n - 1)
      && SumFits(d, s.addralign - 1) && SumFits(AlignTo(d, s.addralign), s.size)
  }

  predicate StepsFit(dot: uint64, steps: seq<Step>, n: nat)
    requires StepsAligned(steps) && n <= |steps|
  {
    n > 0 ==>
      var d := AfterSteps(dot, steps, n - 1);
      && StepsFit(dot, steps, n - 1)
      && match steps[n - 1] {
           case MoveDot(_) => true
           case Bytes(size) => SumFits(d, size)
           case Inputs(sections) => InputsFit(d, sections, |sections|)
         }
  }

  /** The regions of a section can grow by an amount. */
  predicate RegionsFit(pos: Positions, sec: OutputSection, amount: uint64) {
    forall n :: n in pos && n in RegionsOf(sec) ==> SumFits(pos[n], amount)
  }

  /** An explicit address does not lie before the position of the section's region. */
  predicate AddressAhead(sec: OutputSection, a: Snapshot)
    requires HasRegions(sec, a.pos)
  {
    sec.InRegion() && sec.addrExpr.Some? ==> a.pos[sec.memRegion.value] <= sec.addrExpr.value
  }

  /** No addition overflows up to the first command. */
  predicate StartFits(env: Env, sec: OutputSection, a: Snapshot)
    requires HasRegions(sec, a.pos)
  {
    && SumFits(StartOf(sec, a), sec.addralign - 1)
    && RegionsFit(FoundPos(sec, a), sec, Sub(AddressFor(env, sec, a), StartOf(sec, a)))
  }

  /** No addition overflows from the first command on, and none of the commands moves backward. */
  ghost predicate ContentsFit(env: Env, sec: OutputSection, lists: SectionLists, a: Snapshot)
    requires env.pageSize != 0 && HasRegions(sec, a.pos) && StepsAligned(lists.steps)
  {
    var addr := AddressFor(env, sec, a);
    && !BacksUp(env, sec, addr, lists.secs, lists.steps)
    && (!Applicable(env.config, sec.name, sec.commands, lists.secs) ==> StepsFit(addr, lists.steps, |lists.steps|))
  }

  /** The last page and the regions can take a section that ends at `end`. */
  predicate EndFits(env: Env, sec: OutputSection, a: Snapshot, end: uint64)
    requires env.pageSize != 0 && HasRegions(sec, a.pos)
  {
    && (sec.relroPadding ==> SumFits(end, env.pageSize - 1))
    && RegionsFit(EntryPos(env, sec, a), sec, SizeFor(sec, AddressFor(env, sec, a), end, env.pageSize))
  }

  /** Command `i` keeps to all of these. */
  ghost predicate InOrder(env: Env, cmds: seq<ScriptStep>, lists: ScriptLists, trace: seq<Snapshot>, ends: seq<uint64>,
                          i: nat)
    requires env.pageSize != 0 && lists.Fit(cmds) && i < |cmds| && i < |trace| && i < |ends|
  {
    cmds[i].Output? ==>
      var sec, a, steps := cmds[i].sec, trace[i], lists.all[i].steps;
      && HasRegions(sec, a.pos) && StepsAligned(steps)
      && AddressAhead(sec, a) && StartFits(env, sec, a)
      && ContentsFit(env, sec, lists.all[i], a) && EndFits(env, sec, a, ends[i])
  }

  // What follows.

  lemma {:induction false} InputsAdvance(dot: uint64, secs: seq<InputSection>, n: nat)
    requires AllAligned(secs) && n <= |secs| && InputsFit(dot, secs, n)
    ensures dot <= AfterInputs(dot, secs[..n])
  {
    hide AlignTo;
    if n > 0 {
      InputsAdvance(dot, secs, n - 1);
      AfterOneMore(dot, 0, secs, n - 1);
      AlignedIsAfter(AfterInputs(dot, secs[..n - 1]), secs[n - 1].addralign);
    }
  }

  lemma AlignedIsAfter(v: uint64, align: uint64)
    requires align != 0 && SumFits(v, align - 1)
    ensures v <= AlignTo(v, align)
  {
  }

  lemma {:induction false} StepsAdvance(dot: uint64, steps: seq<Step>, n: nat)
    requires StepsAligned(steps) && n <= |steps| && StepsFit(dot, steps, n) && !MovesBack(dot, steps, n)
    ensures dot <= AfterSteps(dot, steps, n)
  {
    hide AfterInputs, InputsFit;
    if n > 0 {
      StepsAdvance(dot, steps, n - 1);
      if steps[n - 1].Inputs? {
        var secs := steps[n - 1].sections;
        InputsAdvance(AfterSteps(dot, steps, n - 1), secs, |secs|);
        assert secs[..|secs|] == secs;
      }
    }
  }

  lemma PackedEndIsAfter(env: Env, ds: seq<InputSectionDescription>, secs: seq<InputSection>, start: nat, end: nat)
    requires AllPackSections(secs) && PackedAt(env.inputs, ds, secs, start, end)
    ensures start <= end
  {
    hide BlocksOf, Committed;
    var order :| PackedBy(env.inputs, ds, secs, start, end, order);
    assert PackedBy(env.inputs, ds, secs, start, end, order);
    OrderKeepsValid(BlocksOf(env.inputs, secs), order);
    RunHoles(start, Pick(BlocksOf(env.inputs, secs), order));
  }

  lemma ContentsAdvance(env: Env, sec: OutputSection, lists: SectionLists, a: Snapshot, end: uint64)
    requires env.pageSize != 0 && HasRegions(sec, a.pos) && StepsAligned(lists.steps)
    requires ContentsEnd(env, sec, AddressFor(env, sec, a), lists, end) && ContentsFit(env, sec, lists, a)
    ensures AddressFor(env, sec, a) <= end
  {
    hide AfterSteps, StepsFit, MovesBack, PackedAt, PackFits, AllPackSections, AddressFor;
    var addr := AddressFor(env, sec, a);
    if !Applicable(env.config, sec.name, sec.commands, lists.secs) {
      StepsAdvance(addr, lists.steps, |lists.steps|);
    } else if PackFits(env.inputs, lists.secs, addr as nat) {
      PackedEndIsAfter(env, lists.ds, lists.secs, addr as nat, end as nat);
    }
  }

  lemma BumpAdvances(pos: Positions, sec: OutputSection, amount: uint64)
    requires RegionsFit(pos, sec, amount)
    ensures NoneBack(pos, Bump(pos, RegionsOf(sec), amount))
    ensures forall n :: n in pos && n in RegionsOf(sec) ==>
              Bump(pos, RegionsOf(sec), amount)[n] as nat == pos[n] as nat + amount as nat
  {
  }

  /** The start of a section that occupies its region is the region's position, brought up to it. */
  lemma StartAdvances(env: Env, sec: OutputSection, a: Snapshot)
    requires HasRegions(sec, a.pos) && AddressAhead(sec, a) && StartFits(env, sec, a)
    ensures NoneBack(a.pos, EntryPos(env, sec, a))
    ensures sec.InRegion() ==>
              var r := sec.memRegion.value;
              a.pos[r] <= AddressFor(env, sec, a) <= EntryPos(env, sec, a)[r]
  {
    hide AlignTo, Bump;
    var start, addr := StartOf(sec, a), AddressFor(env, sec, a);
    AlignedIsAfter(start, sec.addralign);
    var found, aligned := FoundPos(sec, a), AlignedPos(env, sec, a);
    BumpAdvances(found, sec, Sub(addr, start));
    assert NoneBack(aligned, LoadPos(sec, aligned));
  }

  /** A section that keeps to the conditions moves no region backward and lies between the region's positions. */
  lemma SectionAdvances(env: Env, sec: OutputSection, lists: SectionLists, a: Snapshot, b: Snapshot, end: uint64)
    requires env.pageSize != 0 && LaidOut(env, sec, lists, a, b, end)
    requires AddressAhead(sec, a) && StartFits(env, sec, a) && ContentsFit(env, sec, lists, a)
    requires EndFits(env, sec, a, end)
    ensures NoneBack(a.pos, b.pos)
    ensures sec.InRegion() ==>
              var r := sec.memRegion.value;
              a.pos[r] <= sec.addr && End(sec) <= b.pos[r] as nat
  {
    hide AlignTo, Bump, ContentsEnd, ContentsFit, StartFits, EntryPos, AddressFor, BacksUp, LoadOffset;
    StartAdvances(env, sec, a);
    ContentsAdvance(env, sec, lists, a, end);
    if sec.relroPadding {
      AlignedIsAfter(end, env.pageSize);
    }
    BumpAdvances(EntryPos(env, sec, a), sec, sec.size);
  }

  /**
   If every section keeps to the conditions, the sections of every region are disjoint and
   ascending from the region's origin on.
   */
  lemma {:induction false} OrderlyPass(env: Env, regions: map<string, MemoryRegion>, cmds: seq<ScriptStep>,
                                       lists: ScriptLists, trace: seq<Snapshot>, ends: seq<uint64>,
                                       imageBase: uint64, n: nat)
    requires env.pageSize != 0 && lists.Fit(cmds) && n <= |cmds| == |ends| && |trace| == |cmds| + 1
    requires trace[0] == Initial(imageBase, regions)
    requires forall i :: 0 <= i < n ==>
               Took(env, cmds, lists, trace, ends, i) && InOrder(env, cmds, lists, trace, ends, i)
    ensures RegionsLaidOut(regions, trace[n].pos, cmds, n)
    ensures trace[n].pos.Keys == regions.Keys && forall r :: r in regions ==> regions[r].origin <= trace[n].pos[r]
  {
    hide RegionsLaidOut, LaidOut, AddressAhead, StartFits, ContentsFit, EndFits;
    if n == 0 {
      NothingLaidOut(regions, trace[0].pos, cmds);
    } else {
      OrderlyPass(env, regions, cmds, lists, trace, ends, imageBase, n - 1);
      assert Took(env, cmds, lists, trace, ends, n - 1) && InOrder(env, cmds, lists, trace, ends, n - 1);
      if cmds[n - 1].Output? {
        SectionAdvances(env, cmds[n - 1].sec, lists.all[n - 1], trace[n - 1], trace[n], ends[n - 1]);
        RegionOfSection(cmds[n - 1].sec, trace[n - 1].pos);
      }
      NextLaidOut(regions, trace[n - 1].pos, trace[n].pos, cmds, n - 1);
    }
  }

  lemma RegionOfSection(sec: OutputSection, pos: Positions)
    requires HasRegions(sec, pos)
    ensures sec.InRegion() ==> sec.memRegion.value in pos
  {
  }

  lemma NothingLaidOut(regions: map<string, MemoryRegion>, pos: Positions, cmds: seq<ScriptStep>)
    ensures RegionsLaidOut(regions, pos, cmds, 0)
  {
  }

  // The final check.

  /** The check of a section against its region, in wrapping arithmetic. */
  predicate Overflows(region: MemoryRegion, addr: uint64, size: uint64) {
    Add(addr, size) > Add(region.origin, region.length)
  }

  /** When the regions are in order, a section passes the final check exactly when it lies in its region. */
  lemma CheckedSectionsInside(regions: map<string, MemoryRegion>, pos: Positions, cmds: seq<ScriptStep>, i: nat)
    requires RegionsLaidOut(regions, pos, cmds, |cmds|) && i < |cmds| && Occupies(cmds[i])
    ensures var sec := cmds[i].sec;
            && sec.memRegion.value in regions
            && var region := regions[sec.memRegion.value];
            && region.origin <= sec.addr
            && (region.origin as nat + region.length as nat < TWO64 ==>
                 (!Overflows(region, sec.addr, sec.size) <==> End(sec) <= region.origin as nat + region.length as nat))
  {
    assert Inside(regions, pos, cmds[i].sec);
  }
}
