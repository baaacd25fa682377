/**
 The address assignment around the allocator: one location counter, the size of the current
 output section and the positions of the memory regions are moved together.
 */
module RegionLayout {
  import opened Target
  import opened FixedWidth
  import opened LinkerObjects
  import opened PackedModel
  import opened Wrappers
  import opened PackedInvariants
  import opened PackedOrder
  import opened Sequences
  import opened PackedCommit
  import opened LayoutModel
  import opened RegionOrder

  /** The state of one assignment pass. */
  class LinkerScript {
    const env: Env
    const memoryRegions: map<string, MemoryRegion>
    var dot: uint64
    var curPos: Positions
    var memRegion: Option<string>
    var lmaRegion: Option<string>
    var outSec: OutputSection
    var tbssAddr: uint64
    var lmaOffset: uint64
    var backwardDot: bool
    // the region positions when the first command of the section was reached
    ghost var entryPos: Positions

    constructor (env: Env, memoryRegions: map<string, MemoryRegion>, imageBase: uint64, aether: OutputSection)
      requires env.pageSize != 0 && |env.inputs| < TWO64
      ensures Valid() && this.env == env && this.memoryRegions == memoryRegions && outSec == aether
      ensures Now() == Initial(imageBase, memoryRegions)
    {
      this.env := env;
      this.memoryRegions := memoryRegions;
      dot := imageBase;
      curPos := map n | n in memoryRegions :: memoryRegions[n].origin;
      memRegion, lmaRegion := None, None;
      outSec := aether;
      tbssAddr, lmaOffset, backwardDot := 0, 0, false;
      entryPos := map[];
    }

    ghost predicate Valid()
      reads this`curPos, this`memRegion, this`lmaRegion
    {
      && env.pageSize != 0 && |env.inputs| < TWO64
      && curPos.Keys == memoryRegions.Keys
      && (memRegion.Some? ==> memRegion.value in curPos)
      && (lmaRegion.Some? ==> lmaRegion.value in curPos)
    }

    ghost function Regions(): set<string>
      reads this`memRegion, this`lmaRegion
    {
      (if memRegion.Some? then {memRegion.value} else {}) + if lmaRegion.Some? then {lmaRegion.value} else {}
    }

    /** What the pass carries from one command to the next. */
    ghost function Now(): Snapshot
      reads this`dot, this`tbssAddr, this`curPos, this`memRegion, this`lmaRegion, this`lmaOffset, this`backwardDot
    {
      Snapshot(dot, tbssAddr, curPos, memRegion, lmaRegion, lmaOffset, backwardDot)
    }

    method ExpandMemoryRegion(region: string, size: uint64)
      requires region in curPos
      modifies this`curPos
      ensures curPos == Bump(old(curPos), {region}, size)
    {
      curPos := curPos[region := Add(curPos[region], size)];
    }

    /** A region that serves both purposes is expanded once. */
    method ExpandMemoryRegions(size: uint64)
      requires Valid()
      modifies this`curPos
      ensures curPos == Bump(old(curPos), Regions(), size)
    {
      if memRegion.Some? {
        ExpandMemoryRegion(memRegion.value, size);
      }
      if lmaRegion.Some? && memRegion != lmaRegion {
        ExpandMemoryRegion(lmaRegion.value, size);
      }
    }

    method ExpandOutputSection(size: uint64)
      requires Valid()
      modifies this`curPos, outSec`size
      ensures outSec.size == Add(old(outSec.size), size)
      ensures curPos == Bump(old(curPos), Regions(), size)
    {
      outSec.size := Add(outSec.size, size);
      ExpandMemoryRegions(size);
    }

    /** Since the first command, size and regions have moved in step with the location counter. */
    ghost predicate InStep()
      reads this, outSec
    {
      && Valid()
      && outSec.size == Sub(dot, outSec.addr)
      && curPos == Bump(entryPos, Regions(), outSec.size)
    }

    /** Size, location counter and region positions move by the same amount. */
    method Advance(newDot: uint64)
      requires InStep()
      modifies this`curPos, this`dot, outSec`size
      ensures InStep() && dot == newDot
    {
      SizeFollows(outSec.addr, dot, newDot);
      BumpTwice(entryPos, Regions(), outSec.addr, dot, newDot);
      ExpandOutputSection(Sub(newDot, dot));
      dot := newDot;
    }

    /** A dot assignment inside a section; moving backward is recorded and reported at the end. */
    method SetDotInSection(value: uint64)
      requires InStep()
      modifies this`curPos, this`dot, this`backwardDot, outSec`size
      ensures InStep() && dot == value
      ensures backwardDot <==> old(backwardDot) || value < old(dot)
    {
      if value < dot {
        backwardDot := true;
      }
      Advance(value);
    }

    method PlaceInput(isec: InputSection)
      requires InStep() && isec.addralign != 0
      modifies this`curPos, this`dot, outSec`size, isec
      ensures InStep()
      ensures dot == Add(AlignTo(old(dot), isec.addralign), isec.size)
      ensures isec.outSecOff == Sub(AlignTo(old(dot), isec.addralign), outSec.addr)
    {
      var aligned := AlignTo(dot, isec.addralign);
      isec.outSecOff := Sub(aligned, outSec.addr);
      Advance(Add(aligned, isec.size));
    }

    /** Lays out one list: each section at the next multiple of its alignment. */
    method PlaceInputs(secs: seq<InputSection>)
      requires InStep() && NoDuplicates(secs) && AllAligned(secs)
      modifies this`curPos, this`dot, outSec`size, secs
      ensures InStep() && dot == AfterInputs(old(dot), secs)
      ensures forall i :: 0 <= i < |secs| ==> secs[i].outSecOff == OffsetAt(old(dot), outSec.addr, secs, i)
    {
      hide InStep, AlignTo, Add, Sub, AfterInputs, OffsetAt;
      AfterNoInputs(dot, secs);
      for i := 0 to |secs|
        invariant InStep() && dot == AfterInputs(old(dot), secs[..i])
        invariant forall j :: 0 <= j < i ==> secs[j].outSecOff == OffsetAt(old(dot), outSec.addr, secs, j)
      {
        AfterOneMore(old(dot), outSec.addr, secs, i);
        PlaceInput(secs[i]);
      }
      assert secs[..|secs|] == secs;
    }

    /** One list, after the commands before it have been laid out. */
    method PlaceList(list: seq<InputSection>, ghost secs: seq<InputSection>, ghost steps: seq<Step>, ghost i: nat,
                     ghost start: uint64)
      requires i < |steps| && steps[i] == Inputs(list)
      requires StepsAligned(steps) && ListsApart(steps) && Within(steps, secs)
      requires InStep() && NoDuplicates(list) && dot == AfterSteps(start, steps, i)
      requires StepsPlaced(secs, start, outSec.addr, steps, i)
      modifies this`curPos, this`dot, outSec`size, list
      ensures InStep() && dot == AfterSteps(start, steps, i + 1)
      ensures StepsPlaced(secs, start, outSec.addr, steps, i + 1)
    {
      hide InStep, AfterInputs, OffsetAt;
      forall k, j | 0 <= k < i && steps[k].Inputs? && 0 <= j < |steps[k].sections|
        ensures steps[k].sections[j] !in list
      {
        assert steps[k].sections[j] in steps[k].sections;
      }
      PlaceInputs(list);
      assert ListPlaced(old(dot), outSec.addr, list);
      forall k | 0 <= k < i && steps[k].Inputs?
        ensures ListPlaced(AfterSteps(start, steps, k), outSec.addr, steps[k].sections)
      {
        assert old(ListPlaced(AfterSteps(start, steps, k), outSec.addr, steps[k].sections));
      }
    }

    /** The commands of a section laid out one after the other. */
    method LayOutCommands(commands: seq<SectionCommand>, ghost lists: SectionLists)
      requires AreLists(commands, lists) && InStep()
      modifies this`curPos, this`dot, this`backwardDot, outSec`size, lists.secs
      ensures InStep() && StepsAligned(lists.steps) && Within(lists.steps, lists.secs)
      ensures dot == AfterSteps(old(dot), lists.steps, |lists.steps|)
      ensures StepsPlaced(lists.secs, old(dot), outSec.addr, lists.steps, |lists.steps|)
      ensures backwardDot <==> old(backwardDot) || MovesBack(old(dot), lists.steps, |lists.steps|)
    {
      hide InStep, AllAligned, StepsPlaced, AfterInputs, Gather, DescriptionsOf, ListsApart;
      ghost var ds, secs, steps := lists.ds, lists.secs, lists.steps;
      GatheredSteps(commands, ds, steps);
      NonePlaced(secs, dot, outSec.addr, steps);
      for i := 0 to |commands|
        invariant InStep() && AreLists(commands, lists)
        invariant dot == AfterSteps(old(dot), steps, i)
        invariant StepsPlaced(secs, old(dot), outSec.addr, steps, i)
        invariant backwardDot <==> old(backwardDot) || MovesBack(old(dot), steps, i)
      {
        assert IsStep(commands[i], steps[i]);
        match commands[i] {
          case SetDot(value) =>
            NothingToPlace(secs, old(dot), outSec.addr, steps, i);
            SetDotInSection(value);
          case Data(size) =>
            NothingToPlace(secs, old(dot), outSec.addr, steps, i);
            Advance(Add(dot, size));
          case Description(d) =>
            DescriptionListed(commands, i);
            ListGathered(ds, d);
            var list := d.sections;
            assert forall k :: 0 <= k < |list| ==> list[k] in secs;
            PlaceList(list, secs, steps, i, old(dot));
        }
      }
    }

    /** Where the section starts: the dot, with the region brought up to an explicit address. */
    method FindStart(sec: OutputSection, ghost a: Snapshot)
      requires Valid() && HasRegions(sec, curPos) && memRegion == sec.memRegion && lmaRegion == sec.lmaRegion
      requires a.dot == dot && a.tbssAddr == tbssAddr && a.pos == curPos
      modifies this`dot, this`tbssAddr, this`curPos
      ensures Valid() && dot == StartOf(sec, a) && curPos == FoundPos(sec, a)
      ensures tbssAddr == if sec.alloc && sec.IsTbss() && a.tbssAddr == 0 then a.dot else a.tbssAddr
    {
      if !sec.alloc {
        dot := 0;
      } else if sec.IsTbss() {
        if tbssAddr == 0 {
          tbssAddr := dot;
        } else {
          dot := tbssAddr;
        }
      } else {
        if memRegion.Some? {
          dot := curPos[memRegion.value];
        }
        if sec.addrExpr.Some? {
          dot := sec.addrExpr.value;
        }
        if memRegion.Some? && curPos[memRegion.value] < dot {
          SizeFollows(0, curPos[memRegion.value], dot);
          ExpandMemoryRegion(memRegion.value, Sub(dot, curPos[memRegion.value]));
        }
      }
    }

    /** Aligns the start of the section; an explicit address is taken as it is. */
    method AlignStart(sec: OutputSection)
      requires Valid() && sec.addralign != 0
      modifies this`dot, this`curPos, sec`addr
      ensures Valid() && sec.addr == dot
      ensures dot == if sec.addrExpr.Some? && env.hasSectionsCommand then old(dot) else AlignTo(old(dot), sec.addralign)
      ensures curPos == Bump(old(curPos), Regions(), Sub(dot, old(dot)))
    {
      BumpByNothing(curPos, Regions(), 0, dot);
      if sec.addrExpr.Some? && env.hasSectionsCommand {
        sec.addr := dot;
      } else {
        var pos := dot;
        dot := AlignTo(dot, sec.addralign);
        sec.addr := dot;
        ExpandMemoryRegions(Sub(dot, pos));
      }
    }

    /** The load address; a load region is first moved up to the alignment. */
    method SetLoadOffset(sec: OutputSection, sameMemRegion: bool, prevLmaRegionIsDefault: bool)
      requires Valid() && HasRegions(sec, curPos) && memRegion == sec.memRegion && lmaRegion == sec.lmaRegion
      modifies this`curPos, this`lmaOffset
      ensures Valid() && curPos == LoadPos(sec, old(curPos))
      ensures lmaOffset ==
              if sec.lmaExpr.Some? then Sub(sec.lmaExpr.value, dot)
              else if sec.lmaRegion.Some? then Sub(AlignTo(old(curPos)[sec.lmaRegion.value], sec.addralign), dot)
              else if !sameMemRegion || !prevLmaRegionIsDefault then 0
              else old(lmaOffset)
    {
      if sec.lmaExpr.Some? {
        lmaOffset := Sub(sec.lmaExpr.value, dot);
      } else if sec.lmaRegion.Some? {
        var region := sec.lmaRegion.value;
        var lmaStart := AlignTo(curPos[region], sec.addralign);
        if curPos[region] < lmaStart {
          SizeFollows(0, curPos[region], lmaStart);
          ExpandMemoryRegion(region, Sub(lmaStart, curPos[region]));
        }
        lmaOffset := Sub(lmaStart, dot);
      } else if !sameMemRegion || !prevLmaRegionIsDefault {
        lmaOffset := 0;
      }
    }

    /** The address of the section, with the regions brought up to it. */
    method StartSection(sec: OutputSection, ghost a: Snapshot)
      requires Valid() && HasRegions(sec, curPos) && memRegion == sec.memRegion && lmaRegion == sec.lmaRegion
      requires a.dot == dot && a.tbssAddr == tbssAddr && a.pos == curPos
      modifies this`dot, this`tbssAddr, this`curPos, this`outSec, sec`addr
      ensures Valid() && outSec == sec && dot == sec.addr == AddressFor(env, sec, a)
      ensures curPos == AlignedPos(env, sec, a)
      ensures tbssAddr == if sec.alloc && sec.IsTbss() && a.tbssAddr == 0 then a.dot else a.tbssAddr
    {
      hide AlignTo, Bump, StartOf, FoundPos;
      FindStart(sec, a);
      outSec := sec;
      AlignStart(sec);
    }

    /** Everything before the first command: the section's address, the load offset and the regions' positions. */
    method Begin(sec: OutputSection, ghost a: Snapshot)
      requires Valid() && HasRegions(sec, curPos) && a == Now()
      modifies this`dot, this`curPos, this`memRegion, this`lmaRegion, this`outSec, this`tbssAddr, this`lmaOffset
      modifies this`entryPos, sec
      ensures InStep() && outSec == sec && sec.size == 0 && dot == sec.addr == AddressFor(env, sec, a)
      ensures curPos == entryPos == EntryPos(env, sec, a)
      ensures lmaOffset == LoadOffset(env, sec, a)
      ensures memRegion == sec.memRegion && lmaRegion == sec.lmaRegion
      ensures tbssAddr == if sec.alloc && sec.IsTbss() && a.tbssAddr == 0 then a.dot else a.tbssAddr
    {
      hide AlignTo, Bump, AddressFor, AlignedPos, LoadPos;
      var sameMemRegion := memRegion == sec.memRegion;
      var prevLmaRegionIsDefault := lmaRegion.None?;
      memRegion, lmaRegion := sec.memRegion, sec.lmaRegion;
      StartSection(sec, a);
      SetLoadOffset(sec, sameMemRegion, prevLmaRegionIsDefault);
      sec.size := 0;
      entryPos := curPos;
      BumpByNothing(curPos, Regions(), 0, dot);
    }

    /** Packs the section, or lays its commands out. */
    method FillContents(sec: OutputSection, ghost lists: SectionLists)
      requires InStep() && outSec == sec && dot == sec.addr && AreLists(sec.commands, lists)
      requires StepsAligned(lists.steps)
      modifies this`curPos, this`dot, this`backwardDot, sec`size, lists.ds, lists.secs
      ensures InStep() && ContentsEnd(env, sec, sec.addr, lists, dot)
      ensures backwardDot <==> old(backwardDot) || BacksUp(env, sec, sec.addr, lists.secs, lists.steps)
    {
      hide InStep, PackedAt, PackFits, StepsPlaced, AfterSteps, MovesBack, Applicable, AllPackSections;
      StepFacts();
      var handled := TryPack(sec, lists);
      if !handled {
        GatherSame(lists.ds);
        LayOutCommands(sec.commands, lists);
      }
    }

    lemma StepFacts()
      requires InStep()
      ensures Valid() && outSec.size == Sub(dot, outSec.addr) && curPos == Bump(entryPos, Regions(), outSec.size)
    {
    }

    /** The contents of the section; then the end is padded for .relro_padding. */
    method Fill(sec: OutputSection, ghost lists: SectionLists)
      requires InStep() && outSec == sec && dot == sec.addr && AreLists(sec.commands, lists)
      modifies this`curPos, this`dot, this`backwardDot, sec`size, lists.ds, lists.secs
      ensures Valid() && StepsAligned(lists.steps)
      ensures ContentsEnd(env, sec, sec.addr, lists, dot) && sec.size == SizeFor(sec, sec.addr, dot, env.pageSize)
      ensures curPos == Bump(entryPos, Regions(), sec.size)
      ensures backwardDot <==> old(backwardDot) || BacksUp(env, sec, sec.addr, lists.secs, lists.steps)
    {
      hide AreLists, StepsAligned, ContentsEnd, BacksUp, Bump, InStep, SizeFor;
      AlignedSteps(sec.commands, lists);
      FillContents(sec, lists);
      PadForRelro(sec);
    }

    /** The packed pass in the linker's hands: size and regions follow the end it reports. */
    method TryPack(sec: OutputSection, ghost lists: SectionLists) returns (handled: bool)
      requires Valid() && InStep() && outSec == sec && AreLists(sec.commands, lists)
      modifies this`curPos, this`dot, sec`size, lists.ds, lists.secs
      ensures InStep() && handled == Applicable(env.config, sec.name, sec.commands, lists.secs)
      ensures handled && PackFits(env.inputs, lists.secs, old(dot) as nat) ==>
                PackedAt(env.inputs, lists.ds, lists.secs, old(dot) as nat, dot as nat)
      ensures !handled || !PackFits(env.inputs, lists.secs, old(dot) as nat) ==>
                dot == old(dot) && Untouched(lists.ds, lists.secs)
    {
      hide Run, Committed, IsOrder, InStep, Gather, DescriptionsOf, ValidBlocks, AllValidSections, BlocksOf;
      hide NoDuplicates, PackFits, AreSteps;
      var packing, packedEnd;
      ghost var order;
      packing, packedEnd, order :=
        AssignSectionOffsets(env.config, sec.name, sec.commands, env.inputs, dot, lists.ds, lists.secs);
      handled := packing != NormalLayout;
      if handled {
        PackedEndNotBefore(packing, lists.secs, env.inputs, dot, packedEnd, order);
        assert packedEnd >= dot;
        PackOutcomeMeans(packing, lists.secs, env.inputs, dot as nat, order);
        if packing == Packed {
          assert PackedBy(env.inputs, lists.ds, lists.secs, dot as nat, packedEnd as nat, order);
        }
        Advance(packedEnd);
      }
    }

    twostate predicate Untouched(ds: seq<InputSectionDescription>, secs: seq<InputSection>)
      reads ds, secs
    {
      && (forall d :: d in ds ==> d.sections == old(d.sections))
      && (forall s :: s in secs ==> s.outSecOff == old(s.outSecOff))
    }

    /** The size is filled up to the end of the last page where the padding is asked for. */
    method PadForRelro(sec: OutputSection)
      requires InStep() && outSec == sec
      modifies this`curPos, sec`size
      ensures Valid() && curPos == Bump(entryPos, Regions(), sec.size)
      ensures sec.size == SizeFor(sec, sec.addr, dot, env.pageSize)
    {
      hide AlignTo;
      if sec.relroPadding {
        SizeFollows(sec.addr, dot, AlignTo(dot, env.pageSize));
        BumpTwice(entryPos, Regions(), sec.addr, dot, AlignTo(dot, env.pageSize));
        ExpandOutputSection(Sub(AlignTo(dot, env.pageSize), dot));
      }
    }

    /**
     Assigns one output section. What the pass carries on is a function of what it carried
     before and of where the contents of the section end.
     */
    method AssignOffsets(sec: OutputSection, ghost lists: SectionLists) returns (ghost end: uint64)
      requires Valid() && HasRegions(sec, curPos) && AreLists(sec.commands, lists)
      modifies this, sec, lists.ds, lists.secs
      ensures Valid() && LaidOut(env, sec, lists, old(Now()), Now(), end)
    {
      hide InStep, Bump, ContentsEnd, SizeFor, AreSteps, AddressFor, EntryPos, LoadOffset, BacksUp, AfterSection;
      hide Gather, DescriptionsOf, NoDuplicates, AllAligned;
      ghost var a := Now();
      var savedDot := dot;
      Begin(sec, a);
      Fill(sec, lists);
      end := dot;
      if !sec.alloc {
        dot := savedDot;
      } else if sec.IsTbss() {
        tbssAddr := dot;
        dot := savedDot;
      }
      IsAfterSection(env, sec, a, end, sec.size, BacksUp(env, sec, sec.addr, lists.secs, lists.steps), Now());
    }

    /** A fresh state: every region starts at its origin. */
    method Reset(imageBase: uint64, aether: OutputSection)
      requires Valid()
      modifies this
      ensures Valid() && Now() == Initial(imageBase, memoryRegions)
    {
      dot := imageBase;
      curPos := map n | n in memoryRegions :: memoryRegions[n].origin;
      memRegion, lmaRegion := None, None;
      outSec := aether;
      tbssAddr, lmaOffset, backwardDot := 0, 0, false;
    }

    /** The state of a pass before command `k`. */
    ghost predicate Reached(cmds: seq<ScriptStep>, lists: ScriptLists, trace: seq<Snapshot>, ends: seq<uint64>, k: nat)
      requires k <= |cmds| && lists.Fit(cmds)
      reads this, Outputs(cmds), lists.ds, lists.secs
    {
      && Valid()
      && |trace| == k + 1 && |ends| == k && trace[k] == Now()
      && (forall i :: k <= i < |cmds| && cmds[i].Output? ==> Ready(memoryRegions, cmds[i].sec, lists.all[i]))
      && (forall i :: 0 <= i < k ==> Took(env, cmds, lists, trace, ends, i))
    }

    method AssignOutput(cmds: seq<ScriptStep>, k: nat, ghost lists: ScriptLists, ghost trace: seq<Snapshot>,
                        ghost ends: seq<uint64>)
      returns (ghost end: uint64)
      requires k < |cmds| && cmds[k].Output? && lists.Fit(cmds) && Reached(cmds, lists, trace, ends, k)
      modifies this, Outputs(cmds), lists.ds, lists.secs
      ensures Reached(cmds, lists, trace + [Now()], ends + [end], k + 1)
    {
      hide LaidOut;
      var sec := cmds[k].sec;
      assert Ready(memoryRegions, sec, lists.all[k]);
      end := AssignOffsets(sec, lists.all[k]);
      forall i | k < i < |cmds| && cmds[i].Output? ensures Ready(memoryRegions, cmds[i].sec, lists.all[i]) {
        var ds := lists.all[i].ds;
        assert forall d :: d in ds ==> d !in lists.all[k].ds && d.sections == old(d.sections);
        GatherSame(ds);
        assert old(AreSteps(cmds[i].sec.commands, ds, lists.all[i].steps));
      }
      forall i | 0 <= i < k ensures Took(env, cmds, lists, trace + [Now()], ends + [end], i) {
        assert old(Took(env, cmds, lists, trace, ends, i));
        if cmds[i].Output? {
          var ds, secs := lists.all[i].ds, lists.all[i].secs;
          assert cmds[i].sec != sec;
          assert forall j :: 0 <= j < |ds| ==> ds[j] in ds && ds[j] !in lists.all[k].ds;
          assert forall j :: 0 <= j < |secs| ==> secs[j] in secs && secs[j] !in lists.all[k].secs;
          assert LaidOut(env, cmds[i].sec, lists.all[i], trace[i], trace[i + 1], ends[i]);
        }
      }
    }

    /** An assignment outside the sections moves nothing but the location counter. */
    method Assign(cmds: seq<ScriptStep>, k: nat, ghost lists: ScriptLists, ghost trace: seq<Snapshot>,
                  ghost ends: seq<uint64>)
      requires k < |cmds| && !cmds[k].Output? && lists.Fit(cmds) && Reached(cmds, lists, trace, ends, k)
      modifies this`dot
      ensures Reached(cmds, lists, trace + [Now()], ends + [0], k + 1)
    {
      hide LaidOut, Ready;
      if cmds[k].AssignDot? {
        dot := cmds[k].value;
      }
      forall i | k < i < |cmds| && cmds[i].Output? ensures Ready(memoryRegions, cmds[i].sec, lists.all[i]) {
        var ds := lists.all[i].ds;
        assert forall j :: 0 <= j < |ds| ==> ds[j].sections == old(ds[j].sections);
        assert old(Ready(memoryRegions, cmds[i].sec, lists.all[i]));
      }
      forall i | 0 <= i < k ensures Took(env, cmds, lists, trace + [Now()], ends + [0], i) {
        assert old(Took(env, cmds, lists, trace, ends, i));
        if cmds[i].Output? {
          var ds, secs := lists.all[i].ds, lists.all[i].secs;
          assert forall j :: 0 <= j < |ds| ==> ds[j].sections == old(ds[j].sections);
          assert forall j :: 0 <= j < |secs| ==> secs[j].outSecOff == old(secs[j].outSecOff);
          assert LaidOut(env, cmds[i].sec, lists.all[i], trace[i], trace[i + 1], ends[i]);
        }
      }
    }

    /**
     The whole pass, with the states it goes through. Every command takes its step. The error
     about moving backward is recorded exactly when a section's commands do so. If no address
     lies before its region, nothing moves backward and no addition overflows, the sections of
     every region are disjoint and ascending from the region's origin on.
     */
    method AssignAddresses(cmds: seq<ScriptStep>, imageBase: uint64, aether: OutputSection, ghost lists: ScriptLists)
      returns (ghost trace: seq<Snapshot>, ghost ends: seq<uint64>)
      requires Valid() && lists.Fit(cmds)
      requires forall i :: 0 <= i < |cmds| && cmds[i].Output? ==> Ready(memoryRegions, cmds[i].sec, lists.all[i])
      modifies this, Outputs(cmds), lists.ds, lists.secs
      ensures Valid() && |trace| == |cmds| + 1 && |ends| == |cmds|
      ensures trace[0] == Initial(imageBase, memoryRegions) && trace[|cmds|] == Now()
      ensures forall i :: 0 <= i < |cmds| ==> Took(env, cmds, lists, trace, ends, i)
      ensures backwardDot <==> exists i :: 0 <= i < |cmds| && MovedBack(env, cmds, lists, i)
      ensures (forall i :: 0 <= i < |cmds| ==> InOrder(env, cmds, lists, trace, ends, i)) ==>
                RegionsLaidOut(memoryRegions, curPos, cmds, |cmds|)
    {
      hide Reached, Took, Ready;
      Reset(imageBase, aether);
      trace, ends := [Now()], [];
      forall i | 0 <= i < |cmds| && cmds[i].Output? ensures Ready(memoryRegions, cmds[i].sec, lists.all[i]) {
        var ds := lists.all[i].ds;
        assert forall j :: 0 <= j < |ds| ==> ds[j].sections == old(ds[j].sections);
        assert old(Ready(memoryRegions, cmds[i].sec, lists.all[i]));
      }
      AtStart(cmds, lists);
      for k := 0 to |cmds|
        invariant Reached(cmds, lists, trace, ends, k)
        invariant |trace| == k + 1 && |ends| == k && trace[0] == Initial(imageBase, memoryRegions)
      {
        ghost var end: uint64 := 0;
        match cmds[k] {
          case AssignDot(_) =>
            Assign(cmds, k, lists, trace, ends);
          case AssignSymbol =>
            Assign(cmds, k, lists, trace, ends);
          case Output(_) =>
            end := AssignOutput(cmds, k, lists, trace, ends);
        }
        trace, ends := trace + [Now()], ends + [end];
      }
      AtEnd(cmds, lists, trace, ends);
      BackwardRecorded(env, cmds, lists, trace, ends, |cmds|);
      if forall i :: 0 <= i < |cmds| ==> InOrder(env, cmds, lists, trace, ends, i) {
        OrderlyPass(env, memoryRegions, cmds, lists, trace, ends, imageBase, |cmds|);
      }
    }

    lemma AtStart(cmds: seq<ScriptStep>, lists: ScriptLists)
      requires lists.Fit(cmds) && Valid()
      requires forall i :: 0 <= i < |cmds| && cmds[i].Output? ==> Ready(memoryRegions, cmds[i].sec, lists.all[i])
      ensures Reached(cmds, lists, [Now()], [], 0)
    {
      hide Ready;
    }

    lemma AtEnd(cmds: seq<ScriptStep>, lists: ScriptLists, trace: seq<Snapshot>, ends: seq<uint64>)
      requires lists.Fit(cmds) && Reached(cmds, lists, trace, ends, |cmds|)
      ensures Valid() && |trace| == |cmds| + 1 && |ends| == |cmds| && trace[|cmds|] == Now()
      ensures forall i :: 0 <= i < |cmds| ==> Took(env, cmds, lists, trace, ends, i)
    {
      hide Ready, LaidOut;
    }
  }

  lemma PackOutcomeMeans(packing: PackOutcome, secs: seq<InputSection>, inputs: seq<InputSection?>, start: nat,
                         order: seq<nat>)
    requires AllPackSections(secs) && packing != NormalLayout
    requires packing == Packed ==> AllValidSections(secs) && start <= ADDRESS_SPACE
    requires AllValidSections(secs) && start <= ADDRESS_SPACE ==>
               && IsOrder(BlocksOf(inputs, secs), order)
               && (packing == Packed <==> Run(start, Pick(BlocksOf(inputs, secs), order)).cursor <= ADDRESS_SPACE)
    ensures packing == Packed <==> PackFits(inputs, secs, start)
  {
    if AllValidSections(secs) && start <= ADDRESS_SPACE {
      FitsForAnyOrder(inputs, secs, start, order);
    }
  }

  /** The end the packed layout reports is never before its start. */
  lemma PackedEndNotBefore(packing: PackOutcome, secs: seq<InputSection>, inputs: seq<InputSection?>,
                           start: uint64, end: uint64, order: seq<nat>)
    requires packing != Packed ==> end == start
    requires packing == Packed ==>
               && AllPackSections(secs) && ValidBlocks(BlocksOf(inputs, secs)) && IsOrder(BlocksOf(inputs, secs), order)
               && end as nat == Run(start as nat, Pick(BlocksOf(inputs, secs), order)).cursor
    ensures start <= end
  {
    if packing == Packed {
      OrderKeepsValid(BlocksOf(inputs, secs), order);
      RunHoles(start as nat, Pick(BlocksOf(inputs, secs), order));
    }
  }
}
