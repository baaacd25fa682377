/**
 The one-object converter: sections in file order, 16-bit fields only. On a stated common
 domain it gives the bytes the legacy linker gives.
 */
module Elf2Bin {
  import opened Wrappers
  import opened Patches
  import opened Relocate
  import opened LegacyObjects
  import opened LegacySymbols
  import opened LegacyLayout
  import opened LegacyLink

  predicate IsKept(s: Section) {
    !s.kind.OtherType? && s.size > 0
  }

  /** The sections with a size and contents, or with a size and zeros, among the first `n`. */
  function KeptUpTo(sections: seq<Section>, n: nat): seq<Taken>
    requires n <= |sections|
  {
    if n == 0 then []
    else
      var s := sections[n - 1];
      KeptUpTo(sections, n - 1) + if IsKept(s) then [Entry(0, n - 1, s)] else []
  }

  function Kept(obj: Object): seq<Taken> {
    KeptUpTo(obj.sections, |obj.sections|)
  }

  predicate IsEntryFor(k: Taken, sections: seq<Section>, n: nat)
    requires n <= |sections|
  {
    && k.obj == 0 && k.sec < n && IsKept(sections[k.sec])
    && k == Entry(0, k.sec, sections[k.sec])
  }

  lemma {:induction false} KeptFacts(sections: seq<Section>, n: nat)
    requires n <= |sections|
    ensures forall k :: 0 <= k < |KeptUpTo(sections, n)| ==> IsEntryFor(KeptUpTo(sections, n)[k], sections, n)
    ensures KeysDistinct(KeptUpTo(sections, n))
    ensures forall i :: 0 <= i < n && IsKept(sections[i]) ==>
              exists k :: 0 <= k < |KeptUpTo(sections, n)| && Key(KeptUpTo(sections, n)[k]) == (0, i)
  {
    hide Contents, IsKept, KeptUpTo, IsEntryFor;
    KeptNext(sections, n);
    if n > 0 {
      KeptFacts(sections, n - 1);
      var x, y := KeptUpTo(sections, n - 1), KeptUpTo(sections, n);
      forall k | 0 <= k < |y| ensures IsEntryFor(y[k], sections, n) {
        if k < |x| {
          EntryStays(x[k], sections, n - 1);
        }
      }
      forall i, j | 0 <= i < j < |y| ensures Key(y[i]) != Key(y[j]) {
        assert y[i] == x[i];
        if j == |x| {
          EntryKey(x[i], sections, n - 1);
        }
      }
      forall i | 0 <= i < n && IsKept(sections[i]) ensures exists k :: 0 <= k < |y| && Key(y[k]) == (0, i) {
        if i < n - 1 {
          var k :| 0 <= k < |x| && Key(x[k]) == (0, i);
          assert y[k] == x[k];
        } else {
          assert Key(y[|x|]) == (0, i);
        }
      }
    }
  }

  /** The next section, if it is kept, is entered after the others. */
  lemma KeptNext(sections: seq<Section>, n: nat)
    requires n <= |sections|
    ensures n == 0 ==> KeptUpTo(sections, n) == []
    ensures n > 0 ==>
              var x, y := KeptUpTo(sections, n - 1), KeptUpTo(sections, n);
              if IsKept(sections[n - 1])
              then |y| == |x| + 1 && y == x + [y[|x|]] && IsEntryFor(y[|x|], sections, n) && Key(y[|x|]) == (0, n - 1)
              else y == x
  {
    hide Contents;
  }

  lemma EntryStays(e: Taken, sections: seq<Section>, n: nat)
    requires n < |sections| && IsEntryFor(e, sections, n)
    ensures IsEntryFor(e, sections, n + 1)
  {
    hide Contents, IsKept;
  }

  lemma EntryKey(e: Taken, sections: seq<Section>, n: nat)
    requires n <= |sections| && IsEntryFor(e, sections, n)
    ensures Key(e) == (0, e.sec) && e.sec < n
  {
    hide Contents, IsKept;
  }

  method CollectKept(sections: seq<Section>) returns (kept: seq<Taken>)
    ensures kept == KeptUpTo(sections, |sections|)
  {
    hide Contents;
    kept := [];
    for i := 0 to |sections|
      invariant kept == KeptUpTo(sections, i)
    {
      var s := sections[i];
      if IsKept(s) {
        kept := kept + [Entry(0, i, s)];
      }
    }
  }

  /** The buffer after the first `k` sections: only those with contents are copied. */
  function ContentsUpTo(sections: seq<Section>, kept: seq<Taken>, k: nat): seq<byte>
    requires k <= |kept| && forall i :: 0 <= i < |kept| ==> kept[i].sec < |sections|
  {
    if k == 0 then Zeros(SizeOf(kept))
    else
      var before := ContentsUpTo(sections, kept, k - 1);
      if sections[kept[k - 1].sec].kind.Progbits?
      then SliceAssign(before, SizeOf(kept[..k - 1]), SizeOf(kept[..k]), kept[k - 1].data)
      else before
  }

  function ContentsOf(sections: seq<Section>, kept: seq<Taken>): seq<byte>
    requires forall i :: 0 <= i < |kept| ==> kept[i].sec < |sections|
  {
    ContentsUpTo(sections, kept, |kept|)
  }

  /** Copies the sections that have contents into a zeroed buffer; the others stay zero. */
  method CopyContents(sections: seq<Section>, kept: seq<Taken>) returns (output: seq<byte>)
    requires forall k :: 0 <= k < |kept| ==> IsEntryFor(kept[k], sections, |sections|)
    ensures forall k :: 0 <= k < |kept| ==> kept[k].sec < |sections|
    ensures output == ContentsOf(sections, kept)
    ensures AllWellSized(kept) ==> output == Flat(kept)
  {
    hide SliceAssign, IsEntryFor, SizeOf;
    forall k | 0 <= k < |kept| ensures kept[k].sec < |sections| {
      EntryKey(kept[k], sections, |sections|);
    }
    NothingFlat(kept);
    assert kept[..|kept|] == kept;
    var total := 0;
    for k := 0 to |kept|
      invariant total == SizeOf(kept[..k])
    {
      SizeOfNext(kept, k);
      total := total + kept[k].size;
    }
    output := Zeros(total);
    var offset := 0;
    for k := 0 to |kept|
      invariant offset == SizeOf(kept[..k]) && output == ContentsUpTo(sections, kept, k)
    {
      SizeOfNext(kept, k);
      if sections[kept[k].sec].kind.Progbits? {
        output := SliceAssign(output, offset, offset + kept[k].size, kept[k].data);
      }
      offset := offset + kept[k].size;
    }
    if AllWellSized(kept) {
      ContentsAreFlat(sections, kept, |kept|);
    }
  }

  /** Leaving a section of zeros alone is the same as copying it, when all data is there. */
  lemma {:induction false} ContentsAreFlat(sections: seq<Section>, kept: seq<Taken>, k: nat)
    requires AllWellSized(kept) && k <= |kept|
    requires forall i :: 0 <= i < |kept| ==> IsEntryFor(kept[i], sections, |sections|) && kept[i].sec < |sections|
    ensures SizeOf(kept[..k]) <= SizeOf(kept)
    ensures ContentsUpTo(sections, kept, k) == Flat(kept[..k]) + Zeros(SizeOf(kept) - SizeOf(kept[..k]))
  {
    hide SizeOf, Flat, SliceAssign, Zeros, IsEntryFor;
    SizeMonotone(kept, k);
    if k == 0 {
      NothingFlat(kept);
    } else {
      ContentsAreFlat(sections, kept, k - 1);
      SizeOfNext(kept, k - 1);
      FlatNext(kept, k - 1);
      FlatLength(kept[..k - 1]);
      var room := SizeOf(kept) - SizeOf(kept[..k - 1]);
      if sections[kept[k - 1].sec].kind.Progbits? {
        IntoZeros(Flat(kept[..k - 1]), room, kept[k - 1].data);
      } else {
        EntryOfZeros(kept[k - 1], sections);
        ZerosTogether(kept[k - 1].size, room - kept[k - 1].size);
      }
    }
  }

  lemma EntryOfZeros(e: Taken, sections: seq<Section>)
    requires IsEntryFor(e, sections, |sections|) && !sections[e.sec].kind.Progbits?
    ensures e.data == Zeros(e.size)
  {
  }

  /** The value of a symbol: its section's address is added if the section was kept. */
  function ElfValue(addrs: Addresses, sym: Symbol): nat {
    sym.value + if (0, sym.shndx) in addrs then addrs[(0, sym.shndx)] else 0
  }

  /** The two bytes one relocation writes; none if its section was not kept or it lies past the end. */
  function ElfPatch(t: Tables, obj: Object, rel: Rela): Option<Patch>
    requires FromBase(t)
  {
    if (0, rel.target) !in t.addrs || rel.symIndex >= |obj.symbols| then None
    else
      var offset := t.addrs[(0, rel.target)] - t.base + rel.offset;
      var value := ElfValue(t.addrs, obj.symbols[rel.symIndex]) + rel.addend;
      if offset + 1 < t.total then Some(Patch(offset, [value % 256, (value / 256) % 256])) else None
  }

  function ElfPatches(t: Tables, obj: Object, n: nat): (ps: seq<Patch>)
    requires FromBase(t) && n <= |obj.relas|
    ensures AllFit(ps, t.total)
  {
    if n == 0 then []
    else
      var p := ElfPatch(t, obj, obj.relas[n - 1]);
      ElfPatches(t, obj, n - 1) + if p.Some? then [p.value] else []
  }

  /** The relocation names a section of the object and, if that one is kept, a symbol of it. */
  predicate NamesExist(t: Tables, obj: Object, rel: Rela) {
    rel.target < |obj.sections| && SymbolInRange(t, 0, obj, rel)
  }

  method ApplyElfRelocation(t: Tables, obj: Object, rel: Rela, output: seq<byte>) returns (r: LinkResult)
    requires FromBase(t)
    ensures r == if NamesExist(t, obj, rel) then Written(output, ElfPatch(t, obj, rel)) else Crashed
  {
    if rel.target >= |obj.sections| {
      return Crashed;
    }
    if (0, rel.target) !in t.addrs {
      return Linked(output);
    }
    if rel.symIndex >= |obj.symbols| {
      return Crashed;
    }
    var sym := obj.symbols[rel.symIndex];
    var value := sym.value;
    if (0, sym.shndx) in t.addrs {
      value := value + t.addrs[(0, sym.shndx)];
    }
    var patched: int := value + rel.addend;
    var offset := t.addrs[(0, rel.target)] - t.base + rel.offset;
    r := Linked(output);
    if offset + 1 < t.total {
      r := PutByte(output, offset, patched % 256);
      if r.Linked? {
        r := PutByte(r.image, offset + 1, (patched / 256) % 256);
      }
      BothBytes(output, offset, [patched % 256, (patched / 256) % 256]);
    }
  }

  method ApplyElfRelocations(t: Tables, obj: Object, output: seq<byte>) returns (r: LinkResult)
    requires FromBase(t)
    ensures r == ElfRelocated(t, obj, output)
  {
    hide ElfPatch, NamesExist, Written, WrittenAll;
    r := Linked(output);
    NothingWritten(output);
    for j := 0 to |obj.relas|
      invariant r.Linked? && r == WrittenAll(output, ElfPatches(t, obj, j))
      invariant forall k :: 0 <= k < j ==> NamesExist(t, obj, obj.relas[k])
    {
      WrittenNext(output, ElfPatches(t, obj, j), ElfPatch(t, obj, obj.relas[j]));
      r := ApplyElfRelocation(t, obj, obj.relas[j], r.image);
      if !r.Linked? {
        ElfCrashStays(t, obj, output, j + 1, |obj.relas|);
        return Crashed;
      }
    }
  }

  function ElfRelocated(t: Tables, obj: Object, output: seq<byte>): LinkResult
    requires FromBase(t)
  {
    if forall j :: 0 <= j < |obj.relas| ==> NamesExist(t, obj, obj.relas[j])
    then WrittenAll(output, ElfPatches(t, obj, |obj.relas|))
    else Crashed
  }

  lemma {:induction false} ElfCrashStays(t: Tables, obj: Object, output: seq<byte>, j: nat, n: nat)
    requires FromBase(t) && j <= n <= |obj.relas|
    ensures WrittenAll(output, ElfPatches(t, obj, j)).Linked? || WrittenAll(output, ElfPatches(t, obj, n)) == Crashed
  {
    hide ElfPatch, WrittenAll;
    IsWritten(output, ElfPatches(t, obj, j));
    if j < n {
      ElfCrashStays(t, obj, output, j, n - 1);
      WrittenNext(output, ElfPatches(t, obj, n - 1), ElfPatch(t, obj, obj.relas[n - 1]));
    }
  }

  /** What the converter writes for an object at a base. */
  ghost predicate ElfOutcome(obj: Object, base: nat, t: Tables, r: LinkResult) {
    && IsAddresses(t.addrs, Kept(obj), base) && FromBase(t)
    && t.base == base && t.total == SizeOf(Kept(obj))
    && (forall k :: 0 <= k < |Kept(obj)| ==> Kept(obj)[k].sec < |obj.sections|)
    && r == if Kept(obj) == [] then Linked([]) else ElfRelocated(t, obj, ContentsOf(obj.sections, Kept(obj)))
  }

  /** The result of converting an object. */
  ghost predicate IsElfResult(obj: Object, base: nat, r: LinkResult) {
    exists t :: ElfOutcome(obj, base, t, r)
  }

  method ElfToBin(obj: Object, base: nat) returns (r: LinkResult, ghost t: Tables)
    ensures ElfOutcome(obj, base, t, r)
    ensures IsElfResult(obj, base, r)
  {
    hide ElfRelocated, ContentsOf, KeptUpTo, IsAddresses, IsEntryFor;
    var kept := CollectKept(obj.sections);
    KeptFacts(obj.sections, |obj.sections|);
    var addrs, end := AssignAddresses(kept, base);
    var tables := Tables(base, end - base, addrs, map[]);
    t := tables;
    AddressesFromBase(t, kept);
    forall k | 0 <= k < |kept| ensures kept[k].sec < |obj.sections| {
      EntryKey(kept[k], obj.sections, |obj.sections|);
    }
    if kept == [] {
      return Linked([]), t;
    }
    var output := CopyContents(obj.sections, kept);
    r := ApplyElfRelocations(tables, obj, output);
  }

  // Where the converter and the legacy linker agree.

  /** What the symbol of a relocation has to be: absolute, or in a kept section. */
  predicate PlainSymbol(obj: Object, sym: Symbol) {
    || sym.shndx == SHN_ABS
    || (sym.shndx < |obj.sections| && IsKept(obj.sections[sym.shndx]) && (sym.shndx != 0 || sym.bind.Local?))
  }

  predicate PlainRela(obj: Object, rel: Rela) {
    && rel.target < |obj.sections|
    && (IsKept(obj.sections[rel.target]) ==>
         rel.rtype == R_16 && (rel.symIndex < |obj.symbols| ==> PlainSymbol(obj, obj.symbols[rel.symIndex])))
  }

  /**
   Every kept section is allocatable, the sections come in sort-key order, and every relocation
   that is applied is a 16-bit one against a plain symbol.
   */
  ghost predicate CommonDomain(obj: Object) {
    && |obj.sections| <= SHN_ABS
    && (forall i :: 0 <= i < |obj.sections| && IsKept(obj.sections[i]) ==> IsAlloc(obj.sections[i]))
    && (forall i, j :: 0 <= i < j < |Kept(obj)| ==> !SortBefore(Kept(obj)[j], Kept(obj)[i]))
    && (forall j :: 0 <= j < |obj.relas| ==> PlainRela(obj, obj.relas[j]))
  }

  lemma {:induction false} KeptIsTaken(sections: seq<Section>, n: nat)
    requires n <= |sections|
    requires forall i :: 0 <= i < |sections| && IsKept(sections[i]) ==> IsAlloc(sections[i])
    ensures KeptUpTo(sections, n) == TakenInObject(0, sections, n)
  {
    if n > 0 {
      KeptIsTaken(sections, n - 1);
      assert IsKept(sections[n - 1]) <==> IsAlloc(sections[n - 1]);
    }
  }

  lemma OneObject(obj: Object)
    ensures TakenAll([obj], 1) == TakenInObject(0, obj.sections, |obj.sections|)
  {
    assert TakenAll([obj], 0) == [];
  }

  lemma KeptIsLayout(obj: Object)
    requires CommonDomain(obj)
    ensures IsLayout([obj], Kept(obj))
  {
    hide KeptUpTo, TakenInObject, TakenAll, SortBefore, IsKept, IsAlloc, PlainRela;
    KeptIsTaken(obj.sections, |obj.sections|);
    OneObject(obj);
    TakenInObjectFacts(0, obj.sections, |obj.sections|);
  }

  /** A section number has an address exactly if the section is kept. */
  lemma AddressIffKept(obj: Object, addrs: Addresses, base: nat, i: nat)
    requires IsAddresses(addrs, Kept(obj), base)
    ensures (0, i) in addrs <==> i < |obj.sections| && IsKept(obj.sections[i])
  {
    hide KeptUpTo, IsKept;
    KeptFacts(obj.sections, |obj.sections|);
    if (0, i) in addrs {
      var k :| 0 <= k < |Kept(obj)| && Key(Kept(obj)[k]) == (0, i);
      assert IsEntryFor(Kept(obj)[k], obj.sections, |obj.sections|);
    }
    if i < |obj.sections| && IsKept(obj.sections[i]) {
      var k :| 0 <= k < |Kept(obj)| && Key(Kept(obj)[k]) == (0, i);
    }
  }

  lemma SamePatch(obj: Object, t: Tables, u: Tables, rel: Rela)
    requires |obj.sections| <= SHN_ABS && PlainRela(obj, rel) && SymbolInRange(t, 0, obj, rel)
    requires IsAddresses(t.addrs, Kept(obj), t.base) && FromBase(t) && FromBase(u)
    requires u.addrs == t.addrs && u.base == t.base && u.total == t.total
    ensures ElfPatch(u, obj, rel) == PatchOf(t, 0, obj.symbols, rel)
  {
    hide IsAddresses, IsKept, FromBase, Kept;
    AddressIffKept(obj, t.addrs, t.base, rel.target);
    if (0, rel.target) in t.addrs {
      var sym := obj.symbols[rel.symIndex];
      AddressIffKept(obj, t.addrs, t.base, sym.shndx);
      assert Resolve(t.addrs, t.defs, 0, sym) == Some(ElfValue(t.addrs, sym));
    }
  }

  lemma {:induction false} SamePatches(obj: Object, t: Tables, u: Tables, n: nat)
    requires CommonDomain(obj) && SymbolsInRange(t, [obj]) && n <= |obj.relas|
    requires IsAddresses(t.addrs, Kept(obj), t.base) && FromBase(t) && FromBase(u)
    requires u.addrs == t.addrs && u.base == t.base && u.total == t.total
    ensures ElfPatches(u, obj, n) == ObjectPatches(t, 0, obj.symbols, obj.relas, n)
  {
    hide PatchOf, ElfPatch, IsAddresses, FromBase, Kept, PlainRela, SymbolInRange;
    if n > 0 {
      SamePatches(obj, t, u, n - 1);
      assert [obj][0] == obj;
      SamePatch(obj, t, u, obj.relas[n - 1]);
    }
  }

  lemma OneObjectPatches(t: Tables, obj: Object)
    requires FromBase(t)
    ensures AllPatches(t, [obj], 1) == ObjectPatches(t, 0, obj.symbols, obj.relas, |obj.relas|)
  {
    assert AllPatches(t, [obj], 0) == [];
  }

  lemma AllNamesExist(obj: Object, t: Tables, u: Tables)
    requires CommonDomain(obj) && SymbolsInRange(t, [obj]) && u.addrs == t.addrs
    ensures forall j :: 0 <= j < |obj.relas| ==> NamesExist(u, obj, obj.relas[j])
  {
    hide IsKept, PlainSymbol, Kept;
    assert [obj][0] == obj;
    forall j | 0 <= j < |obj.relas| ensures NamesExist(u, obj, obj.relas[j]) {
      assert PlainRela(obj, obj.relas[j]) && SymbolInRange(t, 0, obj, obj.relas[j]);
    }
  }

  lemma SameOutcome(obj: Object, base: nat, layout: seq<Taken>, t: Tables, r: LinkResult, u: Tables, r': LinkResult)
    requires CommonDomain(obj) && AllWellSized(Kept(obj))
    requires LinkOutcome([obj], base, layout, t, r) && r.Linked?
    requires ElfOutcome(obj, base, u, r')
    ensures r' == r
  {
    hide IsLayout, IsAddresses, Kept, AllPatches, ObjectPatches, ElfPatches, WrittenAll, SymbolsInRange, NamesExist;
    hide FromBase, CommonDomain, Copied, ContentsOf;
    KeptIsLayout(obj);
    LayoutUnique([obj], layout, Kept(obj));
    AddressesUnique(t.addrs, u.addrs, layout, base);
    OneObjectPatches(t, obj);
    SamePatches(obj, t, u, |obj.relas|);
    AllNamesExist(obj, t, u);
    SameContents(obj);
    if layout == [] {
      EmptyImage(t, [obj]);
    }
  }

  lemma SameContents(obj: Object)
    requires AllWellSized(Kept(obj)) && forall k :: 0 <= k < |Kept(obj)| ==> Kept(obj)[k].sec < |obj.sections|
    ensures ContentsOf(obj.sections, Kept(obj)) == Copied(Kept(obj))
  {
    hide KeptUpTo, IsEntryFor, Flat;
    KeptFacts(obj.sections, |obj.sections|);
    ContentsAreFlat(obj.sections, Kept(obj), |Kept(obj)|);
    CopiedIsFlat(Kept(obj));
    assert Kept(obj)[..|Kept(obj)|] == Kept(obj);
  }

  lemma EmptyImage(t: Tables, objs: seq<Object>)
    requires FromBase(t) && Relocated(t, objs, Copied([])).Linked?
    ensures Relocated(t, objs, Copied([])).image == []
  {
    IsWritten(Copied([]), AllPatches(t, objs, |objs|));
  }

  /** On the common domain, when linking succeeds, the converter writes the same bytes. */
  lemma ConverterAgreesWithLinker(obj: Object, base: nat, r: LinkResult, r': LinkResult)
    requires CommonDomain(obj) && AllWellSized(Kept(obj))
    requires IsLinkResult([obj], base, r) && r.Linked?
    requires IsElfResult(obj, base, r')
    ensures r' == r
  {
    hide LinkOutcome, ElfOutcome, CommonDomain, Kept;
    var layout, t :| LinkOutcome([obj], base, layout, t, r);
    var u :| ElfOutcome(obj, base, u, r');
    SameOutcome(obj, base, layout, t, r, u, r');
  }
}
