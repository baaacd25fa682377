/** What the bytes of a linked image are, and that the order of relocations does not matter. */
module LegacyLinkFacts {
  import opened Wrappers
  import opened Sequences
  import opened Patches
  import opened Relocate
  import opened LegacyObjects
  import opened LegacySymbols
  import opened LegacyLayout
  import opened LegacyLink

  /** The tables belong to the layout of the objects. */
  ghost predicate Consistent(objs: seq<Object>, layout: seq<Taken>, t: Tables) {
    && IsLayout(objs, layout) && IsAddresses(t.addrs, layout, t.base) && FromBase(t)
    && t.total == SizeOf(layout) && AllWellSized(layout)
  }

  /** The linked image when nothing went wrong. */
  function Image(objs: seq<Object>, layout: seq<Taken>, t: Tables): (image: seq<byte>)
    requires FromBase(t) && AllWellSized(layout) && t.total == SizeOf(layout)
    ensures |image| == t.total
  {
    ApplyAll(FlatImage(t, layout), AllPatches(t, objs, |objs|))
  }

  /** A link that finds every symbol, of objects with all their data, writes this image. */
  lemma LinkWritesImage(objs: seq<Object>, base: nat, layout: seq<Taken>, t: Tables, r: LinkResult)
    requires LinkOutcome(objs, base, layout, t, r) && !r.Failed? && AllWellSized(layout)
    ensures r == if SymbolsInRange(t, objs) then Linked(Image(objs, layout, t)) else Crashed
  {
    hide IsLayout, IsAddresses, HoldsWinners, Candidates, Clash, HasUndefined, Copied, ApplyAll, AllPatches;
    hide SymbolsInRange;
    CopiedIsFlat(layout);
    FlatLength(layout);
  }

  /** S + A as the field's kind takes it: 16 bits, the low byte, or the high byte of the 16 bits. */
  function FieldValue(rtype: nat, value: int): int {
    if rtype == R_16 then value % 0x1_0000
    else if rtype == R_HI8 then (value % 0x1_0000) / 0x100
    else value % 0x100
  }

  lemma {:induction false} ObjectPatchListed(t: Tables, o: nat, symbols: seq<Symbol>, relas: seq<Rela>, j: nat, n: nat)
    requires FromBase(t) && j < n <= |relas| && PatchOf(t, o, symbols, relas[j]).Some?
    ensures PatchOf(t, o, symbols, relas[j]).value in ObjectPatches(t, o, symbols, relas, n)
  {
    if j < n - 1 {
      ObjectPatchListed(t, o, symbols, relas, j, n - 1);
    }
  }

  lemma {:induction false} PatchListed(t: Tables, objs: seq<Object>, o: nat, j: nat, m: nat)
    requires FromBase(t) && o < m <= |objs| && j < |objs[o].relas|
    requires PatchOf(t, o, objs[o].symbols, objs[o].relas[j]).Some?
    ensures PatchOf(t, o, objs[o].symbols, objs[o].relas[j]).value in AllPatches(t, objs, m)
  {
    hide PatchOf, ObjectPatches;
    if o == m - 1 {
      ObjectPatchListed(t, o, objs[o].symbols, objs[o].relas, j, |objs[o].relas|);
    } else {
      PatchListed(t, objs, o, j, m - 1);
    }
  }

  /** Which entry of the layout a section with an address is. */
  lemma EntryOf(objs: seq<Object>, layout: seq<Taken>, t: Tables, o: nat, i: nat) returns (k: nat)
    requires IsLayout(objs, layout) && IsAddresses(t.addrs, layout, t.base)
    requires o < |objs| && i < |objs[o].sections| && (o, i) in t.addrs
    ensures k < |layout| && t.addrs[(o, i)] == t.base + SizeOf(layout[..k])
    ensures layout[k].data == Contents(objs[o].sections[i]) && layout[k].size == objs[o].sections[i].size
  {
    hide IsLayout, Contents, IsAlloc, SizeOf;
    LayoutFacts(objs, layout);
    k :| 0 <= k < |layout| && Key(layout[k]) == (o, i);
    assert StandsFor(layout[k], objs, |objs|);
  }

  /** A relocation of a known kind whose symbol resolves and whose field lies in its section is not passed over. */
  lemma FieldInSectionIsPatched(objs: seq<Object>, layout: seq<Taken>, t: Tables, o: nat, j: nat)
    requires Consistent(objs, layout, t) && o < |objs| && j < |objs[o].relas|
    requires var rel := objs[o].relas[j];
             && (o, rel.target) in t.addrs && rel.symIndex < |objs[o].symbols|
             && R_8 <= rel.rtype <= R_HI8
             && rel.target < |objs[o].sections|
             && rel.offset + (if rel.rtype == R_16 then 2 else 1) <= objs[o].sections[rel.target].size
             && Resolve(t.addrs, t.defs, o, objs[o].symbols[rel.symIndex]).Some?
    ensures PatchOf(t, o, objs[o].symbols, objs[o].relas[j]).Some?
  {
    hide IsLayout, IsAddresses, Contents, SizeOf, Resolve;
    var rel := objs[o].relas[j];
    var k := EntryOf(objs, layout, t, o, rel.target);
    SizeMonotone(layout, k);
  }

  /** What the relocation `j` of object `o` leaves in the image. */
  lemma FieldBytes(objs: seq<Object>, layout: seq<Taken>, t: Tables, o: nat, j: nat)
    requires Consistent(objs, layout, t) && Apart(AllPatches(t, objs, |objs|))
    requires o < |objs| && j < |objs[o].relas|
    ensures FieldHolds(objs, layout, t, o, j)
  {
    hide ApplyAll, AllPatches, PatchOf, Resolve, IsLayout, IsAddresses, Apart, FromLittle, LegacyField, FieldValue;
    var rel := objs[o].relas[j];
    if PatchOf(t, o, objs[o].symbols, rel).Some? {
      PatchListed(t, objs, o, j, |objs|);
      FieldLands(FlatImage(t, layout), AllPatches(t, objs, |objs|), PatchOf(t, o, objs[o].symbols, rel).value);
      PatchMeans(t, o, objs[o].symbols, rel);
    }
  }

  /** The place and the bytes of the field a relocation writes. */
  lemma PatchMeans(t: Tables, o: nat, symbols: seq<Symbol>, rel: Rela)
    requires FromBase(t) && PatchOf(t, o, symbols, rel).Some?
    ensures (o, rel.target) in t.addrs && rel.symIndex < |symbols|
    ensures Resolve(t.addrs, t.defs, o, symbols[rel.symIndex]).Some?
    ensures var p := PatchOf(t, o, symbols, rel).value;
            && p.offset == t.addrs[(o, rel.target)] - t.base + rel.offset
            && FromLittle(p.bytes) ==
                FieldValue(rel.rtype, Resolve(t.addrs, t.defs, o, symbols[rel.symIndex]).value + rel.addend)
  {
    hide Resolve, FromLittle;
    LegacyFieldMeans(Resolve(t.addrs, t.defs, o, symbols[rel.symIndex]).value + rel.addend);
  }

  /** Where a byte of a section is in the image, and what it is before relocation. */
  lemma SectionByte(objs: seq<Object>, layout: seq<Taken>, t: Tables, o: nat, i: nat, b: nat)
    requires Consistent(objs, layout, t) && o < |objs| && i < |objs[o].sections|
    requires (o, i) in t.addrs && b < objs[o].sections[i].size
    ensures t.addrs[(o, i)] - t.base + b < t.total && b < |Contents(objs[o].sections[i])|
    ensures FlatImage(t, layout)[t.addrs[(o, i)] - t.base + b] == Contents(objs[o].sections[i])[b]
  {
    hide IsLayout, IsAddresses, Contents, IsAlloc, SizeOf, Flat;
    var k := EntryOf(objs, layout, t, o, i);
    FlatAt(layout, k, b);
    assert FlatImage(t, layout) == Flat(layout);
  }

  /** A byte no field covers is the section's own byte, or zero in a section without contents. */
  lemma OtherBytes(objs: seq<Object>, layout: seq<Taken>, t: Tables, o: nat, i: nat, b: nat)
    requires Consistent(objs, layout, t) && Apart(AllPatches(t, objs, |objs|))
    requires o < |objs| && i < |objs[o].sections|
    ensures ByteKept(objs, layout, t, o, i, b)
  {
    hide ApplyAll, AllPatches, Contents, IsLayout, IsAddresses, Apart, Covers, FlatImage;
    if (o, i) in t.addrs && b < objs[o].sections[i].size
       && forall p :: p in AllPatches(t, objs, |objs|) ==> !Covers(p, t.addrs[(o, i)] - t.base + b) {
      SectionByte(objs, layout, t, o, i, b);
      RestStays(FlatImage(t, layout), AllPatches(t, objs, |objs|), t.addrs[(o, i)] - t.base + b);
    }
  }

  /**
   Linked bytes: when no two fields overlap, every field that is written holds S + A as its
   kind takes it, and every byte outside the fields is the section's original byte.
   */
  lemma LinkedBytes(objs: seq<Object>, layout: seq<Taken>, t: Tables)
    requires Consistent(objs, layout, t) && Apart(AllPatches(t, objs, |objs|))
    ensures forall o, j :: 0 <= o < |objs| && 0 <= j < |objs[o].relas| ==> FieldHolds(objs, layout, t, o, j)
    ensures forall o, i, b: nat :: 0 <= o < |objs| && 0 <= i < |objs[o].sections| ==> ByteKept(objs, layout, t, o, i, b)
  {
    hide FieldHolds, ByteKept, IsLayout, IsAddresses, AllPatches, Apart;
    forall o, j | 0 <= o < |objs| && 0 <= j < |objs[o].relas| ensures FieldHolds(objs, layout, t, o, j) {
      FieldBytes(objs, layout, t, o, j);
    }
    forall o, i, b: nat | 0 <= o < |objs| && 0 <= i < |objs[o].sections| ensures ByteKept(objs, layout, t, o, i, b) {
      OtherBytes(objs, layout, t, o, i, b);
    }
  }

  ghost predicate FieldHolds(objs: seq<Object>, layout: seq<Taken>, t: Tables, o: nat, j: nat)
    requires FromBase(t) && AllWellSized(layout) && t.total == SizeOf(layout)
    requires o < |objs| && j < |objs[o].relas|
  {
    var rel := objs[o].relas[j];
    PatchOf(t, o, objs[o].symbols, rel).Some? ==>
      var p := PatchOf(t, o, objs[o].symbols, rel).value;
      && p.offset == t.addrs[(o, rel.target)] - t.base + rel.offset
      && p.offset + |p.bytes| <= |Image(objs, layout, t)|
      && FromLittle(Image(objs, layout, t)[p.offset..p.offset + |p.bytes|]) ==
         FieldValue(rel.rtype, Resolve(t.addrs, t.defs, o, objs[o].symbols[rel.symIndex]).value + rel.addend)
  }

  ghost predicate ByteKept(objs: seq<Object>, layout: seq<Taken>, t: Tables, o: nat, i: nat, b: nat)
    requires FromBase(t) && AllWellSized(layout) && t.total == SizeOf(layout)
    requires o < |objs| && i < |objs[o].sections|
  {
    && (o, i) in t.addrs && b < objs[o].sections[i].size
    && (forall p :: p in AllPatches(t, objs, |objs|) ==> !Covers(p, t.addrs[(o, i)] - t.base + b))
    ==>
      && t.addrs[(o, i)] - t.base + b < |Image(objs, layout, t)|
      && b < |Contents(objs[o].sections[i])|
      && Image(objs, layout, t)[t.addrs[(o, i)] - t.base + b] == Contents(objs[o].sections[i])[b]
  }

  lemma SameTables(objs: seq<Object>, base: nat, layout: seq<Taken>, t: Tables, r: LinkResult, layout': seq<Taken>,
                   t': Tables, r': LinkResult)
    requires LinkOutcome(objs, base, layout, t, r) && LinkOutcome(objs, base, layout', t', r')
    ensures layout == layout' && t == t' && (r.Failed? <==> r'.Failed?)
  {
    hide IsLayout, IsAddresses, HoldsWinners, Candidates, Clash, HasUndefined, Relocated, Copied, FromBase;
    LayoutUnique(objs, layout, layout');
    AddressesUnique(t.addrs, t'.addrs, layout, base);
    WinnersUnique(Candidates(t.addrs, objs, |objs|), t.defs, t'.defs);
  }

  /** Whatever sort is used, the objects have one result at a base. */
  lemma LinkResultUnique(objs: seq<Object>, base: nat, r: LinkResult, r': LinkResult)
    requires IsLinkResult(objs, base, r) && IsLinkResult(objs, base, r')
    ensures r == r'
  {
    hide IsLayout, IsAddresses, HoldsWinners, Candidates, Clash, HasUndefined, FromBase, Relocated, Copied;
    var layout, t :| LinkOutcome(objs, base, layout, t, r);
    var layout', t' :| LinkOutcome(objs, base, layout', t', r');
    assert LinkOutcome(objs, base, layout, t, r) && LinkOutcome(objs, base, layout', t', r');
    SameTables(objs, base, layout, t, r, layout', t', r');
  }

  // The order of the relocations.

  function Optional(p: Option<Patch>): seq<Patch> {
    if p.Some? then [p.value] else []
  }

  lemma ObjectPatchesNext(t: Tables, o: nat, symbols: seq<Symbol>, relas: seq<Rela>, n: nat)
    requires FromBase(t) && n < |relas|
    ensures ObjectPatches(t, o, symbols, relas, n + 1) ==
            ObjectPatches(t, o, symbols, relas, n) + Optional(PatchOf(t, o, symbols, relas[n]))
  {
    hide PatchOf;
  }

  lemma WithoutAt(relas: seq<Rela>, k: nat)
    requires k < |relas|
    ensures forall j :: 0 <= j < |relas| - 1 ==> Without(relas, k)[j] == relas[if j < k then j else j + 1]
  {
  }

  lemma {:induction false} ObjectPatchesWithout(t: Tables, o: nat, symbols: seq<Symbol>, relas: seq<Rela>, k: nat,
                                                n: nat)
    requires FromBase(t) && k < n <= |relas|
    ensures multiset(ObjectPatches(t, o, symbols, relas, n)) ==
            multiset(ObjectPatches(t, o, symbols, Without(relas, k), n - 1)) +
                multiset(Optional(PatchOf(t, o, symbols, relas[k])))
  {
    hide PatchOf, ObjectPatches, Without, Optional;
    WithoutAt(relas, k);
    ObjectPatchesNext(t, o, symbols, relas, n - 1);
    if k == n - 1 {
      SamePrefix(t, o, symbols, relas, Without(relas, k), n - 1);
    } else {
      ObjectPatchesWithout(t, o, symbols, relas, k, n - 1);
      ObjectPatchesNext(t, o, symbols, Without(relas, k), n - 2);
    }
  }

  lemma {:induction false} SamePrefix(t: Tables, o: nat, symbols: seq<Symbol>, relas: seq<Rela>, relas': seq<Rela>,
                                      n: nat)
    requires FromBase(t) && n <= |relas| && n <= |relas'| && forall j :: 0 <= j < n ==> relas[j] == relas'[j]
    ensures ObjectPatches(t, o, symbols, relas, n) == ObjectPatches(t, o, symbols, relas', n)
  {
    hide PatchOf;
    if n > 0 {
      SamePrefix(t, o, symbols, relas, relas', n - 1);
    }
  }

  lemma {:induction false} ObjectPatchesMultiset(t: Tables, o: nat, symbols: seq<Symbol>, relas: seq<Rela>,
                                                 relas': seq<Rela>)
    requires FromBase(t) && multiset(relas) == multiset(relas')
    ensures multiset(ObjectPatches(t, o, symbols, relas, |relas|)) ==
              multiset(ObjectPatches(t, o, symbols, relas', |relas'|))
    decreases |relas|
  {
    hide PatchOf, ObjectPatches, Without;
    SameLength(relas, relas');
    if relas != [] {
      assert relas[0] in multiset(relas');
      var k :| 0 <= k < |relas'| && relas'[k] == relas[0];
      RemoveSame(relas, 0, relas', k);
      ObjectPatchesMultiset(t, o, symbols, Without(relas, 0), Without(relas', k));
      ObjectPatchesWithout(t, o, symbols, relas, 0, |relas|);
      ObjectPatchesWithout(t, o, symbols, relas', k, |relas'|);
    }
  }

  lemma {:induction false} AllPatchesMultiset(t: Tables, objs: seq<Object>, objs': seq<Object>, m: nat)
    requires FromBase(t) && m <= |objs| == |objs'|
    requires forall o :: 0 <= o < m ==>
               objs[o].symbols == objs'[o].symbols && multiset(objs[o].relas) == multiset(objs'[o].relas)
    ensures multiset(AllPatches(t, objs, m)) == multiset(AllPatches(t, objs', m))
  {
    hide ObjectPatches;
    if m > 0 {
      AllPatchesMultiset(t, objs, objs', m - 1);
      ObjectPatchesMultiset(t, m - 1, objs[m - 1].symbols, objs[m - 1].relas, objs'[m - 1].relas);
    }
  }

  /** Reordering the relocations of every object gives the same image, when no two fields overlap. */
  lemma RelocationOrderDoesNotMatter(t: Tables, layout: seq<Taken>, objs: seq<Object>, objs': seq<Object>)
    requires FromBase(t) && AllWellSized(layout) && t.total == SizeOf(layout) && |objs| == |objs'|
    requires forall o :: 0 <= o < |objs| ==>
               objs[o].symbols == objs'[o].symbols && multiset(objs[o].relas) == multiset(objs'[o].relas)
    requires Apart(AllPatches(t, objs, |objs|))
    ensures Image(objs, layout, t) == Image(objs', layout, t)
  {
    hide AllPatches, ApplyAll;
    AllPatchesMultiset(t, objs, objs', |objs|);
    ApartAnyOrder(AllPatches(t, objs, |objs|), AllPatches(t, objs', |objs|));
    OrderDoesNotMatter(FlatImage(t, layout), AllPatches(t, objs, |objs|), AllPatches(t, objs', |objs|));
  }

  /** The same objects, up to the order of the relocations of each. */
  ghost predicate SameUpToOrder(objs: seq<Object>, objs': seq<Object>) {
    && |objs| == |objs'|
    && forall o :: 0 <= o < |objs| ==>
         && objs[o].sections == objs'[o].sections && objs[o].symbols == objs'[o].symbols
         && multiset(objs[o].relas) == multiset(objs'[o].relas)
  }

  lemma {:induction false} SameTaken(objs: seq<Object>, objs': seq<Object>, m: nat)
    requires SameUpToOrder(objs, objs') && m <= |objs|
    ensures TakenAll(objs, m) == TakenAll(objs', m)
  {
    if m > 0 {
      SameTaken(objs, objs', m - 1);
    }
  }

  lemma {:induction false} SameCandidates(addrs: Addresses, objs: seq<Object>, objs': seq<Object>, m: nat)
    requires SameUpToOrder(objs, objs') && m <= |objs|
    ensures Candidates(addrs, objs, m) == Candidates(addrs, objs', m)
  {
    if m > 0 {
      SameCandidates(addrs, objs, objs', m - 1);
    }
  }

  /** The layout, the tables and the errors do not depend on the relocations. */
  lemma SameBeforeRelocation(objs: seq<Object>, objs': seq<Object>, layout: seq<Taken>, addrs: Addresses, defs: Globals)
    requires SameUpToOrder(objs, objs')
    ensures IsLayout(objs, layout) <==> IsLayout(objs', layout)
    ensures Candidates(addrs, objs, |objs|) == Candidates(addrs, objs', |objs'|)
    ensures HasUndefined(objs, defs) <==> HasUndefined(objs', defs)
  {
    hide TakenAll, Candidates, IsUndefined;
    SameTaken(objs, objs', |objs|);
    SameCandidates(addrs, objs, objs', |objs|);
    if HasUndefined(objs, defs) {
      UndefinedStays(objs, objs', defs);
    } else if HasUndefined(objs', defs) {
      UndefinedStays(objs', objs, defs);
    }
  }

  lemma UndefinedStays(objs: seq<Object>, objs': seq<Object>, defs: Globals)
    requires SameUpToOrder(objs, objs') && HasUndefined(objs, defs)
    ensures HasUndefined(objs', defs)
  {
    var o, s :| 0 <= o < |objs| && 0 <= s < |objs[o].symbols| && IsUndefined(defs, objs[o].symbols[s]);
    assert IsUndefined(defs, objs'[o].symbols[s]);
  }

  lemma SymbolsStayInRange(t: Tables, objs: seq<Object>, objs': seq<Object>)
    requires SameUpToOrder(objs, objs') && SymbolsInRange(t, objs)
    ensures SymbolsInRange(t, objs')
  {
    forall o, j | 0 <= o < |objs'| && 0 <= j < |objs'[o].relas|
      ensures SymbolInRange(t, o, objs'[o], objs'[o].relas[j])
    {
      var rel := objs'[o].relas[j];
      assert rel in multiset(objs'[o].relas);
      assert rel in multiset(objs[o].relas);
      var k :| 0 <= k < |objs[o].relas| && objs[o].relas[k] == rel;
      assert SymbolInRange(t, o, objs[o], objs[o].relas[k]);
    }
  }

  /** Fields that do not overlap are written, or fail to fit, in any order alike. */
  lemma WrittenInAnyOrder(output: seq<byte>, ps: seq<Patch>, qs: seq<Patch>)
    requires Apart(ps) && multiset(ps) == multiset(qs)
    ensures WrittenAll(output, ps) == WrittenAll(output, qs)
  {
    hide ApplyAll, Apart, Fits;
    FitStays(ps, qs, |output|);
    FitStays(qs, ps, |output|);
    if AllFit(ps, |output|) {
      ApartAnyOrder(ps, qs);
      OrderDoesNotMatter(output, ps, qs);
    }
  }

  lemma FitStays(ps: seq<Patch>, qs: seq<Patch>, n: nat)
    requires multiset(ps) == multiset(qs)
    ensures AllFit(ps, n) ==> AllFit(qs, n)
  {
    if AllFit(ps, n) {
      forall k | 0 <= k < |qs| ensures Fits(qs[k], n) {
        assert qs[k] in multiset(ps);
      }
    }
  }

  lemma SameRelocated(t: Tables, objs: seq<Object>, objs': seq<Object>, output: seq<byte>)
    requires FromBase(t) && SameUpToOrder(objs, objs') && Apart(AllPatches(t, objs, |objs|))
    ensures Relocated(t, objs, output) == Relocated(t, objs', output)
  {
    hide AllPatches, WrittenAll, SymbolsInRange, Apart;
    AllPatchesMultiset(t, objs, objs', |objs|);
    WrittenInAnyOrder(output, AllPatches(t, objs, |objs|), AllPatches(t, objs', |objs|));
    if SymbolsInRange(t, objs) {
      SymbolsStayInRange(t, objs, objs');
    } else if SymbolsInRange(t, objs') {
      SymbolsStayInRange(t, objs', objs);
    }
  }

  /** Linking gives the same result for any order of the relocations, when no two fields overlap. */
  lemma LinkOrderDoesNotMatter(objs: seq<Object>, objs': seq<Object>, base: nat,
                               layout: seq<Taken>, t: Tables, r: LinkResult, r': LinkResult)
    requires SameUpToOrder(objs, objs')
    requires LinkOutcome(objs, base, layout, t, r) && Apart(AllPatches(t, objs, |objs|))
    requires IsLinkResult(objs', base, r')
    ensures r == r'
  {
    hide IsLayout, IsAddresses, HoldsWinners, Candidates, Clash, HasUndefined, FromBase, Relocated, Copied, AllPatches;
    hide Apart, SameUpToOrder;
    SameBeforeRelocation(objs, objs', layout, t.addrs, t.defs);
    SameRelocated(t, objs, objs', Copied(layout));
    EmptyTogether(objs, objs');
    assert LinkOutcome(objs', base, layout, t, r);
    assert IsLinkResult(objs', base, r);
    LinkResultUnique(objs', base, r, r');
  }

  lemma EmptyTogether(objs: seq<Object>, objs': seq<Object>)
    requires SameUpToOrder(objs, objs')
    ensures objs == [] <==> objs' == []
  {
  }
}
