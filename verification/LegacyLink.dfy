/** The legacy linker as a whole: layout, symbols, relocation, and the bytes that come out. */
module LegacyLink {
  import opened Target
  import opened Wrappers
  import opened Patches
  import opened Relocate
  import opened LegacyObjects
  import opened LegacySymbols
  import opened LegacyLayout

  /** Failed: errors were reported. Crashed: an index was out of range. */
  datatype LinkResult = Linked(image: seq<byte>) | Failed | Crashed

  /** Where the sections are, and what the names mean. */
  datatype Tables = Tables(base: nat, total: nat, addrs: Addresses, defs: Globals)

  /** Every address is at or after the base. */
  predicate FromBase(t: Tables) {
    forall q :: q in t.addrs ==> t.base <= t.addrs[q]
  }

  /** The bytes one relocation writes; none if it is passed over. */
  function PatchOf(t: Tables, o: nat, symbols: seq<Symbol>, rel: Rela): Option<Patch>
    requires FromBase(t)
  {
    if (o, rel.target) !in t.addrs || rel.symIndex >= |symbols| then None
    else
      var offset := t.addrs[(o, rel.target)] - t.base + rel.offset;
      var s := Resolve(t.addrs, t.defs, o, symbols[rel.symIndex]);
      if s.None? then None
      else
        var bytes := LegacyField(rel.rtype, s.value + rel.addend);
        if bytes == [] || offset + |bytes| > t.total then None else Some(Patch(offset, bytes))
  }

  function ObjectPatches(t: Tables, o: nat, symbols: seq<Symbol>, relas: seq<Rela>, n: nat): (ps: seq<Patch>)
    requires FromBase(t) && n <= |relas|
    ensures AllFit(ps, t.total)
  {
    if n == 0 then []
    else
      var p := PatchOf(t, o, symbols, relas[n - 1]);
      ObjectPatches(t, o, symbols, relas, n - 1) + if p.Some? then [p.value] else []
  }

  /** What the relocations of the first `m` objects write, in order. */
  function AllPatches(t: Tables, objs: seq<Object>, m: nat): (ps: seq<Patch>)
    requires FromBase(t) && m <= |objs|
    ensures AllFit(ps, t.total)
  {
    if m == 0 then []
    else
      var obj := objs[m - 1];
      AllPatches(t, objs, m - 1) + ObjectPatches(t, m - 1, obj.symbols, obj.relas, |obj.relas|)
  }

  /** A relocation of a section that was taken names a symbol that exists. */
  predicate SymbolInRange(t: Tables, o: nat, obj: Object, rel: Rela) {
    (o, rel.target) in t.addrs ==> rel.symIndex < |obj.symbols|
  }

  ghost predicate SymbolsInRange(t: Tables, objs: seq<Object>) {
    forall o, j :: 0 <= o < |objs| && 0 <= j < |objs[o].relas| ==> SymbolInRange(t, o, objs[o], objs[o].relas[j])
  }

  lemma {:induction false} ApplyAllConcat(out: seq<byte>, ps: seq<Patch>, qs: seq<Patch>)
    requires AllFit(ps, |out|) && AllFit(qs, |out|)
    ensures AllFit(ps + qs, |out|)
    ensures ApplyAll(out, ps + qs) == ApplyAll(ApplyAll(out, ps), qs)
  {
    if qs == [] {
      assert ps + qs == ps;
    } else {
      ApplyAllConcat(out, ps, qs[..|qs| - 1]);
      assert (ps + qs)[..|ps + qs| - 1] == ps + qs[..|qs| - 1];
    }
  }

  /** One relocation on the output, with the checks in the order in which they are made. */
  method ApplyRelocation(t: Tables, o: nat, obj: Object, rel: Rela, output: seq<byte>) returns (r: LinkResult)
    requires FromBase(t)
    ensures r == if SymbolInRange(t, o, obj, rel) then Written(output, PatchOf(t, o, obj.symbols, rel)) else Crashed
  {
    if (o, rel.target) !in t.addrs {
      return Linked(output);
    }
    var offset := t.addrs[(o, rel.target)] - t.base + rel.offset;
    if rel.symIndex >= |obj.symbols| {
      return Crashed;
    }
    var s := Resolve(t.addrs, t.defs, o, obj.symbols[rel.symIndex]);
    if s.None? {
      return Linked(output);
    }
    var value := s.value + rel.addend;
    if rel.rtype == R_8 || rel.rtype == R_LO8 {
      if offset < t.total {
        r := PutByte(output, offset, value % 256);
      } else {
        r := Linked(output);
      }
    } else if rel.rtype == R_16 {
      if offset + 1 < t.total {
        r := PutByte(output, offset, value % 256);
        if r.Linked? {
          r := PutByte(r.image, offset + 1, (value / 256) % 256);
        }
        BothBytes(output, offset, LegacyField(R_16, value));
      } else {
        r := Linked(output);
      }
    } else if rel.rtype == R_HI8 {
      if offset < t.total {
        r := PutByte(output, offset, (value / 256) % 256);
      } else {
        r := Linked(output);
      }
    } else {
      r := Linked(output);
    }
  }

  /** One field written into the output, if there is one; past the end of the output it is an error. */
  function Written(output: seq<byte>, p: Option<Patch>): LinkResult {
    if p.None? then Linked(output)
    else if Fits(p.value, |output|) then Linked(Apply(output, p.value))
    else Crashed
  }

  lemma BothBytes(output: seq<byte>, offset: nat, bytes: seq<byte>)
    requires |bytes| == 2
    ensures Written(output, Some(Patch(offset, bytes))) ==
            if offset + 1 < |output| then Linked(output[offset := bytes[0]][offset + 1 := bytes[1]]) else Crashed
  {
    if offset + 1 < |output| {
      assert output[offset := bytes[0]][offset + 1 := bytes[1]] == Apply(output, Patch(offset, bytes));
    }
  }

  /** Stores one byte; an index past the end is an error the program does not catch. */
  method PutByte(output: seq<byte>, i: nat, b: byte) returns (r: LinkResult)
    ensures r == if i < |output| then Linked(output[i := b]) else Crashed
  {
    if i < |output| {
      return Linked(output[i := b]);
    }
    return Crashed;
  }

  /** The fields written one after the other, if they all lie in the output. */
  function WrittenAll(output: seq<byte>, ps: seq<Patch>): LinkResult {
    if AllFit(ps, |output|) then Linked(ApplyAll(output, ps)) else Crashed
  }

  lemma WrittenNext(output: seq<byte>, ps: seq<Patch>, p: Option<Patch>)
    ensures WrittenAll(output, ps + if p.Some? then [p.value] else []) ==
            match WrittenAll(output, ps)
            case Linked(image) => Written(image, p)
            case _ => Crashed
  {
    if p.Some? {
      var qs := ps + [p.value];
      assert qs[..|ps|] == ps && qs[|ps|] == p.value;
      assert AllFit(qs, |output|) <==> AllFit(ps, |output|) && Fits(p.value, |output|);
    } else {
      assert ps + [] == ps;
    }
  }

  method ApplyObject(t: Tables, o: nat, obj: Object, output: seq<byte>) returns (r: LinkResult)
    requires FromBase(t)
    ensures r == if forall j :: 0 <= j < |obj.relas| ==> SymbolInRange(t, o, obj, obj.relas[j])
                 then WrittenAll(output, ObjectPatches(t, o, obj.symbols, obj.relas, |obj.relas|))
                 else Crashed
  {
    hide PatchOf, SymbolInRange, Written, WrittenAll;
    r := Linked(output);
    NothingWritten(output);
    for j := 0 to |obj.relas|
      invariant r.Linked? && r == WrittenAll(output, ObjectPatches(t, o, obj.symbols, obj.relas, j))
      invariant forall k :: 0 <= k < j ==> SymbolInRange(t, o, obj, obj.relas[k])
    {
      WrittenNext(output, ObjectPatches(t, o, obj.symbols, obj.relas, j), PatchOf(t, o, obj.symbols, obj.relas[j]));
      r := ApplyRelocation(t, o, obj, obj.relas[j], r.image);
      if !r.Linked? {
        CrashStays(t, o, obj, output, j + 1, |obj.relas|);
        return Crashed;
      }
    }
  }

  lemma NothingWritten(output: seq<byte>)
    ensures WrittenAll(output, []) == Linked(output)
  {
  }

  /** Fields that do not all fit, with more fields after them, do not all fit. */
  lemma CrashStaysWith(output: seq<byte>, ps: seq<Patch>, qs: seq<Patch>)
    requires WrittenAll(output, ps).Crashed?
    ensures WrittenAll(output, ps + qs).Crashed?
  {
    var k :| 0 <= k < |ps| && !Fits(ps[k], |output|);
    assert (ps + qs)[k] == ps[k];
  }

  lemma {:induction false} CrashStays(t: Tables, o: nat, obj: Object, output: seq<byte>, j: nat, n: nat)
    requires FromBase(t) && j <= n <= |obj.relas|
    ensures WrittenAll(output, ObjectPatches(t, o, obj.symbols, obj.relas, j)).Linked? ||
            WrittenAll(output, ObjectPatches(t, o, obj.symbols, obj.relas, n)) == Crashed
  {
    hide PatchOf, WrittenAll;
    IsWritten(output, ObjectPatches(t, o, obj.symbols, obj.relas, j));
    if j < n {
      CrashStays(t, o, obj, output, j, n - 1);
      WrittenNext(output, ObjectPatches(t, o, obj.symbols, obj.relas, n - 1),
          PatchOf(t, o, obj.symbols, obj.relas[n - 1]));
    }
  }

  lemma IsWritten(output: seq<byte>, ps: seq<Patch>)
    ensures WrittenAll(output, ps).Linked? || WrittenAll(output, ps).Crashed?
    ensures WrittenAll(output, ps).Linked? ==> |WrittenAll(output, ps).image| == |output|
  {
  }

  lemma WrittenConcat(output: seq<byte>, ps: seq<Patch>, qs: seq<Patch>)
    requires WrittenAll(output, ps).Linked?
    ensures WrittenAll(output, ps + qs) == WrittenAll(WrittenAll(output, ps).image, qs)
  {
    if AllFit(qs, |output|) {
      ApplyAllConcat(output, ps, qs);
    } else {
      var k :| 0 <= k < |qs| && !Fits(qs[k], |output|);
      assert (ps + qs)[|ps| + k] == qs[k];
    }
  }

  /** All relocations of all objects, up to the first that cannot be applied. */
  method ApplyRelocations(t: Tables, objs: seq<Object>, output: seq<byte>) returns (r: LinkResult)
    requires FromBase(t)
    ensures r == Relocated(t, objs, output)
  {
    hide SymbolInRange, ObjectPatches, WrittenAll;
    r := Linked(output);
    NothingWritten(output);
    for o := 0 to |objs|
      invariant r.Linked? && r == WrittenAll(output, AllPatches(t, objs, o))
      invariant forall p, j :: 0 <= p < o && 0 <= j < |objs[p].relas| ==> SymbolInRange(t, p, objs[p], objs[p].relas[j])
    {
      var obj := objs[o];
      WrittenConcat(output, AllPatches(t, objs, o), ObjectPatches(t, o, obj.symbols, obj.relas, |obj.relas|));
      r := ApplyObject(t, o, obj, r.image);
      if !r.Linked? {
        IsWritten(output, AllPatches(t, objs, o + 1));
        CrashOfObject(t, objs, o, output);
        return Crashed;
      }
    }
  }

  /** What relocation makes of the output: every field written, or a crash. */
  ghost function Relocated(t: Tables, objs: seq<Object>, output: seq<byte>): LinkResult
    requires FromBase(t)
  {
    if SymbolsInRange(t, objs) then WrittenAll(output, AllPatches(t, objs, |objs|)) else Crashed
  }

  lemma CrashOfObject(t: Tables, objs: seq<Object>, o: nat, output: seq<byte>)
    requires FromBase(t) && o < |objs|
    requires (forall j :: 0 <= j < |objs[o].relas| ==> SymbolInRange(t, o, objs[o], objs[o].relas[j])) ==>
               WrittenAll(output, AllPatches(t, objs, o + 1)).Crashed?
    ensures Relocated(t, objs, output) == Crashed
  {
    hide SymbolInRange, ObjectPatches, WrittenAll;
    if SymbolsInRange(t, objs) {
      AllPatchesSplit(t, objs, o + 1, |objs|, output);
    }
  }

  lemma {:induction false} AllPatchesSplit(t: Tables, objs: seq<Object>, m: nat, n: nat, output: seq<byte>)
    requires FromBase(t) && m <= n <= |objs| && WrittenAll(output, AllPatches(t, objs, m)).Crashed?
    ensures WrittenAll(output, AllPatches(t, objs, n)).Crashed?
  {
    hide ObjectPatches, WrittenAll;
    if m < n {
      AllPatchesSplit(t, objs, m, n - 1, output);
      var obj := objs[n - 1];
      CrashStaysWith(output, AllPatches(t, objs, n - 1), ObjectPatches(t, n - 1, obj.symbols, obj.relas, |obj.relas|));
    }
  }

  /** What the linker does: the layout and tables it works with, when it fails, and the image it writes. */
  ghost predicate LinkOutcome(objs: seq<Object>, base: nat, layout: seq<Taken>, t: Tables, r: LinkResult) {
    && IsLayout(objs, layout) && IsAddresses(t.addrs, layout, base) && FromBase(t)
    && t.base == base && t.total == SizeOf(layout)
    && HoldsWinners(Candidates(t.addrs, objs, |objs|), t.defs)
    && (r.Failed? <==>
         || objs == [] || base + SizeOf(layout) > ADDRESS_SPACE
         || Clash(Candidates(t.addrs, objs, |objs|)) || HasUndefined(objs, t.defs))
    && (!r.Failed? ==> r == Relocated(t, objs, Copied(layout)))
  }

  /** The result of linking the objects. */
  ghost predicate IsLinkResult(objs: seq<Object>, base: nat, r: LinkResult) {
    exists layout, t :: LinkOutcome(objs, base, layout, t, r)
  }

  /** Links parsed objects. The ghost results are the layout and tables it worked with. */
  method Link(objs: seq<Object>, base: nat) returns (r: LinkResult, ghost layout: seq<Taken>, ghost t: Tables)
    ensures LinkOutcome(objs, base, layout, t, r)
    ensures IsLinkResult(objs, base, r)
  {
    hide IsLayout, IsAddresses, HoldsWinners, Candidates, Clash, Copied, Relocated;
    var sections := LayOut(objs);
    layout := sections;
    LayoutFacts(objs, layout);
    var addrs, end := AssignAddresses(sections, base);
    var defs, clash := BuildGlobals(addrs, objs);
    var undefined := AnyUndefined(objs, defs);
    var tables := Tables(base, end - base, addrs, defs);
    t := tables;
    AddressesFromBase(t, layout);
    if objs == [] || end > ADDRESS_SPACE || clash || undefined {
      return Failed, layout, t;
    }
    var output := CopySections(sections);
    NeverFails(tables, objs, output);
    r := ApplyRelocations(tables, objs, output);
  }

  lemma NeverFails(t: Tables, objs: seq<Object>, output: seq<byte>)
    requires FromBase(t)
    ensures !Relocated(t, objs, output).Failed?
  {
    IsWritten(output, AllPatches(t, objs, |objs|));
  }

  ghost predicate HasUndefined(objs: seq<Object>, defs: Globals) {
    exists o, s :: 0 <= o < |objs| && 0 <= s < |objs[o].symbols| && IsUndefined(defs, objs[o].symbols[s])
  }

  lemma AddressesFromBase(t: Tables, layout: seq<Taken>)
    requires IsAddresses(t.addrs, layout, t.base)
    ensures FromBase(t)
  {
    forall q | q in t.addrs ensures t.base <= t.addrs[q] {
      var k :| 0 <= k < |layout| && Key(layout[k]) == q;
    }
  }

  /** The sections' bytes before relocation. */
  function FlatImage(t: Tables, layout: seq<Taken>): (image: seq<byte>)
    requires AllWellSized(layout) && t.total == SizeOf(layout)
    ensures |image| == t.total
  {
    FlatLength(layout);
    Flat(layout)
  }
}
