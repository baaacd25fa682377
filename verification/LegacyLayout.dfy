/**
 Which sections the legacy linker takes, in which order it lays them out, where each begins,
 and the image they make before relocation.
 */
module LegacyLayout {
  import opened Sequences
  import opened Sorting
  import opened Patches
  import opened LegacyObjects
  import opened LegacySymbols

  datatype Taken = Taken(name: string, obj: nat, sec: nat, data: seq<byte>, size: nat)

  function Entry(o: nat, i: nat, s: Section): Taken {
    Taken(s.name, o, i, Contents(s), s.size)
  }

  /** The allocatable ones among the first `n` sections of object `o`. */
  function TakenInObject(o: nat, sections: seq<Section>, n: nat): seq<Taken>
    requires n <= |sections|
  {
    if n == 0 then []
    else
      var s := sections[n - 1];
      TakenInObject(o, sections, n - 1) + if IsAlloc(s) then [Entry(o, n - 1, s)] else []
  }

  /** The allocatable sections of the first `m` objects, in scan order. */
  function TakenAll(objs: seq<Object>, m: nat): seq<Taken>
    requires m <= |objs|
  {
    if m == 0 then []
    else TakenAll(objs, m - 1) + TakenInObject(m - 1, objs[m - 1].sections, |objs[m - 1].sections|)
  }

  predicate ScanBefore(a: Taken, b: Taken) {
    a.obj < b.obj || (a.obj == b.obj && a.sec < b.sec)
  }

  predicate SortBefore(a: Taken, b: Taken) {
    var x, y := SortKey(a.name), SortKey(b.name);
    x.0 < y.0 || (x.0 == y.0 && NameLess(x.1, y.1))
  }

  /** Sections by family and name; those of one name in scan order. */
  ghost predicate IsLayout(objs: seq<Object>, layout: seq<Taken>) {
    multiset(layout) == multiset(TakenAll(objs, |objs|)) && Ordered(layout, ByKey(SortBefore, ScanBefore))
  }

  lemma SortBeforeIsWeakOrder()
    ensures StrictWeakOrder(SortBefore)
  {
    forall a, b, c: Taken
      ensures SortBefore(a, b) ==> !SortBefore(b, a)
      ensures SortBefore(a, c) ==> SortBefore(a, b) || SortBefore(b, c)
    {
      NameOrder(SortKey(a.name).1, SortKey(b.name).1, SortKey(c.name).1);
    }
  }

  lemma {:induction false} TakenInObjectFacts(o: nat, sections: seq<Section>, n: nat)
    requires n <= |sections|
    ensures var t := TakenInObject(o, sections, n);
            && Ordered(t, ScanBefore)
            && (forall k :: 0 <= k < |t| ==>
                 && t[k].obj == o && t[k].sec < n && IsAlloc(sections[t[k].sec])
                 && t[k] == Entry(o, t[k].sec, sections[t[k].sec]))
  {
    hide IsAlloc, Contents;
    if n > 0 {
      TakenInObjectFacts(o, sections, n - 1);
    }
  }

  /** An entry of the scan stands for the section it names. */
  predicate StandsFor(t: Taken, objs: seq<Object>, m: nat)
    requires m <= |objs|
  {
    && t.obj < m && t.sec < |objs[t.obj].sections|
    && var s := objs[t.obj].sections[t.sec];
    IsAlloc(s) && t == Entry(t.obj, t.sec, s)
  }

  lemma {:induction false} TakenAllFacts(objs: seq<Object>, m: nat)
    requires m <= |objs|
    ensures Ordered(TakenAll(objs, m), ScanBefore)
    ensures forall k :: 0 <= k < |TakenAll(objs, m)| ==> StandsFor(TakenAll(objs, m)[k], objs, m)
  {
    hide IsAlloc, Contents;
    if m > 0 {
      TakenAllFacts(objs, m - 1);
      TakenInObjectFacts(m - 1, objs[m - 1].sections, |objs[m - 1].sections|);
      var x, y := TakenAll(objs, m - 1), TakenInObject(m - 1, objs[m - 1].sections, |objs[m - 1].sections|);
      forall i, j | 0 <= i < j < |x + y| ensures ScanBefore((x + y)[i], (x + y)[j]) {
        if i < |x| {
          assert StandsFor(x[i], objs, m - 1);
        }
      }
      forall k | 0 <= k < |x + y| ensures StandsFor((x + y)[k], objs, m) {
        if k < |x| {
          assert StandsFor(x[k], objs, m - 1);
        }
      }
    }
  }

  method CollectSections(objs: seq<Object>) returns (taken: seq<Taken>)
    ensures taken == TakenAll(objs, |objs|)
  {
    hide IsAlloc, Contents;
    taken := [];
    for o := 0 to |objs|
      invariant taken == TakenAll(objs, o)
    {
      var sections := objs[o].sections;
      for i := 0 to |sections|
        invariant taken == TakenAll(objs, o) + TakenInObject(o, sections, i)
      {
        var s := sections[i];
        if IsAlloc(s) {
          taken := taken + [Entry(o, i, s)];
        }
      }
    }
  }

  method LayOut(objs: seq<Object>) returns (layout: seq<Taken>)
    ensures IsLayout(objs, layout)
  {
    var taken := CollectSections(objs);
    TakenAllFacts(objs, |objs|);
    SortBeforeIsWeakOrder();
    layout := StableSort(taken, SortBefore, ScanBefore);
  }

  /** Each section number of each object is laid out once, and stands for what the object holds. */
  lemma LayoutFacts(objs: seq<Object>, layout: seq<Taken>)
    requires IsLayout(objs, layout)
    ensures forall k :: 0 <= k < |layout| ==> StandsFor(layout[k], objs, |objs|)
    ensures KeysDistinct(layout)
  {
    hide IsAlloc, Contents, SortBefore, SortKey;
    var taken := TakenAll(objs, |objs|);
    TakenAllFacts(objs, |objs|);
    forall i, j | 0 <= i < j < |taken| ensures taken[i] != taken[j] {
      assert ScanBefore(taken[i], taken[j]);
    }
    SameMultisetNoDuplicates(taken, layout);
    forall k | 0 <= k < |layout| ensures StandsFor(layout[k], objs, |objs|) {
      assert layout[k] in multiset(taken);
    }
    forall i, j | 0 <= i < j < |layout| ensures Key(layout[i]) != Key(layout[j]) {
      assert StandsFor(layout[i], objs, |objs|) && StandsFor(layout[j], objs, |objs|) && layout[i] != layout[j];
    }
  }

  /** The layout is determined by the objects. */
  lemma LayoutUnique(objs: seq<Object>, x: seq<Taken>, y: seq<Taken>)
    requires IsLayout(objs, x) && IsLayout(objs, y)
    ensures x == y
  {
    hide SortBefore, IsAlloc, Contents;
    LayoutFacts(objs, x);
    var order := ByKey(SortBefore, ScanBefore);
    forall a, b | a in multiset(x) && b in multiset(x) && a != b ensures order(a, b) <==> !order(b, a) {
      SortBeforeIsWeakOrder();
      assert a in x && b in x;
    }
    OrderedIsUnique(x, y, order);
  }

  // Addresses and contents.

  function SizeOf(layout: seq<Taken>): nat {
    if layout == [] then 0 else SizeOf(layout[..|layout| - 1]) + layout[|layout| - 1].size
  }

  function Key(t: Taken): (nat, nat) {
    (t.obj, t.sec)
  }

  /** Each of the first `n` sections begins where the ones before it end; no other key has an address. */
  ghost predicate IsAddressesUpTo(addrs: Addresses, layout: seq<Taken>, base: nat, n: nat)
    requires n <= |layout|
  {
    && (forall k :: 0 <= k < n ==> Key(layout[k]) in addrs && addrs[Key(layout[k])] == base + SizeOf(layout[..k]))
    && (forall q :: q in addrs ==> exists k :: 0 <= k < n && Key(layout[k]) == q)
  }

  ghost predicate IsAddresses(addrs: Addresses, layout: seq<Taken>, base: nat) {
    IsAddressesUpTo(addrs, layout, base, |layout|)
  }

  lemma AddressesUnique(x: Addresses, y: Addresses, layout: seq<Taken>, base: nat)
    requires IsAddresses(x, layout, base) && IsAddresses(y, layout, base)
    ensures x == y
  {
    AddressesIncluded(x, y, layout, base);
    AddressesIncluded(y, x, layout, base);
  }

  lemma AddressesIncluded(x: Addresses, y: Addresses, layout: seq<Taken>, base: nat)
    requires IsAddresses(x, layout, base) && IsAddresses(y, layout, base)
    ensures forall q :: q in x ==> q in y && x[q] == y[q]
  {
    forall q | q in x ensures q in y && x[q] == y[q] {
      var k :| 0 <= k < |layout| && Key(layout[k]) == q;
    }
  }

  ghost predicate KeysDistinct(layout: seq<Taken>) {
    forall i, j :: 0 <= i < j < |layout| ==> Key(layout[i]) != Key(layout[j])
  }

  method AssignAddresses(layout: seq<Taken>, base: nat) returns (addrs: Addresses, end: nat)
    requires KeysDistinct(layout)
    ensures IsAddresses(addrs, layout, base) && end == base + SizeOf(layout)
  {
    addrs, end := map[], base;
    for k := 0 to |layout|
      invariant IsAddressesUpTo(addrs, layout, base, k) && end == base + SizeOf(layout[..k])
    {
      NextAddress(addrs, layout, base, k);
      addrs := addrs[Key(layout[k]) := end];
      end := end + layout[k].size;
    }
    assert layout[..|layout|] == layout;
  }

  lemma NextAddress(addrs: Addresses, layout: seq<Taken>, base: nat, k: nat)
    requires k < |layout| && KeysDistinct(layout) && IsAddressesUpTo(addrs, layout, base, k)
    ensures IsAddressesUpTo(addrs[Key(layout[k]) := base + SizeOf(layout[..k])], layout, base, k + 1)
    ensures SizeOf(layout[..k + 1]) == SizeOf(layout[..k]) + layout[k].size
  {
    hide SizeOf;
    SizeOfNext(layout, k);
  }

  lemma SizeOfNext(layout: seq<Taken>, k: nat)
    requires k < |layout|
    ensures SizeOf(layout[..k + 1]) == SizeOf(layout[..k]) + layout[k].size
  {
    assert layout[..k + 1][..k] == layout[..k];
  }

  /** Replaces a slice of a byte array; the ends are cut to the array and the length may change. */
  function SliceAssign(out: seq<byte>, lo: nat, hi: nat, data: seq<byte>): seq<byte> {
    var l := if lo <= |out| then lo else |out|;
    var h := if hi <= |out| then hi else |out|;
    out[..l] + data + out[if l <= h then h else l..]
  }

  ghost predicate AllWellSized(layout: seq<Taken>) {
    forall k :: 0 <= k < |layout| ==> |layout[k].data| == layout[k].size
  }

  /** The sections' bytes one after the other. */
  function Flat(layout: seq<Taken>): seq<byte> {
    if layout == [] then [] else Flat(layout[..|layout| - 1]) + layout[|layout| - 1].data
  }

  lemma {:induction false} FlatLength(layout: seq<Taken>)
    requires AllWellSized(layout)
    ensures |Flat(layout)| == SizeOf(layout)
  {
    if layout != [] {
      FlatLength(layout[..|layout| - 1]);
    }
  }

  lemma {:induction false} SizeMonotone(layout: seq<Taken>, k: nat)
    requires k <= |layout|
    ensures SizeOf(layout[..k]) <= SizeOf(layout)
    ensures k < |layout| ==> SizeOf(layout[..k]) + layout[k].size <= SizeOf(layout)
  {
    if k == |layout| {
      assert layout[..k] == layout;
    } else {
      var init := layout[..|layout| - 1];
      SizeMonotone(init, if k < |init| then k else |init|);
      assert init[..k] == layout[..k];
    }
  }

  /** A byte of the flat image is the byte of the section it lies in. */
  lemma {:induction false} FlatAt(layout: seq<Taken>, k: nat, j: nat)
    requires AllWellSized(layout) && k < |layout| && j < layout[k].size
    ensures SizeOf(layout[..k]) + j < |Flat(layout)|
    ensures Flat(layout)[SizeOf(layout[..k]) + j] == layout[k].data[j]
  {
    var init := layout[..|layout| - 1];
    FlatLength(layout);
    FlatLength(init);
    SizeMonotone(layout, k);
    if k == |init| {
    } else {
      FlatAt(init, k, j);
      assert init[..k] == layout[..k];
    }
  }

  /** Data that fits is put at the front of the zeros and takes their place. */
  lemma IntoZeros(prefix: seq<byte>, room: nat, data: seq<byte>)
    requires |data| <= room
    ensures SliceAssign(prefix + Zeros(room), |prefix|, |prefix| + |data|, data) ==
              (prefix + data) + Zeros(room - |data|)
  {
    var out := prefix + Zeros(room);
    assert out[..|prefix|] == prefix;
    assert out[|prefix| + |data|..] == Zeros(room - |data|);
  }

  lemma ZerosTogether(m: nat, n: nat)
    ensures Zeros(m) + Zeros(n) == Zeros(m + n)
  {
  }

  lemma FlatNext(layout: seq<Taken>, k: nat)
    requires k < |layout|
    ensures Flat(layout[..k + 1]) == Flat(layout[..k]) + layout[k].data
  {
    assert layout[..k + 1][..k] == layout[..k];
  }

  /**
   The buffer after the first `k` sections: zeros, with each section's bytes put in its slice.
   A section with less data than its size makes the buffer shorter.
   */
  function CopiedUpTo(layout: seq<Taken>, k: nat): seq<byte>
    requires k <= |layout|
  {
    if k == 0 then Zeros(SizeOf(layout))
    else SliceAssign(CopiedUpTo(layout, k - 1), SizeOf(layout[..k - 1]), SizeOf(layout[..k]), layout[k - 1].data)
  }

  function Copied(layout: seq<Taken>): seq<byte> {
    CopiedUpTo(layout, |layout|)
  }

  lemma {:induction false} CopiedIsFlatUpTo(layout: seq<Taken>, k: nat)
    requires AllWellSized(layout) && k <= |layout|
    ensures SizeOf(layout[..k]) <= SizeOf(layout)
    ensures CopiedUpTo(layout, k) == Flat(layout[..k]) + Zeros(SizeOf(layout) - SizeOf(layout[..k]))
  {
    hide SizeOf, Flat, SliceAssign, Zeros;
    SizeMonotone(layout, k);
    if k == 0 {
      NothingFlat(layout);
    } else {
      CopiedIsFlatUpTo(layout, k - 1);
      SizeOfNext(layout, k - 1);
      FlatNext(layout, k - 1);
      FlatLength(layout[..k - 1]);
      IntoZeros(Flat(layout[..k - 1]), SizeOf(layout) - SizeOf(layout[..k - 1]), layout[k - 1].data);
    }
  }

  lemma NothingFlat(layout: seq<Taken>)
    ensures Flat(layout[..0]) == [] && SizeOf(layout[..0]) == 0
  {
  }

  /** With all data there, the copied bytes are the sections' bytes one after the other. */
  lemma CopiedIsFlat(layout: seq<Taken>)
    requires AllWellSized(layout)
    ensures Copied(layout) == Flat(layout)
  {
    CopiedIsFlatUpTo(layout, |layout|);
    assert layout[..|layout|] == layout;
  }

  /** Copies every section's bytes to its place in a zeroed buffer. */
  method CopySections(layout: seq<Taken>) returns (output: seq<byte>)
    ensures output == Copied(layout)
    ensures AllWellSized(layout) ==> output == Flat(layout)
  {
    hide SizeOf, SliceAssign;
    NothingFlat(layout);
    assert layout[..|layout|] == layout;
    var total := 0;
    for k := 0 to |layout|
      invariant total == SizeOf(layout[..k])
    {
      SizeOfNext(layout, k);
      total := total + layout[k].size;
    }
    output := Zeros(total);
    var offset := 0;
    for k := 0 to |layout|
      invariant offset == SizeOf(layout[..k]) && output == CopiedUpTo(layout, k)
    {
      SizeOfNext(layout, k);
      output := SliceAssign(output, offset, offset + layout[k].size, layout[k].data);
      offset := offset + layout[k].size;
    }
    if AllWellSized(layout) {
      CopiedIsFlat(layout);
    }
  }
}
