/** Writing short byte fields into an output image, and what a set of such writes leaves. */
module Patches {
  import opened Sequences

  type byte = x: nat | x < 256

  datatype Patch = Patch(offset: nat, bytes: seq<byte>)

  predicate Fits(p: Patch, n: nat) {
    p.offset + |p.bytes| <= n
  }

  predicate AllFit(ps: seq<Patch>, n: nat) {
    forall k :: 0 <= k < |ps| ==> Fits(ps[k], n)
  }

  function Apply(out: seq<byte>, p: Patch): (r: seq<byte>)
    requires Fits(p, |out|)
    ensures |r| == |out|
    ensures forall i :: 0 <= i < |out| ==> r[i] == if Covers(p, i) then p.bytes[i - p.offset] else out[i]
  {
    out[..p.offset] + p.bytes + out[p.offset + |p.bytes|..]
  }

  predicate Covers(p: Patch, i: int) {
    p.offset <= i < p.offset + |p.bytes|
  }

  /** All patches, one after the other. */
  function ApplyAll(out: seq<byte>, ps: seq<Patch>): (r: seq<byte>)
    requires AllFit(ps, |out|)
    ensures |r| == |out|
  {
    if ps == [] then out else Apply(ApplyAll(out, ps[..|ps| - 1]), ps[|ps| - 1])
  }

  /** No two of the fields share a byte. */
  ghost predicate Apart(ps: seq<Patch>) {
    forall k, l, i :: 0 <= k < l < |ps| && Covers(ps[k], i) ==> !Covers(ps[l], i)
  }

  /** Fields that do not overlap all end up with their own bytes; everything else is as before. */
  lemma {:induction false} FieldsAndRest(out: seq<byte>, ps: seq<Patch>)
    requires AllFit(ps, |out|) && Apart(ps)
    ensures forall k, i :: 0 <= k < |ps| && 0 <= i < |out| && Covers(ps[k], i) ==>
              ApplyAll(out, ps)[i] == ps[k].bytes[i - ps[k].offset]
    ensures forall i :: 0 <= i < |out| && (forall k :: 0 <= k < |ps| ==> !Covers(ps[k], i)) ==>
              ApplyAll(out, ps)[i] == out[i]
  {
    if ps != [] {
      var init := ps[..|ps| - 1];
      FieldsAndRest(out, init);
      forall i | 0 <= i < |out| && (forall k :: 0 <= k < |ps| ==> !Covers(ps[k], i))
        ensures ApplyAll(out, ps)[i] == out[i]
      {
        assert forall k :: 0 <= k < |init| ==> init[k] == ps[k];
      }
      forall k, i | 0 <= k < |ps| && 0 <= i < |out| && Covers(ps[k], i)
        ensures ApplyAll(out, ps)[i] == ps[k].bytes[i - ps[k].offset]
      {
        if k < |init| {
          assert init[k] == ps[k];
        }
      }
    }
  }

  lemma ByteLands(out: seq<byte>, ps: seq<Patch>, p: Patch, i: nat)
    requires AllFit(ps, |out|) && Apart(ps) && p in ps && i < |p.bytes|
    ensures p.offset + i < |out| && ApplyAll(out, ps)[p.offset + i] == p.bytes[i]
  {
    hide ApplyAll, Apart;
    FieldsAndRest(out, ps);
    var k :| 0 <= k < |ps| && ps[k] == p;
    assert Fits(ps[k], |out|);
    assert Covers(ps[k], p.offset + i);
  }

  /** A field of patches that do not overlap holds its bytes in the end. */
  lemma FieldLands(out: seq<byte>, ps: seq<Patch>, p: Patch)
    requires AllFit(ps, |out|) && Apart(ps) && p in ps
    ensures Fits(p, |out|) && ApplyAll(out, ps)[p.offset..p.offset + |p.bytes|] == p.bytes
  {
    hide ApplyAll, Apart, Covers;
    var k :| 0 <= k < |ps| && ps[k] == p;
    assert Fits(ps[k], |out|);
    var r := ApplyAll(out, ps);
    forall i | 0 <= i < |p.bytes| ensures r[p.offset..p.offset + |p.bytes|][i] == p.bytes[i] {
      ByteLands(out, ps, p, i);
    }
  }

  /** A byte no field covers stays as it is. */
  lemma RestStays(out: seq<byte>, ps: seq<Patch>, i: nat)
    requires AllFit(ps, |out|) && Apart(ps) && i < |out| && forall p :: p in ps ==> !Covers(p, i)
    ensures ApplyAll(out, ps)[i] == out[i]
  {
    hide ApplyAll, Apart;
    FieldsAndRest(out, ps);
  }

  /** The order of fields that do not overlap does not matter. */
  lemma OrderDoesNotMatter(out: seq<byte>, ps: seq<Patch>, qs: seq<Patch>)
    requires AllFit(ps, |out|) && AllFit(qs, |out|) && Apart(ps) && Apart(qs) && multiset(ps) == multiset(qs)
    ensures ApplyAll(out, ps) == ApplyAll(out, qs)
  {
    FieldsAndRest(out, ps);
    FieldsAndRest(out, qs);
    var a, b := ApplyAll(out, ps), ApplyAll(out, qs);
    forall i | 0 <= i < |out| ensures a[i] == b[i] {
      if k :| 0 <= k < |ps| && Covers(ps[k], i) {
        assert ps[k] in multiset(qs);
        var l :| 0 <= l < |qs| && qs[l] == ps[k];
        assert Covers(qs[l], i);
      } else {
        forall l | 0 <= l < |qs| ensures !Covers(qs[l], i) {
          assert qs[l] in multiset(ps);
          var k :| 0 <= k < |ps| && ps[k] == qs[l];
        }
      }
    }
  }

  /** Fields that do not overlap do not overlap in another order. */
  lemma ApartAnyOrder(ps: seq<Patch>, qs: seq<Patch>)
    requires Apart(ps) && multiset(ps) == multiset(qs)
    ensures Apart(qs)
  {
    forall k, l, i | 0 <= k < l < |qs| && Covers(qs[k], i) ensures !Covers(qs[l], i) {
      assert qs[k] in multiset(ps) && qs[l] in multiset(ps);
      if qs[k] == qs[l] {
        SeenTwice(qs, k, l);
        CoveringOnce(ps, qs[k], i);
        assert false;
      } else {
        var a :| 0 <= a < |ps| && ps[a] == qs[k];
        var b :| 0 <= b < |ps| && ps[b] == qs[l];
        assert Covers(ps[a], i);
      }
    }
  }

  lemma {:induction false} CoveringOnce(ps: seq<Patch>, p: Patch, i: int)
    requires Apart(ps) && Covers(p, i)
    ensures multiset(ps)[p] <= 1
  {
    if ps != [] {
      var init := ps[..|ps| - 1];
      assert ps == init + [ps[|ps| - 1]];
      assert forall k :: 0 <= k < |init| ==> init[k] == ps[k];
      CoveringOnce(init, p, i);
      if ps[|ps| - 1] == p {
        assert p !in init;
        assert p !in multiset(init);
      }
    }
  }
}
