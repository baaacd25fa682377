/**
 Passing an aggregate as its scalars: how a type is expanded, how the types, the arguments of a
 call and the parameters of a function walk over the expansion, and that they fit together.
 */
module ArgExpansion {
  import opened Wrappers
  import opened FixedWidth

  /** Scalars are known by the number of their IR type. */
  datatype Ty =
    | Scalar(id: nat)
    | Complex(id: nat)
    | ConstantArray(elt: Ty, n: nat)
    | Record(isUnion: bool, bases: seq<Ty>, fields: seq<Field>)

  /** `zeroBits` marks a bit-field of length zero; `size` is the size of the type in chars. */
  datatype Field = Field(ty: Ty, zeroBits: bool, size: nat)

  datatype TypeExpansion =
    | ArrayExpansion(elt: Ty, n: nat)
    | RecordExpansion(bases: seq<Ty>, fields: seq<nat>)
    | ComplexExpansion(id: nat)
    | NoExpansion

  // Which parts of a type are expanded.

  /** The fields among the first `n` that hold something. */
  function ChosenUpTo(fields: seq<Field>, n: nat): (r: seq<nat>)
    requires n <= |fields|
    ensures forall k :: 0 <= k < |r| ==> r[k] < n && !fields[r[k]].zeroBits
  {
    if n == 0 then [] else ChosenUpTo(fields, n - 1) + if fields[n - 1].zeroBits then [] else [n - 1]
  }

  /** The largest field among the first `n`, the first of several; none if all are empty. */
  function LargestUpTo(fields: seq<Field>, n: nat): (r: Option<nat>)
    requires n <= |fields|
    ensures r.Some? ==> r.value < n && !fields[r.value].zeroBits
  {
    if n == 0 then None
    else
      var r := LargestUpTo(fields, n - 1);
      if !fields[n - 1].zeroBits && SizeOfLargest(fields, r) < fields[n - 1].size then Some(n - 1) else r
  }

  function SizeOfLargest(fields: seq<Field>, r: Option<nat>): nat {
    if r.Some? && r.value < |fields| then fields[r.value].size else 0
  }

  function Chosen(ty: Ty): (r: seq<nat>)
    requires ty.Record?
    ensures forall k :: 0 <= k < |r| ==> r[k] < |ty.fields| && !ty.fields[r[k]].zeroBits
  {
    if ty.isUnion then
      var r := LargestUpTo(ty.fields, |ty.fields|);
      if r.Some? then [r.value] else []
    else ChosenUpTo(ty.fields, |ty.fields|)
  }

  function Expansion(ty: Ty): TypeExpansion {
    match ty
    case ConstantArray(elt, n) => ArrayExpansion(elt, n)
    case Record(isUnion, bases, _) => RecordExpansion(if isUnion then [] else bases, Chosen(ty))
    case Complex(id) => ComplexExpansion(id)
    case Scalar(_) => NoExpansion
  }

  method GetTypeExpansion(ty: Ty) returns (e: TypeExpansion)
    ensures e == Expansion(ty)
  {
    if ty.ConstantArray? {
      return ArrayExpansion(ty.elt, ty.n);
    }
    if ty.Record? {
      var bases: seq<Ty>, fields: seq<nat> := [], [];
      if ty.isUnion {
        var largest: Option<nat>, unionSize := None, 0;
        for i := 0 to |ty.fields|
          invariant largest == LargestUpTo(ty.fields, i) && unionSize == SizeOfLargest(ty.fields, largest)
        {
          if !ty.fields[i].zeroBits {
            if unionSize < ty.fields[i].size {
              unionSize := ty.fields[i].size;
              largest := Some(i);
            }
          }
        }
        if largest.Some? {
          fields := fields + [largest.value];
        }
      } else {
        bases := ty.bases;
        for i := 0 to |ty.fields|
          invariant fields == ChosenUpTo(ty.fields, i)
        {
          if !ty.fields[i].zeroBits {
            fields := fields + [i];
          }
        }
      }
      return RecordExpansion(bases, fields);
    }
    if ty.Complex? {
      return ComplexExpansion(ty.id);
    }
    return NoExpansion;
  }

  /** Every field that holds something is chosen, once and in order. */
  lemma {:induction false} ChosenAreAll(fields: seq<Field>, n: nat)
    requires n <= |fields|
    ensures forall i :: 0 <= i < n && !fields[i].zeroBits ==> i in ChosenUpTo(fields, n)
    ensures forall k, l :: 0 <= k < l < |ChosenUpTo(fields, n)| ==> ChosenUpTo(fields, n)[k] < ChosenUpTo(fields, n)[l]
  {
    if n > 0 {
      ChosenAreAll(fields, n - 1);
    }
  }

  /** What is chosen of a union is the first of its largest fields. */
  lemma {:induction false} LargestMeans(fields: seq<Field>, n: nat)
    requires n <= |fields|
    ensures LargestUpTo(fields, n).None? ==> forall j :: 0 <= j < n && !fields[j].zeroBits ==> fields[j].size == 0
    ensures LargestUpTo(fields, n).Some? ==>
              var i := LargestUpTo(fields, n).value;
              && fields[i].size > 0
              && (forall j :: 0 <= j < n && !fields[j].zeroBits ==> fields[j].size <= fields[i].size)
              && (forall j :: 0 <= j < i && !fields[j].zeroBits ==> fields[j].size < fields[i].size)
  {
    if n > 0 {
      LargestMeans(fields, n - 1);
    }
  }

  /** The parts a type expands into, in order. */
  function Kids(ty: Ty): (r: seq<Ty>)
    ensures forall k :: 0 <= k < |r| ==> r[k] < ty
  {
    match ty
    case ConstantArray(elt, n) => seq(LoopCount(n), _ => elt)
    case Record(isUnion, bases, fields) =>
      (if isUnion then [] else bases) + ChosenTypes(ty)
    case Complex(_) => []
    case Scalar(_) => []
  }

  function ChosenTypes(ty: Ty): (r: seq<Ty>)
    requires ty.Record?
    ensures |r| == |Chosen(ty)|
    ensures forall k :: 0 <= k < |r| ==> r[k] == ty.fields[Chosen(ty)[k]].ty && r[k] < ty
  {
    seq(|Chosen(ty)|, k requires 0 <= k < |Chosen(ty)| => ty.fields[Chosen(ty)[k]].ty)
  }

  predicate IsLeaf(ty: Ty) {
    ty.Scalar? || ty.Complex?
  }

  // How many slots, and of which types.

  function Size(ty: Ty): nat
    decreases ty, |Kids(ty)| + 1
  {
    if ty.Scalar? then 1 else if ty.Complex? then 2 else SizeUpTo(ty, |Kids(ty)|)
  }

  /** The slots of the first `n` parts. */
  function SizeUpTo(ty: Ty, n: nat): nat
    requires n <= |Kids(ty)|
    decreases ty, n
  {
    if n == 0 then 0 else SizeUpTo(ty, n - 1) + Size(Kids(ty)[n - 1])
  }

  function Types(ty: Ty): (r: seq<nat>)
    ensures |r| == Size(ty)
    decreases ty, |Kids(ty)| + 1
  {
    if ty.Scalar? then [ty.id] else if ty.Complex? then [ty.id, ty.id] else TypesUpTo(ty, |Kids(ty)|)
  }

  function TypesUpTo(ty: Ty, n: nat): (r: seq<nat>)
    requires n <= |Kids(ty)|
    ensures |r| == SizeUpTo(ty, n)
    decreases ty, n
  {
    if n == 0 then [] else TypesUpTo(ty, n - 1) + Types(Kids(ty)[n - 1])
  }

  /** A type that is no scalar or complex number takes the slots of its parts, one after the other. */
  lemma Whole(ty: Ty)
    requires !IsLeaf(ty)
    ensures Size(ty) == SizeUpTo(ty, |Kids(ty)|) && Types(ty) == TypesUpTo(ty, |Kids(ty)|)
    ensures SizeUpTo(ty, 0) == 0 && TypesUpTo(ty, 0) == []
  {
    hide Kids;
  }

  lemma NoKids(ty: Ty)
    ensures IsLeaf(ty) ==> Kids(ty) == []
  {
  }

  lemma Leaf(ty: Ty)
    requires IsLeaf(ty)
    ensures ty.Scalar? ==> Size(ty) == 1 && Types(ty) == [ty.id]
    ensures ty.Complex? ==> Size(ty) == 2 && Types(ty) == [ty.id, ty.id]
  {
  }

  lemma {:induction false} SizeMonotone(ty: Ty, m: nat, n: nat)
    requires m <= n <= |Kids(ty)|
    ensures SizeUpTo(ty, m) <= SizeUpTo(ty, n)
  {
    hide Kids, Size;
    if m < n {
      SizeMonotone(ty, m, n - 1);
    }
  }

  lemma NextSize(ty: Ty, n: nat)
    requires !IsLeaf(ty) && n < |Kids(ty)|
    ensures SizeUpTo(ty, n + 1) == SizeUpTo(ty, n) + Size(Kids(ty)[n]) && SizeUpTo(ty, n + 1) <= Size(ty)
  {
    hide Kids, Size;
    Whole(ty);
    SizeMonotone(ty, n + 1, |Kids(ty)|);
  }

  /** The scalars a type holds, with the lengths of its arrays taken in full. */
  function FullSize(ty: Ty): nat
    decreases ty, |Kids(ty)| + 1
  {
    match ty
    case Scalar(_) => 1
    case Complex(_) => 2
    case ConstantArray(elt, n) => Times(n, FullSize(elt))
    case Record(_, _, _) => FullSizeUpTo(ty, |Kids(ty)|)
  }

  function FullSizeUpTo(ty: Ty, n: nat): nat
    requires ty.Record? && n <= |Kids(ty)|
    decreases ty, n
  {
    if n == 0 then 0 else FullSizeUpTo(ty, n - 1) + FullSize(Kids(ty)[n - 1])
  }

  /** The count is kept in 32 bits; a sum that leaves them is taken to wrap around. */
  method GetExpansionSize(ty: Ty) returns (size: int)
    ensures size == Wrap32(FullSize(ty))
    decreases ty
  {
    hide Kids, FullSizeUpTo, Chosen, Wrap32;
    var e := GetTypeExpansion(ty);
    if e.ArrayExpansion? {
      var one := GetExpansionSize(e.elt);
      WrapTimes(e.n, FullSize(e.elt));
      return Wrap32(e.n * one);
    }
    if e.RecordExpansion? {
      var res := 0;
      KidsOfRecord(ty);
      NoFullSize(ty);
      for i := 0 to |e.bases|
        invariant res == Wrap32(FullSizeUpTo(ty, i))
      {
        var s := GetExpansionSize(e.bases[i]);
        NextFullSize(ty, i);
        WrapPlus(FullSizeUpTo(ty, i), FullSize(e.bases[i]));
        res := Wrap32(res + s);
      }
      for i := 0 to |e.fields|
        invariant res == Wrap32(FullSizeUpTo(ty, |e.bases| + i))
      {
        var field := ty.fields[e.fields[i]].ty;
        var s := GetExpansionSize(field);
        NextFullSize(ty, |e.bases| + i);
        WrapPlus(FullSizeUpTo(ty, |e.bases| + i), FullSize(field));
        res := Wrap32(res + s);
      }
      return res;
    }
    SmallStays(if e.ComplexExpansion? then 2 else 1);
    if e.ComplexExpansion? {
      return 2;
    }
    return 1;
  }

  lemma NoFullSize(ty: Ty)
    requires ty.Record?
    ensures Wrap32(FullSizeUpTo(ty, 0)) == 0
  {
  }

  lemma NextFullSize(ty: Ty, n: nat)
    requires ty.Record? && n < |Kids(ty)|
    ensures FullSizeUpTo(ty, n + 1) == FullSizeUpTo(ty, n) + FullSize(Kids(ty)[n])
  {
  }

  /** `s` with the elements from `p` on replaced by those of `t`. */
  function Splice<T>(s: seq<T>, p: nat, t: seq<T>): (r: seq<T>)
    requires p + |t| <= |s|
    ensures |r| == |s|
  {
    s[..p] + t + s[p + |t|..]
  }

  lemma SpliceTwice<T>(s: seq<T>, p: nat, t: seq<T>, u: seq<T>)
    requires p + |t| + |u| <= |s|
    ensures Splice(Splice(s, p, t), p + |t|, u) == Splice(s, p, t + u)
  {
  }

  lemma SpliceNothing<T>(s: seq<T>, p: nat)
    requires p <= |s|
    ensures Splice(s, p, []) == s
  {
  }

  lemma SpliceOne<T>(s: seq<T>, p: nat, x: T)
    requires p < |s|
    ensures Splice(s, p, [x]) == s[p := x]
  {
  }

  lemma SplicePair<T>(s: seq<T>, p: nat, x: T, y: T)
    requires p + 1 < |s|
    ensures Splice(s, p, [x, y]) == s[p := x][p + 1 := y]
  {
  }

  /** Writing the types of the next part after those of the parts before it. */
  lemma NextTypes(was: seq<nat>, ti: nat, ty: Ty, n: nat)
    requires !IsLeaf(ty) && n < |Kids(ty)| && ti + Size(ty) <= |was|
    ensures SizeUpTo(ty, n + 1) == SizeUpTo(ty, n) + Size(Kids(ty)[n]) && SizeUpTo(ty, n + 1) <= Size(ty)
    ensures Splice(Splice(was, ti, TypesUpTo(ty, n)), ti + SizeUpTo(ty, n), Types(Kids(ty)[n])) ==
            Splice(was, ti, TypesUpTo(ty, n + 1))
  {
    hide Kids, Size, Types, Splice;
    NextSize(ty, n);
    SpliceTwice(was, ti, TypesUpTo(ty, n), Types(Kids(ty)[n]));
  }

  /** Writes the types of the slots at the iterator and moves it past them. */
  method GetExpandedTypes(ty: Ty, types: array<nat>, ti: nat) returns (ti': nat)
    requires ti + Size(ty) <= types.Length
    modifies types
    ensures ti' == ti + Size(ty)
    ensures types[..] == Splice(old(types[..]), ti, Types(ty))
    decreases ty
  {
    hide Splice, Kids, Size, SizeUpTo, Types, TypesUpTo, Chosen;
    var e := GetTypeExpansion(ty);
    ti' := ti;
    ghost var was: seq<nat> := types[..];
    if e.ArrayExpansion? {
      SpliceNothing(was, ti);
      KidsOfArray(ty);
      Whole(ty);
      for i := 0 to LoopCount(e.n)
        invariant ti' == ti + SizeUpTo(ty, i) && SizeUpTo(ty, i) <= Size(ty)
        invariant types[..] == Splice(was, ti, TypesUpTo(ty, i))
      {
        NextTypes(was, ti, ty, i);
        ti' := GetExpandedTypes(e.elt, types, ti');
      }
    } else if e.RecordExpansion? {
      SpliceNothing(was, ti);
      KidsOfRecord(ty);
      Whole(ty);
      for i := 0 to |e.bases|
        invariant ti' == ti + SizeUpTo(ty, i) && SizeUpTo(ty, i) <= Size(ty)
        invariant types[..] == Splice(was, ti, TypesUpTo(ty, i))
      {
        NextTypes(was, ti, ty, i);
        ti' := GetExpandedTypes(e.bases[i], types, ti');
      }
      for i := 0 to |e.fields|
        invariant ti' == ti + SizeUpTo(ty, |e.bases| + i) && SizeUpTo(ty, |e.bases| + i) <= Size(ty)
        invariant types[..] == Splice(was, ti, TypesUpTo(ty, |e.bases| + i))
      {
        NextTypes(was, ti, ty, |e.bases| + i);
        ti' := GetExpandedTypes(ty.fields[e.fields[i]].ty, types, ti');
      }
    } else if e.ComplexExpansion? {
      Leaf(ty);
      SplicePair<nat>(was, ti, e.id, e.id);
      types[ti] := e.id;
      types[ti + 1] := e.id;
      ti' := ti + 2;
      ghost var half: seq<nat> := was[ti := e.id];
      assert types[..] == half[ti + 1 := e.id];
    } else {
      Leaf(ty);
      SpliceOne<nat>(was, ti, ty.id);
      types[ti] := ty.id;
      ti' := ti + 1;
      assert types[..] == was[ti := ty.id];
    }
  }

  lemma KidsOfArray(ty: Ty)
    requires ty.ConstantArray?
    ensures |Kids(ty)| == LoopCount(ty.n) && forall i :: 0 <= i < LoopCount(ty.n) ==> Kids(ty)[i] == ty.elt < ty
  {
  }

  /** The parts of a record: its bases and then the fields that are chosen. */
  lemma KidsOfRecord(ty: Ty)
    requires ty.Record?
    ensures var e := Expansion(ty);
            && |Kids(ty)| == |e.bases| + |e.fields|
            && (forall k :: 0 <= k < |e.bases| ==> Kids(ty)[k] == e.bases[k] && e.bases[k] < ty)
            && (forall k :: 0 <= k < |e.fields| ==>
                 && e.fields[k] < |ty.fields|
                 && Kids(ty)[|e.bases| + k] == ty.fields[e.fields[k]].ty
                 && ty.fields[e.fields[k]].ty < ty)
  {
    hide Chosen;
  }

  // Values.

  /** One scalar with the number of its IR type. */
  datatype Arg = Arg(id: nat, bits: int)

  /**
   Nothing stands for a bit-field of length zero, and for the members of a union other than its
   largest: they are other readings of the storage that the largest one has.
   */
  datatype Value =
    | ScalarValue(a: Arg)
    | ComplexValue(re: Arg, im: Arg)
    | ArrayValue(elts: seq<Value>)
    | RecordValue(bases: seq<Value>, fields: seq<Value>)
    | Nothing

  /** How many bases are expanded. */
  function BaseCount(ty: Ty): (r: nat)
    requires ty.Record?
    ensures r <= |ty.bases|
  {
    if ty.isUnion then 0 else |ty.bases|
  }

  predicate HasType(v: Value, ty: Ty)
    decreases ty
  {
    match ty
    case Scalar(id) => v.ScalarValue? && v.a.id == id
    case Complex(id) => v.ComplexValue? && v.re.id == id && v.im.id == id
    case ConstantArray(elt, n) => v.ArrayValue? && |v.elts| == n && forall i :: 0 <= i < n ==> HasType(v.elts[i], elt)
    case Record(_, bases, fields) =>
      && v.RecordValue? && |v.bases| == BaseCount(ty) && |v.fields| == |fields|
      && (forall i :: 0 <= i < BaseCount(ty) ==> HasType(v.bases[i], bases[i]))
      && (forall i :: 0 <= i < |fields| ==>
           if i in Chosen(ty) then HasType(v.fields[i], fields[i].ty) else v.fields[i] == Nothing)
  }

  /** The parts of a typed value, and that they have the types of the parts of its type. */
  lemma PartsOfType(ty: Ty, v: Value)
    requires HasType(v, ty)
    ensures IsLeaf(ty) ==> Kids(ty) == []
    ensures ty.ConstantArray? ==>
              && v.ArrayValue? && |v.elts| >= |Kids(ty)|
              && forall k :: 0 <= k < |Kids(ty)| ==> HasType(v.elts[k], Kids(ty)[k])
    ensures ty.Record? ==>
              && v.RecordValue? && BaseCount(ty) <= |v.bases| && |v.fields| == |ty.fields|
              && |Kids(ty)| == BaseCount(ty) + |Chosen(ty)|
              && (forall k :: 0 <= k < BaseCount(ty) ==> HasType(v.bases[k], Kids(ty)[k]))
              && (forall k :: 0 <= k < |Chosen(ty)| ==> HasType(v.fields[Chosen(ty)[k]], Kids(ty)[BaseCount(ty) + k]))
  {
    hide HasType, Kids, Chosen;
    TypedParts(ty, v);
    NoKids(ty);
    if ty.ConstantArray? {
      KidsOfArray(ty);
    } else if ty.Record? {
      KidsOfRecord(ty);
    }
  }

  /** The part of a value that stands for part `k` of its type. */
  function KidValue(ty: Ty, v: Value, k: nat): (r: Value)
    requires HasType(v, ty) && k < |Kids(ty)|
    ensures HasType(r, Kids(ty)[k])
  {
    hide HasType, Kids, Chosen;
    PartsOfType(ty, v);
    if ty.ConstantArray? then v.elts[k]
    else if k < BaseCount(ty) then v.bases[k]
    else v.fields[Chosen(ty)[k - BaseCount(ty)]]
  }

  /** A part may be replaced by any value of its type. */
  lemma PutStaysTyped(ty: Ty, v: Value, k: nat, w: Value)
    requires HasType(v, ty) && k < |Kids(ty)| && HasType(w, Kids(ty)[k])
    ensures ty.ConstantArray? ==> v.ArrayValue? && k < |v.elts| && HasType(ArrayValue(v.elts[k := w]), ty)
    ensures ty.Record? ==>
              v.RecordValue? &&
              if k < BaseCount(ty) then k < |v.bases| && HasType(v.(bases := v.bases[k := w]), ty)
              else
                var f := k - BaseCount(ty);
                && f < |Chosen(ty)| && Chosen(ty)[f] < |v.fields|
                && HasType(v.(fields := v.fields[Chosen(ty)[f] := w]), ty)
    ensures ty.ConstantArray? || ty.Record?
  {
    hide HasType, Kids, Chosen;
    NoKids(ty);
    TypedParts(ty, v);
    if ty.ConstantArray? {
      KidsOfArray(ty);
      ArrayIsTyped(ty, ArrayValue(v.elts[k := w]));
    } else {
      KidsOfRecord(ty);
      if k < BaseCount(ty) {
        RecordIsTyped(ty, v.(bases := v.bases[k := w]));
      } else {
        RecordIsTyped(ty, v.(fields := v.fields[Chosen(ty)[k - BaseCount(ty)] := w]));
      }
    }
  }

  lemma ArrayIsTyped(ty: Ty, v: Value)
    requires ty.ConstantArray? && v.ArrayValue? && |v.elts| == ty.n
    requires forall k :: 0 <= k < ty.n ==> HasType(v.elts[k], ty.elt)
    ensures HasType(v, ty)
  {
  }

  lemma RecordIsTyped(ty: Ty, v: Value)
    requires ty.Record? && v.RecordValue? && |v.bases| == BaseCount(ty) && |v.fields| == |ty.fields|
    requires forall k :: 0 <= k < BaseCount(ty) ==> HasType(v.bases[k], ty.bases[k])
    requires forall k :: 0 <= k < |ty.fields| && k in Chosen(ty) ==> HasType(v.fields[k], ty.fields[k].ty)
    requires forall k :: 0 <= k < |ty.fields| && k !in Chosen(ty) ==> v.fields[k] == Nothing
    ensures HasType(v, ty)
  {
  }

  /** The value with part `k` replaced. */
  function PutKid(ty: Ty, v: Value, k: nat, w: Value): (r: Value)
    requires HasType(v, ty) && k < |Kids(ty)| && HasType(w, Kids(ty)[k])
    ensures HasType(r, ty)
  {
    PutStaysTyped(ty, v, k, w);
    if ty.ConstantArray? then ArrayValue(v.elts[k := w])
    else if k < BaseCount(ty) then v.(bases := v.bases[k := w])
    else v.(fields := v.fields[Chosen(ty)[k - BaseCount(ty)] := w])
  }

  // The parts of a value, one kind at a time.

  lemma ElementAt(ty: Ty, v: Value, i: nat)
    requires HasType(v, ty) && ty.ConstantArray? && i < |Kids(ty)|
    ensures v.ArrayValue? && i < |v.elts| && v.elts[i] == KidValue(ty, v, i)
  {
    hide HasType, Kids;
    PartsOfType(ty, v);
  }

  lemma PutElement(ty: Ty, v: Value, i: nat, w: Value)
    requires HasType(v, ty) && ty.ConstantArray? && i < |Kids(ty)| && HasType(w, Kids(ty)[i])
    ensures v.ArrayValue? && i < |v.elts| && ArrayValue(v.elts[i := w]) == PutKid(ty, v, i, w)
  {
    hide HasType, Kids;
    PartsOfType(ty, v);
  }

  lemma BaseAt(ty: Ty, v: Value, i: nat)
    requires HasType(v, ty) && ty.Record? && i < BaseCount(ty) && i < |Kids(ty)|
    ensures v.RecordValue? && i < |v.bases| && v.bases[i] == KidValue(ty, v, i)
  {
    hide HasType, Kids, Chosen;
    PartsOfType(ty, v);
  }

  lemma PutBase(ty: Ty, v: Value, i: nat, w: Value)
    requires HasType(v, ty) && ty.Record? && i < BaseCount(ty) && i < |Kids(ty)| && HasType(w, Kids(ty)[i])
    ensures v.RecordValue? && i < |v.bases| && v.(bases := v.bases[i := w]) == PutKid(ty, v, i, w)
  {
    hide HasType, Kids, Chosen;
    PartsOfType(ty, v);
  }

  lemma FieldAt(ty: Ty, v: Value, i: nat)
    requires HasType(v, ty) && ty.Record? && i < |Chosen(ty)| && BaseCount(ty) + i < |Kids(ty)|
    ensures v.RecordValue? && Chosen(ty)[i] < |v.fields|
    ensures v.fields[Chosen(ty)[i]] == KidValue(ty, v, BaseCount(ty) + i)
  {
    hide HasType, Kids, Chosen;
    PartsOfType(ty, v);
  }

  lemma PutField(ty: Ty, v: Value, i: nat, w: Value)
    requires HasType(v, ty) && ty.Record? && i < |Chosen(ty)| && BaseCount(ty) + i < |Kids(ty)|
    requires HasType(w, Kids(ty)[BaseCount(ty) + i])
    ensures v.RecordValue? && Chosen(ty)[i] < |v.fields|
    ensures v.(fields := v.fields[Chosen(ty)[i] := w]) == PutKid(ty, v, BaseCount(ty) + i, w)
  {
    hide HasType, Kids, Chosen;
    PartsOfType(ty, v);
  }

  lemma ChosenDistinct(ty: Ty)
    requires ty.Record?
    ensures forall k, l :: 0 <= k < l < |Chosen(ty)| ==> Chosen(ty)[k] != Chosen(ty)[l]
  {
    ChosenAreAll(ty.fields, |ty.fields|);
  }

  lemma PutThenGet(ty: Ty, v: Value, k: nat, w: Value, l: nat)
    requires HasType(v, ty) && k < |Kids(ty)| && HasType(w, Kids(ty)[k]) && l < |Kids(ty)|
    ensures KidValue(ty, PutKid(ty, v, k, w), l) == if l == k then w else KidValue(ty, v, l)
  {
    hide HasType, Kids, Chosen;
    TypedParts(ty, v);
    NoKids(ty);
    if ty.ConstantArray? {
      KidsOfArray(ty);
    } else if ty.Record? {
      KidsOfRecord(ty);
      ChosenDistinct(ty);
    }
  }

  /** The scalars of a value, in the order of the expansion. */
  function Flatten(ty: Ty, v: Value): (r: seq<Arg>)
    requires HasType(v, ty)
    ensures |r| == Size(ty)
    decreases ty, |Kids(ty)| + 1
  {
    if ty.Scalar? then [v.a] else if ty.Complex? then [v.re, v.im] else FlattenUpTo(ty, v, |Kids(ty)|)
  }

  function FlattenUpTo(ty: Ty, v: Value, n: nat): (r: seq<Arg>)
    requires HasType(v, ty) && n <= |Kids(ty)|
    ensures |r| == SizeUpTo(ty, n)
    decreases ty, n
  {
    if n == 0 then [] else FlattenUpTo(ty, v, n - 1) + Flatten(Kids(ty)[n - 1], KidValue(ty, v, n - 1))
  }

  lemma WholeValue(ty: Ty, v: Value)
    requires HasType(v, ty)
    ensures ty.Scalar? ==> v.ScalarValue? && Flatten(ty, v) == [v.a]
    ensures ty.Complex? ==> v.ComplexValue? && Flatten(ty, v) == [v.re, v.im]
    ensures !IsLeaf(ty) ==> Flatten(ty, v) == FlattenUpTo(ty, v, |Kids(ty)|) && FlattenUpTo(ty, v, 0) == []
  {
    hide Kids;
  }

  /** Writing the scalars of the next part after those of the parts before it. */
  lemma NextScalars(was: seq<Arg>, pos: nat, ty: Ty, v: Value, n: nat)
    requires HasType(v, ty) && !IsLeaf(ty) && n < |Kids(ty)| && pos + Size(ty) <= |was|
    ensures SizeUpTo(ty, n + 1) == SizeUpTo(ty, n) + Size(Kids(ty)[n]) && SizeUpTo(ty, n + 1) <= Size(ty)
    ensures Splice(Splice(was, pos, FlattenUpTo(ty, v, n)), pos + SizeUpTo(ty, n),
                   Flatten(Kids(ty)[n], KidValue(ty, v, n))) ==
            Splice(was, pos, FlattenUpTo(ty, v, n + 1))
  {
    hide Kids, Size, Flatten, Splice, KidValue, HasType;
    NextSize(ty, n);
    SpliceTwice(was, pos, FlattenUpTo(ty, v, n), Flatten(Kids(ty)[n], KidValue(ty, v, n)));
  }

  /** Writes the scalars of a value into the argument list from `pos` on, and moves `pos` past them. */
  method ExpandTypeToArgs(ty: Ty, v: Value, args: array<Arg>, pos: nat) returns (pos': nat)
    requires HasType(v, ty) && pos + Size(ty) <= args.Length
    modifies args
    ensures pos' == pos + Size(ty)
    ensures args[..] == Splice(old(args[..]), pos, Flatten(ty, v))
    decreases ty
  {
    hide Splice, Kids, HasType, Size, SizeUpTo, Types, TypesUpTo, Flatten, FlattenUpTo, Chosen;
    var e := GetTypeExpansion(ty);
    pos' := pos;
    ghost var was := args[..];
    TypedParts(ty, v);
    WholeValue(ty, v);
    if e.ArrayExpansion? {
      SpliceNothing(was, pos);
      KidsOfArray(ty);
      Whole(ty);
      for i := 0 to LoopCount(e.n)
        invariant pos' == pos + SizeUpTo(ty, i) && SizeUpTo(ty, i) <= Size(ty)
        invariant args[..] == Splice(was, pos, FlattenUpTo(ty, v, i))
      {
        NextScalars(was, pos, ty, v, i);
        pos' := ExpandTypeToArgs(e.elt, v.elts[i], args, pos');
      }
    } else if e.RecordExpansion? {
      SpliceNothing(was, pos);
      KidsOfRecord(ty);
      Whole(ty);
      for i := 0 to |e.bases|
        invariant pos' == pos + SizeUpTo(ty, i) && SizeUpTo(ty, i) <= Size(ty)
        invariant args[..] == Splice(was, pos, FlattenUpTo(ty, v, i))
      {
        NextScalars(was, pos, ty, v, i);
        pos' := ExpandTypeToArgs(e.bases[i], v.bases[i], args, pos');
      }
      for i := 0 to |e.fields|
        invariant pos' == pos + SizeUpTo(ty, |e.bases| + i) && SizeUpTo(ty, |e.bases| + i) <= Size(ty)
        invariant args[..] == Splice(was, pos, FlattenUpTo(ty, v, |e.bases| + i))
      {
        NextScalars(was, pos, ty, v, |e.bases| + i);
        pos' := ExpandTypeToArgs(ty.fields[e.fields[i]].ty, v.fields[e.fields[i]], args, pos');
      }
    } else if e.ComplexExpansion? {
      Leaf(ty);
      SplicePair(was, pos, v.re, v.im);
      args[pos] := v.re;
      args[pos + 1] := v.im;
      pos' := pos + 2;
      assert args[..] == was[pos := v.re][pos + 1 := v.im];
    } else {
      Leaf(ty);
      SpliceOne(was, pos, v.a);
      args[pos] := v.a;
      pos' := pos + 1;
      assert args[..] == was[pos := v.a];
    }
  }

  /** The shape of a typed value, and which of its parts stand for which parts of the type. */
  lemma TypedParts(ty: Ty, v: Value)
    requires HasType(v, ty)
    ensures ty.Scalar? ==> v.ScalarValue?
    ensures ty.Complex? ==> v.ComplexValue?
    ensures ty.ConstantArray? ==>
              v.ArrayValue? && |v.elts| == ty.n && forall k :: 0 <= k < ty.n ==> HasType(v.elts[k], ty.elt)
    ensures ty.Record? ==>
              && v.RecordValue? && |v.bases| == BaseCount(ty) && |v.fields| == |ty.fields|
              && (forall k :: 0 <= k < BaseCount(ty) ==> HasType(v.bases[k], ty.bases[k]))
              && (forall k :: 0 <= k < |ty.fields| && k in Chosen(ty) ==> HasType(v.fields[k], ty.fields[k].ty))
              && (forall k :: 0 <= k < |ty.fields| && k !in Chosen(ty) ==> v.fields[k] == Nothing)
  {
  }

  /** The arguments from `ai` on have the types of the slots. */
  ghost predicate FitsAt(args: seq<Arg>, ai: nat, ty: Ty) {
    ai + Size(ty) <= |args| && forall k :: 0 <= k < Size(ty) ==> args[ai + k].id == Types(ty)[k]
  }

  /** Where the slots of part `n` are. */
  lemma {:induction false} TypesAt(ty: Ty, n: nat, m: nat)
    requires n < m <= |Kids(ty)|
    ensures SizeUpTo(ty, n) + Size(Kids(ty)[n]) <= SizeUpTo(ty, m)
    ensures forall k :: 0 <= k < Size(Kids(ty)[n]) ==> TypesUpTo(ty, m)[SizeUpTo(ty, n) + k] == Types(Kids(ty)[n])[k]
  {
    hide Kids, Size, Types;
    if n < m - 1 {
      TypesAt(ty, n, m - 1);
    }
  }

  lemma {:induction false} FlattenAt(ty: Ty, v: Value, n: nat, m: nat)
    requires HasType(v, ty) && n < m <= |Kids(ty)|
    ensures SizeUpTo(ty, n) + Size(Kids(ty)[n]) <= SizeUpTo(ty, m)
    ensures forall k :: 0 <= k < Size(Kids(ty)[n]) ==>
              FlattenUpTo(ty, v, m)[SizeUpTo(ty, n) + k] == Flatten(Kids(ty)[n], KidValue(ty, v, n))[k]
  {
    hide Kids, Size, Flatten, HasType, KidValue;
    if n < m - 1 {
      FlattenAt(ty, v, n, m - 1);
    }
  }

  lemma FitsKid(args: seq<Arg>, ai: nat, ty: Ty, n: nat)
    requires FitsAt(args, ai, ty) && n < |Kids(ty)|
    ensures FitsAt(args, ai + SizeUpTo(ty, n), Kids(ty)[n])
  {
    hide Kids, Size, SizeUpTo, Types, TypesUpTo;
    NoKids(ty);
    Whole(ty);
    TypesAt(ty, n, |Kids(ty)|);
    var kid := Kids(ty)[n];
    forall k | 0 <= k < Size(kid) ensures args[ai + SizeUpTo(ty, n) + k].id == Types(kid)[k] {
      var slot := SizeUpTo(ty, n) + k;
      assert args[ai + slot].id == Types(ty)[slot];
    }
  }

  lemma LeafFits(args: seq<Arg>, ai: nat, ty: Ty)
    requires FitsAt(args, ai, ty)
    ensures ty.Scalar? ==> ai < |args| && args[ai].id == ty.id
    ensures ty.Complex? ==> ai + 1 < |args| && args[ai].id == ty.id && args[ai + 1].id == ty.id
  {
    if IsLeaf(ty) {
      Leaf(ty);
      assert args[ai + 0].id == Types(ty)[0];
    }
    if ty.Complex? {
      assert args[ai + 1].id == Types(ty)[1];
    }
  }

  /** The value that `lv` becomes when the arguments from `ai` on are stored into its parts. */
  function Rebuild(ty: Ty, lv: Value, args: seq<Arg>, ai: nat): (r: Value)
    requires HasType(lv, ty) && FitsAt(args, ai, ty)
    ensures HasType(r, ty)
    decreases ty, |Kids(ty)| + 1
  {
    LeafFits(args, ai, ty);
    if ty.Scalar? then ScalarValue(args[ai])
    else if ty.Complex? then ComplexValue(args[ai], args[ai + 1])
    else RebuildUpTo(ty, lv, args, ai, |Kids(ty)|)
  }

  function RebuildUpTo(ty: Ty, lv: Value, args: seq<Arg>, ai: nat, n: nat): (r: Value)
    requires HasType(lv, ty) && FitsAt(args, ai, ty) && n <= |Kids(ty)|
    ensures HasType(r, ty)
    decreases ty, n
  {
    if n == 0 then lv else StoreKid(ty, RebuildUpTo(ty, lv, args, ai, n - 1), args, ai, n - 1)
  }

  /** The arguments of part `k` stored into that part. */
  function StoreKid(ty: Ty, lv: Value, args: seq<Arg>, ai: nat, k: nat): (r: Value)
    requires HasType(lv, ty) && FitsAt(args, ai, ty) && k < |Kids(ty)|
    ensures HasType(r, ty)
    decreases ty, k
  {
    hide Kids, HasType, FitsAt, KidValue, PutKid;
    FitsKid(args, ai, ty, k);
    PutKid(ty, lv, k, Rebuild(Kids(ty)[k], KidValue(ty, lv, k), args, ai + SizeUpTo(ty, k)))
  }

  lemma NextStored(ty: Ty, lv: Value, args: seq<Arg>, ai: nat, n: nat)
    requires HasType(lv, ty) && FitsAt(args, ai, ty) && !IsLeaf(ty) && n < |Kids(ty)|
    ensures FitsAt(args, ai + SizeUpTo(ty, n), Kids(ty)[n])
    ensures SizeUpTo(ty, n + 1) == SizeUpTo(ty, n) + Size(Kids(ty)[n])
    ensures var before := RebuildUpTo(ty, lv, args, ai, n);
            RebuildUpTo(ty, lv, args, ai, n + 1) ==
            PutKid(ty, before, n, Rebuild(Kids(ty)[n], KidValue(ty, before, n), args, ai + SizeUpTo(ty, n)))
  {
    hide Kids, HasType, FitsAt, PutKid, KidValue, Rebuild;
    FitsKid(args, ai, ty, n);
    NextSize(ty, n);
  }

  lemma WholeStored(ty: Ty, lv: Value, args: seq<Arg>, ai: nat)
    requires HasType(lv, ty) && FitsAt(args, ai, ty)
    ensures ty.Scalar? ==> ai < |args| && Rebuild(ty, lv, args, ai) == ScalarValue(args[ai])
    ensures ty.Complex? ==> ai + 1 < |args| && Rebuild(ty, lv, args, ai) == ComplexValue(args[ai], args[ai + 1])
    ensures !IsLeaf(ty) ==> Rebuild(ty, lv, args, ai) == RebuildUpTo(ty, lv, args, ai, |Kids(ty)|)
    ensures RebuildUpTo(ty, lv, args, ai, 0) == lv
  {
    hide Kids, HasType, FitsAt;
    LeafFits(args, ai, ty);
  }

  /** Stores the arguments from the iterator on into the parts of `lv`, and moves it past them. */
  method ExpandTypeFromArgs(ty: Ty, lv: Value, args: seq<Arg>, ai: nat) returns (r: Value, ai': nat)
    requires HasType(lv, ty) && FitsAt(args, ai, ty)
    ensures ai' == ai + Size(ty)
    ensures r == Rebuild(ty, lv, args, ai)
    decreases ty
  {
    hide Kids, HasType, FitsAt, Size, SizeUpTo, Rebuild, RebuildUpTo, Chosen, KidValue, PutKid;
    var e := GetTypeExpansion(ty);
    r, ai' := lv, ai;
    WholeStored(ty, lv, args, ai);
    if e.ArrayExpansion? {
      KidsOfArray(ty);
      Whole(ty);
      for i := 0 to LoopCount(e.n)
        invariant ai' == ai + SizeUpTo(ty, i) && HasType(r, ty) && r == RebuildUpTo(ty, lv, args, ai, i)
      {
        NextStored(ty, lv, args, ai, i);
        ElementAt(ty, r, i);
        var elt: Value;
        elt, ai' := ExpandTypeFromArgs(e.elt, r.elts[i], args, ai');
        PutElement(ty, r, i, elt);
        r := ArrayValue(r.elts[i := elt]);
      }
    } else if e.RecordExpansion? {
      KidsOfRecord(ty);
      Whole(ty);
      for i := 0 to |e.bases|
        invariant ai' == ai + SizeUpTo(ty, i) && HasType(r, ty) && r == RebuildUpTo(ty, lv, args, ai, i)
      {
        NextStored(ty, lv, args, ai, i);
        BaseAt(ty, r, i);
        var base: Value;
        base, ai' := ExpandTypeFromArgs(e.bases[i], r.bases[i], args, ai');
        PutBase(ty, r, i, base);
        r := r.(bases := r.bases[i := base]);
      }
      for i := 0 to |e.fields|
        invariant ai' == ai + SizeUpTo(ty, |e.bases| + i) && HasType(r, ty)
        invariant r == RebuildUpTo(ty, lv, args, ai, |e.bases| + i)
      {
        NextStored(ty, lv, args, ai, |e.bases| + i);
        FieldAt(ty, r, i);
        var f := e.fields[i];
        var field: Value;
        field, ai' := ExpandTypeFromArgs(ty.fields[f].ty, r.fields[f], args, ai');
        PutField(ty, r, i, field);
        r := r.(fields := r.fields[f := field]);
      }
    } else if e.ComplexExpansion? {
      Leaf(ty);
      r := ComplexValue(args[ai], args[ai + 1]);
      ai' := ai + 2;
    } else {
      Leaf(ty);
      r := ScalarValue(args[ai]);
      ai' := ai + 1;
    }
  }
}
