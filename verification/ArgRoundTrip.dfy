/**
 Passing an aggregate and taking it up again: the slots, the types and the values fit together,
 and exactly which types come back whole.
 */
module ArgRoundTrip {
  import opened FixedWidth
  import opened ArgExpansion

  /** Each scalar of a value has the type of its slot. */
  lemma {:induction false} SlotTypes(ty: Ty, v: Value)
    requires HasType(v, ty)
    ensures forall k :: 0 <= k < Size(ty) ==> Flatten(ty, v)[k].id == Types(ty)[k]
    decreases ty, |Kids(ty)| + 1
  {
    hide Kids, HasType, Size, SizeUpTo, Types, TypesUpTo, Flatten, FlattenUpTo;
    WholeValue(ty, v);
    if IsLeaf(ty) {
      Leaf(ty);
      TypedLeaf(ty, v);
    } else {
      Whole(ty);
      SlotTypesUpTo(ty, v, |Kids(ty)|);
    }
  }

  lemma TypedLeaf(ty: Ty, v: Value)
    requires HasType(v, ty)
    ensures ty.Scalar? ==> v.ScalarValue? && v.a.id == ty.id
    ensures ty.Complex? ==> v.ComplexValue? && v.re.id == ty.id == v.im.id
  {
  }

  lemma {:induction false} SlotTypesUpTo(ty: Ty, v: Value, n: nat)
    requires HasType(v, ty) && n <= |Kids(ty)|
    ensures forall k :: 0 <= k < SizeUpTo(ty, n) ==> FlattenUpTo(ty, v, n)[k].id == TypesUpTo(ty, n)[k]
    decreases ty, n
  {
    hide Kids, HasType, Size, Types, Flatten, KidValue;
    if n > 0 {
      SlotTypesUpTo(ty, v, n - 1);
      SlotTypes(Kids(ty)[n - 1], KidValue(ty, v, n - 1));
    }
  }

  /** What part `k` becomes, from what it was at the start. */
  function KidStored(ty: Ty, lv: Value, args: seq<Arg>, ai: nat, k: nat): (r: Value)
    requires HasType(lv, ty) && FitsAt(args, ai, ty) && k < |Kids(ty)|
    ensures HasType(r, Kids(ty)[k])
  {
    hide Kids, HasType, KidValue, FitsAt;
    FitsKid(args, ai, ty, k);
    Rebuild(Kids(ty)[k], KidValue(ty, lv, k), args, ai + SizeUpTo(ty, k))
  }

  /** Storing one part leaves the others alone. */
  lemma {:induction false} StoredParts(ty: Ty, lv: Value, args: seq<Arg>, ai: nat, n: nat)
    requires HasType(lv, ty) && FitsAt(args, ai, ty) && !IsLeaf(ty) && n <= |Kids(ty)|
    ensures forall k :: 0 <= k < |Kids(ty)| ==>
              KidValue(ty, RebuildUpTo(ty, lv, args, ai, n), k) ==
              if k < n then KidStored(ty, lv, args, ai, k) else KidValue(ty, lv, k)
  {
    hide Kids, HasType, FitsAt, Rebuild, RebuildUpTo, KidValue, PutKid;
    if n == 0 {
      WholeStored(ty, lv, args, ai);
    } else {
      StoredParts(ty, lv, args, ai, n - 1);
      NextStored(ty, lv, args, ai, n - 1);
      var before := RebuildUpTo(ty, lv, args, ai, n - 1);
      var kid := Rebuild(Kids(ty)[n - 1], KidValue(ty, before, n - 1), args, ai + SizeUpTo(ty, n - 1));
      forall k | 0 <= k < |Kids(ty)|
        ensures KidValue(ty, PutKid(ty, before, n - 1, kid), k) ==
                if k < n then KidStored(ty, lv, args, ai, k) else KidValue(ty, lv, k)
      {
        PutThenGet(ty, before, n - 1, kid, k);
      }
    }
  }

  /** The loops over the arrays that hold something reach their ends. */
  ghost predicate LoopsReachEnds(ty: Ty)
    decreases ty
  {
    FullSize(ty) > 0 ==>
      && (ty.ConstantArray? ==> LoopCount(ty.n) == ty.n)
      && forall k :: 0 <= k < |Kids(ty)| ==> LoopsReachEnds(Kids(ty)[k])
  }

  /** A value is made up of its parts. */
  lemma PartsDetermine(ty: Ty, v: Value, w: Value)
    requires HasType(v, ty) && HasType(w, ty) && !IsLeaf(ty)
    requires ty.ConstantArray? ==> LoopCount(ty.n) == ty.n
    requires forall k :: 0 <= k < |Kids(ty)| ==> KidValue(ty, v, k) == KidValue(ty, w, k)
    ensures v == w
  {
    hide HasType, Kids, Chosen;
    TypedParts(ty, v);
    TypedParts(ty, w);
    if ty.ConstantArray? {
      KidsOfArray(ty);
      forall i | 0 <= i < ty.n ensures v.elts[i] == w.elts[i] {
        assert KidValue(ty, v, i) == KidValue(ty, w, i);
      }
    } else {
      KidsOfRecord(ty);
      forall i | 0 <= i < BaseCount(ty) ensures v.bases[i] == w.bases[i] {
        assert KidValue(ty, v, i) == KidValue(ty, w, i);
      }
      forall k | 0 <= k < |Chosen(ty)| ensures v.fields[Chosen(ty)[k]] == w.fields[Chosen(ty)[k]] {
        assert KidValue(ty, v, BaseCount(ty) + k) == KidValue(ty, w, BaseCount(ty) + k);
      }
      FieldsDetermine(ty, v, w);
    }
  }

  lemma FieldsDetermine(ty: Ty, v: Value, w: Value)
    requires HasType(v, ty) && HasType(w, ty) && ty.Record?
    requires forall k :: 0 <= k < |Chosen(ty)| ==> v.fields[Chosen(ty)[k]] == w.fields[Chosen(ty)[k]]
    ensures v.fields == w.fields
  {
    hide HasType, Chosen;
    TypedParts(ty, v);
    TypedParts(ty, w);
    forall i | 0 <= i < |ty.fields| ensures v.fields[i] == w.fields[i] {
      if i in Chosen(ty) {
        var k :| 0 <= k < |Chosen(ty)| && Chosen(ty)[k] == i;
      }
    }
  }

  /** The arguments from `ai` on are the scalars of the value. */
  ghost predicate HoldsAt(args: seq<Arg>, ai: nat, ty: Ty, v: Value)
    requires HasType(v, ty)
  {
    ai + Size(ty) <= |args| && forall k :: 0 <= k < Size(ty) ==> args[ai + k] == Flatten(ty, v)[k]
  }

  lemma HoldsFits(args: seq<Arg>, ai: nat, ty: Ty, v: Value)
    requires HasType(v, ty) && HoldsAt(args, ai, ty, v)
    ensures FitsAt(args, ai, ty)
  {
    hide HasType;
    SlotTypes(ty, v);
  }

  lemma HoldsKid(args: seq<Arg>, ai: nat, ty: Ty, v: Value, n: nat)
    requires HasType(v, ty) && HoldsAt(args, ai, ty, v) && n < |Kids(ty)|
    ensures HoldsAt(args, ai + SizeUpTo(ty, n), Kids(ty)[n], KidValue(ty, v, n))
  {
    hide Kids, HasType, Size, SizeUpTo, Flatten, FlattenUpTo, KidValue;
    NoKids(ty);
    Whole(ty);
    WholeValue(ty, v);
    FlattenAt(ty, v, n, |Kids(ty)|);
    var kid, part := Kids(ty)[n], KidValue(ty, v, n);
    forall k | 0 <= k < Size(kid) ensures args[ai + SizeUpTo(ty, n) + k] == Flatten(kid, part)[k] {
      var slot := SizeUpTo(ty, n) + k;
      assert args[ai + slot] == Flatten(ty, v)[slot];
    }
  }

  /**
   Collapsing the arguments a value was expanded into gives the value back, whatever was there,
   when the loops over its arrays reach their ends.
   */
  lemma {:induction false} ExpandThenCollapse(ty: Ty, v: Value, lv: Value, args: seq<Arg>, ai: nat)
    requires LoopsReachEnds(ty) && HasType(v, ty) && HasType(lv, ty) && HoldsAt(args, ai, ty, v)
    ensures FitsAt(args, ai, ty) && Rebuild(ty, lv, args, ai) == v
    decreases ty
  {
    hide Kids, HasType, FitsAt, HoldsAt, Rebuild, RebuildUpTo, KidValue, Flatten, SizeUpTo;
    HoldsFits(args, ai, ty, v);
    WholeStored(ty, lv, args, ai);
    if IsLeaf(ty) {
      LeafHolds(args, ai, ty, v);
    } else if FullSize(ty) == 0 {
      OneValue(ty, Rebuild(ty, lv, args, ai), v);
    } else {
      StoredParts(ty, lv, args, ai, |Kids(ty)|);
      forall k | 0 <= k < |Kids(ty)| ensures KidStored(ty, lv, args, ai, k) == KidValue(ty, v, k) {
        HoldsKid(args, ai, ty, v, k);
        ExpandThenCollapse(Kids(ty)[k], KidValue(ty, v, k), KidValue(ty, lv, k), args, ai + SizeUpTo(ty, k));
      }
      PartsDetermine(ty, Rebuild(ty, lv, args, ai), v);
    }
  }

  lemma LeafHolds(args: seq<Arg>, ai: nat, ty: Ty, v: Value)
    requires HasType(v, ty) && HoldsAt(args, ai, ty, v)
    ensures ty.Scalar? ==> v.ScalarValue? && ai < |args| && args[ai] == v.a
    ensures ty.Complex? ==> v.ComplexValue? && ai + 1 < |args| && args[ai] == v.re && args[ai + 1] == v.im
  {
    if IsLeaf(ty) {
      WholeValue(ty, v);
      Leaf(ty);
      assert args[ai + 0] == Flatten(ty, v)[0];
    }
    if ty.Complex? {
      assert args[ai + 1] == Flatten(ty, v)[1];
    }
  }

  /** Expanding what was collapsed gives the arguments back. */
  lemma {:induction false} CollapseThenExpand(ty: Ty, lv: Value, args: seq<Arg>, ai: nat)
    requires HasType(lv, ty) && FitsAt(args, ai, ty)
    ensures HoldsAt(args, ai, ty, Rebuild(ty, lv, args, ai))
    decreases ty, |Kids(ty)| + 1
  {
    hide Kids, HasType, Rebuild, RebuildUpTo, SizeUpTo, Size, Flatten, FlattenUpTo, Types;
    var r := Rebuild(ty, lv, args, ai);
    WholeStored(ty, lv, args, ai);
    WholeValue(ty, r);
    if IsLeaf(ty) {
      Leaf(ty);
    } else {
      Whole(ty);
      CollapseThenExpandUpTo(ty, lv, args, ai, |Kids(ty)|);
    }
  }

  lemma {:induction false} CollapseThenExpandUpTo(ty: Ty, lv: Value, args: seq<Arg>, ai: nat, n: nat)
    requires HasType(lv, ty) && FitsAt(args, ai, ty) && !IsLeaf(ty) && n <= |Kids(ty)|
    ensures ai + SizeUpTo(ty, n) <= |args|
    ensures forall j :: 0 <= j < SizeUpTo(ty, n) ==> args[ai + j] == FlattenUpTo(ty, Rebuild(ty, lv, args, ai), n)[j]
    decreases ty, n
  {
    hide Kids, HasType, FitsAt, Rebuild, RebuildUpTo, Flatten, KidValue, Size;
    var r := Rebuild(ty, lv, args, ai);
    if n == 0 {
      FitsInside(args, ai, ty);
    } else {
      CollapseThenExpandUpTo(ty, lv, args, ai, n - 1);
      WholeStored(ty, lv, args, ai);
      StoredParts(ty, lv, args, ai, |Kids(ty)|);
      FitsKid(args, ai, ty, n - 1);
      var kid, part, at := Kids(ty)[n - 1], KidValue(ty, r, n - 1), ai + SizeUpTo(ty, n - 1);
      assert part == KidStored(ty, lv, args, ai, n - 1);
      CollapseThenExpand(kid, KidValue(ty, lv, n - 1), args, at);
      forall j | 0 <= j < SizeUpTo(ty, n) ensures args[ai + j] == FlattenUpTo(ty, r, n)[j] {
        if j >= SizeUpTo(ty, n - 1) {
          var k := j - SizeUpTo(ty, n - 1);
          assert args[at + k] == Flatten(kid, part)[k];
        }
      }
    }
  }

  lemma FitsInside(args: seq<Arg>, ai: nat, ty: Ty)
    requires FitsAt(args, ai, ty)
    ensures ai + Size(ty) <= |args|
  {
  }

  /** The call and the called function together: what is passed is what arrives. */
  lemma PassedArrives(ty: Ty, v: Value, lv: Value, before: seq<Arg>, pos: nat)
    requires LoopsReachEnds(ty) && HasType(v, ty) && HasType(lv, ty) && pos + Size(ty) <= |before|
    ensures FitsAt(Splice(before, pos, Flatten(ty, v)), pos, ty)
    ensures Rebuild(ty, lv, Splice(before, pos, Flatten(ty, v)), pos) == v
  {
    hide HasType, Kids, Flatten, Size, Rebuild, Splice, LoopsReachEnds, HoldsAt, FitsAt;
    SplicedHolds(ty, v, before, pos);
    ExpandThenCollapse(ty, v, lv, Splice(before, pos, Flatten(ty, v)), pos);
  }

  lemma SplicedHolds(ty: Ty, v: Value, before: seq<Arg>, pos: nat)
    requires HasType(v, ty) && pos + Size(ty) <= |before|
    ensures HoldsAt(Splice(before, pos, Flatten(ty, v)), pos, ty, v)
  {
    hide HasType, Flatten, Size;
  }

  // Types without scalars, and types whose loops stop early.

  /** A type that holds no scalar has one value. */
  lemma {:induction false} OneValue(ty: Ty, v: Value, w: Value)
    requires FullSize(ty) == 0 && HasType(v, ty) && HasType(w, ty)
    ensures v == w
    decreases ty
  {
    hide HasType, Kids, Chosen;
    TypedParts(ty, v);
    TypedParts(ty, w);
    if ty.ConstantArray? {
      forall i | 0 <= i < ty.n ensures v.elts[i] == w.elts[i] {
        ElementIsEmpty(ty);
        OneValue(ty.elt, v.elts[i], w.elts[i]);
      }
    } else {
      PartsAreEmpty(ty, |Kids(ty)|);
      KidsOfRecord(ty);
      forall k | 0 <= k < |Kids(ty)| ensures KidValue(ty, v, k) == KidValue(ty, w, k) {
        OneValue(Kids(ty)[k], KidValue(ty, v, k), KidValue(ty, w, k));
      }
      PartsDetermine(ty, v, w);
    }
  }

  lemma ElementIsEmpty(ty: Ty)
    requires ty.ConstantArray? && FullSize(ty) == 0 && ty.n > 0
    ensures FullSize(ty.elt) == 0
  {
    TimesZero(ty.n, FullSize(ty.elt));
  }

  lemma {:induction false} PartsAreEmpty(ty: Ty, n: nat)
    requires ty.Record? && n <= |Kids(ty)| && FullSizeUpTo(ty, n) == 0
    ensures forall k :: 0 <= k < n ==> FullSize(Kids(ty)[k]) == 0
  {
    hide Kids, FullSize;
    if n > 0 {
      PartsAreEmpty(ty, n - 1);
    }
  }

  /** A value of a type with the same bits in every scalar. */
  function Filled(ty: Ty, bits: int): Value
    decreases ty
  {
    match ty
    case Scalar(id) => ScalarValue(Arg(id, bits))
    case Complex(id) => ComplexValue(Arg(id, bits), Arg(id, bits))
    case ConstantArray(elt, n) => ArrayValue(seq(n, _ => Filled(elt, bits)))
    case Record(_, bases, fields) =>
      RecordValue(seq(BaseCount(ty), i requires 0 <= i < BaseCount(ty) => Filled(bases[i], bits)),
                  seq(|fields|, i requires 0 <= i < |fields| =>
                        if i in Chosen(ty) then Filled(fields[i].ty, bits) else Nothing))
  }

  lemma {:induction false} FilledHasType(ty: Ty, bits: int)
    ensures HasType(Filled(ty, bits), ty)
    decreases ty
  {
    match ty
    case Scalar(_) =>
    case Complex(_) =>
    case ConstantArray(elt, n) =>
      FilledHasType(elt, bits);
    case Record(_, bases, fields) =>
      forall i | 0 <= i < BaseCount(ty) ensures HasType(Filled(bases[i], bits), bases[i]) {
        FilledHasType(bases[i], bits);
      }
      forall i | 0 <= i < |fields| ensures HasType(Filled(fields[i].ty, bits), fields[i].ty) {
        FilledHasType(fields[i].ty, bits);
      }
  }

  lemma FilledKid(ty: Ty, bits: int, k: nat)
    requires k < |Kids(ty)| && HasType(Filled(ty, bits), ty)
    ensures KidValue(ty, Filled(ty, bits), k) == Filled(Kids(ty)[k], bits)
  {
    hide HasType, Kids, Chosen;
    NoKids(ty);
    if ty.ConstantArray? {
      KidsOfArray(ty);
    } else if ty.Record? {
      KidsOfRecord(ty);
    }
  }

  /** A type that holds a scalar has two values. */
  lemma {:induction false} TwoValues(ty: Ty)
    requires FullSize(ty) > 0
    ensures Filled(ty, 0) != Filled(ty, 1)
    decreases ty
  {
    hide HasType;
    FilledHasType(ty, 0);
    FilledHasType(ty, 1);
    if ty.ConstantArray? {
      ElementIsNotEmpty(ty);
      TwoValues(ty.elt);
      assert Filled(ty, 0).elts[0] == Filled(ty.elt, 0) && Filled(ty, 1).elts[0] == Filled(ty.elt, 1);
    } else if ty.Record? {
      var k := SomePart(ty, |Kids(ty)|);
      TwoValues(Kids(ty)[k]);
      FilledKid(ty, 0, k);
      FilledKid(ty, 1, k);
    }
  }

  lemma ElementIsNotEmpty(ty: Ty)
    requires ty.ConstantArray? && FullSize(ty) > 0
    ensures ty.n > 0 && FullSize(ty.elt) > 0
  {
    TimesZero(ty.n, FullSize(ty.elt));
  }

  lemma {:induction false} SomePart(ty: Ty, n: nat) returns (k: nat)
    requires ty.Record? && n <= |Kids(ty)| && FullSizeUpTo(ty, n) > 0
    ensures k < n && FullSize(Kids(ty)[k]) > 0
  {
    hide Kids, FullSize;
    if FullSize(Kids(ty)[n - 1]) > 0 {
      k := n - 1;
    } else {
      k := SomePart(ty, n - 1);
    }
  }

  /** Storing into the parts of an array leaves what the loop does not reach. */
  lemma {:induction false} BeyondTheLoop(ty: Ty, lv: Value, args: seq<Arg>, ai: nat, n: nat, i: nat)
    requires ty.ConstantArray? && HasType(lv, ty) && FitsAt(args, ai, ty) && n <= |Kids(ty)| <= i < ty.n
    ensures RebuildUpTo(ty, lv, args, ai, n).ArrayValue? && i < |RebuildUpTo(ty, lv, args, ai, n).elts|
    ensures lv.ArrayValue? && i < |lv.elts| && RebuildUpTo(ty, lv, args, ai, n).elts[i] == lv.elts[i]
    decreases n
  {
    hide HasType, Kids, FitsAt, Rebuild;
    TypedParts(ty, lv);
    if n > 0 {
      BeyondTheLoop(ty, lv, args, ai, n - 1, i);
      TypedParts(ty, RebuildUpTo(ty, lv, args, ai, n - 1));
    }
  }

  /** If a loop stops early, ones passed into zeros do not come back as ones. */
  lemma {:induction false} NotRestored(ty: Ty, args: seq<Arg>, ai: nat)
    requires !LoopsReachEnds(ty)
    requires HasType(Filled(ty, 0), ty) && FitsAt(args, ai, ty)
    ensures Rebuild(ty, Filled(ty, 0), args, ai) != Filled(ty, 1)
    decreases ty
  {
    hide HasType, Kids, FitsAt, Rebuild, RebuildUpTo, KidValue, FullSize, SizeUpTo, Filled;
    var zeros := Filled(ty, 0);
    FilledHasType(ty, 1);
    NoKids(ty);
    WholeStored(ty, zeros, args, ai);
    if ty.ConstantArray? && LoopCount(ty.n) != ty.n {
      KidsOfArray(ty);
      LoopCountIsLess(ty.n);
      ElementIsNotEmpty(ty);
      TwoValues(ty.elt);
      BeyondTheLoop(ty, zeros, args, ai, |Kids(ty)|, LoopCount(ty.n));
      FilledElement(ty, 0, LoopCount(ty.n));
      FilledElement(ty, 1, LoopCount(ty.n));
    } else {
      var k :| 0 <= k < |Kids(ty)| && !LoopsReachEnds(Kids(ty)[k]);
      StoredParts(ty, zeros, args, ai, |Kids(ty)|);
      FilledKid(ty, 0, k);
      FilledKid(ty, 1, k);
      FitsKid(args, ai, ty, k);
      NotRestored(Kids(ty)[k], args, ai + SizeUpTo(ty, k));
    }
  }

  lemma FilledElement(ty: Ty, bits: int, i: nat)
    requires ty.ConstantArray? && i < ty.n
    ensures Filled(ty, bits).ArrayValue? && i < |Filled(ty, bits).elts|
    ensures Filled(ty, bits).elts[i] == Filled(ty.elt, bits)
  {
  }

  /** Whatever value is passed, and whatever was there, the value comes back. */
  ghost predicate ComesBack(ty: Ty) {
    forall v, lv, args, ai: nat :: HasType(v, ty) && HasType(lv, ty) && HoldsAt(args, ai, ty, v) ==>
      FitsAt(args, ai, ty) && Rebuild(ty, lv, args, ai) == v
  }

  /** A type comes back if and only if the loops over the arrays that hold something reach their ends. */
  lemma ComesBackIff(ty: Ty)
    ensures ComesBack(ty) <==> LoopsReachEnds(ty)
  {
    hide HasType, Kids, FitsAt, HoldsAt, Rebuild, LoopsReachEnds, Filled, Flatten;
    if LoopsReachEnds(ty) {
      forall v, lv, args, ai: nat | HasType(v, ty) && HasType(lv, ty) && HoldsAt(args, ai, ty, v)
        ensures FitsAt(args, ai, ty) && Rebuild(ty, lv, args, ai) == v
      {
        ExpandThenCollapse(ty, v, lv, args, ai);
      }
    } else {
      FilledHasType(ty, 0);
      FilledHasType(ty, 1);
      var args := Flatten(ty, Filled(ty, 1));
      HoldsItself(ty, Filled(ty, 1));
      HoldsFits(args, 0, ty, Filled(ty, 1));
      NotRestored(ty, args, 0);
    }
  }

  lemma HoldsItself(ty: Ty, v: Value)
    requires HasType(v, ty)
    ensures HoldsAt(Flatten(ty, v), 0, ty, v)
  {
    hide HasType, Flatten, Size;
  }

  // The count.

  /** The loop over an array takes the slots of one element for each pass. */
  lemma {:induction false} ArraySize(ty: Ty, n: nat)
    requires ty.ConstantArray? && n <= LoopCount(ty.n)
    ensures n <= |Kids(ty)| && SizeUpTo(ty, n) == n * Size(ty.elt)
  {
    hide Kids, Size, SizeUpTo;
    KidsOfArray(ty);
    Whole(ty);
    if n > 0 {
      ArraySize(ty, n - 1);
      NextSize(ty, n - 1);
      OneMore(n, Size(ty.elt));
    }
  }

  lemma OneMore(n: nat, s: nat)
    requires n > 0
    ensures n * s == (n - 1) * s + s
  {
  }

  /** A type without scalars takes no slots. */
  lemma {:induction false} EmptyIsNotWalked(ty: Ty)
    requires FullSize(ty) == 0
    ensures Size(ty) == 0
    decreases ty, |Kids(ty)| + 1
  {
    hide Kids, Size, SizeUpTo;
    if ty.ConstantArray? {
      KidsOfArray(ty);
      Whole(ty);
      ArraySize(ty, LoopCount(ty.n));
      if ty.n > 0 {
        ElementIsEmpty(ty);
        EmptyIsNotWalked(ty.elt);
      }
    } else {
      Whole(ty);
      PartsAreEmpty(ty, |Kids(ty)|);
      EmptyPartsAreNotWalked(ty, |Kids(ty)|);
    }
  }

  lemma {:induction false} EmptyPartsAreNotWalked(ty: Ty, n: nat)
    requires ty.Record? && n <= |Kids(ty)| && forall k :: 0 <= k < |Kids(ty)| ==> FullSize(Kids(ty)[k]) == 0
    ensures SizeUpTo(ty, n) == 0
    decreases ty, n
  {
    hide Kids, Size, FullSize;
    if n > 0 {
      EmptyPartsAreNotWalked(ty, n - 1);
      EmptyIsNotWalked(Kids(ty)[n - 1]);
    }
  }

  /** When the loops reach their ends, the slots walked over are the scalars the type holds. */
  lemma {:induction false} WalkedIsFull(ty: Ty)
    requires LoopsReachEnds(ty)
    ensures Size(ty) == FullSize(ty)
    decreases ty, |Kids(ty)| + 1
  {
    hide Kids, Size, SizeUpTo;
    if FullSize(ty) == 0 {
      EmptyIsNotWalked(ty);
    } else if ty.ConstantArray? {
      KidsOfArray(ty);
      ElementIsNotEmpty(ty);
      assert LoopsReachEnds(Kids(ty)[0]);
      WalkedIsFull(ty.elt);
      Whole(ty);
      ArraySize(ty, LoopCount(ty.n));
    } else if ty.Record? {
      Whole(ty);
      WalkedPartsAreFull(ty, |Kids(ty)|);
    } else {
      Leaf(ty);
    }
  }

  lemma {:induction false} WalkedPartsAreFull(ty: Ty, n: nat)
    requires ty.Record? && n <= |Kids(ty)| && forall k :: 0 <= k < |Kids(ty)| ==> LoopsReachEnds(Kids(ty)[k])
    ensures SizeUpTo(ty, n) == FullSizeUpTo(ty, n)
    decreases ty, n
  {
    hide Kids, Size, FullSize, LoopsReachEnds;
    if n > 0 {
      WalkedPartsAreFull(ty, n - 1);
      WalkedIsFull(Kids(ty)[n - 1]);
    }
  }

  /**
   The computed count is the number of slots the walks advance by if and only if that number
   fits the compiler's `int`; this holds of types whose loops reach their ends.
   */
  lemma CountIffFits(ty: Ty)
    requires LoopsReachEnds(ty)
    ensures Wrap32(FullSize(ty)) == Size(ty) <==> Size(ty) < TWO32 / 2
  {
    hide Size, FullSize;
    WalkedIsFull(ty);
  }

  /** An array too long for the loop: the count is negative, and nothing is walked over. */
  lemma LongArrayIsMiscounted(id: nat)
    ensures var ty := ConstantArray(Scalar(id), TWO32 / 2);
            Size(ty) == 0 && Wrap32(FullSize(ty)) == -(TWO32 / 2)
  {
    var ty := ConstantArray(Scalar(id), TWO32 / 2);
    assert FullSize(ty.elt) == 1;
    assert LoopCount(ty.n) == 0;
    KidsOfArray(ty);
    Whole(ty);
  }
}
