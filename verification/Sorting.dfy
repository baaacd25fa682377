/** The library sorts, by what they promise, and when an order admits one arrangement only. */
module Sorting {
  import opened Sequences

  /** What a comparator owes the sorts. */
  ghost predicate StrictWeakOrder<T(!new)>(less: (T, T) -> bool) {
    && (forall a, b :: less(a, b) ==> !less(b, a))
    && (forall a, b, c :: less(a, c) ==> less(a, b) || less(b, c))
  }

  /** Every element comes before the later ones. */
  ghost predicate Ordered<T>(v: seq<T>, before: (T, T) -> bool) {
    forall i, j :: 0 <= i < j < |v| ==> before(v[i], v[j])
  }

  /** Ordered by the key, and among equal keys as `before` says. */
  function ByKey<T>(less: (T, T) -> bool, before: (T, T) -> bool): (T, T) -> bool {
    (a: T, b: T) => less(a, b) || (!less(b, a) && before(a, b))
  }

  lemma InsertKeepsOrder<T(!new)>(less: (T, T) -> bool, before: (T, T) -> bool, r: seq<T>, x: T, q: nat)
    requires StrictWeakOrder(less) && q <= |r| && Ordered(r, ByKey(less, before))
    requires forall i :: 0 <= i < |r| ==> before(r[i], x)
    requires forall i :: q <= i < |r| ==> less(x, r[i])
    requires q > 0 ==> !less(x, r[q - 1])
    ensures Ordered(Insert(r, x, q), ByKey(less, before))
  {
    var order := ByKey(less, before);
    forall i | 0 <= i < q ensures order(r[i], x) {
      assert i < q - 1 ==> order(r[i], r[q - 1]);
    }
    forall i | q <= i < |r| ensures order(x, r[i]) {}
    var t := Insert(r, x, q);
    forall i, j | 0 <= i < j < |t| ensures order(t[i], t[j]) {
      if i != q && j != q {
        assert order(r[if i < q then i else i - 1], r[if j < q then j else j - 1]);
      }
    }
  }

  lemma PrefixComesBefore<T(!new)>(v: seq<T>, n: nat, r: seq<T>, before: (T, T) -> bool)
    requires n < |v| && multiset(r) == multiset(v[..n]) && Ordered(v, before)
    ensures forall i :: 0 <= i < |r| ==> before(r[i], v[n])
  {
    forall i | 0 <= i < |r| ensures before(r[i], v[n]) {
      assert r[i] in multiset(v[..n]);
      var m :| 0 <= m < n && v[m] == r[i];
    }
  }

  /** A stable sort: whatever order the elements came in decides between equal keys. */
  method StableSort<T(!new)>(v: seq<T>, less: (T, T) -> bool, ghost before: (T, T) -> bool) returns (r: seq<T>)
    requires StrictWeakOrder(less) && Ordered(v, before)
    ensures multiset(r) == multiset(v) && Ordered(r, ByKey(less, before))
  {
    hide ByKey;
    r := [];
    for n := 0 to |v|
      invariant multiset(r) == multiset(v[..n]) && Ordered(r, ByKey(less, before))
    {
      var q := |r|;
      while q > 0 && less(v[n], r[q - 1])
        invariant 0 <= q <= |r|
        invariant forall i :: q <= i < |r| ==> less(v[n], r[i])
      {
        q := q - 1;
      }
      PrefixComesBefore(v, n, r, before);
      InsertKeepsOrder(less, before, r, v[n], q);
      assert v[..n + 1] == v[..n] + [v[n]];
      r := Insert(r, v[n], q);
    }
    assert v[..|v|] == v;
  }

  /** A sort that promises no more than that no element is out of place; ties come out in any order. */
  method Sort<T(!new)>(v: seq<T>, less: (T, T) -> bool) returns (r: seq<T>)
    requires StrictWeakOrder(less)
    ensures multiset(r) == multiset(v)
    ensures forall i, j :: 0 <= i < j < |r| ==> !less(r[j], r[i])
  {
    ghost var any := (a: T, b: T) => true;
    r := StableSort(v, less, any);
    forall i, j | 0 <= i < j < |r| ensures !less(r[j], r[i]) {
      assert ByKey(less, any)(r[i], r[j]);
    }
  }

  ghost predicate Decides<T(!new)>(m: multiset<T>, before: (T, T) -> bool) {
    forall a, b :: a in m && b in m && a != b ==> (before(a, b) <==> !before(b, a))
  }

  lemma OrderedHeadIsSame<T(!new)>(x: seq<T>, y: seq<T>, before: (T, T) -> bool)
    requires Ordered(x, before) && Ordered(y, before) && multiset(x) == multiset(y) && x != [] && y != []
    requires Decides(multiset(x), before)
    ensures x[0] == y[0]
  {
    assert x[0] in multiset(y) && y[0] in multiset(x);
    var i :| 0 <= i < |y| && y[i] == x[0];
    var j :| 0 <= j < |x| && x[j] == y[0];
    assert i > 0 ==> before(y[0], y[i]);
    assert j > 0 ==> before(x[0], x[j]);
    assert x[0] in multiset(x) && y[0] in multiset(x);
  }

  lemma OrderedTail<T(!new)>(x: seq<T>, before: (T, T) -> bool)
    requires Ordered(x, before) && x != [] && Decides(multiset(x), before)
    ensures Ordered(Without(x, 0), before) && Decides(multiset(Without(x, 0)), before)
  {
    RemoveAt(x, 0);
    var t := Without(x, 0);
    forall i, j | 0 <= i < j < |t| ensures before(t[i], t[j]) {
      assert before(x[i + 1], x[j + 1]);
    }
  }

  lemma {:induction false} OrderedIsUnique<T(!new)>(x: seq<T>, y: seq<T>, before: (T, T) -> bool)
    requires Ordered(x, before) && Ordered(y, before) && multiset(x) == multiset(y)
    requires Decides(multiset(x), before)
    ensures x == y
    decreases |x|
  {
    hide Ordered, Decides, Without;
    SameLength(x, y);
    if x != [] {
      OrderedHeadIsSame(x, y, before);
      RemoveSame(x, 0, y, 0);
      OrderedTail(x, before);
      OrderedTail(y, before);
      OrderedIsUnique(Without(x, 0), Without(y, 0), before);
      HeadAndTail(x, y);
    }
  }

  // Names compare character by character.

  predicate NameLess(a: string, b: string) {
    if a == [] then b != []
    else if b == [] then false
    else a[0] < b[0] || (a[0] == b[0] && NameLess(a[1..], b[1..]))
  }

  lemma {:induction false} NameOrder(a: string, b: string, c: string)
    ensures NameLess(a, b) ==> !NameLess(b, a)
    ensures NameLess(a, c) ==> NameLess(a, b) || NameLess(b, c)
    decreases |a| + |b| + |c|
  {
    if a != [] && b != [] && c != [] {
      NameOrder(a[1..], b[1..], c[1..]);
    } else if a != [] && b != [] {
      NameOrder(a[1..], b[1..], c);
    }
  }
}
