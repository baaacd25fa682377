/** Sequences, permutations of their indices, and the elements they hold. */
module Sequences {

  predicate NoDuplicates<T(==)>(s: seq<T>) {
    forall i, j :: 0 <= i < j < |s| ==> s[i] != s[j]
  }

  function Iota(n: nat): (s: seq<nat>)
    ensures |s| == n && forall i :: 0 <= i < n ==> s[i] == i
  {
    seq(n, i => i)
  }

  lemma IotaSnoc(n: nat)
    ensures multiset(Iota(n + 1)) == multiset(Iota(n)) + multiset{n}
  {
    assert Iota(n + 1) == Iota(n) + [n];
  }

  predicate InRange(o: seq<nat>, n: nat) {
    forall k :: 0 <= k < |o| ==> o[k] < n
  }

  function Pick<T>(s: seq<T>, o: seq<nat>): (r: seq<T>)
    requires InRange(o, |s|)
    ensures |r| == |o| && forall k :: 0 <= k < |o| ==> r[k] == s[o[k]]
  {
    seq(|o|, k requires 0 <= k < |o| => s[o[k]])
  }

  lemma PickedAreListed<T>(s: seq<T>, o: seq<nat>)
    requires InRange(o, |s|)
    ensures forall k :: 0 <= k < |o| ==> Pick(s, o)[k] in s
  {
  }

  ghost predicate IsPermutation(o: seq<nat>, n: nat) {
    multiset(o) == multiset(Iota(n))
  }

  lemma PermutationFacts(o: seq<nat>, n: nat)
    requires IsPermutation(o, n)
    ensures |o| == n && InRange(o, n)
    ensures forall i :: 0 <= i < n ==> i in o
    ensures forall j, k :: 0 <= j < k < |o| ==> o[j] != o[k]
  {
    var s := Iota(n);
    assert |multiset(o)| == |multiset(s)|;
    forall k | 0 <= k < |o| ensures o[k] < n {
      assert o[k] in multiset(o);
      assert o[k] in multiset(s);
    }
    forall i | 0 <= i < n ensures i in o {
      assert s[i] in multiset(s);
      assert i in multiset(o);
    }
    forall j, k | 0 <= j < k < |o| ensures o[j] != o[k] {
      if o[j] == o[k] {
        SeenTwice(o, j, k);
        IotaOnce(n, o[j]);
        assert false;
      }
    }
  }

  lemma SeenTwice<T>(o: seq<T>, j: nat, k: nat)
    requires j < k < |o| && o[j] == o[k]
    ensures multiset(o)[o[j]] >= 2
  {
    assert o == o[..j] + [o[j]] + o[j + 1..k] + [o[k]] + o[k + 1..];
  }

  lemma {:induction false} IotaOnce(n: nat, x: nat)
    ensures multiset(Iota(n))[x] == if x < n then 1 else 0
  {
    if n != 0 {
      IotaOnce(n - 1, x);
      assert Iota(n) == Iota(n - 1) + [n - 1];
    }
  }

  function Insert<T>(s: seq<T>, x: T, p: nat): (r: seq<T>)
    requires p <= |s|
    ensures |r| == |s| + 1 && multiset(r) == multiset(s) + multiset{x}
    ensures forall k :: 0 <= k < |r| ==> r[k] == if k < p then s[k] else if k == p then x else s[k - 1]
  {
    assert s == s[..p] + s[p..];
    s[..p] + [x] + s[p..]
  }

  function Without<T>(s: seq<T>, k: nat): (r: seq<T>)
    requires k < |s|
    ensures |r| == |s| - 1
  {
    s[..k] + s[k + 1..]
  }

  lemma RemoveAt<T>(s: seq<T>, k: nat)
    requires k < |s|
    ensures multiset(s) == multiset(Without(s, k)) + multiset{s[k]}
  {
    assert s == s[..k] + [s[k]] + s[k + 1..];
  }

  /** Taking the same element out of two arrangements of the same elements. */
  lemma RemoveSame<T>(s: seq<T>, j: nat, t: seq<T>, k: nat)
    requires j < |s| && k < |t| && s[j] == t[k]
    ensures multiset(s) == multiset(t) <==> multiset(Without(s, j)) == multiset(Without(t, k))
  {
    RemoveAt(s, j);
    RemoveAt(t, k);
    var a, b, x := multiset(Without(s, j)), multiset(Without(t, k)), multiset{s[j]};
    assert a == (a + x) - x && b == (b + x) - x;
  }

  lemma PickWithout<T>(s: seq<T>, o: seq<nat>, k: nat)
    requires InRange(o, |s|) && k < |o|
    ensures InRange(Without(o, k), |s|) && Pick(s, Without(o, k)) == Without(Pick(s, o), k)
  {
  }

  /** Picking by two arrangements of the same indices gives the same elements. */
  lemma {:induction false} PickMultiset<T>(s: seq<T>, o: seq<nat>, p: seq<nat>)
    requires InRange(o, |s|) && InRange(p, |s|) && multiset(o) == multiset(p)
    ensures multiset(Pick(s, o)) == multiset(Pick(s, p))
  {
    if o == [] {
      assert |multiset(p)| == 0;
      assert p == [];
    } else {
      assert o[0] in multiset(p);
      var k :| 0 <= k < |p| && p[k] == o[0];
      RemoveSame(o, 0, p, k);
      PickWithout(s, o, 0);
      PickWithout(s, p, k);
      PickMultiset(s, Without(o, 0), Without(p, k));
      RemoveSame(Pick(s, o), 0, Pick(s, p), k);
    }
  }

  /** Where index `i` stands in the arrangement `o`. */
  ghost function PositionOf(o: seq<nat>, n: nat, i: nat): (k: nat)
    requires IsPermutation(o, n) && i < n
    ensures k < |o| && o[k] == i
  {
    PermutationFacts(o, n);
    assert i in o;
    var k :| 0 <= k < |o| && o[k] == i;
    k
  }

  lemma SameLength<T>(x: seq<T>, y: seq<T>)
    requires multiset(x) == multiset(y)
    ensures |x| == |y|
  {
    assert |multiset(x)| == |multiset(y)|;
  }

  lemma HeadAndTail<T>(x: seq<T>, y: seq<T>)
    requires x != [] && y != [] && x[0] == y[0] && Without(x, 0) == Without(y, 0)
    ensures x == y
  {
    assert x == [x[0]] + Without(x, 0) && y == [y[0]] + Without(y, 0);
  }

  lemma NoDuplicatesCount<T>(x: seq<T>, a: T)
    requires NoDuplicates(x)
    ensures multiset(x)[a] <= 1
  {
    if x != [] {
      NoDuplicatesCount(x[1..], a);
      assert x == [x[0]] + x[1..];
      if x[0] == a {
        assert a !in x[1..];
        assert a !in multiset(x[1..]);
      }
    }
  }

  lemma SameMultisetNoDuplicates<T>(x: seq<T>, y: seq<T>)
    requires NoDuplicates(x) && multiset(x) == multiset(y)
    ensures NoDuplicates(y)
  {
    forall i, j | 0 <= i < j < |y| ensures y[i] != y[j] {
      NoDuplicatesCount(x, y[i]);
      if y[i] == y[j] {
        SeenTwice(y, i, j);
        assert false;
      }
    }
  }
}
