/** Value types and collection facts shared by every component model. */
module Common {

  datatype Option<+T> = None | Some(value: T)

  datatype Result<+T, +E> = Ok(value: T) | Err(error: E)

  function Get<K, V>(m: map<K, V>, k: K): Option<V> {
    if k in m then Some(m[k]) else None
  }

  /** The elements of a sequence that satisfy p, in order. */
  function Filter<T>(p: T -> bool, xs: seq<T>): seq<T> {
    if xs == [] then []
    else if p(xs[0]) then [xs[0]] + Filter(p, xs[1..])
    else Filter(p, xs[1..])
  }

  lemma {:induction false} FilterAppend<T>(p: T -> bool, xs: seq<T>, ys: seq<T>)
    ensures Filter(p, xs + ys) == Filter(p, xs) + Filter(p, ys)
  {
    if xs == [] {
      assert xs + ys == ys;
    } else {
      FilterAppend(p, xs[1..], ys);
      assert (xs + ys)[1..] == xs[1..] + ys;
    }
  }

  lemma {:induction false} FilterMember<T>(p: T -> bool, xs: seq<T>)
    ensures forall x :: x in Filter(p, xs) <==> x in xs && p(x)
    ensures |Filter(p, xs)| <= |xs|
  {
    if xs == [] {
    } else {
      FilterMember(p, xs[1..]);
      assert xs == [xs[0]] + xs[1..];
    }
  }

  /** The listed elements that satisfy p, each once. */
  ghost function Where<T>(list: seq<T>, p: T -> bool): set<T> {
    set x | x in list && p(x)
  }

  lemma WhereAppend<T>(list: seq<T>, x: T, p: T -> bool)
    requires x !in list
    ensures |Where(list + [x], p)| == |Where(list, p)| + if p(x) then 1 else 0
  {
    if p(x) {
      assert Where(list + [x], p) == Where(list, p) + {x};
    } else {
      assert Where(list + [x], p) == Where(list, p);
    }
  }

  predicate Distinct<T(==)>(xs: seq<T>) {
    forall i, j :: 0 <= i < j < |xs| ==> xs[i] != xs[j]
  }

  lemma {:induction false} DistinctMultiset<T>(xs: seq<T>)
    requires Distinct(xs)
    ensures forall x :: multiset(xs)[x] == if x in xs then 1 else 0
  {
    if xs == [] {
    } else {
      var n := |xs| - 1;
      DistinctMultiset(xs[..n]);
      assert xs == xs[..n] + [xs[n]];
    }
  }

  lemma CountedTwice<T>(ys: seq<T>, i: nat, j: nat)
    requires i < j < |ys|
    ensures ys[i] == ys[j] ==> multiset(ys)[ys[j]] >= 2
  {
    assert ys == ys[..j] + [ys[j]] + ys[j + 1..];
    assert ys[i] in multiset(ys[..j]);
  }

  lemma DistinctOfMultiset<T>(xs: seq<T>, ys: seq<T>)
    requires Distinct(xs) && multiset(xs) == multiset(ys)
    ensures Distinct(ys)
  {
    DistinctMultiset(xs);
    forall i, j | 0 <= i < j < |ys| ensures ys[i] != ys[j] {
      CountedTwice(ys, i, j);
    }
  }

  lemma SubsetSize<T>(a: set<T>, b: set<T>)
    requires a <= b
    ensures |a| <= |b|
  {
    assert b == a + (b - a);
  }

  lemma {:induction false} DistinctSize<T>(xs: seq<T>, all: set<T>)
    requires Distinct(xs) && forall x :: x in all <==> x in xs
    ensures |all| == |xs|
  {
    if xs == [] {
      assert forall x :: x !in all;
      assert all == {};
    } else {
      var n := |xs| - 1;
      assert xs == xs[..n] + [xs[n]];
      DistinctSize(xs[..n], all - {xs[n]});
    }
  }

  lemma SameMembers<T>(xs: seq<T>, ys: seq<T>)
    requires multiset(xs) == multiset(ys)
    ensures |xs| == |ys| && forall x :: x in xs <==> x in ys
  {
    assert |multiset(xs)| == |multiset(ys)|;
    forall x ensures x in xs <==> x in ys {
      assert x in multiset(xs) <==> x in multiset(ys);
    }
  }

  lemma SameElements<T>(xs: seq<T>, ys: seq<T>)
    requires Distinct(xs) && Distinct(ys) && forall x :: x in xs <==> x in ys
    ensures multiset(xs) == multiset(ys)
  {
    DistinctMultiset(xs);
    DistinctMultiset(ys);
  }

  ghost predicate Injective<K(!new), V>(m: map<K, V>) {
    forall a, b :: a in m && b in m && m[a] == m[b] ==> a == b
  }

  predicate MapsOnto<K>(m: map<K, nat>, j: int) {
    exists k :: k in m && m[k] == j
  }

  /** Pigeonhole: an injection into {0, ..., n-1} has at most n keys, and n of them only when it is onto. */
  lemma {:induction false} InjectionBound<K(!new)>(m: map<K, nat>, n: nat)
    requires Injective(m)
    requires forall k :: k in m ==> m[k] < n
    ensures |m| <= n
    ensures |m| == n <==> forall j :: 0 <= j < n ==> MapsOnto(m, j)
    decreases n
  {
    if n == 0 {
      assert forall k :: k !in m;
      assert m.Keys == {};
    } else if MapsOnto(m, n - 1) {
      var k :| k in m && m[k] == n - 1;
      var rest := map x | x in m && x != k :: m[x];
      assert rest.Keys == m.Keys - {k};
      InjectionBound(rest, n - 1);
      assert |m| == |m.Keys| == |rest.Keys| + 1;
      forall j | 0 <= j < n - 1 ensures MapsOnto(m, j) <==> MapsOnto(rest, j) {
        if MapsOnto(m, j) {
          var x :| x in m && m[x] == j;
          assert x in rest;
        }
        if MapsOnto(rest, j) {
          var x :| x in rest && rest[x] == j;
          assert x in m;
        }
      }
    } else {
      InjectionBound(m, n - 1);
    }
  }
}
