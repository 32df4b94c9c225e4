/** Python's `sorted`: lexicographic string order and the stable sort, with what makes a sorted list unique. */
module Ordering {
  /** Python's `<=` on str: lexicographic by code point. */
  predicate StrLe(a: string, b: string) {
    a == "" || (b != "" && (a[0] < b[0] || (a[0] == b[0] && StrLe(a[1..], b[1..]))))
  }

  predicate FirstDiffersBelow(a: string, b: string, k: nat) {
    k < |a| && k < |b| && a[..k] == b[..k] && a[k] < b[k]
  }

  /** a is a prefix of b, or has the smaller character where they first differ. */
  lemma {:induction false} StrLeMeaning(a: string, b: string)
    ensures StrLe(a, b) <==> (|a| <= |b| && b[..|a|] == a) || exists k: nat :: FirstDiffersBelow(a, b, k)
  {
    if a != "" && b != "" && a[0] == b[0] {
      StrLeMeaning(a[1..], b[1..]);
      assert a == [a[0]] + a[1..] && b == [b[0]] + b[1..];
      if k: nat :| FirstDiffersBelow(a[1..], b[1..], k) {
        assert a[..k + 1] == [a[0]] + a[1..][..k] && b[..k + 1] == [b[0]] + b[1..][..k];
        assert FirstDiffersBelow(a, b, k + 1);
      }
      if k: nat :| FirstDiffersBelow(a, b, k) {
        assert a[1..][..k - 1] == a[..k][1..] && b[1..][..k - 1] == b[..k][1..];
        assert FirstDiffersBelow(a[1..], b[1..], k - 1);
      }
      if |a| <= |b| {
        assert b[..|a|] == [b[0]] + b[1..][..|a| - 1];
      }
    } else if a != "" && b != "" {
      if a[0] < b[0] {
        assert a[..0] == b[..0];
        assert FirstDiffersBelow(a, b, 0);
      }
      assert forall k :: 0 < k < |a| && k < |b| ==> a[..k][0] != b[..k][0];
    }
  }

  lemma {:induction false} StrLeTotal(a: string, b: string)
    ensures StrLe(a, b) || StrLe(b, a)
  {
    if a != "" && b != "" && a[0] == b[0] {
      StrLeTotal(a[1..], b[1..]);
    }
  }

  lemma {:induction false} StrLeTransitive(a: string, b: string, c: string)
    requires StrLe(a, b) && StrLe(b, c)
    ensures StrLe(a, c)
  {
    if a != "" && a[0] == b[0] && b[0] == c[0] {
      StrLeTransitive(a[1..], b[1..], c[1..]);
    }
  }

  lemma {:induction false} StrLeAntisymmetric(a: string, b: string)
    requires StrLe(a, b) && StrLe(b, a)
    ensures a == b
  {
    if a == "" {
    } else {
      StrLeAntisymmetric(a[1..], b[1..]);
      assert a == [a[0]] + a[1..] && b == [b[0]] + b[1..];
    }
  }

  ghost predicate TotalPreorder<T(!new)>(le: (T, T) -> bool) {
    && (forall a, b :: le(a, b) || le(b, a))
    && (forall a, b, c :: le(a, b) && le(b, c) ==> le(a, c))
  }

  ghost predicate Sorted<T>(le: (T, T) -> bool, xs: seq<T>) {
    forall i, j :: 0 <= i < j < |xs| ==> le(xs[i], xs[j])
  }

  /** Places x before the first element it may precede, so that x stays ahead of its equals. */
  function Insert<T>(le: (T, T) -> bool, x: T, xs: seq<T>): seq<T> {
    if xs == [] then [x]
    else if le(x, xs[0]) then [x] + xs
    else [xs[0]] + Insert(le, x, xs[1..])
  }

  /** `sorted(xs)` under the preorder le: stable, equal elements keep their input order. */
  function Sort<T>(le: (T, T) -> bool, xs: seq<T>): seq<T> {
    if xs == [] then [] else Insert(le, xs[0], Sort(le, xs[1..]))
  }

  lemma {:induction false} InsertPermutes<T>(le: (T, T) -> bool, x: T, xs: seq<T>)
    ensures multiset(Insert(le, x, xs)) == multiset{x} + multiset(xs)
  {
    if xs == [] {
    } else {
      assert xs == [xs[0]] + xs[1..];
      if !le(x, xs[0]) {
        InsertPermutes(le, x, xs[1..]);
      }
    }
  }

  lemma {:induction false} SortPermutes<T>(le: (T, T) -> bool, xs: seq<T>)
    ensures multiset(Sort(le, xs)) == multiset(xs)
    ensures |Sort(le, xs)| == |xs|
    ensures forall x :: x in Sort(le, xs) <==> x in xs
  {
    if xs == [] {
    } else {
      SortPermutes(le, xs[1..]);
      InsertPermutes(le, xs[0], Sort(le, xs[1..]));
      assert xs == [xs[0]] + xs[1..];
    }
    assert |multiset(Sort(le, xs))| == |multiset(xs)|;
    forall x ensures x in Sort(le, xs) <==> x in xs {
      assert x in multiset(Sort(le, xs)) <==> x in multiset(xs);
    }
  }

  lemma {:induction false} InsertSorted<T(!new)>(le: (T, T) -> bool, x: T, xs: seq<T>)
    requires TotalPreorder(le) && Sorted(le, xs)
    ensures Sorted(le, Insert(le, x, xs))
  {
    if xs == [] {
    } else {
      if le(x, xs[0]) {
        forall j | 1 <= j < |xs| ensures le(x, xs[j]) {
          assert le(xs[0], xs[j]);
        }
      } else {
        InsertSorted(le, x, xs[1..]);
        InsertPermutes(le, x, xs[1..]);
        var rest := Insert(le, x, xs[1..]);
        forall y | y in rest ensures le(xs[0], y) {
          assert y in multiset(rest);
          assert y == x || y in xs[1..];
        }
      }
    }
  }

  lemma {:induction false} SortSorted<T(!new)>(le: (T, T) -> bool, xs: seq<T>)
    requires TotalPreorder(le)
    ensures Sorted(le, Sort(le, xs))
  {
    if xs == [] {
    } else {
      SortSorted(le, xs[1..]);
      InsertSorted(le, xs[0], Sort(le, xs[1..]));
    }
  }

  /** Sorting a list that is already in order changes nothing. */
  lemma {:induction false} SortOfSorted<T>(le: (T, T) -> bool, xs: seq<T>)
    requires Sorted(le, xs)
    ensures Sort(le, xs) == xs
  {
    if xs == [] {
    } else {
      SortOfSorted(le, xs[1..]);
      assert Insert(le, xs[0], xs[1..]) == [xs[0]] + xs[1..];
    }
  }

  lemma TailMultiset<T>(xs: seq<T>)
    requires xs != []
    ensures multiset(xs[1..]) == multiset(xs) - multiset{xs[0]}
  {
    assert xs == [xs[0]] + xs[1..];
  }

  lemma HeadIsLeast<T(!new)>(le: (T, T) -> bool, xs: seq<T>, y: T)
    requires Sorted(le, xs) && xs != [] && y in multiset(xs)
    ensures y in xs && (y == xs[0] || le(xs[0], y))
  {
  }

  /** Among elements that le tells apart, there is only one sorted arrangement. */
  lemma {:induction false} SortedUnique<T(!new)>(le: (T, T) -> bool, xs: seq<T>, ys: seq<T>)
    requires Sorted(le, xs) && Sorted(le, ys) && multiset(xs) == multiset(ys)
    requires forall a, b :: a in xs && b in xs && le(a, b) && le(b, a) ==> a == b
    ensures xs == ys
  {
    assert |multiset(xs)| == |multiset(ys)|;
    if xs == [] {
    } else {
      var x, y := xs[0], ys[0];
      assert x == y by {
        assert x in multiset(xs) && y in multiset(ys);
        HeadIsLeast(le, xs, y);
        HeadIsLeast(le, ys, x);
      }
      TailMultiset(xs);
      TailMultiset(ys);
      SortedUnique(le, xs[1..], ys[1..]);
      assert xs == [x] + xs[1..] && ys == [y] + ys[1..];
    }
  }

  /** Whatever order the elements come in, the sorted list is the same when le tells them apart. */
  lemma SortOrderIndependent<T(!new)>(le: (T, T) -> bool, xs: seq<T>, ys: seq<T>)
    requires TotalPreorder(le) && multiset(xs) == multiset(ys)
    requires forall a, b :: a in xs && b in xs && le(a, b) && le(b, a) ==> a == b
    ensures Sort(le, xs) == Sort(le, ys)
  {
    SortSorted(le, xs);
    SortSorted(le, ys);
    SortPermutes(le, xs);
    SortPermutes(le, ys);
    SortedUnique(le, Sort(le, xs), Sort(le, ys));
  }

  /** xs lists the elements of s once each, in order. */
  ghost predicate Listing<T>(le: (T, T) -> bool, s: set<T>, xs: seq<T>) {
    Sorted(le, xs) && multiset(xs) == multiset(s)
  }

  lemma ListingMembers<T>(le: (T, T) -> bool, s: set<T>, xs: seq<T>)
    requires Listing(le, s, xs)
    ensures |xs| == |s| && forall x :: x in xs <==> x in s
    ensures forall i, j :: 0 <= i < j < |xs| ==> xs[i] != xs[j]
  {
    assert |multiset(xs)| == |multiset(s)|;
    forall x ensures x in xs <==> x in s {
      assert x in multiset(xs) <==> x in multiset(s);
    }
    forall i, j | 0 <= i < j < |xs| ensures xs[i] != xs[j] {
      assert xs == xs[..i] + [xs[i]] + xs[i + 1..j] + [xs[j]] + xs[j + 1..];
      assert multiset(s)[xs[i]] <= 1;
    }
  }

  /** `sorted(s)` for a set. */
  method SortSet<T(!new, ==)>(le: (T, T) -> bool, s: set<T>) returns (xs: seq<T>)
    requires TotalPreorder(le)
    ensures Listing(le, s, xs)
  {
    xs := [];
    var todo := s;
    ghost var done: set<T> := {};
    while todo != {}
      invariant done !! todo && done + todo == s
      invariant Listing(le, done, xs)
      decreases |todo|
    {
      var x :| x in todo;
      InsertSorted(le, x, xs);
      InsertPermutes(le, x, xs);
      xs := Insert(le, x, xs);
      todo := todo - {x};
      done := done + {x};
    }
    assert done == s;
  }

  lemma StrLePreorder()
    ensures TotalPreorder(StrLe)
  {
    forall a, b ensures StrLe(a, b) || StrLe(b, a) {
      StrLeTotal(a, b);
    }
    forall a, b, c | StrLe(a, b) && StrLe(b, c) ensures StrLe(a, c) {
      StrLeTransitive(a, b, c);
    }
  }
}
