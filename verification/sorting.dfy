/**
 A stable sort of records by a string key under the code-unit string order, as
 JavaScript's `Array.prototype.sort` with a comparator on names behaves.
 */
module Sorting {
  import opened Text

  /** `a` sorts no later than `b`. */
  predicate NotAfter(a: string, b: string) {
    !Less(b, a)
  }

  lemma NotAfterTransitive(a: string, b: string, c: string)
    requires NotAfter(a, b) && NotAfter(b, c)
    ensures NotAfter(a, c)
  {
    LessTotal(a, b);
    LessTotal(b, c);
    if a != b && b != c {
      LessTransitive(a, b, c);
      LessAsymmetric(a, c);
    } else if a != b {
      LessAsymmetric(a, b);
    } else {
      LessAsymmetric(b, c);
    }
  }

  predicate SortedBy<T>(key: T -> string, xs: seq<T>) {
    forall i, j :: 0 <= i < j < |xs| ==> NotAfter(key(xs[i]), key(xs[j]))
  }

  /** Insertion before the first element whose key is not smaller. */
  function InsertBy<T>(key: T -> string, x: T, xs: seq<T>): (r: seq<T>)
    requires SortedBy(key, xs)
    ensures SortedBy(key, r)
    ensures multiset(r) == multiset(xs) + multiset{x}
    decreases |xs|
  {
    if xs == [] || !Less(key(xs[0]), key(x)) then
      forall j | 0 <= j < |xs|
        ensures NotAfter(key(x), key(xs[j]))
      {
        if j > 0 {
          NotAfterTransitive(key(x), key(xs[0]), key(xs[j]));
        }
      }
      assert forall j :: 1 <= j < |[x] + xs| ==> ([x] + xs)[j] == xs[j - 1];
      [x] + xs
    else
      var rest := InsertBy(key, x, xs[1..]);
      LessAsymmetric(key(xs[0]), key(x));
      HeadBeforeRest(key, x, xs, rest);
      assert xs == [xs[0]] + xs[1..];
      assert forall j :: 1 <= j < |[xs[0]] + rest| ==> ([xs[0]] + rest)[j] == rest[j - 1];
      [xs[0]] + rest
  }

  /** The head of a sorted sequence sorts no later than anything made of its tail and
      an element after it. */
  lemma HeadBeforeRest<T>(key: T -> string, x: T, xs: seq<T>, rest: seq<T>)
    requires SortedBy(key, xs) && xs != [] && NotAfter(key(xs[0]), key(x))
    requires multiset(rest) == multiset(xs[1..]) + multiset{x}
    ensures forall j :: 0 <= j < |rest| ==> NotAfter(key(xs[0]), key(rest[j]))
  {
    forall j | 0 <= j < |rest|
      ensures NotAfter(key(xs[0]), key(rest[j]))
    {
      assert rest[j] in multiset(rest);
      if rest[j] != x {
        assert rest[j] in multiset(xs[1..]);
        var m :| 0 <= m < |xs[1..]| && xs[1..][m] == rest[j];
        assert xs[1..][m] == xs[m + 1];
      }
    }
  }

  /** Insertion sort: each element is inserted into the sorted rest. */
  function SortBy<T>(key: T -> string, xs: seq<T>): (r: seq<T>)
    ensures SortedBy(key, r)
    ensures multiset(r) == multiset(xs)
    decreases |xs|
  {
    if xs == [] then []
    else
      assert xs == [xs[0]] + xs[1..];
      InsertBy(key, xs[0], SortBy(key, xs[1..]))
  }

  /** The elements with key `s`, in order. */
  function WithKey<T>(key: T -> string, s: string, xs: seq<T>): (r: seq<T>)
    decreases |xs|
  {
    if xs == [] then []
    else if key(xs[0]) == s then [xs[0]] + WithKey(key, s, xs[1..])
    else WithKey(key, s, xs[1..])
  }

  lemma {:induction false} InsertWithKey<T>(key: T -> string, x: T, xs: seq<T>, s: string)
    requires SortedBy(key, xs)
    ensures WithKey(key, s, InsertBy(key, x, xs)) ==
              if key(x) == s then [x] + WithKey(key, s, xs) else WithKey(key, s, xs)
    decreases |xs|
  {
    if xs == [] || !Less(key(xs[0]), key(x)) {
      assert ([x] + xs)[1..] == xs;
    } else {
      InsertWithKey(key, x, xs[1..], s);
      assert ([xs[0]] + InsertBy(key, x, xs[1..]))[1..] == InsertBy(key, x, xs[1..]);
      if key(xs[0]) == s && key(x) == s {
        LessIrreflexive(s);
      }
    }
  }

  /** Stability: the elements sharing a key keep their relative order. */
  lemma {:induction false} SortByStable<T>(key: T -> string, xs: seq<T>, s: string)
    ensures WithKey(key, s, SortBy(key, xs)) == WithKey(key, s, xs)
    decreases |xs|
  {
    if xs != [] {
      SortByStable(key, xs[1..], s);
      InsertWithKey(key, xs[0], SortBy(key, xs[1..]), s);
    }
  }

  /** Sorting a sorted sequence changes nothing, so sorting twice is sorting once. */
  lemma {:induction false} SortBySorted<T>(key: T -> string, xs: seq<T>)
    requires SortedBy(key, xs)
    ensures SortBy(key, xs) == xs
    decreases |xs|
  {
    if xs != [] {
      assert SortedBy(key, xs[1..]) by {
        forall i, j | 0 <= i < j < |xs[1..]|
          ensures NotAfter(key(xs[1..][i]), key(xs[1..][j]))
        {
          assert xs[1..][i] == xs[i + 1] && xs[1..][j] == xs[j + 1];
        }
      }
      SortBySorted(key, xs[1..]);
      if |xs| > 1 {
        assert NotAfter(key(xs[0]), key(xs[1..][0]));
      }
      assert xs == [xs[0]] + xs[1..];
    }
  }

  lemma SortByIdempotent<T>(key: T -> string, xs: seq<T>)
    ensures SortBy(key, SortBy(key, xs)) == SortBy(key, xs)
  {
    SortBySorted(key, SortBy(key, xs));
  }
}
