/** Sorting by a total preorder, as Python's `sorted` and the pandas
    `sort_values` calls of the pipeline use it, and the code-point order on
    strings that Python compares `str` values by. */
module Sorting {

  /** `le` is a total preorder: any two values compare, and it is transitive. */
  ghost predicate TotalPreorder<T(!new)>(le: (T, T) -> bool)
  {
    && (forall a, b :: le(a, b) || le(b, a))
    && (forall a, b, c :: le(a, b) && le(b, c) ==> le(a, c))
  }

  /** Two values that compare both ways are equal (true of a total order). */
  ghost predicate Antisymmetric<T(!new)>(le: (T, T) -> bool)
  {
    forall a, b :: le(a, b) && le(b, a) ==> a == b
  }

  predicate SortedBy<T>(s: seq<T>, le: (T, T) -> bool)
  {
    forall i, j :: 0 <= i < j < |s| ==> le(s[i], s[j])
  }

  /** Inserts `x` into the sorted `s` in front of the first element it does
      not exceed, so that `x` precedes the elements it ties with. */
  function InsertBy<T(!new)>(x: T, s: seq<T>, le: (T, T) -> bool): (r: seq<T>)
    requires TotalPreorder(le)
    requires SortedBy(s, le)
    ensures SortedBy(r, le)
    ensures multiset(r) == multiset(s) + multiset{x}
  {
    if s == [] || le(x, s[0]) then [x] + s
    else
      var rest := InsertBy(x, s[1..], le);
      InsertedBounded(x, s, rest, le);
      assert s == [s[0]] + s[1..];
      [s[0]] + rest
  }

  lemma InsertedBounded<T(!new)>(x: T, s: seq<T>, rest: seq<T>, le: (T, T) -> bool)
    requires TotalPreorder(le)
    requires SortedBy(s, le) && s != [] && !le(x, s[0])
    requires multiset(rest) == multiset(s[1..]) + multiset{x}
    ensures forall k :: 0 <= k < |rest| ==> le(s[0], rest[k])
  {
    forall k | 0 <= k < |rest|
      ensures le(s[0], rest[k])
    {
      assert rest[k] in multiset(rest);
      if rest[k] != x {
        assert rest[k] in multiset(s[1..]);
        var j :| 0 <= j < |s[1..]| && s[1..][j] == rest[k];
        assert s[j + 1] == rest[k];
      }
    }
  }

  /** An insertion sort. Among elements that compare both ways it fixes one
      order; pandas' default sort may choose another. */
  function SortBy<T(!new)>(s: seq<T>, le: (T, T) -> bool): (r: seq<T>)
    requires TotalPreorder(le)
    ensures SortedBy(r, le)
    ensures multiset(r) == multiset(s)
    ensures |r| == |s|
  {
    if s == [] then []
    else
      assert s == [s[0]] + s[1..];
      InsertBy(s[0], SortBy(s[1..], le), le)
  }

  /** The head of a sorted sequence is below each of its elements. */
  lemma SortedHeadLe<T(!new)>(a: seq<T>, x: T, le: (T, T) -> bool)
    requires TotalPreorder(le) && SortedBy(a, le)
    requires x in a
    ensures le(a[0], x)
  {
    var i :| 0 <= i < |a| && a[i] == x;
    if i == 0 {
      assert le(x, x) || le(x, x);
    } else {
      assert le(a[0], a[i]);
    }
  }

  /** Under an antisymmetric order there is only one sorted arrangement of a
      multiset: two sorted sequences with the same elements are equal. */
  lemma {:induction false} SortedUnique<T(!new)>(a: seq<T>, b: seq<T>, le: (T, T) -> bool)
    requires TotalPreorder(le) && Antisymmetric(le)
    requires SortedBy(a, le) && SortedBy(b, le)
    requires multiset(a) == multiset(b)
    ensures a == b
  {
    assert |a| == |multiset(a)| == |multiset(b)| == |b|;
    if a != [] {
      assert a[0] in multiset(b) && b[0] in multiset(a);
      SortedHeadLe(a, b[0], le);
      SortedHeadLe(b, a[0], le);
      assert a[0] == b[0];
      SortedTail(a, le);
      SortedTail(b, le);
      SortedUnique(a[1..], b[1..], le);
      assert a == [a[0]] + a[1..] && b == [b[0]] + b[1..];
    }
  }

  /** The tail of a sorted sequence is sorted and holds the other elements. */
  lemma SortedTail<T>(a: seq<T>, le: (T, T) -> bool)
    requires SortedBy(a, le) && a != []
    ensures SortedBy(a[1..], le)
    ensures multiset(a[1..]) == multiset(a) - multiset{a[0]}
  {
    assert a == [a[0]] + a[1..];
  }

  /** Applies `f` to every element. */
  function MapSeq<T, K>(f: T -> K, s: seq<T>): (r: seq<K>)
    ensures |r| == |s|
    ensures forall i :: 0 <= i < |s| ==> r[i] == f(s[i])
  {
    seq(|s|, i requires 0 <= i < |s| => f(s[i]))
  }

  /** Sorting by a key and then projecting to the key is sorting the keys. */
  lemma {:induction false} SortByMap<T(!new), K(!new)>(
    s: seq<T>, f: T -> K, le: (T, T) -> bool, kle: (K, K) -> bool)
    requires TotalPreorder(le) && TotalPreorder(kle)
    requires forall a, b :: le(a, b) == kle(f(a), f(b))
    ensures MapSeq(f, SortBy(s, le)) == SortBy(MapSeq(f, s), kle)
  {
    if s != [] {
      SortByMap(s[1..], f, le, kle);
      assert MapSeq(f, s) == [f(s[0])] + MapSeq(f, s[1..]);
      InsertByMap(s[0], SortBy(s[1..], le), f, le, kle);
    }
  }

  lemma {:induction false} InsertByMap<T(!new), K(!new)>(
    x: T, s: seq<T>, f: T -> K, le: (T, T) -> bool, kle: (K, K) -> bool)
    requires TotalPreorder(le) && TotalPreorder(kle)
    requires forall a, b :: le(a, b) == kle(f(a), f(b))
    requires SortedBy(s, le)
    ensures SortedBy(MapSeq(f, s), kle)
    ensures MapSeq(f, InsertBy(x, s, le)) == InsertBy(f(x), MapSeq(f, s), kle)
  {
    var m := MapSeq(f, s);
    MapSorted(s, f, le, kle);
    if s == [] {
      assert MapSeq(f, [x]) == [f(x)];
    } else if le(x, s[0]) {
      assert kle(f(x), m[0]);
      MapCons(f, x, s);
    } else {
      assert !kle(f(x), m[0]);
      var rest := InsertBy(x, s[1..], le);
      InsertByMap(x, s[1..], f, le, kle);
      assert m[1..] == MapSeq(f, s[1..]);
      MapCons(f, s[0], rest);
    }
  }

  lemma MapCons<T, K>(f: T -> K, a: T, s: seq<T>)
    ensures MapSeq(f, [a] + s) == [f(a)] + MapSeq(f, s)
  {
    assert MapSeq(f, [a] + s)[1..] == MapSeq(f, s);
  }

  /** Projecting a sequence sorted by `le` gives one sorted by `kle`. */
  lemma MapSorted<T(!new), K(!new)>(s: seq<T>, f: T -> K, le: (T, T) -> bool, kle: (K, K) -> bool)
    requires forall a, b :: le(a, b) == kle(f(a), f(b))
    requires SortedBy(s, le)
    ensures SortedBy(MapSeq(f, s), kle)
  {
    var m := MapSeq(f, s);
    forall i, j | 0 <= i < j < |m| ensures kle(m[i], m[j]) {
      assert le(s[i], s[j]);
    }
  }

  /** Python's `<=` on `str`: lexicographic by code point, a proper prefix
      coming first. */
  predicate LexLe(a: string, b: string)
    decreases |a|
  {
    if a == [] then true
    else if b == [] then false
    else if a[0] != b[0] then a[0] < b[0]
    else LexLe(a[1..], b[1..])
  }

  lemma {:induction false} LexLeTotal(a: string, b: string)
    ensures LexLe(a, b) || LexLe(b, a)
    decreases |a|
  {
    if a != [] && b != [] && a[0] == b[0] {
      LexLeTotal(a[1..], b[1..]);
    }
  }

  lemma {:induction false} LexLeTransitive(a: string, b: string, c: string)
    requires LexLe(a, b) && LexLe(b, c)
    ensures LexLe(a, c)
    decreases |a|
  {
    if a != [] && b != [] && c != [] && a[0] == b[0] == c[0] {
      LexLeTransitive(a[1..], b[1..], c[1..]);
    }
  }

  lemma {:induction false} LexLeAntisymmetric(a: string, b: string)
    requires LexLe(a, b) && LexLe(b, a)
    ensures a == b
    decreases |a|
  {
    if a != [] && b != [] {
      LexLeAntisymmetric(a[1..], b[1..]);
      assert a == [a[0]] + a[1..] && b == [b[0]] + b[1..];
    }
  }

  /** The code-point order on strings is a total order. */
  lemma LexOrder()
    ensures TotalPreorder(LexLe) && Antisymmetric(LexLe)
  {
    forall a, b ensures LexLe(a, b) || LexLe(b, a) {
      LexLeTotal(a, b);
    }
    forall a, b, c | LexLe(a, b) && LexLe(b, c) ensures LexLe(a, c) {
      LexLeTransitive(a, b, c);
    }
    forall a, b | LexLe(a, b) && LexLe(b, a) ensures a == b {
      LexLeAntisymmetric(a, b);
    }
  }
}
