/** A stable sort on sequences by a comparison `le` ("may come before"), as the
    standard library sorts of JavaScript (`Array.prototype.sort`) and Rust
    (`slice::sort_by`) behave: the result is ordered, a permutation of the
    input, and keeps the input order of elements that compare equal. */
module Sorting {

  /** `le` is a total preorder: any two elements compare, and comparison chains. */
  ghost predicate TotalPreorder<T(!new)>(le: (T, T) -> bool) {
    (forall a, b :: le(a, b) || le(b, a)) &&
    (forall a, b, c :: le(a, b) && le(b, c) ==> le(a, c))
  }

  /** Every element may come before every later one. */
  ghost predicate Sorted<T>(s: seq<T>, le: (T, T) -> bool) {
    forall i, j :: 0 <= i < j < |s| ==> le(s[i], s[j])
  }

  /** Insert `x` before the first element it may come before. */
  function Insert<T>(x: T, s: seq<T>, le: (T, T) -> bool): (r: seq<T>)
    ensures |r| == |s| + 1
  {
    if s == [] then [x]
    else if le(x, s[0]) then [x] + s
    else [s[0]] + Insert(x, s[1..], le)
  }

  /** Insertion sort, inserting each element into the sorted rest. */
  function Sort<T>(s: seq<T>, le: (T, T) -> bool): (r: seq<T>)
    ensures |r| == |s|
  {
    if s == [] then [] else Insert(s[0], Sort(s[1..], le), le)
  }

  /** The elements of `s` that compare equal to `k`, in their order in `s`. */
  function Same<T>(s: seq<T>, k: T, le: (T, T) -> bool): (r: seq<T>)
    ensures |r| <= |s|
  {
    if s == [] then []
    else (if le(s[0], k) && le(k, s[0]) then [s[0]] else []) + Same(s[1..], k, le)
  }

  lemma {:induction false} InsertMultiset<T>(x: T, s: seq<T>, le: (T, T) -> bool)
    ensures multiset(Insert(x, s, le)) == multiset{x} + multiset(s)
  {
    if s != [] && !le(x, s[0]) {
      InsertMultiset(x, s[1..], le);
      assert s == [s[0]] + s[1..];
    }
  }

  /** Sorting permutes its input. */
  lemma {:induction false} SortPermutes<T>(s: seq<T>, le: (T, T) -> bool)
    ensures multiset(Sort(s, le)) == multiset(s)
  {
    if s != [] {
      SortPermutes(s[1..], le);
      InsertMultiset(s[0], Sort(s[1..], le), le);
      assert s == [s[0]] + s[1..];
    }
  }

  /** Inserting into a sorted sequence keeps it sorted. */
  lemma {:induction false} InsertSorted<T(!new)>(x: T, s: seq<T>, le: (T, T) -> bool)
    requires TotalPreorder(le) && Sorted(s, le)
    ensures Sorted(Insert(x, s, le), le)
  {
    if s != [] && !le(x, s[0]) {
      InsertSorted(x, s[1..], le);
      InsertHead(x, s[1..], le, s[0]);
      var r := Insert(x, s, le);
      assert r == [s[0]] + Insert(x, s[1..], le);
      forall i, j | 0 <= i < j < |r|
        ensures le(r[i], r[j])
      {
        if i > 0 {
          assert r[i] == Insert(x, s[1..], le)[i - 1];
          assert r[j] == Insert(x, s[1..], le)[j - 1];
        }
      }
    }
  }

  /** An element that may come before `x` and every element of `s` may come before all of `Insert(x, s)`. */
  lemma {:induction false} InsertHead<T(!new)>(x: T, s: seq<T>, le: (T, T) -> bool, h: T)
    requires TotalPreorder(le)
    requires le(h, x) && forall i :: 0 <= i < |s| ==> le(h, s[i])
    ensures forall i :: 0 <= i < |Insert(x, s, le)| ==> le(h, Insert(x, s, le)[i])
  {
    if s != [] && !le(x, s[0]) {
      InsertHead(x, s[1..], le, h);
    }
  }

  /** A sort given a total preorder produces a sorted sequence. */
  lemma {:induction false} SortSorted<T(!new)>(s: seq<T>, le: (T, T) -> bool)
    requires TotalPreorder(le)
    ensures Sorted(Sort(s, le), le)
  {
    if s != [] {
      SortSorted(s[1..], le);
      InsertSorted(s[0], Sort(s[1..], le), le);
    }
  }

  lemma SameCons<T>(x: T, s: seq<T>, k: T, le: (T, T) -> bool)
    ensures Same([x] + s, k, le) == (if le(x, k) && le(k, x) then [x] else []) + Same(s, k, le)
  {
    assert ([x] + s)[1..] == s;
  }

  /** Inserting `x` puts it ahead of every element equal to it. */
  lemma {:induction false} InsertSame<T(!new)>(x: T, s: seq<T>, k: T, le: (T, T) -> bool)
    requires TotalPreorder(le)
    ensures Same(Insert(x, s, le), k, le) == Same([x] + s, k, le)
  {
    if s != [] && !le(x, s[0]) {
      InsertSame(x, s[1..], k, le);
      SameCons(s[0], Insert(x, s[1..], le), k, le);
      SameCons(x, s[1..], k, le);
      SameCons(x, s, k, le);
      assert s == [s[0]] + s[1..];
      SameCons(s[0], s[1..], k, le);
    }
  }

  /** The sort is stable: the elements equal to any `k` keep their relative order. */
  lemma {:induction false} SortStable<T(!new)>(s: seq<T>, k: T, le: (T, T) -> bool)
    requires TotalPreorder(le)
    ensures Same(Sort(s, le), k, le) == Same(s, k, le)
  {
    if s != [] {
      SortStable(s[1..], k, le);
      InsertSame(s[0], Sort(s[1..], le), k, le);
      SameCons(s[0], Sort(s[1..], le), k, le);
      SameCons(s[0], s[1..], k, le);
      assert s == [s[0]] + s[1..];
    }
  }

  /** A sequence that is already sorted is left as it is. */
  lemma {:induction false} SortSortedIdentity<T(!new)>(s: seq<T>, le: (T, T) -> bool)
    requires Sorted(s, le)
    ensures Sort(s, le) == s
  {
    if s != [] {
      assert Sorted(s[1..], le) by {
        forall i, j | 0 <= i < j < |s[1..]| ensures le(s[1..][i], s[1..][j]) {
          assert s[1..][i] == s[i + 1] && s[1..][j] == s[j + 1];
        }
      }
      SortSortedIdentity(s[1..], le);
      if |s| > 1 {
        assert le(s[0], s[1]);
      }
      assert s == [s[0]] + s[1..];
    }
  }

  /** No two distinct elements of `s` compare equal. */
  ghost predicate AntisymmetricOn<T>(s: seq<T>, le: (T, T) -> bool) {
    forall i, j :: 0 <= i < |s| && 0 <= j < |s| && le(s[i], s[j]) && le(s[j], s[i]) ==> s[i] == s[j]
  }

  lemma SortedTail<T>(s: seq<T>, le: (T, T) -> bool)
    requires s != [] && Sorted(s, le)
    ensures Sorted(s[1..], le)
  {
    forall i, j | 0 <= i < j < |s[1..]| ensures le(s[1..][i], s[1..][j]) {
      assert s[1..][i] == s[i + 1] && s[1..][j] == s[j + 1];
    }
  }

  /** Where there is no tie, a sorted permutation is unique. */
  lemma {:induction false} SortedUnique<T>(a: seq<T>, b: seq<T>, le: (T, T) -> bool)
    requires Sorted(a, le) && Sorted(b, le) && multiset(a) == multiset(b)
    requires AntisymmetricOn(a, le)
    ensures a == b
  {
    if a == [] {
      assert |b| == |multiset(b)| == 0;
    } else {
      HeadsAgree(a, b, le);
      TailsPermute(a, b);
      SortedTail(a, le);
      SortedTail(b, le);
      AntisymmetricTail(a, le);
      SortedUnique(a[1..], b[1..], le);
      assert a == [a[0]] + a[1..];
      assert b == [b[0]] + b[1..];
    }
  }

  /** Two sorted permutations without ties start alike. */
  lemma HeadsAgree<T>(a: seq<T>, b: seq<T>, le: (T, T) -> bool)
    requires a != [] && Sorted(a, le) && Sorted(b, le) && multiset(a) == multiset(b)
    requires AntisymmetricOn(a, le)
    ensures b != [] && a[0] == b[0]
  {
    assert a[0] in multiset(b);
    var k :| 0 <= k < |b| && b[k] == a[0];
    assert b[0] in multiset(a);
    var m :| 0 <= m < |a| && a[m] == b[0];
    if m != 0 && k != 0 {
      assert le(a[0], a[m]) && le(a[m], a[0]);
    }
  }

  lemma TailsPermute<T>(a: seq<T>, b: seq<T>)
    requires a != [] && b != [] && a[0] == b[0] && multiset(a) == multiset(b)
    ensures multiset(a[1..]) == multiset(b[1..])
  {
    assert a == [a[0]] + a[1..];
    assert b == [b[0]] + b[1..];
    assert multiset(a[1..]) == multiset(a) - multiset{a[0]};
    assert multiset(b[1..]) == multiset(b) - multiset{a[0]};
  }

  lemma AntisymmetricTail<T>(a: seq<T>, le: (T, T) -> bool)
    requires a != [] && AntisymmetricOn(a, le)
    ensures AntisymmetricOn(a[1..], le)
  {
    forall i, j | 0 <= i < |a[1..]| && 0 <= j < |a[1..]| && le(a[1..][i], a[1..][j]) && le(a[1..][j], a[1..][i])
      ensures a[1..][i] == a[1..][j]
    {
      assert a[1..][i] == a[i + 1] && a[1..][j] == a[j + 1];
    }
  }

  /** The sort is characterized by its properties: any sorted rearrangement of
      the input without ties is what it returns. */
  lemma SortIsUnique<T(!new)>(s: seq<T>, t: seq<T>, le: (T, T) -> bool)
    requires TotalPreorder(le) && Sorted(t, le) && multiset(t) == multiset(s)
    requires AntisymmetricOn(t, le)
    ensures Sort(s, le) == t
  {
    SortSorted(s, le);
    SortPermutes(s, le);
    SortedUnique(t, Sort(s, le), le);
  }

  /** The last element of the sorted sequence is one of the input's, and
      every element of the input may come before it. */
  lemma SortedLast<T(!new)>(s: seq<T>, le: (T, T) -> bool)
    requires TotalPreorder(le) && s != []
    ensures var sorted := Sort(s, le);
      sorted[|sorted| - 1] in s && forall x :: x in s ==> le(x, sorted[|sorted| - 1])
  {
    var sorted := Sort(s, le);
    var last := sorted[|sorted| - 1];
    SortSorted(s, le);
    SortPermutes(s, le);
    assert last in multiset(sorted);
    forall x | x in s ensures le(x, last) {
      assert x in multiset(sorted);
      var k :| 0 <= k < |sorted| && sorted[k] == x;
      if k == |sorted| - 1 {
        assert le(x, x) || le(x, x);
      }
    }
  }
}
