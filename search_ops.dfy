/** Find and replace on plain strings (apps/desktop/src/search/ops.ts). */
module SearchOps {
  import opened Wrappers

  /** `q` occurs in `s` starting at position `i`. */
  predicate OccursAt(s: string, q: string, i: nat) {
    i + |q| <= |s| && s[i..i + |q|] == q
  }

  /** `s.indexOf(q, from)` for `from <= |s|`: the first occurrence at or after `from`. */
  function IndexOf(s: string, q: string, from: nat): (r: Option<nat>)
    requires from <= |s|
    ensures r.Some? ==> from <= r.value && r.value + |q| <= |s|
    decreases |s| - from
  {
    if from + |q| > |s| then None
    else if OccursAt(s, q, from) then Some(from)
    else IndexOf(s, q, from + 1)
  }

  /** `IndexOf` finds the leftmost occurrence, and finds none only when there is none. */
  lemma {:induction false} IndexOfLeftmost(s: string, q: string, from: nat)
    requires from <= |s|
    ensures IndexOf(s, q, from).Some? ==> OccursAt(s, q, IndexOf(s, q, from).value)
    ensures IndexOf(s, q, from).Some? ==>
      forall j :: from <= j < IndexOf(s, q, from).value ==> !OccursAt(s, q, j)
    ensures IndexOf(s, q, from).None? ==> forall j :: from <= j ==> !OccursAt(s, q, j)
    decreases |s| - from
  {
    if from + |q| <= |s| && !OccursAt(s, q, from) {
      IndexOfLeftmost(s, q, from + 1);
    }
  }

  /** Conversely, the leftmost occurrence at or after `from` is what `IndexOf` returns. */
  lemma IndexOfIsLeftmost(s: string, q: string, from: nat, i: nat)
    requires from <= i && OccursAt(s, q, i)
    requires forall j :: from <= j < i ==> !OccursAt(s, q, j)
    ensures IndexOf(s, q, from) == Some(i)
  {
    IndexOfLeftmost(s, q, from);
  }

  /** The number of non-overlapping occurrences found scanning left to right from `from`. */
  function CountFrom(s: string, q: string, from: nat): nat
    requires q != [] && from <= |s|
    decreases |s| - from
  {
    match IndexOf(s, q, from)
    case None => 0
    case Some(i) => 1 + CountFrom(s, q, i + |q|)
  }

  /** What `countMatches` computes. */
  function Matches(s: string, q: string): nat {
    if q == [] then 0 else CountFrom(s, q, 0)
  }

  /** `countMatches`. */
  method CountMatches(source: string, query: string) returns (count: nat)
    ensures count == Matches(source, query)
  {
    if query == [] {
      return 0;
    }
    var from := 0;
    count := 0;
    ghost var total := CountFrom(source, query, 0);
    while from <= |source|
      invariant from <= |source|
      invariant count + CountFrom(source, query, from) == total
      decreases |source| - from
    {
      var index := IndexOf(source, query, from);
      if index.None? {
        break;
      }
      CountStep(source, query, from, index.value);
      count := count + 1;
      from := index.value + |query|;
    }
  }

  lemma CountStep(s: string, q: string, from: nat, i: nat)
    requires q != [] && from <= |s| && IndexOf(s, q, from) == Some(i)
    ensures from < i + |q| <= |s|
    ensures CountFrom(s, q, from) == 1 + CountFrom(s, q, i + |q|)
  {
  }

  /** Matches found from `from` on use up `|q|` characters each. */
  lemma {:induction false} CountFromBound(s: string, q: string, from: nat)
    requires q != [] && from <= |s|
    ensures CountFrom(s, q, from) * |q| <= |s| - from
    decreases |s| - from
  {
    match IndexOf(s, q, from)
    case None =>
    case Some(i) =>
      CountFromBound(s, q, i + |q|);
      MulSucc(CountFrom(s, q, i + |q|), |q|);
  }

  lemma MulSucc(c: nat, k: int)
    ensures (1 + c) * k == k + c * k
  {
  }

  /** `c * k` as repeated addition, which keeps inductive steps linear. */
  function Times(c: nat, k: int): int {
    if c == 0 then 0 else k + Times(c - 1, k)
  }

  lemma {:induction false} TimesIsProduct(c: nat, k: int)
    ensures Times(c, k) == c * k
  {
    if c > 0 {
      TimesIsProduct(c - 1, k);
      MulSucc(c - 1, k);
    }
  }

  /** The matches counted never cover more characters than the source has. */
  lemma MatchesBound(s: string, q: string)
    ensures Matches(s, q) * |q| <= |s|
  {
    if q != [] {
      CountFromBound(s, q, 0);
    }
  }

  /** The count is zero exactly when the (non-empty) query does not occur. */
  lemma MatchesZeroIffAbsent(s: string, q: string)
    requires q != []
    ensures Matches(s, q) == 0 <==> forall j :: !OccursAt(s, q, j)
  {
    IndexOfLeftmost(s, q, 0);
  }

  /** `replaceNext`. */
  function ReplaceNext(source: string, query: string, replacement: string): string {
    if query == [] then source
    else match IndexOf(source, query, 0)
      case None => source
      case Some(index) => source[..index] + replacement + source[index + |query|..]
  }

  /** The first occurrence, and only it, is replaced; the text around it is kept. */
  lemma ReplaceNextFirst(s: string, q: string, r: string, i: nat)
    requires q != [] && OccursAt(s, q, i)
    requires forall j: nat :: j < i ==> !OccursAt(s, q, j)
    ensures ReplaceNext(s, q, r) == s[..i] + r + s[i + |q|..]
  {
    IndexOfIsLeftmost(s, q, 0, i);
  }

  /** With no occurrence, or an empty query, `replaceNext` changes nothing. */
  lemma ReplaceNextAbsent(s: string, q: string, r: string)
    requires q == [] || forall j :: !OccursAt(s, q, j)
    ensures ReplaceNext(s, q, r) == s
  {
    if q != [] {
      IndexOfLeftmost(s, q, 0);
    }
  }

  /** Replacing the first occurrence by itself is the identity. */
  lemma ReplaceNextSelf(s: string, q: string)
    ensures ReplaceNext(s, q, q) == s
  {
    if q != [] {
      match IndexOf(s, q, 0)
      case None =>
      case Some(i) =>
        IndexOfLeftmost(s, q, 0);
        assert s == s[..i] + s[i..i + |q|] + s[i + |q|..];
    }
  }

  /** The length changes by `|r| - |q|` when there is an occurrence. */
  lemma ReplaceNextLength(s: string, q: string, r: string)
    requires q != []
    ensures |ReplaceNext(s, q, r)| == |s| + (if Matches(s, q) == 0 then 0 else |r| - |q|)
  {
  }

  /** `source.split(query)` for a non-empty query, from position `from` on. */
  function SplitFrom(s: string, q: string, from: nat): (r: seq<string>)
    requires q != [] && from <= |s|
    ensures |r| >= 1
    decreases |s| - from
  {
    match IndexOf(s, q, from)
    case None => [s[from..]]
    case Some(i) => [s[from..i]] + SplitFrom(s, q, i + |q|)
  }

  /** `pieces.join(sep)`. */
  function Join(pieces: seq<string>, sep: string): string {
    if |pieces| == 0 then ""
    else if |pieces| == 1 then pieces[0]
    else pieces[0] + sep + Join(pieces[1..], sep)
  }

  /** `replaceAll`. */
  function ReplaceAll(source: string, query: string, replacement: string): string {
    if query == [] then source else Join(SplitFrom(source, query, 0), replacement)
  }

  /** Splitting yields one more piece than there are matches. */
  lemma {:induction false} SplitCount(s: string, q: string, from: nat)
    requires q != [] && from <= |s|
    ensures |SplitFrom(s, q, from)| == CountFrom(s, q, from) + 1
    decreases |s| - from
  {
    match IndexOf(s, q, from)
    case None =>
    case Some(i) =>
      SplitCount(s, q, i + |q|);
  }

  /** Joining the pieces with a separator `r`. */
  lemma {:induction false} JoinSplitLength(s: string, q: string, from: nat, r: string)
    requires q != [] && from <= |s|
    ensures |Join(SplitFrom(s, q, from), r)| == |s| - from + Times(CountFrom(s, q, from), |r| - |q|)
    decreases |s| - from
  {
    var index := IndexOf(s, q, from);
    if index.Some? {
      var i := index.value;
      CountStep(s, q, from, i);
      SplitStep(s, q, from, i);
      JoinSplitLength(s, q, i + |q|, r);
      JoinCons(s[from..i], SplitFrom(s, q, i + |q|), r);
      TimesStep(CountFrom(s, q, from), CountFrom(s, q, i + |q|), |r| - |q|);
    } else {
      assert CountFrom(s, q, from) == 0;
    }
  }

  lemma TimesStep(n: nat, c: nat, k: int)
    requires n == c + 1
    ensures Times(n, k) == k + Times(c, k)
  {
  }

  lemma SplitStep(s: string, q: string, from: nat, i: nat)
    requires q != [] && from <= |s| && IndexOf(s, q, from) == Some(i)
    ensures SplitFrom(s, q, from) == [s[from..i]] + SplitFrom(s, q, i + |q|)
  {
  }

  lemma JoinCons(p: string, rest: seq<string>, sep: string)
    requires |rest| >= 1
    ensures Join([p] + rest, sep) == p + sep + Join(rest, sep)
  {
    assert ([p] + rest)[1..] == rest;
  }

  /** Each match grows or shrinks the text by `|r| - |q|`. */
  lemma ReplaceAllLength(s: string, q: string, r: string)
    ensures |ReplaceAll(s, q, r)| == |s| + Matches(s, q) * (|r| - |q|)
  {
    if q != [] {
      JoinSplitLength(s, q, 0, r);
      TimesIsProduct(CountFrom(s, q, 0), |r| - |q|);
    }
  }

  /** Splitting on `q` and joining with `q` gives the text back. */
  lemma {:induction false} JoinSplitSelf(s: string, q: string, from: nat)
    requires q != [] && from <= |s|
    ensures Join(SplitFrom(s, q, from), q) == s[from..]
    decreases |s| - from
  {
    match IndexOf(s, q, from)
    case None =>
    case Some(i) =>
      SplitStep(s, q, from, i);
      IndexOfLeftmost(s, q, from);
      JoinSplitSelf(s, q, i + |q|);
      JoinCons(s[from..i], SplitFrom(s, q, i + |q|), q);
      SliceAround(s, q, from, i);
  }

  lemma SliceAround(s: string, q: string, from: nat, i: nat)
    requires from <= i && OccursAt(s, q, i)
    ensures s[from..] == s[from..i] + q + s[i + |q|..]
  {
    assert s[from..] == s[from..i] + s[i..i + |q|] + s[i + |q|..];
  }

  /** Replacing every match by the query itself is the identity. */
  lemma ReplaceAllSelf(s: string, q: string)
    ensures ReplaceAll(s, q, q) == s
  {
    if q != [] {
      JoinSplitSelf(s, q, 0);
    }
  }

  /** With no occurrence, or an empty query, `replaceAll` changes nothing. */
  lemma ReplaceAllAbsent(s: string, q: string, r: string)
    requires q == [] || forall j :: !OccursAt(s, q, j)
    ensures ReplaceAll(s, q, r) == s
  {
    if q != [] {
      IndexOfLeftmost(s, q, 0);
    }
  }

  /** With exactly one match the two replace functions agree. */
  lemma SingleMatchAgrees(s: string, q: string, r: string)
    requires Matches(s, q) == 1
    ensures ReplaceAll(s, q, r) == ReplaceNext(s, q, r)
  {
    var i := IndexOf(s, q, 0).value;
    assert CountFrom(s, q, 0) == 1 + CountFrom(s, q, i + |q|);
    assert IndexOf(s, q, i + |q|).None?;
    var pieces := [s[..i], s[i + |q|..]];
    assert SplitFrom(s, q, 0) == pieces;
    assert pieces[1..] == [s[i + |q|..]];
    assert Join(pieces, r) == s[..i] + r + s[i + |q|..];
  }
}
