/** The array built-ins the result pipeline relies on, as functions on
    sequences: `filter`, `slice(0, n)` and `sort` with a comparator. Each is
    specified by what it keeps and in which order, not by how it runs. */
module Seqs {

  function Min(a: int, b: int): int {
    if a <= b then a else b
  }

  /** `sub` is obtained from `s` by deleting elements, keeping their order. */
  ghost predicate SubsequenceOf<T>(sub: seq<T>, s: seq<T>)
    decreases |s|
  {
    |sub| == 0 ||
    (|s| > 0 &&
     ((sub[0] == s[0] && SubsequenceOf(sub[1..], s[1..])) || SubsequenceOf(sub, s[1..])))
  }

  /** Every pair of positions `i < j` of `s` satisfies `rel`. Sortedness and
      uniqueness of keys are both of this shape. */
  ghost predicate Pairwise<T>(s: seq<T>, rel: (T, T) -> bool) {
    forall i, j :: 0 <= i < j < |s| ==> rel(s[i], s[j])
  }

  ghost predicate Total<T(!new)>(before: (T, T) -> bool) {
    forall a, b :: before(a, b) || before(b, a)
  }

  ghost predicate Transitive<T(!new)>(before: (T, T) -> bool) {
    forall a, b, c :: before(a, b) && before(b, c) ==> before(a, c)
  }

  /** No element occurs twice (a JavaScript `Set` spread into an array). */
  ghost predicate Distinct<T(!new)>(s: seq<T>) {
    forall x :: multiset(s)[x] <= 1
  }

  lemma {:induction false} SubsequenceMembers<T>(sub: seq<T>, s: seq<T>)
    requires SubsequenceOf(sub, s)
    ensures forall x :: x in sub ==> x in s
    decreases |s|
  {
    if |sub| > 0 {
      if sub[0] == s[0] && SubsequenceOf(sub[1..], s[1..]) {
        SubsequenceMembers(sub[1..], s[1..]);
        forall x | x in sub ensures x in s {
          if x != sub[0] {
            assert x in sub[1..];
            assert x in s[1..];
          }
        }
      } else {
        SubsequenceMembers(sub, s[1..]);
        forall x | x in sub ensures x in s {
          assert x in s[1..];
        }
      }
    }
  }

  lemma {:induction false} SubsequenceTransitive<T>(a: seq<T>, b: seq<T>, c: seq<T>)
    requires SubsequenceOf(a, b) && SubsequenceOf(b, c)
    ensures SubsequenceOf(a, c)
    decreases |c|
  {
    if |a| > 0 {
      if b[0] == c[0] && SubsequenceOf(b[1..], c[1..]) {
        if a[0] == b[0] && SubsequenceOf(a[1..], b[1..]) {
          SubsequenceTransitive(a[1..], b[1..], c[1..]);
        } else {
          SubsequenceTransitive(a, b[1..], c[1..]);
        }
      } else {
        SubsequenceTransitive(a, b, c[1..]);
      }
    }
  }

  /** Dropping the first element keeps a pairwise relation. */
  lemma PairwiseTail<T>(s: seq<T>, rel: (T, T) -> bool)
    requires |s| > 0 && Pairwise(s, rel)
    ensures Pairwise(s[1..], rel)
  {
    forall a, b | 0 <= a < b < |s[1..]| ensures rel(s[1..][a], s[1..][b]) {
      assert s[1..][a] == s[a + 1] && s[1..][b] == s[b + 1];
    }
  }

  /** A relation that holds pairwise in `s` still holds pairwise in any
      subsequence of `s`. */
  lemma {:induction false} SubsequencePairwise<T>(sub: seq<T>, s: seq<T>, rel: (T, T) -> bool)
    requires SubsequenceOf(sub, s) && Pairwise(s, rel)
    ensures Pairwise(sub, rel)
    decreases |s|
  {
    if |sub| > 0 {
      PairwiseTail(s, rel);
      if sub[0] == s[0] && SubsequenceOf(sub[1..], s[1..]) {
        SubsequencePairwise(sub[1..], s[1..], rel);
        SubsequenceMembers(sub[1..], s[1..]);
        forall i, j | 0 <= i < j < |sub| ensures rel(sub[i], sub[j]) {
          assert sub[j] == sub[1..][j - 1];
          if i == 0 {
            assert sub[j] in s[1..];
            var m :| 0 <= m < |s[1..]| && s[1..][m] == sub[j];
            assert s[m + 1] == sub[j];
          } else {
            assert sub[i] == sub[1..][i - 1];
          }
        }
      } else {
        SubsequencePairwise(sub, s[1..], rel);
      }
    }
  }

  /** `splice(i, 1)`: every later element moves one place to the front. */
  lemma RemoveAt<T>(s: seq<T>, i: nat)
    requires i < |s|
    ensures var r := s[..i] + s[i + 1..];
      && |r| == |s| - 1
      && forall k :: 0 <= k < |r| ==> r[k] == s[if k < i then k else k + 1]
  {
  }

  /** Deleting one element keeps any pairwise relation. */
  lemma PairwiseRemoveAt<T>(s: seq<T>, i: nat, rel: (T, T) -> bool)
    requires i < |s| && Pairwise(s, rel)
    ensures Pairwise(s[..i] + s[i + 1..], rel)
  {
    var r := s[..i] + s[i + 1..];
    RemoveAt(s, i);
    forall a, b | 0 <= a < b < |r| ensures rel(r[a], r[b]) {
      var a', b' := if a < i then a else a + 1, if b < i then b else b + 1;
      assert r[a] == s[a'] && r[b] == s[b'];
    }
  }

  /** `push(x)` keeps a pairwise relation when every element relates to `x`. */
  lemma PairwiseAppend<T>(s: seq<T>, x: T, rel: (T, T) -> bool)
    requires Pairwise(s, rel)
    requires forall k :: 0 <= k < |s| ==> rel(s[k], x)
    ensures Pairwise(s + [x], rel)
  {
    var r := s + [x];
    forall a, b | 0 <= a < b < |r| ensures rel(r[a], r[b]) {
      assert r[a] == s[a];
      if b < |s| {
        assert r[b] == s[b];
      }
    }
  }

  /** `Array.prototype.filter`: the elements satisfying `keep`, front to back. */
  function Filter<T>(s: seq<T>, keep: T -> bool): seq<T>
    decreases |s|
  {
    if |s| == 0 then []
    else if keep(s[0]) then [s[0]] + Filter(s[1..], keep)
    else Filter(s[1..], keep)
  }

  /** The filtered copy keeps exactly the elements satisfying `keep`, in
      their original order and with their multiplicities. */
  lemma {:induction false} FilterSpec<T(!new)>(s: seq<T>, keep: T -> bool)
    ensures SubsequenceOf(Filter(s, keep), s)
    ensures var r := Filter(s, keep);
      forall x {:trigger multiset(r)[x]} :: multiset(r)[x] == if keep(x) then multiset(s)[x] else 0
    ensures var r := Filter(s, keep); forall x :: x in r <==> x in s && keep(x)
    decreases |s|
  {
    if |s| > 0 {
      FilterSpec(s[1..], keep);
      var rest := Filter(s[1..], keep);
      assert s == [s[0]] + s[1..];
      if keep(s[0]) {
        assert ([s[0]] + rest)[1..] == rest;
      }
    }
  }

  /** Whatever is drawn from a filtered sequence passes the filter and is
      drawn from the original. */
  lemma FilteredMembers<T(!new)>(r: seq<T>, s: seq<T>, keep: T -> bool)
    requires multiset(r) <= multiset(Filter(s, keep))
    ensures forall i :: 0 <= i < |r| ==> keep(r[i])
    ensures multiset(r) <= multiset(s)
  {
    var f := Filter(s, keep);
    FilterSpec(s, keep);
    forall i | 0 <= i < |r| ensures keep(r[i]) {
      assert r[i] in multiset(r);
      assert multiset(f)[r[i]] > 0;
    }
    forall x ensures multiset(r)[x] <= multiset(s)[x] {
      assert multiset(r)[x] <= multiset(f)[x];
    }
  }

  /** Filtering with a predicate that every element meets changes nothing. */
  lemma {:induction false} FilterKeepsAll<T>(s: seq<T>, keep: T -> bool)
    requires forall i :: 0 <= i < |s| ==> keep(s[i])
    ensures Filter(s, keep) == s
    decreases |s|
  {
    if |s| > 0 {
      FilterKeepsAll(s[1..], keep);
      assert s == [s[0]] + s[1..];
    }
  }

  /** Filtering when only the element at `i` fails `keep` is `splice(i, 1)`. */
  lemma {:induction false} FilterDropsAt<T>(s: seq<T>, i: nat, keep: T -> bool)
    requires i < |s| && !keep(s[i])
    requires forall k :: 0 <= k < |s| && k != i ==> keep(s[k])
    ensures Filter(s, keep) == s[..i] + s[i + 1..]
    decreases i
  {
    var tail := s[1..];
    if i == 0 {
      forall k | 0 <= k < |tail| ensures keep(tail[k]) {
        assert tail[k] == s[k + 1];
      }
      FilterKeepsAll(tail, keep);
    } else {
      forall k | 0 <= k < |tail| && k != i - 1 ensures keep(tail[k]) {
        assert tail[k] == s[k + 1];
      }
      FilterDropsAt(tail, i - 1, keep);
      assert [s[0]] + (tail[..i - 1] + tail[i..]) == s[..i] + s[i + 1..];
    }
  }

  /** `slice(0, n)` for a non-negative `n`: the longest prefix of `s` of at
      most `n` elements. */
  function Take<T>(s: seq<T>, n: nat): (r: seq<T>)
    ensures r <= s
    ensures |r| == Min(n, |s|)
  {
    if n < |s| then s[..n] else s
  }

  /** A prefix keeps part of the multiset and any pairwise order. */
  lemma TakeKeeps<T>(s: seq<T>, n: nat)
    ensures multiset(Take(s, n)) <= multiset(s)
    ensures forall rel :: Pairwise(s, rel) ==> Pairwise(Take(s, n), rel)
  {
    var r := Take(s, n);
    assert s == r + s[|r|..];
  }

  /** Places `x` in front of the first element it may precede. */
  function Insert<T>(x: T, s: seq<T>, before: (T, T) -> bool): (r: seq<T>)
    ensures multiset(r) == multiset(s) + multiset{x}
    decreases |s|
  {
    if |s| == 0 then [x]
    else if before(x, s[0]) then [x] + s
    else
      assert s == [s[0]] + s[1..];
      [s[0]] + Insert(x, s[1..], before)
  }

  /** `sort` with a comparator, on a copy: an insertion sort stands for the
      engine's algorithm. Only the permutation and the order are promised;
      ties may end up in any order. */
  function SortBy<T>(s: seq<T>, before: (T, T) -> bool): (r: seq<T>)
    ensures multiset(r) == multiset(s) && |r| == |s|
    decreases |s|
  {
    if |s| == 0 then []
    else
      assert s == [s[0]] + s[1..];
      Insert(s[0], SortBy(s[1..], before), before)
  }

  /** Putting `x` in front keeps a pairwise relation when `x` relates to
      every element. */
  lemma PairwisePrepend<T>(x: T, s: seq<T>, rel: (T, T) -> bool)
    requires Pairwise(s, rel)
    requires forall k :: 0 <= k < |s| ==> rel(x, s[k])
    ensures Pairwise([x] + s, rel)
  {
    var r := [x] + s;
    forall a, b | 0 <= a < b < |r| ensures rel(r[a], r[b]) {
      assert r[b] == s[b - 1];
      if a > 0 {
        assert r[a] == s[a - 1];
      }
    }
  }

  lemma {:induction false} InsertSorted<T(!new)>(x: T, s: seq<T>, before: (T, T) -> bool)
    requires Total(before) && Transitive(before) && Pairwise(s, before)
    ensures Pairwise(Insert(x, s, before), before)
    decreases |s|
  {
    if |s| > 0 {
      if before(x, s[0]) {
        forall k | 0 <= k < |s| ensures before(x, s[k]) {
          if k > 0 {
            assert before(s[0], s[k]);
          }
        }
        PairwisePrepend(x, s, before);
      } else {
        PairwiseTail(s, before);
        InsertSorted(x, s[1..], before);
        var t := Insert(x, s[1..], before);
        forall k | 0 <= k < |t| ensures before(s[0], t[k]) {
          assert t[k] in multiset(t);
          if t[k] != x {
            assert t[k] in multiset(s[1..]);
            var m :| 0 <= m < |s[1..]| && s[1..][m] == t[k];
            assert s[m + 1] == t[k];
          }
        }
        PairwisePrepend(s[0], t, before);
      }
    }
  }

  /** Under a total preorder, the sorted copy is ordered. */
  lemma {:induction false} SortBySorted<T(!new)>(s: seq<T>, before: (T, T) -> bool)
    requires Total(before) && Transitive(before)
    ensures Pairwise(SortBy(s, before), before)
    decreases |s|
  {
    if |s| > 0 {
      SortBySorted(s[1..], before);
      InsertSorted(s[0], SortBy(s[1..], before), before);
    }
  }
}
