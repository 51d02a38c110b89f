/** The stable sort behind every `Array.prototype.sort` call of the pages.
    A comparator `cmp` is represented by `le(a, b) := cmp(a, b) <= 0`, "a may
    stay in front of b". The sort is stable (required of `Array.prototype.sort`
    since ES2019), and for a consistent comparator all stable sorts return the
    same list, so a stable insertion sort stands for it. */
module Sorting {
  import Lists

  /** `le` comes from a consistent comparator: any two elements are
      comparable and the relation is transitive. */
  ghost predicate TotalPreorder<T(!new)>(le: (T, T) -> bool) {
    && (forall a, b :: le(a, b) || le(b, a))
    && (forall a, b, c :: le(a, b) && le(b, c) ==> le(a, c))
  }

  /** Every element may stay in front of every later one. */
  ghost predicate Sorted<T>(s: seq<T>, le: (T, T) -> bool) {
    forall i, j :: 0 <= i < j < |s| ==> le(s[i], s[j])
  }

  /** Elements of `s` that compare equal to `x` (`cmp` returns 0 both ways),
      in their order in `s`. */
  function SameRank<T>(s: seq<T>, x: T, le: (T, T) -> bool): seq<T> {
    if |s| == 0 then []
    else (if le(x, s[0]) && le(s[0], x) then [s[0]] else []) + SameRank(s[1..], x, le)
  }

  /** Puts `x` in front of the first element it may precede, so that `x`
      stays ahead of the elements that compare equal to it. */
  function Insert<T>(x: T, s: seq<T>, le: (T, T) -> bool): (r: seq<T>)
    ensures |r| == |s| + 1
    ensures multiset(r) == multiset(s) + multiset{x}
  {
    if |s| == 0 || le(x, s[0]) then [x] + s
    else
      assert s == [s[0]] + s[1..];
      [s[0]] + Insert(x, s[1..], le)
  }

  /** Stable sort of `s` by `le`. */
  function Sort<T>(s: seq<T>, le: (T, T) -> bool): (r: seq<T>)
    ensures |r| == |s|
    ensures multiset(r) == multiset(s)
  {
    if |s| == 0 then []
    else
      assert s == [s[0]] + s[1..];
      Insert(s[0], Sort(s[1..], le), le)
  }

  lemma {:induction false} InsertSorted<T(!new)>(x: T, s: seq<T>, le: (T, T) -> bool)
    requires TotalPreorder(le)
    requires Sorted(s, le)
    ensures Sorted(Insert(x, s, le), le)
  {
    if |s| == 0 || le(x, s[0]) {
    } else {
      var t := Insert(x, s[1..], le);
      InsertSorted(x, s[1..], le);
      assert le(s[0], x);
      forall j | 0 <= j < |t| ensures le(s[0], t[j]) {
        assert t[j] in multiset(t);
        if t[j] != x {
          assert t[j] in multiset(s[1..]);
          var k :| 0 <= k < |s[1..]| && s[1..][k] == t[j];
          assert s[k + 1] == t[j];
        }
      }
    }
  }

  /** The sort orders its result by `le`. */
  lemma {:induction false} SortSorted<T(!new)>(s: seq<T>, le: (T, T) -> bool)
    requires TotalPreorder(le)
    ensures Sorted(Sort(s, le), le)
  {
    if |s| > 0 {
      SortSorted(s[1..], le);
      InsertSorted(s[0], Sort(s[1..], le), le);
    }
  }

  lemma {:induction false} InsertSameRank<T(!new)>(y: T, t: seq<T>, x: T, le: (T, T) -> bool)
    requires TotalPreorder(le)
    ensures SameRank(Insert(y, t, le), x, le) ==
            (if le(x, y) && le(y, x) then [y] else []) + SameRank(t, x, le)
  {
    if |t| == 0 || le(y, t[0]) {
      assert Insert(y, t, le)[1..] == t;
    } else {
      var r, t0, rest := Insert(y, t, le), t[0], t[1..];
      assert r[0] == t0 && r[1..] == Insert(y, rest, le);
      InsertSameRank(y, rest, x, le);
      var e0 := if le(x, t0) && le(t0, x) then [t0] else [];
      var ey := if le(x, y) && le(y, x) then [y] else [];
      assert SameRank(r, x, le) == e0 + (ey + SameRank(rest, x, le));
      assert SameRank(t, x, le) == e0 + SameRank(rest, x, le);
      if ey != [] {
        RankBetween(x, y, t0, le);
        assert e0 == [];
      }
    }
  }

  /** An element that `y` may not precede does not compare equal to anything
      equal to `y`. */
  lemma RankBetween<T(!new)>(x: T, y: T, z: T, le: (T, T) -> bool)
    requires TotalPreorder(le)
    requires le(y, x) && !le(y, z)
    ensures !le(x, z)
  {
  }

  /** Stability: the elements that compare equal to any `x` come out in the
      order they went in. */
  lemma {:induction false} SortStable<T(!new)>(s: seq<T>, x: T, le: (T, T) -> bool)
    requires TotalPreorder(le)
    ensures SameRank(Sort(s, le), x, le) == SameRank(s, x, le)
  {
    if |s| > 0 {
      SortStable(s[1..], x, le);
      InsertSameRank(s[0], Sort(s[1..], le), x, le);
    }
  }

  /** `SameRank` of a list extended at the end. */
  lemma {:induction false} SameRankSnoc<T>(s: seq<T>, y: T, x: T, le: (T, T) -> bool)
    ensures SameRank(s + [y], x, le) == SameRank(s, x, le) + (if le(x, y) && le(y, x) then [y] else [])
  {
    if |s| > 0 {
      assert (s + [y])[1..] == s[1..] + [y];
      SameRankSnoc(s[1..], y, x, le);
    }
  }

  /** The last element that compares equal to `x` has no equal one after it. */
  lemma {:induction false} SameRankLastIndex<T>(s: seq<T>, x: T, le: (T, T) -> bool)
    requires |SameRank(s, x, le)| > 0
    ensures exists k :: 0 <= k < |s| && s[k] == SameRank(s, x, le)[|SameRank(s, x, le)| - 1] &&
              forall j :: k < j < |s| ==> !(le(x, s[j]) && le(s[j], x))
  {
    var p, y := s[..|s| - 1], s[|s| - 1];
    assert s == p + [y];
    SameRankSnoc(p, y, x, le);
    if !(le(x, y) && le(y, x)) {
      SameRankLastIndex(p, x, le);
      var k :| 0 <= k < |p| && p[k] == SameRank(p, x, le)[|SameRank(p, x, le)| - 1] &&
                forall j :: k < j < |p| ==> !(le(x, p[j]) && le(p[j], x));
      assert s[k] == p[k];
      assert forall j :: k < j < |p| ==> s[j] == p[j];
    }
  }

  /** The last element of a sorted list is the last, in input order, of the
      elements that compare equal to it. */
  lemma SortLastOfRank<T(!new)>(s: seq<T>, le: (T, T) -> bool)
    requires TotalPreorder(le)
    requires |s| > 0
    ensures var x := Sort(s, le)[|s| - 1];
            exists k :: 0 <= k < |s| && s[k] == x && forall j :: k < j < |s| ==> !(le(x, s[j]) && le(s[j], x))
  {
    var x := Sort(s, le)[|s| - 1];
    assert le(x, x);
    SortStable(s, x, le);
    LastOfRank(s, Sort(s, le), le);
  }

  /** When `r` ends in an element `x` equal to itself and lists the elements
      equal to `x` in the order `s` does, `x` is the last of them in `s`. */
  lemma LastOfRank<T>(s: seq<T>, r: seq<T>, le: (T, T) -> bool)
    requires |r| > 0
    requires var x := r[|r| - 1]; le(x, x) && SameRank(r, x, le) == SameRank(s, x, le)
    ensures var x := r[|r| - 1];
            exists k :: 0 <= k < |s| && s[k] == x && forall j :: k < j < |s| ==> !(le(x, s[j]) && le(s[j], x))
  {
    var x := r[|r| - 1];
    SameRankEndsWithLast(r, le);
    SameRankLastIndex(s, x, le);
  }

  /** An element equal to itself is the last of its own rank in a sequence
      that ends with it. */
  lemma SameRankEndsWithLast<T>(r: seq<T>, le: (T, T) -> bool)
    requires |r| > 0 && le(r[|r| - 1], r[|r| - 1])
    ensures var same := SameRank(r, r[|r| - 1], le);
            |same| > 0 && same[|same| - 1] == r[|r| - 1]
  {
    var x := r[|r| - 1];
    assert r == r[..|r| - 1] + [x];
    SameRankSnoc(r[..|r| - 1], x, x, le);
  }

  lemma {:induction false} InsertKeepsDistinct<T, K>(x: T, s: seq<T>, le: (T, T) -> bool, key: T -> K)
    requires Lists.DistinctKeys(s, key)
    requires forall i :: 0 <= i < |s| ==> key(s[i]) != key(x)
    ensures Lists.DistinctKeys(Insert(x, s, le), key)
  {
    if |s| > 0 && !le(x, s[0]) {
      var t := Insert(x, s[1..], le);
      InsertKeepsDistinct(x, s[1..], le, key);
      forall j | 0 <= j < |t| ensures key(s[0]) != key(t[j]) {
        assert t[j] in multiset(t);
        if t[j] != x {
          assert t[j] in multiset(s[1..]);
          var k :| 0 <= k < |s[1..]| && s[1..][k] == t[j];
          assert s[k + 1] == t[j];
        }
      }
    }
  }

  /** Sorting neither adds nor removes keys. */
  lemma SortKeepsKeySet<T, K>(s: seq<T>, le: (T, T) -> bool, key: T -> K)
    ensures Lists.KeySet(Sort(s, le), key) == Lists.KeySet(s, key)
  {
    Lists.KeySetOfPermutation(Sort(s, le), s, key);
  }

  /** Sorting keeps keys distinct. */
  lemma {:induction false} SortKeepsDistinct<T, K>(s: seq<T>, le: (T, T) -> bool, key: T -> K)
    requires Lists.DistinctKeys(s, key)
    ensures Lists.DistinctKeys(Sort(s, le), key)
  {
    if |s| > 0 {
      SortKeepsDistinct(s[1..], le, key);
      var t := Sort(s[1..], le);
      forall i | 0 <= i < |t| ensures key(t[i]) != key(s[0]) {
        assert t[i] in multiset(s[1..]);
        var k :| 0 <= k < |s[1..]| && s[1..][k] == t[i];
        assert s[k + 1] == t[i];
      }
      InsertKeepsDistinct(s[0], t, le, key);
    }
  }
}
