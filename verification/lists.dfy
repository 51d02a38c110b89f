/** Sequence searches and the "keep the first record per key" reduction that
    the three pages share (`acc.find(...)` inside `reduce`). */
module Lists {
  import opened Wrappers

  /** The first-match search underneath `Array.prototype.find`: the index
      of the first element that satisfies `p`, if any. */
  function FindIndex<T>(s: seq<T>, p: T -> bool): (r: Option<nat>)
    ensures r.Some? ==> r.value < |s| && p(s[r.value])
    ensures r.Some? ==> forall j :: 0 <= j < r.value ==> !p(s[j])
    ensures r.None? <==> forall j :: 0 <= j < |s| ==> !p(s[j])
  {
    if |s| == 0 then None
    else if p(s[0]) then Some(0)
    else match FindIndex(s[1..], p)
      case None => None
      case Some(i) => Some(i + 1)
  }

  /** `Array.prototype.find`: the first element that satisfies `p`, if any. */
  function Find<T>(s: seq<T>, p: T -> bool): (r: Option<T>)
    ensures r.None? <==> forall j :: 0 <= j < |s| ==> !p(s[j])
    ensures r.Some? ==>
      exists i :: 0 <= i < |s| && s[i] == r.value && p(s[i]) && forall j :: 0 <= j < i ==> !p(s[j])
  {
    match FindIndex(s, p)
    case None => None
    case Some(i) => Some(s[i])
  }

  /** The index of the first element whose key is `k`, or `|s|` when there is none. */
  function FirstIndex<T, K(==)>(s: seq<T>, key: T -> K, k: K): (i: nat)
    ensures i <= |s|
    ensures i < |s| ==> key(s[i]) == k
    ensures forall j :: 0 <= j < i ==> key(s[j]) != k
  {
    match FindIndex(s, (x: T) => key(x) == k)
    case Some(i) => i
    case None => |s|
  }

  /** The keys that occur in `s`. */
  function KeySet<T, K(==)>(s: seq<T>, key: T -> K): set<K> {
    if |s| == 0 then {} else KeySet(s[..|s| - 1], key) + {key(s[|s| - 1])}
  }

  /** The key of every element is in `KeySet`. */
  lemma {:induction false} KeySetHas<T, K>(s: seq<T>, key: T -> K, i: nat)
    requires i < |s|
    ensures key(s[i]) in KeySet(s, key)
  {
    if i < |s| - 1 {
      KeySetHas(s[..|s| - 1], key, i);
    }
  }

  /** A key no element has is not in `KeySet`. */
  lemma {:induction false} KeySetLacks<T, K>(s: seq<T>, key: T -> K, k: K)
    requires forall i :: 0 <= i < |s| ==> key(s[i]) != k
    ensures k !in KeySet(s, key)
  {
    if |s| > 0 {
      KeySetLacks(s[..|s| - 1], key, k);
    }
  }

  /** `KeySet` holds exactly the keys of the elements. */
  lemma {:induction false} KeySetMember<T, K>(s: seq<T>, key: T -> K, k: K)
    ensures k in KeySet(s, key) <==> exists i :: 0 <= i < |s| && key(s[i]) == k
  {
    if exists i :: 0 <= i < |s| && key(s[i]) == k {
      var i :| 0 <= i < |s| && key(s[i]) == k;
      KeySetHas(s, key, i);
    } else {
      KeySetLacks(s, key, k);
    }
  }

  /** Sequences with the same keys position by position have the same `KeySet`. */
  lemma {:induction false} KeySetSameKeys<T, U, K>(a: seq<T>, ka: T -> K, b: seq<U>, kb: U -> K)
    requires |a| == |b|
    requires forall i :: 0 <= i < |a| ==> ka(a[i]) == kb(b[i])
    ensures KeySet(a, ka) == KeySet(b, kb)
  {
    if |a| > 0 {
      KeySetSameKeys(a[..|a| - 1], ka, b[..|b| - 1], kb);
    }
  }

  /** A key of `a` is a key of every permutation of `a`. */
  lemma KeySetCarried<T, K>(a: seq<T>, b: seq<T>, key: T -> K, k: K)
    requires multiset(a) == multiset(b)
    requires k in KeySet(a, key)
    ensures k in KeySet(b, key)
  {
    KeySetMember(a, key, k);
    var i :| 0 <= i < |a| && key(a[i]) == k;
    assert a[i] in multiset(b);
    var j :| 0 <= j < |b| && b[j] == a[i];
    KeySetHas(b, key, j);
  }

  /** Permutations have the same keys. */
  lemma KeySetOfPermutation<T, K>(a: seq<T>, b: seq<T>, key: T -> K)
    requires multiset(a) == multiset(b)
    ensures KeySet(a, key) == KeySet(b, key)
  {
    forall k | k in KeySet(a, key) ensures k in KeySet(b, key) {
      KeySetCarried(a, b, key, k);
    }
    forall k | k in KeySet(b, key) ensures k in KeySet(a, key) {
      KeySetCarried(b, a, key, k);
    }
  }

  /** `s.find(item => key(item) === k)` finds something. */
  function HasKey<T, K(==)>(s: seq<T>, key: T -> K, k: K): (b: bool)
    ensures b <==> exists j :: 0 <= j < |s| && key(s[j]) == k
  {
    Find(s, (y: T) => key(y) == k).Some?
  }

  /** Sequences with the same keys position by position hold the same keys. */
  lemma HasKeySameKeys<T, U, K>(a: seq<T>, ka: T -> K, b: seq<U>, kb: U -> K, k: K)
    requires |a| == |b|
    requires forall i :: 0 <= i < |a| ==> ka(a[i]) == kb(b[i])
    ensures HasKey(a, ka, k) == HasKey(b, kb, k)
  {
  }

  /** One step of the `reduce`: append `x` unless the accumulator already
      holds an element with the same key. */
  function Keep<T, K(==)>(acc: seq<T>, x: T, key: T -> K): seq<T> {
    if !HasKey(acc, key, key(x)) then acc + [x] else acc
  }

  /** No two elements of `s` share a key. */
  ghost predicate DistinctKeys<T, K>(s: seq<T>, key: T -> K) {
    forall i, j :: 0 <= i < j < |s| ==> key(s[i]) != key(s[j])
  }

  /** Every element of `r` is the first element of `s` with its key. */
  ghost predicate AtFirsts<T, K>(r: seq<T>, s: seq<T>, key: T -> K) {
    forall j :: 0 <= j < |r| ==>
      FirstIndex(s, key, key(r[j])) < |s| && s[FirstIndex(s, key, key(r[j]))] == r[j]
  }

  /** The elements of `r` appear in the order their keys first occur in `s`. */
  ghost predicate InFirstOrder<T, K>(r: seq<T>, s: seq<T>, key: T -> K) {
    forall i, j :: 0 <= i < j < |r| ==>
      FirstIndex(s, key, key(r[i])) < FirstIndex(s, key, key(r[j]))
  }

  /** `r` holds exactly the first element of `s` for every key of `s`, in the
      order those keys first occur in `s`. */
  ghost predicate FirstsOf<T, K>(r: seq<T>, s: seq<T>, key: T -> K) {
    && |r| <= |s|
    && KeySet(r, key) == KeySet(s, key)
    && DistinctKeys(r, key)
    && AtFirsts(r, s, key)
    && InFirstOrder(r, s, key)
  }

  /** `s.reduce((acc, cur) => acc.find(same key) ? acc : acc.concat([cur]), [])`. */
  function DedupBy<T, K(==)>(s: seq<T>, key: T -> K): (r: seq<T>)
    ensures |r| <= |s|
  {
    if |s| == 0 then []
    else Keep(DedupBy(s[..|s| - 1], key), s[|s| - 1], key)
  }

  /** The reduction keeps exactly the first element of `s` for every key, in
      the order the keys first occur: the kept keys are pairwise distinct and
      are all the keys of `s`. */
  lemma {:induction false} DedupByKeepsFirsts<T, K>(s: seq<T>, key: T -> K)
    ensures FirstsOf(DedupBy(s, key), s, key)
  {
    if |s| > 0 {
      var p, x := s[..|s| - 1], s[|s| - 1];
      assert s == p + [x];
      DedupByKeepsFirsts(p, key);
      KeepExtendsFirsts(DedupBy(p, key), p, x, key);
    }
  }

  /** The facts about the reduction the pages rely on: no longer than the
      input, distinct keys covering the input's keys, and every kept element
      the first of its key. */
  lemma DedupByFirsts<T, K>(s: seq<T>, key: T -> K)
    ensures |DedupBy(s, key)| <= |s|
    ensures DistinctKeys(DedupBy(s, key), key)
    ensures KeySet(DedupBy(s, key), key) == KeySet(s, key)
    ensures AtFirsts(DedupBy(s, key), s, key)
  {
    DedupByKeepsFirsts(s, key);
  }

  /** The kept elements appear in the order their keys first occur. */
  lemma DedupByInFirstOrder<T, K>(s: seq<T>, key: T -> K)
    ensures InFirstOrder(DedupBy(s, key), s, key)
  {
    DedupByKeepsFirsts(s, key);
  }

  lemma KeepExtendsFirsts<T, K>(acc: seq<T>, p: seq<T>, x: T, key: T -> K)
    requires FirstsOf(acc, p, key)
    ensures FirstsOf(Keep(acc, x, key), p + [x], key)
  {
    if HasKey(acc, key, key(x)) {
      KeepSkipsKnownKey(acc, p, x, key);
    } else {
      KeepAppendsNewKey(acc, p, x, key);
    }
  }

  lemma KeepSkipsKnownKey<T, K>(acc: seq<T>, p: seq<T>, x: T, key: T -> K)
    requires FirstsOf(acc, p, key)
    requires HasKey(acc, key, key(x))
    ensures FirstsOf(Keep(acc, x, key), p + [x], key)
  {
    assert Keep(acc, x, key) == acc;
    KeySetSnocKnown(acc, p, x, key);
    FirstIndicesSnoc(acc, p, x, key);
  }

  lemma KeepAppendsNewKey<T, K>(acc: seq<T>, p: seq<T>, x: T, key: T -> K)
    requires FirstsOf(acc, p, key)
    requires !HasKey(acc, key, key(x))
    ensures FirstsOf(Keep(acc, x, key), p + [x], key)
  {
    assert Keep(acc, x, key) == acc + [x];
    KeySetSnocNew(acc, p, x, key);
    DistinctSnoc(acc, x, key);
    FirstIndicesSnoc(acc, p, x, key);
    NewFirstSnoc(acc, p, x, key);
  }

  /** The kept elements stay at the first occurrences of their keys, in the
      same order, when `x` is appended to `p`. */
  lemma FirstIndicesSnoc<T, K>(acc: seq<T>, p: seq<T>, x: T, key: T -> K)
    requires AtFirsts(acc, p, key)
    requires InFirstOrder(acc, p, key)
    ensures AtFirsts(acc, p + [x], key)
    ensures InFirstOrder(acc, p + [x], key)
    ensures forall j :: 0 <= j < |acc| ==>
              FirstIndex(p + [x], key, key(acc[j])) == FirstIndex(p, key, key(acc[j]))
  {
    FirstIndicesKept(acc, p, x, key);
    AtFirstsSnoc(acc, p, x, key);
  }

  lemma FirstIndicesKept<T, K>(acc: seq<T>, p: seq<T>, x: T, key: T -> K)
    requires AtFirsts(acc, p, key)
    ensures forall j :: 0 <= j < |acc| ==>
              FirstIndex(p + [x], key, key(acc[j])) == FirstIndex(p, key, key(acc[j]))
  {
    forall j | 0 <= j < |acc|
      ensures FirstIndex(p + [x], key, key(acc[j])) == FirstIndex(p, key, key(acc[j]))
    {
      FirstIndexSnocAt(p, x, key, key(acc[j]));
    }
  }

  lemma AtFirstsSnoc<T, K>(acc: seq<T>, p: seq<T>, x: T, key: T -> K)
    requires AtFirsts(acc, p, key)
    requires forall j :: 0 <= j < |acc| ==>
               FirstIndex(p + [x], key, key(acc[j])) == FirstIndex(p, key, key(acc[j]))
    ensures AtFirsts(acc, p + [x], key)
  {
    forall j | 0 <= j < |acc|
      ensures (p + [x])[FirstIndex(p, key, key(acc[j]))] == acc[j]
    {
      var i := FirstIndex(p, key, key(acc[j]));
      assert (p + [x])[i] == p[i];
    }
  }

  /** Appending an element with a key `p` lacks makes it the first
      occurrence of that key. */
  lemma FirstIndexSnocNew<T, K>(p: seq<T>, x: T, key: T -> K)
    requires FirstIndex(p, key, key(x)) == |p|
    ensures FirstIndex(p + [x], key, key(x)) == |p|
  {
    var s := p + [x];
    assert s[|p|] == x;
    assert forall j :: 0 <= j < |p| ==> s[j] == p[j];
  }

  /** Appending leaves a first occurrence inside `p` where it was. */
  lemma FirstIndexSnocAt<T, K>(p: seq<T>, x: T, key: T -> K, k: K)
    requires FirstIndex(p, key, k) < |p|
    ensures FirstIndex(p + [x], key, k) == FirstIndex(p, key, k)
  {
    var i, s := FirstIndex(p, key, k), p + [x];
    assert s[i] == p[i];
    assert forall j :: 0 <= j < i ==> s[j] == p[j];
  }

  /** A new key appended after the kept elements keeps them distinct. */
  lemma DistinctSnoc<T, K>(acc: seq<T>, x: T, key: T -> K)
    requires DistinctKeys(acc, key)
    requires !HasKey(acc, key, key(x))
    ensures DistinctKeys(acc + [x], key)
  {
    var r := acc + [x];
    assert forall j :: 0 <= j < |acc| ==> r[j] == acc[j];
  }

  /** `x`, whose key is new, sits at the first occurrence of its key, after
      every kept element. */
  lemma NewFirstSnoc<T, K>(acc: seq<T>, p: seq<T>, x: T, key: T -> K)
    requires FirstIndex(p, key, key(x)) == |p|
    requires AtFirsts(acc, p, key)
    requires AtFirsts(acc, p + [x], key)
    requires InFirstOrder(acc, p + [x], key)
    requires forall j :: 0 <= j < |acc| ==>
               FirstIndex(p + [x], key, key(acc[j])) == FirstIndex(p, key, key(acc[j]))
    ensures AtFirsts(acc + [x], p + [x], key)
    ensures InFirstOrder(acc + [x], p + [x], key)
  {
    var s, r := p + [x], acc + [x];
    FirstIndexSnocNew(p, x, key);
    assert s[|p|] == x;
    assert forall j :: 0 <= j < |acc| ==> r[j] == acc[j];
  }

  lemma KeySetSnocKnown<T, K>(acc: seq<T>, p: seq<T>, x: T, key: T -> K)
    requires KeySet(acc, key) == KeySet(p, key)
    requires HasKey(acc, key, key(x))
    ensures KeySet(acc, key) == KeySet(p + [x], key)
  {
    var j :| 0 <= j < |acc| && key(acc[j]) == key(x);
    KeySetHas(acc, key, j);
    KeySetSnoc(p, x, key);
  }

  lemma KeySetSnocNew<T, K>(acc: seq<T>, p: seq<T>, x: T, key: T -> K)
    requires KeySet(acc, key) == KeySet(p, key)
    requires !HasKey(acc, key, key(x))
    ensures KeySet(acc + [x], key) == KeySet(p + [x], key)
    ensures FirstIndex(p, key, key(x)) == |p|
  {
    KeySetSnoc(p, x, key);
    KeySetSnoc(acc, x, key);
    KeySetLacks(acc, key, key(x));
    if FirstIndex(p, key, key(x)) < |p| {
      KeySetHas(p, key, FirstIndex(p, key, key(x)));
    }
  }

  lemma KeySetSnoc<T, K>(p: seq<T>, x: T, key: T -> K)
    ensures KeySet(p + [x], key) == KeySet(p, key) + {key(x)}
  {
    assert (p + [x])[..|p|] == p;
  }
}
