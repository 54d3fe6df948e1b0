/** Dotted module keys, their ancestors, and the order modules are listed in. */
module ModuleKeys {
  import opened Wrappers

  /** Position of the last dot, or -1. */
  function LastDot(key: string): (p: int)
    ensures -1 <= p < |key|
    ensures p >= 0 ==> key[p] == '.'
    ensures forall i :: p < i < |key| ==> key[i] != '.'
  {
    if key == "" then -1
    else if key[|key| - 1] == '.' then |key| - 1
    else LastDot(key[..|key| - 1])
  }

  function ParentKey(key: string): (parent: string)
    ensures key != "" ==> |parent| < |key|
  {
    if LastDot(key) < 0 then "" else key[..LastDot(key)]
  }

  function KeyDepth(key: string): nat {
    if key == "" then 0
    else KeyDepth(key[..|key| - 1]) + (if key[|key| - 1] == '.' then 1 else 0)
  }

  lemma {:induction false} DepthIsDots(key: string)
    ensures KeyDepth(key) == multiset(key)['.']
  {
    if key != "" {
      DepthIsDots(key[..|key| - 1]);
      assert key == key[..|key| - 1] + [key[|key| - 1]];
    }
  }

  /** `a` is reached from `key` by taking parents, one or more times, before the empty key. */
  ghost predicate Ancestor(a: string, key: string)
    decreases |key|
  {
    key != "" && a != "" && (ParentKey(key) == a || Ancestor(a, ParentKey(key)))
  }

  /** The ancestors of a key are its nonempty prefixes that end just before a dot. */
  lemma {:induction false} AncestorIsDottedPrefix(a: string, key: string)
    ensures Ancestor(a, key) <==> a != "" && |a| < |key| && a <= key && key[|a|] == '.'
    decreases |key|
  {
    if key != "" {
      var p := LastDot(key);
      AncestorIsDottedPrefix(a, ParentKey(key));
      if p >= 0 && |a| < |key| && a <= key && key[|a|] == '.' && |a| < p {
        assert a == key[..p][..|a|];
      }
    }
  }

  lemma {:induction false} DepthOfPrefix(key: string, p: nat)
    requires p <= |key| && forall i :: p <= i < |key| ==> key[i] != '.'
    ensures KeyDepth(key) == KeyDepth(key[..p])
  {
    if p == |key| {
      assert key[..p] == key;
    } else {
      DepthOfPrefix(key[..|key| - 1], p);
      assert key[..|key| - 1][..p] == key[..p];
    }
  }

  lemma DepthOfParent(key: string)
    requires ParentKey(key) != ""
    ensures KeyDepth(key) == KeyDepth(ParentKey(key)) + 1
  {
    var p := LastDot(key);
    DepthOfPrefix(key, p + 1);
    assert key[..p + 1][..p] == key[..p];
  }

  lemma {:induction false} AncestorIsShallower(a: string, key: string)
    requires Ancestor(a, key)
    ensures KeyDepth(a) < KeyDepth(key)
    decreases |key|
  {
    DepthOfParent(key);
    if ParentKey(key) != a {
      AncestorIsShallower(a, ParentKey(key));
    }
  }

  /** The nearest ancestor among the given keys. */
  function NearestIn(key: string, among: set<string>): (r: Option<string>)
    ensures r.Some? ==> r.value in among && r.value != ""
    decreases |key|
  {
    var pk := ParentKey(key);
    if key == "" || pk == "" then None
    else if pk in among then Some(pk)
    else NearestIn(pk, among)
  }

  /** It is an ancestor, and every other ancestor among the keys is an ancestor of it. */
  lemma {:induction false} NearestIsNearest(key: string, among: set<string>)
    ensures var r := NearestIn(key, among);
            && (r.Some? ==> Ancestor(r.value, key))
            && (forall a :: Ancestor(a, key) && a in among ==> r.Some? && (a == r.value || Ancestor(a, r.value)))
    decreases |key|
  {
    var pk := ParentKey(key);
    if key != "" && pk != "" && pk !in among {
      NearestIsNearest(pk, among);
    }
    forall a | Ancestor(a, key) && a in among
      ensures NearestIn(key, among).Some?
      ensures a == NearestIn(key, among).value || Ancestor(a, NearestIn(key, among).value)
    {
      assert pk == a || Ancestor(a, pk);
    }
  }

  /** The walk up the dotted key, as the source's loops do it. */
  method FindNearest(key: string, among: set<string>) returns (r: Option<string>)
    ensures r == NearestIn(key, among)
  {
    var pk := ParentKey(key);
    while pk != ""
      invariant NearestIn(key, among) == if pk == "" then None else if pk in among then Some(pk) else NearestIn(pk, among)
      decreases |pk|
    {
      if pk in among {
        return Some(pk);
      }
      pk := ParentKey(pk);
    }
    return None;
  }

  // ----- stable sorting by a pair of numbers -----

  type Rank = (int, int)

  predicate RankLess(a: Rank, b: Rank) {
    a.0 < b.0 || (a.0 == b.0 && a.1 < b.1)
  }

  predicate RankAtMost(a: Rank, b: Rank) {
    !RankLess(b, a)
  }

  ghost predicate SortedBy<T>(s: seq<T>, rank: T -> Rank) {
    forall i, j :: 0 <= i < j < |s| ==> RankAtMost(rank(s[i]), rank(s[j]))
  }

  lemma SortedAt<T>(s: seq<T>, rank: T -> Rank, i: nat, j: nat)
    requires SortedBy(s, rank) && i < j < |s|
    ensures RankAtMost(rank(s[i]), rank(s[j]))
  {}

  /** The elements of a given rank, in order. */
  ghost function OfRank<T>(s: seq<T>, rank: T -> Rank, r: Rank): seq<T> {
    if s == [] then [] else
      OfRank(s[..|s| - 1], rank, r) + (if rank(s[|s| - 1]) == r then [s[|s| - 1]] else [])
  }

  /** x put behind everything that does not come after it. */
  function Insert<T>(s: seq<T>, x: T, rank: T -> Rank): (r: seq<T>)
    ensures |r| == |s| + 1
  {
    if s != [] && RankLess(rank(x), rank(s[|s| - 1])) then
      Insert(s[..|s| - 1], x, rank) + [s[|s| - 1]]
    else s + [x]
  }

  function StableSort<T>(s: seq<T>, rank: T -> Rank): (r: seq<T>)
    ensures |r| == |s|
  {
    if s == [] then [] else Insert(StableSort(s[..|s| - 1], rank), s[|s| - 1], rank)
  }

  lemma {:induction false} InsertPermutes<T>(s: seq<T>, x: T, rank: T -> Rank)
    ensures multiset(Insert(s, x, rank)) == multiset(s) + multiset{x}
  {
    if s != [] {
      assert s == s[..|s| - 1] + [s[|s| - 1]];
      InsertPermutes(s[..|s| - 1], x, rank);
    }
  }

  lemma {:induction false} InsertSorted<T>(s: seq<T>, x: T, rank: T -> Rank)
    requires SortedBy(s, rank)
    ensures SortedBy(Insert(s, x, rank), rank)
  {
    if s != [] && RankLess(rank(x), rank(s[|s| - 1])) {
      var init, last := s[..|s| - 1], s[|s| - 1];
      InsertSorted(init, x, rank);
      InsertPermutes(init, x, rank);
      var r := Insert(init, x, rank);
      forall i | 0 <= i < |r| ensures RankAtMost(rank(r[i]), rank(last)) {
        assert r[i] in multiset(r);
        if r[i] != x {
          assert r[i] in multiset(init);
          var j :| 0 <= j < |init| && init[j] == r[i];
          assert s[j] == r[i];
        }
      }
    } else {
      forall i | 0 <= i < |s| ensures RankAtMost(rank(s[i]), rank(x)) {
        if i < |s| - 1 { assert RankAtMost(rank(s[i]), rank(s[|s| - 1])); }
      }
    }
  }

  lemma {:induction false} OfRankAppend<T>(s: seq<T>, x: T, rank: T -> Rank, r: Rank)
    ensures OfRank(s + [x], rank, r) == OfRank(s, rank, r) + (if rank(x) == r then [x] else [])
  {
    assert (s + [x])[..|s|] == s;
  }

  lemma {:induction false} InsertStable<T>(s: seq<T>, x: T, rank: T -> Rank, r: Rank)
    requires SortedBy(s, rank)
    ensures OfRank(Insert(s, x, rank), rank, r) == OfRank(s + [x], rank, r)
  {
    OfRankAppend(s, x, rank, r);
    if s != [] && RankLess(rank(x), rank(s[|s| - 1])) {
      var init, last := s[..|s| - 1], s[|s| - 1];
      assert s == init + [last];
      InsertStable(init, x, rank, r);
      OfRankAppend(init, x, rank, r);
      OfRankAppend(init, last, rank, r);
      OfRankAppend(Insert(init, x, rank), last, rank, r);
    }
  }

  /** Sorting permutes, sorts, and keeps elements of equal rank in their order. */
  lemma {:induction false} StableSortCorrect<T>(s: seq<T>, rank: T -> Rank)
    ensures SortedBy(StableSort(s, rank), rank) && multiset(StableSort(s, rank)) == multiset(s)
    ensures forall r :: OfRank(StableSort(s, rank), rank, r) == OfRank(s, rank, r)
  {
    if s != [] {
      var init, last := s[..|s| - 1], s[|s| - 1];
      assert s == init + [last];
      StableSortCorrect(init, rank);
      InsertSorted(StableSort(init, rank), last, rank);
      InsertPermutes(StableSort(init, rank), last, rank);
      forall r ensures OfRank(StableSort(s, rank), rank, r) == OfRank(s, rank, r) {
        InsertStable(StableSort(init, rank), last, rank, r);
        OfRankAppend(StableSort(init, rank), last, rank, r);
      }
    }
  }
}
