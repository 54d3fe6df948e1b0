/** Putting a set of nodes into document order: detection of sets already in order, a three-way quicksort that recurses to
    logarithmic depth, and reversal. */
module NodeSort {
  import opened DomTree
  import opened Powers
  import opened Wrappers

  import D = DocumentOrder

  /** The number of node n in document order, -1 for what is no node of the document. */
  ghost function Number(d: D.Numbering, n: nat): (i: int)
    ensures if n in d.node then 0 <= i < |d.node| && d.node[i] == n else i == -1
  {
    if n in d.node then var i :| 0 <= i < |d.node| && d.node[i] == n; i else -1
  }

  ghost function Numbers(d: D.Numbering): (rank: nat -> int)
    ensures forall n :: rank(n) == Number(d, n)
  {
    (n: nat) => Number(d, n)
  }

  /** Only nodes of the document stand between from and to. */
  ghost predicate Inside(s: seq<nat>, d: D.Numbering, from: nat, to: nat)
    requires to <= |s|
  {
    forall k :: from <= k < to ==> s[k] in d.node
  }

  lemma InsideAt(s: seq<nat>, d: D.Numbering, from: nat, to: nat, k: nat)
    requires from <= k < to <= |s| && Inside(s, d, from, to)
    ensures s[k] in d.node
  {}

  /** Whether l comes before r in document order; a node does not come before itself. */
  method Less(h: Heap, l: nat, r: nat, ghost d: D.Numbering) returns (less: bool)
    requires D.Numbered(h, d) && l in d.node && r in d.node
    ensures less <==> Numbers(d)(l) < Numbers(d)(r)
  {
    hide D.Numbered;
    if l == r { return false; }
    less := D.NodeIsBefore(h, l, r, d, Number(d, l), Number(d, r));
  }

  ghost predicate Sorted<T>(s: seq<T>, rank: T -> int, from: nat, to: nat)
    requires from <= to <= |s|
  {
    forall i, j :: from <= i < j < to ==> rank(s[i]) <= rank(s[j])
  }

  /** t rearranges s between from and to and leaves the rest alone. */
  ghost predicate Rearranged<T>(s: seq<T>, t: seq<T>, from: nat, to: nat) {
    && from <= to <= |s| && |t| == |s|
    && t[..from] == s[..from] && t[to..] == s[to..] && multiset(t[from..to]) == multiset(s[from..to])
  }

  lemma RearrangedRefl<T>(s: seq<T>, from: nat, to: nat)
    requires from <= to <= |s|
    ensures Rearranged(s, s, from, to)
  {}

  lemma RearrangedTrans<T>(s: seq<T>, t: seq<T>, u: seq<T>, from: nat, to: nat)
    requires Rearranged(s, t, from, to) && Rearranged(t, u, from, to)
    ensures Rearranged(s, u, from, to)
  {}

  /** What is rearranged in a part is rearranged in the whole. */
  lemma RearrangedWiden<T>(s: seq<T>, t: seq<T>, from: nat, to: nat, a: nat, b: nat)
    requires Rearranged(s, t, a, b) && from <= a && b <= to <= |s|
    ensures Rearranged(s, t, from, to)
  {
    assert s[from..to] == s[from..a] + s[a..b] + s[b..to];
    assert t[from..to] == t[from..a] + t[a..b] + t[b..to];
    assert t[from..a] == t[..a][from..] && s[from..a] == s[..a][from..];
    assert t[b..to] == t[b..][..to - b] && s[b..to] == s[b..][..to - b];
    assert t[..from] == t[..a][..from] && s[..from] == s[..a][..from];
    assert t[to..] == t[b..][to - b..] && s[to..] == s[b..][to - b..];
  }

  lemma Swapped<T>(s: seq<T>, from: nat, to: nat, i: nat, j: nat)
    requires from <= i < to <= |s| && from <= j < to
    ensures Rearranged(s, s[i := s[j]][j := s[i]], from, to)
  {
    var t := s[i := s[j]][j := s[i]];
    var m, n := s[from..to], t[from..to];
    assert n == m[i - from := m[j - from]][j - from := m[i - from]];
    assert t[..from] == s[..from] && t[to..] == s[to..];
    SwapCounts(m, i - from, j - from);
  }

  lemma SwapCounts<T>(m: seq<T>, i: nat, j: nat)
    requires i < |m| && j < |m|
    ensures multiset(m[i := m[j]][j := m[i]]) == multiset(m)
  {}

  /** Elements after a rearrangement were there before. */
  lemma StillThere<T>(s: seq<T>, t: seq<T>, from: nat, to: nat, i: nat) returns (k: nat)
    requires Rearranged(s, t, from, to) && from <= i < to
    ensures from <= k < to && s[k] == t[i]
  {
    assert t[from..to][i - from] == t[i];
    assert t[i] in multiset(t[from..to]);
    assert t[i] in s[from..to];
    var m :| 0 <= m < to - from && s[from..to][m] == t[i];
    k := from + m;
  }

  lemma InsideKept(s: seq<nat>, t: seq<nat>, d: D.Numbering, from: nat, to: nat)
    requires Rearranged(s, t, from, to) && Inside(s, d, from, to)
    ensures Inside(t, d, from, to)
  {
    hide Rearranged;
    RearrangedBounds(s, t, from, to);
    forall k | from <= k < to ensures t[k] in d.node {
      var m := StillThere(s, t, from, to, k);
    }
  }

  lemma RearrangedBounds<T>(s: seq<T>, t: seq<T>, from: nat, to: nat)
    requires Rearranged(s, t, from, to)
    ensures from <= to <= |s| == |t|
  {}

  lemma InsidePart(s: seq<nat>, d: D.Numbering, from: nat, to: nat, a: nat, b: nat)
    requires from <= a && b <= to <= |s| && Inside(s, d, from, to)
    ensures Inside(s, d, a, b)
  {}

  method Swap<T>(a: array<T>, i: nat, j: nat, ghost from: nat, ghost to: nat)
    requires from <= i < to <= a.Length && from <= j < to
    modifies a
    ensures a[..] == old(a[..])[i := old(a[j])][j := old(a[i])]
    ensures Rearranged(old(a[..]), a[..], from, to)
  {
    Swapped(a[..], from, to, i, j);
    a[i], a[j] := a[j], a[i];
  }

  // ----- insertion sort -----

  method InsertionSort(h: Heap, a: array<nat>, begin: nat, end: nat, ghost d: D.Numbering)
    requires D.Numbered(h, d) && begin <= end <= a.Length && Inside(a[..], d, begin, end)
    modifies a
    ensures Rearranged(old(a[..]), a[..], begin, end) && Sorted(a[..], Numbers(d), begin, end)
  {
    hide Rearranged, Sorted, Inside, D.Numbered;
    ghost var s, rank := a[..], Numbers(d);
    RearrangedRefl(s, begin, end);
    SortedShort(s, rank, begin, end);
    if begin == end { return; }
    var it := begin + 1;
    while it < end
      invariant begin < it <= end && Rearranged(s, a[..], begin, end) && Sorted(a[..], rank, begin, it)
    {
      ghost var t := a[..];
      InsideKept(s, t, d, begin, end);
      InsidePart(t, d, begin, end, begin, it + 1);
      InsertAt(h, a, begin, it, d);
      RearrangedWiden(t, a[..], begin, end, begin, it + 1);
      RearrangedTrans(s, t, a[..], begin, end);
      it := it + 1;
    }
  }

  lemma SortedShort<T>(s: seq<T>, rank: T -> int, begin: nat, end: nat)
    requires begin <= end <= |s|
    ensures Sorted(s, rank, begin, begin) && (begin < end ==> Sorted(s, rank, begin, begin + 1))
  {}

  /** The sequence with the value at `it` moved down to `hole`. */
  ghost function MovedTo<T>(t: seq<T>, hole: nat, it: nat): (r: seq<T>)
    requires hole <= it < |t|
    ensures |r| == |t|
  {
    t[..hole] + [t[it]] + t[hole..it] + t[it + 1..]
  }

  lemma MovedRearranges<T>(t: seq<T>, begin: nat, hole: nat, it: nat)
    requires begin <= hole <= it < |t|
    ensures Rearranged(t, MovedTo(t, hole, it), begin, it + 1)
  {
    var r := MovedTo(t, hole, it);
    assert t[begin..it + 1] == t[begin..hole] + t[hole..it] + [t[it]];
    assert r[begin..it + 1] == t[begin..hole] + [t[it]] + t[hole..it];
    assert r[..begin] == t[..begin] && r[it + 1..] == t[it + 1..];
  }

  lemma MovedSorted<T>(t: seq<T>, rank: T -> int, begin: nat, hole: nat, it: nat)
    requires begin <= hole <= it < |t| && Sorted(t, rank, begin, it)
    requires forall k :: hole <= k < it ==> rank(t[it]) < rank(t[k])
    requires hole > begin ==> rank(t[hole - 1]) <= rank(t[it])
    ensures Sorted(MovedTo(t, hole, it), rank, begin, it + 1)
  {
    var r := MovedTo(t, hole, it);
    forall i, j | begin <= i < j < it + 1 ensures rank(r[i]) <= rank(r[j]) {
      var i' := if i < hole then i else if i == hole then it else i - 1;
      var j' := if j < hole then j else if j == hole then it else j - 1;
      assert r[i] == t[i'] && r[j] == t[j'];
      if j' == it && i' < hole - 1 {
        assert rank(t[i']) <= rank(t[hole - 1]);
      }
    }
  }

  /** The elements from hole to it moved one place up. */
  ghost function Shifted<T>(t: seq<T>, hole: nat, it: nat): (r: seq<T>)
    requires hole <= it < |t|
    ensures |r| == |t|
  {
    t[..hole + 1] + t[hole..it] + t[it + 1..]
  }

  lemma ShiftedSteps<T>(t: seq<T>, hole: nat, it: nat)
    requires hole <= it < |t|
    ensures Shifted(t, it, it) == t
    ensures hole > 0 ==> Shifted(t, hole, it)[hole - 1] == t[hole - 1]
                         && Shifted(t, hole, it)[hole := t[hole - 1]] == Shifted(t, hole - 1, it)
    ensures Shifted(t, hole, it)[hole := t[it]] == MovedTo(t, hole, it)
  {}

  method InsertAt(h: Heap, a: array<nat>, begin: nat, it: nat, ghost d: D.Numbering)
    requires D.Numbered(h, d) && begin < it < a.Length && Inside(a[..], d, begin, it + 1) && Sorted(a[..], Numbers(d), begin, it)
    modifies a
    ensures Rearranged(old(a[..]), a[..], begin, it + 1) && Sorted(a[..], Numbers(d), begin, it + 1)
  {
    hide Rearranged, Sorted, Shifted, MovedTo, Inside, D.Numbered;
    ghost var t, rank := a[..], Numbers(d);
    var val := a[it];
    var hole := it;
    ShiftedSteps(t, it, it);
    InsideAt(t, d, begin, it + 1, it);
    while hole > begin
      invariant begin <= hole <= it && a[..] == Shifted(t, hole, it)
      invariant forall k :: hole <= k < it ==> rank(val) < rank(t[k])
    {
      ShiftedSteps(t, hole, it);
      ghost var u := a[..];
      assert a[hole - 1] == u[hole - 1];
      InsideAt(t, d, begin, it + 1, hole - 1);
      var less := Less(h, val, a[hole - 1], d);
      if !less { break; }
      a[hole] := a[hole - 1];
      assert a[..] == u[hole := t[hole - 1]];
      hole := hole - 1;
    }
    ShiftedSteps(t, hole, it);
    ghost var u := a[..];
    assert hole > begin ==> a[hole - 1] == u[hole - 1];
    a[hole] := val;
    assert a[..] == u[hole := val];
    MovedRearranges(t, begin, hole, it);
    MovedSorted(t, rank, begin, hole, it);
  }

  // ----- partition -----

  ghost predicate Below<T>(s: seq<T>, rank: T -> int, from: nat, to: nat, p: int)
    requires to <= |s|
  {
    forall k :: from <= k < to ==> rank(s[k]) < p
  }

  ghost predicate At<T>(s: seq<T>, rank: T -> int, from: nat, to: nat, p: int)
    requires to <= |s|
  {
    forall k :: from <= k < to ==> rank(s[k]) == p
  }

  ghost predicate Above<T>(s: seq<T>, rank: T -> int, from: nat, to: nat, p: int)
    requires to <= |s|
  {
    forall k :: from <= k < to ==> rank(s[k]) > p
  }

  /** Groups the range into less than, equal to and greater than the pivot. */
  method Partition3(h: Heap, a: array<nat>, begin: nat, end: nat, pivot: nat, ghost d: D.Numbering)
    returns (eqbeg: nat, eqend: nat)
    requires D.Numbered(h, d) && begin <= end <= a.Length && Inside(a[..], d, begin, end) && pivot in d.node
    modifies a
    ensures begin <= eqbeg <= eqend <= end && Rearranged(old(a[..]), a[..], begin, end)
    ensures Below(a[..], Numbers(d), begin, eqbeg, Number(d, pivot)) && At(a[..], Numbers(d), eqbeg, eqend, Number(d, pivot))
            && Above(a[..], Numbers(d), eqend, end, Number(d, pivot))
  {
    hide Rearranged, Below, At, Above, Groups, Inside, D.Numbered;
    ghost var s, rank := a[..], Numbers(d);
    var eq, gt := Group(h, a, begin, end, pivot, d);
    ghost var t := a[..];
    eqend := gt;
    eqbeg := MoveToMiddle(a, begin, eq, gt, end, rank, Number(d, pivot));
    RearrangedTrans(s, t, a[..], begin, end);
  }

  method Group(h: Heap, a: array<nat>, begin: nat, end: nat, pivot: nat, ghost d: D.Numbering) returns (eq: nat, gt: nat)
    requires D.Numbered(h, d) && begin <= end <= a.Length && Inside(a[..], d, begin, end) && pivot in d.node
    modifies a
    ensures Rearranged(old(a[..]), a[..], begin, end) && Groups(a[..], Numbers(d), begin, eq, gt, gt, end, Number(d, pivot))
  {
    hide Rearranged, Inside, Groups, D.Numbered;
    ghost var s, rank, p := a[..], Numbers(d), Number(d, pivot);
    GroupsStart(s, rank, begin, end, p);
    RearrangedRefl(s, begin, end);
    var lt := begin;
    eq, gt := begin, end;
    while lt < gt
      invariant begin <= eq <= lt <= gt <= end && Rearranged(s, a[..], begin, end)
      invariant Groups(a[..], rank, begin, eq, lt, gt, end, p)
    {
      ghost var t := a[..];
      InsideKept(s, t, d, begin, end);
      eq, lt, gt := GroupOne(h, a, begin, end, pivot, d, eq, lt, gt);
      RearrangedTrans(s, t, a[..], begin, end);
    }
  }

  /** Puts the element at lt into its group. */
  method GroupOne(h: Heap, a: array<nat>, ghost begin: nat, ghost end: nat, pivot: nat, ghost d: D.Numbering,
                  eq: nat, lt: nat, gt: nat)
    returns (eq': nat, lt': nat, gt': nat)
    requires D.Numbered(h, d) && begin <= eq <= lt < gt <= end <= a.Length && Inside(a[..], d, begin, end) && pivot in d.node
    requires Groups(a[..], Numbers(d), begin, eq, lt, gt, end, Number(d, pivot))
    modifies a
    ensures begin <= eq' <= lt' <= gt' <= end && gt' - lt' == gt - lt - 1
    ensures Rearranged(old(a[..]), a[..], begin, end) && Groups(a[..], Numbers(d), begin, eq', lt', gt', end, Number(d, pivot))
  {
    hide Rearranged, Inside, Groups, D.Numbered;
    ghost var t, rank, p := a[..], Numbers(d), Number(d, pivot);
    InsideAt(t, d, begin, end, lt);
    eq', lt', gt' := eq, lt, gt;
    var less := Less(h, a[lt], pivot, d);
    if less {
      GroupsLess(t, rank, begin, eq, lt, gt, end, p);
      RearrangedRefl(t, begin, end);
      lt' := lt + 1;
    } else if a[lt] == pivot {
      GroupsEqual(t, rank, begin, eq, lt, gt, end, p);
      Swap(a, eq, lt, begin, end);
      eq', lt' := eq + 1, lt + 1;
    } else {
      GroupsGreater(t, rank, begin, eq, lt, gt, end, p);
      gt' := gt - 1;
      Swap(a, lt, gt', begin, end);
    }
  }

  method MoveToMiddle<T(!new)>(a: array<T>, begin: nat, eq: nat, gt: nat, end: nat, ghost rank: T -> int, ghost p: int)
    returns (eqbeg: nat)
    requires end <= a.Length && Groups(a[..], rank, begin, eq, gt, gt, end, p)
    modifies a
    ensures Rearranged(old(a[..]), a[..], begin, end) && begin <= eqbeg <= gt <= end
    ensures Below(a[..], rank, begin, eqbeg, p) && At(a[..], rank, eqbeg, gt, p) && Above(a[..], rank, gt, end, p)
  {
    hide Rearranged, Middle, Below, At, Above, Groups;
    ghost var s := a[..];
    MiddleBounds(s, rank, begin, eq, gt, end, p);
    RearrangedRefl(s, begin, end);
    eqbeg := gt;
    var it := begin;
    MiddleStart(s, rank, begin, eq, gt, end, p);
    ghost var k: nat := 0;
    while it != eq
      invariant it == begin + k && eqbeg == gt - k && it <= eq && begin <= eqbeg
      invariant Rearranged(s, a[..], begin, end) && Middle(a[..], rank, begin, eq, gt, end, k, p)
      decreases eq - it
    {
      ghost var t := a[..];
      eqbeg := eqbeg - 1;
      SwapIntoMiddle(a, it, eqbeg, begin, eq, gt, end, rank, k, p);
      RearrangedTrans(s, t, a[..], begin, end);
      k := k + 1;
      it := it + 1;
    }
    MiddleEnd(a[..], rank, begin, eq, gt, end, p);
  }

  method SwapIntoMiddle<T(!new)>(a: array<T>, i: nat, j: nat, ghost begin: nat, ghost eq: nat, ghost gt: nat, ghost end: nat,
                                 ghost rank: T -> int, ghost k: nat, ghost p: int)
    requires end <= a.Length && i == begin + k && j == gt - k - 1 && i < eq && begin <= j
    requires Middle(a[..], rank, begin, eq, gt, end, k, p)
    modifies a
    ensures Rearranged(old(a[..]), a[..], begin, end) && Middle(a[..], rank, begin, eq, gt, end, k + 1, p)
  {
    MiddleStep(a[..], rank, begin, eq, gt, end, k, p);
    hide Rearranged, Below, At, Above;
    Swap(a, i, j, begin, end);
  }

  /** Equal, smaller, unseen, greater. */
  ghost predicate Groups<T>(s: seq<T>, rank: T -> int, begin: nat, eq: nat, lt: nat, gt: nat, end: nat, p: int) {
    && begin <= eq <= lt <= gt <= end <= |s|
    && At(s, rank, begin, eq, p) && Below(s, rank, eq, lt, p) && Above(s, rank, gt, end, p)
  }

  lemma GroupsStart<T>(s: seq<T>, rank: T -> int, begin: nat, end: nat, p: int)
    requires begin <= end <= |s|
    ensures Groups(s, rank, begin, begin, begin, end, end, p)
  {}

  lemma GroupsLess<T>(s: seq<T>, rank: T -> int, begin: nat, eq: nat, lt: nat, gt: nat, end: nat, p: int)
    requires Groups(s, rank, begin, eq, lt, gt, end, p) && lt < gt && rank(s[lt]) < p
    ensures Groups(s, rank, begin, eq, lt + 1, gt, end, p)
  {}

  lemma GroupsEqual<T>(s: seq<T>, rank: T -> int, begin: nat, eq: nat, lt: nat, gt: nat, end: nat, p: int)
    requires Groups(s, rank, begin, eq, lt, gt, end, p) && lt < gt && rank(s[lt]) == p
    ensures Groups(s[eq := s[lt]][lt := s[eq]], rank, begin, eq + 1, lt + 1, gt, end, p)
  {}

  lemma GroupsGreater<T>(s: seq<T>, rank: T -> int, begin: nat, eq: nat, lt: nat, gt: nat, end: nat, p: int)
    requires Groups(s, rank, begin, eq, lt, gt, end, p) && lt < gt && rank(s[lt]) > p
    ensures Groups(s[lt := s[gt - 1]][gt - 1 := s[lt]], rank, begin, eq, lt, gt - 1, end, p)
  {}

  lemma MiddleStart<T>(s: seq<T>, rank: T -> int, begin: nat, eq: nat, gt: nat, end: nat, p: int)
    requires Groups(s, rank, begin, eq, gt, gt, end, p)
    ensures Middle(s, rank, begin, eq, gt, end, 0, p)
  {}

  lemma MiddleBounds<T>(s: seq<T>, rank: T -> int, begin: nat, eq: nat, gt: nat, end: nat, p: int)
    requires Groups(s, rank, begin, eq, gt, gt, end, p)
    ensures begin <= eq <= gt <= end <= |s|
  {}

  lemma MiddleEnd<T>(s: seq<T>, rank: T -> int, begin: nat, eq: nat, gt: nat, end: nat, p: int)
    requires begin <= eq && Middle(s, rank, begin, eq, gt, end, eq - begin, p)
    ensures var eqbeg := gt - (eq - begin);
            begin <= eqbeg <= gt <= end <= |s|
            && Below(s, rank, begin, eqbeg, p) && At(s, rank, eqbeg, gt, p) && Above(s, rank, gt, end, p)
  {}

  /** After k of the equal elements were swapped with the last of the smaller ones. */
  ghost predicate Middle<T>(s: seq<T>, rank: T -> int, begin: nat, eq: nat, gt: nat, end: nat, k: nat, p: int) {
    && begin <= eq <= gt <= end <= |s| && k <= eq - begin && Above(s, rank, gt, end, p)
    && var n := if k <= gt - eq then k else gt - eq;
       && Below(s, rank, begin, begin + n, p) && At(s, rank, gt - n, gt, p)
       && forall x :: begin + n <= x < gt - n ==> if x < eq then rank(s[x]) == p else rank(s[x]) < p
  }

  lemma MiddleStep<T>(s: seq<T>, rank: T -> int, begin: nat, eq: nat, gt: nat, end: nat, k: nat, p: int)
    requires Middle(s, rank, begin, eq, gt, end, k, p) && k < eq - begin
    ensures begin + k < gt && k + 1 <= gt - begin
    ensures var i, j := begin + k, gt - k - 1;
            Middle(s[i := s[j]][j := s[i]], rank, begin, eq, gt, end, k + 1, p)
  {}

  // ----- sort -----

  /** v is one of x, y, z, and there is one of the others on either side of it. */
  predicate IsMedian(v: int, x: int, y: int, z: int) {
    || (v == x && (y <= x <= z || z <= x <= y))
    || (v == y && (x <= y <= z || z <= y <= x))
    || (v == z && (x <= z <= y || y <= z <= x))
  }

  /** Where the median of three elements is; only positions are exchanged, no elements. */
  method Median3(h: Heap, a: array<nat>, first0: nat, middle0: nat, last0: nat, ghost d: D.Numbering) returns (middle: nat)
    requires D.Numbered(h, d) && first0 < a.Length && middle0 < a.Length && last0 < a.Length
    requires a[first0] in d.node && a[middle0] in d.node && a[last0] in d.node
    ensures middle == first0 || middle == middle0 || middle == last0
    ensures middle < a.Length
            && IsMedian(Number(d, a[middle]), Number(d, a[first0]), Number(d, a[middle0]), Number(d, a[last0]))
  {
    hide D.Numbered;
    var first, last := first0, last0;
    middle := middle0;
    var less := Less(h, a[middle], a[first], d);
    if less {
      middle, first := first, middle;
    }
    less := Less(h, a[last], a[middle], d);
    if less {
      last, middle := middle, last;
    }
    less := Less(h, a[middle], a[first], d);
    if less {
      middle, first := first, middle;
    }
  }

  /** The range lies between its neighbours in the order, so sorting it on its own sorts it in place. */
  ghost predicate Fits<T>(s: seq<T>, rank: T -> int, from: nat, to: nat, begin: nat, end: nat) {
    && from <= begin <= end <= to <= |s|
    && Sorted(s, rank, from, begin) && Sorted(s, rank, end, to)
    && (forall x, y :: from <= x < begin <= y < to ==> rank(s[x]) <= rank(s[y]))
    && (forall x, y :: from <= x < end <= y < to ==> rank(s[x]) <= rank(s[y]))
  }

  /** Sorting the smaller part by recursion and the larger in the loop: depth levels suffice for 2^depth elements. */
  method Sort(h: Heap, a: array<nat>, begin0: nat, end0: nat, ghost d: D.Numbering, ghost depth: nat)
    requires D.Numbered(h, d) && begin0 <= end0 <= a.Length && Inside(a[..], d, begin0, end0) && end0 - begin0 < Pow(2, depth)
    modifies a
    ensures Rearranged(old(a[..]), a[..], begin0, end0) && Sorted(a[..], Numbers(d), begin0, end0)
    decreases depth, 1
  {
    hide Rearranged, Sorted, Fits, Pow, Inside, D.Numbered;
    ghost var s, rank := a[..], Numbers(d);
    RearrangedRefl(s, begin0, end0);
    FitsWhole(s, rank, begin0, end0);
    var begin, end := begin0, end0;
    while end - begin > 16
      invariant begin0 <= begin <= end <= end0 && Rearranged(s, a[..], begin0, end0)
      invariant Fits(a[..], rank, begin0, end0, begin, end)
      decreases end - begin
    {
      ghost var t := a[..];
      InsideKept(s, t, d, begin0, end0);
      InsidePart(t, d, begin0, end0, begin, end);
      begin, end := SortStep(h, a, begin0, end0, begin, end, d, depth);
      RearrangedTrans(s, t, a[..], begin0, end0);
    }
    ghost var t := a[..];
    InsideKept(s, t, d, begin0, end0);
    InsidePart(t, d, begin0, end0, begin, end);
    InsertionSort(h, a, begin, end, d);
    FitsSorted(t, a[..], rank, begin0, end0, begin, end);
    RearrangedWiden(t, a[..], begin0, end0, begin, end);
    RearrangedTrans(s, t, a[..], begin0, end0);
  }

  lemma FitsWhole<T>(s: seq<T>, rank: T -> int, from: nat, to: nat)
    requires from <= to <= |s|
    ensures Fits(s, rank, from, to, from, to)
  {}

  lemma FitsSorted<T>(s: seq<T>, t: seq<T>, rank: T -> int, from: nat, to: nat, begin: nat, end: nat)
    requires Fits(s, rank, from, to, begin, end) && Rearranged(s, t, begin, end) && Sorted(t, rank, begin, end)
    ensures from <= to <= |t| && Sorted(t, rank, from, to)
  {
    hide Rearranged;
    SameOutside(s, t, begin, end);
    forall i, j | from <= i < j < to ensures rank(t[i]) <= rank(t[j]) {
      if i < begin && begin <= j < end {
        var k := StillThere(s, t, begin, end, j);
        assert rank(s[i]) <= rank(s[k]);
      } else if begin <= i < end && end <= j {
        var k := StillThere(s, t, begin, end, i);
        assert rank(s[k]) <= rank(s[j]);
      }
    }
  }

  lemma SameOutside<T>(s: seq<T>, t: seq<T>, begin: nat, end: nat)
    requires Rearranged(s, t, begin, end)
    ensures |t| == |s| && begin <= end <= |s| && forall x :: 0 <= x < |s| && !(begin <= x < end) ==> t[x] == s[x]
  {
    forall x | 0 <= x < |s| && !(begin <= x < end) ensures t[x] == s[x] {
      if x < begin {
        assert t[x] == t[..begin][x] && s[x] == s[..begin][x];
      } else {
        assert t[x] == t[end..][x - end] && s[x] == s[end..][x - end];
      }
    }
  }

  lemma FitsRearranged<T>(s: seq<T>, t: seq<T>, rank: T -> int, from: nat, to: nat, begin: nat, end: nat)
    requires Fits(s, rank, from, to, begin, end) && Rearranged(s, t, begin, end)
    ensures Fits(t, rank, from, to, begin, end)
  {
    hide Rearranged;
    SameOutside(s, t, begin, end);
    forall x, y | from <= x < begin <= y < to ensures rank(t[x]) <= rank(t[y]) {
      if y < end {
        var k := StillThere(s, t, begin, end, y);
        assert rank(s[x]) <= rank(s[k]);
      }
    }
    forall x, y | from <= x < end <= y < to ensures rank(t[x]) <= rank(t[y]) {
      if begin <= x {
        var k := StillThere(s, t, begin, end, x);
        assert rank(s[k]) <= rank(s[y]);
      }
    }
  }

  ghost predicate Parted<T>(s: seq<T>, rank: T -> int, begin: nat, eqbeg: nat, eqend: nat, end: nat, p: int) {
    && begin <= eqbeg <= eqend <= end <= |s|
    && Below(s, rank, begin, eqbeg, p) && At(s, rank, eqbeg, eqend, p) && Above(s, rank, eqend, end, p)
  }

  /** Once the greater part is sorted, only the smaller part is left. */
  lemma FitsLeft<T>(s: seq<T>, rank: T -> int, from: nat, to: nat, begin: nat, end: nat, eqbeg: nat, eqend: nat, p: int)
    requires Fits(s, rank, from, to, begin, end) && Parted(s, rank, begin, eqbeg, eqend, end, p) && Sorted(s, rank, eqend, end)
    ensures Fits(s, rank, from, to, begin, eqbeg)
  {}

  lemma FitsRight<T>(s: seq<T>, rank: T -> int, from: nat, to: nat, begin: nat, end: nat, eqbeg: nat, eqend: nat, p: int)
    requires Fits(s, rank, from, to, begin, end) && Parted(s, rank, begin, eqbeg, eqend, end, p) && Sorted(s, rank, begin, eqbeg)
    ensures Fits(s, rank, from, to, eqend, end)
  {}

  lemma PartedAbove<T>(s: seq<T>, t: seq<T>, rank: T -> int, begin: nat, eqbeg: nat, eqend: nat, end: nat, p: int)
    requires Parted(s, rank, begin, eqbeg, eqend, end, p) && Rearranged(s, t, eqend, end)
    ensures Parted(t, rank, begin, eqbeg, eqend, end, p)
  {
    hide Rearranged;
    SameOutside(s, t, eqend, end);
    forall k | eqend <= k < end ensures rank(t[k]) > p {
      var m := StillThere(s, t, eqend, end, k);
    }
  }

  lemma PartedBelow<T>(s: seq<T>, t: seq<T>, rank: T -> int, begin: nat, eqbeg: nat, eqend: nat, end: nat, p: int)
    requires Parted(s, rank, begin, eqbeg, eqend, end, p) && Rearranged(s, t, begin, eqbeg)
    ensures Parted(t, rank, begin, eqbeg, eqend, end, p)
  {
    hide Rearranged;
    SameOutside(s, t, begin, eqbeg);
    forall k | begin <= k < eqbeg ensures rank(t[k]) < p {
      var m := StillThere(s, t, begin, eqbeg, k);
    }
  }

  /** The pivot was taken from the range, so the middle part is not empty. */
  lemma PivotInMiddle<T>(s: seq<T>, t: seq<T>, rank: T -> int, begin: nat, eqbeg: nat, eqend: nat, end: nat, m: nat)
    requires Rearranged(s, t, begin, end) && begin <= m < end && Parted(t, rank, begin, eqbeg, eqend, end, rank(s[m]))
    ensures eqbeg < eqend
  {
    RearrangedBack(s, t, begin, end);
    var k := StillThere(t, s, begin, end, m);
  }

  lemma RearrangedBack<T>(s: seq<T>, t: seq<T>, from: nat, to: nat)
    requires Rearranged(s, t, from, to)
    ensures Rearranged(t, s, from, to)
  {}

  /** One round: partition around a median, then sort the part with fewer elements. */
  method SortStep(h: Heap, a: array<nat>, ghost from: nat, ghost to: nat, begin: nat, end: nat, ghost d: D.Numbering,
                  ghost depth: nat)
    returns (begin': nat, end': nat)
    requires D.Numbered(h, d) && from <= begin <= end <= to <= a.Length && end - begin > 16 && Inside(a[..], d, begin, end)
    requires end - begin < Pow(2, depth) && Fits(a[..], Numbers(d), from, to, begin, end)
    modifies a
    ensures begin <= begin' <= end' <= end && end' - begin' < end - begin
    ensures Rearranged(old(a[..]), a[..], from, to) && Fits(a[..], Numbers(d), from, to, begin', end')
    decreases depth, 0
  {
    hide Rearranged, Sorted, Fits, Pow, Below, At, Above, Inside, D.Numbered;
    ghost var s, rank := a[..], Numbers(d);
    var middle := begin + (end - begin) / 2;
    InsideAt(s, d, begin, end, begin);
    InsideAt(s, d, begin, end, middle);
    InsideAt(s, d, begin, end, end - 1);
    var median := Median3(h, a, begin, middle, end - 1, d);
    var pivot := a[median];
    var eqbeg, eqend := Partition3(h, a, begin, end, pivot, d);
    ghost var u := a[..];
    InsideKept(s, u, d, begin, end);
    PivotInMiddle(s, u, rank, begin, eqbeg, eqend, end, median);
    FitsRearranged(s, u, rank, from, to, begin, end);
    HalfDepth(end - begin, depth);
    if eqbeg - begin > end - eqend {
      InsidePart(u, d, begin, end, eqend, end);
      Sort(h, a, eqend, end, d, depth - 1);
      PartedAbove(u, a[..], rank, begin, eqbeg, eqend, end, rank(pivot));
      RearrangedWiden(u, a[..], begin, end, eqend, end);
      FitsRearranged(u, a[..], rank, from, to, begin, end);
      FitsLeft(a[..], rank, from, to, begin, end, eqbeg, eqend, rank(pivot));
      begin', end' := begin, eqbeg;
    } else {
      InsidePart(u, d, begin, end, begin, eqbeg);
      Sort(h, a, begin, eqbeg, d, depth - 1);
      PartedBelow(u, a[..], rank, begin, eqbeg, eqend, end, rank(pivot));
      RearrangedWiden(u, a[..], begin, end, begin, eqbeg);
      FitsRearranged(u, a[..], rank, from, to, begin, end);
      FitsRight(a[..], rank, from, to, begin, end, eqbeg, eqend, rank(pivot));
      begin', end' := eqend, end;
    }
    RearrangedTrans(s, u, a[..], begin, end);
    RearrangedWiden(s, a[..], from, to, begin, end);
  }

  lemma HalfDepth(n: nat, depth: nat)
    requires 0 < n < Pow(2, depth)
    ensures depth > 0 && (n - 1) / 2 < Pow(2, depth - 1)
  {
    PowZero(2);
    if depth > 0 { PowStep(2, depth - 1); }
  }

  /** How often n can be halved: twice as many elements need one level more. */
  ghost function Log2(n: nat): (depth: nat)
    ensures n < Pow(2, depth) && (n > 0 ==> depth > 0 && Pow(2, depth - 1) <= n)
  {
    if n == 0 then PowZero(2); 0 else
      var below := Log2(n / 2);
      PowZero(2);
      PowStep(2, below);
      if below > 0 then PowStep(2, below - 1); below + 1 else below + 1
  }

  // ----- sets in order -----

  datatype Order = Unsorted | Ascending | Descending

  ghost predicate Rising(s: seq<nat>, d: D.Numbering, n: nat)
    requires n <= |s|
  {
    forall i, j :: 0 <= i < j < n ==> Number(d, s[i]) < Number(d, s[j])
  }

  ghost predicate Falling(s: seq<nat>, d: D.Numbering, n: nat)
    requires n <= |s|
  {
    forall i, j :: 0 <= i < j < n ==> Number(d, s[i]) >= Number(d, s[j])
  }

  /** The elements stand in document order, or in reverse; nothing is claimed of a set marked unsorted. */
  ghost predicate InOrder(s: seq<nat>, d: D.Numbering, order: Order) {
    match order
    case Unsorted => true
    case Ascending => Sorted(s, Numbers(d), 0, |s|)
    case Descending => Falling(s, d, |s|)
  }

  /** Comparing neighbours finds out whether the whole set rises or falls. */
  method GetOrder(h: Heap, a: array<nat>, ghost d: D.Numbering) returns (order: Order)
    requires D.Numbered(h, d) && Inside(a[..], d, 0, a.Length)
    ensures order.Ascending? <==> Rising(a[..], d, a.Length)
    ensures order.Descending? <==> Falling(a[..], d, a.Length) && !Rising(a[..], d, a.Length)
    ensures InOrder(a[..], d, order)
  {
    hide D.Numbered, Inside, Rising, Falling;
    ghost var s := a[..];
    RunStarts(s, d);
    if a.Length < 2 { return Ascending; }
    InsideAt(s, d, 0, a.Length, 0);
    InsideAt(s, d, 0, a.Length, 1);
    var first := Less(h, a[0], a[1], d);
    RunGrows(s, d, 1);
    var it := 1;
    while it + 1 < a.Length
      invariant 1 <= it < a.Length && (if first then Rising(s, d, it + 1) else Falling(s, d, it + 1))
      invariant first <==> Number(d, s[0]) < Number(d, s[1])
    {
      InsideAt(s, d, 0, a.Length, it);
      InsideAt(s, d, 0, a.Length, it + 1);
      RunGrows(s, d, it + 1);
      var less := Less(h, a[it], a[it + 1], d);
      if less != first {
        NoRun(s, d, 0, it);
        return Unsorted;
      }
      it := it + 1;
    }
    NoRun(s, d, 0, 0);
    RisingIsSorted(s, d);
    order := if first then Ascending else Descending;
  }

  lemma RunStarts(s: seq<nat>, d: D.Numbering)
    ensures |s| < 2 ==> Rising(s, d, |s|) && Falling(s, d, |s|) && Sorted(s, Numbers(d), 0, |s|)
    ensures |s| > 0 ==> Rising(s, d, 1) && Falling(s, d, 1)
  {}

  lemma RunGrows(s: seq<nat>, d: D.Numbering, it: nat)
    requires 0 < it < |s|
    ensures Rising(s, d, it) && Number(d, s[it - 1]) < Number(d, s[it]) ==> Rising(s, d, it + 1)
    ensures Falling(s, d, it) && Number(d, s[it - 1]) >= Number(d, s[it]) ==> Falling(s, d, it + 1)
  {}

  /** Two neighbouring pairs that go different ways. */
  lemma NoRun(s: seq<nat>, d: D.Numbering, i: nat, j: nat)
    requires i + 1 < |s| && j + 1 < |s|
    ensures Number(d, s[i]) < Number(d, s[i + 1]) ==> !Falling(s, d, |s|)
    ensures Number(d, s[i]) >= Number(d, s[i + 1]) ==> !Rising(s, d, |s|)
    ensures Number(d, s[j]) < Number(d, s[j + 1]) ==> !Falling(s, d, |s|)
    ensures Number(d, s[j]) >= Number(d, s[j + 1]) ==> !Rising(s, d, |s|)
  {}

  lemma RisingIsSorted(s: seq<nat>, d: D.Numbering)
    ensures Rising(s, d, |s|) ==> Sorted(s, Numbers(d), 0, |s|)
  {}

  /** Outside begin and end, read backwards. */
  ghost function MirrorAt<T>(s: seq<T>, begin: nat, end: nat, k: nat): T
    requires k < |s|
  {
    if begin <= k < end then s[k] else s[|s| - 1 - k]
  }

  ghost predicate Mirrored<T>(s: seq<T>, t: seq<T>, begin: nat, end: nat) {
    && |t| == |s| && begin <= end && begin + end == |s|
    && forall k :: 0 <= k < |s| ==> t[k] == MirrorAt(s, begin, end, k)
  }

  lemma MirrorStarts<T>(s: seq<T>)
    ensures Mirrored(s, s, 0, |s|)
  {}

  lemma MirrorStep<T>(s: seq<T>, t: seq<T>, begin: nat, end: nat)
    requires Mirrored(s, t, begin, end) && end - begin > 1
    ensures Mirrored(s, t[begin := t[end - 1]][end - 1 := t[begin]], begin + 1, end - 1)
  {}

  lemma MirrorEnds<T>(s: seq<T>, t: seq<T>, begin: nat, end: nat)
    requires Mirrored(s, t, begin, end) && end - begin <= 1
    ensures |t| == |s| && forall k :: 0 <= k < |s| ==> t[k] == s[|s| - 1 - k]
  {}

  method Reverse<T>(a: array<T>)
    modifies a
    ensures forall k :: 0 <= k < a.Length ==> a[..][k] == old(a[..])[a.Length - 1 - k]
    ensures multiset(a[..]) == multiset(old(a[..]))
  {
    hide Rearranged, Mirrored;
    ghost var s := a[..];
    var begin, end := 0, a.Length;
    RearrangedRefl(s, 0, a.Length);
    MirrorStarts(s);
    while end - begin > 1
      invariant 0 <= begin <= end <= a.Length && Rearranged(s, a[..], 0, a.Length) && Mirrored(s, a[..], begin, end)
    {
      ghost var t := a[..];
      MirrorStep(s, t, begin, end);
      end := end - 1;
      Swap(a, begin, end, 0, a.Length);
      RearrangedTrans(s, t, a[..], 0, a.Length);
      begin := begin + 1;
    }
    MirrorEnds(s, a[..], begin, end);
    SameMembers(s, a[..]);
  }

  lemma SameMembers<T>(s: seq<T>, t: seq<T>)
    requires Rearranged(s, t, 0, |s|)
    ensures |t| == |s| && multiset(t) == multiset(s)
  {
    assert s[0..|s|] == s && t[0..|s|] == t;
  }

  lemma ReversedOrder(s: seq<nat>, t: seq<nat>, d: D.Numbering)
    requires |t| == |s| && forall k :: 0 <= k < |s| ==> t[k] == s[|s| - 1 - k]
    ensures Sorted(s, Numbers(d), 0, |s|) ==> Falling(t, d, |t|)
    ensures Falling(s, d, |s|) ==> Sorted(t, Numbers(d), 0, |t|)
  {}

  /** Brings any array of nodes of one document into the wanted order; a set marked as ordered must be so. */
  method XPathSort(h: Heap, a: array<nat>, type0: Order, rev: bool, ghost d: D.Numbering) returns (order: Order)
    requires D.Numbered(h, d) && Inside(a[..], d, 0, a.Length) && InOrder(a[..], d, type0)
    modifies a
    ensures order == if rev then Descending else Ascending
    ensures multiset(a[..]) == multiset(old(a[..])) && InOrder(a[..], d, order)
  {
    hide D.Numbered, Inside, Sorted, Falling, Rising, Rearranged, Pow;
    ghost var s := a[..];
    order := if rev then Descending else Ascending;
    var type_ := type0;
    if type0 == Unsorted {
      var sorted := GetOrder(h, a, d);
      if sorted == Unsorted {
        Sort(h, a, 0, a.Length, d, Log2(a.Length));
        SameMembers(s, a[..]);
        type_ := Ascending;
      } else {
        type_ := sorted;
      }
    }
    if type_ != order {
      ghost var t := a[..];
      Reverse(a);
      ReversedOrder(t, a[..], d);
    }
  }

  /** There is only one listing in document order, so the contract of XPathSort fixes the result. */
  lemma OrderIsUnique(s: seq<nat>, t: seq<nat>, d: D.Numbering)
    requires multiset(s) == multiset(t) && |s| == |t| && Inside(s, d, 0, |s|)
    requires Sorted(s, Numbers(d), 0, |s|) && Sorted(t, Numbers(d), 0, |t|)
    ensures s == t
  {
    SamePrefix(s, t, d, |s|);
    assert s[..|s|] == s && t[..|t|] == t;
  }

  lemma {:induction false} SamePrefix(s: seq<nat>, t: seq<nat>, d: D.Numbering, n: nat)
    requires multiset(s) == multiset(t) && |s| == |t| && n <= |s| && Inside(s, d, 0, |s|)
    requires Sorted(s, Numbers(d), 0, |s|) && Sorted(t, Numbers(d), 0, |t|)
    ensures s[..n] == t[..n]
  {
    if n > 0 {
      var m := n - 1;
      SamePrefix(s, t, d, m);
      SameTails(s, t, m);
      hide Sorted, Inside;
      NotLater(s, t, d, m);
      NotLater(t, s, d, m);
      InsideAt(s, d, 0, |s|, m);
      assert s[..n] == s[..m] + [s[m]] && t[..n] == t[..m] + [t[m]];
    }
  }

  lemma SameTails<T>(s: seq<T>, t: seq<T>, m: nat)
    requires m <= |s| && m <= |t| && multiset(s) == multiset(t) && s[..m] == t[..m]
    ensures multiset(s[m..]) == multiset(t[m..])
  {
    assert s == s[..m] + s[m..] && t == t[..m] + t[m..];
    assert multiset(s[m..]) == multiset(s) - multiset(s[..m]) && multiset(t[m..]) == multiset(t) - multiset(t[..m]);
  }

  lemma NotLater(s: seq<nat>, t: seq<nat>, d: D.Numbering, m: nat)
    requires m < |s| == |t| && multiset(s[m..]) == multiset(t[m..]) && Sorted(t, Numbers(d), 0, |t|)
    ensures Number(d, t[m]) <= Number(d, s[m])
  {
    assert s[m..][0] in multiset(s[m..]);
    var k :| 0 <= k < |t[m..]| && t[m..][k] == s[m];
    assert Numbers(d)(t[m]) <= Numbers(d)(t[m + k]);
  }

  // ----- the first of a set, and a set without repetitions -----

  /** The first node of a set in document order, whichever order the set is in. */
  method XPathFirst(h: Heap, a: array<nat>, type_: Order, ghost d: D.Numbering) returns (first: Option<nat>)
    requires D.Numbered(h, d) && Inside(a[..], d, 0, a.Length) && InOrder(a[..], d, type_)
    ensures first.None? <==> a.Length == 0
    ensures first.Some? ==> first.value in a[..] && forall x :: x in a[..] ==> Number(d, first.value) <= Number(d, x)
  {
    hide D.Numbered;
    if a.Length == 0 { return None; }
    match type_ {
      case Ascending => first := Some(a[0]);
      case Descending => first := Some(a[a.Length - 1]);
      case Unsorted =>
        var result := MinElement(h, a, d);
        first := Some(a[result]);
    }
  }

  method MinElement(h: Heap, a: array<nat>, ghost d: D.Numbering) returns (result: nat)
    requires D.Numbered(h, d) && Inside(a[..], d, 0, a.Length) && a.Length > 0
    ensures result < a.Length && forall k :: 0 <= k < a.Length ==> Number(d, a[result]) <= Number(d, a[k])
  {
    hide D.Numbered, Inside;
    result := 0;
    var it := 1;
    while it != a.Length
      invariant result < it <= a.Length && forall k :: 0 <= k < it ==> Number(d, a[result]) <= Number(d, a[k])
    {
      InsideAt(a[..], d, 0, a.Length, it);
      InsideAt(a[..], d, 0, a.Length, result);
      var less := Less(h, a[it], a[result], d);
      if less { result := it; }
      it := it + 1;
    }
  }

  /** The sequence without elements that repeat the one before. */
  ghost function Collapsed<T>(s: seq<T>): (r: seq<T>)
    ensures |r| <= |s| && (s != [] ==> r != [] && r[|r| - 1] == s[|s| - 1])
  {
    if |s| < 2 then s else
      var m := |s| - 1;
      Collapsed(s[..m]) + if s[m] == s[m - 1] then [] else [s[m]]
  }

  method Unique<T(==)>(a: array<T>) returns (end: nat)
    modifies a
    ensures end <= a.Length && a[..end] == Collapsed(old(a[..]))
  {
    hide Collapsed, HeadCollapsed;
    ghost var s := a[..];
    var begin := 0;
    CollapsedShort(s);
    assert a[..0] == s[..0];
    while a.Length - begin > 1 && a[begin] != a[begin + 1]
      invariant a[..] == s && begin <= a.Length && (begin == a.Length ==> s == [])
      invariant begin < a.Length ==> Collapsed(s[..begin + 1]) == s[..begin + 1]
    {
      CollapsedStep(s, begin + 1);
      begin := begin + 1;
    }
    if begin == a.Length { return begin; }
    var write := begin;
    begin := begin + 1;
    CollapsedStart(s, a[..], begin);
    while begin != a.Length
      invariant write < begin <= a.Length && HeadCollapsed(s, a[..], write, begin)
    {
      ghost var t := a[..];
      HeadGrows(s, t, write, begin);
      if a[begin] != a[write] {
        write := write + 1;
        a[write] := a[begin];
        assert a[..] == t[write := t[begin]];
      }
      begin := begin + 1;
    }
    HeadIsAll(s, a[..], write);
    end := write + 1;
  }

  /** The collapsed head of s, up to begin, stands at the beginning of t, and the rest of s is still in place. */
  ghost predicate HeadCollapsed<T>(s: seq<T>, t: seq<T>, write: nat, begin: nat) {
    write < begin <= |s| == |t| && t[..write + 1] == Collapsed(s[..begin]) && t[begin..] == s[begin..]
  }

  lemma CollapsedShort<T>(s: seq<T>)
    ensures Collapsed(s[..0]) == s[..0] && (s != [] ==> Collapsed(s[..1]) == s[..1])
    ensures s == [] ==> Collapsed(s) == s
  {}

  lemma HeadIsAll<T>(s: seq<T>, t: seq<T>, write: nat)
    requires HeadCollapsed(s, t, write, |s|)
    ensures write < |t| && t[..write + 1] == Collapsed(s)
  {
    assert s[..|s|] == s;
  }

  lemma CollapsedStart<T>(s: seq<T>, t: seq<T>, begin: nat)
    requires t == s && 0 < begin <= |s| && Collapsed(s[..begin]) == s[..begin]
    ensures HeadCollapsed(s, t, begin - 1, begin)
  {}

  lemma HeadGrows<T>(s: seq<T>, t: seq<T>, write: nat, begin: nat)
    requires HeadCollapsed(s, t, write, begin) && begin < |s|
    ensures t[begin] == t[write] ==> HeadCollapsed(s, t, write, begin + 1)
    ensures t[begin] != t[write] ==> HeadCollapsed(s, t[write + 1 := t[begin]], write + 1, begin + 1)
  {
    CollapsedStep(s, begin);
    assert t[begin] == t[begin..][0] == s[begin] && t[write] == t[..write + 1][write] == s[..begin][begin - 1];
    var u := t[write + 1 := t[begin]];
    assert t[begin + 1..] == t[begin..][1..] && s[begin + 1..] == s[begin..][1..];
    assert u[begin + 1..] == t[begin + 1..];
    assert u[..write + 2] == t[..write + 1] + [t[begin]];
  }

  lemma CollapsedStep<T>(s: seq<T>, m: nat)
    requires 0 < m < |s|
    ensures Collapsed(s[..m + 1]) == Collapsed(s[..m]) + if s[m] == s[m - 1] then [] else [s[m]]
  {
    assert s[..m + 1][..m] == s[..m];
  }

  ghost predicate Between(d: D.Numbering, x: nat, y: nat, z: nat, order: Order) {
    if order == Ascending then Number(d, x) <= Number(d, y) <= Number(d, z) else Number(d, x) >= Number(d, y) >= Number(d, z)
  }

  /** z comes last, behind y or right on it. */
  lemma LastInOrder(r: seq<nat>, z: nat, y: nat, d: D.Numbering, order: Order)
    requires order != Unsorted && InOrder(r, d, order) && forall x :: x in r ==> Between(d, x, y, z, order)
    ensures InOrder(r + [z], d, order)
  {
    forall i, j | 0 <= i < j < |r + [z]|
      ensures if order == Ascending then Number(d, (r + [z])[i]) <= Number(d, (r + [z])[j])
              else Number(d, (r + [z])[i]) >= Number(d, (r + [z])[j])
    {
      assert r[i] in r;
      if j < |r| { assert Numbers(d)(r[i]) == Number(d, r[i]) && Numbers(d)(r[j]) == Number(d, r[j]); }
    }
  }

  lemma LastBetween(s: seq<nat>, d: D.Numbering, order: Order, x: nat)
    requires order != Unsorted && InOrder(s, d, order) && |s| >= 2 && x in s[..|s| - 1]
    ensures Between(d, x, s[|s| - 2], s[|s| - 1], order)
  {
    var m := |s| - 1;
    var k :| 0 <= k < m && s[k] == x;
    assert Numbers(d)(s[k]) == Number(d, x);
    assert k < m - 1 ==> if order == Ascending then Numbers(d)(s[k]) <= Numbers(d)(s[m - 1])
                         else Number(d, s[k]) >= Number(d, s[m - 1]);
    assert if order == Ascending then Numbers(d)(s[m - 1]) <= Numbers(d)(s[m]) else Number(d, s[m - 1]) >= Number(d, s[m]);
  }

  lemma PrefixInOrder(s: seq<nat>, d: D.Numbering, order: Order, m: nat)
    requires InOrder(s, d, order) && m <= |s| && Inside(s, d, 0, |s|)
    ensures InOrder(s[..m], d, order) && Inside(s[..m], d, 0, m)
  {}

  /** In an ordered set repetitions stand together, so removing them leaves each node once, in the same order. */
  lemma {:induction false} CollapsedSet(s: seq<nat>, d: D.Numbering, order: Order)
    requires Inside(s, d, 0, |s|) && order != Unsorted && InOrder(s, d, order)
    ensures Distinct(Collapsed(s)) && InOrder(Collapsed(s), d, order) && forall x :: x in Collapsed(s) <==> x in s
  {
    if |s| < 2 {
      assert Collapsed(s) == s;
    } else {
      hide InOrder, Inside, Collapsed;
      var m := |s| - 1;
      PrefixInOrder(s, d, order, m);
      CollapsedSet(s[..m], d, order);
      CollapsedLast(s, Collapsed(s[..m]), d, order);
      assert s[..m + 1] == s;
      CollapsedStep(s, m);
    }
  }

  lemma CollapsedLast(s: seq<nat>, r: seq<nat>, d: D.Numbering, order: Order)
    requires Inside(s, d, 0, |s|) && order != Unsorted && InOrder(s, d, order) && |s| >= 2
    requires Distinct(r) && InOrder(r, d, order) && forall x :: x in r <==> x in s[..|s| - 1]
    ensures var z := s[|s| - 1]; var all := r + if z == s[|s| - 2] then [] else [z];
            Distinct(all) && InOrder(all, d, order) && forall x :: x in all <==> x in s
  {
    var y, z := s[|s| - 2], s[|s| - 1];
    assert s == s[..|s| - 1] + [z];
    assert r + [] == r;
    assert y == s[..|s| - 1][|s| - 2] && y in d.node && z in d.node;
    hide InOrder, Inside;
    forall x | x in r ensures Between(d, x, y, z, order) {
      LastBetween(s, d, order, x);
    }
    if y != z {
      assert z in r ==> Between(d, z, y, z, order);
      LastInOrder(r, z, y, d, order);
    }
  }
}
