/** Every linked document can be numbered: its preorder listing is a numbering, and it lists exactly the nodes under the root. */
module DocumentNumbers {
  import opened Wrappers
  import opened DomTree
  import opened DomMove
  import opened DocumentOrder

  /** A linked, acyclic heap; top bounds the ranks. */
  datatype Forest = Forest(h: Heap, kids: seq<seq<nat>>, rank: seq<nat>, top: nat)

  ghost predicate Sound(t: Forest) {
    Linked(t.h, t.kids) && Ranked(t.h, t.rank) && Capped(t)
  }

  ghost predicate Capped(t: Forest) {
    |t.rank| == |t.h| == |t.kids| && forall n: nat :: n < |t.h| ==> t.rank[n] < t.top
  }

  lemma KidSound(t: Forest, x: nat, k: int)
    requires Sound(t) && x < |t.h|
    ensures |t.rank| == |t.kids| == |t.h| && t.rank[x] < t.top
    ensures 0 <= k < |t.kids[x]| ==> t.kids[x][k] < |t.h| && t.h[t.kids[x][k]].parent == x && t.rank[x] < t.rank[t.kids[x][k]] < t.top
  {
    if 0 <= k < |t.kids[x]| { KidAt(t.h, t.kids, x, k); }
  }

  /** The subtree of x in preorder. */
  ghost function Pre(t: Forest, x: nat): (s: seq<nat>)
    requires Sound(t) && x < |t.h|
    ensures |s| > 0 && s[0] == x
    decreases t.top - t.rank[x], |t.kids[x]| + 1
  {
    KidSound(t, x, 0);
    [x] + PreList(t, x, |t.kids[x]|)
  }

  /** The subtrees of the first k children of x, in preorder. */
  ghost function PreList(t: Forest, x: nat, k: nat): seq<nat>
    requires Sound(t) && x < |t.h| && k <= |t.kids[x]|
    decreases t.top - t.rank[x], k
  {
    KidSound(t, x, k - 1);
    if k == 0 then [] else PreList(t, x, k - 1) + Pre(t, t.kids[x][k - 1])
  }

  /** n begins a stretch of s that is its own subtree. */
  ghost predicate Stretch(t: Forest, s: seq<nat>, i: nat)
    requires Sound(t) && i < |s|
  {
    s[i] < |t.h| && i + |Pre(t, s[i])| <= |s| && s[i..i + |Pre(t, s[i])|] == Pre(t, s[i])
  }

  lemma StretchIn(t: Forest, a: seq<nat>, b: seq<nat>, c: seq<nat>, i: nat)
    requires Sound(t) && i < |b| && Stretch(t, b, i)
    ensures |a| + i < |a + b + c| && Stretch(t, a + b + c, |a| + i)
  {
    hide Sound, Pre;
    var s, n := a + b + c, |Pre(t, b[i])|;
    assert s[|a| + i] == b[i];
    assert s[|a| + i..|a| + i + n] == b[i..i + n];
  }

  lemma {:induction false} PreStretch(t: Forest, x: nat, i: nat)
    requires Sound(t) && x < |t.h| && i < |Pre(t, x)|
    ensures Stretch(t, Pre(t, x), i)
    decreases t.top - t.rank[x], |t.kids[x]| + 1
  {
    KidSound(t, x, 0);
    if i == 0 {
      assert Pre(t, x)[0..|Pre(t, x)|] == Pre(t, x);
    } else {
      var l := PreList(t, x, |t.kids[x]|);
      ListStretch(t, x, |t.kids[x]|, i - 1);
      StretchIn(t, [x], l, [], i - 1);
      assert Pre(t, x) == [x] + l + [];
    }
  }

  lemma {:induction false} ListStretch(t: Forest, x: nat, k: nat, i: nat)
    requires Sound(t) && x < |t.h| && k <= |t.kids[x]| && i < |PreList(t, x, k)|
    ensures Stretch(t, PreList(t, x, k), i)
    decreases t.top - t.rank[x], k
  {
    hide Sound, Stretch;
    KidSound(t, x, k - 1);
    var a, b := PreList(t, x, k - 1), Pre(t, t.kids[x][k - 1]);
    assert PreList(t, x, k) == a + b;
    if i < |a| {
      ListStretch(t, x, k - 1, i);
      StretchIn(t, [], a, b, i);
      assert [] + a + b == a + b;
    } else {
      PreStretch(t, t.kids[x][k - 1], i - |a|);
      StretchIn(t, a, b, [], i - |a|);
      assert a + b + [] == a + b;
    }
  }

  /** Longer lists extend shorter ones; child k begins where the first k children end. */
  lemma {:induction false} ListPrefix(t: Forest, x: nat, k: nat, m: nat)
    requires Sound(t) && x < |t.h| && k <= m <= |t.kids[x]|
    ensures PreList(t, x, k) <= PreList(t, x, m)
    decreases m - k
  {
    if k < m { ListPrefix(t, x, k, m - 1); }
  }

  lemma KidPlace(t: Forest, x: nat, k: nat)
    requires Sound(t) && x < |t.h| && k < |t.kids[x]|
    ensures t.kids[x][k] < |t.h| && |PreList(t, x, k + 1)| == |PreList(t, x, k)| + |Pre(t, t.kids[x][k])|
    ensures 1 + |PreList(t, x, k)| < 1 + |PreList(t, x, k + 1)| <= |Pre(t, x)| && Pre(t, x)[1 + |PreList(t, x, k)|] == t.kids[x][k]
  {
    KidSound(t, x, k);
    ListPrefix(t, x, k + 1, |t.kids[x]|);
    assert PreList(t, x, k + 1)[|PreList(t, x, k)|] == t.kids[x][k];
  }

  // ----- membership -----

  lemma {:induction false} PreUnder(t: Forest, x: nat, i: nat)
    requires Sound(t) && x < |t.h| && i < |Pre(t, x)|
    ensures Pre(t, x)[i] < |t.h| && Under(t.h, t.rank, Pre(t, x)[i], x)
    decreases t.top - t.rank[x], |t.kids[x]| + 1
  {
    KidSound(t, x, 0);
    if i > 0 { ListUnder(t, x, |t.kids[x]|, i - 1); }
  }

  lemma {:induction false} ListUnder(t: Forest, x: nat, k: nat, i: nat)
    requires Sound(t) && x < |t.h| && k <= |t.kids[x]| && i < |PreList(t, x, k)|
    ensures var n := PreList(t, x, k)[i]; n < |t.h| && Under(t.h, t.rank, n, x) && UnderKid(t, x, k, n)
    decreases t.top - t.rank[x], k
  {
    KidSound(t, x, k - 1);
    var a := PreList(t, x, k - 1);
    if i < |a| {
      ListUnder(t, x, k - 1, i);
    } else {
      var c := t.kids[x][k - 1];
      PreUnder(t, c, i - |a|);
      UnderParent(t, Pre(t, c)[i - |a|], c);
    }
  }

  /** n is under one of the first k children of x. */
  ghost predicate UnderKid(t: Forest, x: nat, k: nat, n: nat)
    requires Sound(t) && x < |t.h| && k <= |t.kids[x]| && n < |t.h|
  {
    exists j: nat :: j < k && Under(t.h, t.rank, n, t.kids[x][j])
  }

  lemma {:induction false} UnderParent(t: Forest, n: nat, c: nat)
    requires Sound(t) && n < |t.h| && c < |t.h| && Under(t.h, t.rank, n, c) && t.h[c].parent >= 0
    ensures Under(t.h, t.rank, n, t.h[c].parent)
    decreases t.rank[n]
  {
    if n != c { UnderParent(t, t.h[n].parent, c); }
  }

  lemma {:induction false} UnderRank(t: Forest, n: nat, a: nat)
    requires Sound(t) && n < |t.h| && a < |t.h| && Under(t.h, t.rank, n, a)
    ensures n == a || t.rank[a] < t.rank[n]
    decreases t.rank[n]
  {
    if n != a { UnderRank(t, t.h[n].parent, a); }
  }

  /** Under two children of one parent: they are the same child. */
  lemma {:induction false} UnderOneKid(t: Forest, n: nat, a: nat, b: nat)
    requires Sound(t) && n < |t.h| && a < |t.h| && b < |t.h| && t.h[a].parent == t.h[b].parent >= 0
    requires Under(t.h, t.rank, n, a) && Under(t.h, t.rank, n, b)
    ensures a == b
    decreases t.rank[n]
  {
    if a != b {
      if n == a {
        UnderRank(t, t.h[a].parent, b);
        UnderRank(t, a, b);
      } else if n == b {
        UnderRank(t, t.h[b].parent, a);
      } else {
        UnderOneKid(t, t.h[n].parent, a, b);
      }
    }
  }

  lemma {:induction false} PreDistinct(t: Forest, x: nat)
    requires Sound(t) && x < |t.h|
    ensures Distinct(Pre(t, x))
    decreases t.top - t.rank[x], |t.kids[x]| + 1
  {
    KidSound(t, x, 0);
    var l := PreList(t, x, |t.kids[x]|);
    ListDistinct(t, x, |t.kids[x]|);
    forall i: nat | i < |l| ensures l[i] != x {
      ListUnder(t, x, |t.kids[x]|, i);
      var j: nat :| j < |t.kids[x]| && Under(t.h, t.rank, l[i], t.kids[x][j]);
      KidSound(t, x, j);
      UnderRank(t, l[i], t.kids[x][j]);
    }
  }

  lemma {:induction false} ListDistinct(t: Forest, x: nat, k: nat)
    requires Sound(t) && x < |t.h| && k <= |t.kids[x]|
    ensures Distinct(PreList(t, x, k))
    decreases t.top - t.rank[x], k
  {
    if k > 0 {
      KidSound(t, x, k - 1);
      var a, c := PreList(t, x, k - 1), t.kids[x][k - 1];
      ListDistinct(t, x, k - 1);
      PreDistinct(t, c);
      forall i: nat, j: nat | i < |a| && j < |Pre(t, c)| ensures a[i] != Pre(t, c)[j] {
        ListUnder(t, x, k - 1, i);
        PreUnder(t, c, j);
        ApartKids(t, x, k, a[i], Pre(t, c)[j]);
      }
      DistinctConcat(a, Pre(t, c));
    }
  }

  lemma DistinctConcat(a: seq<nat>, b: seq<nat>)
    requires Distinct(a) && Distinct(b) && forall i: nat, j: nat :: i < |a| && j < |b| ==> a[i] != b[j]
    ensures Distinct(a + b)
  {}

  lemma ApartKids(t: Forest, x: nat, k: nat, m: nat, n: nat)
    requires Sound(t) && x < |t.h| && 0 < k <= |t.kids[x]| && m < |t.h| && n < |t.h| && UnderKid(t, x, k - 1, m)
    requires Under(t.h, t.rank, n, t.kids[x][k - 1])
    ensures m != n
  {
    var j: nat :| j < k - 1 && Under(t.h, t.rank, m, t.kids[x][j]);
    KidAt(t.h, t.kids, x, j);
    KidAt(t.h, t.kids, x, k - 1);
    if m == n { UnderOneKid(t, n, t.kids[x][j], t.kids[x][k - 1]); }
  }

  /** Everything under x is listed. */
  lemma {:induction false} UnderListed(t: Forest, x: nat, n: nat) returns (i: nat)
    requires Sound(t) && x < |t.h| && n < |t.h| && Under(t.h, t.rank, n, x)
    ensures i < |Pre(t, x)| && Pre(t, x)[i] == n
    decreases t.rank[n]
  {
    if n == x { return 0; }
    var p := UnderListed(t, x, t.h[n].parent);
    var k := KidIndex(t.h, t.kids, n);
    i := KidListed(t, x, p, k);
  }

  /** Where child k of the node listed at p is listed. */
  lemma KidListed(t: Forest, x: nat, p: nat, k: nat) returns (i: nat)
    requires Sound(t) && x < |t.h| && p < |Pre(t, x)| && Pre(t, x)[p] < |t.h| && k < |t.kids[Pre(t, x)[p]]|
    ensures var y := Pre(t, x)[p];
      && i == p + 1 + |PreList(t, y, k)| < |Pre(t, x)| && Pre(t, x)[i] == t.kids[y][k] && t.kids[y][k] < |t.h|
      && i + |Pre(t, t.kids[y][k])| == p + 1 + |PreList(t, y, k + 1)| <= p + |Pre(t, y)|
  {
    var y := Pre(t, x)[p];
    PreStretch(t, x, p);
    KidPlace(t, y, k);
    i := p + 1 + |PreList(t, y, k)|;
    assert Pre(t, x)[p..p + |Pre(t, y)|][i - p] == Pre(t, y)[i - p];
  }

  // ----- the numbering -----

  ghost function Pos(s: seq<nat>, n: nat): (i: nat)
    requires n in s
    ensures i < |s| && s[i] == n
  {
    var i :| 0 <= i < |s| && s[i] == n;
    i
  }

  ghost predicate AllBelow(t: Forest, s: seq<nat>) {
    forall i: nat :: i < |s| ==> s[i] < |t.h|
  }

  /** The links that a number needs stay inside the listing. */
  ghost predicate Closed(t: Forest, s: seq<nat>)
  {
    && AllBelow(t, s)
    && (forall i: nat :: i < |s| ==> t.h[s[i]].prev in s)
    && (forall i: nat :: 0 < i < |s| ==> t.h[s[i]].parent in s)
  }

  ghost function Number(t: Forest, s: seq<nat>): (d: Numbering)
    requires Sound(t) && Closed(t, s)
    ensures d.node == s && |d.end| == |d.up| == |d.prev| == |s|
  {
    Numbering(s, seq(|s|, i requires 0 <= i < |s| => i + |Pre(t, s[i])|),
              seq(|s|, i requires 0 <= i < |s| => if i == 0 then -1 else Pos(s, t.h[s[i]].parent)),
              seq(|s|, i requires 0 <= i < |s| => Pos(s, t.h[s[i]].prev)))
  }

  /** Where a node other than the root stands: behind the earlier children of its parent. */
  lemma UpPlace(t: Forest, x: nat, i: nat) returns (p: nat, k: nat)
    requires Sound(t) && x < |t.h| && 0 < i < |Pre(t, x)|
    ensures p < i && Pre(t, x)[p] < |t.h| && Pre(t, x)[i] < |t.h| && t.h[Pre(t, x)[i]].parent == Pre(t, x)[p]
    ensures k < |t.kids[Pre(t, x)[p]]| && t.kids[Pre(t, x)[p]][k] == Pre(t, x)[i]
    ensures i == p + 1 + |PreList(t, Pre(t, x)[p], k)|
  {
    var n := Pre(t, x)[i];
    PreUnder(t, x, i);
    PreDistinct(t, x);
    assert n != x;
    p := UnderListed(t, x, t.h[n].parent);
    k := KidIndex(t.h, t.kids, n);
    var j := KidListed(t, x, p, k);
    SameIndex(Pre(t, x), i, j);
  }

  lemma PreClosed(t: Forest, x: nat)
    requires Sound(t) && x < |t.h| && t.h[x].prev == x
    ensures Closed(t, Pre(t, x))
  {
    var s := Pre(t, x);
    forall i: nat | i < |s| ensures s[i] < |t.h| { PreUnder(t, x, i); }
    forall i: nat | i < |s| ensures t.h[s[i]].prev in s && (i > 0 ==> t.h[s[i]].parent in s) {
      if i > 0 {
        var p, k := UpPlace(t, x, i);
        var y := s[p];
        KidAt(t.h, t.kids, y, k);
        var j := KidListed(t, x, p, if k == 0 then |t.kids[y]| - 1 else k - 1);
      }
    }
  }

  /** What the numbering says of one number other than the root's. */
  ghost predicate Placed(t: Forest, d: Numbering, i: nat, k: nat)
    requires Sound(t) && 0 < i < |d.node| == |d.end| == |d.up| == |d.prev|
  {
    && 0 <= d.up[i] < i && d.node[d.up[i]] < |t.h| && d.node[i] < |t.h|
    && var y := d.node[d.up[i]];
    && k < |t.kids[y]| && t.kids[y][k] == d.node[i]
    && i == d.up[i] + 1 + |PreList(t, y, k)| && d.end[i] == d.up[i] + 1 + |PreList(t, y, k + 1)|
    && d.end[d.up[i]] == d.up[i] + |Pre(t, y)| == d.up[i] + 1 + |PreList(t, y, |t.kids[y]|)|
  }

  lemma PlaceOf(t: Forest, x: nat, i: nat) returns (k: nat)
    requires Sound(t) && x < |t.h| && Closed(t, Pre(t, x)) && 0 < i < |Pre(t, x)|
    ensures Placed(t, Number(t, Pre(t, x)), i, k)
  {
    var s, d := Pre(t, x), Number(t, Pre(t, x));
    var p, k' := UpPlace(t, x, i);
    k := k';
    PreDistinct(t, x);
    SameIndex(s, d.up[i], p);
    var j := KidListed(t, x, p, k);
    PreWhole(t, s[p]);
  }

  lemma PreWhole(t: Forest, y: nat)
    requires Sound(t) && y < |t.h|
    ensures |t.kids| == |t.h| && |Pre(t, y)| == 1 + |PreList(t, y, |t.kids[y]|)|
  {}

  lemma Bounds(t: Forest, x: nat, i: nat)
    requires Sound(t) && x < |t.h| && Closed(t, Pre(t, x)) && i < |Pre(t, x)|
    ensures i < Number(t, Pre(t, x)).end[i] <= |Pre(t, x)|
  {
    PreStretch(t, x, i);
  }

  /** A subtree that begins inside another ends inside it. */
  lemma StretchInside(t: Forest, s: seq<nat>, i: nat, j: nat)
    requires Sound(t) && i < |s| && Stretch(t, s, i) && i < j < i + |Pre(t, s[i])| && j < |s|
    ensures s[j] < |t.h| && j + |Pre(t, s[j])| <= i + |Pre(t, s[i])|
  {
    hide Sound, Pre;
    var y := s[i];
    assert s[i..i + |Pre(t, y)|][j - i] == s[j];
    PreStretch(t, y, j - i);
  }

  /** A subtree that begins among those of the first k children of s[p] ends there. */
  lemma StretchBetween(t: Forest, s: seq<nat>, p: nat, k: nat, j: nat)
    requires Sound(t) && p < |s| && Stretch(t, s, p) && k <= |t.kids[s[p]]| && p < j <= p + |PreList(t, s[p], k)| && j < |s|
    ensures s[j] < |t.h| && j + |Pre(t, s[j])| <= p + 1 + |PreList(t, s[p], k)|
  {
    var y := s[p];
    PreWhole(t, y);
    ListPrefix(t, y, k, |t.kids[y]|);
    var m := j - p - 1;
    PreTail(t, y, m);
    hide Sound, Pre, PreList;
    assert s[p..p + |Pre(t, y)|][j - p] == s[j];
    assert PreList(t, y, k)[m] == PreList(t, y, |t.kids[y]|)[m];
    ListStretch(t, y, k, m);
  }

  lemma PreTail(t: Forest, y: nat, m: nat)
    requires Sound(t) && y < |t.h| && m < |PreList(t, y, |t.kids[y]|)|
    ensures m + 1 < |Pre(t, y)| && Pre(t, y)[m + 1] == PreList(t, y, |t.kids[y]|)[m]
  {}

  lemma EndOf(t: Forest, s: seq<nat>, i: nat)
    requires Sound(t) && Closed(t, s) && i < |s|
    ensures s[i] < |t.h| && Number(t, s).end[i] == i + |Pre(t, s[i])|
  {}

  lemma UpOf(t: Forest, s: seq<nat>, i: nat)
    requires Sound(t) && Closed(t, s) && 0 < i < |s|
    ensures s[i] < |t.h| && 0 <= Number(t, s).up[i] < |s| && s[Number(t, s).up[i]] == t.h[s[i]].parent
  {}

  lemma PrevOfNumber(t: Forest, s: seq<nat>, i: nat)
    requires Sound(t) && Closed(t, s) && i < |s|
    ensures s[i] < |t.h| && Number(t, s).prev[i] < |s| && s[Number(t, s).prev[i]] == t.h[s[i]].prev
  {}

  lemma Inside(t: Forest, x: nat, i: nat, j: nat)
    requires Sound(t) && x < |t.h| && Closed(t, Pre(t, x)) && i < j < |Pre(t, x)|
    ensures var d := Number(t, Pre(t, x)); j < d.end[i] ==> d.end[j] <= d.end[i]
  {
    hide Sound, Pre, Closed, Stretch, Number;
    var s := Pre(t, x);
    EndOf(t, s, i);
    EndOf(t, s, j);
    PreStretch(t, x, i);
    if j < i + |Pre(t, s[i])| { StretchInside(t, s, i, j); }
  }

  lemma Between(t: Forest, x: nat, i: nat, j: nat)
    requires Sound(t) && x < |t.h| && Closed(t, Pre(t, x)) && 0 < i < |Pre(t, x)|
    ensures var d := Number(t, Pre(t, x)); d.up[i] < j < i ==> d.end[j] <= i
  {
    var k := PlaceOf(t, x, i);
    var s, d := Pre(t, x), Number(t, Pre(t, x));
    var p: nat := d.up[i];
    hide Sound, Pre, PreList, Closed, Stretch, Number;
    if p < j < i {
      EndOf(t, s, j);
      PreStretch(t, x, p);
      StretchBetween(t, s, p, k, j);
    }
  }

  lemma NumberNested(t: Forest, x: nat)
    requires Sound(t) && x < |t.h| && Closed(t, Pre(t, x))
    ensures Nested(Number(t, Pre(t, x)))
  {
    hide Sound, Closed, Pre, Placed;
    var n, d := |Pre(t, x)|, Number(t, Pre(t, x));
    forall i: nat | i < n ensures i < d.end[i] <= n { Bounds(t, x, i); }
    forall i: nat | 0 < i < n ensures 0 <= d.up[i] < i && d.end[i] <= d.end[d.up[i]] { UpEnds(t, x, i); }
    forall i: nat, j: nat | i < j < n && j < d.end[i] ensures d.end[j] <= d.end[i] { Inside(t, x, i, j); }
    forall i: nat, j: nat | 0 < i < n && d.up[i] < j < i ensures d.end[j] <= i { Between(t, x, i, j); }
    RootEnds(t, x);
  }

  lemma RootEnds(t: Forest, x: nat)
    requires Sound(t) && x < |t.h| && Closed(t, Pre(t, x))
    ensures Number(t, Pre(t, x)).end[0] == |Pre(t, x)| && Number(t, Pre(t, x)).up[0] == -1
  {}

  lemma UpEnds(t: Forest, x: nat, i: nat)
    requires Sound(t) && x < |t.h| && Closed(t, Pre(t, x)) && 0 < i < |Pre(t, x)|
    ensures var d := Number(t, Pre(t, x)); 0 <= d.up[i] < i && d.end[i] <= d.end[d.up[i]]
  {
    hide Placed, Number, Pre, Closed, Sound, PreList;
    var k := PlaceOf(t, x, i);
    PlacedEnds(t, Number(t, Pre(t, x)), i, k);
  }

  lemma PlacedEnds(t: Forest, d: Numbering, i: nat, k: nat)
    requires Sound(t) && 0 < i < |d.node| == |d.end| == |d.up| == |d.prev| && Placed(t, d, i, k)
    ensures 0 <= d.up[i] < i && d.end[i] <= d.end[d.up[i]]
    ensures d.end[i] == d.end[d.up[i]] <==> k + 1 == |t.kids[d.node[d.up[i]]]|
    ensures i == d.up[i] + 1 <==> k == 0
  {
    var y := d.node[d.up[i]];
    ListPrefix(t, y, k + 1, |t.kids[y]|);
    if k + 1 < |t.kids[y]| {
      ListGrows(t, y, k + 1);
      ListPrefix(t, y, k + 2, |t.kids[y]|);
    }
    if k > 0 {
      ListGrows(t, y, k - 1);
    }
  }

  lemma ListGrows(t: Forest, y: nat, k: nat)
    requires Sound(t) && y < |t.h| && k < |t.kids[y]|
    ensures |PreList(t, y, k)| < |PreList(t, y, k + 1)|
  {
    KidPlace(t, y, k);
  }

  // ----- the links -----

  /** The root's links. */
  lemma RootLinks(t: Forest, x: nat)
    requires Sound(t) && x < |t.h| && t.h[x].parent == NULL && t.h[x].prev == x
    requires Closed(t, Pre(t, x)) && Nested(Number(t, Pre(t, x)))
    ensures NodeLinks(t.h, Number(t, Pre(t, x)), 0)
  {
    var s, d := Pre(t, x), Number(t, Pre(t, x));
    PreDistinct(t, x);
    SameIndex(s, d.prev[0], 0);
    ListOf(t.h, t.kids, x);
    FirstKid(t, x, 0);
    hide Sound, Pre, Closed, ListLinks, Nested;
  }

  /** A node with children has its first child right behind it. */
  lemma FirstKid(t: Forest, x: nat, i: nat)
    requires Sound(t) && x < |t.h| && Closed(t, Pre(t, x)) && i < |Pre(t, x)|
    ensures var d := Number(t, Pre(t, x));
      && d.node[i] < |t.h| && i < d.end[i] <= |d.node|
      && t.h[d.node[i]].firstChild == (if i + 1 < d.end[i] then d.node[i + 1] else NULL)
  {
    var s := Pre(t, x);
    EndOf(t, s, i);
    Bounds(t, x, i);
    var y := s[i];
    ListOf(t.h, t.kids, y);
    if |t.kids[y]| > 0 {
      var j := KidListed(t, x, i, 0);
      KidPlace(t, y, 0);
    }
  }

  /** A sibling's number, and where its subtree ends. */
  lemma SiblingAt(t: Forest, x: nat, i: nat, k: nat, m: nat) returns (j: nat)
    requires Sound(t) && x < |t.h| && Closed(t, Pre(t, x)) && 0 < i < |Pre(t, x)| && Placed(t, Number(t, Pre(t, x)), i, k)
    requires m < |t.kids[Number(t, Pre(t, x)).node[Number(t, Pre(t, x)).up[i]]]|
    ensures var d := Number(t, Pre(t, x)); var y := d.node[d.up[i]];
      && d.up[i] < j < |d.node| && d.node[j] == t.kids[y][m]
      && j == d.up[i] + 1 + |PreList(t, y, m)| && d.end[j] == d.up[i] + 1 + |PreList(t, y, m + 1)| && d.up[j] == d.up[i]
  {
    hide Number, Pre, PreList, Closed, Sound;
    var s, d := Pre(t, x), Number(t, Pre(t, x));
    var p: nat := d.up[i];
    j := KidListed(t, x, p, m);
    KidOf(t, s[p], m);
    EndOf(t, s, j);
    UpOf(t, s, j);
    PreDistinct(t, x);
    SameIndex(s, d.up[j], p);
  }

  lemma KidOf(t: Forest, y: nat, k: nat)
    requires Sound(t) && y < |t.h| && k < |t.kids[y]|
    ensures |t.kids| == |t.h|
    ensures var c := t.kids[y][k];
            c < |t.h| && t.h[c].parent == y && t.h[c].next == NextOf(t.kids[y], k) && t.h[c].prev == PrevOf(t.kids[y], k)
  {
    KidAt(t.h, t.kids, y, k);
  }

  lemma NextLink(t: Forest, x: nat, i: nat)
    requires Sound(t) && x < |t.h| && Closed(t, Pre(t, x)) && 0 < i < |Pre(t, x)|
    ensures var d := Number(t, Pre(t, x));
      && 0 <= d.up[i] < i < d.end[i] <= d.end[d.up[i]] <= |d.node| && d.node[i] < |t.h|
      && t.h[d.node[i]].parent == d.node[d.up[i]]
      && t.h[d.node[i]].next == (if d.end[i] < d.end[d.up[i]] then d.node[d.end[i]] else NULL)
  {
    hide Number, Pre, PreList, Closed, Sound;
    var s, d := Pre(t, x), Number(t, Pre(t, x));
    var k := PlaceOf(t, x, i);
    var y := d.node[d.up[i]];
    PlacedEnds(t, d, i, k);
    KidOf(t, y, k);
    Bounds(t, x, i);
    Bounds(t, x, d.up[i]);
    if k + 1 < |t.kids[y]| { var j := SiblingAt(t, x, i, k, k + 1); }
  }

  lemma PrevLink(t: Forest, x: nat, i: nat)
    requires Sound(t) && x < |t.h| && Closed(t, Pre(t, x)) && 0 < i < |Pre(t, x)| && Nested(Number(t, Pre(t, x)))
    ensures var d := Number(t, Pre(t, x));
      && d.prev[i] < |d.node| && d.node[i] < |t.h| && t.h[d.node[i]].prev == d.node[d.prev[i]] && 0 <= d.up[i]
      && (if i == d.up[i] + 1 then LastChild(d, d.up[i], d.prev[i])
          else d.up[i] < d.prev[i] < i && d.up[d.prev[i]] == d.up[i] && d.end[d.prev[i]] == i)
  {
    hide Number, Pre, PreList, Closed, Sound, Nested;
    var s, d := Pre(t, x), Number(t, Pre(t, x));
    var k := PlaceOf(t, x, i);
    var y := d.node[d.up[i]];
    PlacedEnds(t, d, i, k);
    KidOf(t, y, k);
    PreDistinct(t, x);
    var m: nat := if k == 0 then |t.kids[y]| - 1 else k - 1;
    var j := SiblingAt(t, x, i, k, m);
    PrevOfNumber(t, s, i);
    SameIndex(s, d.prev[i], j);
    Bounds(t, x, j);
  }

  lemma LinksHold(t: Forest, x: nat, i: nat)
    requires Sound(t) && x < |t.h| && t.h[x].parent == NULL && t.h[x].prev == x && Closed(t, Pre(t, x))
    requires i < |Pre(t, x)| && Nested(Number(t, Pre(t, x)))
    ensures NodeLinks(t.h, Number(t, Pre(t, x)), i)
  {
    hide Sound, Pre, Closed, Number, Nested;
    if i == 0 {
      RootLinks(t, x);
    } else {
      FirstKid(t, x, i);
      NextLink(t, x, i);
      PrevLink(t, x, i);
    }
  }

  /** The preorder listing of what is under x, numbered, is a numbering in the sense that comparison and axes need. */
  lemma PreorderNumbers(t: Forest, x: nat) returns (d: Numbering)
    requires Sound(t) && x < |t.h| && t.h[x].parent == NULL && t.h[x].prev == x
    ensures Numbered(t.h, d) && d.node == Pre(t, x)
  {
    PreClosed(t, x);
    NumberNested(t, x);
    PreDistinct(t, x);
    d := Number(t, Pre(t, x));
    hide Sound, Nested, Closed, NodeLinks, Number, Distinct;
    forall i: nat | i < |d.node| ensures NodeLinks(t.h, d, i) { LinksHold(t, x, i); }
  }

  lemma {:induction false} CapExists(rank: seq<nat>) returns (top: nat)
    ensures forall i :: 0 <= i < |rank| ==> rank[i] < top
  {
    if rank == [] { return 0; }
    var cap := CapExists(rank[..|rank| - 1]);
    top := if rank[|rank| - 1] < cap then cap else rank[|rank| - 1] + 1;
    assert forall i :: 0 <= i < |rank| - 1 ==> rank[i] == rank[..|rank| - 1][i];
  }

  /** Every document, however it was built, has a numbering, and that numbers exactly the nodes under its root. */
  lemma DocumentIsNumbered(h: Heap, kids: seq<seq<nat>>, rank: seq<nat>, root: nat) returns (d: Numbering)
    requires Linked(h, kids) && Ranked(h, rank) && root < |h| && h[root].parent == NULL && h[root].prev == root
    ensures Numbered(h, d) && d.node[0] == root
    ensures forall n: nat :: n < |h| ==> (n in d.node <==> Under(h, rank, n, root))
    ensures forall n :: n in d.node ==> n < |h|
  {
    var top := CapExists(rank);
    var t := Forest(h, kids, rank, top);
    d := PreorderNumbers(t, root);
    forall n: nat | n < |h| ensures n in d.node <==> Under(h, rank, n, root) { ListedExactly(t, root, n); }
    forall i: nat | i < |d.node| ensures d.node[i] < |h| { PreUnder(t, root, i); }
  }

  lemma ListedExactly(t: Forest, x: nat, n: nat)
    requires Sound(t) && x < |t.h| && n < |t.h|
    ensures n in Pre(t, x) <==> Under(t.h, t.rank, n, x)
  {
    if n in Pre(t, x) { PreUnder(t, x, Pos(Pre(t, x), n)); }
    if Under(t.h, t.rank, n, x) { var i := UnderListed(t, x, n); }
  }
}
