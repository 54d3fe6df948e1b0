/** Document order: the nodes of a linked document numbered in preorder, and the comparison that walks pointers. */
module DocumentOrder {
  import opened Wrappers
  import opened DomTree

  /** node lists the document in preorder; the subtree of number i is i..end[i]; up[i] is the number of its parent,
      prev[i] that of the node its prev link leads to. */
  datatype Numbering = Numbering(node: seq<nat>, end: seq<nat>, up: seq<int>, prev: seq<nat>)

  /** Subtrees are nested intervals, and up is the innermost interval around. */
  ghost predicate Nested(d: Numbering) {
    && |d.node| == |d.end| == |d.up| == |d.prev| && |d.node| > 0
    && d.end[0] == |d.node| && d.up[0] == -1
    && (forall i :: 0 <= i < |d.node| ==> i < d.end[i] <= |d.node|)
    && (forall i :: 0 < i < |d.node| ==> 0 <= d.up[i] < i && d.end[i] <= d.end[d.up[i]])
    && (forall i, j :: 0 <= i < j < |d.node| && j < d.end[i] ==> d.end[j] <= d.end[i])
    && (forall i, j :: 0 < i < |d.node| && d.up[i] < j < i ==> d.end[j] <= i)
  }

  ghost predicate LastChild(d: Numbering, p: nat, c: nat)
    requires Nested(d) && p < |d.node|
  {
    p < c < |d.node| && d.up[c] == p && d.end[c] == d.end[p]
  }

  /** The links of the node with number i. */
  ghost predicate NodeLinks(h: Heap, d: Numbering, i: nat)
    requires Nested(d) && i < |d.node|
  {
    && d.node[i] < |h|
    && h[d.node[i]].parent == (if i == 0 then NULL else d.node[d.up[i]])
    && h[d.node[i]].firstChild == (if i + 1 < d.end[i] then d.node[i + 1] else NULL)
    && h[d.node[i]].next == (if i > 0 && d.end[i] < d.end[d.up[i]] then d.node[d.end[i]] else NULL)
    && d.prev[i] < |d.node| && h[d.node[i]].prev == d.node[d.prev[i]]
    && (if i == 0 then d.prev[i] == 0
        else if i == d.up[i] + 1 then LastChild(d, d.up[i], d.prev[i])
        else d.up[i] < d.prev[i] < i && d.up[d.prev[i]] == d.up[i] && d.end[d.prev[i]] == i)
  }

  ghost predicate Numbered(h: Heap, d: Numbering) {
    && Nested(d) && Distinct(d.node) && (forall i: nat :: i < |d.node| ==> NodeLinks(h, d, i))
  }

  lemma LinksAt(h: Heap, d: Numbering, i: nat)
    requires Numbered(h, d) && i < |d.node|
    ensures NodeLinks(h, d, i) && i < d.end[i] <= |d.node|
    ensures i > 0 ==> 0 <= d.up[i] < i < d.end[i] <= d.end[d.up[i]] <= |d.node|
  {}

  lemma SameNode(h: Heap, d: Numbering, i: nat, j: nat)
    requires Numbered(h, d) && i < |d.node| && j < |d.node|
    ensures d.node[i] == d.node[j] <==> i == j
  {}

  /** j is a proper ancestor of i. */
  ghost predicate Above(d: Numbering, j: nat, i: nat)
    requires Nested(d) && i < |d.node| && j < |d.node|
  {
    j < i < d.end[j]
  }

  /** The next sibling has the same parent. */
  lemma NextSibling(d: Numbering, i: nat)
    requires Nested(d) && 0 < i < |d.node| && d.end[i] < d.end[d.up[i]]
    ensures d.end[i] < |d.node| && d.up[d.end[i]] == d.up[i] && d.end[d.end[i]] <= d.end[d.up[i]]
  {
    var j, k := d.end[i], d.up[d.end[i]];
    assert d.end[j] <= d.end[k];
    BetweenEnds(d, j, d.up[i]);
    BetweenEnds(d, i, k);
    InsideEnds(d, i, k);
  }

  lemma InsideEnds(d: Numbering, i: nat, j: nat)
    requires Nested(d) && i < |d.node| && j < |d.node|
    ensures i < j < d.end[i] ==> d.end[j] <= d.end[i]
  {}

  lemma BetweenEnds(d: Numbering, i: nat, j: nat)
    requires Nested(d) && 0 < i < |d.node| && j < |d.node|
    ensures d.up[i] < j < i ==> d.end[j] <= i
  {}

  /** Ancestors of i are its parent and the ancestors of that. */
  lemma AboveParent(d: Numbering, j: nat, i: nat)
    requires Nested(d) && 0 < i < |d.node| && j < |d.node|
    ensures Above(d, j, i) <==> j == d.up[i] || Above(d, j, d.up[i])
  {
    InsideEnds(d, j, d.up[i]);
    BetweenEnds(d, i, j);
  }

  // ----- comparison -----

  /** ln and rn are children of one parent; follows both sibling chains. */
  method IsBeforeSibling(h: Heap, l: nat, r: nat, ghost d: Numbering, ghost i: nat, ghost j: nat) returns (before: bool)
    requires Numbered(h, d) && i < |d.node| && j < |d.node| && d.node[i] == l && d.node[j] == r && i > 0 && j > 0
    requires d.up[i] == d.up[j] && i != j
    ensures before <==> i < j
  {
    var ls: int, rs: int := l, r;
    ghost var x, y := i, j;
    SiblingApart(d, i, j);
    while true
      invariant i <= x < |d.node| && j <= y < |d.node| && ls == d.node[x] && rs == d.node[y]
      invariant d.up[x] == d.up[y] == d.up[i] && (i < j ==> x <= j) && (j < i ==> y <= i)
      decreases 2 * |d.node| - x - y
    {
      LinksAt(h, d, x);
      LinksAt(h, d, y);
      SameNode(h, d, x, j);
      SameNode(h, d, y, i);
      if ls == r { return true; }
      if rs == l { return false; }
      ghost var x', y' := d.end[x], d.end[y];
      if x' < d.end[d.up[x]] { NextSibling(d, x); }
      if y' < d.end[d.up[y]] { NextSibling(d, y); }
      if i < j { SiblingApart(d, x, j); LinksAt(h, d, j); }
      if j < i { SiblingApart(d, y, i); LinksAt(h, d, i); }
      ls, rs := h[ls].next, h[rs].next;
      if !(ls >= 0 && rs >= 0) {
        return rs < 0;
      }
      x, y := x', y';
    }
  }

  /** Of two siblings, the first ends before the second begins. */
  lemma SiblingApart(d: Numbering, i: nat, j: nat)
    requires Nested(d) && 0 < i < |d.node| && 0 < j < |d.node| && d.up[i] == d.up[j]
    ensures i < j ==> d.end[i] <= j
    ensures j < i ==> d.end[j] <= i
  {}

  ghost function Depth(d: Numbering, i: nat): nat
    requires Nested(d) && i < |d.node|
  {
    if i == 0 then 0 else 1 + Depth(d, d.up[i])
  }

  /** i lies in the subtree of x. */
  ghost predicate In(d: Numbering, x: nat, i: nat)
    requires Nested(d) && x < |d.node|
  {
    x <= i < d.end[x]
  }

  lemma ClimbIn(d: Numbering, x: nat, i: nat)
    requires Nested(d) && 0 < x < |d.node| && In(d, x, i)
    ensures In(d, d.up[x], i) && Depth(d, x) == Depth(d, d.up[x]) + 1
  {}

  /** Nodes in subtrees of different siblings are ordered as the siblings are. */
  lemma SiblingsDecide(d: Numbering, x: nat, y: nat, i: nat, j: nat)
    requires Nested(d) && 0 < x < |d.node| && 0 < y < |d.node| && d.up[x] == d.up[y] && x != y && In(d, x, i) && In(d, y, j)
    ensures x < y <==> i < j
  {
    SiblingApart(d, x, y);
  }

  /** Different nodes at one depth: goes up to the children of the lowest common ancestor and compares those. */
  method IsBeforeSameDepth(h: Heap, l: nat, r: nat, ghost d: Numbering, ghost x0: nat, ghost y0: nat, ghost i: nat, ghost j: nat)
    returns (before: bool)
    requires Numbered(h, d) && x0 < |d.node| && y0 < |d.node| && l == d.node[x0] && r == d.node[y0] && x0 != y0
    requires Depth(d, x0) == Depth(d, y0) && In(d, x0, i) && In(d, y0, j)
    ensures before <==> i < j
  {
    hide Numbered, Nested;
    var ln: int, rn: int := l, r;
    ghost var x: nat, y: nat := x0, y0;
    Positions(h, d);
    while true
      invariant x < |d.node| && y < |d.node| && ln == d.node[x] && rn == d.node[y] && x != y
      invariant Depth(d, x) == Depth(d, y) && In(d, x, i) && In(d, y, j)
      decreases Depth(d, x)
    {
      LinksAt(h, d, x);
      LinksAt(h, d, y);
      assert x > 0 && y > 0;
      ClimbIn(d, x, i);
      ClimbIn(d, y, j);
      SameNode(h, d, d.up[x], d.up[y]);
      if h[ln].parent == h[rn].parent {
        SiblingsDecide(d, x, y, i, j);
        before := IsBeforeSibling(h, ln, rn, d, x, y);
        return;
      }
      ln, rn := h[ln].parent, h[rn].parent;
      x, y := d.up[x], d.up[y];
    }
  }

  lemma Positions(h: Heap, d: Numbering)
    requires Numbered(h, d)
    ensures Nested(d)
  {}

  /** The node at number x, or null for -1. */
  ghost function At(d: Numbering, x: int): int
    requires x < |d.node|
  {
    if x < 0 then NULL else d.node[x]
  }

  ghost function Height(d: Numbering, x: int): int
    requires Nested(d) && x < |d.node|
  {
    if x < 0 then -1 else Depth(d, x)
  }

  ghost predicate InAt(d: Numbering, x: int, i: nat)
    requires Nested(d) && x < |d.node|
  {
    x >= 0 ==> In(d, x, i)
  }

  /** One step up, from a node to its parent or to null. */
  lemma StepUp(h: Heap, d: Numbering, x: nat, i: nat)
    requires Numbered(h, d) && x < |d.node| && In(d, x, i)
    ensures d.node[x] < |h| && -1 <= d.up[x] < x && (x > 0 ==> d.up[x] >= 0)
    ensures h[d.node[x]].parent == At(d, d.up[x]) && InAt(d, d.up[x], i) && Height(d, d.up[x]) == Depth(d, x) - 1
  {
    LinksAt(h, d, x);
  }

  lemma SameAt(h: Heap, d: Numbering, x: int, y: int)
    requires Numbered(h, d) && -1 <= x < |d.node| && -1 <= y < |d.node|
    ensures At(d, x) == At(d, y) <==> x == y
  {}

  /** lp and rp, at numbers x and y, are equally many levels above i and j. */
  ghost predicate Climbed(h: Heap, d: Numbering, i: nat, j: nat, lp: int, rp: int, x: int, y: int)
    requires Nested(d) && i < |d.node| && j < |d.node|
  {
    && -1 <= x < |d.node| && -1 <= y < |d.node| && x != y && lp == At(d, x) < |h| && rp == At(d, y) < |h|
    && (lp < 0 <==> x < 0) && (rp < 0 <==> y < 0)
    && Depth(d, i) - Height(d, x) == Depth(d, j) - Height(d, y) && InAt(d, x, i) && InAt(d, y, j)
  }

  lemma ClimbBegins(h: Heap, d: Numbering, i: nat, j: nat)
    requires Numbered(h, d) && i < |d.node| && j < |d.node| && i != j
    ensures Climbed(h, d, i, j, d.node[i], d.node[j], i, j)
  {
    LinksAt(h, d, i);
    LinksAt(h, d, j);
  }

  lemma ClimbGoesOn(h: Heap, d: Numbering, i: nat, j: nat, lp: int, rp: int, x: int, y: int)
    requires Numbered(h, d) && i < |d.node| && j < |d.node| && Climbed(h, d, i, j, lp, rp, x, y)
    requires lp >= 0 && rp >= 0 && h[lp].parent != h[rp].parent
    ensures 0 <= x < |d.up| && 0 <= y < |d.up| && d.up[x] < x && Climbed(h, d, i, j, h[lp].parent, h[rp].parent, d.up[x], d.up[y])
  {
    hide Numbered, Nested, In, Depth;
    Positions(h, d);
    StepUp(h, d, x, i);
    StepUp(h, d, y, j);
    SameAt(h, d, d.up[x], d.up[y]);
    if d.up[x] >= 0 { LinksAt(h, d, d.up[x]); }
    if d.up[y] >= 0 { LinksAt(h, d, d.up[y]); }
    SameLength(d);
  }

  lemma SameLength(d: Numbering)
    requires Nested(d)
    ensures |d.node| == |d.end| == |d.up| == |d.prev|
  {}

  /** Goes up from both nodes in step, until the parents are the same or one side has run out. */
  method ClimbTogether(h: Heap, l: nat, r: nat, ghost d: Numbering, ghost i: nat, ghost j: nat)
    returns (lp: int, rp: int, ghost x: int, ghost y: int)
    requires Numbered(h, d) && i < |d.node| && j < |d.node| && l == d.node[i] && r == d.node[j] && i != j
    ensures Nested(d) && Climbed(h, d, i, j, lp, rp, x, y)
    ensures lp >= 0 && rp >= 0 ==> lp < |h| && rp < |h| && h[lp].parent == h[rp].parent
  {
    hide Numbered, Nested, Climbed;
    lp, rp, x, y := l, r, i, j;
    Positions(h, d);
    ClimbBegins(h, d, i, j);
    ClimbedInHeap(h, d, i, j, lp, rp, x, y);
    while lp >= 0 && rp >= 0 && h[lp].parent != h[rp].parent
      invariant Climbed(h, d, i, j, lp, rp, x, y) && lp < |h| && rp < |h| && x >= -1
      decreases x
    {
      ClimbGoesOn(h, d, i, j, lp, rp, x, y);
      lp, rp := h[lp].parent, h[rp].parent;
      x, y := d.up[x], d.up[y];
      ClimbedInHeap(h, d, i, j, lp, rp, x, y);
    }
  }

  lemma ClimbedInHeap(h: Heap, d: Numbering, i: nat, j: nat, lp: int, rp: int, x: int, y: int)
    requires Nested(d) && i < |d.node| && j < |d.node| && Climbed(h, d, i, j, lp, rp, x, y)
    ensures lp < |h| && rp < |h| && x >= -1
  {}

  /** For different nodes, the pointer walks decide exactly document order. */
  method NodeIsBefore(h: Heap, l: nat, r: nat, ghost d: Numbering, ghost i: nat, ghost j: nat) returns (before: bool)
    requires Numbered(h, d) && i < |d.node| && j < |d.node| && l == d.node[i] && r == d.node[j] && i != j
    ensures before <==> i < j
  {
    hide Numbered, Nested, In, Depth;
    Positions(h, d);
    var lp, rp, x, y := ClimbTogether(h, l, r, d, i, j);
    Start(d, i);
    Start(d, j);
    if lp >= 0 && rp >= 0 {
      StepUp(h, d, x, i);
      StepUp(h, d, y, j);
      SameAt(h, d, d.up[x], d.up[y]);
      OneRoot(d, x, y);
      SiblingsDecide(d, x, y, i, j);
      before := IsBeforeSibling(h, lp, rp, d, x, y);
      return;
    }
    before := CompareUneven(h, l, r, lp, rp, d, i, j, x, y);
  }

  /** The nodes are at different depths: lifts the deeper one, then compares. */
  method CompareUneven(h: Heap, l: nat, r: nat, lp: int, rp: int, ghost d: Numbering, ghost i: nat, ghost j: nat, ghost x: int, ghost y: int)
    returns (before: bool)
    requires Numbered(h, d) && i < |d.node| && j < |d.node| && l == d.node[i] && r == d.node[j] && i != j
    requires Nested(d) && Climbed(h, d, i, j, lp, rp, x, y) && (lp < 0 || rp < 0)
    ensures before <==> i < j
  {
    hide Numbered, Nested, In, Depth;
    Positions(h, d);
    Start(d, i);
    Start(d, j);
    var leftHigher := lp < 0;
    var ln, i' := Lift(h, l, lp, d, i, x, i);
    var rn, j' := Lift(h, r, rp, d, j, y, j);
    SameNode(h, d, i', j');
    if ln == rn {
      SharedAncestor(d, i, j, x, y, i');
      return leftHigher;
    }
    before := IsBeforeSameDepth(h, ln, rn, d, i', j', i, j);
  }

  lemma Start(d: Numbering, i: nat)
    requires Nested(d) && i < |d.node|
    ensures In(d, i, i)
  {}

  lemma OneRoot(d: Numbering, x: nat, y: nat)
    requires Nested(d) && x < |d.node| && y < |d.node| && x != y && d.up[x] == d.up[y]
    ensures x > 0 && y > 0
  {}

  /** Moves up from n by as many levels as p lies below null. */
  method Lift(h: Heap, n0: nat, p0: int, ghost d: Numbering, ghost i0: nat, ghost x0: int, ghost i: nat) returns (n: int, ghost k: nat)
    requires Numbered(h, d) && i0 < |d.node| && n0 == d.node[i0] && -1 <= x0 < |d.node| && p0 == At(d, x0)
    requires In(d, i0, i) && (x0 >= 0 ==> Depth(d, x0) < Depth(d, i0))
    ensures k < |d.node| && n == d.node[k] < |h| && In(d, k, i) && Depth(d, k) == Depth(d, i0) - Height(d, x0) - 1
  {
    hide Numbered, Nested, In, Depth;
    n, k := n0, i0;
    var p := p0;
    ghost var x := x0;
    Positions(h, d);
    LinksAt(h, d, i0);
    if x0 >= 0 { LinksAt(h, d, x0); }
    while p >= 0
      invariant -1 <= x < |d.node| && p == At(d, x) < |h| && k < |d.node| && n == d.node[k] < |h| && In(d, k, i)
      invariant Depth(d, k) - Height(d, x) == Depth(d, i0) - Height(d, x0) && (x >= 0 ==> Depth(d, x) < Depth(d, k))
      decreases x
    {
      Start(d, x);
      StepUp(h, d, x, x);
      StepUp(h, d, k, i);
      DepthRoot(d, k);
      p := h[p].parent;
      n := h[n].parent;
      x, k := d.up[x], d.up[k];
      LinksAt(h, d, k);
      if x >= 0 { LinksAt(h, d, x); }
    }
  }

  lemma DepthRoot(d: Numbering, k: nat)
    requires Nested(d) && k < |d.node| && Depth(d, k) > 0
    ensures k > 0
  {}

  /** When lifting meets, the node that was not lifted is the ancestor, and comes first. */
  lemma SharedAncestor(d: Numbering, i: nat, j: nat, x: int, y: int, k: nat)
    requires Nested(d) && i < |d.node| && j < |d.node| && k < |d.node| && i != j && In(d, k, i) && In(d, k, j)
    requires -1 <= x < |d.node| && -1 <= y < |d.node| && (x < 0 || y < 0) && x != y
    requires Depth(d, k) == Depth(d, i) - Height(d, x) - 1 && Depth(d, k) == Depth(d, j) - Height(d, y) - 1
    ensures i < j <==> x < 0
  {
    if x < 0 { SameDepthSame(d, k, i); }
    if y < 0 { SameDepthSame(d, k, j); }
  }

  /** A node in a subtree lies deeper than its root. */
  lemma {:induction false} SameDepthSame(d: Numbering, k: nat, i: nat)
    requires Nested(d) && k < |d.node| && i < |d.node| && In(d, k, i)
    ensures Depth(d, i) >= Depth(d, k) && (Depth(d, i) == Depth(d, k) ==> i == k)
    decreases i
  {
    if k < i {
      AboveParent(d, k, i);
      SameDepthSame(d, k, d.up[i]);
    }
  }
}
