/** Document nodes linked by pointers: sibling lists whose prev links are cyclic and whose next links end in null.
    The heap is a sequence of node records; a pointer is an index into it, and -1 is null. */
module DomTree {
  import opened Wrappers

  datatype Kind = NullNode | DocumentNode | ElementNode | PcdataNode | CdataNode | CommentNode | PiNode | DeclarationNode | DoctypeNode

  /** content stands for name, value and attributes. */
  datatype Node = Node(kind: Kind, content: string, parent: int, firstChild: int, prev: int, next: int)

  const NULL: int := -1

  type Heap = seq<Node>

  // ----- the child lists -----

  ghost function First(s: seq<nat>): int {
    if s == [] then NULL else s[0]
  }

  ghost function NextOf(s: seq<nat>, i: nat): int
    requires i < |s|
  {
    if i + 1 < |s| then s[i + 1] else NULL
  }

  /** prev of the first child is the last. */
  ghost function PrevOf(s: seq<nat>, i: nat): int
    requires i < |s|
  {
    if i == 0 then s[|s| - 1] else s[i - 1]
  }

  /** s is the list of children of p. */
  ghost predicate ListLinks(h: Heap, p: nat, s: seq<nat>) {
    p < |h| && h[p].firstChild == First(s) && Distinct(s) && forall i :: 0 <= i < |s| ==> KidLinks(h, p, s, i)
  }

  ghost predicate KidLinks(h: Heap, p: nat, s: seq<nat>, i: nat)
    requires i < |s|
  {
    s[i] < |h| && s[i] != p && h[s[i]].parent == p && h[s[i]].next == NextOf(s, i) && h[s[i]].prev == PrevOf(s, i)
  }

  ghost predicate ParentLinks(h: Heap, kids: seq<seq<nat>>, n: nat)
    requires n < |h| == |kids|
  {
    if h[n].parent == NULL then h[n].next == NULL else 0 <= h[n].parent < |h| && n in kids[h[n].parent]
  }

  /** The children of every node are linked; a node has a parent exactly when it is in its list, and without
      a parent it has no next sibling. */
  ghost predicate Linked(h: Heap, kids: seq<seq<nat>>) {
    && |kids| == |h|
    && (forall p: nat :: p < |h| ==> ListLinks(h, p, kids[p]))
    && (forall n: nat :: n < |h| ==> ParentLinks(h, kids, n))
  }

  ghost predicate Detached(h: Heap, n: nat) {
    n < |h| && h[n].parent == NULL
  }

  lemma KidParent(h: Heap, kids: seq<seq<nat>>, p: nat, c: nat)
    requires Linked(h, kids) && p < |h| && c in kids[p]
    ensures c < |h| && c != p && h[c].parent == p
  {
    assert ListLinks(h, p, kids[p]);
    var i :| 0 <= i < |kids[p]| && kids[p][i] == c;
    assert KidLinks(h, p, kids[p], i);
  }

  lemma KidAt(h: Heap, kids: seq<seq<nat>>, p: nat, i: nat)
    requires Linked(h, kids) && p < |h| && i < |kids[p]|
    ensures var c := kids[p][i];
            && c < |h| && c != p && h[c].parent == p && h[c].next == NextOf(kids[p], i) && h[c].prev == PrevOf(kids[p], i)
    ensures Distinct(kids[p]) && h[p].firstChild == First(kids[p])
  {
    assert ListLinks(h, p, kids[p]);
    assert KidLinks(h, p, kids[p], i);
  }

  lemma KidIndex(h: Heap, kids: seq<seq<nat>>, n: nat) returns (i: nat)
    requires Linked(h, kids) && n < |h| && h[n].parent != NULL
    ensures 0 <= h[n].parent < |h| && i < |kids[h[n].parent]| && kids[h[n].parent][i] == n
  {
    assert ParentLinks(h, kids, n);
    i :| 0 <= i < |kids[h[n].parent]| && kids[h[n].parent][i] == n;
  }

  /** h' differs from h only in p's first child and in the sibling and parent links of p's children, old or new. */
  ghost predicate OnlyList(h: Heap, h': Heap, p: nat, s: seq<nat>, t: seq<nat>) {
    && |h'| == |h| && p < |h|
    && (forall x: nat :: x < |h| && x != p && x !in s && x !in t ==> h'[x] == h[x])
    && (forall x: nat :: x < |h| && x != p ==> h'[x].firstChild == h[x].firstChild)
    && h'[p] == h[p].(firstChild := h'[p].firstChild)
    && (forall x: nat :: x < |h| ==> h'[x].kind == h[x].kind && h'[x].content == h[x].content)
  }

  /** t is s with child put in or taken out. */
  ghost predicate Edits(h: Heap, h': Heap, s: seq<nat>, t: seq<nat>, child: nat) {
    && child < |h| == |h'|
    && (forall x :: x != child ==> (x in t <==> x in s))
    && (if child in t then child !in s && h[child].parent == NULL
        else child in s && h'[child].parent == NULL && h'[child].next == NULL)
  }

  /** Relinking one list keeps all the others. */
  lemma Relinked(h: Heap, h': Heap, kids: seq<seq<nat>>, p: nat, t: seq<nat>, child: nat)
    requires Linked(h, kids) && p < |h| && OnlyList(h, h', p, kids[p], t) && ListLinks(h', p, t)
    requires Edits(h, h', kids[p], t, child)
    ensures Linked(h', kids[p := t])
  {
    hide ListLinks, ParentLinks, OnlyList, Edits;
    forall q: nat | q < |h| && q != p ensures ListLinks(h', q, kids[q]) {
      OtherKept(h, h', kids, p, t, child, q);
    }
    SameSize(h, h', p, kids[p], t);
    var kids' := kids[p := t];
    forall n: nat | n < |h| ensures ParentLinks(h', kids', n) {
      ParentKept(h, h', kids, p, t, child, n);
    }
  }

  lemma SameSize(h: Heap, h': Heap, p: nat, s: seq<nat>, t: seq<nat>)
    requires OnlyList(h, h', p, s, t)
    ensures |h'| == |h|
  {}

  lemma OtherKept(h: Heap, h': Heap, kids: seq<seq<nat>>, p: nat, t: seq<nat>, child: nat, q: nat)
    requires Linked(h, kids) && p < |h| && OnlyList(h, h', p, kids[p], t)
    requires Edits(h, h', kids[p], t, child) && q < |h| && q != p
    ensures ListLinks(h', q, kids[q])
  {
    hide Linked;
    ListOf(h, kids, q);
    forall i | 0 <= i < |kids[q]| ensures KidLinks(h', q, kids[q], i) {
      var c := kids[q][i];
      assert KidLinks(h, q, kids[q], i);
      OtherList(h, kids, p, q, c);
      assert c in t ==> c == child;
    }
  }

  lemma ListOf(h: Heap, kids: seq<seq<nat>>, q: nat)
    requires Linked(h, kids) && q < |h|
    ensures |kids| == |h| && ListLinks(h, q, kids[q]) && ParentLinks(h, kids, q)
  {}

  lemma OtherList(h: Heap, kids: seq<seq<nat>>, p: nat, q: nat, c: nat)
    requires Linked(h, kids) && p < |h| && q < |h| && p != q && c in kids[q]
    ensures c !in kids[p] && c < |h| && h[c].parent == q
  {
    hide Linked;
    ListOf(h, kids, q);
    KidParent(h, kids, q, c);
    if c in kids[p] {
      KidParent(h, kids, p, c);
    }
  }

  lemma ParentKept(h: Heap, h': Heap, kids: seq<seq<nat>>, p: nat, t: seq<nat>, child: nat, n: nat)
    requires Linked(h, kids) && p < |h| == |h'| && OnlyList(h, h', p, kids[p], t) && ListLinks(h', p, t)
    requires Edits(h, h', kids[p], t, child) && n < |h|
    ensures ParentLinks(h', kids[p := t], n)
  {
    hide Linked;
    ListOf(h, kids, n);
    ListOf(h, kids, p);
    if n in t {
      var i :| 0 <= i < |t| && t[i] == n;
      assert KidLinks(h', p, t, i);
    } else if n in kids[p] {
      assert n == child;
    } else if n == p {
      assert h'[n].parent == h[n].parent && h'[n].next == h[n].next;
    }
  }

  // ----- edits -----

  /** The list with child put in at position i. */
  function Insert(s: seq<nat>, i: nat, child: nat): seq<nat>
    requires i <= |s|
  {
    s[..i] + [child] + s[i..]
  }

  /** How the records of the list of p change when child is put in at i. */
  ghost predicate InsertEffect(h: Heap, h': Heap, p: nat, s: seq<nat>, i: nat, child: nat)
    requires i <= |s|
  {
    var t := Insert(s, i, child);
    && OnlyList(h, h', p, s, t) && h'[p].firstChild == First(t) && child < |h|
    && h'[child].parent == p && h'[child].next == NextOf(t, i) && h'[child].prev == PrevOf(t, i)
    && (forall x :: 0 <= x < |s| && s[x] < |h| ==>
          && h'[s[x]].parent == h[s[x]].parent
          && h'[s[x]].next == (if x + 1 == i then child else h[s[x]].next)
          && h'[s[x]].prev == (if x == i || (x == 0 && i == |s|) then child else h[s[x]].prev))
  }

  /** The record of node x once child has been put in at i. */
  ghost function InsertedRecord(h: Heap, p: nat, s: seq<nat>, i: nat, child: nat, x: nat): Node
    requires i <= |s| && x < |h|
  {
    var t := Insert(s, i, child);
    if x == child then h[x].(parent := p, prev := PrevOf(t, i), next := NextOf(t, i))
    else if x == p then h[x].(firstChild := First(t))
    else if s == [] then h[x]
    else h[x].(next := if i > 0 && x == s[i - 1] then child else h[x].next,
               prev := if x == (if i < |s| then s[i] else s[0]) then child else h[x].prev)
  }

  lemma RecordsEffect(h: Heap, h': Heap, p: nat, s: seq<nat>, i: nat, child: nat)
    requires i <= |s| && p < |h| == |h'| && child < |h| && child != p && child !in s && p !in s && Distinct(s)
    requires forall x: nat :: x < |h| ==> h'[x] == InsertedRecord(h, p, s, i, child, x)
    ensures InsertEffect(h, h', p, s, i, child)
  {
    hide OnlyList, Distinct;
    RecordsOnlyList(h, h', p, s, i, child);
    assert h'[child] == InsertedRecord(h, p, s, i, child, child);
    assert h'[p] == InsertedRecord(h, p, s, i, child, p);
    forall x | 0 <= x < |s| && s[x] < |h|
      ensures h'[s[x]].parent == h[s[x]].parent
      ensures h'[s[x]].next == (if x + 1 == i then child else h[s[x]].next)
      ensures h'[s[x]].prev == (if x == i || (x == 0 && i == |s|) then child else h[s[x]].prev)
    {
      assert s[x] in s;
      assert h'[s[x]] == InsertedRecord(h, p, s, i, child, s[x]);
      if i > 0 { SameIndex(s, x, i - 1); }
      SameIndex(s, x, if i < |s| then i else 0);
    }
  }

  lemma SameIndex(s: seq<nat>, x: nat, y: nat)
    requires Distinct(s) && x < |s| && y < |s|
    ensures s[x] == s[y] <==> x == y
  {}

  lemma RecordsOnlyList(h: Heap, h': Heap, p: nat, s: seq<nat>, i: nat, child: nat)
    requires i <= |s| && p < |h| == |h'| && child < |h| && child != p && p !in s
    requires forall x: nat :: x < |h| ==> h'[x] == InsertedRecord(h, p, s, i, child, x)
    ensures OnlyList(h, h', p, s, Insert(s, i, child))
  {
    var t := Insert(s, i, child);
    assert t[i] == child;
    assert s != [] ==> s[0] in s;
    assert i > 0 ==> s[i - 1] in s;
    assert i < |s| ==> s[i] in s;
    assert h'[p] == InsertedRecord(h, p, s, i, child, p);
  }

  lemma InsertLinks(h: Heap, h': Heap, kids: seq<seq<nat>>, p: nat, i: nat, child: nat)
    requires Linked(h, kids) && p < |h| && i <= |kids[p]| && child < |h| && child != p && h[child].parent == NULL
    requires InsertEffect(h, h', p, kids[p], i, child)
    ensures Linked(h', kids[p := Insert(kids[p], i, child)])
  {
    hide Linked, InsertEffect, ListLinks, Insert;
    ListOf(h, kids, p);
    var s := kids[p];
    var t := Insert(s, i, child);
    ChildNotIn(h, kids, p, child);
    InsertMembers(s, i, child);
    EffectList(h, h', p, s, i, child);
    Relinked(h, h', kids, p, t, child);
  }

  lemma InsertMembers(s: seq<nat>, i: nat, child: nat)
    requires i <= |s|
    ensures var t := Insert(s, i, child);
            && |t| == |s| + 1 && child in t && t[i] == child && (i > 0 ==> t[i - 1] == s[i - 1])
            && (forall x :: x != child ==> (x in t <==> x in s))
            && (forall y :: 0 <= y < |t| ==> t[y] == if y < i then s[y] else if y == i then child else s[y - 1])
  {
    var t := Insert(s, i, child);
    assert t[i] == child;
    forall x | x != child ensures x in t <==> x in s {
      if x in s {
        var k :| 0 <= k < |s| && s[k] == x;
        assert t[if k < i then k else k + 1] == x;
      }
    }
  }

  lemma InsertDistinct(s: seq<nat>, i: nat, child: nat)
    requires Distinct(s) && i <= |s| && child !in s
    ensures Distinct(Insert(s, i, child))
  {
    var t := Insert(s, i, child);
    forall x, y | 0 <= x < y < |t| ensures t[x] != t[y] {
      if x < i {
        assert t[x] == s[x] && s[x] in s;
      }
      if y > i {
        assert t[y] == s[y - 1] && s[y - 1] in s;
      }
    }
  }

  lemma EffectList(h: Heap, h': Heap, p: nat, s: seq<nat>, i: nat, child: nat)
    requires ListLinks(h, p, s) && i <= |s| && child != p && child !in s && InsertEffect(h, h', p, s, i, child)
    ensures var t := Insert(s, i, child); OnlyList(h, h', p, s, t) && ListLinks(h', p, t)
  {
    hide Insert, OnlyList;
    var t := Insert(s, i, child);
    InsertMembers(s, i, child);
    SameSize(h, h', p, s, t);
    InsertDistinct(s, i, child);
    forall y | 0 <= y < |t| ensures KidLinks(h', p, t, y) {
      EffectKid(h, h', p, s, i, child, y);
    }
  }

  lemma EffectKid(h: Heap, h': Heap, p: nat, s: seq<nat>, i: nat, child: nat, y: nat)
    requires ListLinks(h, p, s) && i <= |s| && child != p && InsertEffect(h, h', p, s, i, child) && |h'| == |h|
    requires y < |Insert(s, i, child)|
    ensures KidLinks(h', p, Insert(s, i, child), y)
  {
    hide OnlyList, ListLinks, Insert;
    InsertMembers(s, i, child);
    if y != i {
      var x := if y < i then y else y - 1;
      KidOfList(h, p, s, x);
      InsertNeighbours(s, i, child, y);
    }
  }

  lemma KidOfList(h: Heap, p: nat, s: seq<nat>, x: nat)
    requires ListLinks(h, p, s) && x < |s|
    ensures KidLinks(h, p, s, x)
  {}

  /** The neighbours of the other nodes are what they were, except next to the place of the insertion. */
  lemma InsertNeighbours(s: seq<nat>, i: nat, child: nat, y: nat)
    requires i <= |s| && y < |Insert(s, i, child)| && y != i
    ensures var t, x := Insert(s, i, child), if y < i then y else y - 1;
            && x < |s| && t[y] == s[x]
            && NextOf(t, y) == (if x + 1 == i then child else NextOf(s, x))
            && PrevOf(t, y) == (if x == i || (x == 0 && i == |s|) then child else PrevOf(s, x))
  {}

  lemma ChildNotIn(h: Heap, kids: seq<seq<nat>>, p: nat, child: nat)
    requires Linked(h, kids) && p < |h| && child < |h| && h[child].parent == NULL
    ensures child !in kids[p] && forall x :: 0 <= x < |kids[p]| ==> kids[p][x] != child
  {
    if child in kids[p] {
      KidParent(h, kids, p, child);
    }
  }

  class Tree {
    var heap: Heap
    /** The children of every node. */
    ghost var kids: seq<seq<nat>>

    ghost predicate Valid()
      reads this
    {
      Linked(heap, kids)
    }

    constructor ()
      ensures Valid() && heap == [] && kids == []
    {
      heap, kids := [], [];
    }

    /** Appends child at the end of node's list. */
    method AppendNode(child: nat, node: nat)
      requires Valid() && node < |heap| && Detached(heap, child) && child != node
      modifies this
      ensures Valid() && kids == old(kids)[node := Insert(old(kids)[node], |old(kids)[node]|, child)]
      ensures OnlyList(old(heap), heap, node, old(kids)[node], kids[node])
    {
      hide Linked, InsertEffect, OnlyList, ListLinks, Insert;
      ListOf(heap, kids, node);
      ghost var h, s := heap, kids[node];
      ListEnds(h, node, s);
      ChildNotIn(h, kids, node, child);
      ParentNull(h, kids, child);
      heap := heap[child := heap[child].(parent := node)];
      var head := heap[node].firstChild;
      if head >= 0 {
        var tail := heap[head].prev;
        heap := heap[tail := heap[tail].(next := child)];
        heap := heap[child := heap[child].(prev := tail)];
        heap := heap[head := heap[head].(prev := child)];
        Appended(h, heap, node, s, child);
      } else {
        heap := heap[node := heap[node].(firstChild := child)];
        heap := heap[child := heap[child].(prev := child)];
        AppendedFirst(h, heap, node, s, child);
      }
      InsertLinks(h, heap, kids, node, |s|, child);
      EffectList(h, heap, node, s, |s|, child);
      kids := kids[node := Insert(s, |s|, child)];
    }

    /** A new node at the end of node's list. */
    method AppendNewNode(node: nat, kind: Kind) returns (child: nat)
      requires Valid() && node < |heap|
      modifies this
      ensures Valid() && child == |old(heap)| && |heap| == child + 1
      ensures kids == (old(kids) + [[]])[node := old(kids)[node] + [child]]
      ensures heap[child].kind == kind && heap[child].content == "" && heap[child].firstChild == NULL
      ensures forall x: nat :: x < child && x != node && x !in old(kids)[node] ==> heap[x] == old(heap)[x]
      ensures forall x: nat :: x < child ==> heap[x].kind == old(heap)[x].kind && heap[x].content == old(heap)[x].content
      ensures forall x: nat :: x < child && x != node ==> heap[x].firstChild == old(heap)[x].firstChild
      ensures heap[node] == old(heap)[node].(firstChild := heap[node].firstChild)
    {
      hide Linked, Insert;
      ghost var h, k := heap, kids;
      child := |heap|;
      Grown(h, k, kind);
      heap := heap + [Node(kind, "", NULL, NULL, NULL, NULL)];
      kids := kids + [[]];
      ghost var h1 := heap;
      AppendNode(child, node);
      InsertLast(k[node], child);
      InsertMembers(k[node], |k[node]|, child);
      assert h1[child].firstChild == NULL;
    }

    method CopyContents(to: nat, from: nat)
      requires Valid() && to < |heap| && from < |heap|
      modifies this
      ensures Valid() && kids == old(kids) && heap == old(heap)[to := old(heap)[to].(content := old(heap)[from].content)]
    {
      hide Linked;
      ContentIsFree(heap, kids, to, heap[from].content);
      heap := heap[to := heap[to].(content := heap[from].content)];
    }

    /** Puts child in front of node's list. */
    method PrependNode(child: nat, node: nat)
      requires Valid() && node < |heap| && Detached(heap, child) && child != node
      modifies this
      ensures Valid() && kids == old(kids)[node := Insert(old(kids)[node], 0, child)]
      ensures OnlyList(old(heap), heap, node, old(kids)[node], kids[node])
    {
      hide Linked, InsertEffect, OnlyList, ListLinks, Insert;
      ListOf(heap, kids, node);
      ghost var h, s := heap, kids[node];
      ListEnds(h, node, s);
      ChildNotIn(h, kids, node, child);
      heap := heap[child := heap[child].(parent := node)];
      var head := heap[node].firstChild;
      if head >= 0 {
        heap := heap[child := heap[child].(prev := heap[head].prev)];
        heap := heap[head := heap[head].(prev := child)];
      } else {
        heap := heap[child := heap[child].(prev := child)];
      }
      heap := heap[child := heap[child].(next := head)];
      heap := heap[node := heap[node].(firstChild := child)];
      Prepended(h, heap, node, s, child);
      InsertLinks(h, heap, kids, node, 0, child);
      EffectList(h, heap, node, s, 0, child);
      kids := kids[node := Insert(s, 0, child)];
    }

    /** Puts child right behind node in the list of node's parent. */
    method InsertNodeAfter(child: nat, node: nat) returns (ghost parent: nat, ghost i: nat)
      requires Valid() && node < |heap| && heap[node].parent != NULL && Detached(heap, child) && child != heap[node].parent
      modifies this
      ensures old(parent == heap[node].parent && parent < |heap| == |kids| && i < |kids[parent]| && kids[parent][i] == node)
      ensures Valid() && kids == old(kids)[parent := Insert(old(kids)[parent], i + 1, child)]
      ensures OnlyList(old(heap), heap, parent, old(kids)[parent], kids[parent])
    {
      hide Linked, InsertEffect, OnlyList, ListLinks, Insert;
      i := KidIndex(heap, kids, node);
      parent := heap[node].parent;
      ListOf(heap, kids, parent);
      ghost var h, s := heap, kids[parent];
      KidAt(h, kids, parent, i);
      ListEnds(h, parent, s);
      ChildNotIn(h, kids, parent, child);
      var above := heap[node].parent;
      heap := heap[child := heap[child].(parent := above)];
      var next := heap[node].next;
      if next >= 0 {
        KidAt(h, kids, parent, i + 1);
        heap := heap[next := heap[next].(prev := child)];
      } else {
        var head := heap[above].firstChild;
        heap := heap[head := heap[head].(prev := child)];
      }
      heap := heap[child := heap[child].(next := next)];
      heap := heap[child := heap[child].(prev := node)];
      heap := heap[node := heap[node].(next := child)];
      PutBehind(h, heap, parent, s, i, child);
      InsertLinks(h, heap, kids, parent, i + 1, child);
      EffectList(h, heap, parent, s, i + 1, child);
      kids := kids[parent := Insert(s, i + 1, child)];
    }

    /** Puts child right before node in the list of node's parent. */
    method InsertNodeBefore(child: nat, node: nat) returns (ghost parent: nat, ghost i: nat)
      requires Valid() && node < |heap| && heap[node].parent != NULL && Detached(heap, child) && child != heap[node].parent
      modifies this
      ensures old(parent == heap[node].parent && parent < |heap| == |kids| && i < |kids[parent]| && kids[parent][i] == node)
      ensures Valid() && kids == old(kids)[parent := Insert(old(kids)[parent], i, child)]
      ensures OnlyList(old(heap), heap, parent, old(kids)[parent], kids[parent])
    {
      hide Linked, InsertEffect, OnlyList, ListLinks, Insert;
      i := KidIndex(heap, kids, node);
      parent := heap[node].parent;
      ListOf(heap, kids, parent);
      ghost var h, s := heap, kids[parent];
      KidAt(h, kids, parent, i);
      PrevIn(h, parent, s, i);
      ChildNotIn(h, kids, parent, child);
      var above := heap[node].parent;
      heap := heap[child := heap[child].(parent := above)];
      var prev := heap[node].prev;
      if heap[prev].next >= 0 {
        heap := heap[prev := heap[prev].(next := child)];
      } else {
        heap := heap[above := heap[above].(firstChild := child)];
      }
      heap := heap[child := heap[child].(prev := prev)];
      heap := heap[child := heap[child].(next := node)];
      heap := heap[node := heap[node].(prev := child)];
      PutBefore(h, heap, parent, s, i, child);
      InsertLinks(h, heap, kids, parent, i, child);
      EffectList(h, heap, parent, s, i, child);
      kids := kids[parent := Insert(s, i, child)];
    }

    /** Takes node out of its list. */
    method RemoveNode(node: nat) returns (ghost parent: nat, ghost i: nat)
      requires Valid() && node < |heap| && heap[node].parent != NULL
      modifies this
      ensures old(parent == heap[node].parent && parent < |heap| == |kids| && i < |kids[parent]| && kids[parent][i] == node)
      ensures Valid() && Detached(heap, node) && kids == old(kids)[parent := Without(old(kids)[parent], i)]
      ensures OnlyList(old(heap), heap, parent, old(kids)[parent], kids[parent])
    {
      hide Linked, RemoveEffect, OnlyList, ListLinks, Without;
      i := KidIndex(heap, kids, node);
      parent := heap[node].parent;
      ListOf(heap, kids, parent);
      ghost var h, s := heap, kids[parent];
      KidAt(h, kids, parent, i);
      ListEnds(h, parent, s);
      PrevIn(h, parent, s, i);
      var above := heap[node].parent;
      var next, prev := heap[node].next, heap[node].prev;
      if next >= 0 {
        KidAt(h, kids, parent, i + 1);
        heap := heap[next := heap[next].(prev := prev)];
      } else {
        var head := heap[above].firstChild;
        heap := heap[head := heap[head].(prev := prev)];
      }
      if heap[prev].next >= 0 {
        heap := heap[prev := heap[prev].(next := next)];
      } else {
        heap := heap[above := heap[above].(firstChild := next)];
      }
      heap := heap[node := heap[node].(parent := NULL, prev := NULL, next := NULL)];
      TakenOut(h, heap, parent, s, i);
      RemoveLinks(h, heap, kids, parent, i);
      kids := kids[parent := Without(s, i)];
    }
  }

  /** A new node without parent or children. */
  lemma Grown(h: Heap, kids: seq<seq<nat>>, kind: Kind)
    requires Linked(h, kids)
    ensures Linked(h + [Node(kind, "", NULL, NULL, NULL, NULL)], kids + [[]]) && |kids| == |h|
  {
    var h1, k1 := h + [Node(kind, "", NULL, NULL, NULL, NULL)], kids + [[]];
    forall p: nat | p < |h1| ensures ListLinks(h1, p, k1[p]) {
      if p < |h| {
        assert ListLinks(h, p, kids[p]);
        forall i | 0 <= i < |kids[p]| ensures KidLinks(h1, p, kids[p], i) {
          assert KidLinks(h, p, kids[p], i);
        }
      }
    }
    forall n: nat | n < |h1| ensures ParentLinks(h1, k1, n) {
      if n < |h| { assert ParentLinks(h, kids, n); }
    }
  }

  lemma ContentIsFree(h: Heap, kids: seq<seq<nat>>, n: nat, content: string)
    requires Linked(h, kids) && n < |h|
    ensures Linked(h[n := h[n].(content := content)], kids)
  {
    var h1 := h[n := h[n].(content := content)];
    forall p: nat | p < |h1| ensures ListLinks(h1, p, kids[p]) {
      assert ListLinks(h, p, kids[p]);
      forall i | 0 <= i < |kids[p]| ensures KidLinks(h1, p, kids[p], i) {
        assert KidLinks(h, p, kids[p], i);
      }
    }
    forall m: nat | m < |h1| ensures ParentLinks(h1, kids, m) {
      assert ParentLinks(h, kids, m);
    }
  }

  lemma InsertLast(s: seq<nat>, child: nat)
    ensures Insert(s, |s|, child) == s + [child]
  {}

  lemma ListEnds(h: Heap, p: nat, s: seq<nat>)
    requires ListLinks(h, p, s)
    ensures p < |h| && h[p].firstChild == First(s) && p !in s
    ensures s != [] ==> s[0] < |h| && s[|s| - 1] < |h| && h[s[0]].prev == s[|s| - 1] && h[s[|s| - 1]].next == NULL
  {
    assert s != [] ==> KidLinks(h, p, s, 0) && KidLinks(h, p, s, |s| - 1);
    forall x | 0 <= x < |s| ensures s[x] != p {
      assert KidLinks(h, p, s, x);
    }
  }

  lemma ParentNull(h: Heap, kids: seq<seq<nat>>, n: nat)
    requires Linked(h, kids) && Detached(h, n)
    ensures h[n].next == NULL
  {
    assert ParentLinks(h, kids, n);
  }

  lemma Appended(h: Heap, h': Heap, p: nat, s: seq<nat>, child: nat)
    requires ListLinks(h, p, s) && s != [] && child < |h| && child != p && child !in s && h[child].next == NULL
    requires var head, tail := s[0], s[|s| - 1];
             && head < |h| && tail < |h|
             && var h1 := h[child := h[child].(parent := p)];
                var h2 := h1[tail := h1[tail].(next := child)];
                var h3 := h2[child := h2[child].(prev := tail)];
                h' == h3[head := h3[head].(prev := child)]
    ensures InsertEffect(h, h', p, s, |s|, child)
  {
    hide ListLinks, InsertEffect;
    InsertMembers(s, |s|, child);
    ListEnds(h, p, s);
    ListDistinct(h, p, s);
    assert forall x :: 0 <= x < |s| ==> s[x] in s;
    forall x: nat | x < |h| ensures h'[x] == InsertedRecord(h, p, s, |s|, child, x) {}
    RecordsEffect(h, h', p, s, |s|, child);
  }

  lemma ListDistinct(h: Heap, p: nat, s: seq<nat>)
    requires ListLinks(h, p, s)
    ensures Distinct(s) && forall x :: 0 <= x < |s| ==> s[x] < |h|
  {
    forall x | 0 <= x < |s| ensures s[x] < |h| {
      assert KidLinks(h, p, s, x);
    }
  }

  lemma AppendedFirst(h: Heap, h': Heap, p: nat, s: seq<nat>, child: nat)
    requires p < |h| && s == [] && child < |h| && child != p && h[child].next == NULL
    requires var h1 := h[child := h[child].(parent := p)];
             var h2 := h1[p := h1[p].(firstChild := child)];
             h' == h2[child := h2[child].(prev := child)]
    ensures InsertEffect(h, h', p, s, 0, child)
  {}

  lemma FrontRecord(s: seq<nat>, child: nat)
    ensures var t := Insert(s, 0, child);
            First(t) == child && PrevOf(t, 0) == (if s == [] then child else s[|s| - 1]) && NextOf(t, 0) == First(s)
  {}

  lemma Prepended(h: Heap, h': Heap, p: nat, s: seq<nat>, child: nat)
    requires ListLinks(h, p, s) && child < |h| && child != p && child !in s
    requires s != [] ==> s[0] < |h|
    requires var h1 := h[child := h[child].(parent := p)];
             var h2 := if s == [] then h1[child := h1[child].(prev := child)] else
                         var g := h1[child := h1[child].(prev := h1[s[0]].prev)];
                         g[s[0] := g[s[0]].(prev := child)];
             var h3 := h2[child := h2[child].(next := First(s))];
             h' == h3[p := h3[p].(firstChild := child)]
    ensures InsertEffect(h, h', p, s, 0, child)
  {
    hide ListLinks, InsertEffect, Distinct, Insert;
    InsertMembers(s, 0, child);
    ListEnds(h, p, s);
    ListDistinct(h, p, s);
    assert forall x :: 0 <= x < |s| ==> s[x] in s;
    FrontRecord(s, child);
    forall x: nat | x < |h| ensures h'[x] == InsertedRecord(h, p, s, 0, child, x) {}
    RecordsEffect(h, h', p, s, 0, child);
  }

  /** prev of a child leads to a child whose next is null exactly when it is the last. */
  lemma PrevIn(h: Heap, p: nat, s: seq<nat>, i: nat)
    requires ListLinks(h, p, s) && i < |s|
    ensures var c := PrevOf(s, i); c < |h| && c in s && h[c].next == (if i == 0 then NULL else s[i])
    ensures p !in s
  {
    assert KidLinks(h, p, s, if i == 0 then |s| - 1 else i - 1);
    ListEnds(h, p, s);
  }

  lemma PutBehind(h: Heap, h': Heap, p: nat, s: seq<nat>, i: nat, child: nat)
    requires ListLinks(h, p, s) && i < |s| && child < |h| && child != p && child !in s
    requires var node, next := s[i], NextOf(s, i);
             && node < |h| && s[0] < |h| && next < |h|
             && var h1 := h[child := h[child].(parent := p)];
                var h2 := if next >= 0 then h1[next := h1[next].(prev := child)] else h1[s[0] := h1[s[0]].(prev := child)];
                var h3 := h2[child := h2[child].(next := next)];
                var h4 := h3[child := h3[child].(prev := node)];
                h' == h4[node := h4[node].(next := child)]
    ensures InsertEffect(h, h', p, s, i + 1, child)
  {
    hide ListLinks, InsertEffect, Distinct, Insert;
    InsertMembers(s, i + 1, child);
    ListEnds(h, p, s);
    ListDistinct(h, p, s);
    assert s[i] in s && s[0] in s && (i + 1 < |s| ==> s[i + 1] in s);
    BehindNext(s, i, child);
    forall x: nat | x < |h| ensures h'[x] == InsertedRecord(h, p, s, i + 1, child, x) {}
    RecordsEffect(h, h', p, s, i + 1, child);
  }

  lemma BehindNext(s: seq<nat>, i: nat, child: nat)
    requires i < |s|
    ensures var t := Insert(s, i + 1, child); NextOf(t, i + 1) == NextOf(s, i) && PrevOf(t, i + 1) == s[i]
    ensures First(Insert(s, i + 1, child)) == s[0]
  {}

  lemma PutBefore(h: Heap, h': Heap, p: nat, s: seq<nat>, i: nat, child: nat)
    requires ListLinks(h, p, s) && i < |s| && child < |h| && child != p && child !in s && s[i] < |h| && PrevOf(s, i) < |h|
    requires h[PrevOf(s, i)].next == (if i == 0 then NULL else s[i]) && p < |h| && p !in s && PrevOf(s, i) in s
    requires var node, prev := s[i], PrevOf(s, i);
             var h1 := h[child := h[child].(parent := p)];
             var h2 := if h1[prev].next >= 0 then h1[prev := h1[prev].(next := child)] else h1[p := h1[p].(firstChild := child)];
             var h3 := h2[child := h2[child].(prev := prev)];
             var h4 := h3[child := h3[child].(next := node)];
             h' == h4[node := h4[node].(prev := child)]
    ensures InsertEffect(h, h', p, s, i, child)
  {
    hide ListLinks, InsertEffect, Distinct, Insert;
    InsertMembers(s, i, child);
    ListEnds(h, p, s);
    ListDistinct(h, p, s);
    assert s[i] in s && s[0] in s && (i > 0 ==> s[i - 1] in s);
    BeforeNext(s, i, child);
    forall x: nat | x < |h| ensures h'[x] == InsertedRecord(h, p, s, i, child, x) {}
    RecordsEffect(h, h', p, s, i, child);
  }

  lemma BeforeNext(s: seq<nat>, i: nat, child: nat)
    requires i < |s|
    ensures var t := Insert(s, i, child); NextOf(t, i) == s[i] && PrevOf(t, i) == PrevOf(s, i)
    ensures First(Insert(s, i, child)) == if i == 0 then child else s[0]
  {}

  // ----- taking out -----

  ghost predicate RemoveEffect(h: Heap, h': Heap, p: nat, s: seq<nat>, i: nat)
    requires i < |s|
  {
    var t := Without(s, i);
    && OnlyList(h, h', p, s, t) && h'[p].firstChild == First(t) && s[i] < |h|
    && h'[s[i]].parent == NULL && h'[s[i]].next == NULL
    && (forall x :: 0 <= x < |s| && x != i && s[x] < |h| ==>
          && h'[s[x]].parent == h[s[x]].parent
          && h'[s[x]].next == (if x + 1 == i then NextOf(s, i) else h[s[x]].next)
          && h'[s[x]].prev == (if x == i + 1 || (x == 0 && i + 1 == |s|) then PrevOf(s, i) else h[s[x]].prev))
  }

  ghost function RemovedRecord(h: Heap, p: nat, s: seq<nat>, i: nat, x: nat): Node
    requires i < |s| && x < |h|
  {
    if x == s[i] then h[x].(parent := NULL, prev := NULL, next := NULL)
    else if x == p then h[x].(firstChild := First(Without(s, i)))
    else h[x].(next := if i > 0 && x == s[i - 1] then NextOf(s, i) else h[x].next,
               prev := if x == (if i + 1 < |s| then s[i + 1] else s[0]) then PrevOf(s, i) else h[x].prev)
  }

  lemma RemovedEffect(h: Heap, h': Heap, p: nat, s: seq<nat>, i: nat)
    requires i < |s| && p < |h| == |h'| && p !in s && Distinct(s) && s[i] < |h|
    requires forall x: nat :: x < |h| ==> h'[x] == RemovedRecord(h, p, s, i, x)
    ensures RemoveEffect(h, h', p, s, i)
  {
    hide OnlyList, Distinct;
    RemovedOnlyList(h, h', p, s, i);
    assert h'[p] == RemovedRecord(h, p, s, i, p);
    assert s[i] in s && h'[s[i]] == RemovedRecord(h, p, s, i, s[i]);
    forall x | 0 <= x < |s| && x != i && s[x] < |h|
      ensures h'[s[x]].parent == h[s[x]].parent
      ensures h'[s[x]].next == (if x + 1 == i then NextOf(s, i) else h[s[x]].next)
      ensures h'[s[x]].prev == (if x == i + 1 || (x == 0 && i + 1 == |s|) then PrevOf(s, i) else h[s[x]].prev)
    {
      assert s[x] in s;
      assert h'[s[x]] == RemovedRecord(h, p, s, i, s[x]);
      SameIndex(s, x, i);
      if i > 0 { SameIndex(s, x, i - 1); }
      SameIndex(s, x, if i + 1 < |s| then i + 1 else 0);
    }
  }

  lemma RemovedOnlyList(h: Heap, h': Heap, p: nat, s: seq<nat>, i: nat)
    requires i < |s| && p < |h| == |h'| && p !in s
    requires forall x: nat :: x < |h| ==> h'[x] == RemovedRecord(h, p, s, i, x)
    ensures OnlyList(h, h', p, s, Without(s, i))
  {
    assert s[0] in s && s[i] in s;
    assert i > 0 ==> s[i - 1] in s;
    assert i + 1 < |s| ==> s[i + 1] in s;
    assert h'[p] == RemovedRecord(h, p, s, i, p);
  }

  lemma RemoveMembers(s: seq<nat>, i: nat)
    requires i < |s| && Distinct(s)
    ensures var t := Without(s, i);
            && |t| == |s| - 1 && s[i] !in t && Distinct(t)
            && (forall x :: x != s[i] ==> (x in t <==> x in s))
            && (forall y :: 0 <= y < |t| ==> t[y] == if y < i then s[y] else s[y + 1])
  {
    var t := Without(s, i);
    forall x | x != s[i] ensures x in t <==> x in s {
      if x in s {
        var k :| 0 <= k < |s| && s[k] == x;
        assert t[if k < i then k else k - 1] == x;
      }
    }
  }

  lemma RemoveLinks(h: Heap, h': Heap, kids: seq<seq<nat>>, p: nat, i: nat)
    requires Linked(h, kids) && p < |h| == |kids| && i < |kids[p]| && RemoveEffect(h, h', p, kids[p], i)
    ensures Linked(h', kids[p := Without(kids[p], i)]) && Detached(h', kids[p][i])
    ensures OnlyList(h, h', p, kids[p], Without(kids[p], i))
  {
    hide Linked, OnlyList, Without;
    ListOf(h, kids, p);
    var s := kids[p];
    var t := Without(s, i);
    ListDistinct(h, p, s);
    RemoveMembers(s, i);
    SameSize(h, h', p, s, t);
    forall y | 0 <= y < |t| ensures KidLinks(h', p, t, y) {
      RemovedKid(h, h', p, s, i, y);
    }
    assert s[i] in s;
    Relinked(h, h', kids, p, t, s[i]);
  }

  lemma RemovedKid(h: Heap, h': Heap, p: nat, s: seq<nat>, i: nat, y: nat)
    requires ListLinks(h, p, s) && i < |s| && RemoveEffect(h, h', p, s, i) && |h'| == |h| && y < |Without(s, i)|
    ensures KidLinks(h', p, Without(s, i), y)
  {
    hide OnlyList;
    ListDistinct(h, p, s);
    RemoveMembers(s, i);
    assert KidLinks(h, p, s, if y < i then y else y + 1);
    assert KidLinks(h, p, s, i);
  }

  lemma TakenOut(h: Heap, h': Heap, p: nat, s: seq<nat>, i: nat)
    requires ListLinks(h, p, s) && i < |s| && s[i] < |h| && PrevOf(s, i) < |h| && s[0] < |h| && NextOf(s, i) < |h|
    requires h[PrevOf(s, i)].next == (if i == 0 then NULL else s[i]) && p < |h| && p !in s && PrevOf(s, i) in s
    requires var node, prev, next := s[i], PrevOf(s, i), NextOf(s, i);
             var h1 := if next >= 0 then h[next := h[next].(prev := prev)] else h[s[0] := h[s[0]].(prev := prev)];
             var h2 := if h1[prev].next >= 0 then h1[prev := h1[prev].(next := next)] else h1[p := h1[p].(firstChild := next)];
             h' == h2[node := h2[node].(parent := NULL, prev := NULL, next := NULL)]
    ensures RemoveEffect(h, h', p, s, i)
  {
    hide ListLinks, RemoveEffect, Distinct, Without;
    ListDistinct(h, p, s);
    ListEnds(h, p, s);
    FirstLeft(s, i);
    assert s[i] in s && s[0] in s && (i + 1 < |s| ==> s[i + 1] in s) && (i > 0 ==> s[i - 1] in s);
    forall x: nat | x < |h| ensures h'[x] == RemovedRecord(h, p, s, i, x) {}
    RemovedEffect(h, h', p, s, i);
  }

  lemma FirstLeft(s: seq<nat>, i: nat)
    requires i < |s|
    ensures First(Without(s, i)) == if i == 0 then NextOf(s, 0) else s[0]
  {}
}
