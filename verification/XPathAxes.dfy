/** The XPath axes as walks over links, and what they amount to in document order. */
module XPathAxes {
  import opened DomTree
  import opened DocumentOrder

  // ----- what each axis holds, as numbers in document order -----

  function Range(a: nat, b: nat): seq<nat>
    decreases b - a
  {
    if a >= b then [] else Range(a, b - 1) + [b - 1]
  }

  /** Numbers below i, from the top down to e, whose subtrees end before i. */
  function PrecedingList(d: Numbering, i: nat, e: nat): seq<nat>
    requires i <= |d.end|
    decreases i - e
  {
    if e >= i then [] else PrecedingList(d, i, e + 1) + (if d.end[e] <= i then [e] else [])
  }

  /** Numbers below i, from the top down to e, whose subtrees contain i. */
  function AncestorList(d: Numbering, i: nat, e: nat): seq<nat>
    requires i <= |d.end|
    decreases i - e
  {
    if e >= i then [] else AncestorList(d, i, e + 1) + (if d.end[e] > i then [e] else [])
  }

  lemma {:induction false} RangeHolds(a: nat, b: nat, x: nat)
    ensures x in Range(a, b) <==> a <= x < b
    decreases b - a
  {
    if a < b { RangeHolds(a, b - 1, x); }
  }

  lemma {:induction false} PrecedingHolds(d: Numbering, i: nat, e: nat, x: nat)
    requires i <= |d.end|
    ensures x in PrecedingList(d, i, e) <==> e <= x < i && d.end[x] <= i
    decreases i - e
  {
    if e < i { PrecedingHolds(d, i, e + 1, x); }
  }

  lemma {:induction false} AncestorHolds(d: Numbering, i: nat, e: nat, x: nat)
    requires i <= |d.end|
    ensures x in AncestorList(d, i, e) <==> e <= x < i && d.end[x] > i
    decreases i - e
  {
    if e < i { AncestorHolds(d, i, e + 1, x); }
  }

  ghost predicate Rising(s: seq<nat>) {
    forall a, b :: 0 <= a < b < |s| ==> s[a] < s[b]
  }

  ghost predicate Falling(s: seq<nat>) {
    forall a, b :: 0 <= a < b < |s| ==> s[a] > s[b]
  }

  lemma {:induction false} RangeRises(a: nat, b: nat)
    ensures Rising(Range(a, b)) && forall k :: 0 <= k < |Range(a, b)| ==> a <= Range(a, b)[k] < b
    decreases b - a
  {
    if a < b { RangeRises(a, b - 1); }
  }

  lemma {:induction false} PrecedingFalls(d: Numbering, i: nat, e: nat)
    requires i <= |d.end|
    ensures Falling(PrecedingList(d, i, e)) && forall k :: 0 <= k < |PrecedingList(d, i, e)| ==> PrecedingList(d, i, e)[k] >= e
    decreases i - e
  {
    if e < i { PrecedingFalls(d, i, e + 1); }
  }

  lemma {:induction false} AncestorFalls(d: Numbering, i: nat, e: nat)
    requires i <= |d.end|
    ensures Falling(AncestorList(d, i, e)) && forall k :: 0 <= k < |AncestorList(d, i, e)| ==> AncestorList(d, i, e)[k] >= e
    decreases i - e
  {
    if e < i { AncestorFalls(d, i, e + 1); }
  }

  /** self, ancestor, descendant, preceding and following are pairwise disjoint and together cover the document. */
  lemma AxesPartition(d: Numbering, i: nat, x: nat)
    requires Nested(d) && i < |d.node| && x < |d.node|
    ensures var self, desc, foll := x == i, x in Range(i + 1, d.end[i]), x in Range(d.end[i], |d.node|);
            var prec, anc := x in PrecedingList(d, i, 0), x in AncestorList(d, i, 0);
            && (self || desc || foll || prec || anc)
            && !(self && (desc || foll || prec || anc)) && !(desc && (foll || prec || anc))
            && !(foll && (prec || anc)) && !(prec && anc)
  {
    RangeHolds(i + 1, d.end[i], x);
    RangeHolds(d.end[i], |d.node|, x);
    PrecedingHolds(d, i, 0, x);
    AncestorHolds(d, i, 0, x);
  }

  /** Each axis is without repeats, and in document order or reverse document order as declared. */
  lemma AxesOrdered(d: Numbering, i: nat)
    requires Nested(d) && i < |d.node|
    ensures Rising(Range(i + 1, d.end[i])) && Rising(Range(d.end[i], |d.node|))
    ensures Falling(PrecedingList(d, i, 0)) && Falling(AncestorList(d, i, 0))
  {
    RangeRises(i + 1, d.end[i]);
    RangeRises(d.end[i], |d.node|);
    PrecedingFalls(d, i, 0);
    AncestorFalls(d, i, 0);
  }

  // ----- the walks -----

  predicate Below(d: Numbering, s: seq<nat>) {
    forall k :: 0 <= k < |s| ==> s[k] < |d.node|
  }

  /** The nodes with the given numbers that pass the node test. */
  function Picked(d: Numbering, s: seq<nat>, test: nat -> bool): seq<nat>
    requires Below(d, s)
  {
    if s == [] then [] else
      Picked(d, s[..|s| - 1], test) + (if test(d.node[s[|s| - 1]]) then [d.node[s[|s| - 1]]] else [])
  }

  lemma PickedNext(d: Numbering, s: seq<nat>, x: nat, test: nat -> bool)
    requires Below(d, s) && x < |d.node|
    ensures Below(d, s + [x])
    ensures Picked(d, s + [x], test) == Picked(d, s, test) + (if test(d.node[x]) then [d.node[x]] else [])
  {
    assert (s + [x])[..|s|] == s;
  }

  /** ns lists, in order, the nodes numbered by the entries of s at the places `at`: all those that pass the test. */
  ghost predicate IsPicked(d: Numbering, s: seq<nat>, test: nat -> bool, ns: seq<nat>, at: seq<nat>)
    requires Below(d, s)
  {
    && |ns| == |at| && (forall j, k :: 0 <= j < k < |at| ==> at[j] < at[k])
    && (forall j :: 0 <= j < |at| ==> at[j] < |s| && ns[j] == d.node[s[at[j]]] && test(ns[j]))
    && (forall p: nat :: p < |s| && test(d.node[s[p]]) ==> p in at)
  }

  lemma {:induction false} PickedMeans(d: Numbering, s: seq<nat>, test: nat -> bool) returns (at: seq<nat>)
    requires Below(d, s)
    ensures IsPicked(d, s, test, Picked(d, s, test), at)
  {
    hide IsPicked;
    if s == [] {
      at := [];
      NothingPicked(d, test);
    } else {
      var init, last := s[..|s| - 1], s[|s| - 1];
      at := PickedMeans(d, init, test);
      assert s == init + [last];
      assert Picked(d, s, test) == if test(d.node[last]) then Picked(d, init, test) + [d.node[last]] else Picked(d, init, test);
      PickedMore(d, init, test, Picked(d, init, test), at, last);
      if test(d.node[last]) {
        at := at + [|init|];
      }
    }
  }

  lemma NothingPicked(d: Numbering, test: nat -> bool)
    ensures IsPicked(d, [], test, [], [])
  {}

  lemma PickedMore(d: Numbering, s: seq<nat>, test: nat -> bool, ns: seq<nat>, at: seq<nat>, x: nat)
    requires Below(d, s) && x < |d.node| && IsPicked(d, s, test, ns, at)
    ensures Below(d, s + [x])
    ensures if test(d.node[x]) then IsPicked(d, s + [x], test, ns + [d.node[x]], at + [|s|]) else IsPicked(d, s + [x], test, ns, at)
  {
    var t := s + [x];
    assert t[|s|] == x && forall p: nat :: p < |s| ==> t[p] == s[p];
    if test(d.node[x]) {
      var more := at + [|s|];
      forall p: nat | p < |t| && test(d.node[t[p]]) ensures p in more {
        if p < |s| {
          assert p in at;
        } else {
          assert more[|at|] == p;
        }
      }
    }
  }

  function StepPush(ns: seq<nat>, n: nat, test: nat -> bool): seq<nat> {
    if test(n) then ns + [n] else ns
  }

  lemma RangeNext(d: Numbering, a: nat, x: nat, test: nat -> bool)
    requires a <= x < |d.node|
    ensures Below(d, Range(a, x)) && Below(d, Range(a, x + 1))
    ensures Picked(d, Range(a, x + 1), test) == StepPush(Picked(d, Range(a, x), test), d.node[x], test)
  {
    RangeRises(a, x);
    RangeRises(a, x + 1);
    PickedNext(d, Range(a, x), x, test);
  }

  /** Leaves x's subtree: goes up to the nearest node with a next sibling; stops at `top` or above the root. */
  method NextOutside(h: Heap, cur0: nat, top: int, ghost d: Numbering, ghost x: nat, ghost t: int) returns (cur: int)
    requires Numbered(h, d) && x < |d.node| && cur0 == d.node[x] && -1 <= t < x && top == At(d, t)
    requires t >= 0 ==> x < d.end[t]
    ensures cur == (if d.end[x] < (if t >= 0 then d.end[t] else |d.node|) then d.node[d.end[x]] else NULL)
  {
    hide Numbered, Nested;
    Positions(h, d);
    ghost var y: nat := x;
    cur := cur0;
    LinksAt(h, d, x);
    while h[cur].next < 0
      invariant y < |d.node| && t < y && cur == d.node[y] && cur < |h| && d.end[y] == d.end[x]
      invariant t >= 0 ==> y < d.end[t]
      decreases y
    {
      LinksAt(h, d, y);
      LastChildEnds(h, d, y, t);
      cur := h[cur].parent;
      if y > 0 { LinksAt(h, d, d.up[y]); }
      SameAt(h, d, d.up[y], t);
      if cur == top {
        return NULL;
      }
      y := d.up[y];
    }
    LinksAt(h, d, y);
    NextInside(h, d, y, t);
    cur := h[cur].next;
  }

  /** A node without a next sibling ends where its parent ends, or is the root. */
  lemma LastChildEnds(h: Heap, d: Numbering, y: nat, t: int)
    requires Numbered(h, d) && y < |d.node| && d.node[y] < |h| && h[d.node[y]].next < 0 && -1 <= t < y && (t >= 0 ==> y < d.end[t])
    ensures if y == 0 then d.end[y] == |d.node| && d.up[y] == -1 else d.up[y] >= t && d.end[d.up[y]] == d.end[y]
    ensures d.up[y] == t && t >= 0 ==> d.end[y] == d.end[t]
    ensures d.up[y] > t && t >= 0 ==> d.up[y] < d.end[t]
    ensures h[d.node[y]].parent == At(d, d.up[y]) && -1 <= d.up[y] < y
  {
    LinksAt(h, d, y);
    if t >= 0 { BetweenEnds(d, y, t); }
  }

  lemma NextInside(h: Heap, d: Numbering, y: nat, t: int)
    requires Numbered(h, d) && y < |d.node| && d.node[y] < |h| && h[d.node[y]].next >= 0 && -1 <= t < y && (t >= 0 ==> y < d.end[t])
    ensures d.end[y] < (if t >= 0 then d.end[t] else |d.node|) && h[d.node[y]].next == d.node[d.end[y]]
  {
    LinksAt(h, d, y);
    if t >= 0 {
      BetweenEnds(d, y, t);
      InsideEnds(d, t, d.up[y]);
    }
  }

  /** The descendants, in document order. */
  method Descendants(h: Heap, n: nat, test: nat -> bool, ghost d: Numbering, ghost i: nat) returns (ns: seq<nat>)
    requires Numbered(h, d) && i < |d.node| && n == d.node[i]
    ensures Nested(d) && Below(d, Range(i + 1, d.end[i])) && ns == Picked(d, Range(i + 1, d.end[i]), test)
  {
    hide Numbered, Nested, Picked, Range, Below;
    Positions(h, d);
    LinksAt(h, d, i);
    RangeFirst(d, i + 1, test);
    ns := [];
    var cur := h[n].firstChild;
    ghost var x: nat := i + 1;
    while cur >= 0
      invariant i < x <= d.end[i] <= |d.node| && cur == (if x < d.end[i] then d.node[x] else NULL)
      invariant Below(d, Range(i + 1, x)) && ns == Picked(d, Range(i + 1, x), test)
      decreases d.end[i] - x
    {
      LinksAt(h, d, x);
      RangeNext(d, i + 1, x, test);
      ns := StepPush(ns, cur, test);
      InsideEnds(d, i, x);
      if h[cur].firstChild >= 0 {
        cur := h[cur].firstChild;
      } else {
        cur := NextOutside(h, cur, n, d, x, i);
      }
      x := x + 1;
    }
  }

  lemma RangeFirst(d: Numbering, a: nat, test: nat -> bool)
    ensures Below(d, Range(a, a)) && Picked(d, Range(a, a), test) == []
  {}

  /** What follows the node and its descendants, in document order. */
  method Following(h: Heap, n: nat, test: nat -> bool, ghost d: Numbering, ghost i: nat) returns (ns: seq<nat>)
    requires Numbered(h, d) && i < |d.node| && n == d.node[i]
    ensures Nested(d) && d.end[i] <= |d.node| && Below(d, Range(d.end[i], |d.node|)) && ns == Picked(d, Range(d.end[i], |d.node|), test)
  {
    hide Numbered, Nested, Picked, Range, Below;
    Positions(h, d);
    LinksAt(h, d, i);
    RangeFirst(d, d.end[i], test);
    ns := [];
    var cur := NextOutside(h, n, NULL, d, i, -1);
    ghost var x: nat := d.end[i];
    while cur >= 0
      invariant d.end[i] <= x <= |d.node| && cur == (if x < |d.node| then d.node[x] else NULL)
      invariant Below(d, Range(d.end[i], x)) && ns == Picked(d, Range(d.end[i], x), test)
      decreases |d.node| - x
    {
      LinksAt(h, d, x);
      RangeNext(d, d.end[i], x, test);
      ns := StepPush(ns, cur, test);
      if h[cur].firstChild >= 0 {
        cur := h[cur].firstChild;
      } else {
        cur := NextOutside(h, cur, NULL, d, x, -1);
      }
      x := x + 1;
    }
  }

  // ----- ancestors -----

  lemma {:induction false} AncestorGap(d: Numbering, i: nat, a: nat, b: nat)
    requires i <= |d.end| && a <= b <= i && forall x :: a <= x < b ==> d.end[x] <= i
    ensures AncestorList(d, i, a) == AncestorList(d, i, b)
    decreases b - a
  {
    if a < b { AncestorGap(d, i, a + 1, b); }
  }

  lemma ListBelow(d: Numbering, i: nat, e: nat)
    requires Nested(d) && i <= |d.node|
    ensures Below(d, AncestorList(d, i, e)) && Below(d, PrecedingList(d, i, e))
  {
    forall k | 0 <= k < |AncestorList(d, i, e)| ensures AncestorList(d, i, e)[k] < |d.node| {
      AncestorHolds(d, i, e, AncestorList(d, i, e)[k]);
    }
    forall k | 0 <= k < |PrecedingList(d, i, e)| ensures PrecedingList(d, i, e)[k] < |d.node| {
      PrecedingHolds(d, i, e, PrecedingList(d, i, e)[k]);
    }
  }

  /** The ancestors, from the parent up. */
  method Ancestors(h: Heap, n: nat, test: nat -> bool, ghost d: Numbering, ghost i: nat) returns (ns: seq<nat>)
    requires Numbered(h, d) && i < |d.node| && n == d.node[i]
    ensures Nested(d) && Below(d, AncestorList(d, i, 0)) && ns == Picked(d, AncestorList(d, i, 0), test)
  {
    hide Numbered, Nested, Picked, AncestorList, Below;
    Positions(h, d);
    LinksAt(h, d, i);
    ListBelow(d, i, i);
    NoAncestors(d, i, test);
    Lengths(d);
    ns := [];
    var cur := h[n].parent;
    ghost var y: nat := i;
    while cur >= 0
      invariant y <= i && i < d.end[y] && cur == At(d, d.up[y]) && (y == 0 <==> d.up[y] < 0) && -1 <= d.up[y] < y
      invariant Below(d, AncestorList(d, i, y)) && ns == Picked(d, AncestorList(d, i, y), test)
      decreases y
    {
      ghost var p: nat := d.up[y];
      NextAncestor(d, i, y, test);
      ns := StepPush(ns, cur, test);
      LinksAt(h, d, y);
      LinksAt(h, d, p);
      cur := h[cur].parent;
      y := p;
      RootUp(d, y);
    }
  }

  lemma Lengths(d: Numbering)
    requires Nested(d)
    ensures |d.end| == |d.up| == |d.prev| == |d.node|
    ensures d.up[0] == -1
  {}

  lemma RootUp(d: Numbering, y: nat)
    requires Nested(d) && y < |d.node|
    ensures (y == 0 <==> d.up[y] < 0) && -1 <= d.up[y] < y
  {}

  lemma NoAncestors(d: Numbering, i: nat, test: nat -> bool)
    requires Nested(d) && i < |d.node|
    ensures AncestorList(d, i, i) == [] && Picked(d, AncestorList(d, i, i), test) == [] && (i == 0 <==> d.up[i] < 0) && -1 <= d.up[i] < i
  {}

  lemma NextAncestor(d: Numbering, i: nat, y: nat, test: nat -> bool)
    requires Nested(d) && y <= i < |d.node| && i < d.end[y] && d.up[y] >= 0 && Below(d, AncestorList(d, i, y))
    ensures var p := d.up[y];
            && p < y && i < d.end[p] && Below(d, AncestorList(d, i, p))
            && Picked(d, AncestorList(d, i, p), test) == StepPush(Picked(d, AncestorList(d, i, y), test), d.node[p], test)
  {
    var p := d.up[y];
    assert y > 0;
    forall x | p + 1 <= x < y ensures d.end[x] <= i {
      BetweenEnds(d, y, x);
    }
    AncestorGap(d, i, p + 1, y);
    ListBelow(d, i, p);
    PickedNext(d, AncestorList(d, i, y), p, test);
  }

  // ----- preceding -----

  /** Whether p is n or an ancestor of n. */
  method NodeIsAncestor(h: Heap, p: nat, n: nat, ghost d: Numbering, ghost j: nat, ghost i: nat) returns (b: bool)
    requires Numbered(h, d) && i < |d.node| && j < |d.node| && n == d.node[i] && p == d.node[j]
    ensures Nested(d) && (b <==> j <= i < d.end[j])
  {
    hide Numbered, Nested, Above;
    Positions(h, d);
    var cur: int := n;
    ghost var y: int := i;
    LinksAt(h, d, i);
    LinksAt(h, d, j);
    while cur >= 0 && cur != p
      invariant -1 <= y < |d.node| && cur == At(d, y) < |h|
      invariant (j <= i < d.end[j]) <==> y >= 0 && j <= y < d.end[j]
      decreases y
    {
      LinksAt(h, d, y);
      SameNode(h, d, y, j);
      AncestorClimbs(d, j, y);
      cur := h[cur].parent;
      y := d.up[y];
      if y >= 0 { LinksAt(h, d, y); }
    }
    if y >= 0 { SameNode(h, d, y, j); }
    b := cur == p;
  }

  lemma AncestorClimbs(d: Numbering, j: nat, y: nat)
    requires Nested(d) && y < |d.node| && j < |d.node| && j != y
    ensures -1 <= d.up[y] < y
    ensures j <= y < d.end[j] <==> d.up[y] >= 0 && j <= d.up[y] < d.end[j]
  {
    if y > 0 { AboveParent(d, j, y); }
  }

  /** A node whose prev has no next is the root or a first child. */
  lemma FirstOrNot(h: Heap, d: Numbering, y: nat)
    requires Numbered(h, d) && y < |d.node|
    ensures d.node[y] < |h| && 0 <= h[d.node[y]].prev < |h| && h[d.node[y]].parent == At(d, d.up[y]) && -1 <= d.up[y] < y
    ensures if h[h[d.node[y]].prev].next < 0 then d.up[y] == y - 1
            else y > 0 && d.prev[y] < y && h[d.node[y]].prev == d.node[d.prev[y]] && d.end[d.prev[y]] == y
  {
    LinksAt(h, d, y);
    LinksAt(h, d, d.prev[y]);
  }

  lemma LastBelow(h: Heap, d: Numbering, c: nat)
    requires Numbered(h, d) && c < |d.node| && d.node[c] < |h|
    ensures h[d.node[c]].firstChild >= 0 ==>
              var f := h[d.node[c]].firstChild;
              && f < |h| && c + 1 < |d.node| && c < d.prev[c + 1] < |d.node| && h[f].prev == d.node[d.prev[c + 1]] && d.end[d.prev[c + 1]] == d.end[c]
    ensures h[d.node[c]].firstChild < 0 ==> d.end[c] == c + 1
  {
    LinksAt(h, d, c);
    if c + 1 < d.end[c] {
      LinksAt(h, d, c + 1);
      BetweenEnds(d, c + 1, c);
      ChildBelow(d, c);
    }
  }

  lemma ChildBelow(d: Numbering, c: nat)
    requires Nested(d) && c < |d.node| && c + 1 < d.end[c]
    ensures c + 1 < |d.node| && d.up[c + 1] == c
  {
    BetweenEnds(d, c + 1, c);
  }

  lemma PrecedingStep(d: Numbering, i: nat, e: nat, test: nat -> bool)
    requires Nested(d) && e < i < |d.node| && Below(d, PrecedingList(d, i, e + 1))
    ensures Below(d, PrecedingList(d, i, e))
    ensures Picked(d, PrecedingList(d, i, e), test)
            == if d.end[e] <= i then StepPush(Picked(d, PrecedingList(d, i, e + 1), test), d.node[e], test)
               else Picked(d, PrecedingList(d, i, e + 1), test)
  {
    ListBelow(d, i, e);
    if d.end[e] <= i { PickedNext(d, PrecedingList(d, i, e + 1), e, test); }
    else { assert PrecedingList(d, i, e) == PrecedingList(d, i, e + 1); }
  }

  /** e and all numbers up to i are ancestors of i, or i itself. */
  ghost predicate AllAround(d: Numbering, i: nat, e: nat) {
    e <= i < |d.end| && forall x :: e <= x <= i ==> d.end[x] > i
  }

  lemma AllAroundStart(d: Numbering, i: nat)
    requires Nested(d) && i < |d.node|
    ensures AllAround(d, i, i)
  {}

  lemma AllAroundStep(d: Numbering, i: nat, e: nat)
    requires Nested(d) && i < |d.node| && AllAround(d, i, e)
    ensures e > 0 && d.up[e] == e - 1 ==> AllAround(d, i, e - 1)
    ensures d.up[e] < 0 ==> e == 0
  {}

  lemma {:induction false} PrecedingGap(d: Numbering, i: nat, e: nat, test: nat -> bool)
    requires Nested(d) && i < |d.node| && AllAround(d, i, e)
    ensures Below(d, PrecedingList(d, i, e)) && Picked(d, PrecedingList(d, i, e), test) == []
    decreases i - e
  {
    if e < i {
      PrecedingGap(d, i, e + 1, test);
      PrecedingStep(d, i, e, test);
    }
  }

  /** The nodes that end before the node begins, in reverse document order. */
  method Preceding(h: Heap, n: nat, test: nat -> bool, ghost d: Numbering, ghost i: nat) returns (ns: seq<nat>)
    requires Numbered(h, d) && i < |d.node| && n == d.node[i]
    ensures Nested(d) && Below(d, PrecedingList(d, i, 0)) && ns == Picked(d, PrecedingList(d, i, 0), test)
  {
    hide Numbered, Nested, Picked, PrecedingList, Below;
    Positions(h, d);
    Lengths(d);
    ns := [];
    var cur, e := LastBefore(h, n, test, d, i);
    if cur < 0 { return; }
    ghost var c: nat := d.prev[e];
    while cur >= 0
      invariant c < e <= i && cur == d.node[c] && d.end[c] == e
      invariant Below(d, PrecedingList(d, i, e)) && ns == Picked(d, PrecedingList(d, i, e), test)
      decreases e, e - c
    {
      LinksAt(h, d, c);
      LastBelow(h, d, c);
      if h[cur].firstChild >= 0 {
        LinksAt(h, d, d.prev[c + 1]);
        cur := h[h[cur].firstChild].prev;
        c := d.prev[c + 1];
      } else {
        PrecedingStep(d, i, c, test);
        ns := StepPush(ns, cur, test);
        var done;
        cur, ns, done, c := ClimbPreceding(h, n, cur, ns, test, d, i, c);
        if done { return; }
        e := d.end[c];
      }
    }
  }

  /** The nearest earlier sibling of the node or of an ancestor; null when there is none. */
  method LastBefore(h: Heap, n: nat, ghost test: nat -> bool, ghost d: Numbering, ghost i: nat) returns (cur: int, ghost e: nat)
    requires Numbered(h, d) && i < |d.node| && n == d.node[i]
    ensures Nested(d) && e <= i && e < |d.node| && e < |d.prev| && Below(d, PrecedingList(d, i, e)) && Picked(d, PrecedingList(d, i, e), test) == []
    ensures if cur < 0 then e == 0 else d.prev[e] < e && cur == d.node[d.prev[e]] && d.end[d.prev[e]] == e
  {
    hide Numbered, Nested, Picked, PrecedingList, Below;
    Positions(h, d);
    Lengths(d);
    cur := n;
    e := i;
    FirstOrNot(h, d, i);
    LinksAt(h, d, i);
    AllAroundStart(d, i);
    while h[h[cur].prev].next < 0
      invariant e <= i && cur == d.node[e] && cur < |h| && 0 <= h[cur].prev < |h| && AllAround(d, i, e)
      decreases e
    {
      hide AllAround;
      FirstOrNot(h, d, e);
      AllAroundStep(d, i, e);
      cur := h[cur].parent;
      if cur < 0 {
        PrecedingGap(d, i, 0, test);
        e := 0;
        return;
      }
      e := d.up[e];
      FirstOrNot(h, d, e);
    }
    PrecedingGap(d, i, e, test);
    FirstOrNot(h, d, e);
    cur := h[cur].prev;
    LinksAt(h, d, d.prev[e]);
  }

  /** Goes up over first children, taking those that are not ancestors, to the node before. */
  method ClimbPreceding(h: Heap, n: nat, from: nat, ns0: seq<nat>, test: nat -> bool, ghost d: Numbering, ghost i: nat, ghost c0: nat)
    returns (cur: int, ns: seq<nat>, done: bool, ghost c: nat)
    requires Numbered(h, d) && i < |d.node| && n == d.node[i] && c0 < i && from == d.node[c0]
    requires Nested(d) && Below(d, PrecedingList(d, i, c0)) && ns0 == Picked(d, PrecedingList(d, i, c0), test)
    ensures !done ==> c < |d.end| && c < |d.node| && c < d.end[c] <= c0 && cur == d.node[c] && Below(d, PrecedingList(d, i, d.end[c]))
                      && ns == Picked(d, PrecedingList(d, i, d.end[c]), test)
    ensures done ==> Below(d, PrecedingList(d, i, 0)) && ns == Picked(d, PrecedingList(d, i, 0), test)
  {
    hide Numbered, Nested, Picked, PrecedingList, Below;
    cur, ns, done, c := from, ns0, false, c0;
    Lengths(d);
    FirstOrNot(h, d, c);
    while h[h[cur].prev].next < 0
      invariant c <= c0 && cur == d.node[c] && cur < |h| && 0 <= h[cur].prev < |h|
      invariant Below(d, PrecedingList(d, i, c)) && ns == Picked(d, PrecedingList(d, i, c), test)
      decreases c
    {
      FirstOrNot(h, d, c);
      cur := h[cur].parent;
      if cur < 0 {
        done := true;
        return;
      }
      c := d.up[c];
      PrecedingStep(d, i, c, test);
      LinksAt(h, d, c);
      var isAncestor := NodeIsAncestor(h, cur, n, d, c, i);
      if !isAncestor {
        ns := StepPush(ns, cur, test);
      }
      FirstOrNot(h, d, c);
    }
    FirstOrNot(h, d, c);
    cur := h[cur].prev;
    c := d.prev[c];
    LinksAt(h, d, c);
  }
}
