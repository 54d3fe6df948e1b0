/** Copying a subtree without recursion, possibly into a place inside itself. */
module DomCopy {
  import opened DomTree
  import opened DomMove

  /** The document when copying starts: dn is an empty node already in place, sn the node to copy. */
  datatype Source = Source(heap: Heap, kids: seq<seq<nat>>, rank: seq<nat>, dn: nat, sn: nat)

  ghost predicate GoodSource(s: Source) {
    && Linked(s.heap, s.kids) && Ranked(s.heap, s.rank)
    && s.dn < |s.heap| && s.sn < |s.heap| && s.dn != s.sn && s.kids[s.dn] == []
  }

  /** iso maps every node visited so far to its copy; cnt says how many of its children were dealt with. */
  datatype Progress = Progress(iso: map<nat, nat>, cnt: seq<nat>)

  ghost predicate Mapped(iso: map<nat, nat>, l: seq<nat>, dn: nat) {
    forall i :: 0 <= i < |l| && l[i] != dn ==> l[i] in iso
  }

  /** The copies of the listed nodes, leaving out dn. */
  ghost function Image(iso: map<nat, nat>, l: seq<nat>, dn: nat): seq<nat>
    requires Mapped(iso, l, dn)
  {
    if l == [] then [] else
      Image(iso, l[..|l| - 1], dn) + (if l[|l| - 1] == dn then [] else [iso[l[|l| - 1]]])
  }

  lemma {:induction false} ImageSame(iso: map<nat, nat>, x: nat, v: nat, l: seq<nat>, dn: nat)
    requires Mapped(iso, l, dn) && x !in iso
    ensures Mapped(iso[x := v], l, dn) && Image(iso[x := v], l, dn) == Image(iso, l, dn)
  {
    if l != [] {
      ImageSame(iso, x, v, l[..|l| - 1], dn);
    }
  }

  lemma {:induction false} ImageIn(iso: map<nat, nat>, l: seq<nat>, dn: nat, c: nat)
    requires Mapped(iso, l, dn) && c in l && c != dn
    ensures iso[c] in Image(iso, l, dn)
  {
    if l[|l| - 1] != c {
      assert c in l[..|l| - 1];
      ImageIn(iso, l[..|l| - 1], dn, c);
    }
  }

  lemma {:induction false} ImageOnly(iso: map<nat, nat>, l: seq<nat>, dn: nat, v: nat)
    requires Mapped(iso, l, dn) && v in Image(iso, l, dn)
    ensures exists c :: c in l && c != dn && c in iso && iso[c] == v
  {
    if l[|l| - 1] == dn || iso[l[|l| - 1]] != v {
      ImageOnly(iso, l[..|l| - 1], dn, v);
      var c :| c in l[..|l| - 1] && c != dn && c in iso && iso[c] == v;
      assert c in l;
    }
  }

  /** x is a counted child of its parent, which was visited too. */
  ghost predicate Counted(s: Source, p: Progress, x: nat)
    requires x < |s.heap| && |s.heap| == |s.kids|
  {
    var u := s.heap[x].parent;
    0 <= u < |s.heap| && u < |p.cnt| && u in p.iso && p.cnt[u] <= |s.kids[u]| && x in s.kids[u][..p.cnt[u]]
  }

  /** The copy of x: same content, and as many children as were dealt with, in order, without dn. */
  ghost predicate CopyOf(s: Source, h: Heap, kids: seq<seq<nat>>, p: Progress, x: nat)
    requires x in p.iso && |s.heap| == |s.kids| == |p.cnt|
  {
    && x < |s.heap| && x != s.dn && p.iso[x] < |h| == |kids| && p.cnt[x] <= |s.kids[x]|
    && h[p.iso[x]].content == s.heap[x].content
    && Mapped(p.iso, s.kids[x][..p.cnt[x]], s.dn) && kids[p.iso[x]] == Image(p.iso, s.kids[x][..p.cnt[x]], s.dn)
    && (if x == s.sn then p.iso[x] == s.dn
        else p.iso[x] >= |s.heap| && h[p.iso[x]].kind == s.heap[x].kind && Counted(s, p, x))
  }

  /** Nodes outside dn are as they were. */
  ghost predicate Untouched(s: Source, h: Heap, kids: seq<seq<nat>>) {
    && |h| >= |s.heap| && |kids| == |h| && |s.kids| == |s.heap|
    && (forall y: nat :: y < |s.heap| && y != s.dn ==> h[y] == s.heap[y] && kids[y] == s.kids[y])
    && (s.dn < |s.heap| ==> h[s.dn] == s.heap[s.dn].(content := h[s.dn].content, firstChild := h[s.dn].firstChild))
  }

  ghost predicate OneToOne(iso: map<nat, nat>) {
    forall x, y :: x in iso && y in iso && iso[x] == iso[y] ==> x == y
  }

  ghost predicate State(s: Source, h: Heap, kids: seq<seq<nat>>, p: Progress) {
    && Linked(h, kids) && Untouched(s, h, kids) && |p.cnt| == |s.heap| && s.sn in p.iso && OneToOne(p.iso)
    && (forall x :: x in p.iso ==> CopyOf(s, h, kids, p, x))
  }

  /** The visited nodes on the way from sn down: each but the last is at the child that comes next. */
  ghost predicate PathOk(s: Source, p: Progress, path: seq<nat>) {
    && |p.cnt| == |s.kids| == |s.rank|
    && path != [] && path[0] == s.sn && (forall j :: 0 <= j < |path| ==> path[j] in p.iso && path[j] < |s.kids|)
    && (forall j :: 0 <= j < |path| - 1 ==> LeadsTo(s, p, path[j], path[j + 1]))
    && (forall j, k :: 0 <= j < k < |path| ==> s.rank[path[j]] < s.rank[path[k]])
  }

  /** v is the child of u that was counted last. */
  ghost predicate LeadsTo(s: Source, p: Progress, u: nat, v: nat)
    requires u < |p.cnt| == |s.kids|
  {
    0 < p.cnt[u] <= |s.kids[u]| && v == s.kids[u][p.cnt[u] - 1]
  }

  /** Whatever is not on the path is copied with all its children. */
  ghost predicate RestDone(s: Source, p: Progress, path: seq<nat>)
    requires |p.cnt| == |s.kids|
  {
    forall x :: x in p.iso && x !in path && x < |s.kids| ==> p.cnt[x] == |s.kids[x]|
  }

  function Bump(p: Progress, u: nat): Progress
    requires u < |p.cnt|
  {
    p.(cnt := p.cnt[u := p.cnt[u] + 1])
  }

  // ----- one step -----

  lemma StateParts(s: Source, h: Heap, kids: seq<seq<nat>>, p: Progress)
    requires State(s, h, kids, p)
    ensures Linked(h, kids) && Untouched(s, h, kids) && |p.cnt| == |s.heap| == |s.kids| && s.sn in p.iso && OneToOne(p.iso)
    ensures |h| == |kids| >= |s.heap|
  {}

  lemma StateAt(s: Source, h: Heap, kids: seq<seq<nat>>, p: Progress, x: nat)
    requires State(s, h, kids, p) && x in p.iso
    ensures |s.heap| == |s.kids| == |p.cnt| && CopyOf(s, h, kids, p, x)
    ensures x < |s.heap| && x != s.dn && p.iso[x] < |h| == |kids| && p.cnt[x] <= |s.kids[x]|
  {}

  lemma StateIs(s: Source, h: Heap, kids: seq<seq<nat>>, p: Progress)
    requires Linked(h, kids) && Untouched(s, h, kids) && |p.cnt| == |s.heap| == |s.kids| && s.sn in p.iso && OneToOne(p.iso)
    requires forall x :: x in p.iso ==> CopyOf(s, h, kids, p, x)
    ensures State(s, h, kids, p)
  {}

  /** The next child was not visited: it is not among the counted children of its parent. */
  lemma NextNotVisited(s: Source, h: Heap, kids: seq<seq<nat>>, p: Progress, u: nat, c: nat)
    requires GoodSource(s) && State(s, h, kids, p) && u in p.iso && u < |s.kids| == |p.cnt| && p.cnt[u] < |s.kids[u]|
    requires c == s.kids[u][p.cnt[u]]
    ensures c < |s.heap| && s.heap[c].parent == u && c != u && c !in s.kids[u][..p.cnt[u]]
    ensures c !in p.iso || c == s.sn
  {
    hide State, CopyOf, Linked, Ranked;
    StateParts(s, h, kids, p);
    KidAt(s.heap, s.kids, u, p.cnt[u]);
    if c in p.iso && c != s.sn {
      StateAt(s, h, kids, p, c);
      CopyCounted(s, h, kids, p, c);
    }
  }

  lemma CopyCounted(s: Source, h: Heap, kids: seq<seq<nat>>, p: Progress, x: nat)
    requires |s.heap| == |s.kids| == |p.cnt| && x in p.iso && CopyOf(s, h, kids, p, x) && x != s.sn
    ensures x < |s.heap| && Counted(s, p, x)
  {}

  /** Passing over dn keeps the state. */
  lemma SkipStep(s: Source, h: Heap, kids: seq<seq<nat>>, p: Progress, u: nat)
    requires State(s, h, kids, p) && u in p.iso && u < |s.kids| == |p.cnt| && p.cnt[u] < |s.kids[u]|
    requires s.kids[u][p.cnt[u]] == s.dn
    ensures State(s, h, kids, Bump(p, u))
  {
    hide State, CopyOf;
    var q := Bump(p, u);
    StateParts(s, h, kids, p);
    forall x | x in q.iso ensures CopyOf(s, h, kids, q, x) {
      StateAt(s, h, kids, p, x);
      SkippedCopy(s, h, kids, p, u, x);
    }
    StateIs(s, h, kids, q);
  }

  lemma SkippedCopy(s: Source, h: Heap, kids: seq<seq<nat>>, p: Progress, u: nat, x: nat)
    requires |s.heap| == |s.kids| == |p.cnt| && x in p.iso && CopyOf(s, h, kids, p, x) && u < |s.kids| && p.cnt[u] < |s.kids[u]|
    requires s.kids[u][p.cnt[u]] == s.dn
    ensures CopyOf(s, h, kids, Bump(p, u), x)
  {
    hide Counted;
    if x != s.sn { StillCounted(s, p, u, x); }
    if x == u {
      ImageSkip(p.iso, s.kids[u], p.cnt[u], s.dn);
    }
  }

  lemma ImageSkip(iso: map<nat, nat>, l: seq<nat>, n: nat, dn: nat)
    requires n < |l| && l[n] == dn && Mapped(iso, l[..n], dn)
    ensures Mapped(iso, l[..n + 1], dn) && Image(iso, l[..n + 1], dn) == Image(iso, l[..n], dn)
  {
    assert l[..n + 1][..n] == l[..n];
    var m := l[..n + 1];
    forall i | 0 <= i < |m| && m[i] != dn ensures m[i] in iso {
      assert l[..n][i] == m[i];
    }
  }

  lemma StillCounted(s: Source, p: Progress, u: nat, x: nat)
    requires |s.heap| == |s.kids| == |p.cnt| && x < |s.heap| && Counted(s, p, x) && u < |p.cnt| && p.cnt[u] < |s.kids[u]|
    ensures Counted(s, Bump(p, u), x)
  {
    var l := s.kids[u];
    assert l[..p.cnt[u] + 1] == l[..p.cnt[u]] + [l[p.cnt[u]]];
  }

  /** The progress after u's next child c got its copy. */
  function Visit(p: Progress, u: nat, c: nat, copy: nat): Progress
    requires u < |p.cnt| && c < |p.cnt|
  {
    Progress(p.iso[c := copy], p.cnt[u := p.cnt[u] + 1][c := 0])
  }

  /** What appending the copy of c changes. */
  ghost predicate CopyAdded(s: Source, h: Heap, kids: seq<seq<nat>>, h': Heap, kids': seq<seq<nat>>, d: nat, c: nat, copy: nat)
    requires c < |s.heap|
  {
    && copy == |h| == |kids| && |h'| == |kids'| == copy + 1 && d < copy
    && kids' == (kids + [[]])[d := kids[d] + [copy]]
    && h'[copy].kind == s.heap[c].kind && h'[copy].content == s.heap[c].content
    && (forall x: nat :: x < copy ==> h'[x].kind == h[x].kind && h'[x].content == h[x].content)
  }

  /** A new last child of u's copy becomes the copy of u's next child. */
  lemma VisitStep(s: Source, h: Heap, kids: seq<seq<nat>>, h': Heap, kids': seq<seq<nat>>, p: Progress, u: nat, c: nat, copy: nat)
    requires GoodSource(s) && State(s, h, kids, p) && u in p.iso && u < |s.kids| == |p.cnt| && p.cnt[u] < |s.kids[u]|
    requires c == s.kids[u][p.cnt[u]] && c != s.dn && c != s.sn && c < |s.heap| == |s.kids|
    requires Linked(h', kids') && CopyAdded(s, h, kids, h', kids', p.iso[u], c, copy) && Untouched(s, h', kids')
    ensures c !in p.iso && c != u && State(s, h', kids', Visit(p, u, c, copy))
  {
    hide State, CopyOf, Linked, CopyAdded, GoodSource, Untouched;
    StateParts(s, h, kids, p);
    NextNotVisited(s, h, kids, p, u, c);
    var q := Visit(p, u, c, copy);
    FreshCopy(s, h, kids, p, h', kids', p.iso[u], c, copy);
    forall x | x in q.iso ensures CopyOf(s, h', kids', q, x) {
      if x == c {
        NewCopy(s, h, kids, h', kids', p, u, c, copy);
      } else {
        StateAt(s, h, kids, p, x);
        if x == u {
          ParentCopy(s, h, kids, h', kids', p, u, c, copy);
        } else {
          StateAt(s, h, kids, p, u);
          OtherCopy(s, h, kids, h', kids', p, u, c, copy, x);
        }
      }
    }
    StateIs(s, h', kids', q);
  }

  lemma FreshCopy(s: Source, h: Heap, kids: seq<seq<nat>>, p: Progress, h': Heap, kids': seq<seq<nat>>, d: nat, c: nat, copy: nat)
    requires State(s, h, kids, p) && c < |s.heap| && CopyAdded(s, h, kids, h', kids', d, c, copy) && c !in p.iso
    ensures OneToOne(p.iso[c := copy]) && copy >= |s.heap|
  {
    hide CopyOf;
    forall x | x in p.iso ensures p.iso[x] < copy {
      StateAt(s, h, kids, p, x);
    }
  }

  lemma NewCopy(s: Source, h: Heap, kids: seq<seq<nat>>, h': Heap, kids': seq<seq<nat>>, p: Progress, u: nat, c: nat, copy: nat)
    requires |s.heap| == |s.kids| == |p.cnt| && u in p.iso && u < |s.kids| && p.cnt[u] < |s.kids[u]| && u != c
    requires c < |s.heap| && c == s.kids[u][p.cnt[u]] && c != s.dn && c != s.sn && s.heap[c].parent == u
    requires CopyAdded(s, h, kids, h', kids', p.iso[u], c, copy) && copy >= |s.heap|
    ensures CopyOf(s, h', kids', Visit(p, u, c, copy), c)
  {
    var l := s.kids[u];
    assert l[..p.cnt[u] + 1][p.cnt[u]] == c;
    assert s.kids[c][..0] == [];
  }

  lemma ParentCopy(s: Source, h: Heap, kids: seq<seq<nat>>, h': Heap, kids': seq<seq<nat>>, p: Progress, u: nat, c: nat, copy: nat)
    requires |s.heap| == |s.kids| == |p.cnt| && u in p.iso && u < |s.kids| && p.cnt[u] < |s.kids[u]| && u != c && c !in p.iso
    requires c < |s.heap| && c == s.kids[u][p.cnt[u]] && c != s.dn
    requires CopyAdded(s, h, kids, h', kids', p.iso[u], c, copy) && CopyOf(s, h, kids, p, u)
    ensures CopyOf(s, h', kids', Visit(p, u, c, copy), u)
  {
    hide Counted;
    ImageVisit(p.iso, s.kids[u], p.cnt[u], s.dn, copy);
    if u != s.sn { CountedAfterVisit(s, p, u, c, copy, u); }
  }

  lemma ImageVisit(iso: map<nat, nat>, l: seq<nat>, n: nat, dn: nat, copy: nat)
    requires n < |l| && l[n] != dn && l[n] !in iso && Mapped(iso, l[..n], dn)
    ensures var iso' := iso[l[n] := copy];
            Mapped(iso', l[..n + 1], dn) && Image(iso', l[..n + 1], dn) == Image(iso, l[..n], dn) + [copy]
  {
    assert l[..n + 1][..n] == l[..n];
    ImageSame(iso, l[n], copy, l[..n], dn);
    var m := l[..n + 1];
    forall i | 0 <= i < |m| && m[i] != dn ensures m[i] in iso[l[n] := copy] {
      if i < n { assert l[..n][i] == m[i]; }
    }
  }

  lemma CountedAfterVisit(s: Source, p: Progress, u: nat, c: nat, copy: nat, x: nat)
    requires |s.heap| == |s.kids| == |p.cnt| && u < |s.kids| && p.cnt[u] < |s.kids[u]| && c < |s.heap| && c !in p.iso
    requires x < |s.heap| && Counted(s, p, x)
    ensures Counted(s, Visit(p, u, c, copy), x)
  {
    StillCounted(s, p, u, x);
  }

  lemma OtherCopy(s: Source, h: Heap, kids: seq<seq<nat>>, h': Heap, kids': seq<seq<nat>>, p: Progress, u: nat, c: nat, copy: nat,
                  x: nat)
    requires |s.heap| == |s.kids| == |p.cnt| && u in p.iso && u < |s.kids| && p.cnt[u] < |s.kids[u]| && c !in p.iso
    requires c < |s.heap| && x in p.iso && x != u && OneToOne(p.iso) && p.iso[u] < |h|
    requires CopyAdded(s, h, kids, h', kids', p.iso[u], c, copy) && CopyOf(s, h, kids, p, x)
    ensures CopyOf(s, h', kids', Visit(p, u, c, copy), x)
  {
    hide Counted;
    ImageSame(p.iso, c, copy, s.kids[x][..p.cnt[x]], s.dn);
    if x != s.sn { CountedAfterVisit(s, p, u, c, copy, x); }
  }

  // ----- the path -----

  lemma PathLast(s: Source, p: Progress, path: seq<nat>)
    requires PathOk(s, p, path)
    ensures path != []
    ensures var u := path[|path| - 1]; u in p.iso && u < |s.kids| == |p.cnt| && (u != s.sn ==> |path| > 1 && s.rank[s.sn] < s.rank[u])
    ensures path[0] == s.sn && (|path| > 1 ==> s.sn != path[|path| - 1])
  {}

  /** Nothing before the last node of the path changes its count. */
  lemma PathKept(s: Source, p: Progress, q: Progress, path: seq<nat>)
    requires PathOk(s, p, path) && |q.cnt| == |p.cnt| && forall x :: x in p.iso ==> x in q.iso
    requires forall x :: x in path && x != path[|path| - 1] ==> q.cnt[x] == p.cnt[x]
    ensures PathOk(s, q, path)
  {
    forall j | 0 <= j < |path| - 1 ensures LeadsTo(s, q, path[j], path[j + 1]) {
      assert s.rank[path[j]] < s.rank[path[|path| - 1]];
      assert path[j] in path;
      assert LeadsTo(s, p, path[j], path[j + 1]);
    }
  }

  lemma PathSkip(s: Source, p: Progress, path: seq<nat>)
    requires PathOk(s, p, path) && RestDone(s, p, path) && p.cnt[path[|path| - 1]] < |s.kids[path[|path| - 1]]|
    ensures var q := Bump(p, path[|path| - 1]); PathOk(s, q, path) && RestDone(s, q, path)
  {
    PathLast(s, p, path);
    PathKept(s, p, Bump(p, path[|path| - 1]), path) by { hide PathOk, RestDone; }
    hide PathOk;
    assert path[|path| - 1] in path;
  }

  lemma PathLeaf(s: Source, p: Progress, path: seq<nat>, c: nat, copy: nat)
    requires PathOk(s, p, path) && RestDone(s, p, path) && p.cnt[path[|path| - 1]] < |s.kids[path[|path| - 1]]|
    requires c < |p.cnt| && c !in p.iso && s.kids[c] == []
    ensures var q := Visit(p, path[|path| - 1], c, copy); PathOk(s, q, path) && RestDone(s, q, path)
  {
    PathLast(s, p, path);
    NotOnPath(s, p, path, c);
    PathKept(s, p, Visit(p, path[|path| - 1], c, copy), path) by { hide PathOk, RestDone; }
    hide PathOk;
    assert path[|path| - 1] in path;
  }

  lemma NotOnPath(s: Source, p: Progress, path: seq<nat>, c: nat)
    requires PathOk(s, p, path) && c !in p.iso
    ensures c !in path
  {}

  lemma PathEnter(s: Source, p: Progress, path: seq<nat>, c: nat, copy: nat)
    requires PathOk(s, p, path) && RestDone(s, p, path) && p.cnt[path[|path| - 1]] < |s.kids[path[|path| - 1]]|
    requires c < |p.cnt| && c !in p.iso && c == s.kids[path[|path| - 1]][p.cnt[path[|path| - 1]]]
    requires s.rank[path[|path| - 1]] < s.rank[c]
    ensures var q := Visit(p, path[|path| - 1], c, copy); PathOk(s, q, path + [c]) && RestDone(s, q, path + [c])
  {
    var u := path[|path| - 1];
    var q, r := Visit(p, u, c, copy), path + [c];
    PathLast(s, p, path);
    NotOnPath(s, p, path, c);
    PathKept(s, p, q, path) by { hide PathOk, RestDone; }
    PathLonger(s, q, path, c);
    hide PathOk;
    forall x | x in q.iso && x !in r && x < |s.kids| ensures q.cnt[x] == |s.kids[x]| {
      InLonger(path, c, x);
      assert u in path;
    }
  }

  lemma InLonger(path: seq<nat>, c: nat, x: nat)
    ensures x in path + [c] <==> x in path || x == c
  {}

  lemma PathLonger(s: Source, q: Progress, path: seq<nat>, c: nat)
    requires PathOk(s, q, path) && c in q.iso && c < |s.kids| && LeadsTo(s, q, path[|path| - 1], c)
    requires s.rank[path[|path| - 1]] < s.rank[c]
    ensures PathOk(s, q, path + [c])
  {
    var r := path + [c];
    forall j | 0 <= j < |r| - 1 ensures LeadsTo(s, q, r[j], r[j + 1]) {
      if j < |path| - 1 {
        assert LeadsTo(s, q, path[j], path[j + 1]);
      }
    }
    forall j, k | 0 <= j < k < |r| ensures s.rank[r[j]] < s.rank[r[k]] {
      if k == |path| && j < |path| - 1 {
        assert s.rank[path[j]] < s.rank[path[|path| - 1]];
      }
    }
  }

  lemma PathPop(s: Source, p: Progress, path: seq<nat>)
    requires PathOk(s, p, path) && RestDone(s, p, path) && |path| > 1
    requires p.cnt[path[|path| - 1]] == |s.kids[path[|path| - 1]]|
    ensures PathOk(s, p, path[..|path| - 1]) && RestDone(s, p, path[..|path| - 1])
  {
    var r := path[..|path| - 1];
    PathShorter(s, p, path);
    hide PathOk;
    forall x | x in p.iso && x !in r && x < |s.kids| ensures p.cnt[x] == |s.kids[x]| {
      assert path == r + [path[|path| - 1]];
      InLonger(r, path[|path| - 1], x);
    }
  }

  lemma PathShorter(s: Source, p: Progress, path: seq<nat>)
    requires PathOk(s, p, path) && |path| > 1
    ensures PathOk(s, p, path[..|path| - 1]) && LeadsTo(s, p, path[|path| - 2], path[|path| - 1])
  {
    var r := path[..|path| - 1];
    forall j | 0 <= j < |r| - 1 ensures LeadsTo(s, p, r[j], r[j + 1]) {
      assert LeadsTo(s, p, path[j], path[j + 1]);
    }
    assert LeadsTo(s, p, path[|path| - 2], path[|path| - 2 + 1]);
  }

  // ----- the finished copy -----

  ghost predicate AllDone(s: Source, p: Progress)
    requires |p.cnt| == |s.kids|
  {
    forall x :: x in p.iso && x < |s.kids| ==> p.cnt[x] == |s.kids[x]|
  }

  /** iso is an isomorphism from the subtree of sn, without dn, onto the subtree of dn. */
  ghost predicate Isomorphic(s: Source, h: Heap, kids: seq<seq<nat>>, iso: map<nat, nat>)
    requires GoodSource(s)
  {
    && OneToOne(iso) && s.sn in iso && iso[s.sn] == s.dn && |kids| == |h|
    && (forall x: nat :: x in iso <==> x < |s.heap| && Under(s.heap, s.rank, x, s.sn) && x != s.dn)
    && (forall x :: x in iso ==>
          && iso[x] < |h| && h[iso[x]].content == s.heap[x].content
          && (x != s.sn ==> iso[x] >= |s.heap| && h[iso[x]].kind == s.heap[x].kind)
          && Mapped(iso, s.kids[x], s.dn) && kids[iso[x]] == Image(iso, s.kids[x], s.dn))
  }

  lemma {:induction false} VisitedUnder(s: Source, h: Heap, kids: seq<seq<nat>>, p: Progress, x: nat)
    requires GoodSource(s) && State(s, h, kids, p) && x in p.iso && x < |s.heap|
    ensures Under(s.heap, s.rank, x, s.sn)
    decreases s.rank[x]
  {
    hide State, CopyOf, Linked;
    if x != s.sn {
      StateAt(s, h, kids, p, x);
      CopyCounted(s, h, kids, p, x);
      VisitedUnder(s, h, kids, p, s.heap[x].parent);
    }
  }

  lemma {:induction false} UnderVisited(s: Source, h: Heap, kids: seq<seq<nat>>, p: Progress, x: nat)
    requires GoodSource(s) && State(s, h, kids, p) && |p.cnt| == |s.kids| == |s.heap| && AllDone(s, p)
    requires x < |s.heap| && x != s.dn && Under(s.heap, s.rank, x, s.sn)
    ensures x in p.iso
    decreases s.rank[x]
  {
    hide State, CopyOf, Linked;
    if x == s.sn {
      StateParts(s, h, kids, p);
    } else {
      var u: nat := s.heap[x].parent;
      InParentList(s, x);
      UnderVisited(s, h, kids, p, u);
      StateAt(s, h, kids, p, u);
      FullyMapped(s, h, kids, p, u);
      var i :| 0 <= i < |s.kids[u]| && s.kids[u][i] == x;
    }
  }

  lemma InParentList(s: Source, x: nat)
    requires GoodSource(s) && x < |s.heap| && s.heap[x].parent != NULL
    ensures var u := s.heap[x].parent; 0 <= u < |s.heap| == |s.kids| && x in s.kids[u] && u != s.dn
  {
    assert ParentLinks(s.heap, s.kids, x);
  }

  lemma FullyMapped(s: Source, h: Heap, kids: seq<seq<nat>>, p: Progress, x: nat)
    requires |s.heap| == |s.kids| == |p.cnt| && x in p.iso && CopyOf(s, h, kids, p, x) && p.cnt[x] == |s.kids[x]|
    ensures x < |s.heap| && p.iso[x] < |h| == |kids| && h[p.iso[x]].content == s.heap[x].content
    ensures Mapped(p.iso, s.kids[x], s.dn) && kids[p.iso[x]] == Image(p.iso, s.kids[x], s.dn)
    ensures if x == s.sn then p.iso[x] == s.dn else p.iso[x] >= |s.heap| && h[p.iso[x]].kind == s.heap[x].kind
    ensures x != s.dn
  {
    assert s.kids[x][..p.cnt[x]] == s.kids[x];
  }

  lemma Finished(s: Source, h: Heap, kids: seq<seq<nat>>, p: Progress)
    requires GoodSource(s) && State(s, h, kids, p) && |p.cnt| == |s.kids| == |s.heap| && AllDone(s, p)
    ensures Isomorphic(s, h, kids, p.iso)
  {
    hide State, CopyOf, Linked, Ranked, GoodSource;
    StateParts(s, h, kids, p);
    forall x | x in p.iso
      ensures x < |s.heap| && p.iso[x] < |h| == |kids| && h[p.iso[x]].content == s.heap[x].content
      ensures Mapped(p.iso, s.kids[x], s.dn) && kids[p.iso[x]] == Image(p.iso, s.kids[x], s.dn) && x != s.dn
      ensures if x == s.sn then p.iso[x] == s.dn else p.iso[x] >= |s.heap| && h[p.iso[x]].kind == s.heap[x].kind
    {
      StateAt(s, h, kids, p, x);
      FullyMapped(s, h, kids, p, x);
    }
    SourceRanked(s);
    forall x: nat ensures x in p.iso <==> x < |s.heap| && Under(s.heap, s.rank, x, s.sn) && x != s.dn {
      if x in p.iso {
        VisitedUnder(s, h, kids, p, x);
      } else if x < |s.heap| && Under(s.heap, s.rank, x, s.sn) && x != s.dn {
        UnderVisited(s, h, kids, p, x);
      }
    }
  }

  lemma SourceRanked(s: Source)
    requires GoodSource(s)
    ensures Linked(s.heap, s.kids) && Ranked(s.heap, s.rank) && s.dn < |s.heap| && s.sn < |s.heap| && s.dn != s.sn
    ensures |s.kids| == |s.heap| && s.kids[s.dn] == []
  {}

  // ----- the walk -----

  /** Nodes still to come to: everything not visited, and dn until it was passed over. */
  ghost function Todo(s: Source, p: Progress, seen: bool): set<nat> {
    set x: nat | x < |s.heap| && x !in p.iso && (x == s.dn ==> !seen)
  }

  ghost predicate Passed(s: Source, p: Progress, seen: bool)
    requires |s.heap| == |s.kids|
  {
    seen ==> s.dn < |s.heap| && Counted(s, p, s.dn)
  }

  /** The walk stands before child number cnt of the last node on the path, with that node's copy at hand. */
  ghost predicate Standing(s: Source, p: Progress, path: seq<nat>, sit: int, dit: int) {
    && PathOk(s, p, path) && RestDone(s, p, path)
    && var u := path[|path| - 1];
       p.cnt[u] < |s.kids[u]| && sit == s.kids[u][p.cnt[u]] && dit == p.iso[u]
  }

  /** The walk has dealt with sit and all below it. */
  ghost predicate Leaving(s: Source, p: Progress, path: seq<nat>, sit: int, dit: int) {
    && PathOk(s, p, path) && RestDone(s, p, path)
    && var u := path[|path| - 1];
       0 < p.cnt[u] <= |s.kids[u]| && sit == s.kids[u][p.cnt[u] - 1] && dit == p.iso[u]
  }

  /** Before the walk: sn is mapped to dn, no child is dealt with. */
  lemma Begun(s: Source, h: Heap, kids: seq<seq<nat>>, p: Progress)
    requires GoodSource(s) && kids == s.kids && Linked(h, kids)
    requires h == s.heap[s.dn := s.heap[s.dn].(content := s.heap[s.sn].content)]
    requires p == Progress(map[s.sn := s.dn], seq(|s.heap|, _ => 0))
    ensures State(s, h, kids, p) && Passed(s, p, false) && PathOk(s, p, [s.sn]) && RestDone(s, p, [s.sn])
    ensures |s.kids| == |p.cnt| == |s.heap|
  {
    hide Linked, Ranked;
    StateLengths(s);
    assert s.kids[s.sn][..0] == [];
    assert Image(p.iso, [], s.dn) == [];
  }

  lemma StateLengths(s: Source)
    requires GoodSource(s)
    ensures |s.kids| == |s.heap| == |s.rank|
  {}

  lemma StartStanding(s: Source, h: Heap, kids: seq<seq<nat>>, p: Progress, sit: int, dit: int)
    requires GoodSource(s) && State(s, h, kids, p) && PathOk(s, p, [s.sn]) && RestDone(s, p, [s.sn])
    requires p == Progress(map[s.sn := s.dn], seq(|s.heap|, _ => 0)) && s.sn < |h| && sit == h[s.sn].firstChild && dit == s.dn
    ensures |p.cnt| == |s.kids| && if sit >= 0 && sit != s.sn then Standing(s, p, [s.sn], sit, dit) else AllDone(s, p)
  {
    hide Linked, Ranked, PathOk, RestDone, CopyOf;
    SourceRanked(s);
    ListOf(s.heap, s.kids, s.sn);
    if s.kids[s.sn] != [] {
      KidAt(s.heap, s.kids, s.sn, 0);
    }
  }

  /** The node the walk stands before: not visited yet, and its turn comes once. */
  lemma Arrive(s: Source, h: Heap, kids: seq<seq<nat>>, p: Progress, path: seq<nat>, sit: int, dit: int, seen: bool)
    requires GoodSource(s) && State(s, h, kids, p) && Standing(s, p, path, sit, dit) && |s.heap| == |s.kids| && Passed(s, p, seen)
    ensures path != []
    ensures var u := path[|path| - 1];
            && u in p.iso && u < |s.kids| == |p.cnt| && p.cnt[u] < |s.kids[u]| && sit == s.kids[u][p.cnt[u]] && dit == p.iso[u] < |h|
            && 0 <= sit < |s.heap| && sit !in p.iso && sit != s.sn && s.heap[sit].parent == u && |s.rank| == |s.heap|
            && s.rank[s.sn] <= s.rank[u] < s.rank[sit]
    ensures sit in Todo(s, p, seen)
  {
    hide State, CopyOf, Linked, RestDone;
    var u := path[|path| - 1];
    PathLast(s, p, path);
    StateAt(s, h, kids, p, u);
    NextNotVisited(s, h, kids, p, u, sit);
    assert s.rank[u] < s.rank[sit];
  }

  lemma {:induction false} UnderRank(h: Heap, rank: seq<nat>, n: nat, a: nat)
    requires Ranked(h, rank) && n < |h| && Under(h, rank, n, a)
    ensures a < |h| && rank[a] <= rank[n]
    decreases rank[n]
  {
    if n != a {
      UnderRank(h, rank, h[n].parent, a);
    }
  }

  /** The children of a copy are copies. */
  lemma CopiesBelow(s: Source, h: Heap, kids: seq<seq<nat>>, p: Progress, u: nat, y: nat)
    requires GoodSource(s) && State(s, h, kids, p) && u in p.iso && p.iso[u] < |kids| && y in kids[p.iso[u]]
    ensures y >= |s.heap|
  {
    hide State, Linked, Ranked, Counted;
    SourceRanked(s);
    StateAt(s, h, kids, p, u);
    var l := s.kids[u][..p.cnt[u]];
    ImageOnly(p.iso, l, s.dn, y);
    var c :| c in l && c != s.dn && c in p.iso && p.iso[c] == y;
    assert c in s.kids[u];
    KidParent(s.heap, s.kids, u, c);
    StateAt(s, h, kids, p, c);
    if c == s.sn {
      VisitedUnder(s, h, kids, p, u);
      UnderRank(s.heap, s.rank, u, s.sn);
      ParentRank(s, c);
    }
  }

  lemma ParentRank(s: Source, c: nat)
    requires GoodSource(s) && c < |s.heap| && s.heap[c].parent >= 0
    ensures s.heap[c].parent < |s.heap| && s.rank[s.heap[c].parent] < s.rank[c]
  {}

  /** Appending the copy of sit below dit. */
  method AppendCopy(tree: Tree, dit: nat, sit: nat, ghost s: Source, ghost p: Progress, ghost u: nat, ghost seen: bool)
    returns (copy: nat, ghost q: Progress)
    requires GoodSource(s) && Linked(tree.heap, tree.kids) && State(s, tree.heap, tree.kids, p)
    requires |s.heap| == |s.kids| == |p.cnt| && Passed(s, p, seen)
    requires u in p.iso && u < |s.kids| && p.cnt[u] < |s.kids[u]| && sit == s.kids[u][p.cnt[u]] && dit == p.iso[u] < |tree.heap|
    requires sit < |s.heap| && sit != s.dn && sit != s.sn && sit !in p.iso
    modifies tree
    ensures q == Visit(p, u, sit, copy) && Linked(tree.heap, tree.kids) && State(s, tree.heap, tree.kids, q)
    ensures Passed(s, q, seen) && |q.cnt| == |s.heap|
  {
    hide Linked, Ranked, GoodSource, State, CopyOf, Untouched, Counted;
    ghost var h, kids := tree.heap, tree.kids;
    StateParts(s, h, kids, p);
    StateAt(s, h, kids, p, u);
    copy := tree.AppendNewNode(dit, tree.heap[sit].kind);
    ghost var h1, kids1 := tree.heap, tree.kids;
    tree.CopyContents(copy, sit);
    AppendUntouched(s, h, kids, h1, tree.heap, tree.kids, p, u, sit, copy);
    q := Visit(p, u, sit, copy);
    VisitStep(s, h, kids, tree.heap, tree.kids, p, u, sit, copy);
    PassedVisit(s, p, u, sit, copy, seen);
  }

  lemma PassedVisit(s: Source, p: Progress, u: nat, c: nat, copy: nat, seen: bool)
    requires |s.heap| == |s.kids| == |p.cnt| && u < |s.kids| && p.cnt[u] < |s.kids[u]| && c < |s.heap| && c !in p.iso
    requires Passed(s, p, seen)
    ensures Passed(s, Visit(p, u, c, copy), seen)
  {
    hide Counted;
    if seen { CountedAfterVisit(s, p, u, c, copy, s.dn); }
  }

  /** Only dn, the copies and the links below them change. */
  lemma AppendUntouched(s: Source, h: Heap, kids: seq<seq<nat>>, h1: Heap, h2: Heap, kids2: seq<seq<nat>>, p: Progress, u: nat, c: nat,
                        copy: nat)
    requires GoodSource(s) && State(s, h, kids, p) && u in p.iso && p.iso[u] < |h| == |kids| == copy && |h1| == copy + 1
    requires c < |s.heap| <= |h| && c != s.dn && |s.heap| == |s.kids|
    requires kids2 == (kids + [[]])[p.iso[u] := kids[p.iso[u]] + [copy]]
    requires h1[copy].kind == h[c].kind && h2 == h1[copy := h1[copy].(content := h1[c].content)]
    requires forall x: nat :: x < copy && x != p.iso[u] && x !in kids[p.iso[u]] ==> h1[x] == h[x]
    requires forall x: nat :: x < copy ==> h1[x].kind == h[x].kind && h1[x].content == h[x].content
    requires h1[p.iso[u]] == h[p.iso[u]].(firstChild := h1[p.iso[u]].firstChild)
    ensures Untouched(s, h2, kids2) && CopyAdded(s, h, kids, h2, kids2, p.iso[u], c, copy)
  {
    hide State, CopyOf, Linked;
    StateParts(s, h, kids, p);
    StateAt(s, h, kids, p, u);
    var d := p.iso[u];
    CopyPlace(s, h, kids, p, u);
    forall y: nat | y < |s.heap| ensures y !in kids[d] {
      if y in kids[d] { CopiesBelow(s, h, kids, p, u, y); }
    }
    assert h[c] == s.heap[c];
  }

  lemma CopyPlace(s: Source, h: Heap, kids: seq<seq<nat>>, p: Progress, u: nat)
    requires |s.heap| == |s.kids| == |p.cnt| && u in p.iso && State(s, h, kids, p)
    ensures p.iso[u] == s.dn || p.iso[u] >= |s.heap|
  {
    hide CopyOf, Linked;
    StateAt(s, h, kids, p, u);
    CopyIsAt(s, h, kids, p, u);
  }

  lemma CopyIsAt(s: Source, h: Heap, kids: seq<seq<nat>>, p: Progress, u: nat)
    requires |s.heap| == |s.kids| == |p.cnt| && u in p.iso && CopyOf(s, h, kids, p, u)
    ensures p.iso[u] == s.dn || p.iso[u] >= |s.heap|
  {}

  /** In the source, the walk still reads what was there at first. */
  lemma ReadsSource(s: Source, h: Heap, kids: seq<seq<nat>>, x: nat)
    requires GoodSource(s) && Untouched(s, h, kids) && x < |s.heap|
    ensures x < |h| && h[x].next == s.heap[x].next && h[x].parent == s.heap[x].parent
    ensures x != s.dn ==> h[x] == s.heap[x] && h[x].firstChild == First(s.kids[x])
  {
    ListOf(s.heap, s.kids, x);
  }

  lemma Descend(s: Source, p: Progress, path: seq<nat>, c: nat, copy: nat)
    requires PathOk(s, p, path) && RestDone(s, p, path) && p.cnt[path[|path| - 1]] < |s.kids[path[|path| - 1]]|
    requires c < |p.cnt| && c !in p.iso && c == s.kids[path[|path| - 1]][p.cnt[path[|path| - 1]]]
    requires s.rank[path[|path| - 1]] < s.rank[c] && s.kids[c] != []
    ensures var q := Visit(p, path[|path| - 1], c, copy); Standing(s, q, path + [c], s.kids[c][0], copy)
  {
    hide PathOk, RestDone;
    PathLast(s, p, path);
    PathEnter(s, p, path, c, copy);
    var r := path + [c];
    assert r[|r| - 1] == c;
    PathLast(s, Visit(p, path[|path| - 1], c, copy), r);
  }

  lemma LeaveLeaf(s: Source, p: Progress, path: seq<nat>, c: nat, copy: nat, dit: int)
    requires PathOk(s, p, path) && RestDone(s, p, path) && p.cnt[path[|path| - 1]] < |s.kids[path[|path| - 1]]|
    requires c < |p.cnt| && c !in p.iso && c == s.kids[path[|path| - 1]][p.cnt[path[|path| - 1]]] && s.kids[c] == []
    requires dit == p.iso[path[|path| - 1]]
    ensures var q := Visit(p, path[|path| - 1], c, copy); Leaving(s, q, path, c, dit)
  {
    hide RestDone;
    PathLeaf(s, p, path, c, copy);
    PathLast(s, p, path);
  }

  lemma LeaveSkipped(s: Source, p: Progress, path: seq<nat>, c: nat, dit: int)
    requires PathOk(s, p, path) && RestDone(s, p, path) && p.cnt[path[|path| - 1]] < |s.kids[path[|path| - 1]]|
    requires c == s.kids[path[|path| - 1]][p.cnt[path[|path| - 1]]] && dit == p.iso[path[|path| - 1]]
    ensures Leaving(s, Bump(p, path[|path| - 1]), path, c, dit)
  {
    hide PathOk, RestDone;
    PathSkip(s, p, path);
    PathLast(s, p, path);
  }

  lemma StandingPath(s: Source, p: Progress, path: seq<nat>, sit: int, dit: int)
    requires Standing(s, p, path, sit, dit)
    ensures PathOk(s, p, path) && RestDone(s, p, path)
  {}

  /** What the links of the node being left say. */
  lemma LeavingLinks(s: Source, h: Heap, kids: seq<seq<nat>>, p: Progress, path: seq<nat>, sit: int, dit: int)
    requires GoodSource(s) && State(s, h, kids, p) && Leaving(s, p, path, sit, dit) && |s.heap| == |s.kids|
    ensures path != [] && 0 <= sit < |h| && 0 <= dit < |h|
    ensures var u := path[|path| - 1];
            && u < |s.kids| == |p.cnt| && h[sit].parent == u && sit < |s.heap| && p.cnt[u] <= |s.kids[u]|
            && h[sit].next == (if p.cnt[u] < |s.kids[u]| then s.kids[u][p.cnt[u]] else NULL)
            && dit == p.iso[u]
            && (p.cnt[u] < |s.kids[u]| ==> s.kids[u][p.cnt[u]] != s.sn && Standing(s, p, path, s.kids[u][p.cnt[u]], dit))
    ensures |path| == 1 ==> path[0] == s.sn
    ensures |path| > 1 ==> path[|path| - 1] != s.sn
  {
    hide State, CopyOf, Linked, RestDone;
    SourceRanked(s);
    PathLast(s, p, path);
    var u := path[|path| - 1];
    StateParts(s, h, kids, p);
    StateAt(s, h, kids, p, u);
    KidAt(s.heap, s.kids, u, p.cnt[u] - 1);
    ReadsSource(s, h, kids, sit);
    if p.cnt[u] < |s.kids[u]| {
      KidAt(s.heap, s.kids, u, p.cnt[u]);
      ParentRank(s, s.kids[u][p.cnt[u]]);
    }
  }

  /** Going up: the parent is left next, together with its copy's parent. */
  lemma ClimbStep(s: Source, h: Heap, kids: seq<seq<nat>>, p: Progress, path: seq<nat>, sit: int, dit: int)
    requires GoodSource(s) && State(s, h, kids, p) && Leaving(s, p, path, sit, dit) && |s.heap| == |s.kids| && 0 <= dit < |h|
    requires p.cnt[path[|path| - 1]] == |s.kids[path[|path| - 1]]|
    ensures |path| > 1 ==> Leaving(s, p, path[..|path| - 1], path[|path| - 1], h[dit].parent)
    ensures |path| == 1 ==> AllDone(s, p)
  {
    hide State, CopyOf, Linked, Ranked, PathOk, RestDone, GoodSource;
    PathLast(s, p, path);
    if |path| > 1 {
      PathPop(s, p, path);
      PathShorter(s, p, path);
      PathLast(s, p, path[..|path| - 1]);
      var v, u := path[|path| - 2], path[|path| - 1];
      StateParts(s, h, kids, p);
      StateAt(s, h, kids, p, v);
      StateAt(s, h, kids, p, u);
      CopyInCopy(s, h, kids, p, v, u);
      KidParent(h, kids, p.iso[v], p.iso[u]);
    } else {
      OnlyRootLeft(s, p, path);
    }
  }

  lemma OnlyRootLeft(s: Source, p: Progress, path: seq<nat>)
    requires PathOk(s, p, path) && RestDone(s, p, path) && |path| == 1 && p.cnt[path[0]] == |s.kids[path[0]]|
    ensures AllDone(s, p)
  {
    assert forall x :: x in path ==> x == path[0];
  }

  lemma CopyInCopy(s: Source, h: Heap, kids: seq<seq<nat>>, p: Progress, v: nat, u: nat)
    requires |s.heap| == |s.kids| == |p.cnt| && v in p.iso && v < |s.kids| && CopyOf(s, h, kids, p, v) && u in p.iso && u != s.dn
    requires 0 < p.cnt[v] <= |s.kids[v]| && u == s.kids[v][p.cnt[v] - 1]
    ensures p.iso[v] < |kids| && p.iso[u] in kids[p.iso[v]]
  {
    var l := s.kids[v][..p.cnt[v]];
    assert l[p.cnt[v] - 1] == u;
    ImageIn(p.iso, l, s.dn, u);
  }

  /** To the next node in document order, going up as far as needed. */
  method NextNode(tree: Tree, from: int, at: int, sn: nat, ghost s: Source, ghost p: Progress, ghost path0: seq<nat>)
    returns (sit: int, dit: int, ghost path: seq<nat>)
    requires GoodSource(s) && State(s, tree.heap, tree.kids, p) && |s.heap| == |s.kids| == |p.cnt|
    requires Leaving(s, p, path0, from, at) && sn == s.sn
    ensures sit >= 0 && if sit != s.sn then Standing(s, p, path, sit, dit) else AllDone(s, p)
  {
    hide State, Leaving, Standing, AllDone, GoodSource, Linked, Ranked;
    sit, dit, path := from, at, path0;
    while true
      invariant Leaving(s, p, path, sit, dit)
      decreases |path|
    {
      LeavingLinks(s, tree.heap, tree.kids, p, path, sit, dit);
      if tree.heap[sit].next >= 0 {
        sit := tree.heap[sit].next;
        return;
      }
      ClimbStep(s, tree.heap, tree.kids, p, path, sit, dit);
      sit := tree.heap[sit].parent;
      dit := tree.heap[dit].parent;
      if sit == sn {
        return;
      }
      path := path[..|path| - 1];
    }
  }

  /** Copies the contents of sn and, without a stack, the whole tree under it to dn; the copy may grow inside its own source. */
  method CopyTree(tree: Tree, dn: nat, sn: nat, ghost s: Source) returns (ghost iso: map<nat, nat>)
    requires s == Source(tree.heap, tree.kids, s.rank, dn, sn) && GoodSource(s)
    modifies tree
    ensures Linked(tree.heap, tree.kids) && Untouched(s, tree.heap, tree.kids)
    ensures Isomorphic(s, tree.heap, tree.kids, iso)
  {
    hide Linked, Ranked, GoodSource, State, CopyOf, PathOk, RestDone, AllDone, Standing, Leaving, Passed, Untouched, Counted, Isomorphic;
    SourceRanked(s);
    tree.CopyContents(dn, sn);
    ghost var p := Progress(map[sn := dn], seq(|s.heap|, _ => 0));
    Begun(s, tree.heap, tree.kids, p);
    ghost var path: seq<nat>, seen := [sn], false;
    var dit: int := dn;
    var sit: int := tree.heap[sn].firstChild;
    StartStanding(s, tree.heap, tree.kids, p, sit, dit);
    while sit >= 0 && sit != sn
      invariant Linked(tree.heap, tree.kids) && State(s, tree.heap, tree.kids, p) && Passed(s, p, seen)
      invariant |p.cnt| == |s.heap| == |s.kids|
      invariant if sit >= 0 && sit != sn then Standing(s, p, path, sit, dit) else AllDone(s, p)
      decreases Todo(s, p, seen)
    {
      Arrive(s, tree.heap, tree.kids, p, path, sit, dit, seen);
      StandingPath(s, p, path, sit, dit);
      ghost var u, p0, seen0 := path[|path| - 1], p, seen;
      if sit != dn {
        var copy: nat;
        copy, p := AppendCopy(tree, dit, sit, s, p, u, seen);
        TodoVisit(s, p0, u, sit, copy, seen);
        StateParts(s, tree.heap, tree.kids, p);
        ReadsSource(s, tree.heap, tree.kids, sit);
        if tree.heap[sit].firstChild >= 0 {
          Descend(s, p0, path, sit, copy);
          NotRoot(s, sit);
          path := path + [sit];
          dit := copy;
          sit := tree.heap[sit].firstChild;
          continue;
        }
        LeaveLeaf(s, p0, path, sit, copy, dit);
      } else {
        SkipStep(s, tree.heap, tree.kids, p, u);
        SeenNow(s, p, u, seen);
        p := Bump(p, u);
        seen := true;
        LeaveSkipped(s, p0, path, sit, dit);
      }
      sit, dit, path := NextNode(tree, sit, dit, sn, s, p, path);
    }
    iso := p.iso;
    Finished(s, tree.heap, tree.kids, p);
    StateParts(s, tree.heap, tree.kids, p);
  }

  lemma TodoVisit(s: Source, p: Progress, u: nat, c: nat, copy: nat, seen: bool)
    requires u < |p.cnt| && c < |p.cnt| && c in Todo(s, p, seen)
    ensures Todo(s, Visit(p, u, c, copy), seen) < Todo(s, p, seen)
  {
    assert c !in Todo(s, Visit(p, u, c, copy), seen);
  }

  /** dn is passed over once. */
  lemma SeenNow(s: Source, p: Progress, u: nat, seen: bool)
    requires GoodSource(s) && |s.heap| == |s.kids| == |p.cnt| && u in p.iso && u < |s.kids| && p.cnt[u] < |s.kids[u]|
    requires s.kids[u][p.cnt[u]] == s.dn && s.dn in Todo(s, p, seen) && s.dn < |s.heap| && s.heap[s.dn].parent == u
    ensures Passed(s, Bump(p, u), true) && Todo(s, Bump(p, u), true) < Todo(s, p, seen)
  {
    hide Linked, Ranked;
    assert s.kids[u][..p.cnt[u] + 1][p.cnt[u]] == s.dn;
    assert s.dn !in Todo(s, Bump(p, u), true);
  }

  /** No child of a node below sn is sn. */
  lemma NotRoot(s: Source, c: nat)
    requires GoodSource(s) && c < |s.heap| == |s.kids| && s.kids[c] != [] && s.rank[s.sn] <= s.rank[c]
    ensures s.kids[c][0] != s.sn
  {
    hide Linked;
    KidAt(s.heap, s.kids, c, 0);
    ParentRank(s, s.kids[c][0]);
  }
}
