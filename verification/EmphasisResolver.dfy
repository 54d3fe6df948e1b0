/** The emphasis resolver: marks rewritten in place, openers kept on fourteen stacks. */
module EmphasisResolver {
  import opened Wrappers
  import opened EmphasisMarks
  import opened OpenerStacks

  /** A mark without the link that its opener stack may have left in it. */
  function Unlinked(m: Mark): Mark {
    if m.flags.opens then m else m.(next := -1)
  }

  ghost predicate Coupled(marks: seq<Mark>, plain: seq<Mark>) {
    |plain| == |marks| && forall j :: 0 <= j < |marks| ==> plain[j] == Unlinked(marks[j])
  }

  lemma MarkAt(marks: seq<Mark>, plain: seq<Mark>, runs: seq<nat>, k: nat, x: nat)
    requires Coupled(marks, plain) && Good(plain, runs, k) && x < |plain|
    ensures marks[x].(next := plain[x].next) == plain[x] && OpenerStack(marks[x]) == OpenerStack(plain[x])
    ensures MarkOk(marks[x])
    ensures IsEmph(marks[x].ch) ==> x + Size(marks[x]) <= |plain|
    ensures IsDelim(marks[x].ch) ==> Size(marks[x]) > 0 && OpenerStack(marks[x]) < STACKS
    ensures IsDelim(marks[x].ch) && x >= k ==> !marks[x].flags.resolved
    ensures IsDelim(marks[x].ch) && !marks[x].flags.resolved ==> !marks[x].flags.opens
  {
    assert IsEmph(plain[x].ch) ==> Room(plain, x);
  }

  lemma LiveAt(plain: seq<Mark>, runs: seq<nat>, live: seq<nat>, i: nat, q: nat)
    requires LiveIs(plain, live, i) && q < |live|
    ensures live[q] < i && live[q] < |plain| && Live(plain, live[q]) && IsDelim(plain[live[q]].ch)
    ensures !plain[live[q]].flags.resolved
    ensures forall x :: 0 <= x < q ==> live[x] < live[q]
    ensures forall x :: q < x < |live| ==> live[x] > live[q]
  {
    assert live[q] in live;
  }

  /** Openers that end later come later. */
  lemma EndsInOrder(marks: seq<Mark>, plain: seq<Mark>, runs: seq<nat>, live: seq<nat>, i: nat, o: nat, m: nat)
    requires Coupled(marks, plain) && Good(plain, runs, i) && LiveIs(plain, live, i) && o in live && m in live
    ensures o < |marks| && m < |marks| && (marks[m].end > marks[o].end <==> m > o)
  {
    assert Live(plain, o) && Live(plain, m);
    assert MarkOk(plain[o]) && MarkOk(plain[m]);
  }

  /** The greatest opener on the allowed stacks is the nearest one that fits. */
  lemma FoundIsNearest(marks: seq<Mark>, plain: seq<Mark>, runs: seq<nat>, live: seq<nat>, i: nat, o: int)
    requires Coupled(marks, plain) && Good(plain, runs, i) && LiveIs(plain, live, i) && i < |marks| && IsEmph(marks[i].ch)
    requires marks[i].flags.mod3 < 3
    requires o >= 0 ==> o in live && o < |marks| && OpenerStack(marks[o]) in AllowedStacks(marks[i])
    requires forall q :: 0 <= q < |live| && OpenerStack(marks[live[q]]) in AllowedStacks(marks[i]) ==> live[q] <= o
    ensures Nearest(plain, runs, i, i) == if o < 0 then None else Some(o)
  {
    hide AllowedStacks, OpenerStack, Live, Nearest, LiveIs;
    var r: Option<nat> := if o < 0 then None else Some(o);
    LiveMembers(plain, live, i);
    LayoutOf(plain, runs, i);
    forall q | 0 <= q < |live|
      ensures OpenerStack(marks[live[q]]) in AllowedStacks(marks[i]) <==> Fits(plain, runs, live[q], i)
    {
      LiveAt(plain, runs, live, i, q);
      AllowedFits(marks, plain, runs, i, live[q]);
    }
    NearestIs(plain, runs, i, r);
  }

  lemma LiveMembers(plain: seq<Mark>, live: seq<nat>, i: nat)
    requires LiveIs(plain, live, i)
    ensures forall x: nat :: x < i && x < |plain| && Live(plain, x) ==> exists q :: 0 <= q < |live| && live[q] == x
    ensures forall q :: 0 <= q < |live| ==> live[q] < i && live[q] < |plain| && Live(plain, live[q])
  {
    forall x: nat | x < i && x < |plain| && Live(plain, x) ensures exists q :: 0 <= q < |live| && live[q] == x {
      assert x in live;
    }
    forall q | 0 <= q < |live| ensures live[q] < i && live[q] < |plain| && Live(plain, live[q]) {
      assert live[q] in live;
    }
  }

  lemma AllowedFits(marks: seq<Mark>, plain: seq<Mark>, runs: seq<nat>, i: nat, j: nat)
    requires Coupled(marks, plain) && Good(plain, runs, i) && i < |marks| && j < |marks|
    requires IsEmph(marks[i].ch) && IsDelim(plain[j].ch) && marks[i].flags.mod3 < 3
    ensures OpenerStack(marks[j]) in AllowedStacks(marks[i]) <==> Fits(plain, runs, j, i)
  {
    hide AllowedStacks, OpenerStack;
    assert MarkOk(plain[i]) && MarkOk(plain[j]);
    assert SameRun(plain, runs, i);
    assert IsEmph(plain[j].ch) ==> SameRun(plain, runs, j);
    AllowedIsRuleOfThree(marks[j], marks[i], runs[j], runs[i]);
  }

  lemma StepStays(plain: seq<Mark>, runs: seq<nat>, i: nat)
    requires i < |plain| && IsDelim(plain[i].ch) && Layout(plain, runs)
    requires !plain[i].flags.mayClose || Nearest(plain, runs, i, i).None?
    ensures Step(plain, runs, i) == plain
  {}

  lemma SplitCoupled(marks: seq<Mark>, plain: seq<Mark>, j: nat, n: nat)
    requires Coupled(marks, plain) && j < |marks| && !marks[j].flags.opens
    requires 0 < n < Size(marks[j]) && j + Size(marks[j]) <= |marks|
    ensures Coupled(Split(marks, j, n), Split(plain, j, n))
  {}

  lemma PushCoupled(marks: seq<Mark>, plain: seq<Mark>, i: nat, t: int)
    requires Coupled(marks, plain) && i < |marks| && !marks[i].flags.opens
    ensures Coupled(marks[i := marks[i].(next := t)], plain)
  {}

  lemma PairCoupled(marks: seq<Mark>, plain: seq<Mark>, o: nat, c: nat)
    requires Coupled(marks, plain) && o < c < |marks| && !marks[o].flags.opens && !marks[c].flags.opens
    ensures Coupled(Pair(marks, o, c), Pair(plain, o, c))
  {}

  /** No live mark behind the chosen opener is of its class: it would have been nearer. */
  lemma NoneBehind(plain: seq<Mark>, runs: seq<nat>, live: seq<nat>, i: nat, p: nat, q: nat)
    requires Good(plain, runs, i) && LiveIs(plain, live, i) && i < |plain| && IsDelim(plain[i].ch) && p < q < |live|
    requires Nearest(plain, runs, i, i) == Some(live[p])
    ensures OpenerStack(plain[live[q]]) != OpenerStack(plain[live[p]])
  {
    hide Nearest, Live, LiveIs;
    LiveAt(plain, runs, live, i, q);
    LiveAt(plain, runs, live, i, p);
    NotFits(plain, runs, i, live[p], live[q]);
    assert MarkOk(plain[live[p]]) && MarkOk(plain[live[q]]) && MarkOk(plain[i]);
    assert IsEmph(plain[live[p]].ch) ==> SameRun(plain, runs, live[p]);
    assert IsEmph(plain[live[q]].ch) ==> SameRun(plain, runs, live[q]);
    assert IsEmph(plain[i].ch) ==> SameRun(plain, runs, i);
  }

  lemma NotFits(plain: seq<Mark>, runs: seq<nat>, i: nat, j: nat, x: nat)
    requires i < |plain| == |runs| && Nearest(plain, runs, i, i) == Some(j) && j < x < i && Live(plain, x)
    ensures Fits(plain, runs, j, i) && !Fits(plain, runs, x, i)
  {}

  lemma PushThreads(marks: seq<Mark>, tops: seq<int>, live: seq<nat>, i: nat)
    requires Threads(marks, tops, live) && i < |marks| && i !in live && OpenerStack(marks[i]) < STACKS
    ensures Threads(marks[i := marks[i].(next := tops[OpenerStack(marks[i])])], tops[OpenerStack(marks[i]) := i], live + [i])
  {
    hide Threaded;
    var marks' := marks[i := marks[i].(next := tops[OpenerStack(marks[i])])];
    assert forall q :: 0 <= q < |live| ==> live[q] != i;
    ThreadsSame(marks, marks', tops, live);
    assert live + [] == live && live + [i] + [] == live + [i];
    ThreadsInsert(marks', tops, live, i, []);
  }

  /** The live marks with d put in behind position p. */
  function Inserted(live: seq<nat>, p: nat, d: nat): seq<nat>
    requires p < |live|
  {
    live[..p + 1] + [d] + live[p + 1..]
  }

  /** Mark j without its last n characters, which go to a mark linked to t. */
  function CutAndLink(marks: seq<Mark>, j: nat, n: nat, t: int): (r: seq<Mark>)
    requires j < |marks| && 0 < n < Size(marks[j]) && j + Size(marks[j]) <= |marks|
    ensures |r| == |marks|
  {
    var d, cut := j + (Size(marks[j]) - n), Split(marks, j, n);
    cut[d := cut[d].(next := t)]
  }

  /** Splitting the chosen opener and pushing its second part keeps the stacks threaded. */
  lemma SplitThreads(marks: seq<Mark>, plain: seq<Mark>, runs: seq<nat>, tops: seq<int>, live: seq<nat>, i: nat, p: nat,
                     j: nat, n: nat, d: nat, t: nat)
    requires Coupled(marks, plain) && Good(plain, runs, i) && LiveIs(plain, live, i) && Threads(marks, tops, live)
    requires p < |live| && live[p] == j < i < |marks| && IsEmph(marks[i].ch) && Nearest(plain, runs, i, i) == Some(j)
    requires Size(marks[j]) > Size(marks[i]) == n > 0 && j + Size(marks[j]) <= i
    requires d == j + (Size(marks[j]) - n) && t == OpenerStack(marks[j]) && t < |tops|
    ensures Threads(CutAndLink(marks, j, n, tops[t]), tops[t := d], Inserted(live, p, d))
  {
    hide Threaded, Good, LiveIs, Nearest, Threads, Coupled, OpenerStack, Live, Split, CutAndLink;
    LengthOf(marks, plain);
    ThreadOf(marks, tops, live, 0);
    var pushed := CutAndLink(marks, j, n, tops[t]);
    LiveAt(plain, runs, live, i, p);
    CutClass(marks, plain, runs, i, j, n);
    SameClasses(marks, plain, runs, live, i, j, n, tops[t]);
    ThreadsSame(marks, pushed, tops, live);
    var a, b := live[..p + 1], live[p + 1..];
    assert a + b == live;
    forall x | 0 <= x < |b| ensures OpenerStack(pushed[b[x]]) != t {
      NoneBehind(plain, runs, live, i, p, p + 1 + x);
      MarkAt(marks, plain, runs, i, live[p + 1 + x]);
      MarkAt(marks, plain, runs, i, j);
    }
    ThreadsInsert(pushed, tops, a, d, b);
  }

  /** The second part lies right behind its first part among the live marks. */
  lemma InsertedOrder(marks: seq<Mark>, plain: seq<Mark>, runs: seq<nat>, live: seq<nat>, i: nat, p: nat, d: nat)
    requires Coupled(marks, plain) && Good(plain, runs, i) && LiveIs(plain, live, i) && p < |live| && live[p] < |plain|
    requires IsEmph(plain[live[p]].ch) && live[p] < d < live[p] + Size(plain[live[p]]) && d < |plain|
    ensures forall q :: 0 <= q < p + 1 ==> Inserted(live, p, d)[q] < d
    ensures forall q :: p + 1 <= q < |live| + 1 ==> Inserted(live, p, d)[q] >= d
    ensures |Inserted(live, p, d)| == |live| + 1 && Inserted(live, p, d)[..p + 1] == live[..p + 1]
  {
    LiveAwayFrom(plain, runs, live, i, live[p], d);
  }

  /** In the split marks, only the opener stack's link differs from the plain ones. */
  lemma CutCoupled(marks: seq<Mark>, plain: seq<Mark>, runs: seq<nat>, i: nat, j: nat, n: nat, t: int)
    requires Coupled(marks, plain) && Good(plain, runs, i) && j < i < |marks| && IsEmph(marks[i].ch) && Live(plain, j)
    requires 0 < n < Size(marks[j]) && j + Size(marks[j]) <= i && Nearest(plain, runs, i, i) == Some(j)
    requires IsDelim(marks[i].ch) && !marks[i].flags.opens
    ensures Coupled(CutAndLink(marks, j, n, t), Split(plain, j, n))
    ensures var d := j + (Size(marks[j]) - n); !CutAndLink(marks, j, n, t)[d].flags.opens && d < i
    ensures CutAndLink(marks, j, n, t)[i] == marks[i]
  {
    hide Good, Nearest, Live, Coupled;
    LengthOf(marks, plain);
    MarkAt(marks, plain, runs, i, j);
    CutClass(marks, plain, runs, i, j, n);
    SplitCoupled(marks, plain, j, n);
    PushCoupled(Split(marks, j, n), Split(plain, j, n), j + (Size(marks[j]) - n), t);
  }

  lemma CutIs(marks: seq<Mark>, j: nat, n: nat, t: int)
    requires j < |marks| && 0 < n < Size(marks[j]) && j + Size(marks[j]) <= |marks|
    ensures var d, cut := j + (Size(marks[j]) - n), Split(marks, j, n); CutAndLink(marks, j, n, t) == cut[d := cut[d].(next := t)]
  {}

  lemma CutClass(marks: seq<Mark>, plain: seq<Mark>, runs: seq<nat>, i: nat, j: nat, n: nat)
    requires Coupled(marks, plain) && Good(plain, runs, i) && j < i < |marks| && IsEmph(marks[i].ch) && Live(plain, j)
    requires 0 < n < Size(marks[j]) && j + Size(marks[j]) <= i && Nearest(plain, runs, i, i) == Some(j)
    ensures var d := j + (Size(marks[j]) - n); var cut := Split(marks, j, n);
            && OpenerStack(cut[d]) == OpenerStack(marks[j]) == OpenerStack(cut[j]) && IsEmph(marks[j].ch)
            && !cut[d].flags.opens && cut[i] == marks[i] && !marks[j].flags.opens
            && plain[d].ch == DUMMY
  {
    assert Room(plain, j);
  }

  /** Nothing live lies in the dummies of a live opener. */
  lemma LiveAwayFrom(plain: seq<Mark>, runs: seq<nat>, live: seq<nat>, i: nat, j: nat, d: nat)
    requires Good(plain, runs, i) && LiveIs(plain, live, i) && j < d < |plain| && IsEmph(plain[j].ch) && d < j + Size(plain[j])
    ensures forall x :: x in live ==> x <= j || x > d
    ensures forall q :: 0 <= q < |live| ==> live[q] <= j || live[q] > d
  {
    forall x | x in live ensures x <= j || x > d {
      assert Live(plain, x) && Room(plain, j);
      InRoom(plain, j, x);
    }
    forall q | 0 <= q < |live| ensures live[q] <= j || live[q] > d {
      assert live[q] in live;
    }
  }

  lemma SameClasses(marks: seq<Mark>, plain: seq<Mark>, runs: seq<nat>, live: seq<nat>, i: nat, j: nat, n: nat, t: int)
    requires Coupled(marks, plain) && Good(plain, runs, i) && LiveIs(plain, live, i) && j < |marks| && IsEmph(marks[j].ch)
    requires 0 < n < Size(marks[j]) && j + Size(marks[j]) <= |marks|
    ensures var d := j + (Size(marks[j]) - n);
            var pushed := CutAndLink(marks, j, n, t);
            && OpenerStack(pushed[d]) == OpenerStack(marks[j]) && pushed[d].next == t
            && (forall x :: 0 <= x < |live| ==> live[x] < |marks| && pushed[live[x]].next == marks[live[x]].next
                                                && OpenerStack(pushed[live[x]]) == OpenerStack(marks[live[x]]))
  {
    LiveAwayFrom(plain, runs, live, i, j, j + (Size(marks[j]) - n));
  }

  /** Splitting the closer touches no live mark. */
  lemma SplitCloserThreads(marks: seq<Mark>, plain: seq<Mark>, runs: seq<nat>, tops: seq<int>, live: seq<nat>, i: nat, n: nat)
    requires Coupled(marks, plain) && Good(plain, runs, i) && LiveIs(plain, live, i) && Threads(marks, tops, live)
    requires i < |marks| && IsEmph(marks[i].ch) && 0 < n < Size(marks[i]) && i + Size(marks[i]) <= |marks|
    ensures Threads(Split(marks, i, n), tops, live) && Coupled(Split(marks, i, n), Split(plain, i, n))
    ensures !Split(marks, i, n)[i].flags.opens && forall x: nat :: x < i ==> Split(marks, i, n)[x] == marks[x]
  {
    hide Threaded, Threads;
    MarkAt(marks, plain, runs, i, i);
    SplitCoupled(marks, plain, i, n);
    ThreadsSame(marks, Split(marks, i, n), tops, live) by {
      assert InBounds(live, |marks|);
      assert forall x :: 0 <= x < |live| ==> live[x] in live;
    }
  }

  /** Linking a pair touches no live mark that stays. */
  lemma PairThreads(marks: seq<Mark>, tops: seq<int>, live: seq<nat>, o: nat, c: nat)
    requires Threads(marks, tops, live) && o < c < |marks| && forall q :: 0 <= q < |live| ==> live[q] < o
    ensures Threads(Pair(marks, o, c), tops, live)
  {
    hide Threaded;
    ThreadsSame(marks, Pair(marks, o, c), tops, live);
  }

  /** The step joins the nearest opener with its closer, and everything stays in order. */
  lemma JoinStep(plain: seq<Mark>, runs: seq<nat>, live: seq<nat>, i: nat, p: nat)
    requires Good(plain, runs, i) && LiveIs(plain, live, i) && i < |plain| && IsDelim(plain[i].ch) && plain[i].flags.mayClose
    requires p < |live| && Nearest(plain, runs, i, i) == Some(live[p])
    ensures var j := live[p];
            && j < i && Size(plain[j]) > 0 && Size(plain[i]) > 0
            && (Size(plain[j]) > Size(plain[i]) ==> j + Size(plain[j]) <= i)
            && (Size(plain[j]) < Size(plain[i]) ==> i + Size(plain[i]) <= |plain|)
            && Step(plain, runs, i) == Join(plain, j, i)
            && Good(Join(plain, j, i), runs, i + 1)
            && LiveIs(Join(plain, j, i), live[..Kept(p, plain[j], plain[i])], i + 1)
  {
    hide Good, LiveIs, Nearest, Join;
    var j := live[p];
    LiveAt(plain, runs, live, i, p);
    NearestFits(plain, runs, i, j);
    JoinKeeps(plain, runs, j, i);
    LiveJoin(plain, runs, live, p, i);
    GoodParts(plain, runs, i, j);
    StepJoins(plain, runs, i, j);
  }

  lemma NearestFits(plain: seq<Mark>, runs: seq<nat>, i: nat, j: nat)
    requires i < |plain| && Good(plain, runs, i) && Nearest(plain, runs, i, i) == Some(j)
    ensures Fits(plain, runs, j, i) && Live(plain, j) && j < i
  {}

  lemma StepJoins(plain: seq<Mark>, runs: seq<nat>, i: nat, j: nat)
    requires j < i < |plain| && IsDelim(plain[i].ch) && Layout(plain, runs) && plain[i].flags.mayClose
    requires Nearest(plain, runs, i, i) == Some(j) && Size(plain[j]) > 0 && Size(plain[i]) > 0
    requires Size(plain[j]) > Size(plain[i]) ==> j + Size(plain[j]) <= i
    requires Size(plain[j]) < Size(plain[i]) ==> i + Size(plain[i]) <= |plain|
    ensures Step(plain, runs, i) == Join(plain, j, i)
  {}

  lemma ThreadOf(marks: seq<Mark>, tops: seq<int>, live: seq<nat>, c: nat)
    requires Threads(marks, tops, live) && c < STACKS
    ensures InBounds(live, |marks|) && |tops| == STACKS && Threaded(marks, tops[c], live, c)
  {}

  /** Strikethrough stacks hold marks of one length each. */
  lemma TildeNearest(marks: seq<Mark>, plain: seq<Mark>, runs: seq<nat>, live: seq<nat>, i: nat, p: nat)
    requires Coupled(marks, plain) && Good(plain, runs, i) && LiveIs(plain, live, i) && i < |marks| && marks[i].ch == '~'
    requires p < |live| && live[p] < |marks| && OpenerStack(marks[live[p]]) == OpenerStack(marks[i])
    requires forall q :: p < q < |live| ==> live[q] < |marks| && OpenerStack(marks[live[q]]) != OpenerStack(marks[i])
    ensures Nearest(plain, runs, i, i) == Some(live[p]) && Size(plain[live[p]]) == Size(plain[i])
  {
    hide Nearest, Live, LiveIs;
    LiveMembers(plain, live, i);
    LiveAt(plain, runs, live, i, p);
    TildeFits(marks, plain, runs, live, i);
    NearestIs(plain, runs, i, Some(live[p]));
  }

  lemma TildeNone(marks: seq<Mark>, plain: seq<Mark>, runs: seq<nat>, live: seq<nat>, i: nat)
    requires Coupled(marks, plain) && Good(plain, runs, i) && LiveIs(plain, live, i) && i < |marks| && marks[i].ch == '~'
    requires forall q :: 0 <= q < |live| ==> live[q] < |marks| && OpenerStack(marks[live[q]]) != OpenerStack(marks[i])
    ensures Nearest(plain, runs, i, i) == None
  {
    hide Nearest, Live, LiveIs;
    LiveMembers(plain, live, i);
    TildeFits(marks, plain, runs, live, i);
    NearestIs(plain, runs, i, None);
  }

  lemma TildeFits(marks: seq<Mark>, plain: seq<Mark>, runs: seq<nat>, live: seq<nat>, i: nat)
    requires Coupled(marks, plain) && Good(plain, runs, i) && LiveIs(plain, live, i) && i < |marks| && marks[i].ch == '~'
    ensures |runs| == |plain|
    ensures forall q :: 0 <= q < |live| ==>
              live[q] < |marks| && (OpenerStack(marks[live[q]]) == OpenerStack(marks[i]) <==> Fits(plain, runs, live[q], i))
    ensures forall q :: 0 <= q < |live| && Fits(plain, runs, live[q], i) ==> Size(plain[live[q]]) == Size(plain[i])
  {
    hide LiveIs, Live;
    forall q | 0 <= q < |live|
      ensures live[q] < |marks| && (OpenerStack(marks[live[q]]) == OpenerStack(marks[i]) <==> Fits(plain, runs, live[q], i))
    {
      LiveAt(plain, runs, live, i, q);
      assert MarkOk(plain[live[q]]) && MarkOk(plain[i]);
    }
  }

  lemma LayoutOf(plain: seq<Mark>, runs: seq<nat>, k: nat)
    requires Good(plain, runs, k)
    ensures Layout(plain, runs)
  {}

  lemma NotLive(plain: seq<Mark>, live: seq<nat>, i: nat)
    requires LiveIs(plain, live, i)
    ensures i !in live
  {}

  lemma LengthOf(marks: seq<Mark>, plain: seq<Mark>)
    requires Coupled(marks, plain)
    ensures |marks| == |plain|
  {}

  lemma ResolveNone(plain: seq<Mark>, runs: seq<nat>)
    requires Good(plain, runs, 0) && Unpaired(plain)
    ensures Layout(plain, runs) && Resolve(plain, runs, 0) == plain
  {}

  lemma ResolveOne(plain: seq<Mark>, runs: seq<nat>, i: nat)
    requires Layout(plain, runs) && Unpaired(plain) && i < |plain|
    ensures var m := Resolve(plain, runs, i);
            && |m| == |plain| && Layout(m, runs)
            && Resolve(plain, runs, i + 1) == if IsDelim(m[i].ch) then Step(m, runs, i) else m
  {}

  /** The end of the last resolved closer, or 0. */
  ghost predicate EndsResolved(plain: seq<Mark>, i: nat, e: nat) {
    e == 0 || exists r: nat :: r < i && r < |plain| && plain[r].flags.resolved && plain[r].end == e
  }

  lemma NotYetOpened(plain: seq<Mark>, runs: seq<nat>, i: nat)
    requires Good(plain, runs, i) && i < |plain|
    ensures !plain[i].flags.opens
    ensures plain[i].flags.resolved ==> !IsDelim(plain[i].ch)
  {
    assert MarkOk(plain[i]);
  }

  lemma BeginsAfter(plain: seq<Mark>, runs: seq<nat>, i: nat, e: nat)
    requires Good(plain, runs, i) && EndsResolved(plain, i, e) && i < |plain| && IsDelim(plain[i].ch)
    ensures e <= plain[i].beg
  {
    if e != 0 {
      var r: nat :| r < i && r < |plain| && plain[r].flags.resolved && plain[r].end == e;
      assert MarkOk(plain[r]);
    }
  }

  lemma EndsStay(plain: seq<Mark>, runs: seq<nat>, i: nat, e: nat)
    requires Good(plain, runs, i) && EndsResolved(plain, i, e) && i < |plain| && IsDelim(plain[i].ch)
    ensures |Step(plain, runs, i)| == |plain| && EndsResolved(Step(plain, runs, i), i + 1, e)
  {
    hide Good, Step;
    StepKeeps(plain, runs, i);
    if e != 0 {
      var r: nat :| r < i && r < |plain| && plain[r].flags.resolved && plain[r].end == e;
      ResolvedStays(plain, runs, i, r);
    }
  }

  class Inlines {
    var marks: seq<Mark>
    const tops: array<int>
    /** The marks without stack links, and the indices of the openers on the stacks. */
    ghost var plain: seq<Mark>
    ghost var live: seq<nat>

    ghost predicate Valid(runs: seq<nat>, k: nat)
      reads this, tops
    {
      && tops.Length == STACKS && Coupled(marks, plain) && k <= |plain|
      && Good(plain, runs, k) && LiveIs(plain, live, k) && Threads(marks, tops[..], live)
    }

    constructor (collected: seq<Mark>, ghost runs: seq<nat>)
      requires Layout(collected, runs) && Unpaired(collected)
      requires forall j :: 0 <= j < |collected| ==> collected[j].next == -1
      ensures Valid(runs, 0) && plain == marks == collected && live == [] && fresh(tops)
    {
      marks, plain, live := collected, collected, [];
      tops := new int[STACKS](_ => -1);
      new;
      UnpairedIsGood(plain, runs);
    }

    method SplitEmphMark(j: nat, n: nat) returns (d: nat)
      requires j < |marks| && 0 < n < Size(marks[j]) && j + Size(marks[j]) <= |marks|
      modifies this`marks
      ensures marks == Split(old(marks), j, n) && d == j + (Size(old(marks)[j]) - n)
    {
      d := j + (marks[j].end - marks[j].beg - n);
      marks := marks[d := marks[j]];
      marks := marks[j := marks[j].(end := marks[j].end - n)];
      marks := marks[d := marks[d].(beg := marks[j].end)];
    }

    method Push(stack: nat, i: nat)
      requires stack < tops.Length && i < |marks|
      modifies this`marks, tops
      ensures marks == old(marks)[i := old(marks)[i].(next := old(tops[stack]))]
      ensures tops[..] == old(tops[..])[stack := i]
    {
      marks := marks[i := marks[i].(next := tops[stack])];
      tops[stack] := i;
    }

    /** Takes every opener at or after x off its stack; b live openers remain. */
    method PopOpeners(x: nat, ghost b: nat)
      requires tops.Length == STACKS && Threads(marks, tops[..], live) && b <= |live|
      requires forall q :: b <= q < |live| ==> live[q] >= x
      requires forall q :: 0 <= q < b ==> live[q] < x
      modifies tops
      ensures Threads(marks, tops[..], live[..b])
    {
      hide Threaded, OpenerStack;
      for c := 0 to tops.Length
        invariant forall s :: 0 <= s < c ==> Threaded(marks, tops[s], live[..b], s)
        invariant forall s :: c <= s < STACKS ==> Threaded(marks, tops[s], live, s)
      {
        ghost var k: nat := |live|;
        assert live[..|live|] == live;
        while tops[c] >= x
          invariant b <= k <= |live| && Threaded(marks, tops[c], live[..k], c)
          invariant forall s :: 0 <= s < c ==> Threaded(marks, tops[s], live[..b], s)
          invariant forall s :: c < s < STACKS ==> Threaded(marks, tops[s], live, s)
          decreases k
        {
          ghost var p := TopIsLast(marks, tops[c], live[..k], c);
          assert live[..k][..p] == live[..p] && live[p] == tops[c];
          k := p;
          tops[c] := marks[tops[c]].next;
        }
        ThreadedCut(marks, tops[c], live[..k], c, b, x);
        assert live[..k][..b] == live[..b];
      }
    }

    method ResolveRange(o: nat, c: nat)
      requires o < c < |marks|
      modifies this`marks
      ensures marks == Pair(old(marks), o, c)
    {
      marks := marks[o := marks[o].(next := c)];
      marks := marks[c := marks[c].(prev := o)];
      marks := marks[o := marks[o].(flags := marks[o].flags.(opens := true, resolved := true))];
      marks := marks[c := marks[c].(flags := marks[c].flags.(closes := true, resolved := true))];
    }

    /** The most recent opener on the stacks that closer i may look at, by where openers end; -1 if none. */
    method FindOpener(i: nat, ghost runs: seq<nat>) returns (o: int)
      requires Valid(runs, i) && i < |marks| && IsEmph(marks[i].ch)
      ensures o >= 0 ==> (exists p :: 0 <= p < |live| && live[p] == o)
      ensures var r := Nearest(plain, runs, i, i);
              if o < 0 then r.None? else r == Some(o)
    {
      hide Threaded, OpenerStack, Good, LiveIs, Nearest, AllowedStacks;
      LengthOf(marks, plain);
      MarkAt(marks, plain, runs, i, i);
      var stacks := AllowedStacks(marks[i]);
      o := -1;
      for s := 0 to |stacks|
        invariant o >= -1
        invariant o >= 0 ==> o in live && OpenerStack(marks[o]) in stacks
        invariant forall q, t :: 0 <= q < |live| && 0 <= t < s && OpenerStack(marks[live[q]]) == stacks[t] ==> live[q] <= o
      {
        var m := tops[stacks[s]];
        if m >= 0 {
          ghost var p := TopIsLast(marks, m, live, stacks[s]);
          if o >= 0 {
            EndsInOrder(marks, plain, runs, live, i, o, m);
          }
          LiveAt(plain, runs, live, i, p);
          if o < 0 || marks[m].end > marks[o].end {
            o := m;
          }
        } else {
          NoTopNoneLive(marks, m, live, stacks[s]);
        }
      }
      FoundIsNearest(marks, plain, runs, live, i, o);
    }

    /** A delimiter run '*' or '_'. */
    method AnalyzeEmph(i: nat, ghost runs: seq<nat>)
      requires Valid(runs, i) && i < |marks| && IsEmph(marks[i].ch)
      modifies this, tops
      ensures Valid(runs, i + 1) && plain == Step(old(plain), runs, i)
    {
      hide Threaded, OpenerStack, Good, LiveIs, Nearest, Threads, Coupled, Split, Pair, Step, Join;
      LengthOf(marks, plain);
      MarkAt(marks, plain, runs, i, i);
      if marks[i].flags.mayClose {
        var o := FindOpener(i, runs);
        if o >= 0 {
          ghost var p :| 0 <= p < |live| && live[p] == o;
          JoinOpener(o, i, runs, p);
          return;
        }
      }
      NoJoin(i, runs);
    }

    method PushOpener(i: nat, ghost runs: seq<nat>)
      requires tops.Length == STACKS && Coupled(marks, plain) && i < |marks| && Good(plain, runs, i + 1)
      requires IsDelim(marks[i].ch) && !marks[i].flags.resolved
      requires Threads(marks, tops[..], live) && i !in live && LiveIs(plain, live + [i], i + 1)
      modifies this, tops
      ensures Valid(runs, i + 1) && plain == old(plain)
    {
      hide Threaded, OpenerStack, Good, LiveIs, Split, Pair, Threads;
      MarkAt(marks, plain, runs, i + 1, i);
      PushCoupled(marks, plain, i, tops[OpenerStack(marks[i])]);
      PushThreads(marks, tops[..], live, i);
      Push(OpenerStack(marks[i]), i);
      live := live + [i];
    }

    /** Resolves closer i with the opener found, after cutting the longer of the two. */
    method JoinOpener(opener: nat, i: nat, ghost runs: seq<nat>, ghost p: nat)
      requires Valid(runs, i) && i < |marks| && IsEmph(marks[i].ch) && marks[i].flags.mayClose
      requires p < |live| && live[p] == opener && Nearest(plain, runs, i, i) == Some(opener)
      modifies this, tops
      ensures Valid(runs, i + 1) && plain == Step(old(plain), runs, i)
    {
      hide Threaded, OpenerStack, Good, LiveIs, Nearest, Threads, Coupled, Split, Pair, Step, CutAndLink, Inserted, Live;
      LengthOf(marks, plain);
      MarkAt(marks, plain, runs, i, i);
      JoinStep(plain, runs, live, i, p);
      LiveAt(plain, runs, live, i, p);
      ghost var plain0, b := plain, Kept(p, plain[opener], plain[i]);
      MarkAt(marks, plain, runs, i, opener);
      ghost var kept := live[..b];
      var o := opener;
      var openerSize, closerSize := Size(marks[o]), Size(marks[i]);
      var stack := OpenerStack(marks[o]);
      if openerSize > closerSize {
        ghost var d := opener + (openerSize - closerSize);
        SplitThreads(marks, plain, runs, tops[..], live, i, p, opener, closerSize, d, stack);
        CutCoupled(marks, plain, runs, i, opener, closerSize, tops[stack]);
        InsertedOrder(marks, plain, runs, live, i, p, d);
        CutIs(marks, opener, closerSize, tops[stack]);
        o := SplitEmphMark(o, closerSize);
        Push(stack, o);
        plain, live := Split(plain, opener, closerSize), Inserted(live, p, o);
      } else if openerSize < closerSize {
        SplitCloserThreads(marks, plain, runs, tops[..], live, i, closerSize - openerSize);
        var rest := SplitEmphMark(i, closerSize - openerSize);
        plain := Split(plain, i, closerSize - openerSize);
      }
      PopOpeners(o, b);
      PairThreads(marks, tops[..], kept, o, i);
      PairCoupled(marks, plain, o, i);
      ResolveRange(o, i);
      plain, live := Pair(plain, o, i), kept;
    }

    /** A strikethrough mark '~' or '~~', which only matches one of its own length. */
    method AnalyzeTilde(i: nat, ghost runs: seq<nat>)
      requires Valid(runs, i) && i < |marks| && marks[i].ch == '~'
      modifies this, tops
      ensures Valid(runs, i + 1) && plain == Step(old(plain), runs, i)
    {
      hide Threaded, OpenerStack, Good, LiveIs, Nearest, Threads, Coupled, Split, Pair, Step;
      LengthOf(marks, plain);
      MarkAt(marks, plain, runs, i, i);
      var stack := OpenerStack(marks[i]);
      ThreadOf(marks, tops[..], live, stack);
      if marks[i].flags.mayClose && tops[stack] >= 0 {
        var o := tops[stack];
        ghost var p := TopIsLast(marks, o, live, stack);
        TildeNearest(marks, plain, runs, live, i, p);
        JoinStep(plain, runs, live, i, p);
        LiveAt(plain, runs, live, i, p);
        MarkAt(marks, plain, runs, i, o);
        PopOpeners(o, p);
        PairThreads(marks, tops[..], live[..p], o, i);
        PairCoupled(marks, plain, o, i);
        ResolveRange(o, i);
        plain, live := Pair(plain, o, i), live[..p];
        return;
      }
      if marks[i].flags.mayClose {
        NoTopNoneLive(marks, tops[stack], live, stack);
        TildeNone(marks, plain, runs, live, i);
      }
      NoJoin(i, runs);
    }

    /** The mark closes nothing; it may still become an opener. */
    method NoJoin(i: nat, ghost runs: seq<nat>)
      requires Valid(runs, i) && i < |marks| && IsDelim(marks[i].ch)
      requires !marks[i].flags.mayClose || Nearest(plain, runs, i, i).None?
      modifies this, tops
      ensures Valid(runs, i + 1) && plain == Step(old(plain), runs, i)
    {
      hide Threaded, OpenerStack, Good, LiveIs, Nearest, Threads, Coupled, Split, Pair, Step, Join;
      LengthOf(marks, plain);
      MarkAt(marks, plain, runs, i, i);
      LayoutOf(plain, runs, i);
      StepStays(plain, runs, i);
      LivePush(plain, runs, live, i);
      NotLive(plain, live, i);
      DropKeeps(plain, runs, i);
      if marks[i].flags.mayOpen {
        PushOpener(i, runs);
      }
    }

    /** Deals with all delimiter marks, from first to last. */
    method AnalyzeMarks(ghost runs: seq<nat>)
      requires Valid(runs, 0) && Unpaired(plain)
      modifies this, tops
      ensures Valid(runs, |marks|) && plain == Resolve(old(plain), runs, |old(plain)|)
    {
      hide Threaded, OpenerStack, Good, LiveIs, Nearest, Threads, Coupled, Split, Pair, Step, Join, Resolve, Layout;
      ghost var plain0 := plain;
      var i := 0;
      var lastEnd := 0;
      LengthOf(marks, plain);
      ResolveNone(plain, runs);
      while i < |marks|
        invariant i <= |marks| == |plain0| && Valid(runs, i)
        invariant Layout(plain0, runs) && Unpaired(plain0) && plain == Resolve(plain0, runs, i)
        invariant EndsResolved(plain, i, lastEnd)
        decreases |marks| - i
      {
        LengthOf(marks, plain);
        MarkAt(marks, plain, runs, i, i);
        ResolveOne(plain0, runs, i);
        NotYetOpened(plain, runs, i);
        if marks[i].flags.resolved {
          // Only trivial marks are resolved here, so there is no span to skip.
          assert !marks[i].flags.opens;
          SkipKeeps(plain, runs, i);
          LivePush(plain, runs, live, i);
          i := i + 1;
        } else if !IsDelim(marks[i].ch) {
          SkipKeeps(plain, runs, i);
          LivePush(plain, runs, live, i);
          i := i + 1;
        } else if marks[i].beg < lastEnd {
          BeginsAfter(plain, runs, i, lastEnd);
          assert false;
        } else {
          EndsStay(plain, runs, i, lastEnd);
          if IsEmph(marks[i].ch) {
            AnalyzeEmph(i, runs);
          } else {
            AnalyzeTilde(i, runs);
          }
          LengthOf(marks, plain);
          MarkAt(marks, plain, runs, i + 1, i);
          if marks[i].flags.resolved {
            lastEnd := marks[i].end;
          }
          i := i + 1;
        }
      }
    }

    /** The whole pass over the collected marks; it leaves the opener stacks empty. */
    method ResolveEmphasis(ghost runs: seq<nat>)
      requires Valid(runs, 0) && Unpaired(plain)
      modifies this, tops
      ensures plain == Resolve(old(plain), runs, |old(plain)|) && Coupled(marks, plain) && Good(plain, runs, |plain|)
      ensures forall c :: 0 <= c < tops.Length ==> tops[c] == -1
    {
      hide Threaded, OpenerStack, Good, LiveIs, Threads, Resolve, Layout, Unpaired, Coupled;
      AnalyzeMarks(runs);
      LengthOf(marks, plain);
      for c := 0 to tops.Length
        modifies tops
        invariant forall x :: 0 <= x < c ==> tops[x] == -1
      {
        tops[c] := -1;
      }
    }
  }
}
