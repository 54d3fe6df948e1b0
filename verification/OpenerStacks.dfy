/** Unresolved openers, threaded through the marks on one stack for each class of opener. */
module OpenerStacks {
  import opened EmphasisMarks

  const STACKS: nat := 14

  /** Three stacks by length modulo 3 for pure openers, three for marks that may also close. */
  function EmphStack(ch: char, both: bool, mod3: nat): nat {
    (if ch == '*' then 0 else 6) + (if both then 3 else 0) + mod3
  }

  function OpenerStack(m: Mark): nat {
    if m.ch == '~' then (if Size(m) == 1 then 12 else 13)
    else EmphStack(m.ch, m.flags.both, m.flags.mod3)
  }

  ghost predicate InBounds(live: seq<nat>, n: nat) {
    forall x :: 0 <= x < |live| ==> live[x] < n
  }

  /** From top, the next links visit exactly the live marks of class c, from last to first. */
  ghost predicate Threaded(marks: seq<Mark>, top: int, live: seq<nat>, c: nat)
    requires InBounds(live, |marks|)
    decreases |live|
  {
    if live == [] then top == -1 else
      var last, init := live[|live| - 1], live[..|live| - 1];
      if OpenerStack(marks[last]) == c then top == last && Threaded(marks, marks[last].next, init, c)
      else Threaded(marks, top, init, c)
  }

  ghost predicate Threads(marks: seq<Mark>, tops: seq<int>, live: seq<nat>) {
    |tops| == STACKS && InBounds(live, |marks|) && forall c :: 0 <= c < STACKS ==> Threaded(marks, tops[c], live, c)
  }

  ghost predicate Ascending(live: seq<nat>) {
    forall x, y :: 0 <= x < y < |live| ==> live[x] < live[y]
  }

  /** The top is the last live mark of its class. */
  lemma {:induction false} TopIsLast(marks: seq<Mark>, top: int, live: seq<nat>, c: nat) returns (p: nat)
    requires InBounds(live, |marks|) && Threaded(marks, top, live, c) && top >= 0
    ensures p < |live| && live[p] == top && OpenerStack(marks[top]) == c
    ensures forall q :: p < q < |live| ==> OpenerStack(marks[live[q]]) != c
    ensures Threaded(marks, marks[top].next, live[..p], c)
  {
    var last, init := live[|live| - 1], live[..|live| - 1];
    if OpenerStack(marks[last]) == c {
      p := |live| - 1;
    } else {
      p := TopIsLast(marks, top, init, c);
      assert init[..p] == live[..p];
    }
  }

  lemma {:induction false} NoTopNoneLive(marks: seq<Mark>, top: int, live: seq<nat>, c: nat)
    requires InBounds(live, |marks|) && Threaded(marks, top, live, c) && top < 0
    ensures top == -1 && forall q :: 0 <= q < |live| ==> OpenerStack(marks[live[q]]) != c
  {
    if live != [] {
      NoTopNoneLive(marks, top, live[..|live| - 1], c);
    }
  }

  /** Threads only depend on the links and classes of the live marks. */
  lemma {:induction false} ThreadedSame(marks: seq<Mark>, marks': seq<Mark>, top: int, live: seq<nat>, c: nat)
    requires InBounds(live, |marks|) && |marks'| == |marks| && Threaded(marks, top, live, c)
    requires forall x :: 0 <= x < |live| ==> marks'[live[x]].next == marks[live[x]].next
                                              && OpenerStack(marks'[live[x]]) == OpenerStack(marks[live[x]])
    ensures Threaded(marks', top, live, c)
    decreases |live|
  {
    if live != [] {
      var last, init := live[|live| - 1], live[..|live| - 1];
      assert forall x :: 0 <= x < |init| ==> init[x] == live[x];
      ThreadedSame(marks, marks', if OpenerStack(marks[last]) == c then marks[last].next else top, init, c);
    }
  }

  lemma ThreadsSame(marks: seq<Mark>, marks': seq<Mark>, tops: seq<int>, live: seq<nat>)
    requires Threads(marks, tops, live) && |marks'| == |marks|
    requires forall x :: 0 <= x < |live| ==> marks'[live[x]].next == marks[live[x]].next
                                              && OpenerStack(marks'[live[x]]) == OpenerStack(marks[live[x]])
    ensures Threads(marks', tops, live)
  {
    forall c | 0 <= c < STACKS ensures Threaded(marks', tops[c], live, c) {
      ThreadedSame(marks, marks', tops[c], live, c);
    }
  }

  /** Pushing d puts it right behind the marks of its class. */
  lemma {:induction false} ThreadedInsert(marks: seq<Mark>, top: int, a: seq<nat>, d: nat, b: seq<nat>, c: nat)
    requires InBounds(a, |marks|) && InBounds(b, |marks|) && InBounds(a + b, |marks|) && d < |marks|
    requires Threaded(marks, top, a + b, c)
    requires forall x :: 0 <= x < |b| ==> OpenerStack(marks[b[x]]) != OpenerStack(marks[d])
    ensures InBounds(a + [d] + b, |marks|)
    ensures OpenerStack(marks[d]) == c && marks[d].next == top ==> Threaded(marks, d, a + [d] + b, c)
    ensures OpenerStack(marks[d]) != c ==> Threaded(marks, top, a + [d] + b, c)
    decreases |b|
  {
    var s, t := a + b, a + [d] + b;
    if b == [] {
      assert s == a && t[..|t| - 1] == a;
    } else {
      var init, last := b[..|b| - 1], b[|b| - 1];
      assert s[..|s| - 1] == a + init && t[..|t| - 1] == a + [d] + init;
      assert s[|s| - 1] == last && t[|t| - 1] == last;
      if OpenerStack(marks[last]) == c {
        ThreadedInsert(marks, marks[last].next, a, d, init, c);
      } else {
        ThreadedInsert(marks, top, a, d, init, c);
      }
    }
  }

  lemma ThreadsInsert(marks: seq<Mark>, tops: seq<int>, a: seq<nat>, d: nat, b: seq<nat>)
    requires InBounds(a, |marks|) && InBounds(b, |marks|) && d < |marks| && Threads(marks, tops, a + b)
    requires OpenerStack(marks[d]) < STACKS && marks[d].next == tops[OpenerStack(marks[d])]
    requires forall x :: 0 <= x < |b| ==> OpenerStack(marks[b[x]]) != OpenerStack(marks[d])
    ensures Threads(marks, tops[OpenerStack(marks[d]) := d], a + [d] + b)
  {
    hide Threaded, OpenerStack;
    var tops' := tops[OpenerStack(marks[d]) := d];
    forall c | 0 <= c < STACKS ensures Threaded(marks, tops'[c], a + [d] + b, c) {
      ThreadedInsert(marks, tops[c], a, d, b, c);
    }
  }

  /** When the top lies below position b, the thread only visits the marks before it. */
  lemma {:induction false} ThreadedCut(marks: seq<Mark>, top: int, live: seq<nat>, c: nat, b: nat, x: int)
    requires InBounds(live, |marks|) && Threaded(marks, top, live, c) && b <= |live| && top < x
    requires forall q :: b <= q < |live| ==> live[q] >= x
    ensures Threaded(marks, top, live[..b], c)
  {
    if b == |live| {
      assert live[..b] == live;
    } else {
      ThreadedCut(marks, top, live[..|live| - 1], c, b, x);
      assert live[..|live| - 1][..b] == live[..b];
    }
  }

  // ----- which marks a closer may take -----

  /** The stacks a closer looks at. */
  function AllowedStacks(m: Mark): (r: seq<nat>)
    requires m.flags.mod3 < 3
    ensures forall x :: 0 <= x < |r| ==> r[x] < STACKS
  {
    var f := m.flags;
    [EmphStack(m.ch, true, 0)]
    + (if f.mod3 != 2 then [EmphStack(m.ch, true, 1)] else [])
    + (if f.mod3 != 1 then [EmphStack(m.ch, true, 2)] else [])
    + [EmphStack(m.ch, false, 0)]
    + (if !f.both || f.mod3 != 2 then [EmphStack(m.ch, false, 1)] else [])
    + (if !f.both || f.mod3 != 1 then [EmphStack(m.ch, false, 2)] else [])
  }

  /** They hold exactly the openers that the rule of three lets it close. */
  lemma AllowedIsRuleOfThree(opener: Mark, closer: Mark, openerRun: nat, closerRun: nat)
    requires IsDelim(opener.ch) && IsEmph(closer.ch)
    requires opener.flags.mod3 < 3 && closer.flags.mod3 < 3 && closer.flags.mod3 == closerRun % 3
    requires IsEmph(opener.ch) ==> opener.flags.mod3 == openerRun % 3
    ensures OpenerStack(opener) in AllowedStacks(closer) <==>
            opener.ch == closer.ch && RuleOfThree(opener.flags.both, openerRun, closer.flags.both, closerRun)
  {
    var o, c := openerRun % 3, closerRun % 3;
    assert (openerRun + closerRun) % 3 == (o + c) % 3;
    var s := OpenerStack(opener);
    MemberOfAllowed(closer, s);
  }

  lemma MemberOfAllowed(m: Mark, s: nat)
    requires m.flags.mod3 < 3
    ensures s in AllowedStacks(m) <==>
            || s == EmphStack(m.ch, true, 0) || (m.flags.mod3 != 2 && s == EmphStack(m.ch, true, 1))
            || (m.flags.mod3 != 1 && s == EmphStack(m.ch, true, 2)) || s == EmphStack(m.ch, false, 0)
            || ((!m.flags.both || m.flags.mod3 != 2) && s == EmphStack(m.ch, false, 1))
            || ((!m.flags.both || m.flags.mod3 != 1) && s == EmphStack(m.ch, false, 2))
  {}

  // ----- the live marks -----

  /** live lists the marks before k that can still be opened. */
  ghost predicate LiveIs(marks: seq<Mark>, live: seq<nat>, k: nat) {
    && Ascending(live) && InBounds(live, |marks|)
    && (forall x: nat :: x in live <==> x < k && x < |marks| && Live(marks, x))
  }

  lemma LivePush(marks: seq<Mark>, runs: seq<nat>, live: seq<nat>, i: nat)
    requires Good(marks, runs, i) && LiveIs(marks, live, i) && i < |marks|
    ensures LiveIs(marks, if IsDelim(marks[i].ch) && marks[i].flags.mayOpen then live + [i] else live, i + 1)
  {
    hide Good;
    if Enclosed(marks, i) {
      var o: nat :| o < i && o < |marks| && marks[o].flags.opens && i < marks[o].next;
      PairEndsBefore(marks, runs, i, o);
    }
    if IsDelim(marks[i].ch) {
      FreshDelim(marks, runs, i);
    }
    assert forall q :: 0 <= q < |live| ==> live[q] in live;
    assert Live(marks, i) <==> IsDelim(marks[i].ch) && marks[i].flags.mayOpen;
    forall x: nat ensures x in live + [i] <==> x in live || x == i {}
  }

  lemma FreshDelim(marks: seq<Mark>, runs: seq<nat>, i: nat)
    requires Good(marks, runs, i) && i < |marks| && IsDelim(marks[i].ch)
    ensures !marks[i].flags.resolved && !marks[i].flags.opens && MarkOk(marks[i])
    ensures IsEmph(marks[i].ch) ==> Room(marks, i)
  {}

  /** A pair around nothing live but what lies before it. */
  lemma LivePair(marks: seq<Mark>, o: nat, c: nat, x: nat)
    requires o < c < |marks| && !marks[o].flags.opens && !marks[c].flags.opens && x <= c
    ensures Live(Pair(marks, o, c), x) <==> x < o && Live(marks, x)
  {
    var s := Pair(marks, o, c);
    if x < o {
      if Enclosed(s, x) {
        var w: nat :| w < x && w < |s| && s[w].flags.opens && x < s[w].next;
        assert w < x && w < |marks| && marks[w].flags.opens && x < marks[w].next;
      }
      if Enclosed(marks, x) {
        var w: nat :| w < x && w < |marks| && marks[w].flags.opens && x < marks[w].next;
        assert w < x && w < |s| && s[w].flags.opens && x < s[w].next;
      }
    } else if o < x < c {
      assert s[o].flags.opens && x < s[o].next;
      assert Enclosed(s, x);
    }
  }

  /** The live marks below x are the first ones. */
  lemma LiveBelow(live: seq<nat>, b: nat, x: nat)
    requires Ascending(live) && b <= |live| && (b < |live| ==> live[b] >= x) && (b > 0 ==> live[b - 1] < x)
    ensures Ascending(live[..b]) && forall y: nat :: y in live[..b] <==> y in live && y < x
    ensures forall q :: b <= q < |live| ==> live[q] >= x
  {
    forall y: nat | y in live && y < x ensures y in live[..b] {
      var q :| 0 <= q < |live| && live[q] == y;
      assert live[..b][q] == y;
    }
  }

  /** How many live marks stay when the opener at position p is paired. */
  function Kept(p: nat, opener: Mark, closer: Mark): nat {
    if Size(opener) > Size(closer) then p + 1 else p
  }

  lemma LiveJoin(marks: seq<Mark>, runs: seq<nat>, live: seq<nat>, p: nat, i: nat)
    requires Good(marks, runs, i) && LiveIs(marks, live, i) && p < |live| && i < |marks| && IsDelim(marks[i].ch)
    requires Fits(marks, runs, live[p], i)
    requires Live(marks, live[p]) && live[p] < i
    requires Size(marks[live[p]]) > Size(marks[i]) > 0 ==> live[p] + Size(marks[live[p]]) <= i
    requires 0 < Size(marks[live[p]]) < Size(marks[i]) ==> i + Size(marks[i]) <= |marks|
    requires Size(marks[live[p]]) > 0 && Size(marks[i]) > 0
    ensures LiveIs(Join(marks, live[p], i), live[..Kept(p, marks[live[p]], marks[i])], i + 1)
  {
    hide Good, Layout, Links, NoCrossing, Live, Enclosed, MarkOk, Split, Pair;
    var j := live[p];
    var a, b := Size(marks[j]), Size(marks[i]);
    GoodParts(marks, runs, i, j);
    FreshDelim(marks, runs, i);
    if a > b {
      LiveBelow(live, p + 1, j + 1);
      forall x: nat | x <= i ensures Live(Join(marks, j, i), x) <==> x <= j && Live(marks, x) {
        LiveSplitOpener(marks, runs, j, b, i);
        LivePair(Split(marks, j, b), j + (a - b), i, x);
      }
    } else {
      LiveBelow(live, p, j);
      forall x: nat | x <= i ensures Live(Join(marks, j, i), x) <==> x < j && Live(marks, x) {
        FreshOpener(marks, runs, i, j);
        if a < b {
          LiveSplitCloser(marks, runs, j, i, b - a);
          LivePair(Split(marks, i, b - a), j, i, x);
        } else {
          LivePair(marks, j, i, x);
        }
      }
    }
  }

  lemma FreshOpener(marks: seq<Mark>, runs: seq<nat>, i: nat, j: nat)
    requires Good(marks, runs, i) && j < |marks| && Live(marks, j)
    ensures !marks[j].flags.opens
  {}

  lemma LiveSplitOpener(marks: seq<Mark>, runs: seq<nat>, j: nat, n: nat, i: nat)
    requires Good(marks, runs, i) && j < i < |marks| && IsDelim(marks[i].ch) && Live(marks, j)
    requires 0 < n < Size(marks[j]) && j + Size(marks[j]) <= i && IsEmph(marks[j].ch)
    ensures var d, s := j + (Size(marks[j]) - n), Split(marks, j, n);
            && d < i && |s| == |marks| && !s[d].flags.opens && !s[i].flags.opens
            && (forall x: nat :: x < d ==> (Live(s, x) <==> x <= j && Live(marks, x)))
  {
    var d, s := j + (Size(marks[j]) - n), Split(marks, j, n);
    SplitFree(marks, runs, j, n, i);
    FreshDelim(marks, runs, i);
    FreshOpener(marks, runs, i, j);
    forall x: nat | x < d ensures Live(s, x) <==> x <= j && Live(marks, x) {
      assert Room(marks, j);
      InRoom(marks, j, x);
    }
  }

  lemma LiveSplitCloser(marks: seq<Mark>, runs: seq<nat>, j: nat, i: nat, n: nat)
    requires Good(marks, runs, i) && j < i < |marks| && IsEmph(marks[i].ch) && Live(marks, j)
    requires 0 < n < Size(marks[i]) && i + Size(marks[i]) <= |marks|
    ensures var s := Split(marks, i, n);
            && |s| == |marks| && !s[j].flags.opens && !s[i].flags.opens
            && (forall x: nat :: x < i ==> (Live(s, x) <==> Live(marks, x)))
  {
    FreshDelim(marks, runs, i);
    FreshOpener(marks, runs, i, j);
    SplitFree(marks, runs, i, n, i);
  }
}
