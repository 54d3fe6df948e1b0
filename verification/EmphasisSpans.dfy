/** Rendering resolved emphasis marks as nested spans. */
module EmphasisSpans {
  import opened Wrappers
  import opened EmphasisMarks

  datatype Span = Em | Strong | Underline | Del
  datatype Event = Enter(span: Span) | Leave(span: Span)

  function Times(s: Span, n: nat): seq<Span> {
    if n == 0 then [] else Times(s, n - 1) + [s]
  }

  /** The spans that an opening mark enters, outermost first. */
  function Opening(m: Mark, underline: bool): seq<Span> {
    if m.ch == '~' then [Del]
    else if Size(m) < 0 then []
    else if m.ch == '_' && underline then Times(Underline, Size(m))
    else (if Size(m) % 2 == 1 then [Em] else []) + Times(Strong, Size(m) / 2)
  }

  function Enters(s: seq<Span>): seq<Event> {
    if s == [] then [] else Enters(s[..|s| - 1]) + [Enter(s[|s| - 1])]
  }

  /** Leaving goes from the innermost span outwards. */
  function Leaves(s: seq<Span>): seq<Event> {
    if s == [] then [] else [Leave(s[|s| - 1])] + Leaves(s[..|s| - 1])
  }

  function MarkEvents(m: Mark, underline: bool): seq<Event> {
    if !m.flags.resolved || !IsDelim(m.ch) then []
    else if m.flags.opens then Enters(Opening(m, underline))
    else Leaves(Opening(m, underline))
  }

  function Events(marks: seq<Mark>, underline: bool, k: nat): seq<Event>
    requires k <= |marks|
  {
    if k == 0 then [] else Events(marks, underline, k - 1) + MarkEvents(marks[k - 1], underline)
  }

  lemma {:induction false} TimesHolds(s: Span, n: nat)
    ensures |Times(s, n)| == n && forall k :: 0 <= k < n ==> Times(s, n)[k] == s
  {
    if n > 0 { TimesHolds(s, n - 1); }
  }

  lemma {:induction false} EntersHolds(s: seq<Span>)
    ensures |Enters(s)| == |s| && forall k :: 0 <= k < |s| ==> Enters(s)[k] == Enter(s[k])
  {
    if s != [] { EntersHolds(s[..|s| - 1]); }
  }

  lemma {:induction false} LeavesHolds(s: seq<Span>)
    ensures |Leaves(s)| == |s| && forall k :: 0 <= k < |s| ==> Leaves(s)[k] == Leave(s[|s| - 1 - k])
  {
    if s != [] { LeavesHolds(s[..|s| - 1]); }
  }

  /** What a resolved mark of n characters enters: '~' a deletion, '_' n underlines when these are switched on, all else one
      emphasis if n is odd and in it n / 2 strong emphases. A closer leaves the same from the inside out. */
  lemma MarkMeans(m: Mark, underline: bool, n: nat)
    requires m.flags.resolved && m.ch in {'*', '_', '~'} && m.end == m.beg + n
    ensures var e, lone := MarkEvents(m, underline), m.ch == '*' || (m.ch == '_' && !underline);
            && |e| == (if m.ch == '~' then 1 else if lone then n % 2 + n / 2 else n)
            && forall k :: 0 <= k < |e| ==>
                 var depth := if m.flags.opens then k else |e| - 1 - k;
                 var span := if m.ch == '~' then Del else if !lone then Underline else if n % 2 == 1 && depth == 0 then Em else Strong;
                 e[k] == if m.flags.opens then Enter(span) else Leave(span)
  {
    hide Times, Enters, Leaves;
    TimesHolds(Underline, n);
    TimesHolds(Strong, n / 2);
    EntersHolds(Opening(m, underline));
    LeavesHolds(Opening(m, underline));
  }

  // ----- nesting -----

  /** The spans left open after the events; None when an event leaves a span that is not innermost. */
  function Nest(events: seq<Event>, open: seq<Span>): Option<seq<Span>> {
    if events == [] then Some(open)
    else match events[0]
      case Enter(s) => Nest(events[1..], open + [s])
      case Leave(s) => if open != [] && open[|open| - 1] == s then Nest(events[1..], open[..|open| - 1]) else None
  }

  lemma {:induction false} NestAppend(a: seq<Event>, b: seq<Event>, open: seq<Span>)
    requires Nest(a, open).Some?
    ensures Nest(a + b, open) == Nest(b, Nest(a, open).value)
    decreases |a|
  {
    if a == [] {
      assert a + b == b;
    } else {
      assert (a + b)[0] == a[0] && (a + b)[1..] == a[1..] + b;
      NestAppend(a[1..], b, if a[0].Enter? then open + [a[0].span] else open[..|open| - 1]);
    }
  }

  lemma {:induction false} NestEnters(s: seq<Span>, open: seq<Span>)
    ensures Nest(Enters(s), open) == Some(open + s)
  {
    if s == [] {
      assert open + s == open;
    } else {
      var init, last := s[..|s| - 1], s[|s| - 1];
      NestEnters(init, open);
      NestAppend(Enters(init), [Enter(last)], open);
      assert [Enter(last)][1..] == [];
      assert open + init + [last] == open + s;
    }
  }

  lemma {:induction false} NestLeaves(s: seq<Span>, open: seq<Span>)
    ensures Nest(Leaves(s), open + s) == Some(open)
  {
    if s == [] {
      assert open + s == open;
    } else {
      var init, last := s[..|s| - 1], s[|s| - 1];
      NestLeaves(init, open);
      assert (open + s)[..|open + s| - 1] == open + init;
      assert Leaves(s)[1..] == Leaves(init);
    }
  }

  /** The spans of the openers below j whose closers come at k or later. */
  ghost function OpenSpans(marks: seq<Mark>, underline: bool, k: nat, j: nat): seq<Span>
    requires j <= |marks|
  {
    if j == 0 then [] else
      OpenSpans(marks, underline, k, j - 1)
      + (if marks[j - 1].flags.opens && marks[j - 1].next >= k then Opening(marks[j - 1], underline) else [])
  }

  lemma {:induction false} OpenSpansStep(marks: seq<Mark>, underline: bool, k: nat, j: nat)
    requires j <= |marks| && forall x :: 0 <= x < j && marks[x].flags.opens ==> marks[x].next != k
    ensures OpenSpans(marks, underline, k, j) == OpenSpans(marks, underline, k + 1, j)
  {
    if j > 0 {
      OpenSpansStep(marks, underline, k, j - 1);
    }
  }

  lemma OpenSpansNext(marks: seq<Mark>, underline: bool, k: nat, j: nat)
    requires j < |marks|
    ensures OpenSpans(marks, underline, k, j + 1) == OpenSpans(marks, underline, k, j)
            + (if marks[j].flags.opens && marks[j].next >= k then Opening(marks[j], underline) else [])
  {}

  lemma {:induction false} OpenSpansFlat(marks: seq<Mark>, underline: bool, k: nat, i: nat, j: nat)
    requires i <= j <= |marks| && forall x :: i <= x < j && marks[x].flags.opens ==> marks[x].next < k
    ensures OpenSpans(marks, underline, k, j) == OpenSpans(marks, underline, k, i)
  {
    hide OpenSpans;
    if i < j {
      OpenSpansFlat(marks, underline, k, i, j - 1);
      OpenSpansNext(marks, underline, k, j - 1);
    }
  }

  /** At every mark, the open spans are those of the pairs around it, outermost first. */
  lemma {:induction false} NestUpTo(marks: seq<Mark>, runs: seq<nat>, underline: bool, k: nat)
    requires Good(marks, runs, |marks|) && k <= |marks|
    ensures Nest(Events(marks, underline, k), []) == Some(OpenSpans(marks, underline, k, k))
  {
    hide Nest, Good, Enters, Leaves, Opening, OpenSpans;
    if k == 0 {
      NestNothing(marks, underline);
    } else {
      NestUpTo(marks, runs, underline, k - 1);
      NestAppend(Events(marks, underline, k - 1), MarkEvents(marks[k - 1], underline), []);
      NestMark(marks, runs, underline, k - 1);
    }
  }

  lemma NestNothing(marks: seq<Mark>, underline: bool)
    ensures Nest([], []) == Some(OpenSpans(marks, underline, 0, 0))
  {}

  lemma NestMark(marks: seq<Mark>, runs: seq<nat>, underline: bool, k: nat)
    requires Good(marks, runs, |marks|) && k < |marks|
    ensures Nest(MarkEvents(marks[k], underline), OpenSpans(marks, underline, k, k))
            == Some(OpenSpans(marks, underline, k + 1, k + 1))
  {
    hide Nest, Good, Enters, Leaves, Opening, OpenSpans;
    var m, open := marks[k], OpenSpans(marks, underline, k, k);
    ResolvedEither(marks, runs, k);
    OpenSpansNext(marks, underline, k + 1, k);
    if m.flags.closes {
      CloserEnds(marks, runs, underline, k);
      assert m.flags.resolved && IsDelim(m.ch);
      assert open == OpenSpans(marks, underline, k + 1, k) + Opening(m, underline);
      assert OpenSpans(marks, underline, k + 1, k + 1) == OpenSpans(marks, underline, k + 1, k);
      NestLeaves(Opening(m, underline), OpenSpans(marks, underline, k + 1, k));
    } else {
      NoCloser(marks, runs, k);
      OpenSpansStep(marks, underline, k, k);
      if m.flags.opens {
        NestEnters(Opening(m, underline), open);
      } else {
        assert open + [] == open;
        NestEmpty(open);
      }
    }
  }

  lemma NestEmpty(open: seq<Span>)
    ensures Nest([], open) == Some(open)
  {}

  lemma ResolvedEither(marks: seq<Mark>, runs: seq<nat>, k: nat)
    requires Good(marks, runs, |marks|) && k < |marks|
    ensures IsDelim(marks[k].ch) ==> (marks[k].flags.resolved <==> marks[k].flags.opens || marks[k].flags.closes)
    ensures !IsDelim(marks[k].ch) ==> !marks[k].flags.opens && !marks[k].flags.closes
    ensures !(marks[k].flags.opens && marks[k].flags.closes)
    ensures marks[k].flags.opens ==> k < marks[k].next < |marks|
  {
    assert MarkOk(marks[k]);
  }

  lemma NoCloser(marks: seq<Mark>, runs: seq<nat>, k: nat)
    requires Good(marks, runs, |marks|) && k < |marks| && !marks[k].flags.closes
    ensures forall x :: 0 <= x < |marks| && marks[x].flags.opens ==> marks[x].next != k
  {
    forall x: nat | x < |marks| && marks[x].flags.opens ensures marks[x].next != k {
      assert Matched(marks, x, marks[x].next);
    }
  }

  /** A closer ends the innermost open pair, and that pair opened the same spans. */
  lemma CloserEnds(marks: seq<Mark>, runs: seq<nat>, underline: bool, k: nat)
    requires Good(marks, runs, |marks|) && k < |marks| && marks[k].flags.closes
    ensures !marks[k].flags.opens
    ensures OpenSpans(marks, underline, k, k) == OpenSpans(marks, underline, k + 1, k) + Opening(marks[k], underline)
  {
    hide OpenSpans;
    var o: nat := marks[k].prev;
    assert Matched(marks, o, k) && MarkOk(marks[k]);
    forall x | o < x < k && marks[x].flags.opens ensures marks[x].next < k {
      assert marks[o].next < x || marks[x].next < marks[o].next;
    }
    forall x: nat | x < o && marks[x].flags.opens ensures marks[x].next != k {
      assert Matched(marks, x, marks[x].next);
    }
    OpenSpansFlat(marks, underline, k, o + 1, k);
    OpenSpansFlat(marks, underline, k + 1, o, k) by {
      assert marks[o].next == k;
    }
    OpenSpansStep(marks, underline, k, o);
    OpenSpansAt(marks, underline, k, o);
  }

  lemma OpenSpansAt(marks: seq<Mark>, underline: bool, k: nat, o: nat)
    requires o < |marks| && marks[o].flags.opens && marks[o].next >= k
    ensures OpenSpans(marks, underline, k, o + 1) == OpenSpans(marks, underline, k, o) + Opening(marks[o], underline)
  {}

  /** Enter and leave events are balanced and properly nested. */
  lemma Balanced(marks: seq<Mark>, runs: seq<nat>, underline: bool)
    requires Good(marks, runs, |marks|)
    ensures Nest(Events(marks, underline, |marks|), []) == Some([])
  {
    hide Nest, Good, Opening, Events;
    NestUpTo(marks, runs, underline, |marks|);
    forall x: nat | x < |marks| && marks[x].flags.opens ensures marks[x].next < |marks| {
      ResolvedEither(marks, runs, x);
    }
    OpenSpansFlat(marks, underline, |marks|, 0, |marks|);
  }

  // ----- emitting -----

  /** The enter and leave calls for the marks, in text order. */
  method EmitSpans(marks: seq<Mark>, underline: bool, ghost runs: seq<nat>) returns (events: seq<Event>)
    requires Layout(marks, runs)
    ensures events == Events(marks, underline, |marks|)
  {
    hide Layout, MarkEvents;
    events := [];
    var off := 0;
    var i := 0;
    while i < |marks|
      invariant i <= |marks| && events == Events(marks, underline, i)
      invariant EndsBefore(marks, i, off)
    {
      MarkFits(marks, runs, i, off);
      var m := marks[i];
      var more := [];
      if m.flags.resolved && m.beg >= off {
        off := m.beg;
        more := EmitMark(m, off, underline);
        off := m.end;
      } else {
        NothingToEmit(m, underline);
      }
      events := events + more;
      i := i + 1;
    }
  }

  ghost predicate EndsBefore(marks: seq<Mark>, i: nat, off: nat) {
    off == 0 || exists r: nat :: r < i && r < |marks| && marks[r].flags.resolved && marks[r].end == off
  }

  lemma MarkFits(marks: seq<Mark>, runs: seq<nat>, i: nat, off: nat)
    requires Layout(marks, runs) && EndsBefore(marks, i, off) && i < |marks|
    ensures MarkOk(marks[i]) && (marks[i].flags.resolved ==> marks[i].beg >= off)
  {
    assert MarkOk(marks[i]);
    if off != 0 && marks[i].flags.resolved {
      var r: nat :| r < i && r < |marks| && marks[r].flags.resolved && marks[r].end == off;
      assert MarkOk(marks[r]);
    }
  }

  lemma NothingToEmit(m: Mark, underline: bool)
    requires !m.flags.resolved
    ensures MarkEvents(m, underline) == []
  {}

  /** One resolved mark. */
  method EmitMark(m: Mark, from: nat, underline: bool) returns (events: seq<Event>)
    requires m.flags.resolved && MarkOk(m) && from == m.beg
    ensures events == MarkEvents(m, underline)
  {
    hide Enters, Leaves, Times;
    if m.ch == '_' && underline {
      events := EmitUnderline(m, from);
    } else if IsEmph(m.ch) {
      if m.flags.opens {
        events := EnterEmphasis(m, from);
      } else {
        events := LeaveEmphasis(m, from);
      }
    } else {
      events := [];
      if m.ch == '~' {
        events := [if m.flags.opens then Enter(Del) else Leave(Del)];
        OneSpan(Del);
      }
    }
  }

  lemma OneSpan(s: Span)
    ensures Enters([s]) == [Enter(s)] && Leaves([s]) == [Leave(s)]
    ensures Enters([]) == [] && Leaves([]) == []
    ensures forall h: seq<Span> :: h + Times(s, 0) == h
  {}

  method EmitUnderline(m: Mark, from: nat) returns (events: seq<Event>)
    requires m.beg == from <= m.end
    ensures events == if m.flags.opens then Enters(Times(Underline, Size(m))) else Leaves(Times(Underline, Size(m)))
  {
    hide Enters, Leaves, Times;
    OneSpan(Underline);
    assert [] + Times(Underline, 0) == Times(Underline, 0);
    events := [];
    var off := from;
    if m.flags.opens {
      while off < m.end
        invariant m.beg <= off <= m.end && events == Enters(Times(Underline, off - m.beg))
      {
        TimesMore(Underline, off - m.beg);
        events := events + [Enter(Underline)];
        off := off + 1;
      }
    } else {
      while off < m.end
        invariant m.beg <= off <= m.end && events == Leaves(Times(Underline, off - m.beg))
      {
        LeavesMore(Underline, off - m.beg);
        events := events + [Leave(Underline)];
        off := off + 1;
      }
    }
  }

  /** Emphasis outside, strong emphasis inside. */
  method EnterEmphasis(m: Mark, from: nat) returns (events: seq<Event>)
    requires m.beg == from <= m.end
    ensures events == Enters((if Size(m) % 2 == 1 then [Em] else []) + Times(Strong, Size(m) / 2))
  {
    hide Enters, Times;
    OneSpan(Em);
    OneSpan(Strong);
    events := [];
    var off := from;
    ghost var head: seq<Span> := if Size(m) % 2 == 1 then [Em] else [];
    if (m.end - off) % 2 == 1 {
      events := events + [Enter(Em)];
      off := off + 1;
    }
    ghost var done := 0;
    while off + 1 < m.end
      invariant off <= m.end && (m.end - off) % 2 == 0 && done == Size(m) / 2 - (m.end - off) / 2
      invariant events == Enters(head + Times(Strong, done)) && done >= 0
    {
      EntersMore(head, Strong, done);
      events := events + [Enter(Strong)];
      off := off + 2;
      done := done + 1;
    }
    assert done == Size(m) / 2;
  }

  method LeaveEmphasis(m: Mark, from: nat) returns (events: seq<Event>)
    requires m.beg == from <= m.end
    ensures events == Leaves((if Size(m) % 2 == 1 then [Em] else []) + Times(Strong, Size(m) / 2))
  {
    hide Leaves, Times;
    OneSpan(Strong);
    events := [];
    var off := from;
    ghost var done := 0;
    assert Leaves(Times(Strong, 0)) == [] by { assert [] + Times(Strong, 0) == Times(Strong, 0); }
    while off + 1 < m.end
      invariant off <= m.end && off - m.beg == 2 * done && done >= 0
      invariant events == Leaves(Times(Strong, done))
    {
      LeavesMore(Strong, done);
      events := events + [Leave(Strong)];
      off := off + 2;
      done := done + 1;
    }
    assert done == Size(m) / 2;
    if (m.end - off) % 2 == 1 {
      LeavesHead(Em, Times(Strong, done));
      events := events + [Leave(Em)];
      off := off + 1;
    } else {
      assert [] + Times(Strong, done) == Times(Strong, done);
    }
  }

  lemma TimesMore(s: Span, n: nat)
    ensures Enters(Times(s, n + 1)) == Enters(Times(s, n)) + [Enter(s)]
  {
    assert Times(s, n + 1)[..|Times(s, n + 1)| - 1] == Times(s, n);
  }

  lemma EntersMore(head: seq<Span>, s: Span, n: nat)
    ensures Enters(head + Times(s, n + 1)) == Enters(head + Times(s, n)) + [Enter(s)]
  {
    var t := head + Times(s, n + 1);
    assert t[..|t| - 1] == head + Times(s, n);
  }

  /** Spans of one kind may be left in any order. */
  lemma {:induction false} LeavesMore(s: Span, n: nat)
    ensures Leaves(Times(s, n + 1)) == Leaves(Times(s, n)) + [Leave(s)]
  {
    assert Times(s, n + 1)[..|Times(s, n + 1)| - 1] == Times(s, n);
    if n > 0 {
      LeavesMore(s, n - 1);
    }
  }

  lemma {:induction false} LeavesHead(head: Span, s: seq<Span>)
    ensures Leaves([head] + s) == Leaves(s) + [Leave(head)]
  {
    if s == [] {
      assert [head] + s == [head] && [head][..0] == [];
    } else {
      LeavesHead(head, s[..|s| - 1]);
      assert ([head] + s)[..|[head] + s| - 1] == [head] + s[..|s| - 1];
    }
  }
}
