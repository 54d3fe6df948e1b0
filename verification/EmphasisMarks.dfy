/** Marks of an inline text, and the pairing of emphasis delimiters by a plain backward search. */
module EmphasisMarks {
  import opened Wrappers

  /** mod3 remembers the length, modulo 3, of the delimiter run that the mark was cut from. */
  datatype Flags = Flags(mayOpen: bool, mayClose: bool, opens: bool, closes: bool, resolved: bool, both: bool, mod3: nat)

  /** A stretch of text; prev and next link resolved pairs, and next also links unresolved openers. */
  datatype Mark = Mark(beg: nat, end: nat, prev: int, next: int, ch: char, flags: Flags)

  const DUMMY: char := 'D'

  predicate IsEmph(ch: char) {
    ch == '*' || ch == '_'
  }

  predicate IsDelim(ch: char) {
    IsEmph(ch) || ch == '~'
  }

  function Size(m: Mark): int {
    m.end - m.beg
  }

  // ----- the plain search -----

  /** When either run can both open and close, the sum of their lengths must not be a multiple of 3,
      unless both lengths are. */
  predicate RuleOfThree(openerBoth: bool, openerRun: nat, closerBoth: bool, closerRun: nat) {
    !(openerBoth || closerBoth) || (openerRun + closerRun) % 3 != 0 || (openerRun % 3 == 0 && closerRun % 3 == 0)
  }

  /** Mark j may be closed by mark i; runs gives the length of the original run at each mark. */
  ghost predicate Fits(marks: seq<Mark>, runs: seq<nat>, j: nat, i: nat)
    requires j < |marks| == |runs| && i < |marks|
  {
    && marks[j].ch == marks[i].ch
    && (if marks[i].ch == '~' then Size(marks[j]) == Size(marks[i])
        else RuleOfThree(marks[j].flags.both, runs[j], marks[i].flags.both, runs[i]))
  }

  /** Some resolved pair lies around mark j. */
  ghost predicate Enclosed(marks: seq<Mark>, j: nat) {
    exists o: nat :: o < j && o < |marks| && marks[o].flags.opens && j < marks[o].next
  }

  /** Mark j can still be opened: it may open, is not resolved, and no pair lies around it. */
  ghost predicate Live(marks: seq<Mark>, j: nat)
    requires j < |marks|
  {
    IsDelim(marks[j].ch) && marks[j].flags.mayOpen && !marks[j].flags.resolved && !Enclosed(marks, j)
  }

  /** The nearest opener below k that mark i may close. */
  ghost function Nearest(marks: seq<Mark>, runs: seq<nat>, i: nat, k: nat): (r: Option<nat>)
    requires k <= i < |marks| == |runs|
    ensures r.Some? ==> r.value < k && Live(marks, r.value) && Fits(marks, runs, r.value, i)
    ensures forall j: nat :: (if r.Some? then r.value < j < k else j < k) && Live(marks, j) ==> !Fits(marks, runs, j, i)
  {
    if k == 0 then None
    else if Live(marks, k - 1) && Fits(marks, runs, k - 1, i) then Some(k - 1)
    else Nearest(marks, runs, i, k - 1)
  }

  lemma NearestIs(marks: seq<Mark>, runs: seq<nat>, i: nat, r: Option<nat>)
    requires i < |marks| == |runs|
    requires r.Some? ==> r.value < i && Live(marks, r.value) && Fits(marks, runs, r.value, i)
    requires forall j: nat :: (if r.Some? then r.value < j < i else j < i) && Live(marks, j) ==> !Fits(marks, runs, j, i)
    ensures Nearest(marks, runs, i, i) == r
  {
    var q := Nearest(marks, runs, i, i);
    if q.Some? {
      assert r.Some?;
    }
  }

  // ----- what resolving does to the marks -----

  /** The last n characters of mark j move to the dummy that was kept for them. */
  function Split(marks: seq<Mark>, j: nat, n: nat): (r: seq<Mark>)
    requires j < |marks| && 0 < n < Size(marks[j]) && j + Size(marks[j]) <= |marks|
    ensures |r| == |marks|
  {
    var m := marks[j];
    marks[j := m.(end := m.end - n)][j + (Size(m) - n) := m.(beg := m.end - n)]
  }

  function Pair(marks: seq<Mark>, o: nat, c: nat): (r: seq<Mark>)
    requires o < c < |marks|
    ensures |r| == |marks|
  {
    marks[o := marks[o].(next := c, flags := marks[o].flags.(opens := true, resolved := true))]
         [c := marks[c].(prev := o, flags := marks[c].flags.(closes := true, resolved := true))]
  }

  /** Opener j and closer i, cut to equal lengths, become a pair: the opener gives its last characters,
      the closer its first. */
  function Join(marks: seq<Mark>, j: nat, i: nat): (r: seq<Mark>)
    requires j < i < |marks|
    requires Size(marks[j]) > Size(marks[i]) > 0 ==> j + Size(marks[j]) <= i
    requires 0 < Size(marks[j]) < Size(marks[i]) ==> i + Size(marks[i]) <= |marks|
    requires Size(marks[j]) > 0 && Size(marks[i]) > 0
    ensures |r| == |marks|
  {
    var a, b := Size(marks[j]), Size(marks[i]);
    if a > b then Pair(Split(marks, j, b), j + (a - b), i)
    else if a < b then Pair(Split(marks, i, b - a), j, i)
    else Pair(marks, j, i)
  }

  /** One delimiter mark, by the plain search. */
  ghost function Step(marks: seq<Mark>, runs: seq<nat>, i: nat): seq<Mark>
    requires i < |marks| && IsDelim(marks[i].ch) && Layout(marks, runs)
  {
    var r := if marks[i].flags.mayClose then Nearest(marks, runs, i, i) else None;
    if r.None? then marks else
      FitsInside(marks, runs, r.value, i);
      Join(marks, r.value, i)
  }

  /** All delimiter marks before k, in order. */
  ghost function Resolve(marks: seq<Mark>, runs: seq<nat>, k: nat): (r: seq<Mark>)
    requires Layout(marks, runs) && Unpaired(marks) && k <= |marks|
    ensures |r| == |marks| && Good(r, runs, k)
  {
    if k == 0 then UnpairedIsGood(marks, runs); marks else
      var m := Resolve(marks, runs, k - 1);
      if IsDelim(m[k - 1].ch) then
        StepKeeps(m, runs, k - 1);
        Step(m, runs, k - 1)
      else
        SkipKeeps(m, runs, k - 1);
        m
  }

  // ----- what holds throughout -----

  predicate MarkOk(m: Mark) {
    && m.beg <= m.end && m.flags.mod3 < 3
    && (if IsDelim(m.ch) then
          && m.beg < m.end && (m.flags.resolved <==> m.flags.opens || m.flags.closes) && !(m.flags.opens && m.flags.closes)
        else
          !m.flags.opens && !m.flags.closes && (m.ch == DUMMY ==> !m.flags.resolved))
    && (m.ch == '~' ==> Size(m) <= 2)
  }

  /** A mark of length k is followed by its k - 1 dummies. */
  ghost predicate Room(marks: seq<Mark>, j: nat)
    requires j < |marks|
  {
    j + Size(marks[j]) <= |marks| && forall d :: j < d < j + Size(marks[j]) ==> marks[d].ch == DUMMY
  }

  lemma InRoom(marks: seq<Mark>, j: nat, d: nat)
    requires j < |marks| && d < |marks| && Room(marks, j)
    ensures j < d < j + Size(marks[j]) ==> marks[d].ch == DUMMY
  {}

  ghost predicate SameRun(marks: seq<Mark>, runs: seq<nat>, j: nat)
    requires j < |marks| == |runs|
  {
    marks[j].flags.mod3 == runs[j] % 3 && forall d :: j < d < j + Size(marks[j]) && d < |runs| ==> runs[d] == runs[j]
  }

  ghost predicate InOrder(marks: seq<Mark>) {
    forall i, j :: 0 <= i < j < |marks| && marks[i].ch != DUMMY && marks[j].ch != DUMMY ==> marks[i].end <= marks[j].beg
  }

  /** Marks lie in text order, and every emphasis mark keeps its dummies and the length of its run. */
  ghost predicate Layout(marks: seq<Mark>, runs: seq<nat>) {
    && |runs| == |marks|
    && (forall j :: 0 <= j < |marks| ==> MarkOk(marks[j]))
    && InOrder(marks)
    && (forall j :: 0 <= j < |marks| && IsEmph(marks[j].ch) ==> Room(marks, j) && SameRun(marks, runs, j))
  }

  /** An opener and its closer: same character, same length, linked both ways. */
  ghost predicate Matched(marks: seq<Mark>, o: nat, c: nat)
    requires o < |marks| && c < |marks|
  {
    && o < c && marks[o].next == c && marks[c].prev == o && marks[o].flags.opens && marks[c].flags.closes
    && marks[o].ch == marks[c].ch && Size(marks[o]) == Size(marks[c])
  }

  ghost predicate Links(marks: seq<Mark>) {
    && (forall o: nat :: o < |marks| && marks[o].flags.opens ==> o < marks[o].next < |marks| && Matched(marks, o, marks[o].next))
    && (forall c: nat :: c < |marks| && marks[c].flags.closes ==> 0 <= marks[c].prev < c && Matched(marks, marks[c].prev, c))
  }

  /** No two pairs cross. */
  ghost predicate NoCrossing(marks: seq<Mark>) {
    forall o, p :: 0 <= o < p < |marks| && marks[o].flags.opens && marks[p].flags.opens ==>
                     marks[o].next < p || marks[p].next < marks[o].next
  }

  /** The state after the marks before k were dealt with. */
  ghost predicate Good(marks: seq<Mark>, runs: seq<nat>, k: nat) {
    && Layout(marks, runs) && Links(marks) && NoCrossing(marks)
    && (forall j :: k <= j < |marks| && IsDelim(marks[j].ch) ==> !marks[j].flags.resolved)
  }

  ghost predicate Unpaired(marks: seq<Mark>) {
    forall j :: 0 <= j < |marks| ==> !marks[j].flags.opens && !marks[j].flags.closes
  }

  lemma UnpairedIsGood(marks: seq<Mark>, runs: seq<nat>)
    requires Layout(marks, runs) && Unpaired(marks)
    ensures Good(marks, runs, 0)
  {}

  lemma SkipKeeps(marks: seq<Mark>, runs: seq<nat>, i: nat)
    requires Good(marks, runs, i) && i < |marks| && !IsDelim(marks[i].ch)
    ensures Good(marks, runs, i + 1)
  {}

  lemma FitsInside(marks: seq<Mark>, runs: seq<nat>, j: nat, i: nat)
    requires Layout(marks, runs) && j < i < |marks| && IsDelim(marks[i].ch) && marks[j].ch == marks[i].ch
    requires marks[i].ch == '~' ==> Size(marks[j]) == Size(marks[i])
    ensures Size(marks[j]) > 0 && Size(marks[i]) > 0
    ensures Size(marks[j]) > Size(marks[i]) ==> j + Size(marks[j]) <= i
    ensures Size(marks[j]) < Size(marks[i]) ==> i + Size(marks[i]) <= |marks|
    ensures IsEmph(marks[i].ch) ==> j + Size(marks[j]) <= i
  {
    if IsEmph(marks[j].ch) {
      assert Room(marks, j) && Room(marks, i);
      InRoom(marks, j, i);
    }
  }

  // ----- splitting -----

  /** A split leaves the layout, the pairs and the freedom from crossings alone. */
  lemma SplitKeeps(marks: seq<Mark>, runs: seq<nat>, j: nat, n: nat, k: nat)
    requires Good(marks, runs, k) && j < |marks| && IsEmph(marks[j].ch) && !marks[j].flags.resolved
    requires 0 < n < Size(marks[j]) && j + Size(marks[j]) <= |marks|
    ensures Good(Split(marks, j, n), runs, k)
  {
    var s := Split(marks, j, n);
    SplitLayout(marks, runs, j, n);
    SplitPairs(marks, j, n);
  }

  lemma SplitLayout(marks: seq<Mark>, runs: seq<nat>, j: nat, n: nat)
    requires Layout(marks, runs) && j < |marks| && IsEmph(marks[j].ch)
    requires 0 < n < Size(marks[j]) && j + Size(marks[j]) <= |marks|
    ensures Layout(Split(marks, j, n), runs)
  {
    var s, d := Split(marks, j, n), j + (Size(marks[j]) - n);
    assert Room(marks, j) && SameRun(marks, runs, j);
    assert marks[d].ch == DUMMY;
    forall x | 0 <= x < |s| && IsEmph(s[x].ch) ensures Room(s, x) && SameRun(s, runs, x) {
      if x != d {
        assert Room(marks, x) && SameRun(marks, runs, x);
        if x < j { assert x + Size(marks[x]) <= j; }
      }
    }
    SplitInOrder(marks, j, n);
  }

  lemma SplitInOrder(marks: seq<Mark>, j: nat, n: nat)
    requires InOrder(marks) && j < |marks| && marks[j].ch != DUMMY && 0 < n < Size(marks[j]) && Room(marks, j)
    ensures InOrder(Split(marks, j, n))
  {
    var s, d := Split(marks, j, n), j + (Size(marks[j]) - n);
    forall x, y | 0 <= x < y < |s| && s[x].ch != DUMMY && s[y].ch != DUMMY ensures s[x].end <= s[y].beg {
      var x', y' := if x == d then j else x, if y == d then j else y;
      InRoom(marks, j, x);
      InRoom(marks, j, y);
      assert x' < y' ==> marks[x'].end <= marks[y'].beg;
    }
  }

  lemma SplitPairs(marks: seq<Mark>, j: nat, n: nat)
    requires Links(marks) && NoCrossing(marks) && j < |marks| && MarkOk(marks[j]) && !marks[j].flags.resolved && Room(marks, j)
    requires IsDelim(marks[j].ch)
    requires forall x :: 0 <= x < |marks| ==> MarkOk(marks[x])
    requires 0 < n < Size(marks[j])
    ensures Links(Split(marks, j, n)) && NoCrossing(Split(marks, j, n))
  {
    var s, d := Split(marks, j, n), j + (Size(marks[j]) - n);
    hide Room, Split;
    InRoom(marks, j, d);
    SplitSame(marks, j, n);
    forall o: nat | o < |s| && s[o].flags.opens ensures o < s[o].next < |s| && Matched(s, o, s[o].next) {
      assert Matched(marks, o, marks[o].next);
    }
    forall c: nat | c < |s| && s[c].flags.closes ensures 0 <= s[c].prev < c && Matched(s, s[c].prev, c) {
      assert Matched(marks, marks[c].prev, c);
    }
  }

  /** A split does not touch any mark of a pair. */
  lemma SplitSame(marks: seq<Mark>, j: nat, n: nat)
    requires j < |marks| && 0 < n < Size(marks[j]) && j + Size(marks[j]) <= |marks|
    requires MarkOk(marks[j]) && IsDelim(marks[j].ch) && !marks[j].flags.resolved
    requires var d := marks[j + (Size(marks[j]) - n)]; MarkOk(d) && d.ch == DUMMY
    ensures var s := Split(marks, j, n);
            && |s| == |marks|
            && (forall x :: 0 <= x < |s| ==> s[x].flags.opens == marks[x].flags.opens && s[x].flags.closes == marks[x].flags.closes)
            && (forall x :: 0 <= x < |s| && (s[x].flags.opens || s[x].flags.closes) ==> s[x] == marks[x])
  {}

  // ----- pairing -----

  /** Nothing crosses o's pair with c: every pair around o also lies around c, and none starts between them and ends later. */
  lemma PairKeeps(marks: seq<Mark>, runs: seq<nat>, o: nat, c: nat)
    requires Good(marks, runs, c) && o < c < |marks| && IsDelim(marks[c].ch) && marks[o].ch == marks[c].ch
    requires Size(marks[o]) == Size(marks[c]) && !marks[o].flags.resolved && !Enclosed(marks, o)
    ensures Good(Pair(marks, o, c), runs, c + 1)
  {
    var s := Pair(marks, o, c);
    assert forall x :: 0 <= x < |s| ==> s[x].beg == marks[x].beg && s[x].end == marks[x].end && s[x].ch == marks[x].ch
                                        && s[x].flags.mod3 == marks[x].flags.mod3;
    assert !marks[c].flags.resolved;
    PairLayout(marks, runs, o, c);
    PairLinks(marks, runs, o, c);
    PairNoCrossing(marks, runs, o, c);
  }

  lemma PairLayout(marks: seq<Mark>, runs: seq<nat>, o: nat, c: nat)
    requires Layout(marks, runs) && o < c < |marks| && IsDelim(marks[c].ch) && marks[o].ch == marks[c].ch
    requires !marks[o].flags.resolved && !marks[c].flags.resolved
    ensures Layout(Pair(marks, o, c), runs)
  {
    var s := Pair(marks, o, c);
    forall x | 0 <= x < |s| && IsEmph(s[x].ch) ensures Room(s, x) && SameRun(s, runs, x) {
      assert Room(marks, x) && SameRun(marks, runs, x);
    }
  }

  lemma PairLinks(marks: seq<Mark>, runs: seq<nat>, o: nat, c: nat)
    requires Good(marks, runs, c) && o < c < |marks| && IsDelim(marks[c].ch) && marks[o].ch == marks[c].ch
    requires Size(marks[o]) == Size(marks[c]) && !marks[o].flags.resolved && !marks[c].flags.resolved
    ensures Links(Pair(marks, o, c))
  {
    var s := Pair(marks, o, c);
    forall x: nat | x < |s| && s[x].flags.opens ensures x < s[x].next < |s| && Matched(s, x, s[x].next) {
      if x != o { assert Matched(marks, x, marks[x].next); }
    }
    forall x: nat | x < |s| && s[x].flags.closes ensures 0 <= s[x].prev < x && Matched(s, s[x].prev, x) {
      if x != c { assert Matched(marks, marks[x].prev, x); }
    }
  }

  lemma PairNoCrossing(marks: seq<Mark>, runs: seq<nat>, o: nat, c: nat)
    requires Good(marks, runs, c) && o < c < |marks| && !marks[o].flags.resolved && !Enclosed(marks, o)
    requires IsDelim(marks[o].ch) && IsDelim(marks[c].ch)
    ensures NoCrossing(Pair(marks, o, c))
  {
    var s := Pair(marks, o, c);
    forall x, y | 0 <= x < y < |s| && s[x].flags.opens && s[y].flags.opens
      ensures s[x].next < y || s[y].next < s[x].next
    {
      if y == o {
        assert !Enclosed(marks, o) ==> marks[x].next <= o;
        assert Matched(marks, x, marks[x].next);
      } else if x == o {
        assert Matched(marks, y, marks[y].next);
        PairEndsBefore(marks, runs, c, y);
      }
    }
  }

  lemma PairEndsBefore(marks: seq<Mark>, runs: seq<nat>, k: nat, o: nat)
    requires Good(marks, runs, k) && o < |marks| && marks[o].flags.opens
    ensures o < marks[o].next < |marks| && marks[o].next < k
  {
    var c := marks[o].next;
    assert Matched(marks, o, c) && MarkOk(marks[o]);
    assert MarkOk(marks[c]);
  }

  /** The plain search keeps everything, so its pairs have equal lengths and never cross. */
  lemma StepKeeps(marks: seq<Mark>, runs: seq<nat>, i: nat)
    requires Good(marks, runs, i) && i < |marks| && IsDelim(marks[i].ch)
    ensures |Step(marks, runs, i)| == |marks| && Good(Step(marks, runs, i), runs, i + 1)
  {
    var r := if marks[i].flags.mayClose then Nearest(marks, runs, i, i) else None;
    if r.Some? {
      JoinKeeps(marks, runs, r.value, i);
    } else {
      DropKeeps(marks, runs, i);
    }
  }

  lemma DropKeeps(marks: seq<Mark>, runs: seq<nat>, i: nat)
    requires Good(marks, runs, i)
    ensures Good(marks, runs, i + 1)
  {}

  lemma JoinKeeps(marks: seq<Mark>, runs: seq<nat>, j: nat, i: nat)
    requires Good(marks, runs, i) && j < i < |marks| && IsDelim(marks[i].ch)
    requires Live(marks, j) && Fits(marks, runs, j, i)
    ensures Size(marks[j]) > Size(marks[i]) > 0 ==> j + Size(marks[j]) <= i
    ensures 0 < Size(marks[j]) < Size(marks[i]) ==> i + Size(marks[i]) <= |marks|
    ensures Size(marks[j]) > 0 && Size(marks[i]) > 0
    ensures Good(Join(marks, j, i), runs, i + 1)
  {
    hide Good, Live, Layout, Links, NoCrossing, Enclosed, MarkOk;
    GoodParts(marks, runs, i, j);
    FitsInside(marks, runs, j, i);
    var a, b := Size(marks[j]), Size(marks[i]);
    if a > b {
      var d := j + (a - b);
      SplitKeeps(marks, runs, j, b, i);
      SplitFree(marks, runs, j, b, i);
      PairKeeps(Split(marks, j, b), runs, d, i);
    } else if a < b {
      SplitKeeps(marks, runs, i, b - a, i);
      SplitCloserFree(marks, runs, j, i, b - a);
      PairKeeps(Split(marks, i, b - a), runs, j, i);
    } else {
      PairKeeps(marks, runs, j, i);
    }
  }

  lemma GoodParts(marks: seq<Mark>, runs: seq<nat>, i: nat, j: nat)
    requires Good(marks, runs, i) && j < i < |marks| && IsDelim(marks[i].ch) && Live(marks, j)
    ensures Layout(marks, runs) && IsDelim(marks[j].ch) && !marks[j].flags.resolved && !Enclosed(marks, j)
    ensures !marks[i].flags.resolved
  {}

  /** The part split off an opener is as free of enclosing pairs as the opener. */
  lemma SplitFree(marks: seq<Mark>, runs: seq<nat>, j: nat, n: nat, k: nat)
    requires Good(marks, runs, k) && j < |marks| && IsEmph(marks[j].ch) && !marks[j].flags.resolved
    requires 0 < n < Size(marks[j]) && j + Size(marks[j]) <= |marks|
    ensures forall x: nat :: x < |marks| ==> (Enclosed(Split(marks, j, n), x) <==> Enclosed(marks, x))
    ensures Enclosed(marks, j + (Size(marks[j]) - n)) <==> Enclosed(marks, j)
  {
    var s, d := Split(marks, j, n), j + (Size(marks[j]) - n);
    assert Room(marks, j);
    assert marks[d].ch == DUMMY && MarkOk(marks[d]) && MarkOk(marks[j]);
    assert !marks[d].flags.opens && !marks[j].flags.opens;
    SplitEnclosed(marks, j, n);
    forall o: nat | o < |marks| && marks[o].flags.opens ensures (o < d && d < marks[o].next) <==> (o < j && j < marks[o].next) {
      assert Matched(marks, o, marks[o].next);
      var c := marks[o].next;
      assert MarkOk(marks[o]) && MarkOk(marks[c]);
      InRoom(marks, j, o);
      InRoom(marks, j, c);
    }
  }

  lemma SplitEnclosed(marks: seq<Mark>, j: nat, n: nat)
    requires j < |marks| && 0 < n < Size(marks[j]) && j + Size(marks[j]) <= |marks|
    requires !marks[j].flags.opens && !marks[j + (Size(marks[j]) - n)].flags.opens
    ensures forall x: nat :: x < |marks| ==> (Enclosed(Split(marks, j, n), x) <==> Enclosed(marks, x))
  {
    var s := Split(marks, j, n);
    assert forall o :: 0 <= o < |s| ==> (s[o].flags.opens == marks[o].flags.opens && s[o].next == marks[o].next)
                                        || (!s[o].flags.opens && !marks[o].flags.opens);
    forall x: nat | x < |marks| ensures Enclosed(s, x) <==> Enclosed(marks, x) {
      if Enclosed(s, x) {
        var o: nat :| o < x && o < |s| && s[o].flags.opens && x < s[o].next;
        assert o < x && o < |marks| && marks[o].flags.opens && x < marks[o].next;
      }
      if Enclosed(marks, x) {
        var o: nat :| o < x && o < |marks| && marks[o].flags.opens && x < marks[o].next;
        assert o < x && o < |s| && s[o].flags.opens && x < s[o].next;
      }
    }
  }

  lemma SplitCloserFree(marks: seq<Mark>, runs: seq<nat>, j: nat, i: nat, n: nat)
    requires Good(marks, runs, i) && j < i < |marks| && IsEmph(marks[i].ch) && !Enclosed(marks, j)
    requires 0 < n < Size(marks[i]) && i + Size(marks[i]) <= |marks|
    ensures !Enclosed(Split(marks, i, n), j)
  {
    SplitFree(marks, runs, i, n, i);
  }

  /** Resolved marks are final. */
  lemma ResolvedStays(marks: seq<Mark>, runs: seq<nat>, i: nat, r: nat)
    requires Good(marks, runs, i) && i < |marks| && IsDelim(marks[i].ch)
    requires r < |marks| && marks[r].flags.resolved
    ensures |Step(marks, runs, i)| == |marks| && Step(marks, runs, i)[r] == marks[r]
  {
    hide Enclosed, NoCrossing, Links;
    var q := if marks[i].flags.mayClose then Nearest(marks, runs, i, i) else None;
    if q.Some? {
      var j := q.value;
      FitsInside(marks, runs, j, i);
      assert IsEmph(marks[j].ch) ==> Room(marks, j);
      assert IsEmph(marks[i].ch) ==> Room(marks, i);
    }
  }
}
