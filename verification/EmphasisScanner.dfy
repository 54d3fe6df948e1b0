/** Collecting the delimiter marks of a line, and the whole way from a line to its spans. */
module EmphasisScanner {
  import opened Wrappers
  import opened EmphasisMarks
  import R = EmphasisResolver
  import opened EmphasisSpans

  /** The character classes, given from outside. */
  datatype Classes = Classes(space: char -> bool, punct: char -> bool)

  /** What lies next to a run: 0 for white space or the end of the line, 1 for punctuation, 2 for the rest. */
  function Level(cls: Classes, at: Option<char>): nat {
    if at.None? || cls.space(at.value) then 0 else if cls.punct(at.value) then 1 else 2
  }

  function Before(text: string, off: nat): Option<char>
    requires off <= |text|
  {
    if off == 0 then None else Some(text[off - 1])
  }

  function After(text: string, off: nat): Option<char>
    requires off <= |text|
  {
    if off == |text| then None else Some(text[off])
  }

  // ----- flanking -----

  /** The run from beg to end has white space, or the edge of the line, in front of it. */
  ghost predicate SpaceBefore(text: string, cls: Classes, beg: nat)
    requires beg <= |text|
  {
    beg == 0 || cls.space(text[beg - 1])
  }

  ghost predicate SpaceAfter(text: string, cls: Classes, end: nat)
    requires end <= |text|
  {
    end == |text| || cls.space(text[end])
  }

  ghost predicate PunctuationBefore(text: string, cls: Classes, beg: nat)
    requires beg <= |text|
  {
    beg > 0 && cls.punct(text[beg - 1])
  }

  ghost predicate PunctuationAfter(text: string, cls: Classes, end: nat)
    requires end <= |text|
  {
    end < |text| && cls.punct(text[end])
  }

  /** Not followed by white space, and, when followed by punctuation, preceded by white space or punctuation. */
  ghost predicate LeftFlanking(text: string, cls: Classes, beg: nat, end: nat)
    requires beg <= |text| && end <= |text|
  {
    !SpaceAfter(text, cls, end) && (PunctuationAfter(text, cls, end) ==> SpaceBefore(text, cls, beg) || PunctuationBefore(text, cls, beg))
  }

  /** Not preceded by white space, and, when preceded by punctuation, followed by white space or punctuation. */
  ghost predicate RightFlanking(text: string, cls: Classes, beg: nat, end: nat)
    requires beg <= |text| && end <= |text|
  {
    !SpaceBefore(text, cls, beg) && (PunctuationBefore(text, cls, beg) ==> SpaceAfter(text, cls, end) || PunctuationAfter(text, cls, end))
  }

  /** Whether a run of the character can open: '_' not inside a word, '~' only where no word is in front of it. */
  ghost predicate CanOpen(text: string, cls: Classes, ch: char, beg: nat, end: nat)
    requires beg <= |text| && end <= |text|
  {
    if ch == '~' then SpaceBefore(text, cls, beg) || PunctuationBefore(text, cls, beg)
    else
      && LeftFlanking(text, cls, beg, end)
      && (ch == '_' && RightFlanking(text, cls, beg, end) ==> PunctuationBefore(text, cls, beg))
  }

  ghost predicate CanClose(text: string, cls: Classes, ch: char, beg: nat, end: nat)
    requires beg <= |text| && end <= |text|
  {
    if ch == '~' then SpaceAfter(text, cls, end) || PunctuationAfter(text, cls, end)
    else
      && RightFlanking(text, cls, beg, end)
      && (ch == '_' && LeftFlanking(text, cls, beg, end) ==> PunctuationAfter(text, cls, end))
  }

  const NO_FLAGS: Flags := Flags(false, false, false, false, false, false, 0)
  const RESOLVED: Flags := NO_FLAGS.(resolved := true)

  /** The flags of a run of length n between the given levels. */
  function EmphFlags(ch: char, left: nat, right: nat, n: nat): Flags {
    var inWord := ch == '_' && left == 2 && right == 2;
    var l, r := if inWord then 0 else left, if inWord then 0 else right;
    var closes, opens := l > 0 && l >= r, r > 0 && r >= l;
    NO_FLAGS.(mayOpen := opens, mayClose := closes, both := opens && closes, mod3 := n % 3)
  }

  /** The flags of a strikethrough run; any side that touches neither a word nor nothing at all is open. */
  function TildeFlags(cls: Classes, before: Option<char>, after: Option<char>): Flags {
    NO_FLAGS.(mayOpen := Level(cls, before) != 2, mayClose := Level(cls, after) != 2)
  }

  // ----- the pieces -----

  predicate IsEscapable(ch: char) {
    '!' <= ch <= '/' || ':' <= ch <= '@' || '[' <= ch <= '`' || '{' <= ch <= '~'
  }

  function Dummy(off: nat): Mark {
    Mark(off, off, -1, -1, DUMMY, NO_FLAGS)
  }

  function Dummies(off: nat, n: nat): (r: seq<Mark>)
    ensures |r| == n && forall x :: 0 <= x < n ==> r[x] == Dummy(off + x)
  {
    seq(n, x requires 0 <= x => Dummy(off + x))
  }

  ghost function Repeated(v: nat, n: nat): (r: seq<nat>)
    ensures |r| == n && forall x :: 0 <= x < n ==> r[x] == v
  {
    seq(n, x => v)
  }

  // ----- the marks of a text -----

  /** Where the run of equal characters that begins at off ends. */
  function RunStop(text: string, off: nat): (end: nat)
    requires off < |text|
    ensures off < end <= |text| && (forall x :: off <= x < end ==> text[x] == text[off])
    ensures end < |text| ==> text[end] != text[off]
    decreases |text| - off
  {
    if off + 1 < |text| && text[off + 1] == text[off] then RunStop(text, off + 1) else off + 1
  }

  predicate EscapesAt(text: string, off: nat)
    requires off < |text|
  {
    text[off] == '\\' && off + 1 < |text| && IsEscapable(text[off + 1])
  }

  /** The mark that a whole run gives. */
  function RunMark(text: string, cls: Classes, off: nat): Mark
    requires off < |text|
  {
    var end := RunStop(text, off);
    var before, after := Before(text, off), After(text, end);
    Mark(off, end, -1, -1, text[off],
         if text[off] == '~' then TildeFlags(cls, before, after)
         else EmphFlags(text[off], Level(cls, before), Level(cls, after), end - off))
  }

  /** The flags of a run's mark are what the flanking rules say of the characters around it. */
  lemma FlankingRules(text: string, cls: Classes, off: nat)
    requires off < |text| && text[off] in {'*', '_', '~'}
    ensures var ch, m := text[off], RunMark(text, cls, off);
            && (m.flags.mayOpen <==> CanOpen(text, cls, ch, off, m.end)) && (m.flags.mayClose <==> CanClose(text, cls, ch, off, m.end))
            && (m.flags.both <==> ch != '~' && m.flags.mayOpen && m.flags.mayClose)
            && m.flags.mod3 == (if ch == '~' then 0 else (m.end - off) % 3)
            && !m.flags.opens && !m.flags.closes && !m.flags.resolved
  {
    hide RunStop;
  }

  /** A run is marked if it can open or close; of tildes at most two may come together. */
  predicate Usable(m: Mark) {
    (m.flags.mayOpen || m.flags.mayClose) && (m.ch == '~' ==> Size(m) <= 2)
  }

  /** The marks that the characters at off give, and where to go on. */
  function Token(text: string, cls: Classes, off: nat): (t: (seq<Mark>, nat))
    requires off < |text|
    ensures off < t.1 <= |text|
  {
    var ch := text[off];
    if EscapesAt(text, off) then ([Mark(off, off + 2, -1, -1, ch, RESOLVED)], off + 2)
    else if IsDelim(ch) then
      var m := RunMark(text, cls, off);
      (if !Usable(m) then [] else if IsEmph(ch) then [m] + Dummies(off + 1, Size(m) - 1) else [m], m.end)
    else if ch == '\0' then ([Mark(off, off + 1, -1, -1, ch, RESOLVED)], off + 1)
    else ([], off + 1)
  }

  /** The mark that closes every line and is never reached. */
  function LastMark(text: string): Mark {
    Mark(|text|, |text|, -1, -1, 127 as char, RESOLVED)
  }

  function MarksFrom(text: string, cls: Classes, off: nat): seq<Mark>
    decreases |text| - off
  {
    if off >= |text| then [LastMark(text)] else
      var t := Token(text, cls, off);
      t.0 + MarksFrom(text, cls, t.1)
  }

  /** The marks of a line. */
  function MarksOf(text: string, cls: Classes): seq<Mark> {
    MarksFrom(text, cls, 0)
  }

  /** The original run length at each mark of one token, 0 where there is none. */
  ghost function TokenRuns(marks: seq<Mark>): (r: seq<nat>)
    ensures |r| == |marks|
  {
    Repeated(if marks != [] && IsEmph(marks[0].ch) then |marks| else 0, |marks|)
  }

  ghost function RunsFrom(text: string, cls: Classes, off: nat): (r: seq<nat>)
    ensures |r| == |MarksFrom(text, cls, off)|
    decreases |text| - off
  {
    if off >= |text| then [0] else
      var t := Token(text, cls, off);
      TokenRuns(t.0) + RunsFrom(text, cls, t.1)
  }

  ghost function RunsOf(text: string, cls: Classes): (r: seq<nat>)
    ensures |r| == |MarksOf(text, cls)|
  {
    RunsFrom(text, cls, 0)
  }

  // ----- which runs are marked -----

  /** The number of backslashes right in front of p. */
  function Backslashes(text: string, p: nat): nat
    requires p <= |text|
  {
    if p > 0 && text[p - 1] == '\\' then Backslashes(text, p - 1) + 1 else 0
  }

  /** The punctuation characters of ASCII. */
  const PUNCTUATION: set<char> :=
    {'!', '"', '#', '$', '%', '&', '\'', '(', ')', '*', '+', ',', '-', '.', '/', ':', ';', '<', '=', '>', '?', '@',
     '[', '\\', ']', '^', '_', '`', '{', '|', '}', '~'}

  /** Behind an odd number of backslashes, ASCII punctuation stands for itself. */
  ghost predicate Escaped(text: string, p: nat)
    requires p < |text|
  {
    Backslashes(text, p) % 2 == 1 && text[p] in PUNCTUATION
  }

  /** A delimiter that is not escaped and does not go on a run of its character. */
  ghost predicate StartsRun(text: string, p: nat)
    requires p < |text|
  {
    text[p] in {'*', '_', '~'} && !Escaped(text, p) && (p > 0 && text[p - 1] == text[p] ==> Escaped(text, p - 1))
  }

  /** A place where a token begins. */
  ghost predicate Boundary(text: string, off: nat) {
    off < |text| ==> !Escaped(text, off) && (IsDelim(text[off]) ==> StartsRun(text, off))
  }

  lemma NextBoundary(text: string, cls: Classes, off: nat)
    requires off < |text| && Boundary(text, off)
    ensures Boundary(text, Token(text, cls, off).1)
  {
    var next := Token(text, cls, off).1;
    if next < |text| {
      assert Backslashes(text, next) == if text[next - 1] == '\\' then Backslashes(text, next - 1) + 1 else 0;
      if EscapesAt(text, off) {
        assert Backslashes(text, off + 1) == Backslashes(text, off) + 1;
      }
    }
  }

  /** Inside a token nothing begins. */
  lemma InsideToken(text: string, cls: Classes, off: nat, p: nat)
    requires off < |text| && Boundary(text, off) && off < p < Token(text, cls, off).1
    ensures !StartsRun(text, p)
  {
    if EscapesAt(text, off) {
      assert p == off + 1 && Backslashes(text, p) == Backslashes(text, off) + 1;
    } else {
      var end := RunStop(text, off);
      assert text[p] == text[off] == text[p - 1];
      if p - 1 > off {
        assert text[p - 2] == text[off];
        assert Backslashes(text, p - 1) == 0;
      }
    }
  }

  /** A mark of a delimiter is that of a run that begins there and is usable, and each such run has its mark. */
  lemma {:induction false} MarkedFrom(text: string, cls: Classes, off: nat, m: Mark)
    requires off <= |text| && Boundary(text, off) && IsDelim(m.ch)
    ensures m in MarksFrom(text, cls, off) <==>
            off <= m.beg < |text| && StartsRun(text, m.beg) && m == RunMark(text, cls, m.beg) && Usable(m)
    decreases |text| - off
  {
    if off < |text| {
      var t := Token(text, cls, off);
      NextBoundary(text, cls, off);
      MarkedFrom(text, cls, t.1, m);
      assert m in MarksFrom(text, cls, off) <==> m in t.0 || m in MarksFrom(text, cls, t.1);
      TokenMarks(text, cls, off, m);
      if off < m.beg < t.1 { InsideToken(text, cls, off, m.beg); }
    }
  }

  lemma TokenMarks(text: string, cls: Classes, off: nat, m: Mark)
    requires off < |text| && IsDelim(m.ch) && Boundary(text, off)
    ensures m in Token(text, cls, off).0 <==>
            m.beg == off && StartsRun(text, off) && m == RunMark(text, cls, off) && Usable(m)
  {
    var t := Token(text, cls, off);
    if EscapesAt(text, off) {
      assert t.0[0].ch == '\\';
    } else if IsDelim(text[off]) {
      var r := RunMark(text, cls, off);
      if Usable(r) { assert t.0[0] == r; }
    }
  }

  /** m is the mark of a whole run of its character, with the flags that the characters around the run give it. */
  ghost predicate MarksRun(text: string, cls: Classes, m: Mark) {
    && m.beg < m.end <= |text| && StartsRun(text, m.beg)
    && (forall x :: m.beg <= x < m.end ==> text[x] == m.ch) && (m.end < |text| ==> text[m.end] != m.ch)
    && m.prev == -1 && m.next == -1
    && var opener, closer := CanOpen(text, cls, m.ch, m.beg, m.end), CanClose(text, cls, m.ch, m.beg, m.end);
       m.flags == Flags(opener, closer, false, false, false, m.ch != '~' && opener && closer,
                        if m.ch == '~' then 0 else (m.end - m.beg) % 3)
  }

  lemma RunIsUnique(text: string, cls: Classes, m: Mark)
    requires m.beg < |text| && StartsRun(text, m.beg)
    ensures MarksRun(text, cls, m) <==> m == RunMark(text, cls, m.beg)
  {
    hide RunStop, TildeFlags, EmphFlags, CanOpen, CanClose;
    FlankingRules(text, cls, m.beg);
  }

  /** The delimiter marks of a line are exactly those of its runs that can open or close: every maximal run of one of the
      three characters, not escaped, is marked whole, and of tildes only one or two together. */
  lemma RunsAreMarked(text: string, cls: Classes, m: Mark)
    requires m.ch in {'*', '_', '~'}
    ensures m in MarksOf(text, cls) <==>
            MarksRun(text, cls, m) && (m.flags.mayOpen || m.flags.mayClose) && (m.ch == '~' ==> m.end - m.beg <= 2)
  {
    MarkedFrom(text, cls, 0, m);
    if m.beg < |text| && StartsRun(text, m.beg) {
      RunIsUnique(text, cls, m);
    }
  }

  // ----- collecting -----

  /** What a finished collection looks like up to offset off: the marks lie in order, each emphasis mark is a whole
      run of its character with the flags of its surroundings, and nothing is linked yet. */
  ghost predicate Collected(text: string, cls: Classes, marks: seq<Mark>, runs: seq<nat>, off: nat) {
    && Layout(marks, runs) && Unpaired(marks)
    && (forall j :: 0 <= j < |marks| ==> marks[j].next == -1 && marks[j].prev == -1 && marks[j].end <= off)
    && (forall j :: 0 <= j < |marks| && IsEmph(marks[j].ch) ==> IsRun(text, cls, marks[j]) && runs[j] == Size(marks[j]))
  }

  ghost predicate IsRun(text: string, cls: Classes, m: Mark) {
    && m.beg < m.end <= |text|
    && (forall x :: m.beg <= x < m.end ==> text[x] == m.ch)
    && (m.end < |text| ==> text[m.end] != m.ch)
    && m.flags == EmphFlags(m.ch, Level(cls, Before(text, m.beg)), Level(cls, After(text, m.end)), m.end - m.beg)
  }

  /** Adding a mark with its dummies. */
  lemma CollectOne(text: string, cls: Classes, marks: seq<Mark>, runs: seq<nat>, off: nat, m: Mark, n: nat)
    requires Collected(text, cls, marks, runs, off) && off <= m.beg <= m.end
    requires MarkOk(m) && !m.flags.opens && !m.flags.closes && m.next == m.prev == -1 && m.ch != DUMMY
    requires if IsEmph(m.ch) then IsRun(text, cls, m) && n == Size(m) - 1 else n == 0
    ensures Collected(text, cls, marks + [m] + Dummies(m.beg + 1, n),
                      runs + Repeated(if IsEmph(m.ch) then Size(m) else 0, n + 1), m.end)
  {
    var all, allRuns := marks + [m] + Dummies(m.beg + 1, n), runs + Repeated(if IsEmph(m.ch) then Size(m) else 0, n + 1);
    hide IsRun;
    forall j | 0 <= j < |all| && IsEmph(all[j].ch)
      ensures Room(all, j) && SameRun(all, allRuns, j)
      ensures IsRun(text, cls, all[j]) && allRuns[j] == Size(all[j])
    {
      if j < |marks| {
        assert Room(marks, j) && SameRun(marks, runs, j);
      } else {
        RunMod(text, cls, m);
      }
    }
    assert forall j :: 0 <= j < |all| ==> all[j] == if j < |marks| then marks[j] else if j == |marks| then m
                                                    else Dummy(m.beg + 1 + (j - |marks| - 1));
  }

  lemma RunMod(text: string, cls: Classes, m: Mark)
    requires IsRun(text, cls, m)
    ensures m.flags.mod3 == Size(m) % 3
  {}

  lemma CollectLater(text: string, cls: Classes, marks: seq<Mark>, runs: seq<nat>, off: nat, later: nat)
    requires Collected(text, cls, marks, runs, off) && off <= later
    ensures Collected(text, cls, marks, runs, later)
  {}

  method AddRun(marks0: seq<Mark>, m: Mark) returns (marks: seq<Mark>)
    requires m.beg < m.end
    ensures marks == marks0 + [m] + Dummies(m.beg + 1, Size(m) - 1)
  {
    marks := marks0 + [m];
    var off := m.beg + 1;
    while off < m.end
      invariant m.beg < off <= m.end
      invariant marks == marks0 + [m] + Dummies(m.beg + 1, off - m.beg - 1)
    {
      marks := marks + [Dummy(off)];
      off := off + 1;
    }
  }

  method RunEnd(text: string, off: nat) returns (end: nat)
    requires off < |text|
    ensures end == RunStop(text, off)
  {
    end := off + 1;
    while end < |text| && text[end] == text[off]
      invariant off < end <= |text| && (forall x :: off <= x < end ==> text[x] == text[off]) && end <= RunStop(text, off)
    {
      end := end + 1;
    }
  }

  /** The marks of one line, and the run lengths that go with them. */
  method CollectMarks(text: string, cls: Classes) returns (marks: seq<Mark>)
    ensures marks == MarksOf(text, cls) && Collected(text, cls, marks, RunsOf(text, cls), |text|)
  {
    hide Collected, IsRun, MarksFrom, RunsFrom, RunStop, Usable, EmphFlags, TildeFlags;
    marks := [];
    ghost var runs: seq<nat> := [];
    NothingCollected(text, cls);
    var off := 0;
    assert [] + MarksFrom(text, cls, 0) == MarksOf(text, cls) && [] + RunsFrom(text, cls, 0) == RunsOf(text, cls);
    while off < |text|
      invariant off <= |text| && Collected(text, cls, marks, runs, off)
      invariant marks + MarksFrom(text, cls, off) == MarksOf(text, cls)
      invariant runs + RunsFrom(text, cls, off) == RunsOf(text, cls)
    {
      ghost var t := Token(text, cls, off);
      CollectToken(text, cls, marks, runs, off);
      var added, next := ReadToken(text, cls, off);
      marks, runs := marks + added, runs + TokenRuns(t.0);
      off := next;
    }
    LastCollected(text, cls, marks, runs);
    marks := marks + [LastMark(text)];
  }

  /** The characters at off: an escape, a run, a NUL, or something that is no mark. */
  method ReadToken(text: string, cls: Classes, off: nat) returns (added: seq<Mark>, next: nat)
    requires off < |text|
    ensures (added, next) == Token(text, cls, off)
  {
    hide RunStop, EmphFlags, TildeFlags;
    var ch := text[off];
    if ch == '\\' && off + 1 < |text| && IsEscapable(text[off + 1]) {
      return [Mark(off, off + 2, -1, -1, ch, RESOLVED)], off + 2;
    }
    if IsEmph(ch) {
      var end := RunEnd(text, off);
      var left, right := Level(cls, Before(text, off)), Level(cls, After(text, end));
      var f := EmphFlags(ch, left, right, end - off);
      added := [];
      if f.mayOpen || f.mayClose {
        var m := Mark(off, end, -1, -1, ch, f);
        added := AddRun([], m);
        assert [] + [m] == [m];
      }
      return added, end;
    }
    if ch == '~' {
      var end := RunEnd(text, off);
      added := [];
      if end - off <= 2 {
        var f := TildeFlags(cls, Before(text, off), After(text, end));
        if f.mayOpen || f.mayClose {
          added := [Mark(off, end, -1, -1, ch, f)];
        }
      }
      return added, end;
    }
    if ch == '\0' {
      return [Mark(off, off + 1, -1, -1, ch, RESOLVED)], off + 1;
    }
    return [], off + 1;
  }

  /** One token more. */
  lemma CollectToken(text: string, cls: Classes, marks: seq<Mark>, runs: seq<nat>, off: nat)
    requires off < |text| && Collected(text, cls, marks, runs, off)
    ensures var t := Token(text, cls, off);
      && Collected(text, cls, marks + t.0, runs + TokenRuns(t.0), t.1)
      && marks + MarksFrom(text, cls, off) == (marks + t.0) + MarksFrom(text, cls, t.1)
      && runs + RunsFrom(text, cls, off) == (runs + TokenRuns(t.0)) + RunsFrom(text, cls, t.1)
  {
    hide Collected, IsRun, RunStop, EmphFlags, MarksFrom, RunsFrom, Usable;
    var t := Token(text, cls, off);
    TokenFirst(text, cls, marks, runs, off);
    if t.0 == [] {
      assert marks + t.0 == marks && runs + TokenRuns(t.0) == runs;
      CollectLater(text, cls, marks, runs, off, t.1);
    } else {
      var m, n: nat := t.0[0], |t.0| - 1;
      assert t.0 == [m] + Dummies(m.beg + 1, n);
      TokenIsRun(text, cls, off);
      CollectOne(text, cls, marks, runs, off, m, n);
      assert marks + t.0 == marks + [m] + Dummies(m.beg + 1, n);
    }
  }

  lemma TokenFirst(text: string, cls: Classes, marks: seq<Mark>, runs: seq<nat>, off: nat)
    requires off < |text|
    ensures var t := Token(text, cls, off);
      && marks + MarksFrom(text, cls, off) == (marks + t.0) + MarksFrom(text, cls, t.1)
      && runs + RunsFrom(text, cls, off) == (runs + TokenRuns(t.0)) + RunsFrom(text, cls, t.1)
  {
    hide Token, TokenRuns;
    var t := Token(text, cls, off);
    assert MarksFrom(text, cls, off) == t.0 + MarksFrom(text, cls, t.1);
    assert RunsFrom(text, cls, off) == TokenRuns(t.0) + RunsFrom(text, cls, t.1);
  }

  lemma TokenIsRun(text: string, cls: Classes, off: nat)
    requires off < |text| && Token(text, cls, off).0 != []
    ensures var t := Token(text, cls, off); var m := t.0[0];
      && m.beg == off && m.end == t.1 && MarkOk(m) && !m.flags.opens && !m.flags.closes && m.next == m.prev == -1 && m.ch != DUMMY
      && (if IsEmph(m.ch) then IsRun(text, cls, m) && |t.0| == Size(m) else |t.0| == 1)
  {
    hide RunStop;
  }

  lemma LastCollected(text: string, cls: Classes, marks: seq<Mark>, runs: seq<nat>)
    requires Collected(text, cls, marks, runs, |text|)
    requires marks + MarksFrom(text, cls, |text|) == MarksOf(text, cls)
    requires runs + RunsFrom(text, cls, |text|) == RunsOf(text, cls)
    ensures marks + [LastMark(text)] == MarksOf(text, cls)
    ensures Collected(text, cls, marks + [LastMark(text)], RunsOf(text, cls), |text|)
  {
    hide Collected;
    var last := LastMark(text);
    CollectOne(text, cls, marks, runs, |text|, last, 0);
    assert marks + [last] + Dummies(last.beg + 1, 0) == marks + [last];
    assert runs + Repeated(0, 1) == runs + [0];
  }

  lemma NothingCollected(text: string, cls: Classes)
    ensures Collected(text, cls, [], [], 0)
  {}

  // ----- from a line to its spans -----

  /** The spans of a line: its marks, resolved by the plain search, rendered; always balanced and nested. */
  method LineSpans(text: string, cls: Classes, underline: bool) returns (events: seq<Event>)
    ensures var marks, runs := MarksOf(text, cls), RunsOf(text, cls);
            Layout(marks, runs) && Unpaired(marks) && events == Events(Resolve(marks, runs, |marks|), underline, |marks|)
    ensures Nest(events, []) == Some([])
  {
    hide Collected, Resolve, Layout, Unpaired, Nest, Events, Good, MarksOf, RunsOf;
    var marks := CollectMarks(text, cls);
    ghost var runs := RunsOf(text, cls);
    CollectedParts(text, cls, marks, runs);
    var inlines := new R.Inlines(marks, runs);
    inlines.ResolveEmphasis(runs);
    ghost var plain := inlines.plain;
    SameLayout(inlines.marks, plain, runs);
    SameEvents(inlines.marks, plain, underline, |marks|);
    events := EmitSpans(inlines.marks, underline, runs);
    Balanced(plain, runs, underline);
  }

  /** Stack links left in the marks change neither their layout nor their events. */
  lemma SameLayout(marks: seq<Mark>, plain: seq<Mark>, runs: seq<nat>)
    requires R.Coupled(marks, plain) && Good(plain, runs, |plain|)
    ensures |marks| == |plain| && Layout(marks, runs)
  {
    forall j | 0 <= j < |marks| && IsEmph(marks[j].ch) ensures Room(marks, j) && SameRun(marks, runs, j) {
      assert Room(plain, j) && SameRun(plain, runs, j);
    }
    forall j | 0 <= j < |marks| ensures MarkOk(marks[j]) {
      assert MarkOk(plain[j]);
    }
  }

  lemma {:induction false} SameEvents(marks: seq<Mark>, plain: seq<Mark>, underline: bool, k: nat)
    requires R.Coupled(marks, plain) && k <= |marks| == |plain|
    ensures Events(marks, underline, k) == Events(plain, underline, k)
  {
    if k > 0 {
      hide MarkEvents;
      SameEvents(marks, plain, underline, k - 1);
      assert plain[k - 1] == R.Unlinked(marks[k - 1]);
      SameMarkEvents(marks[k - 1], underline);
    }
  }

  lemma SameMarkEvents(m: Mark, underline: bool)
    ensures MarkEvents(R.Unlinked(m), underline) == MarkEvents(m, underline)
  {
    hide Enters, Leaves, Times;
    assert Opening(R.Unlinked(m), underline) == Opening(m, underline);
  }

  lemma CollectedParts(text: string, cls: Classes, marks: seq<Mark>, runs: seq<nat>)
    requires Collected(text, cls, marks, runs, |text|)
    ensures Layout(marks, runs) && Unpaired(marks) && forall j :: 0 <= j < |marks| ==> marks[j].next == -1
  {}
}
