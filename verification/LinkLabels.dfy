/** Link labels: comparison and hashing up to case folding and white space. */
module LinkLabels {

  /** A label is a sequence of code points. */
  type Label = seq<nat>

  const SPACE: nat := 32

  /** White space and case folding, given from outside. */
  datatype Unicode = Unicode(space: nat -> bool, fold: nat -> seq<nat>)

  /** Folding gives at least one code point and never a space. */
  ghost predicate GoodUnicode(u: Unicode) {
    forall c :: !u.space(c) ==> u.fold(c) != [] && SPACE !in u.fold(c)
  }

  function SkipSpace(u: Unicode, s: Label): (r: Label)
    ensures |r| <= |s| && (r != [] ==> !u.space(r[0])) && (s != [] && u.space(s[0]) ==> |r| < |s|)
  {
    if s != [] && u.space(s[0]) then SkipSpace(u, s[1..]) else s
  }

  /** The folded form: every run of white space is one space. */
  function Folded(u: Unicode, s: Label): Label
    decreases |s|
  {
    if s == [] then []
    else if u.space(s[0]) then [SPACE] + Folded(u, SkipSpace(u, s))
    else u.fold(s[0]) + Folded(u, s[1..])
  }

  /** The folded label without white space in front. */
  function Canonical(u: Unicode, s: Label): Label {
    Folded(u, SkipSpace(u, s))
  }

  ghost predicate NoTrailingSpace(u: Unicode, s: Label) {
    s != [] ==> !u.space(s[|s| - 1])
  }

  lemma {:induction false} SkipKeepsEnd(u: Unicode, s: Label)
    requires NoTrailingSpace(u, s)
    ensures NoTrailingSpace(u, SkipSpace(u, s)) && (s != [] ==> SkipSpace(u, s) != [])
  {
    if s != [] && u.space(s[0]) {
      SkipKeepsEnd(u, s[1..]);
    }
  }

  /** A label that does not end in white space has a folded form that does not. */
  lemma {:induction false} FoldedEnd(u: Unicode, s: Label)
    requires GoodUnicode(u) && NoTrailingSpace(u, s) && s != []
    ensures var f := Folded(u, s); f != [] && f[|f| - 1] != SPACE
    decreases |s|
  {
    if u.space(s[0]) {
      SkipKeepsEnd(u, s);
      FoldedEnd(u, SkipSpace(u, s));
    } else if |s| > 1 {
      FoldedEnd(u, s[1..]);
    } else {
      assert Folded(u, s[1..]) == [];
      var g := u.fold(s[0]);
      assert Folded(u, s) == g;
      assert g[|g| - 1] in g;
    }
  }

  // ----- comparison -----

  /** A folded label goes on as white space for ever. */
  function Padded(f: Label, i: nat): nat {
    if i < |f| then f[i] else SPACE
  }

  function Longer(f: Label, g: Label): nat {
    if |f| < |g| then |g| else |f|
  }

  /** The first difference from place i on, the second minus the first. */
  function Difference(f: Label, g: Label, i: nat): int
    decreases Longer(f, g) - i
  {
    if i >= Longer(f, g) then 0
    else if Padded(g, i) != Padded(f, i) then Padded(g, i) - Padded(f, i)
    else Difference(f, g, i + 1)
  }

  lemma {:induction false} DifferenceZero(f: Label, g: Label, i: nat)
    ensures Difference(f, g, i) == 0 <==> forall k :: i <= k < Longer(f, g) ==> Padded(f, k) == Padded(g, k)
    decreases Longer(f, g) - i
  {
    if i < Longer(f, g) && Padded(g, i) == Padded(f, i) {
      DifferenceZero(f, g, i + 1);
    }
  }

  /** Labels that do not end in white space compare equal exactly when their folded forms are the same. */
  lemma EqualIsSame(u: Unicode, a: Label, b: Label)
    requires GoodUnicode(u) && NoTrailingSpace(u, a) && NoTrailingSpace(u, b)
    ensures Difference(Canonical(u, a), Canonical(u, b), 0) == 0 <==> Canonical(u, a) == Canonical(u, b)
  {
    var f, g := Canonical(u, a), Canonical(u, b);
    DifferenceZero(f, g, 0);
    CanonicalEnd(u, a);
    CanonicalEnd(u, b);
    if |f| < |g| {
      assert Padded(f, |g| - 1) == SPACE;
    } else if |g| < |f| {
      assert Padded(g, |f| - 1) == SPACE;
    } else if Difference(f, g, 0) == 0 {
      forall k | 0 <= k < |f| ensures f[k] == g[k] {
        assert Padded(f, k) == Padded(g, k);
      }
    }
  }

  lemma CanonicalEnd(u: Unicode, a: Label)
    requires GoodUnicode(u) && NoTrailingSpace(u, a)
    ensures var f := Canonical(u, a); f != [] ==> f[|f| - 1] != SPACE
  {
    SkipKeepsEnd(u, a);
    if SkipSpace(u, a) != [] {
      FoldedEnd(u, SkipSpace(u, a));
    }
  }

  predicate AllSpace(u: Unicode, w: Label) {
    forall k :: 0 <= k < |w| ==> u.space(w[k])
  }

  lemma {:induction false} SkipAll(u: Unicode, w: Label)
    requires AllSpace(u, w)
    ensures SkipSpace(u, w) == []
  {
    if w != [] { SkipAll(u, w[1..]); }
  }

  lemma {:induction false} SkipBefore(u: Unicode, s: Label, w: Label)
    requires NoTrailingSpace(u, s) && s != []
    ensures SkipSpace(u, s + w) == SkipSpace(u, s) + w
  {
    if u.space(s[0]) {
      assert (s + w)[1..] == s[1..] + w;
      SkipBefore(u, s[1..], w);
    }
  }

  lemma {:induction false} FoldedSpace(u: Unicode, s: Label, w: Label)
    requires AllSpace(u, w) && w != [] && NoTrailingSpace(u, s)
    ensures Folded(u, s + w) == Folded(u, s) + [SPACE]
    decreases |s|
  {
    var t := s + w;
    if s == [] {
      assert t == w;
      SkipAll(u, w);
      assert Folded(u, []) == [];
    } else if u.space(s[0]) {
      SkipBefore(u, s, w);
      SkipKeepsEnd(u, s);
      FoldedSpace(u, SkipSpace(u, s), w);
    } else {
      assert t[1..] == s[1..] + w;
      FoldedSpace(u, s[1..], w);
    }
  }

  // ----- labels as words -----

  ghost predicate IsWord(u: Unicode, w: Label) {
    w != [] && forall k :: 0 <= k < |w| ==> !u.space(w[k])
  }

  ghost function FoldEach(u: Unicode, w: Label): Label {
    if w == [] then [] else FoldEach(u, w[..|w| - 1]) + u.fold(w[|w| - 1])
  }

  lemma {:induction false} SkipBlank(u: Unicode, b: Label, s: Label)
    requires AllSpace(u, b) && (s != [] ==> !u.space(s[0]))
    ensures SkipSpace(u, b + s) == s
  {
    if b == [] {
      assert b + s == s;
    } else {
      assert (b + s)[1..] == b[1..] + s;
      SkipBlank(u, b[1..], s);
    }
  }

  lemma {:induction false} FoldedWord(u: Unicode, w: Label, s: Label)
    requires forall k :: 0 <= k < |w| ==> !u.space(w[k])
    ensures Folded(u, w + s) == FoldEach(u, w) + Folded(u, s)
    decreases |w|
  {
    if w == [] {
      assert w + s == s;
    } else {
      var init, c := w[..|w| - 1], w[|w| - 1];
      assert w + s == init + ([c] + s) && ([c] + s)[1..] == s;
      FoldedWord(u, init, [c] + s);
      assert Folded(u, [c] + s) == u.fold(c) + Folded(u, s);
    }
  }

  /** What a label amounts to, word by word: blanks in front do not count, a word stands for the folds of its characters, and
      blanks between two words for one space. */
  lemma CanonicalMeans(u: Unicode, front: Label, w: Label, between: Label, s: Label)
    requires AllSpace(u, front) && IsWord(u, w)
    requires AllSpace(u, between) && between != [] && s != [] && !u.space(s[0])
    ensures Canonical(u, front) == [] && Canonical(u, front + w) == FoldEach(u, w)
    ensures Canonical(u, front + w + between + s) == FoldEach(u, w) + [SPACE] + Canonical(u, s)
  {
    var rest := between + s;
    assert front + w + between + s == front + (w + rest) && front + [] == front;
    SkipBlank(u, front, []);
    SkipBlank(u, front, w);
    SkipBlank(u, front, w + rest);
    FoldedWord(u, w, rest);
    FoldedWord(u, w, []);
    assert w + [] == w && Folded(u, []) == [];
    SkipBlank(u, between, s);
    assert rest[0] == between[0];
    assert Folded(u, rest) == [SPACE] + Folded(u, s);
    assert SkipSpace(u, s) == s;
  }

  /** The label without white space at its end. */
  function Stripped(u: Unicode, s: Label): (t: Label)
    ensures NoTrailingSpace(u, t) && t <= s && AllSpace(u, s[|t|..])
  {
    if s != [] && u.space(s[|s| - 1]) then
      var t := Stripped(u, s[..|s| - 1]);
      assert s[|t|..] == s[..|s| - 1][|t|..] + [s[|s| - 1]];
      t
    else s
  }

  /** White space at the end of a label shows in the folded form that is hashed. */
  lemma TrailingSpace(u: Unicode, s: Label)
    ensures var t := Stripped(u, s);
            Canonical(u, s) == if t == s || t == [] then Canonical(u, t) else Canonical(u, t) + [SPACE]
  {
    var t := Stripped(u, s);
    var w := s[|t|..];
    assert s == t + w;
    if t == [] {
      SkipAll(u, w);
      assert w == s;
    } else if t != s {
      SkipBefore(u, t, w);
      SkipKeepsEnd(u, t);
      FoldedSpace(u, SkipSpace(u, t), w);
    }
  }

  /** But it is invisible to comparison. */
  lemma TrailingUnseen(u: Unicode, d: Label, s: Label)
    requires GoodUnicode(u) && NoTrailingSpace(u, d)
    ensures Difference(Canonical(u, d), Canonical(u, s), 0) == 0 <==> Canonical(u, d) == Canonical(u, Stripped(u, s))
  {
    var t := Stripped(u, s);
    TrailingSpace(u, s);
    EqualIsSame(u, d, t);
    SpaceUnseen(Canonical(u, d), Canonical(u, t));
  }

  lemma SpaceUnseen(f: Label, g: Label)
    ensures Difference(f, g + [SPACE], 0) == 0 <==> Difference(f, g, 0) == 0
  {
    var h := g + [SPACE];
    DifferenceZero(f, g, 0);
    DifferenceZero(f, h, 0);
    forall k: nat ensures Padded(h, k) == Padded(g, k) {}
    if Difference(f, g, 0) == 0 {
      forall k | 0 <= k < Longer(f, h) ensures Padded(f, k) == Padded(h, k) {
        assert k >= Longer(f, g) ==> Padded(f, k) == SPACE == Padded(g, k);
      }
    }
    if Difference(f, h, 0) == 0 {
      forall k | 0 <= k < Longer(f, g) ensures Padded(f, k) == Padded(g, k) {
        assert Padded(f, k) == Padded(h, k);
      }
    }
  }

  // ----- the order on folded labels -----

  lemma {:induction false} DifferenceFlips(f: Label, g: Label, i: nat)
    ensures Difference(g, f, i) == 0 - Difference(f, g, i)
    decreases Longer(f, g) - i
  {
    if i < Longer(f, g) {
      DifferenceFlips(f, g, i + 1);
    }
  }

  /** The comparison is transitive. */
  lemma {:induction false} DifferenceChains(f: Label, g: Label, h: Label, i: nat)
    requires Difference(f, g, i) <= 0 && Difference(g, h, i) <= 0
    ensures Difference(f, h, i) <= 0
    ensures Difference(f, g, i) < 0 || Difference(g, h, i) < 0 ==> Difference(f, h, i) < 0
    decreases Longer(f, g) + Longer(g, h) + Longer(f, h) - i
  {
    DifferenceLater(f, g, i);
    DifferenceLater(g, h, i);
    DifferenceLater(f, h, i);
    if i < Longer(f, g) || i < Longer(g, h) || i < Longer(f, h) {
      if Padded(f, i) == Padded(g, i) == Padded(h, i) {
        DifferenceChains(f, g, h, i + 1);
      }
    }
  }

  lemma DifferenceLater(f: Label, g: Label, i: nat)
    ensures Difference(f, g, i) == if Padded(g, i) != Padded(f, i) then Padded(g, i) - Padded(f, i) else Difference(f, g, i + 1)
  {}

  // ----- the walks -----

  method SkipSpaceFrom(u: Unicode, s: Label, from: nat) returns (off: nat)
    requires from <= |s|
    ensures from <= off <= |s| && s[off..] == SkipSpace(u, s[from..])
  {
    off := from;
    while off < |s| && u.space(s[off])
      invariant from <= off <= |s| && SkipSpace(u, s[off..]) == SkipSpace(u, s[from..])
    {
      assert s[off..][1..] == s[off + 1..];
      off := off + 1;
    }
  }

  /** The code points that the next character of a label stands for; a space at and after its end. */
  method LoadFold(u: Unicode, s: Label, from: nat) returns (fold: seq<nat>, off: nat)
    requires from <= |s| && GoodUnicode(u)
    ensures from <= off <= |s| && fold != [] && (from < |s| ==> off > from)
    ensures if from < |s| then Folded(u, s[from..]) == fold + Folded(u, s[off..]) else fold == [SPACE] && off == from
  {
    off := from;
    if off >= |s| {
      return [SPACE], off;
    }
    var c := s[off];
    off := off + 1;
    assert s[from..][1..] == s[off..];
    if u.space(c) {
      off := SkipSpaceFrom(u, s, off);
      return [SPACE], off;
    }
    fold := u.fold(c);
  }

  /** What is left of the folded form f from place n on: the rest of the loaded fold, then the unread label; past the
      end of f, spaces only. */
  ghost predicate Rest(u: Unicode, s: Label, off: nat, fold: seq<nat>, at: nat, f: Label, n: nat) {
    && off <= |s| && at <= |fold|
    && (|| (n <= |f| && f[n..] == fold[at..] + Folded(u, s[off..]))
        || (n >= |f| && off == |s| && forall k :: at <= k < |fold| ==> fold[k] == SPACE))
  }

  lemma Beginning(u: Unicode, s: Label, off: nat)
    requires off <= |s| && s[off..] == SkipSpace(u, s)
    ensures Rest(u, s, off, [], 0, Canonical(u, s), 0)
  {
    var f := Canonical(u, s);
    assert f[0..] == [] + Folded(u, s[off..]);
  }

  lemma Loaded(u: Unicode, s: Label, from: nat, off: nat, old': seq<nat>, fold: seq<nat>, f: Label, n: nat)
    requires Rest(u, s, from, old', |old'|, f, n) && from <= off <= |s|
    requires if from < |s| then Folded(u, s[from..]) == fold + Folded(u, s[off..]) else fold == [SPACE] && off == from
    ensures Rest(u, s, off, fold, 0, f, n)
  {
    assert fold[0..] == fold && old'[|old'|..] == [];
    if from == |s| {
      assert s[from..] == [];
    }
  }

  lemma NextPadded(u: Unicode, s: Label, off: nat, fold: seq<nat>, at: nat, f: Label, n: nat)
    requires Rest(u, s, off, fold, at, f, n) && at < |fold|
    ensures Padded(f, n) == fold[at] && Rest(u, s, off, fold, at + 1, f, n + 1)
  {
    if n <= |f| && f[n..] == fold[at..] + Folded(u, s[off..]) {
      assert f[n] == f[n..][0] == fold[at];
      assert f[n + 1..] == f[n..][1..] && fold[at + 1..] == fold[at..][1..];
    }
  }

  lemma AllRead(u: Unicode, s: Label, fold: seq<nat>, f: Label, n: nat)
    requires Rest(u, s, |s|, fold, |fold|, f, n)
    ensures n >= |f|
  {
    assert s[|s|..] == [];
  }

  lemma PastEnd(f: Label, g: Label, n: nat)
    requires n >= |f| && n >= |g|
    ensures Difference(f, g, n) == 0
  {}

  /** Compares two labels without building their folded forms; the second minus the first. */
  method CompareLabels(u: Unicode, a: Label, b: Label) returns (cmp: int)
    requires GoodUnicode(u)
    ensures cmp == Difference(Canonical(u, a), Canonical(u, b), 0)
  {
    hide Folded, SkipSpace, Difference, Canonical;
    ghost var f, g := Canonical(u, a), Canonical(u, b);
    var aOff := SkipSpaceFrom(u, a, 0);
    var bOff := SkipSpaceFrom(u, b, 0);
    assert a[0..] == a && b[0..] == b;
    var aFold, bFold: seq<nat> := [], [];
    var aAt, bAt := 0, 0;
    ghost var n: nat := 0;
    Beginning(u, a, aOff);
    Beginning(u, b, bOff);
    while aOff < |a| || aAt < |aFold| || bOff < |b| || bAt < |bFold|
      invariant aOff <= |a| && bOff <= |b| && aAt <= |aFold| && bAt <= |bFold|
      invariant Rest(u, a, aOff, aFold, aAt, f, n) && Rest(u, b, bOff, bFold, bAt, g, n)
      invariant Difference(f, g, 0) == Difference(f, g, n)
      decreases |a| - aOff + |b| - bOff, |aFold| - aAt + |bFold| - bAt
    {
      if aAt >= |aFold| {
        aAt := 0;
        ghost var from, last := aOff, aFold;
        aFold, aOff := LoadFold(u, a, aOff);
        Loaded(u, a, from, aOff, last, aFold, f, n);
      }
      if bAt >= |bFold| {
        bAt := 0;
        ghost var from, last := bOff, bFold;
        bFold, bOff := LoadFold(u, b, bOff);
        Loaded(u, b, from, bOff, last, bFold, g, n);
      }
      NextPadded(u, a, aOff, aFold, aAt, f, n);
      NextPadded(u, b, bOff, bFold, bAt, g, n);
      DifferenceLater(f, g, n);
      cmp := bFold[bAt] as int - aFold[aAt] as int;
      if cmp != 0 {
        return;
      }
      aAt := aAt + 1;
      bAt := bAt + 1;
      n := n + 1;
    }
    AllRead(u, a, aFold, f, n);
    AllRead(u, b, bFold, g, n);
    PastEnd(f, g, n);
    return 0;
  }

  // ----- hashing -----

  /** One byte in 32-bit FNV-1a. */
  function MixByte(h: bv32, b: bv32): bv32 {
    (h ^ b) * 16777619
  }

  /** The four bytes of a code point, lowest first. */
  function Mix(h: bv32, c: nat): bv32 {
    var w := (c % 0x1_0000_0000) as bv32;
    MixByte(MixByte(MixByte(MixByte(h, w & 0xFF), (w >> 8) & 0xFF), (w >> 16) & 0xFF), w >> 24)
  }

  function MixAll(h: bv32, s: Label): bv32 {
    if s == [] then h else Mix(MixAll(h, s[..|s| - 1]), s[|s| - 1])
  }

  lemma {:induction false} MixAppend(h: bv32, a: Label, b: Label)
    ensures MixAll(h, a + b) == MixAll(MixAll(h, a), b)
  {
    hide Mix;
    if b == [] {
      assert a + b == a;
    } else {
      MixAppend(h, a, b[..|b| - 1]);
      assert (a + b)[..|a + b| - 1] == a + b[..|b| - 1];
    }
  }

  const HASH_BASE: bv32 := 2166136261

  /** The hash of a label is that of its folded form, so labels that fold alike hash alike. */
  method HashLabel(u: Unicode, s: Label) returns (h: bv32)
    ensures h == MixAll(HASH_BASE, Canonical(u, s))
  {
    hide Mix, SkipSpace, MixAll, Folded;
    ghost var f := Canonical(u, s);
    h := HASH_BASE;
    var off := SkipSpaceFrom(u, s, 0);
    assert s[0..] == s;
    ghost var done: Label := [];
    NothingMixed(f);
    while off < |s|
      invariant off <= |s| && f == done + Folded(u, s[off..]) && h == MixAll(HASH_BASE, done)
    {
      ghost var from := off;
      var piece: seq<nat>;
      FoldedStep(u, s[off..]);
      if u.space(s[off]) {
        piece := [SPACE];
        off := SkipSpaceFrom(u, s, off);
        SpaceSkipped(u, s[from..]);
      } else {
        piece := u.fold(s[off]);
        off := off + 1;
        assert s[from..][1..] == s[off..];
      }
      MixAppend(HASH_BASE, done, piece);
      h := Fnv(h, piece);
      Regroup(done, piece, Folded(u, s[off..]));
      done := done + piece;
    }
    NothingFolded(u);
    assert s[off..] == [];
    assert done + [] == done;
  }

  method Fnv(h0: bv32, s: Label) returns (h: bv32)
    ensures h == MixAll(h0, s)
  {
    hide Mix;
    h := h0;
    for i := 0 to |s|
      invariant h == MixAll(h0, s[..i])
    {
      assert s[..i + 1][..i] == s[..i];
      h := Mix(h, s[i]);
    }
    assert s[..|s|] == s;
  }

  lemma Regroup(a: Label, b: Label, c: Label)
    ensures a + (b + c) == a + b + c
  {}

  lemma NothingMixed(f: Label)
    ensures MixAll(HASH_BASE, []) == HASH_BASE && [] + f == f
  {}

  lemma NothingFolded(u: Unicode)
    ensures Folded(u, []) == []
  {}

  lemma FoldedStep(u: Unicode, s: Label)
    requires s != []
    ensures Folded(u, s) == if u.space(s[0]) then [SPACE] + Folded(u, SkipSpace(u, s)) else u.fold(s[0]) + Folded(u, s[1..])
  {}

  lemma SpaceSkipped(u: Unicode, s: Label)
    requires s != [] && u.space(s[0])
    ensures |SkipSpace(u, s)| < |s|
  {}
}
