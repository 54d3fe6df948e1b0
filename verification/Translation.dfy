/** translate(): character replacement by search, and by a table of 128 codes built once. */
module Translation {
  import opened Wrappers

  /** The first place of c in s. */
  function Find(s: string, c: char): (r: Option<nat>)
    ensures r.Some? ==> r.value < |s| && s[r.value] == c && forall k :: 0 <= k < r.value ==> s[k] != c
    ensures r.None? ==> c !in s
  {
    if s == "" then None
    else if s[0] == c then Some(0)
    else
      var r := Find(s[1..], c);
      if r.Some? then Some(r.value + 1) else None
  }

  /** What one character turns into. */
  function TranslateOne(c: char, from: string, to: string): string {
    var r := Find(from, c);
    if r.None? then [c] else if r.value < |to| then [to[r.value]] else ""
  }

  function Translate(s: string, from: string, to: string): string {
    if s == "" then "" else Translate(s[..|s| - 1], from, to) + TranslateOne(s[|s| - 1], from, to)
  }

  // ----- what is left of a text -----

  /** c is kept as it is, or has a counterpart in `to` at its first place in `from`. */
  ghost predicate Remains(c: char, from: string, to: string) {
    c !in from || exists k :: 0 <= k < |from| && k < |to| && from[k] == c && c !in from[..k]
  }

  /** x stands for a remaining c: c itself, or its counterpart. */
  ghost predicate StandsFor(c: char, x: char, from: string, to: string) {
    && (c !in from ==> x == c)
    && forall k :: 0 <= k < |from| && k < |to| && from[k] == c && c !in from[..k] ==> x == to[k]
  }

  /** r consists of what the characters of s at the places `at` turn into; these are all the places whose characters remain,
      in order. */
  ghost predicate IsTranslation(s: string, r: string, from: string, to: string, at: seq<nat>) {
    && |r| == |at|
    && (forall i, j :: 0 <= i < j < |at| ==> at[i] < at[j])
    && (forall j :: 0 <= j < |at| ==> at[j] < |s| && Remains(s[at[j]], from, to) && StandsFor(s[at[j]], r[j], from, to))
    && (forall p: nat :: p < |s| && Remains(s[p], from, to) ==> p in at)
  }

  /** The places of the characters of s that remain. */
  ghost function Places(s: string, from: string, to: string): seq<nat> {
    if s == "" then [] else
      Places(s[..|s| - 1], from, to) + (if Remains(s[|s| - 1], from, to) then [|s| - 1] else [])
  }

  lemma FirstPlace(from: string, c: char, k: nat)
    requires k < |from|
    ensures from[k] == c && c !in from[..k] <==> Find(from, c) == Some(k)
  {}

  /** What one character may turn into. */
  ghost predicate IsOne(c: char, out: string, from: string, to: string) {
    if Remains(c, from, to) then |out| == 1 && StandsFor(c, out[0], from, to) else out == ""
  }

  lemma OneMeans(c: char, from: string, to: string)
    ensures IsOne(c, TranslateOne(c, from, to), from, to)
  {
    var r := Find(from, c);
    if r.Some? {
      assert c in from;
      FirstPlace(from, c, r.value);
    }
    forall k: nat | k < |from| && from[k] == c && c !in from[..k] ensures r == Some(k) {
      FirstPlace(from, c, k);
    }
  }

  lemma OneMore(s: string, r: string, from: string, to: string, at: seq<nat>, c: char, out: string)
    requires IsTranslation(s, r, from, to, at) && IsOne(c, out, from, to)
    ensures IsTranslation(s + [c], r + out, from, to, at + (if Remains(c, from, to) then [|s|] else []))
  {
    hide Remains, StandsFor;
    var t, more, q := s + [c], at + (if Remains(c, from, to) then [|s|] else []), r + out;
    forall j | 0 <= j < |more|
      ensures more[j] < |t| && Remains(t[more[j]], from, to) && StandsFor(t[more[j]], q[j], from, to)
    {
      if j < |at| {
        assert t[at[j]] == s[at[j]] && q[j] == r[j];
      }
    }
    forall p: nat | p < |t| && Remains(t[p], from, to) ensures p in more {
      if p < |s| { assert t[p] == s[p]; }
    }
  }

  /** The text that searching leaves, in terms of places. */
  lemma {:induction false} TranslateMeans(s: string, from: string, to: string)
    ensures IsTranslation(s, Translate(s, from, to), from, to, Places(s, from, to))
  {
    hide IsTranslation, IsOne, Remains, TranslateOne;
    if s == "" {
      NoPlaces(from, to);
    } else {
      var init, c := s[..|s| - 1], s[|s| - 1];
      TranslateMeans(init, from, to);
      OneMeans(c, from, to);
      OneMore(init, Translate(init, from, to), from, to, Places(init, from, to), c, TranslateOne(c, from, to));
      assert s == init + [c];
    }
  }

  lemma NoPlaces(from: string, to: string)
    ensures IsTranslation("", "", from, to, [])
  {}

  const SKIP: nat := 128

  type Table = seq<nat>

  predicate IsTable(t: Table) {
    |t| == 128 && forall k :: 0 <= k < 128 ==> t[k] <= 128
  }

  /** The entry for the first n characters of from: 0 where none of them is the index. */
  ghost predicate Filled(t: Table, from: string, to: string, n: nat)
    requires IsTable(t) && n <= |from|
  {
    forall k :: 0 <= k < 128 ==>
      var r := Find(from[..n], k as char);
      t[k] == (if r.None? then 0 else if r.value < |to| then to[r.value] as nat else SKIP)
  }

  lemma {:induction false} FindExtended(s: string, c: char, x: char)
    ensures Find(s + [x], c) == if Find(s, c).Some? then Find(s, c) else if x == c then Some(|s|) else None
  {
    if s != "" {
      assert (s + [x])[1..] == s[1..] + [x];
      FindExtended(s[1..], c, x);
    }
  }

  predicate IsAscii(s: string) {
    forall k :: 0 <= k < |s| ==> 0 < s[k] as int < 128
  }

  /** What the table says of a code. */
  ghost predicate TableOf(t: Table, from: string, to: string) {
    IsTable(t) && forall k :: 0 <= k < 128 ==>
      var r := Find(from, k as char);
      t[k] == (if r.None? then k else if r.value < |to| then to[r.value] as nat else SKIP)
  }

  /** The table that the generator builds, when it builds one. */
  function TableFor(from: string, to: string): Option<Table> {
    if IsAscii(from) && IsAscii(if |from| < |to| then to[..|from|] else to) then
      Some(seq(128, k requires 0 <= k < 128 =>
        var r := Find(from, k as char);
        if r.None? then k else if r.value < |to| then to[r.value] as nat else SKIP))
    else None
  }

  lemma TableForIsTable(from: string, to: string)
    requires TableFor(from, to).Some?
    ensures IsAscii(from) && IsAscii(if |from| < |to| then to[..|from|] else to) && TableOf(TableFor(from, to).value, from, to)
  {
    var t := TableFor(from, to).value;
    forall k | 0 <= k < 128 ensures t[k] <= 128 {
      var r := Find(from, k as char);
      if r.Some? && r.value < |to| {
        assert |from| < |to| ==> to[..|from|][r.value] == to[r.value];
      }
    }
  }

  lemma TableIsUnique(t: Table, u: Table, from: string, to: string)
    requires TableOf(t, from, to) && TableOf(u, from, to)
    ensures t == u
  {}

  lemma AsciiMore(s: string, n: nat)
    requires n < |s| && IsAscii(s[..n]) && 0 < s[n] as int < 128
    ensures IsAscii(s[..n + 1])
  {}

  lemma FilledNone(t: Table, from: string, to: string)
    requires |t| == 128 && forall k :: 0 <= k < 128 ==> t[k] == 0
    ensures IsTable(t) && Filled(t, from, to, 0)
  {
    assert from[..0] == "";
  }

  /** Builds the table, unless a character that it needs lies outside ASCII. */
  method TranslateTableGenerate(from: string, to: string) returns (t: Option<Table>)
    requires '\0' !in from && '\0' !in to
    ensures t == TableFor(from, to)
    ensures t.Some? <==> forall k :: 0 <= k < |from| ==> from[k] as int < 128 && (k < |to| ==> to[k] as int < 128)
  {
    TableExists(from, to);
    hide Find, Filled, TableOf, IsAscii, TableFor;
    var table: Table := seq(128, _ => 0);
    var n, m := 0, 0;
    FilledNone(table, from, to);
    NothingAscii(from, to);
    while n < |from|
      invariant n <= |from| && m == (if n < |to| then n else |to|) && IsTable(table)
      invariant IsAscii(from[..n]) && IsAscii(to[..m]) && Filled(table, from, to, n)
    {
      var fc := from[n] as int;
      var tc := if m < |to| then to[m] as int else 0;
      assert from[n] in from && (m < |to| ==> to[m] in to);
      if fc >= 128 || tc >= 128 {
        NotAscii(from, to, n, m);
        return None;
      }
      ghost var before := table;
      if table[fc] == 0 {
        table := table[fc := if tc != 0 then tc else SKIP];
      }
      assert n >= |to| ==> to[..m] == to;
      FilledStep(before, table, from, to, n, fc);
      AsciiMore(from, n);
      if tc != 0 {
        AsciiMore(to, m);
        m := m + 1;
      }
      n := n + 1;
    }
    assert from[..n] == from;
    assert m == |to| ==> to[..m] == to;
    ghost var filled := table;
    for i := 0 to 128
      invariant IsTable(table)
      invariant forall k :: 0 <= k < 128 ==> table[k] == (if k < i && filled[k] == 0 then k else filled[k])
    {
      if table[i] == 0 {
        table := table[i := i];
      }
    }
    WholeTable(filled, table, from, to);
    TableForIsTable(from, to);
    TableIsUnique(table, TableFor(from, to).value, from, to);
    return Some(table);
  }

  lemma TableExists(from: string, to: string)
    requires '\0' !in from && '\0' !in to
    ensures TableFor(from, to).Some? <==>
            forall k :: 0 <= k < |from| ==> from[k] as int < 128 && (k < |to| ==> to[k] as int < 128)
    ensures TableFor(from, to).Some? <==> IsAscii(from) && IsAscii(if |from| < |to| then to[..|from|] else to)
  {
    var needed := if |from| < |to| then to[..|from|] else to;
    forall k | 0 <= k < |from| ensures 0 < from[k] as int { assert from[k] in from; }
    forall k | 0 <= k < |needed| ensures 0 < needed[k] as int && needed[k] == to[k] { assert to[k] in to; }
    if IsAscii(from) && IsAscii(needed) {
      forall k | 0 <= k < |from| && k < |to| ensures to[k] as int < 128 { assert needed[k] == to[k]; }
    }
  }

  lemma NothingAscii(from: string, to: string)
    ensures IsAscii(from[..0]) && IsAscii(to[..0])
  {}

  lemma NotAscii(from: string, to: string, n: nat, m: nat)
    requires n < |from| && m == (if n < |to| then n else |to|)
    requires from[n] as int >= 128 || (m < |to| && to[m] as int >= 128)
    ensures !(IsAscii(from) && IsAscii(if |from| < |to| then to[..|from|] else to))
  {
    if m < |to| && |from| < |to| {
      assert to[..|from|][m] == to[m];
    }
  }

  lemma FilledStep(before: Table, table: Table, from: string, to: string, n: nat, fc: nat)
    requires n < |from| && fc == from[n] as int < 128 && IsTable(before) && Filled(before, from, to, n) && 0 < fc
    requires '\0' !in to && (n < |to| ==> to[n] as int < 128) && IsAscii(if n < |to| then to[..n] else to)
    requires table == if before[fc] == 0 then before[fc := if n < |to| then to[n] as nat else SKIP] else before
    ensures IsTable(table) && Filled(table, from, to, n + 1)
  {
    assert from[..n + 1] == from[..n] + [from[n]];
    forall k | 0 <= k < 128
      ensures table[k] == (var r := Find(from[..n + 1], k as char);
                           if r.None? then 0 else if r.value < |to| then to[r.value] as nat else SKIP)
    {
      FindExtended(from[..n], k as char, from[n]);
      var r := Find(from[..n], k as char);
      if r.Some? && r.value < |to| {
        assert to[r.value] in to;
      }
    }
  }

  lemma WholeTable(filled: Table, table: Table, from: string, to: string)
    requires IsTable(filled) && Filled(filled, from, to, |from|) && '\0' !in to && IsTable(table)
    requires forall k :: 0 <= k < 128 ==> table[k] == (if filled[k] == 0 then k else filled[k])
    ensures TableOf(table, from, to)
  {
    assert from[..|from|] == from;
    forall k | 0 <= k < 128
      ensures table[k] == (var r := Find(from, k as char); if r.None? then k else if r.value < |to| then to[r.value] as nat else SKIP)
    {
      var r := Find(from, k as char);
      if r.Some? && r.value < |to| {
        assert to[r.value] in to;
      }
    }
  }

  /** What one character turns into by the table. */
  function TableOne(c: char, t: Table): string
    requires IsTable(t)
  {
    if c as int >= 128 then [c] else if t[c as int] == SKIP then "" else [t[c as int] as char]
  }

  function UseTable(s: string, t: Table): string
    requires IsTable(t)
  {
    if s == "" then "" else UseTable(s[..|s| - 1], t) + TableOne(s[|s| - 1], t)
  }

  /** The table gives the same text as the search. */
  lemma {:induction false} TableIsTranslate(s: string, from: string, to: string, t: Table)
    requires IsAscii(from) && IsAscii(if |from| < |to| then to[..|from|] else to) && TableOf(t, from, to)
    ensures UseTable(s, t) == Translate(s, from, to)
  {
    if s != "" {
      TableIsTranslate(s[..|s| - 1], from, to, t);
      OneIsTranslate(s[|s| - 1], from, to, t);
    }
  }

  lemma OneIsTranslate(c: char, from: string, to: string, t: Table)
    requires IsAscii(from) && IsAscii(if |from| < |to| then to[..|from|] else to) && TableOf(t, from, to)
    ensures TableOne(c, t) == TranslateOne(c, from, to)
  {
    var r := Find(from, c);
    if c as int < 128 {
      assert (c as int) as char == c;
      if r.Some? && r.value < |to| {
        assert |from| < |to| ==> to[..|from|][r.value] == to[r.value];
      }
    }
  }

  /** Translation in place by looking every character up in `from`; the write position never passes the read position. */
  method TranslateBySearch(a: array<char>, from: string, to: string) returns (end: nat)
    modifies a
    ensures end <= a.Length && a[..end] == Translate(old(a[..]), from, to)
    ensures IsTranslation(old(a[..]), a[..end], from, to, Places(old(a[..]), from, to))
  {
    hide Translate, IsTranslation, Places;
    ghost var s := a[..];
    var write, read := 0, 0;
    NothingTranslated(from, to);
    while read < a.Length
      invariant write <= read <= a.Length && a[read..] == s[read..] && a[..write] == Translate(s[..read], from, to)
    {
      var ch := a[read];
      assert ch == s[read] by { assert a[read..][0] == s[read..][0]; }
      OneTranslated(s, read, from, to);
      ghost var b := a[..];
      var pos := Find(from, ch);
      if pos.None? {
        a[write] := ch;
        write := write + 1;
      } else if pos.value < |to| {
        a[write] := to[pos.value];
        write := write + 1;
      }
      assert a[read + 1..] == b[read..][1..] && s[read + 1..] == s[read..][1..];
      read := read + 1;
    }
    assert s[..a.Length] == s;
    TranslateMeans(s, from, to);
    end := write;
  }

  lemma NothingTranslated(from: string, to: string)
    ensures Translate("", from, to) == ""
  {}

  lemma OneTranslated(s: string, n: nat, from: string, to: string)
    requires n < |s|
    ensures Translate(s[..n + 1], from, to) == Translate(s[..n], from, to) + TranslateOne(s[n], from, to)
  {
    assert s[..n + 1][..n] == s[..n];
  }

  /** Translation in place by the table that was built for `from` and `to`. */
  method TranslateInPlace(a: array<char>, t: Table, ghost from: string, ghost to: string) returns (end: nat)
    requires TableFor(from, to) == Some(t)
    modifies a
    ensures end <= a.Length && a[..end] == UseTable(old(a[..]), t)
    ensures IsTranslation(old(a[..]), a[..end], from, to, Places(old(a[..]), from, to))
  {
    hide UseTable, IsTable, TableOf, TableFor, IsAscii, Translate, IsTranslation, Places;
    ghost var s := a[..];
    var write, read := 0, 0;
    TableForIsTable(from, to);
    TableOfIsTable(t, from, to);
    NoText(t);
    while read < a.Length
      invariant 0 <= write <= read <= a.Length && a[read..] == s[read..] && a[..write] == UseTable(s[..read], t)
    {
      var ch := a[read];
      assert ch == s[read] by { assert a[read..][0] == s[read..][0]; }
      MoreText(s, read, t);
      TableEntry(t, ch);
      ghost var b := a[..];
      if ch as int < 128 {
        var code := t[ch as int];
        a[write] := code as char;
        write := write + 1 - code / SKIP;
      } else {
        a[write] := ch;
        write := write + 1;
      }
      assert a[read + 1..] == b[read..][1..] && s[read + 1..] == s[read..][1..];
      read := read + 1;
    }
    assert s[..a.Length] == s;
    TableIsTranslate(s, from, to, t);
    TranslateMeans(s, from, to);
    end := write;
  }

  lemma TableOfIsTable(t: Table, from: string, to: string)
    requires TableOf(t, from, to)
    ensures IsTable(t)
  {}

  lemma NoText(t: Table)
    requires IsTable(t)
    ensures UseTable("", t) == ""
  {}

  lemma TableEntry(t: Table, c: char)
    requires IsTable(t)
    ensures |t| == 128 && (c as int < 128 ==> t[c as int] <= SKIP)
  {}

  lemma MoreText(s: string, n: nat, t: Table)
    requires IsTable(t) && n < |s|
    ensures UseTable(s[..n + 1], t) == UseTable(s[..n], t) + TableOne(s[n], t)
  {
    assert s[..n + 1][..n] == s[..n];
  }
}
