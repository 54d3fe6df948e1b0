/** The dictionary of link reference definitions: a hash table whose crowded buckets are sorted lists. */
module RefDefs {
  import opened Wrappers
  import opened LinkLabels

  // ----- keys -----

  datatype Key = Key(hash: nat, folded: Label)

  function KeyOf(u: Unicode, s: Label): Key {
    Key(MixAll(HASH_BASE, Canonical(u, s)) as nat, Canonical(u, s))
  }

  /** Hashes first, then labels; negative, zero or positive. */
  function KeyOrder(a: Key, b: Key): int {
    if a.hash < b.hash then -1 else if a.hash > b.hash then 1 else Difference(a.folded, b.folded, 0)
  }

  lemma OrderFlips(a: Key, b: Key)
    ensures KeyOrder(b, a) < 0 <==> KeyOrder(a, b) > 0
    ensures KeyOrder(b, a) == 0 <==> KeyOrder(a, b) == 0
  {
    DifferenceFlips(a.folded, b.folded, 0);
  }

  lemma OrderChains(a: Key, b: Key, c: Key)
    requires KeyOrder(a, b) <= 0 && KeyOrder(b, c) <= 0
    ensures KeyOrder(a, c) <= 0 && (KeyOrder(a, b) < 0 || KeyOrder(b, c) < 0 ==> KeyOrder(a, c) < 0)
  {
    if a.hash == b.hash == c.hash {
      DifferenceChains(a.folded, b.folded, c.folded, 0);
    }
  }

  lemma EqualChains(a: Key, b: Key, c: Key)
    requires KeyOrder(a, b) == 0
    ensures KeyOrder(b, c) == 0 <==> KeyOrder(a, c) == 0
  {
    OrderFlips(a, b);
    OrderFlips(b, c);
    OrderFlips(a, c);
    if KeyOrder(b, c) == 0 {
      OrderChains(a, b, c);
      OrderChains(c, b, a);
    }
    if KeyOrder(a, c) == 0 {
      OrderChains(b, a, c);
      OrderChains(c, a, b);
    }
  }

  ghost predicate Same(u: Unicode, a: Label, b: Label) {
    Canonical(u, a) == Canonical(u, b)
  }

  /** For labels that do not end in white space, keys compare equal exactly when the labels fold alike. */
  lemma OrderIsSame(u: Unicode, a: Label, b: Label)
    requires GoodUnicode(u) && NoTrailingSpace(u, a) && NoTrailingSpace(u, b)
    ensures KeyOrder(KeyOf(u, a), KeyOf(u, b)) == 0 <==> Same(u, a, b)
    ensures Difference(Canonical(u, a), Canonical(u, b), 0) == 0 <==> Same(u, a, b)
  {
    EqualIsSame(u, a, b);
  }

  method Compare(u: Unicode, a: Label, aHash: nat, b: Label, bHash: nat) returns (cmp: int)
    requires GoodUnicode(u) && aHash == KeyOf(u, a).hash && bHash == KeyOf(u, b).hash
    ensures cmp == KeyOrder(KeyOf(u, a), KeyOf(u, b))
  {
    if aHash < bHash {
      cmp := -1;
    } else if aHash > bHash {
      cmp := 1;
    } else {
      cmp := CompareLabels(u, a, b);
    }
  }

  // ----- the table -----

  /** Nothing, one definition, or a list of definitions, by their numbers. */
  datatype Bucket = Empty | One(def: nat) | Many(defs: seq<nat>)

  function ListOf(b: Bucket): seq<nat> {
    match b
    case Empty => []
    case One(f) => [f]
    case Many(l) => l
  }

  ghost predicate GoodLabels(u: Unicode, defs: seq<Label>) {
    GoodUnicode(u) && forall k :: 0 <= k < |defs| ==> NoTrailingSpace(u, defs[k])
  }

  /** Definition k is one of the first n and belongs to the slot. */
  ghost predicate InSlot(u: Unicode, defs: seq<Label>, size: nat, slot: nat, n: nat, k: nat)
    requires size > 0
  {
    k < n && k < |defs| && KeyOf(u, defs[k]).hash % size == slot
  }

  /** The bucket lists definitions of its slot, and for each of them one that is as early and folds alike. */
  ghost predicate Holds(u: Unicode, defs: seq<Label>, size: nat, slot: nat, n: nat, l: seq<nat>)
    requires size > 0 && n <= |defs|
  {
    && (forall x :: x in l ==> InSlot(u, defs, size, slot, n, x))
    && (forall k: nat :: InSlot(u, defs, size, slot, n, k) ==> Covered(u, defs, l, k))
  }

  ghost predicate Covered(u: Unicode, defs: seq<Label>, l: seq<nat>, k: nat) {
    k < |defs| && exists f :: f in l && f <= k && f < |defs| && Same(u, defs[f], defs[k])
  }

  lemma HoldsMore(u: Unicode, defs: seq<Label>, size: nat, slot: nat, n: nat, l: seq<nat>)
    requires size > 0 && n < |defs| && Holds(u, defs, size, slot, n, l)
    ensures KeyOf(u, defs[n]).hash % size != slot ==> Holds(u, defs, size, slot, n + 1, l)
    ensures KeyOf(u, defs[n]).hash % size == slot ==> Holds(u, defs, size, slot, n + 1, l + [n])
    ensures KeyOf(u, defs[n]).hash % size == slot && Covered(u, defs, l, n) ==> Holds(u, defs, size, slot, n + 1, l)
  {
    hide KeyOf, Same, InSlot, Covered;
    var mine := InSlot(u, defs, size, slot, n + 1, n);
    SlotIs(u, defs, size, slot, n);
    if !mine || Covered(u, defs, l, n) {
      HoldsStill(u, defs, size, slot, n, l);
    }
    if mine {
      HoldsAdded(u, defs, size, slot, n, l);
    }
  }

  lemma SlotIs(u: Unicode, defs: seq<Label>, size: nat, slot: nat, n: nat)
    requires size > 0 && n < |defs|
    ensures InSlot(u, defs, size, slot, n + 1, n) <==> KeyOf(u, defs[n]).hash % size == slot
    ensures forall k: nat :: InSlot(u, defs, size, slot, n + 1, k) <==>
                             InSlot(u, defs, size, slot, n, k) || (k == n && InSlot(u, defs, size, slot, n + 1, n))
  {
    hide KeyOf;
  }

  lemma HoldsStill(u: Unicode, defs: seq<Label>, size: nat, slot: nat, n: nat, l: seq<nat>)
    requires size > 0 && n < |defs| && Holds(u, defs, size, slot, n, l)
    requires InSlot(u, defs, size, slot, n + 1, n) ==> Covered(u, defs, l, n)
    ensures Holds(u, defs, size, slot, n + 1, l)
  {
    hide KeyOf, Same, InSlot, Covered;
    SlotIs(u, defs, size, slot, n);
  }

  lemma HoldsAdded(u: Unicode, defs: seq<Label>, size: nat, slot: nat, n: nat, l: seq<nat>)
    requires size > 0 && n < |defs| && Holds(u, defs, size, slot, n, l) && InSlot(u, defs, size, slot, n + 1, n)
    ensures Holds(u, defs, size, slot, n + 1, l + [n])
  {
    hide KeyOf, Same, InSlot;
    var m := l + [n];
    SlotIs(u, defs, size, slot, n);
    assert m[|l|] == n;
    SameSelf(u, defs[n]);
    assert Covered(u, defs, m, n);
    hide Covered;
    forall k: nat | InSlot(u, defs, size, slot, n, k) ensures Covered(u, defs, m, k) {
      CoveredMore(u, defs, l, n, k);
    }
    forall x | x in m ensures InSlot(u, defs, size, slot, n + 1, x) {
      assert x in l || x == n;
    }
  }

  lemma CoveredMore(u: Unicode, defs: seq<Label>, l: seq<nat>, n: nat, k: nat)
    requires Covered(u, defs, l, k)
    ensures Covered(u, defs, l + [n], k)
  {
    hide Same;
    var f :| f in l && f <= k && f < |defs| && Same(u, defs[f], defs[k]);
    assert f in l + [n];
  }

  lemma SameSelf(u: Unicode, a: Label)
    ensures Same(u, a, a)
  {}

  lemma HoldsNothing(u: Unicode, defs: seq<Label>, size: nat, slot: nat)
    requires size > 0
    ensures Holds(u, defs, size, slot, 0, [])
  {}

  /** Fills the buckets in the order of the definitions; a second definition of a single-entry bucket's label is dropped. */
  method FillTable(u: Unicode, defs: seq<Label>, hashes: seq<nat>, size: nat) returns (table: array<Bucket>)
    requires GoodLabels(u, defs) && size > 0 && |hashes| == |defs|
    requires forall k :: 0 <= k < |defs| ==> hashes[k] == KeyOf(u, defs[k]).hash
    ensures fresh(table) && table.Length == size
    ensures forall s :: 0 <= s < size ==> Holds(u, defs, size, s, |defs|, ListOf(table[s]))
  {
    hide KeyOf, Holds, Same;
    table := new Bucket[size](_ => Empty);
    forall s | 0 <= s < size ensures Holds(u, defs, size, s, 0, ListOf(table[s])) {
      HoldsNothing(u, defs, size, s);
    }
    for i := 0 to |defs|
      invariant forall s :: 0 <= s < size ==> Holds(u, defs, size, s, i, ListOf(table[s]))
    {
      var slot := hashes[i] % size;
      ghost var before := table[..];
      forall s | 0 <= s < size ensures Holds(u, defs, size, s, i, ListOf(before[s])) {
        assert before[s] == table[s];
      }
      match table[slot] {
        case Empty =>
          table[slot] := One(i);
        case One(f) =>
          SlotMember(u, defs, size, slot, i, f, [f]);
          var cmp := CompareLabels(u, defs[i], defs[f]);
          OrderIsSame(u, defs[i], defs[f]);
          SameFlips(u, defs[i], defs[f]);
          assert cmp == 0 ==> Covered(u, defs, [f], i);
          if cmp != 0 {
            table[slot] := Many([f, i]);
          }
        case Many(l) =>
          table[slot] := Many(l + [i]);
      }
      forall s | 0 <= s < size ensures Holds(u, defs, size, s, i + 1, ListOf(table[s])) {
        HoldsMore(u, defs, size, s, i, ListOf(before[s]));
        assert s != slot ==> table[s] == before[s];
        assert [] + [i] == [i];
        if before[slot].One? { assert [before[slot].def] + [i] == [before[slot].def, i]; }
      }
    }
  }

  lemma SlotMember(u: Unicode, defs: seq<Label>, size: nat, slot: nat, n: nat, f: nat, l: seq<nat>)
    requires size > 0 && n <= |defs| && Holds(u, defs, size, slot, n, l) && f in l
    ensures f < n
  {}

  lemma SameFlips(u: Unicode, a: Label, b: Label)
    ensures Same(u, a, b) == Same(u, b, a)
  {}

  // ----- sorting crowded buckets -----

  /** Order of keys, and of definitions with equal keys by place. */
  ghost predicate AtMost(u: Unicode, defs: seq<Label>, a: nat, b: nat)
    requires a < |defs| && b < |defs|
  {
    var c := KeyOrder(KeyOf(u, defs[a]), KeyOf(u, defs[b]));
    c < 0 || (c == 0 && a <= b)
  }

  lemma AtMostTotal(u: Unicode, defs: seq<Label>, a: nat, b: nat)
    requires a < |defs| && b < |defs|
    ensures AtMost(u, defs, a, b) || AtMost(u, defs, b, a)
  {
    hide KeyOf, KeyOrder;
    OrderFlips(KeyOf(u, defs[a]), KeyOf(u, defs[b]));
  }

  lemma AtMostChains(u: Unicode, defs: seq<Label>, a: nat, b: nat, c: nat)
    requires a < |defs| && b < |defs| && c < |defs| && AtMost(u, defs, a, b) && AtMost(u, defs, b, c)
    ensures AtMost(u, defs, a, c)
  {
    hide KeyOf, KeyOrder;
    OrderChains(KeyOf(u, defs[a]), KeyOf(u, defs[b]), KeyOf(u, defs[c]));
  }

  ghost predicate Within(defs: seq<Label>, l: seq<nat>) {
    forall k :: 0 <= k < |l| ==> l[k] < |defs|
  }

  ghost predicate Sorted(u: Unicode, defs: seq<Label>, l: seq<nat>)
    requires Within(defs, l)
  {
    forall i, j :: 0 <= i < j < |l| ==> AtMost(u, defs, l[i], l[j])
  }

  ghost predicate SameMembers(l: seq<nat>, m: seq<nat>) {
    forall x :: x in l <==> x in m
  }

  /** Sorts a bucket; any sorting method will do. */
  method SortBucket(u: Unicode, defs: seq<Label>, hashes: seq<nat>, l: seq<nat>) returns (r: seq<nat>)
    requires GoodUnicode(u) && Within(defs, l) && |hashes| == |defs| && forall k :: 0 <= k < |defs| ==> hashes[k] == KeyOf(u, defs[k]).hash
    ensures Within(defs, r) && |r| == |l| && SameMembers(l, r) && Sorted(u, defs, r)
  {
    hide KeyOf, KeyOrder, AtMost;
    r := [];
    for n := 0 to |l|
      invariant |r| == n && Within(defs, r) && SameMembers(l[..n], r) && Sorted(u, defs, r)
    {
      assert l[..n + 1] == l[..n] + [l[n]];
      r := InsertDef(u, defs, hashes, r, l[n]);
    }
    assert l[..|l|] == l;
  }

  method InsertDef(u: Unicode, defs: seq<Label>, hashes: seq<nat>, l: seq<nat>, x: nat) returns (r: seq<nat>)
    requires GoodUnicode(u) && Within(defs, l) && |hashes| == |defs| && forall k :: 0 <= k < |defs| ==> hashes[k] == KeyOf(u, defs[k]).hash
    requires Sorted(u, defs, l) && x < |defs|
    ensures Within(defs, r) && |r| == |l| + 1 && SameMembers(l + [x], r) && Sorted(u, defs, r)
  {
    hide KeyOf, KeyOrder, AtMost;
    var i := |l|;
    while i > 0
      invariant 0 <= i <= |l| && forall k :: i <= k < |l| ==> AtMost(u, defs, x, l[k])
    {
      var before := CompareForSort(u, defs, hashes, l[i - 1], x);
      if before { break; }
      AtMostTotal(u, defs, l[i - 1], x);
      i := i - 1;
    }
    r := l[..i] + [x] + l[i..];
    if i > 0 {
      forall k | 0 <= k < i ensures AtMost(u, defs, l[k], x) {
        if k < i - 1 { AtMostChains(u, defs, l[k], l[i - 1], x); }
      }
    }
    InsertSorted(u, defs, l, i, x);
  }

  lemma InsertSorted(u: Unicode, defs: seq<Label>, l: seq<nat>, i: nat, x: nat)
    requires Within(defs, l) && Sorted(u, defs, l) && x < |defs| && i <= |l|
    requires (forall k :: i <= k < |l| ==> AtMost(u, defs, x, l[k])) && (forall k :: 0 <= k < i ==> AtMost(u, defs, l[k], x))
    ensures var r := l[..i] + [x] + l[i..]; Within(defs, r) && SameMembers(l + [x], r) && Sorted(u, defs, r)
  {
    hide AtMost;
    var r := l[..i] + [x] + l[i..];
    assert l == l[..i] + l[i..];
    forall a, b | 0 <= a < b < |r| ensures AtMost(u, defs, r[a], r[b]) {
      var a', b' := if a < i then a else a - 1, if b < i then b else b - 1;
      assert a != i ==> r[a] == l[a'];
      assert b != i ==> r[b] == l[b'];
    }
  }

  method CompareForSort(u: Unicode, defs: seq<Label>, hashes: seq<nat>, a: nat, b: nat) returns (atMost: bool)
    requires GoodUnicode(u) && a < |defs| && b < |defs| && |hashes| == |defs|
    requires forall k :: 0 <= k < |defs| ==> hashes[k] == KeyOf(u, defs[k]).hash
    ensures atMost <==> AtMost(u, defs, a, b)
  {
    hide KeyOf, KeyOrder;
    var cmp := Compare(u, defs[a], hashes[a], defs[b], hashes[b]);
    atMost := cmp < 0 || (cmp == 0 && a <= b);
  }

  ghost predicate Alike(u: Unicode, defs: seq<Label>, a: nat, b: nat)
    requires a < |defs| && b < |defs|
  {
    KeyOrder(KeyOf(u, defs[a]), KeyOf(u, defs[b])) == 0
  }

  /** x stands for the definition at place k of the sorted list: it is the earliest with that key. */
  ghost predicate Leads(u: Unicode, defs: seq<Label>, s: seq<nat>, x: nat, k: nat)
    requires Within(defs, s)
  {
    && k < |s| && x < |defs| && x in s && Alike(u, defs, x, s[k])
    && (forall b :: 0 <= b < |s| && Alike(u, defs, s[b], s[k]) ==> x <= s[b])
  }

  /** Makes equal entries all point to the first of them. */
  method ForceFirst(u: Unicode, defs: seq<Label>, hashes: seq<nat>, s: seq<nat>) returns (r: seq<nat>)
    requires GoodUnicode(u) && Within(defs, s) && |hashes| == |defs| && Sorted(u, defs, s)
    requires forall k :: 0 <= k < |defs| ==> hashes[k] == KeyOf(u, defs[k]).hash
    ensures |r| == |s| && forall k :: 0 <= k < |s| ==> Leads(u, defs, s, r[k], k)
  {
    hide KeyOf, KeyOrder, AtMost, Alike, Leads, Sorted;
    r := s;
    if s == [] { return; }
    FirstLeads(u, defs, s);
    var j := 1;
    while j < |s|
      invariant 1 <= j <= |s| && |r| == |s| && r[j..] == s[j..] && forall k :: 0 <= k < j ==> Leads(u, defs, s, r[k], k)
    {
      LeaderBound(u, defs, s, r[j - 1], j - 1);
      assert r[j] == s[j] by { assert r[j..][0] == s[j..][0]; }
      var cmp := Compare(u, defs[r[j - 1]], hashes[r[j - 1]], defs[r[j]], hashes[r[j]]);
      AlikeIs(u, defs, r[j - 1], r[j]);
      NextLeads(u, defs, s, r[j - 1], j, cmp == 0);
      if cmp == 0 {
        r := r[j := r[j - 1]];
      }
      assert r[j + 1..] == s[j + 1..] by { assert s[j..][1..] == s[j + 1..]; }
      j := j + 1;
    }
  }

  lemma AlikeIs(u: Unicode, defs: seq<Label>, a: nat, b: nat)
    requires a < |defs| && b < |defs|
    ensures Alike(u, defs, a, b) <==> KeyOrder(KeyOf(u, defs[a]), KeyOf(u, defs[b])) == 0
  {}

  lemma LeaderBound(u: Unicode, defs: seq<Label>, s: seq<nat>, x: nat, k: nat)
    requires Within(defs, s) && Leads(u, defs, s, x, k)
    ensures x < |defs|
  {}

  lemma FirstLeads(u: Unicode, defs: seq<Label>, s: seq<nat>)
    requires Within(defs, s) && Sorted(u, defs, s) && s != []
    ensures Leads(u, defs, s, s[0], 0)
  {
    hide KeyOf, KeyOrder;
    AlikeSelf(u, defs, s[0]);
    forall b | 0 <= b < |s| && Alike(u, defs, s[b], s[0]) ensures s[0] <= s[b] {
      OrderFlips(KeyOf(u, defs[s[0]]), KeyOf(u, defs[s[b]]));
      assert b > 0 ==> AtMost(u, defs, s[0], s[b]);
    }
  }

  lemma AlikeSelf(u: Unicode, defs: seq<Label>, a: nat)
    requires a < |defs|
    ensures Alike(u, defs, a, a)
  {
    hide KeyOf;
    var k := KeyOf(u, defs[a]);
    DifferenceFlips(k.folded, k.folded, 0);
  }

  lemma NextLeads(u: Unicode, defs: seq<Label>, s: seq<nat>, x: nat, j: nat, same: bool)
    requires Within(defs, s) && Sorted(u, defs, s) && 1 <= j < |s| && Leads(u, defs, s, x, j - 1) && x < |defs|
    requires same <==> Alike(u, defs, x, s[j])
    ensures Leads(u, defs, s, if same then x else s[j], j)
  {
    hide KeyOf, KeyOrder;
    var kx, kp, kj := KeyOf(u, defs[x]), KeyOf(u, defs[s[j - 1]]), KeyOf(u, defs[s[j]]);
    EqualChains(kx, kp, kj);
    AlikeSelf(u, defs, s[j]);
    forall b | 0 <= b < |s| && Alike(u, defs, s[b], s[j]) ensures (if same then x else s[j]) <= s[b] {
      var kb := KeyOf(u, defs[s[b]]);
      OrderFlips(kb, kj);
      OrderFlips(kp, kj);
      OrderFlips(kb, kp);
      if same {
        EqualChains(kj, kp, kb);
        assert Alike(u, defs, s[b], s[j - 1]);
      } else if b < j {
        assert AtMost(u, defs, s[j - 1], s[j]);
        if b < j - 1 {
          assert AtMost(u, defs, s[b], s[j - 1]);
          OrderChains(kb, kp, kj);
        }
      } else if b > j {
        assert AtMost(u, defs, s[j], s[b]);
      }
    }
  }

  // ----- the finished table -----

  /** The definition is the first of its slot with its label. */
  ghost predicate Least(u: Unicode, defs: seq<Label>, size: nat, slot: nat, x: nat)
    requires size > 0
  {
    x < |defs| && forall k: nat :: InSlot(u, defs, size, slot, |defs|, k) && Same(u, defs[x], defs[k]) ==> x <= k
  }

  ghost predicate Represented(u: Unicode, defs: seq<Label>, l: seq<nat>, k: nat) {
    k < |defs| && exists f :: f in l && f < |defs| && Same(u, defs[f], defs[k])
  }

  ghost predicate WeaklySorted(u: Unicode, defs: seq<Label>, l: seq<nat>)
    requires Within(defs, l)
  {
    forall i, j :: 0 <= i < j < |l| ==> KeyOrder(KeyOf(u, defs[l[i]]), KeyOf(u, defs[l[j]])) <= 0
  }

  ghost predicate Ready(u: Unicode, defs: seq<Label>, size: nat, slot: nat, l: seq<nat>)
    requires size > 0
  {
    && Within(defs, l) && WeaklySorted(u, defs, l)
    && (forall x :: x in l ==> InSlot(u, defs, size, slot, |defs|, x) && Least(u, defs, size, slot, x))
    && (forall k: nat :: InSlot(u, defs, size, slot, |defs|, k) ==> Represented(u, defs, l, k))
  }

  lemma ShortReady(u: Unicode, defs: seq<Label>, size: nat, slot: nat, l: seq<nat>)
    requires size > 0 && |l| <= 1 && Holds(u, defs, size, slot, |defs|, l)
    ensures Ready(u, defs, size, slot, l)
  {
    hide KeyOf, Same;
    HoldsWithin(u, defs, size, slot, l);
    forall x | x in l ensures InSlot(u, defs, size, slot, |defs|, x) && Least(u, defs, size, slot, x) {
      assert l == [x];
      forall k: nat | InSlot(u, defs, size, slot, |defs|, k) ensures x <= k {
        assert Covered(u, defs, l, k);
      }
    }
    forall k: nat | InSlot(u, defs, size, slot, |defs|, k) ensures Represented(u, defs, l, k) {
      assert Covered(u, defs, l, k);
    }
  }

  lemma LeadsParts(u: Unicode, defs: seq<Label>, s: seq<nat>, x: nat, k: nat)
    requires GoodLabels(u, defs) && Within(defs, s) && Leads(u, defs, s, x, k)
    ensures k < |s| && x < |defs| && x in s && Same(u, defs[x], defs[s[k]])
    ensures forall b :: 0 <= b < |s| && Same(u, defs[s[b]], defs[x]) ==> x <= s[b]
    ensures KeyOrder(KeyOf(u, defs[x]), KeyOf(u, defs[s[k]])) == 0
  {
    hide KeyOf, KeyOrder;
    OrderIsSame(u, defs[x], defs[s[k]]);
    forall b | 0 <= b < |s| && Same(u, defs[s[b]], defs[x]) ensures x <= s[b] {
      OrderIsSame(u, defs[s[b]], defs[s[k]]);
    }
  }

  /** A sorted bucket whose equal entries all point to the first of them. */
  lemma LongReady(u: Unicode, defs: seq<Label>, size: nat, slot: nat, l: seq<nat>, s: seq<nat>, r: seq<nat>)
    requires size > 0 && GoodLabels(u, defs) && Holds(u, defs, size, slot, |defs|, l)
    requires Within(defs, s) && SameMembers(l, s) && Sorted(u, defs, s) && |r| == |s|
    requires forall k :: 0 <= k < |s| ==> Leads(u, defs, s, r[k], k)
    ensures Ready(u, defs, size, slot, r)
  {
    hide KeyOf, KeyOrder, Leads, Same, AtMost, InSlot, GoodLabels;
    forall k | 0 <= k < |r| ensures r[k] < |defs| && r[k] in l {
      LeadsParts(u, defs, s, r[k], k);
    }
    forall i, j | 0 <= i < j < |r| ensures KeyOrder(KeyOf(u, defs[r[i]]), KeyOf(u, defs[r[j]])) <= 0 {
      LeadsParts(u, defs, s, r[i], i);
      LeadsParts(u, defs, s, r[j], j);
      LeadersSorted(u, defs, s, r[i], i, r[j], j);
    }
    forall x | x in r ensures InSlot(u, defs, size, slot, |defs|, x) && Least(u, defs, size, slot, x) {
      var k :| 0 <= k < |r| && r[k] == x;
      forall m: nat | InSlot(u, defs, size, slot, |defs|, m) && Same(u, defs[x], defs[m]) ensures x <= m {
        LeaderLeast(u, defs, size, slot, l, s, x, k, m);
      }
    }
    forall m: nat | InSlot(u, defs, size, slot, |defs|, m) ensures Represented(u, defs, r, m) {
      assert Covered(u, defs, l, m);
      var f :| f in l && f <= m && f < |defs| && Same(u, defs[f], defs[m]);
      var k :| 0 <= k < |s| && s[k] == f;
      LeadsParts(u, defs, s, r[k], k);
      SameChains(u, defs[r[k]], defs[f], defs[m]);
    }
  }

  lemma SameChains(u: Unicode, a: Label, b: Label, c: Label)
    requires Same(u, a, b) && Same(u, b, c)
    ensures Same(u, a, c)
  {}

  lemma LeadersSorted(u: Unicode, defs: seq<Label>, s: seq<nat>, x: nat, i: nat, y: nat, j: nat)
    requires Within(defs, s) && Sorted(u, defs, s) && i < j < |s| && x < |defs| && y < |defs|
    requires KeyOrder(KeyOf(u, defs[x]), KeyOf(u, defs[s[i]])) == 0 && KeyOrder(KeyOf(u, defs[y]), KeyOf(u, defs[s[j]])) == 0
    ensures KeyOrder(KeyOf(u, defs[x]), KeyOf(u, defs[y])) <= 0
  {
    hide KeyOf, KeyOrder;
    assert AtMost(u, defs, s[i], s[j]);
    OrderFlips(KeyOf(u, defs[y]), KeyOf(u, defs[s[j]]));
    OrderChains(KeyOf(u, defs[x]), KeyOf(u, defs[s[i]]), KeyOf(u, defs[s[j]]));
    OrderChains(KeyOf(u, defs[x]), KeyOf(u, defs[s[j]]), KeyOf(u, defs[y]));
  }

  lemma LeaderLeast(u: Unicode, defs: seq<Label>, size: nat, slot: nat, l: seq<nat>, s: seq<nat>, x: nat, k: nat, m: nat)
    requires size > 0 && GoodLabels(u, defs) && Holds(u, defs, size, slot, |defs|, l) && Within(defs, s) && SameMembers(l, s)
    requires Leads(u, defs, s, x, k) && x < |defs| && m < |defs| && InSlot(u, defs, size, slot, |defs|, m) && Same(u, defs[x], defs[m])
    ensures x <= m
  {
    hide KeyOf, KeyOrder, Leads, Same, InSlot, GoodLabels;
    LeadsParts(u, defs, s, x, k);
    assert Covered(u, defs, l, m);
    var f :| f in l && f <= m && f < |defs| && Same(u, defs[f], defs[m]);
    var b :| 0 <= b < |s| && s[b] == f;
    SameFlips(u, defs[x], defs[m]);
    SameChains(u, defs[f], defs[m], defs[x]);
  }

  /** The dictionary: a table with a quarter more slots than definitions, or none. */
  method BuildTable(u: Unicode, defs: seq<Label>) returns (table: array<Bucket>, hashes: seq<nat>)
    requires GoodLabels(u, defs)
    ensures |hashes| == |defs| && forall k :: 0 <= k < |defs| ==> hashes[k] == KeyOf(u, defs[k]).hash
    ensures fresh(table) && table.Length == |defs| * 5 / 4
    ensures forall s :: 0 <= s < table.Length ==> Ready(u, defs, table.Length, s, ListOf(table[s]))
  {
    hide Holds, Ready, Sorted, Leads;
    hashes := [];
    for k := 0 to |defs|
      invariant |hashes| == k && forall i :: 0 <= i < k ==> hashes[i] == KeyOf(u, defs[i]).hash
    {
      var h := HashLabel(u, defs[k]);
      hashes := hashes + [h as nat];
    }
    hide KeyOf;
    var size := |defs| * 5 / 4;
    if size == 0 {
      table := new Bucket[0](_ => Empty);
      return;
    }
    table := FillTable(u, defs, hashes, size);
    for i := 0 to size
      invariant forall s :: 0 <= s < i ==> Ready(u, defs, size, s, ListOf(table[s]))
      invariant forall s :: i <= s < size ==> Holds(u, defs, size, s, |defs|, ListOf(table[s]))
    {
      match table[i] {
        case Empty => ShortReady(u, defs, size, i, []);
        case One(f) => ShortReady(u, defs, size, i, [f]);
        case Many(l) =>
          HoldsWithin(u, defs, size, i, l);
          var s := SortBucket(u, defs, hashes, l);
          var r := ForceFirst(u, defs, hashes, s);
          LongReady(u, defs, size, i, l, s, r);
          table[i] := Many(r);
      }
    }
  }

  lemma HoldsWithin(u: Unicode, defs: seq<Label>, size: nat, slot: nat, l: seq<nat>)
    requires size > 0 && Holds(u, defs, size, slot, |defs|, l)
    ensures Within(defs, l)
  {
    forall k | 0 <= k < |l| ensures l[k] < |defs| {
      assert l[k] in l;
    }
  }

  // ----- looking up -----

  /** The first definition whose label folds like the query. */
  ghost function FirstDef(u: Unicode, defs: seq<Label>, query: Label, from: nat): (r: Option<nat>)
    ensures r.Some? ==> from <= r.value < |defs| && Same(u, defs[r.value], query)
    ensures forall k :: from <= k < |defs| && Same(u, defs[k], query) ==> r.Some? && r.value <= k
    decreases |defs| - from
  {
    if from >= |defs| then None
    else if Same(u, defs[from], query) then Some(from)
    else FirstDef(u, defs, query, from + 1)
  }

  /** Any entry that compares equal, as a binary search may find it. */
  method Search(u: Unicode, defs: seq<Label>, hashes: seq<nat>, l: seq<nat>, query: Label, hash: nat) returns (r: Option<nat>)
    requires GoodUnicode(u) && Within(defs, l) && WeaklySorted(u, defs, l) && hash == KeyOf(u, query).hash
    requires |hashes| == |defs| && forall k :: 0 <= k < |defs| ==> hashes[k] == KeyOf(u, defs[k]).hash
    ensures r.Some? ==> r.value < |l| && KeyOrder(KeyOf(u, query), KeyOf(u, defs[l[r.value]])) == 0
    ensures r.None? ==> forall k :: 0 <= k < |l| ==> KeyOrder(KeyOf(u, query), KeyOf(u, defs[l[k]])) != 0
  {
    hide KeyOf, KeyOrder;
    var lo, hi := 0, |l|;
    while lo < hi
      invariant 0 <= lo <= hi <= |l|
      invariant forall k :: 0 <= k < lo ==> KeyOrder(KeyOf(u, query), KeyOf(u, defs[l[k]])) > 0
      invariant forall k :: hi <= k < |l| ==> KeyOrder(KeyOf(u, query), KeyOf(u, defs[l[k]])) < 0
    {
      var mid := (lo + hi) / 2;
      var cmp := Compare(u, query, hash, defs[l[mid]], hashes[l[mid]]);
      if cmp == 0 {
        return Some(mid);
      } else if cmp < 0 {
        forall k | mid <= k < |l| ensures KeyOrder(KeyOf(u, query), KeyOf(u, defs[l[k]])) < 0 {
          if k > mid { OrderChains(KeyOf(u, query), KeyOf(u, defs[l[mid]]), KeyOf(u, defs[l[k]])); }
        }
        hi := mid;
      } else {
        forall k | 0 <= k <= mid ensures KeyOrder(KeyOf(u, query), KeyOf(u, defs[l[k]])) > 0 {
          if k < mid { AllAbove(KeyOf(u, query), KeyOf(u, defs[l[k]]), KeyOf(u, defs[l[mid]])); }
        }
        lo := mid + 1;
      }
    }
    return None;
  }

  lemma AllAbove(q: Key, a: Key, b: Key)
    requires KeyOrder(a, b) <= 0 && KeyOrder(q, b) > 0
    ensures KeyOrder(q, a) > 0
  {
    OrderFlips(q, b);
    OrderFlips(q, a);
    OrderChains(a, b, q);
  }

  /** Whether white space at the end of the query leads astray: its hash must name the slot of the label without it, and
      be the same hash if that slot holds a list. */
  ghost predicate Findable(u: Unicode, size: nat, crowded: bool, query: Label) {
    && size > 0
    && var h, g := KeyOf(u, query).hash, KeyOf(u, Stripped(u, query)).hash;
       h % size == g % size && (h == g || !crowded)
  }

  /** The definition for a label: when the query is findable, exactly the first one in the document whose label folds like
      the query without white space at its end; otherwise none. */
  method Lookup(u: Unicode, defs: seq<Label>, hashes: seq<nat>, table: array<Bucket>, query: Label) returns (def: Option<nat>)
    requires GoodLabels(u, defs) && table.Length == |defs| * 5 / 4
    requires |hashes| == |defs| && forall k :: 0 <= k < |defs| ==> hashes[k] == KeyOf(u, defs[k]).hash
    requires forall s :: 0 <= s < table.Length ==> Ready(u, defs, table.Length, s, ListOf(table[s]))
    ensures table.Length == 0 ==> def == FirstDef(u, defs, Stripped(u, query), 0) == None
    ensures table.Length > 0 ==>
              def == if Findable(u, table.Length, table[KeyOf(u, query).hash % table.Length].Many?, query)
                     then FirstDef(u, defs, Stripped(u, query), 0) else None
    ensures table.Length > 0 ==>
              (def == FirstDef(u, defs, Stripped(u, query), 0)
               <==> Findable(u, table.Length, table[KeyOf(u, query).hash % table.Length].Many?, query)
                    || FirstDef(u, defs, Stripped(u, query), 0).None?)
    ensures NoTrailingSpace(u, query) ==> def == FirstDef(u, defs, query, 0)
  {
    hide Ready, FirstDef, KeyOf, GoodLabels, Stripped, Findable, MixAll, Canonical, NoTrailingSpace;
    if table.Length == 0 {
      LookupExact(u, query);
      NoDefs(u, defs, Stripped(u, query));
      return None;
    }
    var h := HashLabel(u, query);
    var hash := h as nat;
    HashIs(u, query, h);
    var slot := hash % table.Length;
    ReadyParts(u, defs, table.Length, slot, ListOf(table[slot]));
    def := FindInBucket(u, defs, hashes, table[slot], query, hash);
    FoundOrAstray(u, defs, table.Length, table[slot], query, def);
    FoundExactly(u, defs, table.Length, table[slot].Many?, query, def);
  }

  lemma FoundExactly(u: Unicode, defs: seq<Label>, size: nat, crowded: bool, query: Label, def: Option<nat>)
    requires size > 0 && def == if Findable(u, size, crowded, query) then FirstDef(u, defs, Stripped(u, query), 0) else None
    ensures def == FirstDef(u, defs, Stripped(u, query), 0)
            <==> Findable(u, size, crowded, query) || FirstDef(u, defs, Stripped(u, query), 0).None?
    ensures NoTrailingSpace(u, query) ==> def == FirstDef(u, defs, query, 0)
  {
    hide FirstDef, KeyOf, Stripped, Findable, NoTrailingSpace;
    LookupExact(u, query);
  }

  /** The three kinds of bucket. */
  method FindInBucket(u: Unicode, defs: seq<Label>, hashes: seq<nat>, bucket: Bucket, query: Label, hash: nat) returns (def: Option<nat>)
    requires GoodLabels(u, defs) && Within(defs, ListOf(bucket)) && WeaklySorted(u, defs, ListOf(bucket)) && hash == KeyOf(u, query).hash
    requires |hashes| == |defs| && forall k :: 0 <= k < |defs| ==> hashes[k] == KeyOf(u, defs[k]).hash
    ensures if def.Some? then def.value in ListOf(bucket) && Matches(u, defs, def.value, query, bucket.Many?)
            else forall x :: x in ListOf(bucket) ==> x < |defs| && !Matches(u, defs, x, query, bucket.Many?)
  {
    hide Difference, MixAll, Canonical, WeaklySorted, KeyOf, GoodLabels, Same, NoTrailingSpace, Stripped;
    match bucket {
      case Empty =>
        def := None;
      case One(f) =>
        GoodIs(u, defs);
        assert ListOf(bucket)[0] == f;
        var cmp := CompareLabels(u, defs[f], query);
        NoTrailing(u, defs, f);
        SeenAsStripped(u, defs[f], query);
        def := if cmp == 0 then Some(f) else None;
      case Many(list) =>
        def := FindIn(u, defs, hashes, list, query, hash);
    }
  }

  /** The entry of a crowded bucket that has the query's hash and folds like the query without white space at its end. */
  method FindIn(u: Unicode, defs: seq<Label>, hashes: seq<nat>, list: seq<nat>, query: Label, hash: nat) returns (def: Option<nat>)
    requires GoodLabels(u, defs) && Within(defs, list) && WeaklySorted(u, defs, list) && hash == KeyOf(u, query).hash
    requires |hashes| == |defs| && forall k :: 0 <= k < |defs| ==> hashes[k] == KeyOf(u, defs[k]).hash
    ensures if def.Some? then def.value in list && Matches(u, defs, def.value, query, true)
            else forall x :: x in list ==> x < |defs| && !Matches(u, defs, x, query, true)
  {
    hide KeyOrder, WeaklySorted, KeyOf, GoodLabels, Same, NoTrailingSpace, Stripped, Matches;
    GoodIs(u, defs);
    var r := Search(u, defs, hashes, list, query, hash);
    forall k | 0 <= k < |list|
      ensures KeyOrder(KeyOf(u, query), KeyOf(u, defs[list[k]])) == 0 <==> Matches(u, defs, list[k], query, true)
    {
      NoTrailing(u, defs, list[k]);
      OrderIsMatch(u, defs, list[k], query);
    }
    def := if r.Some? then Some(list[r.value]) else None;
  }

  /** The definition's label compares equal to the query, in a list also by hash. */
  ghost predicate Matches(u: Unicode, defs: seq<Label>, x: nat, query: Label, crowded: bool) {
    && x < |defs| && Same(u, defs[x], Stripped(u, query))
    && (crowded ==> KeyOf(u, defs[x]).hash == KeyOf(u, query).hash)
  }

  lemma SeenAsStripped(u: Unicode, d: Label, query: Label)
    requires GoodUnicode(u) && NoTrailingSpace(u, d)
    ensures Difference(Canonical(u, d), Canonical(u, query), 0) == 0 <==> Same(u, d, Stripped(u, query))
  {
    TrailingUnseen(u, d, query);
  }

  lemma OrderIsMatch(u: Unicode, defs: seq<Label>, x: nat, query: Label)
    requires x < |defs| && GoodUnicode(u) && NoTrailingSpace(u, defs[x])
    ensures KeyOrder(KeyOf(u, query), KeyOf(u, defs[x])) == 0 <==> Matches(u, defs, x, query, true)
  {
    hide Canonical, Difference, MixAll;
    SeenAsStripped(u, defs[x], query);
    DifferenceFlips(Canonical(u, query), Canonical(u, defs[x]), 0);
  }

  /** What the bucket of the query's slot gives. */
  lemma FoundOrAstray(u: Unicode, defs: seq<Label>, size: nat, bucket: Bucket, query: Label, def: Option<nat>)
    requires size > 0 && Ready(u, defs, size, KeyOf(u, query).hash % size, ListOf(bucket))
    requires if def.Some? then def.value in ListOf(bucket) && Matches(u, defs, def.value, query, bucket.Many?)
             else forall x :: x in ListOf(bucket) ==> x < |defs| && !Matches(u, defs, x, query, bucket.Many?)
    ensures def == if Findable(u, size, bucket.Many?, query) then FirstDef(u, defs, Stripped(u, query), 0) else None
  {
    hide Ready, Same, FirstDef, KeyOf, Stripped;
    var wanted, slot := Stripped(u, query), KeyOf(u, query).hash % size;
    forall x | x in ListOf(bucket) ensures x < |defs| && KeyOf(u, defs[x]).hash % size == slot
      && (Same(u, defs[x], wanted) ==> KeyOf(u, defs[x]).hash == KeyOf(u, wanted).hash)
    {
      OfSlot(u, defs, size, slot, ListOf(bucket), x, wanted);
    }
    if Findable(u, size, bucket.Many?, query) {
      Found(u, defs, size, slot, ListOf(bucket), wanted, def);
    }
  }

  lemma OfSlot(u: Unicode, defs: seq<Label>, size: nat, slot: nat, l: seq<nat>, x: nat, wanted: Label)
    requires size > 0 && Ready(u, defs, size, slot, l) && x in l
    ensures x < |defs| && KeyOf(u, defs[x]).hash % size == slot
    ensures Same(u, defs[x], wanted) ==> KeyOf(u, defs[x]).hash == KeyOf(u, wanted).hash
  {
    assert InSlot(u, defs, size, slot, |defs|, x);
  }

  /** A query without white space at its end is always findable. */
  lemma LookupExact(u: Unicode, query: Label)
    ensures NoTrailingSpace(u, query) ==>
              Stripped(u, query) == query && forall size, crowded :: size > 0 ==> Findable(u, size, crowded, query)
  {
    hide KeyOf;
  }

  lemma GoodIs(u: Unicode, defs: seq<Label>)
    requires GoodLabels(u, defs)
    ensures GoodUnicode(u)
  {}

  lemma NoTrailing(u: Unicode, defs: seq<Label>, k: nat)
    requires GoodLabels(u, defs) && k < |defs|
    ensures GoodUnicode(u) && NoTrailingSpace(u, defs[k])
  {}

  lemma HashIs(u: Unicode, s: Label, h: bv32)
    requires h == MixAll(HASH_BASE, Canonical(u, s))
    ensures h as nat == KeyOf(u, s).hash
  {}

  lemma NoDefs(u: Unicode, defs: seq<Label>, query: Label)
    requires |defs| * 5 / 4 == 0
    ensures FirstDef(u, defs, query, 0) == None
  {}

  lemma ReadyParts(u: Unicode, defs: seq<Label>, size: nat, slot: nat, l: seq<nat>)
    requires size > 0 && Ready(u, defs, size, slot, l)
    ensures Within(defs, l) && WeaklySorted(u, defs, l) && forall x :: x in l ==> x < |defs|
  {}

  /** What the bucket gives is the first definition with the label. */
  lemma Found(u: Unicode, defs: seq<Label>, size: nat, slot: nat, l: seq<nat>, query: Label, def: Option<nat>)
    requires size > 0 && Ready(u, defs, size, slot, l) && slot == KeyOf(u, query).hash % size
    requires if def.Some? then def.value in l && def.value < |defs| && Same(u, defs[def.value], query)
             else forall x :: x in l ==> x < |defs| && !Same(u, defs[x], query)
    ensures def == FirstDef(u, defs, query, 0)
  {
    hide Same, Least, FirstDef, KeyOf, Ready, InSlot;
    FirstDefIs(u, defs, query);
    var first := FirstDef(u, defs, query, 0);
    if first.Some? {
      var k := first.value;
      SameSlot(u, defs, size, slot, query, k);
      var f := InBucket(u, defs, size, slot, l, k);
      SameChains(u, defs[f], defs[k], query);
      if def.Some? {
        SameFlips(u, defs[k], query);
        SameChains(u, defs[def.value], query, defs[k]);
        LeastInBucket(u, defs, size, slot, l, def.value, k);
      }
    }
  }

  lemma InBucket(u: Unicode, defs: seq<Label>, size: nat, slot: nat, l: seq<nat>, k: nat) returns (f: nat)
    requires size > 0 && Ready(u, defs, size, slot, l) && InSlot(u, defs, size, slot, |defs|, k) && k < |defs|
    ensures f in l && f < |defs| && Same(u, defs[f], defs[k])
  {
    hide Same, InSlot;
    assert Represented(u, defs, l, k);
    f :| f in l && f < |defs| && Same(u, defs[f], defs[k]);
  }

  lemma LeastInBucket(u: Unicode, defs: seq<Label>, size: nat, slot: nat, l: seq<nat>, x: nat, k: nat)
    requires size > 0 && Ready(u, defs, size, slot, l) && x in l && x < |defs|
    requires InSlot(u, defs, size, slot, |defs|, k) && k < |defs| && Same(u, defs[x], defs[k])
    ensures x <= k
  {
    hide Same, InSlot;
    assert Least(u, defs, size, slot, x);
  }

  lemma FirstDefIs(u: Unicode, defs: seq<Label>, query: Label)
    ensures var r := FirstDef(u, defs, query, 0);
            && (r.Some? ==> r.value < |defs| && Same(u, defs[r.value], query))
            && (forall k :: 0 <= k < |defs| && Same(u, defs[k], query) ==> r.Some? && r.value <= k)
  {}

  lemma SameSlot(u: Unicode, defs: seq<Label>, size: nat, slot: nat, query: Label, k: nat)
    requires size > 0 && k < |defs| && Same(u, defs[k], query) && slot == KeyOf(u, query).hash % size
    ensures InSlot(u, defs, size, slot, |defs|, k)
  {}

  // ----- a query that is missed -----

  /** ASCII without case: only the blank is white space, and everything folds to itself. */
  function Plain(): Unicode {
    Unicode(c => c == SPACE, c => [c])
  }

  /** Among the definitions a, b and c the query "a " is not findable, although a is its first definition. */
  lemma LookupCanMiss()
    ensures var u, defs: seq<Label>, query: Label := Plain(), [[97], [98], [99]], [97, SPACE];
      && GoodLabels(u, defs) && |defs| * 5 / 4 == 3
      && FirstDef(u, defs, Stripped(u, query), 0) == Some(0)
      && forall crowded :: !Findable(u, 3, crowded, query)
  {
    var u, query: Label := Plain(), [97, SPACE];
    assert query[..1] == [97];
    assert Stripped(u, query) == [97];
    PlainFolds(97);
    PlainHashes();
    TrailingSpace(u, query);
    hide MixAll;
    HashIs(u, [97], 0xf5e1d3e4);
    HashIs(u, query, 0x8ccc4c04);
  }

  lemma PlainFolds(c: nat)
    requires c != SPACE
    ensures Canonical(Plain(), [c]) == [c]
  {
    var one: Label := [c];
    assert one[1..] == [] && Folded(Plain(), []) == [];
    assert Plain().fold(c) == [c];
  }

  lemma PlainHashes()
    ensures MixAll(HASH_BASE, [97]) == 0xf5e1d3e4 && MixAll(HASH_BASE, [97, SPACE]) == 0x8ccc4c04
  {
    var one: Label, two: Label := [97], [97, SPACE];
    assert one[..0] == [] && two[..1] == one;
    assert MixAll(HASH_BASE, []) == HASH_BASE;
    FirstByte();
    SecondByte();
  }

  lemma FirstByte()
    ensures Mix(0x811c9dc5, 97) == 0xf5e1d3e4
  {
    AsWord(97, 0x61);
    assert MixByte(0x811c9dc5, 0x61) == 0xe40c292c;
    assert MixByte(0xe40c292c, 0x0) == 0x2b24d044;
    assert MixByte(0x2b24d044, 0x0) == 0x2ef3db0c;
    assert MixByte(0x2ef3db0c, 0x0) == 0xf5e1d3e4;
  }

  lemma SecondByte()
    ensures Mix(0xf5e1d3e4, SPACE) == 0x8ccc4c04
  {
    AsWord(32, 0x20);
    assert MixByte(0xf5e1d3e4, 0x20) == 0xd6805d8c;
    assert MixByte(0xd6805d8c, 0x0) == 0x38134364;
    assert MixByte(0x38134364, 0x0) == 0xaa53166c;
    assert MixByte(0xaa53166c, 0x0) == 0x8ccc4c04;
  }

  lemma AsWord(c: nat, w: bv32)
    requires (c == 97 && w == 0x61) || (c == 32 && w == 0x20)
    ensures (c % 0x1_0000_0000) as bv32 == w
    ensures w & 0xFF == w && (w >> 8) & 0xFF == 0 && (w >> 16) & 0xFF == 0 && w >> 24 == 0
  {
    var n := c % 0x1_0000_0000;
    assert n == c;
    SameWord(n, w);
  }

  lemma SameWord(n: nat, w: bv32)
    requires (n == 97 && w == 0x61) || (n == 32 && w == 0x20)
    ensures n < 0x1_0000_0000 && n as bv32 == w
  {
    assert n == w as nat;
  }
}
