/** A set of node addresses in a power-of-two table, probed at triangular distances. */
module ProbedSet {
  import Graphs
  import opened Powers

  // ----- triangular probing -----

  function Triangle(i: nat): nat {
    if i == 0 then 0 else Triangle(i - 1) + i
  }

  function Probe(h: nat, i: nat, size: nat): (r: nat)
    requires size > 0
    ensures r < size
  {
    (h + Triangle(i)) % size
  }

  lemma {:induction false} TwiceTriangle(i: nat)
    ensures 2 * Triangle(i) == i * (i + 1)
  {
    if i > 0 {
      TwiceTriangle(i - 1);
      assert i * (i + 1) == (i - 1) * i + 2 * i;
    }
  }

  lemma SplitProduct(i: nat, j: nat)
    ensures j * (j + 1) - i * (i + 1) == (j - i) * (j + i + 1)
  {
    assert j * (j + 1) - i * (i + 1) == j * j + j - i * i - i;
    assert (j - i) * (j + i + 1) == j * j + j * i + j - i * j - i * i - i;
  }

  /** A power of two that divides a product with an odd factor divides the other factor. */
  lemma {:induction false} OddFactor(m: nat, a: nat, b: nat, q: nat) returns (r: nat)
    requires a % 2 == 1 && a * b == Pow(2, m) * q
    ensures b == Pow(2, m) * r
  {
    hide Pow;
    PowZero(2);
    if m == 0 {
      r := b;
    } else {
      var p := Pow(2, m - 1);
      PowStep(2, m - 1);
      Regroup(p, q);
      EvenFactor(a, b, p * q);
      var c := b / 2;
      HalveProduct(a, b, c, p * q);
      r := OddFactor(m - 1, a, c, q);
      Regroup(p, r);
    }
  }

  lemma Regroup(p: nat, q: nat)
    ensures (2 * p) * q == 2 * (p * q)
  {}

  lemma HalveProduct(a: nat, b: nat, c: nat, x: nat)
    requires b == 2 * c && a * b == 2 * x
    ensures a * c == x
  {
    assert a * b == 2 * (a * c);
  }

  lemma EvenFactor(a: nat, b: nat, x: nat)
    requires a % 2 == 1 && a * b == 2 * x
    ensures b % 2 == 0
  {
    var k := a / 2;
    assert a == 2 * k + 1;
    assert a * b == 2 * (k * b) + b;
  }

  lemma SmallMultiple(d: nat, x: nat, q: nat)
    requires 0 < x < d
    ensures x != d * q
  {
    if q > 0 { assert d * q >= d; }
  }

  /** Equal remainders differ by a multiple. */
  lemma SameRemainder(x: nat, y: nat, d: nat) returns (q: nat)
    requires d > 0 && x <= y && x % d == y % d
    ensures y - x == d * q
  {
    var a, b := x / d, y / d;
    QuotientsOrdered(x, y, d, a, b, x % d, d * a, d * b);
    q := b - a;
    Distribute(d, a, b);
  }

  lemma Distribute(d: nat, a: nat, b: nat)
    requires a <= b
    ensures d * (b - a) == d * b - d * a
  {}

  lemma QuotientsOrdered(x: nat, y: nat, d: nat, a: nat, b: nat, r: nat, da: nat, db: nat)
    requires d > 0 && x <= y && da == d * a && db == d * b && x == da + r && y == db + r
    ensures a <= b
  {
    ProductGap(d, b, a);
  }

  lemma ProductGap(d: nat, b: nat, a: nat)
    ensures b < a ==> d * a >= d * b + d
  {
    if b < a {
      Expand(d, b, a - b - 1);
    }
  }

  lemma Expand(d: nat, b: nat, k: nat)
    ensures d * (b + 1 + k) == d * b + d + d * k && d * k >= 0
  {}

  /** The first `size` probes of a power-of-two table all differ. */
  lemma ProbesDiffer(h: nat, i: nat, j: nat, m: nat)
    requires i < j < Pow(2, m)
    ensures Probe(h, i, Pow(2, m)) != Probe(h, j, Pow(2, m))
  {
    hide Pow, Triangle;
    var size := Pow(2, m);
    if (h + Triangle(i)) % size == (h + Triangle(j)) % size {
      TriangleGrows(i, j);
      var q := SameRemainder(h + Triangle(i), h + Triangle(j), size);
      NotFar(i, j, m, q);
    }
  }

  lemma NotFar(i: nat, j: nat, m: nat, q: nat)
    requires i < j < Pow(2, m)
    ensures Triangle(j) - Triangle(i) != Pow(2, m) * q
  {
    hide Pow, Triangle;
    if Triangle(j) - Triangle(i) == Pow(2, m) * q {
      TwiceTriangle(i);
      TwiceTriangle(j);
      SplitProduct(i, j);
      PowStep(2, m);
      Regroup(Pow(2, m), q);
      var a, b := j - i, j + i + 1;
      assert a * b == Pow(2, m + 1) * q;
      var r;
      if a % 2 == 1 {
        r := OddFactor(m + 1, a, b, q);
        SmallMultiple(Pow(2, m + 1), b, r);
      } else {
        assert b * a == a * b;
        r := OddFactor(m + 1, b, a, q);
        SmallMultiple(Pow(2, m + 1), a, r);
      }
    }
  }

  lemma {:induction false} TriangleGrows(i: nat, j: nat)
    requires i <= j
    ensures Triangle(i) <= Triangle(j)
  {
    if i < j {
      TriangleGrows(i, j - 1);
    }
  }

  ghost function Visited(h: nat, n: nat, size: nat): (r: set<nat>)
    requires size > 0
    ensures forall x :: x in r <==> exists i: nat :: i < n && Probe(h, i, size) == x
    ensures forall x :: x in r ==> x < size
  {
    if n == 0 then {} else Visited(h, n - 1, size) + {Probe(h, n - 1, size)}
  }

  lemma {:induction false} VisitedSize(h: nat, n: nat, m: nat)
    requires n <= Pow(2, m)
    ensures |Visited(h, n, Pow(2, m))| == n
  {
    hide Probe, Pow;
    var size := Pow(2, m);
    if n > 0 {
      VisitedSize(h, n - 1, m);
      NotVisited(h, n - 1, m);
    }
  }

  lemma NotVisited(h: nat, n: nat, m: nat)
    requires n < Pow(2, m)
    ensures Probe(h, n, Pow(2, m)) !in Visited(h, n, Pow(2, m))
  {
    hide Probe, Pow, Visited;
    var size := Pow(2, m);
    forall i: nat | i < n ensures Probe(h, i, size) != Probe(h, n, size) {
      ProbesDiffer(h, i, n, m);
    }
  }

  /** And together they reach every slot. */
  lemma ProbesReachAll(h: nat, m: nat, s: nat) returns (i: nat)
    requires s < Pow(2, m)
    ensures i < Pow(2, m) && Probe(h, i, Pow(2, m)) == s
  {
    var size := Pow(2, m);
    var v := Visited(h, size, size);
    VisitedSize(h, size, m);
    assert v <= Graphs.Below(size);
    assert Graphs.Below(size) == v + (Graphs.Below(size) - v);
    assert s in v;
    i :| i < size && Probe(h, i, size) == s;
  }

  // ----- inserting -----

  /** The address of a node or attribute; 0 is the null pointer and marks an empty slot. */
  type Key = bv64

  function Hash(key: Key): nat {
    Murmur((key & 0xFFFF_FFFF) as bv32) as nat
  }

  /** The 32-bit finaliser of MurmurHash3. */
  function Murmur(key: bv32): bv32 {
    var a: bv32 := (key ^ (key >> 16)) * 0x85ebca6b;
    var b: bv32 := (a ^ (a >> 13)) * 0xc2b2ae35;
    b ^ (b >> 16)
  }

  ghost predicate Reaches(table: seq<Key>, key: Key, i: nat)
    requires |table| > 0
  {
    table[Probe(Hash(key), i, |table|)] == key && forall j: nat :: j < i ==> table[Probe(Hash(key), j, |table|)] != 0
  }

  /** Every stored key is found by probing, before any empty slot. */
  ghost predicate Placed(table: seq<Key>) {
    |table| > 0 && forall s :: 0 <= s < |table| && table[s] != 0 ==> exists i :: 0 <= i < |table| && Reaches(table, table[s], i)
  }

  ghost function Keys(table: seq<Key>): set<Key> {
    set s | 0 <= s < |table| && table[s] != 0 :: table[s]
  }

  ghost function Free(table: seq<Key>): set<nat> {
    set s: nat | s < |table| && table[s] == 0
  }

  method HashInsert(table: array<Key>, key: Key, ghost m: nat) returns (inserted: bool)
    requires key != 0 && table.Length == Pow(2, m) && Placed(table[..]) && Free(table[..]) != {}
    modifies table
    ensures inserted <==> key !in old(Keys(table[..]))
    ensures Placed(table[..]) && Keys(table[..]) == old(Keys(table[..])) + {key}
    ensures |Free(table[..])| == old(|Free(table[..])|) - (if inserted then 1 else 0)
  {
    hide Pow, Hash, Reaches, Placed, Probe;
    var size := table.Length;
    var h := Hash(key);
    ghost var t := table[..];
    StartProbe(h, size);
    var bucket := h % size;
    var probe := 0;
    while probe < size
      invariant probe <= size && table[..] == t
      invariant probe < size ==> bucket == Probe(h, probe, size)
      invariant forall j: nat :: j < probe ==> t[Probe(h, j, size)] != 0 && t[Probe(h, j, size)] != key
    {
      if table[bucket] == 0 {
        NotYetIn(t, key, probe);
        PutKeeps(t, key, probe);
        table[bucket] := key;
        assert table[..] == t[bucket := key];
        return true;
      }
      if table[bucket] == key {
        AlreadyIn(t, key, bucket);
        return false;
      }
      NextProbe(h, probe, size);
      bucket := (bucket + probe + 1) % size;
      probe := probe + 1;
    }
    FreeReached(t, h, m);
    assert false;
  }

  lemma StartProbe(h: nat, size: nat)
    requires size > 0
    ensures h % size == Probe(h, 0, size)
  {
    assert Triangle(0) == 0;
  }

  /** Each probe moves one slot further than the last. */
  lemma NextProbe(h: nat, i: nat, size: nat)
    requires size > 0
    ensures (Probe(h, i, size) + i + 1) % size == Probe(h, i + 1, size)
  {
    AddRemainder(h + Triangle(i), i + 1, size);
  }

  lemma AddRemainder(x: nat, y: nat, d: nat)
    requires d > 0
    ensures (x % d + y) % d == (x + y) % d
  {
    var q, r := x / d, x % d;
    assert x == d * q + r;
    ShiftByMultiple(r + y, d, q);
  }

  lemma {:induction false} ShiftByMultiple(x: nat, d: nat, q: nat)
    requires d > 0
    ensures (x + d * q) % d == x % d
  {
    if q > 0 {
      ShiftByMultiple(x, d, q - 1);
      Expand(d, q - 1, 0);
      ShiftOnce(x + d * (q - 1), d);
    }
  }

  lemma ShiftOnce(x: nat, d: nat)
    requires d > 0
    ensures (x + d) % d == x % d
  {
    var q, r := x / d, x % d;
    assert x == d * q + r;
    Expand(d, q, 0);
    RemainderIs(x + d, d, q + 1, r, d * (q + 1));
  }

  lemma RemainderIs(x: nat, d: nat, q: nat, r: nat, dq: nat)
    requires r < d && dq == d * q && x == dq + r
    ensures x % d == r
  {
    var a, b := x / d, x % d;
    assert x == d * a + b;
    ProductGap(d, q, a);
    ProductGap(d, a, q);
  }

  /** A free slot is probed within the first `size` probes. */
  lemma FreeReached(t: seq<Key>, h: nat, m: nat)
    requires |t| == Pow(2, m) && Free(t) != {}
    ensures exists j: nat :: j < |t| && t[Probe(h, j, |t|)] == 0
  {
    hide Pow, Probe;
    var s: nat :| s in Free(t);
    var i := ProbesReachAll(h, m, s);
  }

  lemma NotYetIn(t: seq<Key>, key: Key, probe: nat)
    requires Placed(t) && key != 0 && t[Probe(Hash(key), probe, |t|)] == 0
    requires forall j: nat :: j < probe ==> t[Probe(Hash(key), j, |t|)] != key
    ensures key !in Keys(t)
  {
    hide Probe, Hash;
  }

  lemma AlreadyIn(t: seq<Key>, key: Key, s: nat)
    requires s < |t| && t[s] == key != 0
    ensures key in Keys(t) && Keys(t) == Keys(t) + {key}
  {}

  lemma PutKeeps(t: seq<Key>, key: Key, probe: nat)
    requires Placed(t) && key != 0 && probe < |t| && t[Probe(Hash(key), probe, |t|)] == 0
    requires forall j: nat :: j < probe ==> t[Probe(Hash(key), j, |t|)] != 0
    ensures var u := t[Probe(Hash(key), probe, |t|) := key];
            Placed(u) && Keys(u) == Keys(t) + {key} && |Free(u)| == |Free(t)| - 1
  {
    hide Probe, Hash, Reaches, Keys, Free, Placed;
    PutPlaced(t, key, probe);
    PutCounts(t, key, Probe(Hash(key), probe, |t|));
  }

  lemma PutPlaced(t: seq<Key>, key: Key, probe: nat)
    requires Placed(t) && key != 0 && probe < |t| && t[Probe(Hash(key), probe, |t|)] == 0
    requires forall j: nat :: j < probe ==> t[Probe(Hash(key), j, |t|)] != 0
    ensures Placed(t[Probe(Hash(key), probe, |t|) := key])
  {
    hide Probe, Hash, Reaches;
    var b := Probe(Hash(key), probe, |t|);
    var u := t[b := key];
    forall s | 0 <= s < |u| && u[s] != 0 ensures exists i :: 0 <= i < |u| && Reaches(u, u[s], i) {
      if s == b {
        ReachesNew(t, key, probe, b);
      } else {
        var i :| 0 <= i < |t| && Reaches(t, t[s], i);
        ReachesStill(t, key, b, t[s], i);
      }
    }
  }

  lemma ReachesNew(t: seq<Key>, key: Key, probe: nat, b: nat)
    requires b < |t| && key != 0 && b == Probe(Hash(key), probe, |t|)
    requires forall j: nat :: j < probe ==> t[Probe(Hash(key), j, |t|)] != 0
    ensures Reaches(t[b := key], key, probe)
  {
    hide Probe, Hash;
  }

  lemma ReachesStill(t: seq<Key>, key: Key, b: nat, k: Key, i: nat)
    requires b < |t| && t[b] == 0 && key != 0 && k != 0 && Reaches(t, k, i)
    ensures Reaches(t[b := key], k, i)
  {
    hide Probe, Hash;
  }

  lemma PutCounts(t: seq<Key>, key: Key, b: nat)
    requires b < |t| && t[b] == 0 && key != 0
    ensures Keys(t[b := key]) == Keys(t) + {key} && |Free(t[b := key])| == |Free(t)| - 1
  {
    var u := t[b := key];
    forall k ensures k in Keys(u) <==> k in Keys(t) || k == key {
      if k in Keys(t) {
        var s :| 0 <= s < |t| && t[s] == k && t[s] != 0;
        assert u[s] == k;
      }
      assert u[b] == key;
    }
    assert Free(t) == Free(u) + {b};
  }

  // ----- removing duplicates -----

  /** An XPath node: a tree node, or an attribute of one. */
  datatype XNode = XNode(node: Key, attr: Key)

  function KeyOf(x: XNode): Key {
    if x.attr != 0 then x.attr else x.node
  }

  ghost predicate Seen(s: seq<XNode>, key: Key) {
    exists i :: 0 <= i < |s| && KeyOf(s[i]) == key
  }

  /** The nodes of s that are not null and whose address did not occur before, in order. */
  ghost function FirstOccurrences(s: seq<XNode>): seq<XNode> {
    if s == [] then [] else
      var init, last := s[..|s| - 1], s[|s| - 1];
      FirstOccurrences(init) + (if KeyOf(last) != 0 && !Seen(init, KeyOf(last)) then [last] else [])
  }

  ghost predicate KeysDiffer(r: seq<XNode>) {
    forall i, j :: 0 <= i < j < |r| ==> KeyOf(r[i]) != KeyOf(r[j])
  }

  ghost predicate SameKeys(r: seq<XNode>, s: seq<XNode>) {
    forall key :: key != 0 ==> (Seen(r, key) <==> Seen(s, key))
  }

  ghost predicate TakenFrom(r: seq<XNode>, s: seq<XNode>) {
    forall x :: x in r ==> x in s && KeyOf(x) != 0
  }

  /** Every address is kept once, and only nodes that occur. */
  lemma {:induction false} OccurrencesAreUnique(s: seq<XNode>)
    ensures KeysDiffer(FirstOccurrences(s)) && SameKeys(FirstOccurrences(s), s) && TakenFrom(FirstOccurrences(s), s)
  {
    if s != [] {
      var init, last := s[..|s| - 1], s[|s| - 1];
      OccurrencesAreUnique(init);
      var f, r := FirstOccurrences(init), FirstOccurrences(s);
      assert s == init + [last];
      assert r == if KeyOf(last) != 0 && !Seen(init, KeyOf(last)) then f + [last] else f;
      forall key | key != 0 ensures Seen(r, key) <==> Seen(s, key) {
        SeenAppend(init, last, key);
        SeenAppend(f, last, key);
      }
      forall i, j | 0 <= i < j < |r| ensures KeyOf(r[i]) != KeyOf(r[j]) {
        assert f[i] in f && Seen(f, KeyOf(f[i]));
        assert Seen(init, KeyOf(f[i]));
      }
    }
  }

  lemma SeenAppend(s: seq<XNode>, x: XNode, key: Key)
    ensures Seen(s + [x], key) <==> Seen(s, key) || KeyOf(x) == key
  {
    if Seen(s, key) {
      var i :| 0 <= i < |s| && KeyOf(s[i]) == key;
      assert (s + [x])[i] == s[i];
    }
    assert (s + [x])[|s|] == x;
  }

  /** No address stands for two nodes: an attribute's address belongs to one element and is no tree node's. */
  ghost predicate AddressesTell(s: seq<XNode>) {
    forall i, j :: 0 <= i < |s| && 0 <= j < |s| && s[i].attr != 0 ==>
      s[i].attr != s[j].node && (s[i].attr == s[j].attr ==> s[i] == s[j])
  }

  /** r lists, in order, the elements of s at the places `at`: all those that are not null and are not among the earlier ones. */
  ghost predicate AreFirsts(s: seq<XNode>, r: seq<XNode>, at: seq<nat>) {
    && |r| == |at| && (forall i, j :: 0 <= i < j < |at| ==> at[i] < at[j])
    && (forall j :: 0 <= j < |at| ==> at[j] < |s| && r[j] == s[at[j]] && s[at[j]] != XNode(0, 0) && s[at[j]] !in s[..at[j]])
    && (forall p: nat :: p < |s| && s[p] != XNode(0, 0) && s[p] !in s[..p] ==> p in at)
  }

  lemma SeenMeans(s: seq<XNode>, x: XNode)
    requires AddressesTell(s + [x])
    ensures KeyOf(x) != 0 <==> x != XNode(0, 0)
    ensures Seen(s, KeyOf(x)) && KeyOf(x) != 0 <==> x in s && x != XNode(0, 0)
  {
    var t := s + [x];
    assert t[|s|] == x;
    forall i | 0 <= i < |s| && KeyOf(s[i]) == KeyOf(x) ensures s[i] == x {
      assert t[i] == s[i];
    }
    if x in s {
      var i :| 0 <= i < |s| && s[i] == x;
    }
  }

  /** Keeping the first occurrence of each address keeps the first occurrence of each node and attribute. */
  lemma {:induction false} OccurrencesAreFirsts(s: seq<XNode>) returns (at: seq<nat>)
    requires AddressesTell(s)
    ensures AreFirsts(s, FirstOccurrences(s), at)
  {
    if s == [] {
      at := [];
    } else {
      var init, last := s[..|s| - 1], s[|s| - 1];
      assert s == init + [last];
      at := OccurrencesAreFirsts(init);
      SeenMeans(init, last);
      FirstsNext(init, FirstOccurrences(init), at, last);
      at := if last != XNode(0, 0) && last !in init then at + [|init|] else at;
    }
  }

  lemma FirstsNext(s: seq<XNode>, r: seq<XNode>, at: seq<nat>, x: XNode)
    requires AreFirsts(s, r, at)
    ensures if x != XNode(0, 0) && x !in s then AreFirsts(s + [x], r + [x], at + [|s|]) else AreFirsts(s + [x], r, at)
  {
    var t := s + [x];
    assert t[..|s|] == s;
    forall p: nat | p < |s| ensures t[p] == s[p] && t[..p] == s[..p] {}
    if x != XNode(0, 0) && x !in s {
      forall p: nat | p < |t| && t[p] != XNode(0, 0) && t[p] !in t[..p] ensures p in at + [|s|] {
        if p < |s| { assert p in at; }
      }
    }
  }

  /** The table size: the first power of two with room for half as many again. */
  method TableSize(need: nat) returns (size: nat, ghost m: nat)
    ensures size == Pow(2, m) && size >= need
  {
    hide Pow;
    PowZero(2);
    size, m := 1, 0;
    while size < need
      invariant size == Pow(2, m) && size > 0
      decreases need - size
    {
      PowStep(2, m);
      size, m := size * 2, m + 1;
    }
  }

  /** The large unsorted case: keeps exactly the first occurrence of each node, compacting the array in place;
      the hash table never fills up. */
  method RemoveByHash(a: array<XNode>) returns (end: nat)
    requires a.Length > 2
    modifies a
    ensures end <= a.Length && a[..end] == FirstOccurrences(old(a[..]))
  {
    hide Pow, Placed, Free, Keys, FirstOccurrences, Seen;
    var size, m := TableSize(a.Length + a.Length / 2);
    var table := new Key[size](_ => 0);
    EmptyTable(table[..]);
    ghost var s := a[..];
    var write, it := 0, 0;
    NothingSeen();
    while it < a.Length
      invariant write <= it <= a.Length && a[it..] == s[it..] && fresh(table)
      invariant table.Length == Pow(2, m) && Placed(table[..]) && |Free(table[..])| >= size - it
      invariant forall key :: key != 0 ==> (key in Keys(table[..]) <==> Seen(s[..it], key))
      invariant a[..write] == FirstOccurrences(s[..it])
    {
      var x := a[it];
      assert x == s[it] by { assert a[it..][0] == s[it..][0]; }
      ghost var before := s[..it];
      assert s[..it + 1] == before + [x];
      NextOccurrence(before, x);
      var fits := false;
      if KeyOf(x) != 0 {
        fits := HashInsert(table, KeyOf(x), m);
      }
      if fits {
        Compact(a[..], s, write, it);
        a[write] := x;
        write := write + 1;
      } else {
        assert a[it + 1..] == a[it..][1..] && s[it + 1..] == s[it..][1..];
      }
      it := it + 1;
    }
    assert s[..a.Length] == s;
    end := write;
  }

  lemma EmptyTable(t: seq<Key>)
    requires |t| > 0 && forall i :: 0 <= i < |t| ==> t[i] == 0
    ensures Placed(t) && Keys(t) == {} && |Free(t)| == |t|
  {
    assert Free(t) == Graphs.Below(|t|);
  }

  lemma NothingSeen()
    ensures FirstOccurrences([]) == [] && forall key :: !Seen([], key)
  {}

  lemma NextOccurrence(s: seq<XNode>, x: XNode)
    ensures FirstOccurrences(s + [x]) == FirstOccurrences(s) + (if KeyOf(x) != 0 && !Seen(s, KeyOf(x)) then [x] else [])
    ensures forall key :: Seen(s + [x], key) <==> Seen(s, key) || KeyOf(x) == key
  {
    assert (s + [x])[..|s|] == s;
    forall key ensures Seen(s + [x], key) <==> Seen(s, key) || KeyOf(x) == key {
      SeenAppend(s, x, key);
    }
  }

  lemma Compact(b: seq<XNode>, s: seq<XNode>, write: nat, it: nat)
    requires write <= it < |b| && |s| == |b| && b[it..] == s[it..]
    ensures var c := b[write := b[it]];
            c[..write + 1] == b[..write] + [b[it]] && c[it + 1..] == s[it + 1..]
  {
    assert b[it + 1..] == b[it..][1..] && s[it + 1..] == s[it..][1..];
  }
}
