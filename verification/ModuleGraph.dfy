/** The list of modules to start: which are enabled, their effective priorities, and their order. */
module ModuleGraph {
  import opened Wrappers
  import opened ModuleKeys

  /** A module's node in the configuration tree; an absent entry has its default. */
  datatype ModuleConfig = ModuleConfig(enabled: Option<bool>, priority: Option<int>, depends: Option<seq<string>>)

  datatype ModuleSlot = ModuleSlot(key: string, priority: int)

  const DEFAULT_PRIORITY: int := 100

  function OrElse<T>(o: Option<T>, default: T): T {
    if o.Some? then o.value else default
  }

  /** Network services have to be configured to be enabled; anything else is, unless it says not. */
  predicate Enabled(key: string, tree: map<string, ModuleConfig>) {
    if key in tree then OrElse(tree[key].enabled, true) else !("ve.service." <= key)
  }

  /** The configured priority, else the factory's own, else the default. */
  function BasePriority(key: string, factory: map<string, Option<int>>, tree: map<string, ModuleConfig>): int
    requires key in factory
  {
    var own := OrElse(factory[key], DEFAULT_PRIORITY);
    if key in tree then OrElse(tree[key].priority, own) else own
  }

  /** e is the largest base priority among a module and its enabled ancestors. */
  ghost predicate IsEffective(key: string, base: map<string, int>, e: int)
    requires key in base
  {
    && base[key] <= e
    && (forall a :: Ancestor(a, key) && a in base ==> base[a] <= e)
    && (e == base[key] || exists a :: Ancestor(a, key) && a in base && base[a] == e)
  }

  lemma EffectiveUnique(key: string, base: map<string, int>, e: int, e': int)
    requires key in base && IsEffective(key, base, e) && IsEffective(key, base, e')
    ensures e == e'
  {}

  /** A descendant's effective priority is at least its ancestor's. */
  lemma EffectiveMonotone(a: string, key: string, base: map<string, int>, ea: int, e: int)
    requires a in base && key in base && Ancestor(a, key)
    requires IsEffective(a, base, ea) && IsEffective(key, base, e)
    ensures ea <= e
  {
    if ea != base[a] {
      var b :| Ancestor(b, a) && b in base && base[b] == ea;
      AncestorTransitive(b, a, key);
    }
  }

  lemma {:induction false} AncestorTransitive(a: string, b: string, c: string)
    requires Ancestor(a, b) && Ancestor(b, c)
    ensures Ancestor(a, c)
    decreases |c|
  {
    if ParentKey(c) != b {
      AncestorTransitive(a, b, ParentKey(c));
    }
  }

  /** Raising a module to its nearest enabled ancestor's effective priority gives its own. */
  lemma InheritNearest(key: string, base: map<string, int>, up: int)
    requires key in base
    requires NearestIn(key, base.Keys).Some? ==> IsEffective(NearestIn(key, base.Keys).value, base, up)
    ensures IsEffective(key, base,
                        if NearestIn(key, base.Keys).Some? && base[key] < up then up else base[key])
  {
    var r := NearestIn(key, base.Keys);
    NearestIsNearest(key, base.Keys);
    if r.Some? && base[key] < up && up != base[r.value] {
      var b :| Ancestor(b, r.value) && b in base && base[b] == up;
      AncestorTransitive(b, r.value, key);
    }
  }

  /** The slots list exactly the enabled modules, once each, with effective priorities, sorted by
      priority and then by depth. */
  ghost predicate GoodSlots(slots: seq<ModuleSlot>, base: map<string, int>) {
    && (forall i, j :: 0 <= i < j < |slots| ==> slots[i].key != slots[j].key)
    && (forall i :: 0 <= i < |slots| ==> slots[i].key in base && IsEffective(slots[i].key, base, slots[i].priority))
    && (forall k :: k in base ==> exists i :: 0 <= i < |slots| && slots[i].key == k)
    && SortedBy(slots, SlotRank)
  }

  function SlotRank(s: ModuleSlot): Rank {
    (s.priority, KeyDepth(s.key))
  }

  /** The smaller priority first, and of equal ones the key with fewer dots. */
  ghost predicate InListingOrder(slots: seq<ModuleSlot>) {
    forall i, j :: 0 <= i < j < |slots| ==>
      && slots[i].priority <= slots[j].priority
      && (slots[i].priority == slots[j].priority ==> multiset(slots[i].key)['.'] <= multiset(slots[j].key)['.'])
  }

  lemma ListingOrder(slots: seq<ModuleSlot>)
    requires SortedBy(slots, SlotRank)
    ensures InListingOrder(slots)
  {
    forall i, j | 0 <= i < j < |slots|
      ensures slots[i].priority <= slots[j].priority
      ensures slots[i].priority == slots[j].priority ==> multiset(slots[i].key)['.'] <= multiset(slots[j].key)['.']
    {
      SortedAt(slots, SlotRank, i, j);
      DepthIsDots(slots[i].key);
      DepthIsDots(slots[j].key);
    }
  }

  function DepthRank(key: string): Rank {
    (KeyDepth(key), 0)
  }

  /** Therefore every module comes after all of its enabled ancestors. */
  lemma AncestorsFirst(slots: seq<ModuleSlot>, base: map<string, int>, i: nat, j: nat)
    requires GoodSlots(slots, base) && i < |slots| && j < |slots|
    requires Ancestor(slots[i].key, slots[j].key)
    ensures i < j
  {
    EffectiveMonotone(slots[i].key, slots[j].key, base, slots[i].priority, slots[j].priority);
    AncestorIsShallower(slots[i].key, slots[j].key);
    if j < i { SortedAt(slots, SlotRank, j, i); }
  }

  ghost function BasePriorities(factory: map<string, Option<int>>, tree: map<string, ModuleConfig>): map<string, int> {
    map k | k in factory && Enabled(k, tree) :: BasePriority(k, factory, tree)
  }

  /** A module is listed if and only if its configuration does not disable it, and a network service only if it has one. Its
      configured priority counts before the factory's, and that before 100. */
  ghost predicate Configured(base: map<string, int>, factory: map<string, Option<int>>, tree: map<string, ModuleConfig>) {
    && (forall k :: k in base <==>
          k in factory && (k in tree ==> tree[k].enabled != Some(false)) && ("ve.service." <= k ==> k in tree))
    && (forall k :: k in base && k in tree && tree[k].priority.Some? ==> base[k] == tree[k].priority.value)
    && (forall k :: k in base && (k in tree ==> tree[k].priority.None?) && factory[k].Some? ==> base[k] == factory[k].value)
    && (forall k :: k in base && (k in tree ==> tree[k].priority.None?) && factory[k].None? ==> base[k] == 100)
  }

  lemma BaseIsConfigured(factory: map<string, Option<int>>, tree: map<string, ModuleConfig>)
    ensures Configured(BasePriorities(factory, tree), factory, tree)
  {}

  /** The base priorities of the enabled modules. */
  method CollectBase(keys: seq<string>, factory: map<string, Option<int>>, tree: map<string, ModuleConfig>)
    returns (base: map<string, int>)
    requires forall k :: k in keys <==> k in factory
    ensures base == BasePriorities(factory, tree) && Configured(base, factory, tree)
  {
    base := map[];
    for i := 0 to |keys|
      invariant base == map k | k in keys[..i] && Enabled(k, tree) :: BasePriority(k, factory, tree)
    {
      if Enabled(keys[i], tree) {
        base := base[keys[i] := BasePriority(keys[i], factory, tree)];
      }
    }
    assert keys[..|keys|] == keys;
    assert base == BasePriorities(factory, tree);
    BaseIsConfigured(factory, tree);
  }

  /** Effective priorities, parents before children. */
  method Inherit(keys: seq<string>, base: map<string, int>) returns (eff: map<string, int>)
    requires SortedBy(keys, DepthRank) && forall k :: k in keys <==> k in base
    ensures eff.Keys == base.Keys && forall k :: k in eff ==> IsEffective(k, base, eff[k])
  {
    hide IsEffective, NearestIn, SortedBy;
    eff := map[];
    for i := 0 to |keys|
      invariant forall k :: k in eff <==> k in keys[..i]
      invariant forall k :: k in eff ==> k in base && IsEffective(k, base, eff[k])
    {
      var key := keys[i];
      assert key in base by { assert key in keys; }
      var own := base[key];
      ResolvedAncestors(keys, base, eff.Keys, i);
      var pk := FindNearest(key, eff.Keys);
      InheritNearest(key, base, if pk.Some? then eff[pk.value] else 0);
      if pk.Some? && own < eff[pk.value] {
        own := eff[pk.value];
      }
      eff := eff[key := own];
      assert keys[..i + 1] == keys[..i] + [key];
    }
    assert keys[..|keys|] == keys;
  }

  /** When keys are taken by depth, a key's ancestors are all resolved before it. */
  lemma ResolvedAncestors(keys: seq<string>, base: map<string, int>, done: set<string>, i: nat)
    requires SortedBy(keys, DepthRank) && (forall k :: k in keys <==> k in base)
    requires i < |keys| && forall k :: k in done <==> k in keys[..i]
    ensures NearestIn(keys[i], done) == NearestIn(keys[i], base.Keys)
  {
    forall a | Ancestor(a, keys[i]) ensures a in done <==> a in base {
      AncestorIsShallower(a, keys[i]);
      if a in base {
        var j := IndexOf(keys, a);
        if i < j { SortedAt(keys, DepthRank, i, j); }
        assert a == keys[..i][j];
      }
    }
    SameNearest(keys[i], done, base.Keys);
  }

  lemma {:induction false} SameNearest(key: string, s: set<string>, t: set<string>)
    requires forall a :: Ancestor(a, key) ==> (a in s <==> a in t)
    ensures NearestIn(key, s) == NearestIn(key, t)
    decreases |key|
  {
    var pk := ParentKey(key);
    if key != "" && pk != "" && pk !in s {
      assert Ancestor(pk, key);
      SameNearest(pk, s, t);
    }
  }

  /** The whole listing. The hash map's order of iteration is the parameter `order`. */
  method BuildModuleGraph(factoryKeys: seq<string>, factory: map<string, Option<int>>, tree: map<string, ModuleConfig>,
                          order: seq<string>)
    returns (slots: seq<ModuleSlot>)
    requires forall k :: k in factoryKeys <==> k in factory
    requires Distinct(order) && forall k :: k in order <==> k in BasePriorities(factory, tree)
    ensures GoodSlots(slots, BasePriorities(factory, tree)) && Configured(BasePriorities(factory, tree), factory, tree)
    ensures InListingOrder(slots)
  {
    hide IsEffective, StableSort, SortedBy, GoodSlots, BasePriorities, Distinct, Configured, InListingOrder;
    var base := CollectBase(factoryKeys, factory, tree);
    var keys := StableSort(order, DepthRank);
    StableSortCorrect(order, DepthRank);
    SamePermutation(order, keys);
    var eff := Inherit(keys, base);
    var listed: seq<ModuleSlot> := [];
    for i := 0 to |keys|
      invariant |listed| == i
      invariant forall j :: 0 <= j < i ==> keys[j] in eff && listed[j] == ModuleSlot(keys[j], eff[keys[j]])
    {
      assert keys[i] in keys;
      listed := listed + [ModuleSlot(keys[i], eff[keys[i]])];
    }
    slots := StableSort(listed, SlotRank);
    StableSortCorrect(listed, SlotRank);
    SlotsListed(listed, slots, keys, base);
    ListingOrder(slots);
  }

  /** A rearrangement of distinct elements has the same elements, still distinct. */
  lemma SamePermutation<T>(s: seq<T>, t: seq<T>)
    requires Distinct(s) && multiset(s) == multiset(t)
    ensures Distinct(t) && forall x :: x in s <==> x in t
  {
    forall x ensures x in s <==> x in t {
      assert x in s <==> x in multiset(s);
      assert x in t <==> x in multiset(t);
    }
    forall i, j | 0 <= i < j < |t| ensures t[i] != t[j] {
      if t[i] == t[j] {
        TwiceCounted(t, i, j);
        OnceCounted(s, t[i]);
      }
    }
  }

  lemma TwiceCounted<T>(t: seq<T>, i: nat, j: nat)
    requires i < j < |t| && t[i] == t[j]
    ensures multiset(t)[t[i]] >= 2
  {
    assert t == t[..i + 1] + t[i + 1..];
    assert t[i] in multiset(t[..i + 1]) by { assert t[..i + 1][i] == t[i]; }
    assert t[j] in multiset(t[i + 1..]) by { assert t[i + 1..][j - i - 1] == t[j]; }
  }

  lemma {:induction false} OnceCounted<T>(s: seq<T>, x: T)
    requires Distinct(s)
    ensures multiset(s)[x] <= 1
  {
    if s != [] {
      var init, last := s[..|s| - 1], s[|s| - 1];
      assert s == init + [last];
      OnceCounted(init, x);
      forall i | 0 <= i < |init| ensures init[i] != last {
        assert s[i] != s[|s| - 1];
      }
      if x == last { assert x !in init; }
    }
  }

  lemma SlotsListed(listed: seq<ModuleSlot>, slots: seq<ModuleSlot>, keys: seq<string>, base: map<string, int>)
    requires |listed| == |keys| && Distinct(keys) && forall k :: k in keys <==> k in base
    requires forall i :: 0 <= i < |keys| ==> listed[i].key == keys[i] && keys[i] in base
                                              && IsEffective(keys[i], base, listed[i].priority)
    requires multiset(slots) == multiset(listed) && SortedBy(slots, SlotRank)
    ensures GoodSlots(slots, base)
  {
    hide IsEffective, SortedBy;
    ListedDistinct(listed, keys);
    SamePermutation(listed, slots);
    KeysDistinct(listed, slots, keys);
    forall i | 0 <= i < |slots|
      ensures slots[i].key in base && IsEffective(slots[i].key, base, slots[i].priority)
    {
      var m := IndexOf(listed, slots[i]);
      assert listed[m].key == keys[m];
    }
    forall k | k in base ensures exists i :: 0 <= i < |slots| && slots[i].key == k {
      var m := IndexOf(keys, k);
      assert listed[m].key == k && listed[m] in slots;
      var i := IndexOf(slots, listed[m]);
    }
  }

  lemma ListedDistinct(listed: seq<ModuleSlot>, keys: seq<string>)
    requires |listed| == |keys| && Distinct(keys)
    requires forall i :: 0 <= i < |keys| ==> listed[i].key == keys[i]
    ensures Distinct(listed)
  {
    forall i, j | 0 <= i < j < |listed| ensures listed[i] != listed[j] {
      assert keys[i] != keys[j];
    }
  }

  lemma IndexOf<T>(s: seq<T>, x: T) returns (i: nat)
    requires x in s
    ensures i < |s| && s[i] == x
  {
    i :| 0 <= i < |s| && s[i] == x;
  }

  lemma KeysDistinct(listed: seq<ModuleSlot>, slots: seq<ModuleSlot>, keys: seq<string>)
    requires |listed| == |keys| && Distinct(keys) && Distinct(slots)
    requires forall i :: 0 <= i < |keys| ==> listed[i].key == keys[i]
    requires forall x :: x in slots ==> x in listed
    ensures forall i, j :: 0 <= i < j < |slots| ==> slots[i].key != slots[j].key
  {
    forall i, j | 0 <= i < j < |slots| ensures slots[i].key != slots[j].key {
      var m := IndexOf(listed, slots[i]);
      var n := IndexOf(listed, slots[j]);
      assert slots[i] != slots[j];
      assert listed[m].key == keys[m] && listed[n].key == keys[n];
    }
  }
}
