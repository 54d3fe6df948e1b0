/** Starting and stopping the modules: who is told what, in which order. */
module ModuleLifecycle {
  import opened Wrappers
  import opened ModuleKeys
  import opened ModuleGraph
  import opened Graphs
  import opened DependencyOrder

  datatype Event = Init(key: string) | Ready(key: string) | Deinit(key: string) | Delete(key: string)

  datatype State = NONE | SETUP | INIT | READY | RUNNING | SHUTDOWN

  /** A slot whose instance may be missing, when the factory made none. */
  datatype LiveSlot = LiveSlot(slot: ModuleSlot, created: bool)

  /** What the factories and the configuration tree hold, and the hash map's order of iteration. */
  datatype Setup = Setup(factoryKeys: seq<string>, factory: map<string, Option<int>>, tree: map<string, ModuleConfig>,
                         order: seq<string>, creatable: set<string>)

  ghost predicate GoodSetup(s: Setup) {
    && (forall k :: k in s.factoryKeys <==> k in s.factory)
    && Distinct(s.order) && (forall k :: k in s.order <==> k in BasePriorities(s.factory, s.tree))
  }

  // ----- traces -----

  /** One event for each created module, from first to last. */
  ghost function Forward(live: seq<LiveSlot>, event: string -> Event): seq<Event> {
    if live == [] then [] else
      Forward(live[..|live| - 1], event) + (if live[|live| - 1].created then [event(live[|live| - 1].slot.key)] else [])
  }

  /** One event for each created module, from last to first. */
  ghost function Backward(live: seq<LiveSlot>, event: string -> Event): seq<Event> {
    if live == [] then [] else
      (if live[|live| - 1].created then [event(live[|live| - 1].slot.key)] else []) + Backward(live[..|live| - 1], event)
  }

  lemma BackwardLast(live: seq<LiveSlot>, i: nat, event: string -> Event)
    requires i < |live|
    ensures Backward(live[..i + 1], event) == (if live[i].created then [event(live[i].slot.key)] else []) + Backward(live[..i], event)
  {
    assert live[..i + 1][..i] == live[..i];
  }

  lemma BackwardEmpty(event: string -> Event)
    ensures Backward([], event) == []
  {}

  ghost function InitEvent(): string -> Event { k => Init(k) }
  ghost function ReadyEvent(): string -> Event { k => Ready(k) }
  ghost function DeinitEvent(): string -> Event { k => Deinit(k) }
  ghost function DeleteEvent(): string -> Event { k => Delete(k) }

  ghost predicate Injective(event: string -> Event) {
    forall a, b :: event(a) == event(b) ==> a == b
  }

  ghost predicate DistinctLive(live: seq<LiveSlot>) {
    forall i, j :: 0 <= i < j < |live| ==> live[i].slot.key != live[j].slot.key
  }

  /** In `log`, a occurs exactly once, b occurs exactly once, and a before b. */
  ghost predicate OnceBefore(log: seq<Event>, a: Event, b: Event) {
    exists i, j :: 0 <= i < j < |log| && log[i] == a && log[j] == b
                   && (forall k :: 0 <= k < |log| && log[k] == a ==> k == i)
                   && (forall k :: 0 <= k < |log| && log[k] == b ==> k == j)
  }

  lemma OnceBeforeAppend(log: seq<Event>, more: seq<Event>, a: Event, b: Event)
    requires OnceBefore(log, a, b) && a !in more && b !in more
    ensures OnceBefore(log + more, a, b) && OnceBefore(more + log, a, b)
  {
    var i, j :| 0 <= i < j < |log| && log[i] == a && log[j] == b
                && (forall k :: 0 <= k < |log| && log[k] == a ==> k == i)
                && (forall k :: 0 <= k < |log| && log[k] == b ==> k == j);
    var l, r := log + more, more + log;
    OnceAt(l, a, b, i, j);
    assert r[|more| + i] == a && r[|more| + j] == b;
    forall k | 0 <= k < |r| && r[k] == a ensures k == |more| + i { assert k >= |more| ==> r[k] == log[k - |more|]; }
    forall k | 0 <= k < |r| && r[k] == b ensures k == |more| + j { assert k >= |more| ==> r[k] == log[k - |more|]; }
    OnceAt(r, a, b, |more| + i, |more| + j);
  }

  lemma OnceAt(log: seq<Event>, a: Event, b: Event, i: nat, j: nat)
    requires i < j < |log| && log[i] == a && log[j] == b
    requires forall k :: 0 <= k < |log| && log[k] == a ==> k == i
    requires forall k :: 0 <= k < |log| && log[k] == b ==> k == j
    ensures OnceBefore(log, a, b)
  {}

  lemma {:induction false} ForwardMembers(live: seq<LiveSlot>, event: string -> Event)
    requires Injective(event)
    ensures forall k :: event(k) in Forward(live, event) <==> exists i :: 0 <= i < |live| && live[i].created && live[i].slot.key == k
    ensures forall e :: e in Forward(live, event) ==> exists k :: e == event(k)
  {
    if live != [] {
      var init, last := live[..|live| - 1], live[|live| - 1];
      ForwardMembers(init, event);
      assert forall i :: 0 <= i < |init| ==> init[i] == live[i];
    }
  }

  lemma {:induction false} BackwardMembers(live: seq<LiveSlot>, event: string -> Event)
    requires Injective(event)
    ensures forall k :: event(k) in Backward(live, event) <==> exists i :: 0 <= i < |live| && live[i].created && live[i].slot.key == k
    ensures forall e :: e in Backward(live, event) ==> exists k :: e == event(k)
  {
    if live != [] {
      var init, last := live[..|live| - 1], live[|live| - 1];
      BackwardMembers(init, event);
      assert forall i :: 0 <= i < |init| ==> init[i] == live[i];
    }
  }

  /** Forward passes keep the order of the slots. */
  lemma {:induction false} ForwardOrder(live: seq<LiveSlot>, event: string -> Event, i: nat, j: nat)
    requires Injective(event) && DistinctLive(live) && i < j < |live| && live[i].created && live[j].created
    ensures OnceBefore(Forward(live, event), event(live[i].slot.key), event(live[j].slot.key))
  {
    var init, last := live[..|live| - 1], live[|live| - 1];
    var f := Forward(init, event);
    ForwardMembers(init, event);
    var a, b, e := event(live[i].slot.key), event(live[j].slot.key), event(last.slot.key);
    assert forall m :: 0 <= m < |init| ==> init[m] == live[m];
    if j < |live| - 1 {
      ForwardOrder(init, event, i, j);
      OnceBeforeAppend(f, if last.created then [e] else [], a, b);
    } else {
      assert init[i].created && init[i].slot.key == live[i].slot.key;
      var p := OnceIn(init, event, i);
      assert b !in f;
      OnceAt(f + [e], a, b, p, |f|);
    }
  }

  lemma {:induction false} OnceIn(live: seq<LiveSlot>, event: string -> Event, i: nat) returns (p: nat)
    requires Injective(event) && DistinctLive(live) && i < |live| && live[i].created
    ensures var f := Forward(live, event); p < |f| && f[p] == event(live[i].slot.key)
                                           && forall k :: 0 <= k < |f| && f[k] == f[p] ==> k == p
  {
    var init, last := live[..|live| - 1], live[|live| - 1];
    ForwardMembers(init, event);
    assert forall m :: 0 <= m < |init| ==> init[m] == live[m];
    if i == |live| - 1 {
      p := |Forward(init, event)|;
      assert event(last.slot.key) !in Forward(init, event);
    } else {
      p := OnceIn(init, event, i);
    }
  }

  /** Backward passes reverse it. */
  lemma {:induction false} BackwardIsReverse(live: seq<LiveSlot>, event: string -> Event)
    ensures Mirror(Forward(live, event), Backward(live, event))
  {
    if live != [] {
      var init, last := live[..|live| - 1], live[|live| - 1];
      BackwardIsReverse(init, event);
      var e := if last.created then [event(last.slot.key)] else [];
      MirrorAppend(Forward(init, event), Backward(init, event), e);
    }
  }

  lemma MirrorAppend(f: seq<Event>, b: seq<Event>, e: seq<Event>)
    requires Mirror(f, b) && |e| <= 1
    ensures Mirror(f + e, e + b)
  {
    var g, c := f + e, e + b;
    forall k | 0 <= k < |g| ensures c[k] == g[|g| - 1 - k] {
      if k >= |e| { assert c[k] == b[k - |e|]; }
    }
  }

  lemma BackwardOrder(live: seq<LiveSlot>, event: string -> Event, i: nat, j: nat)
    requires Injective(event) && DistinctLive(live) && i < j < |live| && live[i].created && live[j].created
    ensures OnceBefore(Backward(live, event), event(live[j].slot.key), event(live[i].slot.key))
  {
    var x, y := event(live[i].slot.key), event(live[j].slot.key);
    var f, b := Forward(live, event), Backward(live, event);
    assert OnceBefore(f, x, y) by { ForwardOrder(live, event, i, j); }
    assert Mirror(f, b) by { BackwardIsReverse(live, event); }
    ReversedOnce(f, b, x, y);
  }

  ghost predicate Mirror(f: seq<Event>, b: seq<Event>) {
    |f| == |b| && forall k :: 0 <= k < |f| ==> b[k] == f[|f| - 1 - k]
  }

  lemma ReversedOnce(f: seq<Event>, b: seq<Event>, x: Event, y: Event)
    requires Mirror(f, b) && OnceBefore(f, x, y)
    ensures OnceBefore(b, y, x)
  {
    var p, q :| 0 <= p < q < |f| && f[p] == x && f[q] == y
                && (forall k :: 0 <= k < |f| && f[k] == x ==> k == p)
                && (forall k :: 0 <= k < |f| && f[k] == y ==> k == q);
    var n := |f| - 1;
    forall k | 0 <= k < |b| && b[k] == x ensures k == n - p { assert f[n - k] == x; }
    forall k | 0 <= k < |b| && b[k] == y ensures k == n - q { assert f[n - k] == y; }
    assert b[n - q] == y && b[n - p] == x;
    OnceAt(b, y, x, n - q, n - p);
  }

  // ----- the run -----

  /** The slots a listing turns into, with or without an instance. */
  ghost predicate Created(live: seq<LiveSlot>, sorted: seq<ModuleSlot>, creatable: set<string>) {
    |live| == |sorted| && forall i :: 0 <= i < |live| ==> live[i] == LiveSlot(sorted[i], sorted[i].key in creatable)
  }

  /** The events of one run over the created modules. */
  ghost function RunLog(live: seq<LiveSlot>): seq<Event> {
    Forward(live, InitEvent()) + Backward(live, ReadyEvent()) + Backward(live, DeinitEvent()) + Backward(live, DeleteEvent())
  }

  /** u is started before v and stopped after it, and each is told everything exactly once. */
  ghost predicate Nested(log: seq<Event>, u: string, v: string) {
    && OnceBefore(log, Event.Init(u), Event.Init(v))
    && OnceBefore(log, Event.Ready(v), Event.Ready(u))
    && OnceBefore(log, Event.Deinit(v), Event.Deinit(u))
    && OnceBefore(log, Event.Delete(v), Event.Delete(u))
  }

  lemma InOneOfFour(p: seq<Event>, q: seq<Event>, r: seq<Event>, s: seq<Event>, a: Event, b: Event)
    requires OnceBefore(p, a, b) && a !in q && a !in r && a !in s && b !in q && b !in r && b !in s
    ensures OnceBefore(p + q + r + s, a, b) && OnceBefore(q + p + r + s, a, b)
    ensures OnceBefore(q + r + p + s, a, b) && OnceBefore(q + r + s + p, a, b)
  {
    hide OnceBefore;
    OnceBeforeAppend(p, q, a, b);
    OnceBeforeAppend(p + q, r, a, b);
    OnceBeforeAppend(p + q + r, s, a, b);
    OnceBeforeAppend(q + p, r, a, b);
    OnceBeforeAppend(q + p + r, s, a, b);
    OnceBeforeAppend(p, q + r, a, b);
    OnceBeforeAppend(q + r + p, s, a, b);
    OnceBeforeAppend(p, q + r + s, a, b);
  }

  /** Each trace speaks of one kind of event only. */
  lemma TraceKinds(live: seq<LiveSlot>)
    ensures forall e :: e in Forward(live, InitEvent()) ==> e.Init?
    ensures forall e :: e in Backward(live, ReadyEvent()) ==> e.Ready?
    ensures forall e :: e in Backward(live, DeinitEvent()) ==> e.Deinit?
    ensures forall e :: e in Backward(live, DeleteEvent()) ==> e.Delete?
  {
    hide Forward, Backward;
    ForwardMembers(live, InitEvent());
    BackwardMembers(live, ReadyEvent());
    BackwardMembers(live, DeinitEvent());
    BackwardMembers(live, DeleteEvent());
  }

  /** Over a whole run, what comes earlier in the slots encloses what comes later. */
  lemma RunNests(live: seq<LiveSlot>, i: nat, j: nat)
    requires DistinctLive(live) && i < j < |live| && live[i].created && live[j].created
    ensures Nested(RunLog(live), live[i].slot.key, live[j].slot.key)
  {
    hide Forward, Backward, OnceBefore, DistinctLive;
    var u, v := live[i].slot.key, live[j].slot.key;
    TraceKinds(live);
    var a, b, c, d := Forward(live, InitEvent()), Backward(live, ReadyEvent()), Backward(live, DeinitEvent()),
                      Backward(live, DeleteEvent());
    ForwardOrder(live, InitEvent(), i, j);
    BackwardOrder(live, ReadyEvent(), i, j);
    BackwardOrder(live, DeinitEvent(), i, j);
    BackwardOrder(live, DeleteEvent(), i, j);
    InOneOfFour(a, b, c, d, Event.Init(u), Event.Init(v));
    InOneOfFour(b, a, c, d, Event.Ready(v), Event.Ready(u));
    InOneOfFour(c, a, b, d, Event.Deinit(v), Event.Deinit(u));
    InOneOfFour(d, a, b, c, Event.Delete(v), Event.Delete(u));
  }

  /** The slots a run creates carry each key once. */
  lemma CreatedDistinct(s: Setup, slots: seq<ModuleSlot>, sorted: seq<ModuleSlot>, ok: bool, order: seq<nat>, live: seq<LiveSlot>)
    requires Started(s, slots, sorted, ok, order) && Created(live, sorted, s.creatable)
    ensures DistinctLive(live)
  {
    hide Acyclic, BasePriorities, DependencyEdges;
    GoodIsDistinct(slots, BasePriorities(s.factory, s.tree));
    if ok {
      ReorderedDistinct(slots, sorted, order);
    }
  }

  lemma ReorderedDistinct(slots: seq<ModuleSlot>, sorted: seq<ModuleSlot>, order: seq<nat>)
    requires DistinctKeys(slots) && Reordered(sorted, slots, order) && IsPermutation(order, |slots|)
    ensures DistinctKeys(sorted)
  {
    forall i, j | 0 <= i < j < |sorted| ensures sorted[i].key != sorted[j].key {
      assert order[i] != order[j];
      if order[i] < order[j] {
        assert slots[order[i]].key != slots[order[j]].key;
      } else {
        assert slots[order[j]].key != slots[order[i]].key;
      }
    }
  }

  /** v depends on u: u is an enabled ancestor, or, when the dependencies have no cycle, v names u. */
  ghost predicate MustEnclose(s: Setup, ok: bool, u: string, v: string) {
    Ancestor(u, v) || (ok && DependsOn(v, s.tree, u))
  }

  /** What every run promises, whatever the configuration: modules enclose those that depend on them. */
  lemma RunRespectsDependencies(s: Setup, slots: seq<ModuleSlot>, sorted: seq<ModuleSlot>, ok: bool, order: seq<nat>,
                                live: seq<LiveSlot>, i: nat, j: nat)
    requires Started(s, slots, sorted, ok, order) && Created(live, sorted, s.creatable)
    requires i < |live| && j < |live| && live[i].created && live[j].created
    requires MustEnclose(s, ok, live[i].slot.key, live[j].slot.key)
    ensures Nested(RunLog(live), live[i].slot.key, live[j].slot.key)
  {
    hide RunLog, Nested, GoodSlots, BasePriorities, DependencyEdges, Acyclic, Topological, Reordered, DistinctLive;
    CreatedDistinct(s, slots, sorted, ok, order, live);
    if Ancestor(live[i].slot.key, live[j].slot.key) {
      ParentsFirst(slots, BasePriorities(s.factory, s.tree), s.tree, sorted, ok, order, i, j);
    } else {
      GoodIsDistinct(slots, BasePriorities(s.factory, s.tree));
      DependsFirst(slots, s.tree, sorted, order, i, j);
    }
    RunNests(live, i, j);
  }

  class EntryState {
    var state: State
    var modules: seq<LiveSlot>
    /** What the modules have been told so far. */
    ghost var log: seq<Event>

    constructor ()
      ensures state == NONE && modules == [] && log == []
    {
      state, modules, log := NONE, [], [];
    }

    /** Lists, orders and creates the modules, then tells them INIT forwards and READY backwards. */
    method Init(s: Setup) returns (ghost sorted: seq<ModuleSlot>, ghost slots: seq<ModuleSlot>, ok: bool, ghost order: seq<nat>)
      requires modules == [] && GoodSetup(s)
      modifies this
      ensures state == READY && Created(modules, sorted, s.creatable)
      ensures Started(s, slots, sorted, ok, order)
      ensures log == old(log) + Forward(modules, InitEvent()) + Backward(modules, ReadyEvent())
    {
      hide GoodSlots, BasePriorities, Forward, Backward;
      var ordered;
      ordered, slots, ok, order := ListModules(s);
      sorted := ordered;
      CreateModules(ordered, s.creatable);
      state := State.INIT;
      TellInit();
      TellReady();
      state := State.READY;
    }

    /** One instance for each slot, where the factory can make one. */
    method CreateModules(ordered: seq<ModuleSlot>, creatable: set<string>)
      modifies this`modules
      ensures Created(modules, ordered, creatable)
    {
      var live: seq<LiveSlot> := [];
      for i := 0 to |ordered|
        invariant |live| == i && forall j :: 0 <= j < i ==> live[j] == LiveSlot(ordered[j], ordered[j].key in creatable)
      {
        live := live + [LiveSlot(ordered[i], ordered[i].key in creatable)];
      }
      modules := live;
    }

    method TellInit()
      modifies this`log
      ensures log == old(log) + Forward(modules, InitEvent())
    {
      ghost var live := modules;
      for i := 0 to |modules|
        invariant log == old(log) + Forward(live[..i], InitEvent())
      {
        assert live[..i + 1][..i] == live[..i];
        if modules[i].created {
          log := log + [Event.Init(modules[i].slot.key)];
        }
      }
      assert live[..|live|] == live;
    }

    method TellReady()
      modifies this`log
      ensures log == old(log) + Backward(modules, ReadyEvent())
    {
      hide Backward;
      ghost var live := modules;
      assert live[..|live|] == live;
      var i := |modules|;
      while i > 0
        invariant 0 <= i <= |live|
        invariant log + Backward(live[..i], ReadyEvent()) == old(log) + Backward(live, ReadyEvent())
      {
        i := i - 1;
        BackwardLast(live, i, ReadyEvent());
        if modules[i].created {
          log := log + [Event.Ready(modules[i].slot.key)];
        }
      }
      BackwardEmpty(ReadyEvent());
      assert live[..0] == [];
    }

    /** Tells the modules DEINIT backwards, then deletes them backwards. */
    method Deinit()
      modifies this
      ensures state == SHUTDOWN && modules == []
      ensures log == old(log) + Backward(old(modules), DeinitEvent()) + Backward(old(modules), DeleteEvent())
    {
      hide Backward;
      TellDeinit();
      DeleteAll();
      modules := [];
      state := SHUTDOWN;
    }

    method TellDeinit()
      modifies this`log
      ensures log == old(log) + Backward(modules, DeinitEvent())
    {
      hide Backward;
      ghost var live := modules;
      assert live[..|live|] == live;
      var i := |modules|;
      while i > 0
        invariant 0 <= i <= |live|
        invariant log + Backward(live[..i], DeinitEvent()) == old(log) + Backward(live, DeinitEvent())
      {
        i := i - 1;
        BackwardLast(live, i, DeinitEvent());
        if modules[i].created {
          log := log + [Event.Deinit(modules[i].slot.key)];
        }
      }
      BackwardEmpty(DeinitEvent());
      assert live[..0] == [];
    }

    method DeleteAll()
      modifies this`log, this`modules
      ensures log == old(log) + Backward(old(modules), DeleteEvent())
      ensures forall i :: 0 <= i < |modules| ==> !modules[i].created
    {
      hide Backward;
      ghost var live := modules;
      assert live[..|live|] == live;
      var i := |modules|;
      while i > 0
        invariant 0 <= i <= |live| && |modules| == |live|
        invariant forall j :: 0 <= j < i ==> modules[j] == live[j]
        invariant forall j :: i <= j < |live| ==> !modules[j].created
        invariant log + Backward(live[..i], DeleteEvent()) == old(log) + Backward(live, DeleteEvent())
      {
        i := i - 1;
        BackwardLast(live, i, DeleteEvent());
        if modules[i].created {
          log := log + [Delete(modules[i].slot.key)];
        }
        modules := modules[i := modules[i].(created := false)];
      }
      BackwardEmpty(DeleteEvent());
      assert live[..0] == [];
    }
  }

  /** A run from start to end: init, the event loop, deinit. */
  method Exec(s: Setup)
    returns (e: EntryState, ghost slots: seq<ModuleSlot>, ghost live: seq<LiveSlot>, ghost ok: bool, ghost order: seq<nat>)
    requires GoodSetup(s)
    ensures Configured(BasePriorities(s.factory, s.tree), s.factory, s.tree)
    ensures GoodSlots(slots, BasePriorities(s.factory, s.tree)) && InListingOrder(slots)
    ensures ok <==> Acyclic(|slots|, DependencyEdges(slots, s.tree))
    ensures RunsInOrder(live, slots, DependencyEdges(slots, s.tree), ok, order)
    ensures fresh(e) && e.state == SHUTDOWN && e.modules == [] && e.log == RunLog(live)
    ensures forall i, j :: 0 <= i < |live| && 0 <= j < |live| && live[i].created && live[j].created
                           && MustEnclose(s, ok, live[i].slot.key, live[j].slot.key) ==>
                           Nested(e.log, live[i].slot.key, live[j].slot.key)
    ensures forall i :: 0 <= i < |live| ==>
                        live[i].slot.key in BasePriorities(s.factory, s.tree) && live[i].created == (live[i].slot.key in s.creatable)
    ensures forall k :: k in BasePriorities(s.factory, s.tree) ==> exists i :: 0 <= i < |live| && live[i].slot.key == k
  {
    hide Nested, MustEnclose, GoodSetup, BasePriorities, Started, Forward, Backward, GoodSlots, Acyclic, DependencyEdges,
      RunsInOrder, Created, Configured, InListingOrder;
    BaseIsConfigured(s.factory, s.tree);
    e := new EntryState();
    ghost var sorted;
    sorted, slots, ok, order := e.Init(s);
    StartedMeans(s, slots, sorted, ok, order);
    live := e.modules;
    e.state := RUNNING;
    e.Deinit();
    assert e.log == RunLog(live);
    forall i, j | 0 <= i < |live| && 0 <= j < |live| && live[i].created && live[j].created
                  && MustEnclose(s, ok, live[i].slot.key, live[j].slot.key)
      ensures Nested(e.log, live[i].slot.key, live[j].slot.key)
    {
      RunRespectsDependencies(s, slots, sorted, ok, order, live, i, j);
    }
    LiveKeys(s, slots, sorted, ok, order, live);
    LiveOrder(s, slots, sorted, ok, order, live);
  }

  /** The run goes through the modules in the least order that respects the dependencies, or, when these have a cycle, in the
      order of priority and depth in which they were listed. */
  ghost predicate RunsInOrder(live: seq<LiveSlot>, slots: seq<ModuleSlot>, edge: Edges, ok: bool, order: seq<nat>) {
    && |live| == |slots|
    && (ok ==> |order| == |slots| && LeastTopological(slots, order, edge))
    && forall i :: 0 <= i < |live| ==>
         if ok then order[i] < |slots| && live[i].slot == slots[order[i]] else live[i].slot == slots[i]
  }

  lemma LiveOrder(s: Setup, slots: seq<ModuleSlot>, sorted: seq<ModuleSlot>, ok: bool, order: seq<nat>, live: seq<LiveSlot>)
    requires Started(s, slots, sorted, ok, order) && Created(live, sorted, s.creatable)
    ensures RunsInOrder(live, slots, DependencyEdges(slots, s.tree), ok, order)
  {
    hide GoodSlots, BasePriorities, DependencyEdges, Acyclic, LeastTopological;
  }

  lemma StartedMeans(s: Setup, slots: seq<ModuleSlot>, sorted: seq<ModuleSlot>, ok: bool, order: seq<nat>)
    requires Started(s, slots, sorted, ok, order)
    ensures GoodSlots(slots, BasePriorities(s.factory, s.tree)) && InListingOrder(slots)
    ensures ok <==> Acyclic(|slots|, DependencyEdges(slots, s.tree))
  {
    ListingOrder(slots);
  }

  /** The live slots are exactly the enabled modules. */
  lemma LiveKeys(s: Setup, slots: seq<ModuleSlot>, sorted: seq<ModuleSlot>, ok: bool, order: seq<nat>, live: seq<LiveSlot>)
    requires Started(s, slots, sorted, ok, order) && Created(live, sorted, s.creatable)
    ensures forall i :: 0 <= i < |live| ==>
                        live[i].slot.key in BasePriorities(s.factory, s.tree) && live[i].created == (live[i].slot.key in s.creatable)
    ensures forall k :: k in BasePriorities(s.factory, s.tree) ==> exists i :: 0 <= i < |live| && live[i].slot.key == k
  {
    hide BasePriorities, DependencyEdges, Acyclic, IsEffective;
    var base := BasePriorities(s.factory, s.tree);
    forall k | k in base ensures exists i :: 0 <= i < |live| && live[i].slot.key == k {
      var m: nat :| m < |slots| && slots[m].key == k;
      var p: nat := m;
      if ok {
        p := PositionOf(order, |slots|, m);
      }
      assert live[p].slot.key == k;
    }
  }

  /** The listing and its order. */
  method ListModules(s: Setup) returns (sorted: seq<ModuleSlot>, ghost slots: seq<ModuleSlot>, ok: bool, ghost order: seq<nat>)
    requires GoodSetup(s)
    ensures Started(s, slots, sorted, ok, order)
  {
    hide GoodSlots, BasePriorities, DependencyEdges, Acyclic, LeastTopological, Reordered;
    var listed := BuildModuleGraph(s.factoryKeys, s.factory, s.tree, s.order);
    slots := listed;
    GoodIsDistinct(slots, BasePriorities(s.factory, s.tree));
    sorted, ok, order := ResolveDepends(listed, s.tree);
  }

  /** What listing and ordering promise about the slots. */
  ghost predicate Started(s: Setup, slots: seq<ModuleSlot>, sorted: seq<ModuleSlot>, ok: bool, order: seq<nat>) {
    var edge := DependencyEdges(slots, s.tree);
    && GoodSlots(slots, BasePriorities(s.factory, s.tree))
    && (ok <==> Acyclic(|slots|, edge))
    && (if ok then Reordered(sorted, slots, order) && LeastTopological(slots, order, edge) else sorted == slots)
  }

  lemma GoodIsDistinct(slots: seq<ModuleSlot>, base: map<string, int>)
    requires GoodSlots(slots, base)
    ensures DistinctKeys(slots)
  {}
}
