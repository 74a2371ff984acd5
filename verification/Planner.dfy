/** What a handler needs, worked out when its route is declared
    (korvex/_schema.py:575-718): a depth-first walk over the functions it
    depends on, with a memo shared by every route, and a check for cycles. The
    route's own dependencies are kept apart from the functions' parameters: two
    routes can give one handler different ones. */
module Planner {
  import opened Wrappers

  type Func = nat

  /** Functions, each a dependency of the one before. */
  type Chain = seq<Func>

  /** A path pattern, and whether it is a WebSocket's: what a function's parameters may depend on. */
  type Route = nat

  /** What is read off one parameter of a function, or off one of a route's own dependencies. */
  datatype Item =
    | Depends(func: Func, cached: bool)
    | Given     // from the request
    | Refused   // raises TypeError

  /** The functions and their parameters, as one route sees them. */
  type Graph = map<Func, seq<Item>>

  datatype Plan = Plan(func: Func, deps: seq<Dep>)

  datatype Dep = Dep(cached: bool, plan: Plan)

  ghost predicate Closed(g: Graph) {
    forall f, i | f in g && 0 <= i < |g[f]| && g[f][i].Depends? :: g[f][i].func in g
  }

  /** The dependencies among a function's items, in order. */
  function Wanted(items: seq<Item>): (wanted: seq<Item>)
    ensures forall item :: item in wanted <==> item in items && item.Depends?
    ensures forall i | 0 <= i < |wanted| :: wanted[i].Depends?
  {
    if items == [] then []
    else
      var last := items[|items| - 1];
      Wanted(items[..|items| - 1]) + (if last.Depends? then [last] else [])
  }

  /** `plan` spells out everything `f` needs as a dependency. */
  predicate IsPlanOf(plan: Plan, f: Func, g: Graph)
    decreases plan
  {
    && plan.func == f && f in g
    && Refused !in g[f]
    && |plan.deps| == |Wanted(g[f])|
    && forall i | 0 <= i < |plan.deps| ::
         plan.deps[i].cached == Wanted(g[f])[i].cached && IsPlanOf(plan.deps[i].plan, Wanted(g[f])[i].func, g)
  }

  /** `deps` spell out everything these items need. */
  predicate Planned(deps: seq<Dep>, items: seq<Item>, g: Graph) {
    && Refused !in items
    && |deps| == |Wanted(items)|
    && forall i | 0 <= i < |deps| ::
         deps[i].cached == Wanted(items)[i].cached && IsPlanOf(deps[i].plan, Wanted(items)[i].func, g)
  }

  lemma PlanOfDeps(plan: Plan, f: Func, g: Graph)
    ensures IsPlanOf(plan, f, g) <==> plan.func == f && f in g && Planned(plan.deps, g[f], g)
  {}

  /** What a route's handler asks for: the route's own dependencies, then its parameters. */
  function Items(own: seq<Item>, f: Func, g: Graph): seq<Item>
    requires f in g
  {
    own + g[f]
  }

  // ---- Walks through the graph

  predicate Edge(g: Graph, f: Func, d: Func) {
    f in g && exists i :: 0 <= i < |g[f]| && g[f][i].Depends? && g[f][i].func == d
  }

  ghost predicate Walk(g: Graph, walk: seq<Func>) {
    walk != [] && forall i | 0 <= i < |walk| - 1 :: Edge(g, walk[i], walk[i + 1])
  }

  /** The walk comes back to where it has been, or reaches a refused parameter. */
  ghost predicate Failing(g: Graph, walk: seq<Func>) {
    && Walk(g, walk)
    && var last := walk[|walk| - 1];
      last in walk[..|walk| - 1] || (last in g && Refused in g[last])
  }

  // ---- The memo

  datatype Key = Key(func: Func, route: Route)

  /** The memo holds plans of functions as dependencies: it says nothing of any
      route's own ones, so every registration, of any route, keeps it so. */
  ghost predicate Sound(plans: map<Key, Plan>, graphs: map<Route, Graph>) {
    forall k | k in plans :: k.route in graphs && IsPlanOf(plans[k], k.func, graphs[k.route])
  }

  /** Nothing forgotten, nothing changed. */
  ghost predicate Grows(was: map<Key, Plan>, now: map<Key, Plan>) {
    forall k | k in was :: k in now && now[k] == was[k]
  }

  class Cache {
    var plans: map<Key, Plan>

    constructor ()
      ensures plans == map[]
    {
      plans := map[];
    }
  }

  /** The memo a planner was given, if any. */
  ghost function Memo(cache: Cache?): map<Key, Plan>
    reads cache
  {
    if cache == null then map[] else cache.plans
  }

  /** The functions whose plan for `route` the memo would give. */
  function Remembered(plans: map<Key, Plan>, route: Route, unhashable: set<Func>): set<Func> {
    set k | k in plans && k.route == route && k.func !in unhashable :: k.func
  }

  // ---- What planning fails on

  /** No function on the walk is remembered. */
  predicate Forgotten(walk: seq<Func>, remembered: set<Func>) {
    forall i | 0 <= i < |walk| :: walk[i] !in remembered
  }

  ghost predicate Leads(g: Graph, walk: seq<Func>, from: Func, to: Func) {
    Walk(g, walk) && walk[0] == from && walk[|walk| - 1] == to
  }

  /** Every walk from `f` to `root` meets a function that is remembered. */
  ghost predicate Cut(g: Graph, f: Func, root: Func, remembered: set<Func>) {
    forall walk | Leads(g, walk, f, root) :: !Forgotten(walk, remembered)
  }

  /** Some dependency among `items` is on `f`. */
  predicate Wants(items: seq<Item>, f: Func) {
    exists i :: 0 <= i < |items| && items[i].Depends? && items[i].func == f
  }

  /** The exact condition under which a route is refused: an item refused; a
      cycle, or a refused item, that its handler's parameters or its own
      dependencies can reach; or an own dependency that reaches the handler
      itself, unless the memo cuts every way there. */
  ghost predicate IsRefused(g: Graph, f: Func, own: seq<Item>, remembered: set<Func>) {
    || Refused in own
    || (exists walk :: Failing(g, walk) && (walk[0] == f || Wants(own, walk[0])))
    || (exists d :: Wants(own, d) && !Cut(g, d, f, remembered))
  }

  /** How the planner came to fail: along `path`, which starts with the handler. */
  ghost predicate FailsAlong(g: Graph, own: seq<Item>, path: seq<Func>, remembered: set<Func>) {
    && path != [] && path[0] in g
    && var f, items, walk := path[0], Items(own, path[0], g), path[1..];
      if walk == [] then Refused in items
      else
        && Wants(items, walk[0]) && Walk(g, walk)
        && (Failing(g, walk) || (walk[|walk| - 1] == f && Forgotten(walk, remembered)))
  }

  // ---- The planner

  /** Where the planner stands: at the handler, or at a function it reached from
      the handler through functions that were not remembered. */
  ghost predicate OnItsWay(g: Graph, own: seq<Item>, path: seq<Func>, remembered: set<Func>) {
    && path != [] && (forall i | 0 <= i < |path| :: path[i] in g)
    && (|path| > 1 ==>
          && Wants(Items(own, path[0], g), path[1]) && Walk(g, path[1..]) && Forgotten(path[1..], remembered))
  }

  /** Each of these functions reaches the handler only through what was remembered. */
  ghost predicate AreCut(fs: set<Func>, g: Graph, root: Func, remembered: set<Func>) {
    forall f | f in fs :: Cut(g, f, root, remembered)
  }

  ghost predicate ItemsAreCut(items: seq<Item>, g: Graph, root: Func, remembered: set<Func>) {
    forall i | 0 <= i < |items| && items[i].Depends? :: Cut(g, items[i].func, root, remembered)
  }

  ghost predicate ItemsAreIn(items: seq<Item>, fs: set<Func>) {
    forall i | 0 <= i < |items| && items[i].Depends? :: items[i].func in fs
  }

  /** The memo is sound, and what it holds reaches the handler only through
      what it held from the start. */
  ghost predicate GoodMemo(
    plans: map<Key, Plan>, graphs: map<Route, Graph>, route: Route, unhashable: set<Func>, root: Func, remembered: set<Func>)
    requires route in graphs
  {
    && Sound(plans, graphs)
    && remembered <= Remembered(plans, route, unhashable)
    && AreCut(Remembered(plans, route, unhashable), graphs[route], root, remembered)
  }

  /** The plan of `func`, a route's handler with the route's `own` dependencies, or
      a function it depends on, with none; or the chain of functions that led to
      an error. Some functions can't be hashed, and are never remembered. */
  method PlanFor(
    func: Func, own: seq<Item>, route: Route, graphs: map<Route, Graph>, unhashable: set<Func>, cache: Cache?,
    chain: seq<Func>, ghost rootOwn: seq<Item>, ghost remembered: set<Func>)
    returns (r: Result<Plan, Chain>)
    requires route in graphs && Closed(graphs[route]) && func in graphs[route]
    requires own == (if chain == [] then rootOwn else []) && ItemsAreIn(rootOwn, graphs[route].Keys)
    requires OnItsWay(graphs[route], rootOwn, chain + [func], remembered)
    requires GoodMemo(Memo(cache), graphs, route, unhashable, (chain + [func])[0], remembered)
    modifies cache
    ensures GoodMemo(Memo(cache), graphs, route, unhashable, (chain + [func])[0], remembered)
    ensures Grows(old(Memo(cache)), Memo(cache))
    ensures r.Ok? ==> r.value.func == func && Planned(r.value.deps, own + graphs[route][func], graphs[route])
    ensures r.Ok? ==> ItemsAreCut(own + graphs[route][func], graphs[route], (chain + [func])[0], remembered)
    ensures r.Ok? ==> func !in chain
    ensures r.Ok? && cache != null ==>
              ItemsAreIn(own + graphs[route][func], Remembered(Memo(cache), route, unhashable) + unhashable)
    ensures r.Err? ==> chain + [func] <= r.error && FailsAlong(graphs[route], rootOwn, r.error, remembered)
    decreases graphs[route].Keys - (set f | f in chain)
  {
    hide Walk, Failing, Sound, Grows, Closed, Wanted, Planned, IsPlanOf, OnItsWay, GoodMemo, ItemsAreCut, ItemsAreIn,
      Remembered, FailsAlong, Cut;
    ghost var g := graphs[route];
    ghost var root := (chain + [func])[0];
    GrowsFrom(Memo(cache), Memo(cache), Memo(cache));
    if func in chain {
      FailsHere(g, rootOwn, chain, func, remembered);
      return Err(chain + [func]);
    }
    var items := own + graphs[route][func];
    var deps: seq<Dep> := [];
    NothingPlanned(items, g, root, remembered, Remembered(Memo(cache), route, unhashable) + unhashable);
    for i := 0 to |items|
      invariant GoodMemo(Memo(cache), graphs, route, unhashable, root, remembered)
      invariant Grows(old(Memo(cache)), Memo(cache))
      invariant Planned(deps, items[..i], g) && ItemsAreCut(items[..i], g, root, remembered)
      invariant cache != null ==> ItemsAreIn(items[..i], Remembered(Memo(cache), route, unhashable) + unhashable)
    {
      match items[i] {
        case Refused =>
          FailsHere(g, rootOwn, chain, func, remembered);
          return Err(chain + [func]);
        case Given =>
          PlannedGiven(deps, items, i, g, root, remembered, Remembered(Memo(cache), route, unhashable) + unhashable);
        case Depends(wanted, cached) =>
          var key := Key(wanted, route);
          var plan: Plan;
          ghost var was := Memo(cache);
          if cache != null && wanted !in unhashable && key in cache.plans {
            plan := cache.plans[key];
            FoundPlan(cache.plans, graphs, key, unhashable, root, remembered);
          } else {
            NotFound(was, graphs, key, unhashable, root, remembered);
            GoesOn(g, rootOwn, own, chain, func, i, remembered);
            Smaller(g, chain, func);
            var found := PlanFor(wanted, [], route, graphs, unhashable, cache, chain + [func], rootOwn, remembered);
            GrowsFrom(old(Memo(cache)), was, Memo(cache));
            ItemsStayIn(items[..i], was, Memo(cache), route, unhashable);
            if found.Err? {
              assert chain + [func] <= chain + [func] + [wanted] <= found.error;
              return found;
            }
            plan := found.value;
            assert [] + graphs[route][wanted] == graphs[route][wanted];
            PlanOfDeps(plan, wanted, g);
            CutByItems(g, wanted, root, remembered);
            if cache != null && wanted !in unhashable {
              was := cache.plans;
              Remember(was, graphs, key, plan, unhashable, root, remembered);
              cache.plans := cache.plans[key := plan];
              GrowsFrom(old(Memo(cache)), was, Memo(cache));
              ItemsStayIn(items[..i], was, Memo(cache), route, unhashable);
            }
          }
          PlannedDep(deps, items, i, g, plan, root, remembered);
          WantedIsIn(items, i, Remembered(Memo(cache), route, unhashable) + unhashable);
          deps := deps + [Dep(cached, plan)];
      }
    }
    assert items[..|items|] == items;
    r := Ok(Plan(func, deps));
  }

  // ---- The planner's steps

  lemma NothingPlanned(items: seq<Item>, g: Graph, root: Func, remembered: set<Func>, now: set<Func>)
    ensures Planned([], items[..0], g) && ItemsAreCut(items[..0], g, root, remembered) && ItemsAreIn(items[..0], now)
  {}

  lemma PlannedGiven(
    deps: seq<Dep>, items: seq<Item>, n: nat, g: Graph, root: Func, remembered: set<Func>, now: set<Func>)
    requires n < |items| && items[n].Given?
    requires Planned(deps, items[..n], g) && ItemsAreCut(items[..n], g, root, remembered)
    ensures Planned(deps, items[..n + 1], g) && ItemsAreCut(items[..n + 1], g, root, remembered)
    ensures ItemsAreIn(items[..n], now) ==> ItemsAreIn(items[..n + 1], now)
  {
    hide IsPlanOf, Cut;
    assert items[..n + 1][..n] == items[..n];
    assert forall i | 0 <= i < n + 1 && items[..n + 1][i].Depends? :: i < n && items[..n][i] == items[..n + 1][i];
  }

  lemma PlannedDep(deps: seq<Dep>, items: seq<Item>, n: nat, g: Graph, plan: Plan, root: Func, remembered: set<Func>)
    requires n < |items| && items[n].Depends? && IsPlanOf(plan, items[n].func, g) && Cut(g, items[n].func, root, remembered)
    requires Planned(deps, items[..n], g) && ItemsAreCut(items[..n], g, root, remembered)
    ensures Planned(deps + [Dep(items[n].cached, plan)], items[..n + 1], g)
    ensures ItemsAreCut(items[..n + 1], g, root, remembered)
  {
    hide IsPlanOf, Cut;
    assert items[..n + 1][..n] == items[..n];
    assert forall i | 0 <= i < n :: items[..n + 1][i] == items[..n][i];
  }

  lemma WantedIsIn(items: seq<Item>, n: nat, now: set<Func>)
    requires n < |items| && items[n].Depends?
    ensures ItemsAreIn(items[..n], now) && items[n].func in now ==> ItemsAreIn(items[..n + 1], now)
  {
    assert forall i | 0 <= i < n :: items[..n + 1][i] == items[..n][i];
  }

  lemma ItemsStayIn(items: seq<Item>, was: map<Key, Plan>, now: map<Key, Plan>, route: Route, unhashable: set<Func>)
    requires Grows(was, now)
    ensures ItemsAreIn(items, Remembered(was, route, unhashable) + unhashable) ==>
              ItemsAreIn(items, Remembered(now, route, unhashable) + unhashable)
    ensures Remembered(was, route, unhashable) <= Remembered(now, route, unhashable)
  {}

  lemma GrowsFrom(a: map<Key, Plan>, b: map<Key, Plan>, c: map<Key, Plan>)
    ensures Grows(a, a)
    ensures Grows(a, b) && Grows(b, c) ==> Grows(a, c)
  {}

  lemma FoundPlan(
    plans: map<Key, Plan>, graphs: map<Route, Graph>, k: Key, unhashable: set<Func>, root: Func, remembered: set<Func>)
    requires k.route in graphs && GoodMemo(plans, graphs, k.route, unhashable, root, remembered)
    requires k in plans && k.func !in unhashable
    ensures IsPlanOf(plans[k], k.func, graphs[k.route]) && Cut(graphs[k.route], k.func, root, remembered)
    ensures k.func in Remembered(plans, k.route, unhashable)
  {
    hide IsPlanOf, Cut;
  }

  lemma NotFound(
    plans: map<Key, Plan>, graphs: map<Route, Graph>, k: Key, unhashable: set<Func>, root: Func, remembered: set<Func>)
    requires k.route in graphs && GoodMemo(plans, graphs, k.route, unhashable, root, remembered)
    requires k !in plans || k.func in unhashable
    ensures k.func !in remembered
  {}

  /** A plan just made goes into the memo; if another is there, it is the same. */
  lemma Remember(
    plans: map<Key, Plan>, graphs: map<Route, Graph>, k: Key, plan: Plan, unhashable: set<Func>, root: Func,
    remembered: set<Func>)
    requires k.route in graphs && GoodMemo(plans, graphs, k.route, unhashable, root, remembered)
    requires IsPlanOf(plan, k.func, graphs[k.route]) && Cut(graphs[k.route], k.func, root, remembered)
    requires k.func !in unhashable
    ensures GoodMemo(plans[k := plan], graphs, k.route, unhashable, root, remembered)
    ensures Grows(plans, plans[k := plan])
    ensures k.func in Remembered(plans[k := plan], k.route, unhashable)
  {
    hide IsPlanOf, Cut;
    if k in plans {
      PlanIsUnique(plans[k], plan, k.func, graphs[k.route]);
    }
    var now := plans[k := plan];
    assert k in now;
    assert Remembered(now, k.route, unhashable) == Remembered(plans, k.route, unhashable) + {k.func};
  }

  lemma FailsHere(g: Graph, own: seq<Item>, chain: seq<Func>, f: Func, remembered: set<Func>)
    requires OnItsWay(g, own, chain + [f], remembered)
    requires f in chain || (f in g && Refused in (if chain == [] then own else []) + g[f])
    ensures FailsAlong(g, own, chain + [f], remembered)
  {
    var path := chain + [f];
    var walk := path[1..];
    if chain != [] {
      assert walk[|walk| - 1] == f && walk[..|walk| - 1] == chain[1..];
      assert forall d | d in chain :: d == chain[0] || d in chain[1..];
    }
  }

  lemma GoesOn(g: Graph, rootOwn: seq<Item>, own: seq<Item>, chain: seq<Func>, f: Func, i: nat, remembered: set<Func>)
    requires OnItsWay(g, rootOwn, chain + [f], remembered) && Closed(g) && ItemsAreIn(rootOwn, g.Keys)
    requires f in g && own == (if chain == [] then rootOwn else [])
    requires i < |own + g[f]| && (own + g[f])[i].Depends? && (own + g[f])[i].func !in remembered
    ensures OnItsWay(g, rootOwn, chain + [f] + [(own + g[f])[i].func], remembered)
    ensures (own + g[f])[i].func in g && chain + [f] != [] && (chain + [f])[0] == (chain + [f] + [(own + g[f])[i].func])[0]
  {
    var items := own + g[f];
    var d := items[i].func;
    var path := chain + [f] + [d];
    if chain == [] {
      assert items == Items(rootOwn, f, g) && path[1..] == [d];
      if i < |own| { assert own[i] == items[i]; } else { assert g[f][i - |own|] == items[i]; }
    } else {
      assert items == g[f];
      assert path[1..] == (chain + [f])[1..] + [d] && path[1] == (chain + [f])[1];
      assert (chain + [f])[1..] == chain[1..] + [f];
    }
  }

  lemma Smaller(g: Graph, chain: seq<Func>, f: Func)
    requires f in g && f !in chain
    ensures g.Keys - (set d | d in chain + [f]) < g.Keys - (set d | d in chain)
  {
    assert f in g.Keys - (set d | d in chain);
    assert f !in g.Keys - (set d | d in chain + [f]) by { assert (chain + [f])[|chain|] == f; }
    assert forall d :: d in chain ==> d in chain + [f];
  }

  /** A function other than the handler is cut from it if all it depends on is. */
  lemma CutByItems(g: Graph, f: Func, root: Func, remembered: set<Func>)
    requires f in g
    ensures f != root && ItemsAreCut(g[f], g, root, remembered) ==> Cut(g, f, root, remembered)
  {
    if f != root && ItemsAreCut(g[f], g, root, remembered) {
      forall walk | Leads(g, walk, f, root)
        ensures !Forgotten(walk, remembered)
      {
        assert Edge(g, walk[0], walk[1]);
        var i :| 0 <= i < |g[f]| && g[f][i].Depends? && g[f][i].func == walk[1];
        assert walk[1..|walk|] == walk[1..];
        assert Leads(g, walk[1..], walk[1], root);
        var k :| 0 <= k < |walk[1..]| && walk[1..][k] in remembered;
        assert walk[k + 1] in remembered;
      }
    }
  }

  // ---- What a plan says about the graph

  lemma {:induction false} PlanIsUnique(p: Plan, q: Plan, f: Func, g: Graph)
    requires IsPlanOf(p, f, g) && IsPlanOf(q, f, g)
    ensures p == q
    decreases p
  {
    forall i | 0 <= i < |p.deps|
      ensures p.deps[i] == q.deps[i]
    {
      PlanIsUnique(p.deps[i].plan, q.deps[i].plan, Wanted(g[f])[i].func, g);
    }
    assert p.deps == q.deps;
  }

  function Size(p: Plan): nat
    decreases p, 1 + |p.deps|, 1
  {
    1 + SizeOf(p, |p.deps|)
  }

  /** The first `n` dependencies together. */
  function SizeOf(p: Plan, n: nat): nat
    requires n <= |p.deps|
    decreases p, 1 + n, 0
  {
    if n == 0 then 0 else SizeOf(p, n - 1) + Size(p.deps[n - 1].plan)
  }

  lemma {:induction false} PartIsSmaller(p: Plan, i: nat, n: nat)
    requires i < n <= |p.deps|
    ensures Size(p.deps[i].plan) <= SizeOf(p, n)
    decreases n
  {
    if i < n - 1 {
      PartIsSmaller(p, i, n - 1);
    }
  }

  /** A walk leads into the plan, to ever smaller plans. */
  lemma {:induction false} Descend(p: Plan, walk: seq<Func>, g: Graph) returns (q: Plan)
    requires Walk(g, walk) && IsPlanOf(p, walk[0], g)
    ensures IsPlanOf(q, walk[|walk| - 1], g)
    ensures Size(q) + |walk| - 1 <= Size(p)
    decreases |walk|
  {
    if |walk| == 1 {
      q := p;
    } else {
      var f, d := walk[0], walk[1];
      assert Edge(g, f, d);
      var k :| 0 <= k < |g[f]| && g[f][k].Depends? && g[f][k].func == d;
      assert g[f][k] in Wanted(g[f]);
      var i :| 0 <= i < |Wanted(g[f])| && Wanted(g[f])[i] == g[f][k];
      PartIsSmaller(p, i, |p.deps|);
      var rest := walk[1..];
      forall j | 0 <= j < |rest| - 1
        ensures Edge(g, rest[j], rest[j + 1])
      {
        assert Edge(g, walk[j + 1], walk[j + 2]);
      }
      q := Descend(p.deps[i].plan, rest, g);
    }
  }

  lemma RefusedHasNone(p: Plan, f: Func, g: Graph)
    requires IsPlanOf(p, f, g)
    ensures f in g && Refused !in g[f]
  {}

  /** What has a plan reaches no cycle and no refused parameter. */
  lemma PlanMeansNoFailure(p: Plan, walk: seq<Func>, g: Graph)
    requires Walk(g, walk) && IsPlanOf(p, walk[0], g)
    ensures !Failing(g, walk)
  {
    hide IsPlanOf, Edge, Size;
    var n := |walk| - 1;
    var q := Descend(p, walk, g);
    RefusedHasNone(q, walk[n], g);
    if walk[n] in walk[..n] {
      var i :| 0 <= i < n && walk[i] == walk[n];
      var a := Descend(p, walk[..i + 1], g);
      var b := Descend(a, walk[i..n + 1], g);
      PlanIsUnique(a, b, walk[n], g);
    }
  }

  /** A handler's plan, with its route's own dependencies, is the only one too. */
  lemma DepsAreUnique(ds: seq<Dep>, es: seq<Dep>, items: seq<Item>, g: Graph)
    requires Planned(ds, items, g) && Planned(es, items, g)
    ensures ds == es
  {
    hide IsPlanOf;
    forall i | 0 <= i < |ds|
      ensures ds[i] == es[i]
    {
      PlanIsUnique(ds[i].plan, es[i].plan, Wanted(items)[i].func, g);
    }
  }

  /** What an item asks for has a plan among the dependencies. */
  lemma PlanOfWanted(deps: seq<Dep>, items: seq<Item>, f: Func, g: Graph) returns (p: Plan)
    requires Planned(deps, items, g) && Wants(items, f)
    ensures IsPlanOf(p, f, g)
  {
    hide IsPlanOf;
    var i :| 0 <= i < |items| && items[i].Depends? && items[i].func == f;
    assert items[i] in Wanted(items);
    var k :| 0 <= k < |Wanted(items)| && Wanted(items)[k] == items[i];
    p := deps[k].plan;
  }

  // ---- When a route is refused

  /** What the planner failed on is what a route is refused for. */
  lemma FailureIsRefusal(g: Graph, own: seq<Item>, path: seq<Func>, remembered: set<Func>)
    requires FailsAlong(g, own, path, remembered)
    ensures IsRefused(g, path[0], own, remembered)
  {
    var f, walk := path[0], path[1..];
    var items := Items(own, f, g);
    if walk == [] {
      if Refused !in own {
        assert Failing(g, [f]) && [f][0] == f;
      }
    } else {
      var i :| 0 <= i < |items| && items[i].Depends? && items[i].func == walk[0];
      if i < |own| {
        assert Wants(own, walk[0]);
        if !Failing(g, walk) {
          assert Leads(g, walk, walk[0], f);
        }
      } else {
        assert Edge(g, f, walk[0]) by { assert g[f][i - |own|] == items[i]; }
        WalkBefore(g, f, walk);
        assert path == [f] + walk;
        assert Failing(g, path);
      }
    }
  }

  lemma WalkBefore(g: Graph, f: Func, walk: seq<Func>)
    requires Walk(g, walk) && Edge(g, f, walk[0])
    ensures Walk(g, [f] + walk)
    ensures Failing(g, walk) || walk[|walk| - 1] == f ==> Failing(g, [f] + walk)
  {
    var path := [f] + walk;
    forall i | 0 <= i < |path| - 1
      ensures Edge(g, path[i], path[i + 1])
    {
      if i > 0 { assert Edge(g, walk[i - 1], walk[i]); }
    }
    var last := path[|path| - 1];
    assert path[..|path| - 1] == [f] + walk[..|walk| - 1];
  }

  /** What was planned is not refused. */
  lemma PlannedIsAccepted(deps: seq<Dep>, f: Func, own: seq<Item>, g: Graph, remembered: set<Func>)
    requires f in g && Planned(deps, Items(own, f, g), g) && ItemsAreCut(Items(own, f, g), g, f, remembered)
    ensures !IsRefused(g, f, own, remembered)
  {
    hide IsPlanOf, Planned, Cut;
    var items := Items(own, f, g);
    assert Refused !in items by { NoneRefused(deps, items, g); }
    assert Refused !in own by {
      assert forall i | 0 <= i < |own| :: items[i] == own[i];
    }
    assert Refused !in g[f] by {
      assert forall i | 0 <= i < |g[f]| :: items[|own| + i] == g[f][i];
    }
    forall d | Wants(own, d)
      ensures Cut(g, d, f, remembered) && Wants(items, d)
    {
      var i :| 0 <= i < |own| && own[i].Depends? && own[i].func == d;
      assert items[i] == own[i];
    }
    forall walk | Walk(g, walk) && (walk[0] == f || Wants(own, walk[0]))
      ensures !Failing(g, walk)
    {
      if Wants(own, walk[0]) {
        var p := PlanOfWanted(deps, items, walk[0], g);
        PlanMeansNoFailure(p, walk, g);
      } else if |walk| > 1 {
        assert Edge(g, walk[0], walk[1]);
        assert Wants(items, walk[1]) by {
          var i :| 0 <= i < |g[f]| && g[f][i].Depends? && g[f][i].func == walk[1];
          assert items[|own| + i] == g[f][i];
        }
        var p := PlanOfWanted(deps, items, walk[1], g);
        NoFailureFrom(p, walk, g);
      }
    }
  }

  lemma NoneRefused(deps: seq<Dep>, items: seq<Item>, g: Graph)
    requires Planned(deps, items, g)
    ensures Refused !in items
  {}

  /** A walk whose second function has a plan does not fail further on, nor come
      back to the first. */
  lemma NoFailureFrom(p: Plan, walk: seq<Func>, g: Graph)
    requires Walk(g, walk) && |walk| > 1 && IsPlanOf(p, walk[1], g)
    ensures !Failing(g, walk)
  {
    hide IsPlanOf, Edge;
    var f, rest := walk[0], walk[1..];
    assert walk[1..|walk|] == rest;
    PlanMeansNoFailure(p, rest, g);
    var last := walk[|walk| - 1];
    if last == f {
      assert Edge(g, walk[0], walk[1]);
      var again := rest + [walk[1]];
      assert Walk(g, again) by {
        forall i | 0 <= i < |again| - 1 ensures Edge(g, again[i], again[i + 1]) {
          if i < |rest| - 1 { assert Edge(g, rest[i], rest[i + 1]); }
        }
      }
      PlanMeansNoFailure(p, again, g);
    } else {
      assert forall i | 0 < i < |walk| - 1 :: walk[i] == rest[..|rest| - 1][i - 1];
    }
  }

  /** The planner, as a route's declaration calls it. It ends on every graph, and
      fails exactly when the route is refused: for a cycle or a refused parameter
      that can be reached, whatever the memo holds, or for an own dependency that
      leads back to the handler, unless the memo cuts the way. Otherwise it gives
      the only plan there is. The memo stays sound for every route, and keeps
      what it held, either way. */
  method PlanRoute(
    func: Func, own: seq<Item>, route: Route, graphs: map<Route, Graph>, unhashable: set<Func>, cache: Cache?)
    returns (r: Result<Plan, Chain>)
    requires route in graphs && Closed(graphs[route]) && func in graphs[route] && ItemsAreIn(own, graphs[route].Keys)
    requires Sound(Memo(cache), graphs)
    modifies cache
    ensures Sound(Memo(cache), graphs) && Grows(old(Memo(cache)), Memo(cache))
    ensures r.Err? <==> IsRefused(graphs[route], func, own, Remembered(old(Memo(cache)), route, unhashable))
    ensures r.Ok? ==> r.value.func == func && Planned(r.value.deps, Items(own, func, graphs[route]), graphs[route])
    ensures r.Ok? ==> forall deps | Planned(deps, Items(own, func, graphs[route]), graphs[route]) :: deps == r.value.deps
    ensures r.Ok? && cache != null ==>
              ItemsAreIn(Items(own, func, graphs[route]), Remembered(Memo(cache), route, unhashable) + unhashable)
    ensures r.Err? ==> r.error != [] && r.error[0] == func
  {
    hide Walk, Failing, Sound, Grows, Closed, Wanted, Planned, IsPlanOf, Remembered, FailsAlong, Cut, ItemsAreCut, ItemsAreIn,
      IsRefused;
    ghost var g := graphs[route];
    ghost var remembered := Remembered(Memo(cache), route, unhashable);
    assert [] + [func] == [func];
    RememberedIsCut(g, func, remembered);
    r := PlanFor(func, own, route, graphs, unhashable, cache, [], own, remembered);
    match r {
      case Ok(plan) =>
        PlannedIsAccepted(plan.deps, func, own, g, remembered);
        forall deps | Planned(deps, Items(own, func, g), g)
          ensures deps == plan.deps
        {
          DepsAreUnique(deps, plan.deps, Items(own, func, g), g);
        }
      case Err(path) =>
        FailureIsRefusal(g, own, path, remembered);
    }
  }

  lemma RememberedIsCut(g: Graph, root: Func, remembered: set<Func>)
    ensures AreCut(remembered, g, root, remembered)
  {}

  /** An empty memo refuses the most; and the memo matters only to a handler that
      an own dependency of its route leads back to. */
  lemma EmptyMemoRefusesMost(g: Graph, f: Func, own: seq<Item>, remembered: set<Func>)
    ensures IsRefused(g, f, own, remembered) ==> IsRefused(g, f, own, {})
    ensures (forall d, walk | Wants(own, d) :: !Leads(g, walk, d, f)) ==>
              (IsRefused(g, f, own, remembered) <==> IsRefused(g, f, own, {}))
  {
    forall d
      ensures Cut(g, d, f, {}) ==> Cut(g, d, f, remembered)
    {
      assert forall walk | Leads(g, walk, d, f) :: Forgotten(walk, {});
    }
  }

  // ---- The memo decides

  /** `f`, `d`, which depends on `f`, and `h`, which depends on `d`. */
  const F: Func := 0
  const D: Func := 1
  const H: Func := 2

  function Example(): Graph {
    map[F := [], D := [Depends(F, true)], H := [Depends(D, true)]]
  }

  /** `f`, with `dependencies=[Depends(d)]`, is refused when nothing is
      remembered and accepted when `d` is; `h` is accepted in any case. */
  lemma MemoDecidesRefusal(remembered: set<Func>)
    ensures var g, own := Example(), [Depends(D, true)];
      && IsRefused(g, F, own, {})
      && (D in remembered ==> !IsRefused(g, F, own, remembered))
      && !IsRefused(g, H, [], {})
  {
    var g, own := Example(), [Depends(D, true)];
    assert own[0] == Depends(D, true) && Wants(own, D);
    assert g[D][0] == Depends(F, true) && Edge(g, D, F);
    assert Leads(g, [D, F], D, F) && Forgotten([D, F], {});
    var planF := Plan(F, []);
    var planD := Plan(D, [Dep(true, planF)]);
    var deps := [Dep(true, planD)];
    assert [Depends(F, true)][..0] == [] && own[..0] == [];
    assert IsPlanOf(planF, F, g);
    assert IsPlanOf(planD, D, g);
    assert Items(own, F, g) == own && Items([], H, g) == own;
    assert Planned(deps, own, g);
    if D in remembered {
      assert forall walk | Leads(g, walk, D, F) :: walk[0] in remembered;
      PlannedIsAccepted(deps, F, own, g, remembered);
    }
    forall walk | Walk(g, walk) && walk[0] == D
      ensures !Leads(g, walk, D, H)
    {
      assert |walk| > 1 ==> Edge(g, walk[0], walk[1]);
      assert |walk| > 2 ==> Edge(g, walk[1], walk[2]);
    }
    PlannedIsAccepted(deps, H, [], g, {});
  }

  /** The routes `h`, then `f`, of one pattern and kind: the second is refused on
      its own, and accepted once the first is there. */
  method MemoDecides() returns (alone: Result<Plan, Chain>, after: Result<Plan, Chain>)
    ensures alone.Err? && after.Ok?
  {
    hide IsRefused, Planned, Walk;
    var g, own := Example(), [Depends(D, true)];
    var cache := new Cache();
    assert Remembered(map[], 0, {}) == {};
    MemoDecidesRefusal({});
    alone := PlanRoute(F, own, 0, map[0 := g], {}, cache);

    cache := new Cache();
    var first := PlanRoute(H, [], 0, map[0 := g], {}, cache);
    assert Items([], H, g)[0] == Depends(D, true);
    MemoDecidesRefusal(Remembered(cache.plans, 0, {}));
    after := PlanRoute(F, own, 0, map[0 := g], {}, cache);
  }
}
