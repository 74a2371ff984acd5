/** The index of route names: never stale, however routes are registered
    (korvex/_app.py:226-234, 279-287, 302-306; korvex/_urls.py:52-81;
    korvex/_routing.py:532-542). */
module UrlIndex {
  import opened Wrappers
  import opened Text

  // ---- What an app registers

  /** One line of `router.routes()`. */
  datatype Row = Row(pattern: string, verb: string, key: string)

  /** What the index sees of a router: its listing and its version. */
  datatype RouterState = RouterState(rows: seq<Row>, version: nat)

  datatype Host = Host(pattern: string, hasParams: bool, router: RouterState, wsRouter: RouterState)

  /** What the app keeps about a route: the name a link knows it by, if any. */
  datatype Info = Info(name: Option<string>, explicit: bool)

  datatype State = State(
    router: RouterState, wsRouter: RouterState, hosts: seq<Host>,
    routes: map<string, Info>, wsRoutes: map<string, Info>)

  const INITIAL := State(RouterState([], 0), RouterState([], 0), [], map[], map[])

  /** Where a route is registered: on which host (none: the app itself). */
  datatype Place = Place(host: Option<nat>, websocket: bool)

  function WithRouter(s: State, place: Place, r: RouterState): State
    requires place.host.Some? ==> place.host.value < |s.hosts|
  {
    match place.host
    case None => if place.websocket then s.(wsRouter := r) else s.(router := r)
    case Some(i) =>
      s.(hosts := s.hosts[i := if place.websocket then s.hosts[i].(wsRouter := r) else s.hosts[i].(router := r)])
  }

  function RouterAt(s: State, place: Place): RouterState
    requires place.host.Some? ==> place.host.value < |s.hosts|
  {
    match place.host
    case None => if place.websocket then s.wsRouter else s.router
    case Some(i) => if place.websocket then s.hosts[i].wsRouter else s.hosts[i].router
  }

  /** A route registered: the router takes it, its listing becomes `rows` and
      its version goes up; then the app keeps it under its key. */
  function Registered(s: State, place: Place, rows: seq<Row>, key: string, info: Info): State
    requires place.host.Some? ==> place.host.value < |s.hosts|
  {
    var s' := WithRouter(s, place, RouterState(rows, RouterAt(s, place).version + 1));
    if place.websocket then s'.(wsRoutes := s'.wsRoutes[key := info]) else s'.(routes := s'.routes[key := info])
  }

  function WithParams(hosts: seq<Host>, hasParams: bool): seq<Host> {
    if hosts == [] then []
    else (if hosts[0].hasParams == hasParams then [hosts[0]] else []) + WithParams(hosts[1..], hasParams)
  }

  /** `hosts.sort(key=lambda h: bool(h.params))`: stable, literal hosts first. */
  function Sorted(hosts: seq<Host>): seq<Host> {
    WithParams(hosts, false) + WithParams(hosts, true)
  }

  function HostAdded(s: State, pattern: string, hasParams: bool): State {
    if exists i :: 0 <= i < |s.hosts| && s.hosts[i].pattern == pattern then s
    else s.(hosts := Sorted(s.hosts + [Host(pattern, hasParams, RouterState([], 0), RouterState([], 0))]))
  }

  // ---- The signature

  datatype Signature = Signature(routes: nat, wsRoutes: nat, versions: seq<nat>)

  function HostVersions(hosts: seq<Host>): seq<nat> {
    if hosts == [] then [] else [hosts[0].router.version, hosts[0].wsRouter.version] + HostVersions(hosts[1..])
  }

  function SignatureOf(s: State): Signature {
    Signature(|s.routes|, |s.wsRoutes|, [s.router.version, s.wsRouter.version] + HostVersions(s.hosts))
  }

  function Sum(ns: seq<nat>): nat {
    if ns == [] then 0 else ns[0] + Sum(ns[1..])
  }

  /** How often the routes changed: a signature gives it away. */
  function Changes(g: Signature): nat {
    Sum(g.versions) + |g.versions|
  }

  lemma {:induction false} SumConcat(a: seq<nat>, b: seq<nat>)
    ensures Sum(a + b) == Sum(a) + Sum(b)
  {
    if a == [] {
      assert a + b == b;
    } else {
      assert (a + b)[1..] == a[1..] + b;
      SumConcat(a[1..], b);
    }
  }

  function Weight(hosts: seq<Host>): nat {
    if hosts == [] then 0 else 2 + hosts[0].router.version + hosts[0].wsRouter.version + Weight(hosts[1..])
  }

  lemma {:induction false} WeightIs(hosts: seq<Host>)
    ensures Sum(HostVersions(hosts)) + |HostVersions(hosts)| == Weight(hosts)
  {
    if hosts != [] {
      WeightIs(hosts[1..]);
      var pair := [hosts[0].router.version, hosts[0].wsRouter.version];
      SumConcat(pair, HostVersions(hosts[1..]));
      assert pair[1..] == [hosts[0].wsRouter.version] && pair[1..][1..] == [];
    }
  }

  lemma ChangesIs(s: State)
    ensures Changes(SignatureOf(s)) == 2 + s.router.version + s.wsRouter.version + Weight(s.hosts)
  {
    WeightIs(s.hosts);
    var pair := [s.router.version, s.wsRouter.version];
    SumConcat(pair, HostVersions(s.hosts));
    assert pair[1..] == [s.wsRouter.version] && pair[1..][1..] == [];
  }

  lemma {:induction false} WeightConcat(a: seq<Host>, b: seq<Host>)
    ensures Weight(a + b) == Weight(a) + Weight(b)
  {
    if a == [] {
      assert a + b == b;
    } else {
      assert (a + b)[1..] == a[1..] + b;
      WeightConcat(a[1..], b);
    }
  }

  lemma {:induction false} WeightSorted(hosts: seq<Host>)
    ensures Weight(Sorted(hosts)) == Weight(hosts)
  {
    WeightConcat(WithParams(hosts, false), WithParams(hosts, true));
    if hosts != [] {
      WeightSorted(hosts[1..]);
      WeightConcat(WithParams(hosts[1..], false), WithParams(hosts[1..], true));
      WeightConcat([hosts[0]], WithParams(hosts[1..], hosts[0].hasParams));
      assert [hosts[0]][1..] == [];
      assert WithParams(hosts, !hosts[0].hasParams) == WithParams(hosts[1..], !hosts[0].hasParams);
    }
  }

  lemma {:induction false} WeightUpdate(hosts: seq<Host>, i: nat, h: Host)
    requires i < |hosts|
    ensures Weight(hosts[i := h]) + hosts[i].router.version + hosts[i].wsRouter.version ==
      Weight(hosts) + h.router.version + h.wsRouter.version
  {
    if i > 0 {
      assert hosts[i := h][1..] == hosts[1..][i - 1 := h];
      WeightUpdate(hosts[1..], i - 1, h);
    } else {
      assert hosts[0 := h][1..] == hosts[1..];
    }
  }

  /** Registering a route changes the signature, even in place of another. */
  lemma RegisteredChanges(s: State, place: Place, rows: seq<Row>, key: string, info: Info)
    requires place.host.Some? ==> place.host.value < |s.hosts|
    ensures Changes(SignatureOf(Registered(s, place, rows, key, info))) == Changes(SignatureOf(s)) + 1
  {
    var s' := Registered(s, place, rows, key, info);
    ChangesIs(s);
    ChangesIs(s');
    if place.host.Some? {
      WeightUpdate(s.hosts, place.host.value, s'.hosts[place.host.value]);
    }
  }

  /** So does a new host, though it re-sorts the others. */
  lemma HostChanges(s: State, pattern: string, hasParams: bool)
    ensures var s' := HostAdded(s, pattern, hasParams);
      s' == s || Changes(SignatureOf(s')) == Changes(SignatureOf(s)) + 2
  {
    var s' := HostAdded(s, pattern, hasParams);
    if s' != s {
      var added := [Host(pattern, hasParams, RouterState([], 0), RouterState([], 0))];
      ChangesIs(s);
      ChangesIs(s');
      WeightSorted(s.hosts + added);
      WeightConcat(s.hosts, added);
      assert added[1..] == [];
    }
  }

  // ---- Runs of registrations

  /** One registration: of a route, an HTTP or WebSocket one, static files and
      documentation included; of a host; or one that raises and changes nothing. */
  ghost predicate Step(s: State, s': State) {
    || s' == s
    || (exists place: Place, rows, key, info ::
          (place.host.Some? ==> place.host.value < |s.hosts|) && s' == Registered(s, place, rows, key, info))
    || (exists pattern, hasParams :: s' == HostAdded(s, pattern, hasParams))
  }

  ghost predicate Run(states: seq<State>) {
    |states| > 0 && forall i | 0 <= i < |states| - 1 :: Step(states[i], states[i + 1])
  }

  lemma StepChanges(s: State, s': State)
    requires Step(s, s')
    ensures s' == s || Changes(SignatureOf(s')) > Changes(SignatureOf(s))
  {
    hide SignatureOf, Changes, Registered, HostAdded;
    if s' != s {
      if exists pattern, hasParams :: s' == HostAdded(s, pattern, hasParams) {
        var pattern, hasParams :| s' == HostAdded(s, pattern, hasParams);
        HostChanges(s, pattern, hasParams);
      } else {
        var place: Place, rows, key, info :|
          (place.host.Some? ==> place.host.value < |s.hosts|) && s' == Registered(s, place, rows, key, info);
        RegisteredChanges(s, place, rows, key, info);
      }
    }
  }

  /** Over every run of registrations, an equal signature means that nothing
      the index is made from has changed in between. */
  lemma {:induction false} EqualSignatureSameState(states: seq<State>, i: nat, j: nat)
    requires Run(states) && i <= j < |states|
    ensures Changes(SignatureOf(states[i])) <= Changes(SignatureOf(states[j]))
    ensures Changes(SignatureOf(states[i])) == Changes(SignatureOf(states[j])) ==> states[i] == states[j]
    ensures SignatureOf(states[i]) == SignatureOf(states[j]) ==> states[i] == states[j]
    decreases j
  {
    hide SignatureOf, Changes, Step;
    if i < j {
      EqualSignatureSameState(states, i, j - 1);
      StepChanges(states[j - 1], states[j]);
    }
  }

  // ---- The index itself

  datatype Target = Target(name: string, key: string, websocket: bool, verb: string, pattern: string, host: Option<nat>)

  /** Names, each with the routes it points to; explicit names apart. */
  datatype Index = Index(explicit: map<string, seq<Target>>, byDefault: map<string, seq<Target>>)

  function Appended(m: map<string, seq<Target>>, t: Target): map<string, seq<Target>> {
    m[t.name := (if t.name in m then m[t.name] else []) + [t]]
  }

  function Indexed(index: Index, row: Row, infos: map<string, Info>, websocket: bool, host: Option<nat>): Index {
    if row.key !in infos || infos[row.key].name.None? then index
    else
      var info := infos[row.key];
      var t := Target(info.name.value, row.key, websocket, row.verb, row.pattern, host);
      if info.explicit then index.(explicit := Appended(index.explicit, t))
      else index.(byDefault := Appended(index.byDefault, t))
  }

  function IndexRows(index: Index, rows: seq<Row>, infos: map<string, Info>, websocket: bool, host: Option<nat>): Index
    decreases |rows|
  {
    if rows == [] then index
    else IndexRows(Indexed(index, rows[0], infos, websocket, host), rows[1..], infos, websocket, host)
  }

  function IndexHosts(index: Index, s: State, i: nat): Index
    requires i <= |s.hosts|
    decreases |s.hosts| - i
  {
    if i == |s.hosts| then index
    else
      var http := IndexRows(index, s.hosts[i].router.rows, s.routes, false, Some(i));
      IndexHosts(IndexRows(http, s.hosts[i].wsRouter.rows, s.wsRoutes, true, Some(i)), s, i + 1)
  }

  /** `build_index`. */
  function BuildIndex(s: State): Index {
    var http := IndexRows(Index(map[], map[]), s.router.rows, s.routes, false, None);
    IndexHosts(IndexRows(http, s.wsRouter.rows, s.wsRoutes, true, None), s, 0)
  }

  ghost predicate In(index: Index, t: Target, explicit: bool) {
    var m := if explicit then index.explicit else index.byDefault;
    t.name in m && t in m[t.name]
  }

  /** Every target is listed under its own name. */
  ghost predicate Named(index: Index) {
    && (forall n, t | n in index.explicit && t in index.explicit[n] :: t.name == n)
    && (forall n, t | n in index.byDefault && t in index.byDefault[n] :: t.name == n)
  }

  /** `t` is the target of a row. */
  ghost predicate OfRow(t: Target, explicit: bool, row: Row, infos: map<string, Info>, websocket: bool, host: Option<nat>) {
    row.key in infos && infos[row.key] == Info(Some(t.name), explicit)
      && t == Target(t.name, row.key, websocket, row.verb, row.pattern, host)
  }

  lemma {:induction false} IndexRowsIn(
    index: Index, rows: seq<Row>, infos: map<string, Info>, websocket: bool, host: Option<nat>, t: Target, explicit: bool)
    requires Named(index)
    ensures Named(IndexRows(index, rows, infos, websocket, host))
    ensures In(IndexRows(index, rows, infos, websocket, host), t, explicit) <==>
      In(index, t, explicit) || exists i | 0 <= i < |rows| :: OfRow(t, explicit, rows[i], infos, websocket, host)
    decreases |rows|
  {
    if rows != [] {
      var next := Indexed(index, rows[0], infos, websocket, host);
      assert Named(next) && (In(next, t, explicit) <==> In(index, t, explicit) || OfRow(t, explicit, rows[0], infos, websocket, host)) by {
        IndexedIn(index, rows[0], infos, websocket, host, t, explicit);
      }
      IndexRowsIn(next, rows[1..], infos, websocket, host, t, explicit);
      assert forall i | 1 <= i < |rows| :: rows[i] == rows[1..][i - 1];
    }
  }

  lemma IndexedIn(index: Index, row: Row, infos: map<string, Info>, websocket: bool, host: Option<nat>, t: Target, explicit: bool)
    requires Named(index)
    ensures Named(Indexed(index, row, infos, websocket, host))
    ensures In(Indexed(index, row, infos, websocket, host), t, explicit) <==>
      In(index, t, explicit) || OfRow(t, explicit, row, infos, websocket, host)
  {}

  /** `t` is a route registered now, with a name. */
  ghost predicate Listed(s: State, t: Target, explicit: bool) {
    && (t.host.Some? ==> t.host.value < |s.hosts|)
    && var rows := RouterAt(s, Place(t.host, t.websocket)).rows;
      exists i | 0 <= i < |rows| :: OfRow(t, explicit, rows[i], if t.websocket then s.wsRoutes else s.routes, t.websocket, t.host)
  }

  lemma {:induction false} IndexHostsIn(index: Index, s: State, i: nat, t: Target, explicit: bool)
    requires i <= |s.hosts| && Named(index)
    ensures Named(IndexHosts(index, s, i))
    ensures In(IndexHosts(index, s, i), t, explicit) <==>
      In(index, t, explicit) || (t.host.Some? && i <= t.host.value && Listed(s, t, explicit))
    decreases |s.hosts| - i
  {
    hide Named, In, IndexRows, OfRow;
    if i < |s.hosts| {
      var http := IndexRows(index, s.hosts[i].router.rows, s.routes, false, Some(i));
      IndexRowsIn(index, s.hosts[i].router.rows, s.routes, false, Some(i), t, explicit);
      IndexRowsIn(http, s.hosts[i].wsRouter.rows, s.wsRoutes, true, Some(i), t, explicit);
      IndexHostsIn(IndexRows(http, s.hosts[i].wsRouter.rows, s.wsRoutes, true, Some(i)), s, i + 1, t, explicit);
      OfRowPlace(t);
    }
  }

  lemma OfRowPlace(t: Target)
    ensures forall explicit, row, infos, websocket, host :: OfRow(t, explicit, row, infos, websocket, host) ==>
      t.websocket == websocket && t.host == host
  {}

  /** The index holds exactly the named routes registered now. */
  lemma BuildIndexIsExact(s: State, t: Target, explicit: bool)
    ensures In(BuildIndex(s), t, explicit) <==> Listed(s, t, explicit)
  {
    hide In, IndexRows, OfRow;
    var empty := Index(map[], map[]);
    var http := IndexRows(empty, s.router.rows, s.routes, false, None);
    assert !In(empty, t, explicit) by { EmptyIndex(t, explicit); }
    IndexRowsIn(empty, s.router.rows, s.routes, false, None, t, explicit);
    IndexRowsIn(http, s.wsRouter.rows, s.wsRoutes, true, None, t, explicit);
    IndexHostsIn(IndexRows(http, s.wsRouter.rows, s.wsRoutes, true, None), s, 0, t, explicit);
    OfRowPlace(t);
  }

  lemma EmptyIndex(t: Target, explicit: bool)
    ensures !In(Index(map[], map[]), t, explicit)
  {}

  // ---- What a registration changes

  /** What is in the index after a route is registered: of its own place, what the
      router lists then; elsewhere, what was there, but for the routes kept under
      the same key, which go by the new name. */
  lemma RegisteredIsIndexed(s: State, place: Place, rows: seq<Row>, key: string, info: Info, t: Target, explicit: bool)
    requires place.host.Some? ==> place.host.value < |s.hosts|
    ensures var was := In(BuildIndex(s), t, explicit);
      var now := In(BuildIndex(Registered(s, place, rows, key, info)), t, explicit);
      && (t.websocket != place.websocket ==> (now <==> was))
      && (t.key != key && Place(t.host, t.websocket) != place ==> (now <==> was))
      && (t.key != key && Place(t.host, t.websocket) == place ==>
            (now <==> Row(t.pattern, t.verb, t.key) in rows && Known(s, t, explicit)))
      && (t.key == key && t.websocket == place.websocket ==>
            (now <==> (
              && info == Info(Some(t.name), explicit)
              && (t.host.Some? ==> t.host.value < |s.hosts|)
              && Row(t.pattern, t.verb, key) in
                   (if t.host == place.host then rows else RouterAt(s, Place(t.host, t.websocket)).rows))))
  {
    hide BuildIndex, In, Listed;
    var s' := Registered(s, place, rows, key, info);
    BuildIndexIsExact(s, t, explicit);
    BuildIndexIsExact(s', t, explicit);
    ListedIs(s, t, explicit);
    ListedIs(s', t, explicit);
  }

  /** What the app keeps for the target's key is this name. */
  ghost predicate Known(s: State, t: Target, explicit: bool) {
    var infos := if t.websocket then s.wsRoutes else s.routes;
    t.key in infos && infos[t.key] == Info(Some(t.name), explicit)
  }

  lemma ListedIs(s: State, t: Target, explicit: bool)
    ensures Listed(s, t, explicit) <==>
      && (t.host.Some? ==> t.host.value < |s.hosts|)
      && Row(t.pattern, t.verb, t.key) in RouterAt(s, Place(t.host, t.websocket)).rows
      && Known(s, t, explicit)
  {}

  /** So a route that is registered with a name is found under it. */
  lemma RegisteredIsFound(s: State, place: Place, rows: seq<Row>, key: string, name: string, explicit: bool, row: Row)
    requires place.host.Some? ==> place.host.value < |s.hosts|
    requires row in rows && row.key == key
    ensures In(BuildIndex(Registered(s, place, rows, key, Info(Some(name), explicit))),
               Target(name, key, place.websocket, row.verb, row.pattern, place.host), explicit)
  {
    hide BuildIndex, In;
    var t := Target(name, key, place.websocket, row.verb, row.pattern, place.host);
    assert row == Row(t.pattern, t.verb, key);
    RegisteredIsIndexed(s, place, rows, key, Info(Some(name), explicit), t, explicit);
  }

  // ---- What a new host changes

  /** Sorting keeps every host, puts the literal ones first, and is stable. */
  lemma SortedIs(hosts: seq<Host>)
    ensures multiset(Sorted(hosts)) == multiset(hosts)
    ensures forall i, j | 0 <= i < j < |Sorted(hosts)| && Sorted(hosts)[i].hasParams :: Sorted(hosts)[j].hasParams
    ensures forall b :: WithParams(Sorted(hosts), b) == WithParams(hosts, b)
  {
    SortedKeeps(hosts);
    hide WithParams;
    WithParamsAll(hosts, false);
    WithParamsAll(hosts, true);
    forall b ensures WithParams(Sorted(hosts), b) == WithParams(hosts, b) {
      SortedIsStable(hosts, b);
    }
  }

  lemma SortedIsStable(hosts: seq<Host>, b: bool)
    ensures WithParams(Sorted(hosts), b) == WithParams(hosts, b)
  {
    hide WithParams;
    WithParamsConcat(WithParams(hosts, false), WithParams(hosts, true), b);
    WithParamsTwice(hosts, false, b);
    WithParamsTwice(hosts, true, b);
  }

  lemma {:induction false} SortedKeeps(hosts: seq<Host>)
    ensures multiset(Sorted(hosts)) == multiset(hosts)
  {
    if hosts != [] {
      SortedKeeps(hosts[1..]);
      assert hosts == [hosts[0]] + hosts[1..];
    }
  }

  lemma {:induction false} WithParamsConcat(a: seq<Host>, b: seq<Host>, params: bool)
    ensures WithParams(a + b, params) == WithParams(a, params) + WithParams(b, params)
  {
    if a == [] {
      assert a + b == b;
    } else {
      assert (a + b)[1..] == a[1..] + b;
      WithParamsConcat(a[1..], b, params);
    }
  }

  lemma {:induction false} WithParamsTwice(hosts: seq<Host>, a: bool, b: bool)
    ensures WithParams(WithParams(hosts, a), b) == if a == b then WithParams(hosts, b) else []
  {
    if hosts != [] {
      WithParamsTwice(hosts[1..], a, b);
      var kept := WithParams(hosts, a);
      if hosts[0].hasParams == a {
        assert kept[0] == hosts[0] && kept[1..] == WithParams(hosts[1..], a);
      } else {
        assert kept == WithParams(hosts[1..], a);
      }
    }
  }

  lemma {:induction false} WithParamsAll(hosts: seq<Host>, params: bool)
    ensures forall i | 0 <= i < |WithParams(hosts, params)| :: WithParams(hosts, params)[i].hasParams == params
  {
    if hosts != [] { WithParamsAll(hosts[1..], params); }
  }

  /** A new host has no routes, and moves no route to another host: each is in the
      index as before, under the place its host has now. */
  lemma HostKeepsTargets(s: State, pattern: string, hasParams: bool, t: Target, explicit: bool)
    requires t.host.Some? ==> t.host.value < |s.hosts|
    ensures var s' := HostAdded(s, pattern, hasParams);
      match t.host
      case None => In(BuildIndex(s'), t, explicit) <==> In(BuildIndex(s), t, explicit)
      case Some(i) =>
        exists j: nat ::
          && j < |s'.hosts| && s'.hosts[j] == s.hosts[i]
          && (In(BuildIndex(s'), t.(host := Some(j)), explicit) <==> In(BuildIndex(s), t, explicit))
  {
    hide BuildIndex, In, Sorted;
    var s' := HostAdded(s, pattern, hasParams);
    SortedIs(s.hosts + [Host(pattern, hasParams, RouterState([], 0), RouterState([], 0))]);
    BuildIndexIsExact(s, t, explicit);
    ListedIs(s, t, explicit);
    if t.host.None? {
      BuildIndexIsExact(s', t, explicit);
      ListedIs(s', t, explicit);
    } else {
      var h := s.hosts[t.host.value];
      assert h in multiset(s'.hosts) by { assert h in s.hosts; }
      var j :| 0 <= j < |s'.hosts| && s'.hosts[j] == h;
      BuildIndexIsExact(s', t.(host := Some(j)), explicit);
      ListedIs(s', t.(host := Some(j)), explicit);
    }
  }

  /** A pattern that already has a host changes nothing, and no two hosts share one. */
  lemma HostsAreDistinct(s: State, pattern: string, hasParams: bool)
    requires forall i, j | 0 <= i < j < |s.hosts| :: s.hosts[i].pattern != s.hosts[j].pattern
    ensures var s' := HostAdded(s, pattern, hasParams);
      && (s' == s <==> exists i :: 0 <= i < |s.hosts| && s.hosts[i].pattern == pattern)
      && (exists i :: 0 <= i < |s'.hosts| && s'.hosts[i].pattern == pattern)
      && forall i, j | 0 <= i < j < |s'.hosts| :: s'.hosts[i].pattern != s'.hosts[j].pattern
  {
    if !exists i :: 0 <= i < |s.hosts| && s.hosts[i].pattern == pattern {
      var h := Host(pattern, hasParams, RouterState([], 0), RouterState([], 0));
      var s' := HostAdded(s, pattern, hasParams);
      HostIsAdded(s, pattern, hasParams);
      assert |multiset(s'.hosts)| == |s.hosts| + 1;
      assert h in multiset(s'.hosts);
      forall i, j | 0 <= i < j < |s'.hosts| ensures s'.hosts[i].pattern != s'.hosts[j].pattern {
        PatternsDiffer(s.hosts, h, s'.hosts, i, j);
      }
    }
  }

  lemma PatternsDiffer(hosts: seq<Host>, h: Host, more: seq<Host>, i: nat, j: nat)
    requires forall i, j | 0 <= i < j < |hosts| :: hosts[i].pattern != hosts[j].pattern
    requires forall i | 0 <= i < |hosts| :: hosts[i].pattern != h.pattern
    requires multiset(more) == multiset(hosts) + multiset{h} && i < j < |more|
    ensures more[i].pattern != more[j].pattern
  {
    var a, b := more[i], more[j];
    assert more == more[..i] + [a] + more[i + 1..j] + [b] + more[j + 1..];
    assert a in multiset(more) && b in multiset(more);
    assert (a in hosts || a == h) && (b in hosts || b == h);
    assert h !in hosts;
    OnceIn(hosts, a);
    assert multiset(more)[a] <= 1;
    assert a != b;
  }

  lemma OnceIn(hosts: seq<Host>, h: Host)
    requires forall i, j | 0 <= i < j < |hosts| :: hosts[i].pattern != hosts[j].pattern
    ensures multiset(hosts)[h] <= 1
  {
    if h in hosts {
      var i :| 0 <= i < |hosts| && hosts[i] == h;
      assert hosts == hosts[..i] + [h] + hosts[i + 1..];
      assert h !in hosts[..i] && h !in hosts[i + 1..];
    }
  }

  /** It is there from then on, once, and hosts without parameters come first. */
  lemma HostIsAdded(s: State, pattern: string, hasParams: bool)
    requires forall i | 0 <= i < |s.hosts| :: s.hosts[i].pattern != pattern
    ensures var s' := HostAdded(s, pattern, hasParams);
      && multiset(s'.hosts) == multiset(s.hosts) + multiset{Host(pattern, hasParams, RouterState([], 0), RouterState([], 0))}
      && (forall i, j | 0 <= i < j < |s'.hosts| && s'.hosts[i].hasParams :: s'.hosts[j].hasParams)
      && (forall b :: WithParams(s'.hosts, b) == WithParams(s.hosts, b)
            + if b == hasParams then [Host(pattern, hasParams, RouterState([], 0), RouterState([], 0))] else [])
  {
    var added := [Host(pattern, hasParams, RouterState([], 0), RouterState([], 0))];
    hide Sorted;
    SortedIs(s.hosts + added);
    forall b
      ensures WithParams(s.hosts + added, b) == WithParams(s.hosts, b) + if b == hasParams then added else []
    {
      WithParamsConcat(s.hosts, added, b);
      assert added[1..] == [];
    }
  }

  // ---- Looking a name up

  datatype NameError = NoRoute | SeveralRoutes

  /** Where a target is: the kind of route, the host and the pattern. */
  function PlaceOf(t: Target): (bool, Option<nat>, string) {
    (t.websocket, t.host, t.pattern)
  }

  predicate SamePlace(t: Target, u: Target) {
    t.websocket == u.websocket && t.host == u.host && t.pattern == u.pattern
  }

  /** `index.explicit.get(name) or index.default.get(name)`. */
  function Candidates(index: Index, name: string): seq<Target> {
    if name in index.explicit && index.explicit[name] != [] then index.explicit[name]
    else if name in index.byDefault then index.byDefault[name]
    else []
  }

  /** `lookup`: explicit names first; several routes only in one place. */
  function Resolve(index: Index, name: string): Result<Target, NameError> {
    var targets := Candidates(index, name);
    if targets == [] then Err(NoRoute)
    else if forall i | 0 <= i < |targets| :: SamePlace(targets[i], targets[0]) then Ok(targets[0])
    else Err(SeveralRoutes)
  }

  ghost predicate Names(s: State, name: string, t: Target, explicit: bool) {
    t.name == name && Listed(s, t, explicit)
  }

  /** A name resolves to a route listed now, the only place it names at its
      level; it fails when no route has it, or two places do. */
  lemma ResolveIs(s: State, name: string)
    ensures match Resolve(BuildIndex(s), name)
      case Ok(t) =>
        exists explicit :: Names(s, name, t, explicit) && (forall u | Names(s, name, u, explicit) :: PlaceOf(u) == PlaceOf(t))
          && (!explicit ==> forall u :: !Names(s, name, u, true))
      case Err(NoRoute) => forall u, explicit :: !Names(s, name, u, explicit)
      case Err(SeveralRoutes) =>
        exists t, u, explicit :: Names(s, name, t, explicit) && Names(s, name, u, explicit) && PlaceOf(t) != PlaceOf(u)
  {
    hide BuildIndex, Listed;
    var index := BuildIndex(s);
    forall t, explicit ensures In(index, t, explicit) <==> Listed(s, t, explicit) { BuildIndexIsExact(s, t, explicit); }
    assert Named(index) by { BuildIndexNamed(s); }
    var explicitly := name in index.explicit && index.explicit[name] != [];
    var targets := Candidates(index, name);
    assert forall t :: Names(s, name, t, explicitly) <==> t in targets;
    match Resolve(index, name)
    case Ok(t) =>
      assert Names(s, name, t, explicitly);
      assert forall u | u in targets :: SamePlace(u, t);
      forall u | !explicitly ensures !Names(s, name, u, true) {
        assert !In(index, u, true) || u.name != name;
      }
    case Err(NoRoute) =>
    case Err(SeveralRoutes) =>
      var i :| 0 <= i < |targets| && !SamePlace(targets[i], targets[0]);
      assert Names(s, name, targets[i], explicitly) && Names(s, name, targets[0], explicitly);
  }

  lemma BuildIndexNamed(s: State)
    ensures Named(BuildIndex(s))
  {
    hide Named, IndexRows, In, OfRow;
    var t := Target("", "", false, "", "", None);
    var empty := Index(map[], map[]);
    assert Named(empty) by { EmptyNamed(); }
    var http := IndexRows(empty, s.router.rows, s.routes, false, None);
    IndexRowsIn(empty, s.router.rows, s.routes, false, None, t, false);
    IndexRowsIn(http, s.wsRouter.rows, s.wsRoutes, true, None, t, false);
    IndexHostsIn(IndexRows(http, s.wsRouter.rows, s.wsRoutes, true, None), s, 0, t, false);
  }

  lemma EmptyNamed()
    ensures Named(Index(map[], map[]))
  {}

  // ---- The app

  class App {
    var state: State
    var cache: Option<(Signature, Index)>
    ghost var run: seq<State>  // every state so far
    ghost var cachedAt: nat

    /** The cache is the index of some state of this run. */
    ghost predicate Valid()
      reads this
    {
      && Run(run)
      && run[|run| - 1] == state
      && (cache.Some? ==> cachedAt < |run| && cache.value == (SignatureOf(run[cachedAt]), BuildIndex(run[cachedAt])))
    }

    constructor ()
      ensures Valid() && state == INITIAL
    {
      state, cache := INITIAL, None;
      run, cachedAt := [INITIAL], 0;
    }

    /** `router.route()` took the route and lists `rows` from then on. */
    method Register(place: Place, rows: seq<Row>, key: string, info: Info)
      requires Valid() && (place.host.Some? ==> place.host.value < |state.hosts|)
      modifies this
      ensures Valid() && state == Registered(old(state), place, rows, key, info)
      ensures forall row | row in rows && row.key == key && info.name.Some? ::
        In(BuildIndex(state), Target(info.name.value, key, place.websocket, row.verb, row.pattern, place.host), info.explicit)
    {
      hide Registered, SignatureOf, BuildIndex, In;
      forall row | row in rows && row.key == key && info.name.Some?
        ensures In(BuildIndex(Registered(state, place, rows, key, info)),
                   Target(info.name.value, key, place.websocket, row.verb, row.pattern, place.host), info.explicit)
      {
        RegisteredIsFound(state, place, rows, key, info.name.value, info.explicit, row);
      }
      state := Registered(state, place, rows, key, info);
      run := run + [state];
      assert forall i | 0 <= i < |run| - 2 :: Step(run[i], run[i + 1]);
    }

    method AddHost(pattern: string, hasParams: bool)
      requires Valid()
      modifies this
      ensures Valid() && state == HostAdded(old(state), pattern, hasParams)
    {
      hide HostAdded, SignatureOf, BuildIndex;
      state := HostAdded(state, pattern, hasParams);
      run := run + [state];
      assert forall i | 0 <= i < |run| - 2 :: Step(run[i], run[i + 1]);
    }

    /** `_url_index`: worked out again only when the signature changed, and
        always what `build_index` would give now. */
    method UrlIndex() returns (index: Index)
      requires Valid()
      modifies this`cache, this`cachedAt
      ensures Valid() && state == old(state)
      ensures index == BuildIndex(state)
    {
      hide SignatureOf, BuildIndex;
      var signature := SignatureOf(state);
      if cache.None? || cache.value.0 != signature {
        cache, cachedAt := Some((signature, BuildIndex(state))), |run| - 1;
      } else {
        EqualSignatureSameState(run, cachedAt, |run| - 1);
      }
      index := cache.value.1;
    }
  }

  // ---- Handler keys

  lemma DecimalInjective(a: nat, b: nat)
    requires Decimal(a) == Decimal(b)
    ensures a == b
  {
    NumberOfDecimal(a);
    NumberOfDecimal(b);
  }

  function Numbered(base: string, n: nat): string {
    if n < 2 then base else base + "#" + Decimal(n)
  }

  lemma NumberedInjective(base: string, a: nat, b: nat)
    requires 1 <= a < b
    ensures Numbered(base, a) != Numbered(base, b)
  {
    if a >= 2 {
      assert Numbered(base, a)[|base| + 1..] == Decimal(a) && Numbered(base, b)[|base| + 1..] == Decimal(b);
      if Decimal(a) == Decimal(b) {
        DecimalInjective(a, b);
      }
    }
  }

  /** `_route_name`: the first of `base`, `base#2`, `base#3`... not taken, so a
      key of the route's own. */
  method RouteName(base: string, taken: set<string>) returns (name: string)
    ensures name !in taken
    ensures exists n: nat :: n >= 1 && name == Numbered(base, n) && forall i | 1 <= i < n :: Numbered(base, i) in taken
  {
    hide Numbered;
    var n := 1;
    name := base;
    assert base == Numbered(base, 1) by { NumberedOne(base); }
    ghost var tried: set<string> := {};
    while name in taken
      invariant n >= 1 && name == Numbered(base, n)
      invariant tried <= taken && (forall i | 1 <= i < n :: Numbered(base, i) in tried)
      invariant forall t | t in tried :: exists i: nat :: 1 <= i < n && t == Numbered(base, i)
      decreases |taken - tried|
    {
      if name in tried {
        var i: nat :| 1 <= i < n && name == Numbered(base, i);
        NumberedInjective(base, i, n);
      }
      ghost var before := taken - tried;
      tried := tried + {name};
      assert taken - tried == before - {name} && name in before;
      n := n + 1;
      name := base + "#" + Decimal(n);
      assert name == Numbered(base, n) by { NumberedMore(base, n); }
    }
  }

  lemma NumberedOne(base: string)
    ensures Numbered(base, 1) == base
  {}

  lemma NumberedMore(base: string, n: nat)
    requires n >= 2
    ensures Numbered(base, n) == base + "#" + Decimal(n)
  {}
}
