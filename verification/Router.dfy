/** The router Python sees: the tree with its constraints, a cache of lookups
    and a version (korvex/router.py, src/lib.rs). */
module Router {
  import opened Wrappers
  import opened Text
  import opened Path
  import RT = RouteTree
  import opened RouteTreeMap
  import opened RouteTreeFind
  import opened RouteTreeOrder
  import opened RouteText
  import opened RouteTreeRebuild
  import opened RouteNode
  import opened RouteTreeMethods
  import opened RouteTreePriority

  datatype Route = Route(handler: string, middleware: seq<string>)

  /** What `match` gives: `None`, a match, or an exception. */
  datatype Response =
    | NoRoute
    | Found(route: Route, captures: seq<RT.Capture>)
    | MethodNotAllowedRaised(allowed: seq<string>)
    | ValueErrorRaised

  function ParseMethod(name: string): Option<RT.Method> {
    if name == "GET" then Some(RT.GET)
    else if name == "POST" then Some(RT.POST)
    else if name == "PUT" then Some(RT.PUT)
    else if name == "PATCH" then Some(RT.PATCH)
    else if name == "DELETE" then Some(RT.DELETE)
    else if name == "HEAD" then Some(RT.HEAD)
    else if name == "OPTIONS" then Some(RT.OPTIONS)
    else None
  }

  /** `Method::as_str`. */
  function MethodName(m: RT.Method): string {
    match m
    case GET => "GET"
    case POST => "POST"
    case PUT => "PUT"
    case PATCH => "PATCH"
    case DELETE => "DELETE"
    case HEAD => "HEAD"
    case OPTIONS => "OPTIONS"
  }

  /** A method is read from its own name, and from no other text. */
  lemma ParseMethodIs(name: string, m: RT.Method)
    ensures ParseMethod(name) == Some(m) <==> name == MethodName(m)
  {}

  function Verbs(ms: RT.Methods<Route>): seq<string> {
    seq(|ms|, i requires 0 <= i < |ms| => MethodName(ms[i].verb))
  }

  /** A lookup without the cache. */
  function Uncached(t: RT.Tree<Route>, rx: RT.Regex, path: string, verb: string): Response {
    match ParseMethod(verb)
    case None => ValueErrorRaised
    case Some(m) =>
      match RT.Find(t, rx, Trim(path, '/'), m)
      case NotFound => NoRoute
      case MethodNotAllowed(allowed) => MethodNotAllowedRaised(Verbs(allowed))
      case Matched(route, captures) => Found(route, captures)
  }

  predicate Raises(r: Response) {
    r.MethodNotAllowedRaised? || r.ValueErrorRaised?
  }

  // ---- What was registered, by the text of its method

  /** A call that was accepted. */
  datatype Call = Added(verb: string, steps: RT.Steps, route: Route) | Removed(verb: string, steps: RT.Steps)

  /** What the last call about a pattern, under this very method, left there. */
  function Registered(run: seq<Call>, p: RT.Pattern, verb: string): Option<Route> {
    if run == [] then None
    else
      match run[|run| - 1]
      case Added(v, steps, route) =>
        if v == verb && steps == RT.AsSteps(p) then Some(route) else Registered(run[..|run| - 1], p, verb)
      case Removed(v, steps) =>
        if v == verb && UpToWildcard(steps) == RT.AsSteps(p) then None else Registered(run[..|run| - 1], p, verb)
  }

  /** The tree holds what was registered, under the seven methods only. */
  ghost predicate Recorded(t: RT.Tree<Route>, run: seq<Call>) {
    && (forall p, m :: RT.RouteAt(t, p, m) == Registered(run, p, MethodName(m)))
    && (forall p, verb | ParseMethod(verb).None? :: Registered(run, p, verb) == None)
  }

  ghost predicate Matches(p: RT.Pattern, defined: Constraints, rx: RT.Regex, path: string) {
    RouteTreeFind.Match(p, defined, rx, Trim(path, '/')).Some?
  }

  /** What a lookup answers, from the calls so far: a route registered under that
      very method, of a pattern that matches and that none goes before; failing
      that, the methods of the pattern that goes first; else nothing. */
  ghost predicate IsAnswer(r: Response, run: seq<Call>, defined: Constraints, rx: RT.Regex, path: string, verb: string) {
    match r
    case ValueErrorRaised => forall m :: verb != MethodName(m)
    case Found(route, captures) => exists p :: FoundAt(p, route, captures, run, defined, rx, path, verb)
    case NoRoute => forall q, v | Registered(run, q, v).Some? :: !Matches(q, defined, rx, path)
    case MethodNotAllowedRaised(allowed) =>
      && (forall q | Registered(run, q, verb).Some? :: !Matches(q, defined, rx, path))
      && exists p :: RefusedAt(p, allowed, run, defined, rx, path)
  }

  ghost predicate FoundAt(
    p: RT.Pattern, route: Route, captures: seq<RT.Capture>, run: seq<Call>, defined: Constraints, rx: RT.Regex, path: string,
    verb: string)
  {
    && Registered(run, p, verb) == Some(route)
    && RouteTreeFind.Match(p, defined, rx, Trim(path, '/')) == Some(captures)
    && forall q | Registered(run, q, verb).Some? && Matches(q, defined, rx, path) :: !Before(q, p)
  }

  ghost predicate RefusedAt(
    p: RT.Pattern, allowed: seq<string>, run: seq<Call>, defined: Constraints, rx: RT.Regex, path: string)
  {
    && Matches(p, defined, rx, path)
    && (forall v :: v in allowed <==> Registered(run, p, v).Some?)
    && (forall i, j | 0 <= i < j < |allowed| :: allowed[i] != allowed[j])
    && forall q, v | Registered(run, q, v).Some? && Matches(q, defined, rx, path) :: !Before(q, p)
  }

  lemma UncachedAnswers(t: RT.Tree<Route>, run: seq<Call>, defined: Constraints, rx: RT.Regex, path: string, verb: string)
    requires RT.Valid(t, defined) && Recorded(t, run)
    ensures IsAnswer(Uncached(t, rx, path, verb), run, defined, rx, path, verb)
  {
    hide RT.Find, RT.RouteAt, RT.Valid, Trim, RouteTreeFind.Match, Registered, Before, Verbs, RefusedAt, FoundAt, MethodName;
    var rest := Trim(path, '/');
    forall name, m ensures ParseMethod(name) == Some(m) <==> name == MethodName(m) { ParseMethodIs(name, m); }
    hide ParseMethod;
    if ParseMethod(verb).Some? {
      var m := ParseMethod(verb).value;
      assert verb == MethodName(m);
      match RT.Find(t, rx, rest, m) {
        case Matched(route, captures) => FoundAnswers(t, run, defined, rx, path, m);
        case MethodNotAllowed(allowed) => RefusedAnswers(t, run, defined, rx, path, m);
        case NotFound =>
          forall q, v | Registered(run, q, v).Some?
            ensures !Matches(q, defined, rx, path)
          {
            var n := ParseMethod(v).value;
            assert RT.RouteAt(t, q, n).Some?;
            if Matches(q, defined, rx, path) { FindSomething(t, q, n, defined, rx, rest, m); }
          }
      }
    } else {
      forall m ensures verb != MethodName(m) { assert ParseMethod(verb) != Some(m); }
    }
  }

  lemma FoundAnswers(t: RT.Tree<Route>, run: seq<Call>, defined: Constraints, rx: RT.Regex, path: string, m: RT.Method)
    requires RT.Valid(t, defined) && Recorded(t, run) && RT.Find(t, rx, Trim(path, '/'), m).Matched?
    ensures var found := RT.Find(t, rx, Trim(path, '/'), m);
      exists p :: FoundAt(p, found.route, found.captures, run, defined, rx, path, MethodName(m))
  {
    hide RT.Find, RT.RouteAt, RT.Valid, Trim, RouteTreeFind.Match, Registered, Before, MethodName, ParseMethod;
    var found := RT.Find(t, rx, Trim(path, '/'), m);
    var p := FindPrefers(t, defined, rx, Trim(path, '/'), m);
    forall q | Registered(run, q, MethodName(m)).Some? && Matches(q, defined, rx, path)
      ensures !Before(q, p)
    {
      assert RT.RouteAt(t, q, m).Some?;
      assert Takes(t, q, defined, rx, Trim(path, '/'), m);
    }
    assert FoundAt(p, found.route, found.captures, run, defined, rx, path, MethodName(m));
  }

  lemma RefusedAnswers(t: RT.Tree<Route>, run: seq<Call>, defined: Constraints, rx: RT.Regex, path: string, m: RT.Method)
    requires RT.Valid(t, defined) && Recorded(t, run) && RT.Find(t, rx, Trim(path, '/'), m).MethodNotAllowed?
    ensures forall q | Registered(run, q, MethodName(m)).Some? :: !Matches(q, defined, rx, path)
    ensures var allowed := RT.Find(t, rx, Trim(path, '/'), m).allowed;
      exists p :: RefusedAt(p, Verbs(allowed), run, defined, rx, path)
  {
    hide RT.Find, RT.RouteAt, RT.Valid, Trim, RouteTreeFind.Match, Registered, Before, MethodName, ParseMethod, RT.MethodRoute, RT.Distinct;
    var rest := Trim(path, '/');
    var allowed := RT.Find(t, rx, rest, m).allowed;
    var p := FindRefuses(t, defined, rx, rest, m);
    forall q | Registered(run, q, MethodName(m)).Some?
      ensures !Matches(q, defined, rx, path)
    {
      assert RT.RouteAt(t, q, m).Some?;
      if Matches(q, defined, rx, path) { FindComplete(t, q, defined, rx, rest, m); }
    }
    forall q, v | Registered(run, q, v).Some? && Matches(q, defined, rx, path)
      ensures !Before(q, p)
    {
      var n := MethodOfCall(run, q, v, t);
      assert Takes(t, q, defined, rx, rest, n);
    }
    forall v ensures v in Verbs(allowed) <==> Registered(run, p, v).Some? { VerbsAre(t, run, p, allowed, v); }
    VerbsDistinct(allowed);
    assert RefusedAt(p, Verbs(allowed), run, defined, rx, path);
  }

  /** The method that a call registered under. */
  lemma MethodOfCall(run: seq<Call>, q: RT.Pattern, v: string, t: RT.Tree<Route>) returns (n: RT.Method)
    requires Recorded(t, run) && Registered(run, q, v).Some?
    ensures v == MethodName(n) && RT.RouteAt(t, q, n) == Registered(run, q, v)
  {
    hide Registered, RT.RouteAt;
    n := ParseMethod(v).value;
    ParseMethodIs(v, n);
  }

  lemma VerbsAre(t: RT.Tree<Route>, run: seq<Call>, p: RT.Pattern, allowed: RT.Methods<Route>, v: string)
    requires Recorded(t, run) && forall m :: RT.RouteAt(t, p, m) == RT.MethodRoute(allowed, m)
    ensures v in Verbs(allowed) <==> Registered(run, p, v).Some?
  {
    hide Registered, RT.RouteAt, RT.MethodIndex, MethodName, ParseMethod;
    var verbs := Verbs(allowed);
    if v in verbs {
      var i :| 0 <= i < |verbs| && verbs[i] == v;
      assert RT.MethodRoute(allowed, allowed[i].verb).Some?;
    }
    if Registered(run, p, v).Some? {
      var n := MethodOfCall(run, p, v, t);
      var i := RT.MethodIndex(allowed, n).value;
      assert verbs[i] == v;
    }
  }

  lemma VerbsDistinct(ms: RT.Methods<Route>)
    requires RT.Distinct(ms)
    ensures forall i, j | 0 <= i < j < |Verbs(ms)| :: Verbs(ms)[i] != Verbs(ms)[j]
  {
    hide MethodName, ParseMethod;
    forall i, j | 0 <= i < j < |ms|
      ensures MethodName(ms[i].verb) != MethodName(ms[j].verb)
    {
      ParseMethodIs(MethodName(ms[i].verb), ms[i].verb);
      ParseMethodIs(MethodName(ms[i].verb), ms[j].verb);
    }
  }

  lemma RecordedEmpty()
    ensures Recorded(RT.Empty(), [])
  {
    forall p, m ensures RT.RouteAt<Route>(RT.Empty(), p, m) == None { EmptyRoutes<Route>(p, m); }
  }

  /** One more accepted call. */
  lemma RecordedAdded(t: RT.Tree<Route>, t': RT.Tree<Route>, run: seq<Call>, verb: string, steps: RT.Steps, route: Route)
    requires Recorded(t, run) && ParseMethod(verb).Some?
    requires forall p, m ::
      (RT.RouteAt(t', p, m) ==
        if steps == RT.AsSteps(p) && Some(m) == ParseMethod(verb) then Some(route) else RT.RouteAt(t, p, m))
    ensures Recorded(t', run + [Added(verb, steps, route)])
  {
    hide RT.RouteAt, RT.AsSteps, MethodName, ParseMethod;
    var call := Added(verb, steps, route);
    assert (run + [call])[..|run|] == run;
    forall p, m ensures RT.RouteAt(t', p, m) == Registered(run + [call], p, MethodName(m)) { ParseMethodIs(verb, m); }
    forall p, v | ParseMethod(v).None? ensures Registered(run + [call], p, v) == None { assert v != verb; }
  }

  lemma RecordedRemoved(t: RT.Tree<Route>, t': RT.Tree<Route>, run: seq<Call>, verb: string, steps: RT.Steps)
    requires Recorded(t, run) && ParseMethod(verb).Some?
    requires forall p, m ::
      (RT.RouteAt(t', p, m) ==
        if UpToWildcard(steps) == RT.AsSteps(p) && Some(m) == ParseMethod(verb) then None else RT.RouteAt(t, p, m))
    ensures Recorded(t', run + [Removed(verb, steps)])
  {
    hide RT.RouteAt, RT.AsSteps, MethodName, UpToWildcard, ParseMethod;
    var call := Removed(verb, steps);
    assert (run + [call])[..|run|] == run;
    forall p, m ensures RT.RouteAt(t', p, m) == Registered(run + [call], p, MethodName(m)) { ParseMethodIs(verb, m); }
    forall p, v | ParseMethod(v).None? ensures Registered(run + [call], p, v) == None { assert v != verb; }
  }

  lemma FindsItself(t: RT.Tree<Route>, rx: RT.Regex, path: string, verb: string)
    ensures FindsTheSame(t, t, rx, path, verb)
  {}

  lemma RecordedSame(t: RT.Tree<Route>, t': RT.Tree<Route>, run: seq<Call>)
    requires Recorded(t, run) && forall p, m :: RT.RouteAt(t', p, m) == RT.RouteAt(t, p, m)
    ensures Recorded(t', run)
  {}

  /** The same route is found, or none in both. */
  ghost predicate FindsTheSame(t: RT.Tree<Route>, t': RT.Tree<Route>, rx: RT.Regex, path: string, verb: string) {
    var a, b := Uncached(t, rx, path, verb), Uncached(t', rx, path, verb);
    (a.Found? <==> b.Found?) && (a.Found? ==> a == b)
  }

  lemma InsertFindsTheSame(
    t: RT.Tree<Route>, steps: RT.Steps, m: RT.Method, route: Route, defined: Constraints, rx: RT.Regex, path: string, verb: string)
    requires RT.Valid(t, defined) && StepsDefined(steps, defined) && verb != MethodName(m)
    ensures FindsTheSame(t, RT.Insert(t, steps, m, route, defined).tree, rx, path, verb)
  {
    hide RT.Find, RT.Insert, RT.Valid, Trim, MethodName, ParseMethod;
    if ParseMethod(verb).Some? {
      ParseMethodIs(verb, ParseMethod(verb).value);
      InsertSameFound(t, steps, m, route, defined, rx, Trim(path, '/'), ParseMethod(verb).value);
    }
  }

  lemma RemoveFindsTheSame(
    t: RT.Tree<Route>, steps: RT.Steps, m: RT.Method, defined: Constraints, rx: RT.Regex, path: string, verb: string)
    requires RT.Valid(t, defined) && StepsDefined(steps, defined) && verb != MethodName(m)
    ensures FindsTheSame(t, RT.Remove(t, steps, m, defined).tree, rx, path, verb)
  {
    hide RT.Find, RT.Remove, RT.Valid, Trim, MethodName, ParseMethod;
    if ParseMethod(verb).Some? {
      ParseMethodIs(verb, ParseMethod(verb).value);
      RemoveSameFound(t, steps, m, defined, rx, Trim(path, '/'), ParseMethod(verb).value);
    }
  }

  datatype RouteError = UnknownMethod | BadPattern(error: PatternError)

  type Key = (string, string)

  class Router {
    const root: Node<Route>
    var constraints: Constraints
    var cache: map<Key, Response>
    var version: nat
    const rx: RT.Regex  // the regex library
    ghost var run: seq<Call>  // every call accepted so far

    /** The cache holds answers of the tree as it is now, and no exception. */
    ghost predicate Valid()
      reads this, root, root.Repr
    {
      && root.Valid()
      && this !in root.Repr
      && ValidConstraints(constraints)
      && RT.Valid(root.tree, constraints)
      && Named(root.tree, constraints)
      && CacheHolds(root.tree)
      && Recorded(root.tree, run)
    }

    ghost predicate CacheHolds(t: RT.Tree<Route>)
      reads this
    {
      forall key | key in cache :: cache[key] == Uncached(t, rx, key.0, key.1) && !Raises(cache[key])
    }

    constructor (rx: RT.Regex)
      ensures Valid() && fresh(root) && fresh(root.Repr)
      ensures root.tree == RT.Empty() && constraints == [] && version == 0 && this.rx == rx && run == []
    {
      this.rx := rx;
      root := new Node();
      constraints := [];
      cache := map[];
      version := 0;
      run := [];
      RecordedEmpty();
    }

    /** The lookup of the base class: always in the tree. */
    method CoreMatch(path: string, verb: string) returns (r: Response)
      requires Valid()
      ensures r == Uncached(root.tree, rx, path, verb)
    {
      hide RT.Find, RT.Valid, Named, Trim, Recorded;
      var m := ParseMethod(verb);
      if m.None? {
        return ValueErrorRaised;
      }
      var captures := new Vec<RT.Capture>();
      var answer := root.FindFrom(Trim(path, '/'), m.value, captures, rx);
      match answer
      case NotFound => r := NoRoute;
      case MethodNotAllowed(allowed) => r := MethodNotAllowedRaised(Verbs(allowed));
      case Matched(route) => r := Found(route, captures.items);
    }

    /** The cached lookup, whatever `lru_cache` chooses to evict: always what
        the tree answers now. */
    method Match(path: string, verb: string, evicted: set<Key>) returns (r: Response)
      requires Valid()
      modifies this`cache
      ensures Valid()
      ensures r == Uncached(root.tree, rx, path, verb)
      ensures IsAnswer(r, run, constraints, rx, path, verb)
    {
      hide RT.Find, RT.Valid, Named, Trim, Uncached, Recorded, IsAnswer;
      UncachedAnswers(root.tree, run, constraints, rx, path, verb);
      var key := (path, verb);
      if key in cache {
        return cache[key];
      }
      r := CoreMatch(path, verb);
      if !Raises(r) {
        cache := (cache - evicted)[key := r];
      }
    }

    /** Registers a route. One that is rejected raises before the cache is
        cleared, and leaves no trace in lookups or listings. */
    method AddRoute(path: string, handler: string, verb: string, middleware: seq<string>) returns (error: Option<RouteError>)
      requires Valid()
      modifies this`cache, this`version, this`run, root, root.Repr
      ensures Valid() && constraints == old(constraints) && fresh(root.Repr - old(root.Repr))
      ensures run == if error.Some? then old(run)
                     else old(run) + [Added(verb, RT.Parse(Segments(path), constraints), Route(handler, middleware))]
      ensures forall path', verb' | verb' != verb :: FindsTheSame(old(root.tree), root.tree, rx, path', verb')
      ensures version == old(version) + if error.None? then 1 else 0
      ensures error == match ParseMethod(verb)
        case None => Some(UnknownMethod)
        case Some(m) =>
          match RT.Insert(old(root.tree), RT.Parse(Segments(path), constraints), m, Route(handler, middleware), constraints).error
          case None => None
          case Some(e) => Some(BadPattern(e))
      ensures error.Some? ==> cache == old(cache)
      ensures error.Some? ==> forall rest, m :: RT.Find(root.tree, rx, rest, m) == RT.Find(old(root.tree), rx, rest, m)
      ensures forall p, m ::
        (RT.RouteAt(root.tree, p, m) ==
          if error.None? && RT.Parse(Segments(path), constraints) == RT.AsSteps(p) && Some(m) == ParseMethod(verb)
          then Some(Route(handler, middleware)) else RT.RouteAt(old(root.tree), p, m))
    {
      hide RT.Find, RT.Insert, RT.Valid, Named, Segments, RT.RouteAt, Recorded, FindsTheSame, MethodName;
      var m := ParseMethod(verb);
      if m.None? {
        forall path', verb' ensures FindsTheSame(root.tree, root.tree, rx, path', verb') { FindsItself(root.tree, rx, path', verb'); }
        return Some(UnknownMethod);
      }
      ParseMethodIs(verb, m.value);
      ghost var before, steps := root.tree, RT.Parse(Segments(path), constraints);
      ParseParsed(path, constraints);
      var route := Route(handler, middleware);
      var e := root.InsertAt(Segments(path), m.value, route, constraints);
      InsertKeepsValid(before, steps, m.value, route, constraints);
      InsertKeepsNamed(before, steps, m.value, route, constraints);
      InsertShows(before, steps, m.value, route, constraints, rx);
      forall path', verb' | verb' != verb ensures FindsTheSame(before, root.tree, rx, path', verb') {
        InsertFindsTheSame(before, steps, m.value, route, constraints, rx, path', verb');
      }
      if e.Some? {
        RecordedSame(before, root.tree, run);
        return Some(BadPattern(e.value));
      }
      RecordedAdded(before, root.tree, run, verb, steps, route);
      run := run + [Added(verb, steps, route)];
      cache := map[];
      version := version + 1;
      error := None;
    }

    /** Removes a route, and answers whether there was one. */
    method Remove(path: string, verb: string) returns (r: Result<bool, RouteError>)
      requires Valid()
      modifies this`cache, this`version, this`run, root, root.Repr
      ensures Valid() && constraints == old(constraints) && root.Repr == old(root.Repr)
      ensures run == if r.Err? then old(run) else old(run) + [Removed(verb, RT.Parse(Segments(path), constraints))]
      ensures forall path', verb' | verb' != verb :: FindsTheSame(old(root.tree), root.tree, rx, path', verb')
      ensures version == old(version) + if r.Ok? then 1 else 0
      ensures r.Err? ==> cache == old(cache) && root.tree == old(root.tree)
      ensures forall p | UpToWildcard(RT.Parse(Segments(path), constraints)) == RT.AsSteps(p) && ParseMethod(verb).Some? ::
        r == Ok(RT.RouteAt(old(root.tree), p, ParseMethod(verb).value).Some?)
      ensures forall p, m ::
        (RT.RouteAt(root.tree, p, m) ==
          if UpToWildcard(RT.Parse(Segments(path), constraints)) == RT.AsSteps(p) && Some(m) == ParseMethod(verb)
          then None else RT.RouteAt(old(root.tree), p, m))
    {
      hide RT.Find, RT.Remove, RT.Valid, Named, Segments, RT.RouteAt, UpToWildcard, Recorded, FindsTheSame, MethodName;
      var m := ParseMethod(verb);
      if m.None? {
        forall path', verb' ensures FindsTheSame(root.tree, root.tree, rx, path', verb') { FindsItself(root.tree, rx, path', verb'); }
        return Err(UnknownMethod);
      }
      ParseMethodIs(verb, m.value);
      ghost var before, steps := root.tree, RT.Parse(Segments(path), constraints);
      ParseParsed(path, constraints);
      var removed := root.RemoveAt(Segments(path), m.value, constraints);
      RemoveKeepsValid(before, steps, m.value, constraints);
      RemoveKeepsNamed(before, steps, m.value, constraints);
      forall p, m' ensures RT.RouteAt(root.tree, p, m') ==
          if UpToWildcard(steps) == RT.AsSteps(p) && m' == m.value then None else RT.RouteAt(before, p, m') {
        RemoveRoute(before, steps, m.value, constraints, p, m');
      }
      forall p | UpToWildcard(steps) == RT.AsSteps(p)
        ensures removed == Ok(RT.RouteAt(before, p, m.value).Some?)
      {
        RemoveRoute(before, steps, m.value, constraints, p, m.value);
      }
      forall path', verb' | verb' != verb ensures FindsTheSame(before, root.tree, rx, path', verb') {
        RemoveFindsTheSame(before, steps, m.value, constraints, rx, path', verb');
      }
      if removed.Err? {
        RemoveErrorSame(before, steps, m.value, constraints);
        return Err(BadPattern(removed.error));
      }
      RecordedRemoved(before, root.tree, run, verb, steps);
      run := run + [Removed(verb, steps)];
      cache := map[];
      version := version + 1;
      r := Ok(removed.value);
    }

    /** Defines a constraint: no lookup changes, so the cache is kept. */
    method Constraint(name: string, pattern: string, compiles: string -> bool) returns (error: Option<DefineError>)
      requires Valid()
      modifies this`constraints
      ensures Valid() && old(constraints) <= constraints
      ensures error.None? <==>
        Defined(name, pattern) in old(constraints) ||
        (ValidName(name) && Position(old(constraints), name).None? && compiles(pattern) && |old(constraints)| < MAX_CONSTRAINTS)
      ensures error.None? ==> Defined(name, pattern) in constraints
      ensures error.Some? ==> constraints == old(constraints)
    {
      hide RT.Find, RT.Valid, Named, ValidConstraints, Recorded;
      var defined := Define(constraints, name, pattern, compiles);
      if defined.Err? {
        return Some(defined.error);
      }
      ValidGrows(root.tree, constraints, defined.value);
      NamedGrows(root.tree, constraints, defined.value);
      constraints := defined.value;
      error := None;
    }

    /** Every route, as pattern text. */
    method Routes() returns (routes: seq<Listed<Route>>, ghost slots: Slots<Route>)
      requires Valid()
      ensures IsListing(root.tree, slots) && routes == Printed("", Entries(slots), constraints)
    {
      hide RT.Find, RT.Valid, Named, Printed, Entries, IsListing, Recorded;
      var out := new Vec<Listed<Route>>();
      slots := root.CollectRoutes("", out, constraints);
      routes := out.items;
    }
  }

  /** A removal that fails to parse its pattern has changed nothing yet. */
  lemma {:induction false} RemoveErrorSame<T>(t: RT.Tree<T>, steps: RT.Steps, m: RT.Method, defined: Constraints)
    requires RT.Valid(t, defined) && RT.Remove(t, steps, m, defined).result.Err?
    ensures RT.Remove(t, steps, m, defined).tree == t
    decreases |steps|
  {
    hide RT.MethodRemove, RT.ParamIndex, RT.CustomOf;
    if steps[0].Ok? && !steps[0].value.Wildcard? {
      var seg := steps[0].value;
      ChildValid(t, seg, defined);
      RemoveErrorSame(RT.Child(t, seg), steps[1..], m, defined);
    }
  }

  /** All that lookups and listings see of an insert. */
  lemma InsertShows(t: RT.Tree<Route>, steps: RT.Steps, m: RT.Method, route: Route, defined: Constraints, rx: RT.Regex)
    requires RT.Valid(t, defined) && StepsDefined(steps, defined)
    ensures var r := RT.Insert(t, steps, m, route, defined);
      && (forall p, m' :: RT.RouteAt(r.tree, p, m') ==
            if r.error.None? && steps == RT.AsSteps(p) && m' == m then Some(route) else RT.RouteAt(t, p, m'))
      && (r.error.Some? ==> forall rest, m' :: RT.Find(r.tree, rx, rest, m') == RT.Find(t, rx, rest, m'))
  {
    hide RT.Find, RT.Insert, RT.Valid, RT.RouteAt;
    var r := RT.Insert(t, steps, m, route, defined);
    forall p, m' ensures RT.RouteAt(r.tree, p, m') ==
        if r.error.None? && steps == RT.AsSteps(p) && m' == m then Some(route) else RT.RouteAt(t, p, m') {
      InsertRoute(t, steps, m, route, defined, p, m');
    }
    if r.error.Some? {
      forall rest, m' ensures RT.Find(r.tree, rx, rest, m') == RT.Find(t, rx, rest, m') {
        RejectedFind(t, steps, m, route, defined, rx, rest, m');
      }
    }
  }

  /** Defining more constraints keeps a tree valid. */
  lemma {:induction false} ValidGrows<T>(t: RT.Tree<T>, defined: Constraints, more: Constraints)
    requires RT.Valid(t, defined) && defined <= more
    ensures RT.Valid(t, more)
    decreases t
  {
    forall k | k in t.literals ensures RT.Valid(t.literals[k], more) { ValidGrows(t.literals[k], defined, more); }
    forall i | 0 <= i < |t.params| ensures RT.Valid(t.params[i].node, more) { ValidGrows(t.params[i].node, defined, more); }
  }

  lemma {:induction false} NamedGrows<T>(t: RT.Tree<T>, defined: Constraints, more: Constraints)
    requires Named(t, defined) && defined <= more
    ensures Named(t, more)
    decreases t
  {
    hide Parsed;
    forall k | k in t.literals ensures Parsed(Literal(k), more) && Named(t.literals[k], more) {
      ParsedGrows(Literal(k), defined, more);
      NamedGrows(t.literals[k], defined, more);
    }
    forall i | 0 <= i < |t.params|
      ensures Parsed(Param(t.params[i].name, t.params[i].constraint), more) && Named(t.params[i].node, more)
    {
      ParsedGrows(Param(t.params[i].name, t.params[i].constraint), defined, more);
      NamedGrows(t.params[i].node, defined, more);
    }
    if t.wildcard.Some? { ParsedGrows(Wildcard(t.wildcard.value.name), defined, more); }
  }

  lemma ParsedGrows(seg: Segment, defined: Constraints, more: Constraints)
    requires Parsed(seg, defined) && defined <= more
    ensures Parsed(seg, more)
  {
    hide Lookup, SplitOnce;
  }
}
