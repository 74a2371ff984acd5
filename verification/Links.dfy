/** Routes registered under keys of their own, and links to them: the round trip
    over whole runs of registrations (korvex/_routing.py:366-384, 532-542;
    korvex/_app.py:247-277, 302-304, 423-427). */
module Links {
  import opened Wrappers
  import opened Text
  import opened Path
  import RT = RouteTree
  import opened RouteTreeMap
  import opened RouteTreeOrder
  import opened RouteText
  import opened Router
  import opened UrlPattern
  import opened UrlFor
  import UrlIndex

  // ---- Keys

  /** Every key in the tree is taken, and each is the key of one entry only. */
  ghost predicate Keyed(t: RT.Tree<Route>, taken: set<string>) {
    forall p, m | RT.RouteAt(t, p, m).Some? :: RT.RouteAt(t, p, m).value.handler in taken && OnlyKey(t, p, m)
  }

  /** Nothing else has this key: it is free, or the entry replaced has it. */
  ghost predicate MayUse(t: RT.Tree<Route>, key: string, steps: RT.Steps, m: RT.Method) {
    forall q, n | RT.RouteAt(t, q, n).Some? && RT.RouteAt(t, q, n).value.handler == key :: steps == RT.AsSteps(q) && n == m
  }

  /** Registering keeps it so, accepted or rejected. */
  lemma InsertKeepsKeyed(
    t: RT.Tree<Route>, steps: RT.Steps, m: RT.Method, route: Route, defined: Constraints, taken: set<string>)
    requires RT.Valid(t, defined) && StepsDefined(steps, defined) && Keyed(t, taken) && MayUse(t, route.handler, steps, m)
    ensures var r := RT.Insert(t, steps, m, route, defined);
      Keyed(r.tree, if r.error.None? then taken + {route.handler} else taken)
  {
    hide RT.Insert, RT.RouteAt, RT.Valid, RT.AsSteps;
    var r := RT.Insert(t, steps, m, route, defined);
    forall q, n
      ensures RT.RouteAt(r.tree, q, n) ==
        if r.error.None? && steps == RT.AsSteps(q) && n == m then Some(route) else RT.RouteAt(t, q, n)
    {
      InsertRoute(t, steps, m, route, defined, q, n);
    }
  }

  /** So does removing. */
  lemma RemoveKeepsKeyed(t: RT.Tree<Route>, steps: RT.Steps, m: RT.Method, defined: Constraints, taken: set<string>)
    requires RT.Valid(t, defined) && StepsDefined(steps, defined) && Keyed(t, taken)
    ensures Keyed(RT.Remove(t, steps, m, defined).tree, taken)
  {
    hide RT.Remove, RT.RouteAt, RT.Valid, RT.AsSteps, UpToWildcard;
    var t' := RT.Remove(t, steps, m, defined).tree;
    forall q, n
      ensures RT.RouteAt(t', q, n) == if UpToWildcard(steps) == RT.AsSteps(q) && n == m then None else RT.RouteAt(t, q, n)
    {
      RemoveRoute(t, steps, m, defined, q, n);
    }
    forall p, n | RT.RouteAt(t', p, n).Some?
      ensures OnlyKey(t', p, n)
    {
      assert OnlyKey(t, p, n);
    }
  }

  lemma EmptyIsKeyed(taken: set<string>)
    ensures Keyed(RT.Empty(), taken)
  {
    forall p, m
      ensures RT.RouteAt<Route>(RT.Empty(), p, m) == None
    {
      EmptyRoutes<Route>(p, m);
    }
  }

  // ---- The app's routes

  class Site {
    const router: Router
    var taken: set<string>  // the keys of the app's routes, on every host

    ghost predicate Valid()
      reads this, router, router.root, router.root.Repr
    {
      router.Valid() && this !in router.root.Repr && Keyed(router.root.tree, taken)
    }

    constructor (rx: RT.Regex)
      ensures Valid() && fresh(router) && fresh(router.root) && fresh(router.root.Repr)
      ensures router.root.tree == RT.Empty() && router.rx == rx && taken == {}
    {
      router := new Router(rx);
      taken := {};
      new;
      EmptyIsKeyed({});
    }

    /** Registers a function, under a key that no route of the app has. */
    method Register(path: string, base: string, verb: string, middleware: seq<string>)
      returns (error: Option<RouteError>, key: string)
      requires Valid()
      modifies this`taken, router`cache, router`version, router`run, router.root, router.root.Repr
      ensures Valid() && fresh(router.root.Repr - old(router.root.Repr))
      ensures key !in old(taken)
      ensures taken == if error.None? then old(taken) + {key} else old(taken)
      ensures forall p, m ::
        (RT.RouteAt(router.root.tree, p, m) ==
          if error.None? && RT.Parse(Segments(path), router.constraints) == RT.AsSteps(p) && Some(m) == ParseMethod(verb)
          then Some(Route(key, middleware)) else RT.RouteAt(old(router.root.tree), p, m))
    {
      hide RT.RouteAt, RT.Insert, RT.Valid, Named, Segments, RT.Parse, Recorded, FindsTheSame;
      key := UrlIndex.RouteName(base, taken);
      error := RegisterAs(path, key, verb, middleware);
    }

    /** Registers under a given key, which nothing else has: a function's own, or
        that of a static directory, named after its prefix. */
    method RegisterAs(path: string, key: string, verb: string, middleware: seq<string>) returns (error: Option<RouteError>)
      requires Valid()
      requires ParseMethod(verb).Some? ==>
        MayUse(router.root.tree, key, RT.Parse(Segments(path), router.constraints), ParseMethod(verb).value)
      modifies this`taken, router`cache, router`version, router`run, router.root, router.root.Repr
      ensures Valid() && fresh(router.root.Repr - old(router.root.Repr))
      ensures taken == if error.None? then old(taken) + {key} else old(taken)
      ensures forall p, m ::
        (RT.RouteAt(router.root.tree, p, m) ==
          if error.None? && RT.Parse(Segments(path), router.constraints) == RT.AsSteps(p) && Some(m) == ParseMethod(verb)
          then Some(Route(key, middleware)) else RT.RouteAt(old(router.root.tree), p, m))
    {
      hide RT.RouteAt, RT.Insert, RT.Valid, Named, Segments, RT.Parse, RT.Find, RT.AsSteps, Recorded, FindsTheSame;
      ghost var before, steps := router.root.tree, RT.Parse(Segments(path), router.constraints);
      ghost var m := ParseMethod(verb);
      error := router.AddRoute(path, key, verb, middleware);
      if error.None? {
        taken := taken + {key};
      }
    }

    /** A key taken by a route of another router of the app. */
    method TakeElsewhere(key: string)
      requires Valid()
      modifies this`taken
      ensures Valid() && taken == old(taken) + {key}
    {
      taken := taken + {key};
    }

    /** `app.url_for` for a listed route: the link it returns, followed, leads to
        that route with the values it was built from. */
    method UrlFor(
      ghost p: RT.Pattern, pattern: string, key: string, verb: string, params: map<string, string>,
      typed: (string, string) -> bool, word: char -> bool)
      returns (r: Result<string, UrlError>, ghost texts: seq<string>)
      requires Valid() && WordClass(word) && ParseMethod(verb).Some?
      requires pattern == TextUnder("", p, router.constraints)
      requires var route := RT.RouteAt(router.root.tree, p, ParseMethod(verb).value); route.Some? && route.value.handler == key
      requires AllIn(pattern, IsByte) && forall name | name in params :: AllIn(params[name], IsByte)
      ensures r.Ok? <==> CanLink(router.root.tree, router.rx, key, verb, pattern, params, typed, word)
      ensures r.Ok? ==> |texts| == |p|
      ensures r.Ok? ==> IsLinkOf(r.value, Formatted(p, router.constraints), word) && AllIn(r.value, Harmless)
      ensures r.Ok? ==>
        Uncached(router.root.tree, router.rx, Unquote(r.value), verb)
        == Found(RT.RouteAt(router.root.tree, p, ParseMethod(verb).value).value, Supplied(p, texts))
      ensures r.Ok? ==> forall i | 0 <= i < |p| && !p[i].Literal? && IsWord(p[i].name, word) ::
        p[i].name in params && texts[i] == params[p[i].name]
    {
      hide RT.Find, RT.Valid, RT.RouteAt, Named, Segments, TextUnder, Unquote, Join, Uncached, Classify, Supplied, Format,
        CanLink, Expected, Harmless, LinkTexts, Recorded;
      r, texts := PathFor(router, key, verb, pattern, params, typed, word);
      if r.Ok? {
        RouteParsed(router.root.tree, p, ParseMethod(verb).value, router.constraints);
        TextSegments(p, router.constraints);
        LinkLeadsBack(router.root.tree, router.constraints, router.rx, p, verb, texts, params, word, r.value);
      }
    }
  }
}
