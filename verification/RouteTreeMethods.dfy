/** What is registered or removed under one method never changes which route
    answers another (src/tree.rs:164-362). */
module RouteTreeMethods {
  import opened Wrappers
  import opened Path
  import opened RouteTree
  import opened RouteTreeMap
  import opened RouteTreeFind
  import opened RouteTreeOrder

  /** The same route, with the same captures, or none in both. */
  ghost predicate SameFound<T>(a: Outcome<T>, b: Outcome<T>) {
    (a.Matched? <==> b.Matched?) && (a.Matched? ==> a == b)
  }

  lemma BestSameFound<T>(a: Outcome<T>, b: Outcome<T>, a': Outcome<T>, b': Outcome<T>)
    requires SameFound(a, a') && SameFound(b, b')
    ensures SameFound(Best(a, b), Best(a', b'))
  {}

  lemma MethodsSameFound<T>(ms: Methods<T>, ms': Methods<T>, m: Method)
    requires MethodRoute(ms, m) == MethodRoute(ms', m)
    ensures SameFound(MethodOutcome(ms, m), MethodOutcome(ms', m))
  {}

  /** Only the methods of the node itself are others. */
  lemma OwnSameFound<T>(t: Tree<T>, ms: Methods<T>, rx: Regex, rest: string, m: Method)
    requires MethodRoute(ms, m) == MethodRoute(t.methods, m)
    ensures SameFound(Find(t.(methods := ms), rx, rest, m), Find(t, rx, rest, m))
  {
    hide NextSegment, FindParams, FindWildcard, MethodRoute, MethodOutcome;
    MethodsSameFound(ms, t.methods, m);
    if NextSegment(rest).Some? {
      SameChild(t, t.(methods := ms), Literal(NextSegment(rest).value.0));
    }
  }

  lemma SameChild<T>(t: Tree<T>, t': Tree<T>, seg: Segment)
    requires t.literals == t'.literals && t.params == t'.params
    ensures Child(t, seg) == Child(t', seg)
  {}

  /** Only the wildcard is another, or its methods are. */
  lemma WildcardSameFound<T>(t: Tree<T>, w: WildcardChild<T>, rx: Regex, rest: string, m: Method)
    requires MethodRoute(w.methods, m) == MethodRoute(WildcardMethods(t), m)
    requires t.wildcard.Some? ==> t.wildcard.value.name == w.name
    ensures SameFound(Find(t.(wildcard := Some(w)), rx, rest, m), Find(t, rx, rest, m))
  {
    hide NextSegment, FindParams, MethodRoute, MethodOutcome, Remainder, SameFound, Best;
    var t' := t.(wildcard := Some(w));
    if NextSegment(rest).Some? {
      var (segment, tail) := NextSegment(rest).value;
      SameChild(t, t', Literal(segment));
      var a, b := Find(Child(t, Literal(segment)), rx, tail, m), FindParams(t.params, rx, rest, m);
      Reflexive(Best(a, b));
      assert SameFound(FindWildcard(t'.wildcard, rest, m), FindWildcard(t.wildcard, rest, m)) by {
        FindWildcardSame(t, w, rest, m);
      }
      BestSameFound(Best(a, b), FindWildcard(t'.wildcard, rest, m), Best(a, b), FindWildcard(t.wildcard, rest, m));
    } else {
      Reflexive(MethodOutcome(t.methods, m));
    }
  }

  lemma Reflexive<T>(a: Outcome<T>)
    ensures SameFound(a, a)
  {}

  lemma FindWildcardSame<T>(t: Tree<T>, w: WildcardChild<T>, rest: string, m: Method)
    requires MethodRoute(w.methods, m) == MethodRoute(WildcardMethods(t), m)
    requires t.wildcard.Some? ==> t.wildcard.value.name == w.name
    ensures SameFound(FindWildcard(Some(w), rest, m), FindWildcard(t.wildcard, rest, m))
  {
    hide Remainder, MethodRoute;
    assert MethodRoute<T>([], m) == None by { MethodRouteNone<T>([], m); }
  }

  // ---- Children

  lemma ParamsSameFound<T>(ps: seq<ParamChild<T>>, p: ParamChild<T>, rx: Regex, rest: string, m: Method)
    requires NextSegment(rest).Some?
    requires SameFound(FindParam(p, rx, rest, m), FindMaybe(ParamFor(ps, p.constraint), rx, rest, m))
    ensures SameFound(FindParams(SetParam(ps, p), rx, rest, m), FindParams(ps, rx, rest, m))
  {
    hide NextSegment, FindParam, FindParams, ParamIndex, Best, SameFound;
    match ParamIndex(ps, p.constraint)
    case Some(i) => ReplacedSameFound(ps, i, p, rx, rest, m);
    case None => AddedSameFound(ps, NewParamPlace(ps), p, rx, rest, m);
  }

  lemma ReplacedSameFound<T>(ps: seq<ParamChild<T>>, i: nat, p: ParamChild<T>, rx: Regex, rest: string, m: Method)
    requires NextSegment(rest).Some? && i < |ps| && SameFound(FindParam(p, rx, rest, m), FindParam(ps[i], rx, rest, m))
    ensures SameFound(FindParams(ps[i := p], rx, rest, m), FindParams(ps, rx, rest, m))
  {
    hide NextSegment, FindParam, FindParams, Best, SameFound;
    var a, b := ps[..i], ps[i + 1..];
    assert ps == a + ([ps[i]] + b) && ps[i := p] == a + ([p] + b);
    FindParamsAround(a, ps[i], b, rx, rest, m);
    FindParamsAround(a, p, b, rx, rest, m);
    AroundSameFound(FindParams(a, rx, rest, m), FindParam(p, rx, rest, m), FindParam(ps[i], rx, rest, m), FindParams(b, rx, rest, m));
  }

  lemma AddedSameFound<T>(ps: seq<ParamChild<T>>, i: nat, p: ParamChild<T>, rx: Regex, rest: string, m: Method)
    requires NextSegment(rest).Some? && i <= |ps| && SameFound(FindParam(p, rx, rest, m), NotFound)
    ensures SameFound(FindParams(ps[..i] + [p] + ps[i..], rx, rest, m), FindParams(ps, rx, rest, m))
  {
    hide NextSegment, FindParam, FindParams, Best, SameFound;
    var a, b := ps[..i], ps[i..];
    assert ps == a + b && a + [p] + b == a + ([p] + b);
    FindParamsConcat(a, b, rx, rest, m);
    FindParamsAround(a, p, b, rx, rest, m);
    NotFoundFirst(FindParams(b, rx, rest, m));
    AroundSameFound(FindParams(a, rx, rest, m), FindParam(p, rx, rest, m), NotFound, FindParams(b, rx, rest, m));
  }

  lemma AroundSameFound<T>(a: Outcome<T>, p: Outcome<T>, q: Outcome<T>, b: Outcome<T>)
    requires SameFound(p, q)
    ensures SameFound(Best(a, Best(p, b)), Best(a, Best(q, b)))
  {}

  lemma ParamSameFound<T>(ps: seq<ParamChild<T>>, p: ParamChild<T>, defined: Constraints, rx: Regex, rest: string, m: Method)
    requires NextSegment(rest).Some? && ValidParams(ps, defined) && p.custom == CustomOf(defined, p.constraint)
    requires var had := ParamFor(ps, p.constraint);
      && (had.Some? ==> had.value.name == p.name)
      && SameFound(Find(p.node, rx, NextSegment(rest).value.1, m),
                   Find(if had.Some? then had.value.node else Empty(), rx, NextSegment(rest).value.1, m))
    ensures SameFound(FindParam(p, rx, rest, m), FindMaybe(ParamFor(ps, p.constraint), rx, rest, m))
  {
    hide NextSegment, Find, ParamFor, CustomOf, ParamMatches;
    var (segment, tail) := NextSegment(rest).value;
    FindEmpty<T>(rx, tail, m);
    ParamSame(ps, p, defined, rx, segment);
    assert ParamFor(ps, p.constraint).Some? ==> ParamFor(ps, p.constraint).value.constraint == p.constraint by { ParamForHas(ps, p.constraint); }
  }

  lemma ParamForHas<T>(ps: seq<ParamChild<T>>, c: Constraint)
    ensures ParamFor(ps, c).Some? ==> ParamFor(ps, c).value.constraint == c
  {}

  lemma SetChildSameFound<T>(t: Tree<T>, seg: Segment, node: Tree<T>, defined: Constraints, rx: Regex, rest: string, m: Method)
    requires Valid(t, defined) && SegmentDefined(seg, defined) && !seg.Wildcard? && Clash(t, seg).None?
    requires NextSegment(rest).Some? ==>
      SameFound(Find(node, rx, NextSegment(rest).value.1, m), Find(Child(t, seg), rx, NextSegment(rest).value.1, m))
    ensures SameFound(Find(SetChild(t, seg, node, defined), rx, rest, m), Find(t, rx, rest, m))
  {
    hide NextSegment, FindParams, SetParam, ParamIndex, ParamMatches, SameFound, Best, Child, FindWildcard, MethodOutcome;
    var t' := SetChild(t, seg, node, defined);
    if NextSegment(rest).Some? {
      var (segment, tail) := NextSegment(rest).value;
      SetChildChild(t, seg, node, defined, Literal(segment));
      var a, a' := Find(Child(t, Literal(segment)), rx, tail, m), Find(Child(t', Literal(segment)), rx, tail, m);
      var b, b' := FindParams(t.params, rx, rest, m), FindParams(t'.params, rx, rest, m);
      var w := FindWildcard(t.wildcard, rest, m);
      assert SameFound(a', a) by { Reflexive(a); }
      if seg.Param? {
        var p := ParamChild(seg.name, seg.constraint, CustomOf(defined, seg.constraint), node);
        ParamChildIs(t, seg);
        ParamSameFound(t.params, p, defined, rx, rest, m);
        ParamsSameFound(t.params, p, rx, rest, m);
      } else {
        Reflexive(b);
      }
      Reflexive(w);
      BestSameFound(a', b', a, b);
      BestSameFound(Best(a', b'), w, Best(a, b), w);
    } else {
      Reflexive(MethodOutcome(t.methods, m));
    }
  }

  lemma ParamChildIs<T>(t: Tree<T>, seg: Segment)
    requires seg.Param? && Clash(t, seg).None?
    ensures var p := ParamFor(t.params, seg.constraint);
      && (p.Some? ==> p.value.name == seg.name)
      && Child(t, seg) == if p.Some? then p.value.node else Empty()
  {}

  // ---- Main results

  /** An insert under a method, accepted or not, leaves what answers any other. */
  lemma {:induction false} InsertSameFound<T>(
    t: Tree<T>, steps: Steps, m: Method, route: T, defined: Constraints, rx: Regex, rest: string, m': Method)
    requires Valid(t, defined) && StepsDefined(steps, defined) && m' != m
    ensures SameFound(Find(Insert(t, steps, m, route, defined).tree, rx, rest, m'), Find(t, rx, rest, m'))
    decreases |steps|
  {
    hide NextSegment, Find, SetChild, Child, Clash, MethodInsert, MethodRoute, SameFound;
    if steps == [] {
      MethodInsertRoute(t.methods, m, route, m');
      OwnSameFound(t, MethodInsert(t.methods, m, route), rx, rest, m');
    } else if steps[0].Ok? && steps[0].value.Wildcard? && |steps| == 1 && Clash(t, steps[0].value).None? {
      var w := WildcardChild(steps[0].value.name, MethodInsert(WildcardMethods(t), m, route));
      MethodInsertRoute(WildcardMethods(t), m, route, m');
      WildcardNamed(t, steps[0].value);
      WildcardSameFound(t, w, rx, rest, m');
    } else if steps[0].Ok? && !steps[0].value.Wildcard? && Clash(t, steps[0].value).None? {
      var seg := steps[0].value;
      var node := Insert(Child(t, seg), steps[1..], m, route, defined).tree;
      ChildValid(t, seg, defined);
      if NextSegment(rest).Some? {
        InsertSameFound(Child(t, seg), steps[1..], m, route, defined, rx, NextSegment(rest).value.1, m');
      }
      SetChildSameFound(t, seg, node, defined, rx, rest, m');
    } else {
      Reflexive(Find(t, rx, rest, m'));
    }
  }

  lemma WildcardNamed<T>(t: Tree<T>, seg: Segment)
    requires seg.Wildcard? && Clash(t, seg).None?
    ensures t.wildcard.Some? ==> t.wildcard.value.name == seg.name
  {}

  /** And so does a removal. */
  lemma {:induction false} RemoveSameFound<T>(
    t: Tree<T>, steps: Steps, m: Method, defined: Constraints, rx: Regex, rest: string, m': Method)
    requires Valid(t, defined) && StepsDefined(steps, defined) && m' != m
    ensures SameFound(Find(Remove(t, steps, m, defined).tree, rx, rest, m'), Find(t, rx, rest, m'))
    decreases |steps|
  {
    hide NextSegment, Find, SetChild, Child, Clash, MethodRemove, MethodRoute, SameFound, HasChild;
    if steps == [] {
      MethodRemoveRoute(t.methods, m, m');
      OwnSameFound(t, MethodRemove(t.methods, m), rx, rest, m');
    } else if steps[0].Ok? && steps[0].value.Wildcard? && t.wildcard.Some? && t.wildcard.value.name == steps[0].value.name {
      var w := WildcardChild(steps[0].value.name, MethodRemove(t.wildcard.value.methods, m));
      MethodRemoveRoute(t.wildcard.value.methods, m, m');
      WildcardSameFound(t, w, rx, rest, m');
    } else if steps[0].Ok? && !steps[0].value.Wildcard? && HasChild(t, steps[0].value) {
      var seg := steps[0].value;
      var node := Remove(Child(t, seg), steps[1..], m, defined).tree;
      HasChildMeans(t, seg);
      ChildValid(t, seg, defined);
      if NextSegment(rest).Some? {
        RemoveSameFound(Child(t, seg), steps[1..], m, defined, rx, NextSegment(rest).value.1, m');
      }
      SetChildSameFound(t, seg, node, defined, rx, rest, m');
    } else {
      Reflexive(Find(t, rx, rest, m'));
    }
  }
}
