/** Rejected inserts are invisible to lookups, and the order of registration is
    exactly when no value fits two constraints (src/tree.rs:164-226, src/path.rs:75-82). */
module RouteTreeOrder {
  import opened Wrappers
  import opened Path
  import opened RouteTree
  import opened RouteTreeMap
  import opened RouteTreeFind

  // ---- A rejected insert changes no lookup

  lemma {:induction false} FindParamsConcat<T>(a: seq<ParamChild<T>>, b: seq<ParamChild<T>>, rx: Regex, rest: string, m: Method)
    requires NextSegment(rest).Some?
    ensures FindParams(a + b, rx, rest, m) == Best(FindParams(a, rx, rest, m), FindParams(b, rx, rest, m))
  {
    hide NextSegment, FindParam;
    if a == [] {
      assert a + b == b;
    } else {
      assert (a + b)[0] == a[0] && (a + b)[1..] == a[1..] + b;
      FindParamsConcat(a[1..], b, rx, rest, m);
    }
  }

  lemma FindParamsOne<T>(p: ParamChild<T>, rx: Regex, rest: string, m: Method)
    requires NextSegment(rest).Some?
    ensures FindParams([p], rx, rest, m) == FindParam(p, rx, rest, m)
  {
    hide NextSegment, FindParam;
    assert [p][1..] == [];
  }

  /** Of a parameter that may not be there. */
  function FindMaybe<T>(p: Option<ParamChild<T>>, rx: Regex, rest: string, m: Method): Outcome<T>
    requires NextSegment(rest).Some?
  {
    match p
    case None => NotFound
    case Some(p) => FindParam(p, rx, rest, m)
  }

  lemma SetParamFind<T>(ps: seq<ParamChild<T>>, p: ParamChild<T>, rx: Regex, rest: string, m: Method)
    requires NextSegment(rest).Some?
    requires FindParam(p, rx, rest, m) == FindMaybe(ParamFor(ps, p.constraint), rx, rest, m)
    ensures FindParams(SetParam(ps, p), rx, rest, m) == FindParams(ps, rx, rest, m)
  {
    hide NextSegment, FindParam, FindParams, ParamIndex, Best;
    match ParamIndex(ps, p.constraint)
    case Some(i) => ReplacedFind(ps, i, p, rx, rest, m);
    case None => AddedFind(ps, NewParamPlace(ps), p, rx, rest, m);
  }

  lemma ReplacedFind<T>(ps: seq<ParamChild<T>>, i: nat, p: ParamChild<T>, rx: Regex, rest: string, m: Method)
    requires NextSegment(rest).Some? && i < |ps| && FindParam(p, rx, rest, m) == FindParam(ps[i], rx, rest, m)
    ensures FindParams(ps[i := p], rx, rest, m) == FindParams(ps, rx, rest, m)
  {
    hide NextSegment, FindParam, FindParams, Best;
    var a, b := ps[..i], ps[i + 1..];
    assert ps == a + ([ps[i]] + b) && ps[i := p] == a + ([p] + b);
    FindParamsAround(a, ps[i], b, rx, rest, m);
    FindParamsAround(a, p, b, rx, rest, m);
  }

  lemma AddedFind<T>(ps: seq<ParamChild<T>>, i: nat, p: ParamChild<T>, rx: Regex, rest: string, m: Method)
    requires NextSegment(rest).Some? && i <= |ps| && FindParam(p, rx, rest, m) == NotFound
    ensures FindParams(ps[..i] + [p] + ps[i..], rx, rest, m) == FindParams(ps, rx, rest, m)
  {
    hide NextSegment, FindParam, FindParams, Best;
    var a, b := ps[..i], ps[i..];
    assert ps == a + b && a + [p] + b == a + ([p] + b);
    FindParamsConcat(a, b, rx, rest, m);
    FindParamsAround(a, p, b, rx, rest, m);
    NotFoundFirst(FindParams(b, rx, rest, m));
  }

  lemma FindParamsAround<T>(
    a: seq<ParamChild<T>>, p: ParamChild<T>, b: seq<ParamChild<T>>, rx: Regex, rest: string, m: Method)
    requires NextSegment(rest).Some?
    ensures FindParams(a + ([p] + b), rx, rest, m)
         == Best(FindParams(a, rx, rest, m), Best(FindParam(p, rx, rest, m), FindParams(b, rx, rest, m)))
  {
    hide NextSegment, FindParam, FindParams, Best;
    FindParamsConcat(a, [p] + b, rx, rest, m);
    FindParamsConcat([p], b, rx, rest, m);
    FindParamsOne(p, rx, rest, m);
  }

  lemma NotFoundFirst<T>(found: Outcome<T>)
    ensures Best(NotFound, found) == found
  {}

  lemma SetChildFind<T>(t: Tree<T>, seg: Segment, node: Tree<T>, defined: Constraints, rx: Regex, rest: string, m: Method)
    requires Valid(t, defined) && SegmentDefined(seg, defined) && !seg.Wildcard? && Clash(t, seg).None?
    requires NextSegment(rest).Some? ==>
      Find(node, rx, NextSegment(rest).value.1, m) == Find(Child(t, seg), rx, NextSegment(rest).value.1, m)
    ensures Find(SetChild(t, seg, node, defined), rx, rest, m) == Find(t, rx, rest, m)
  {
    hide NextSegment, FindParams, SetParam, ParamIndex, ParamMatches;
    if NextSegment(rest).Some? {
      var (segment, tail) := NextSegment(rest).value;
      SetChildChild(t, seg, node, defined, Literal(segment));
      if seg.Param? {
        var p := ParamChild(seg.name, seg.constraint, CustomOf(defined, seg.constraint), node);
        FindEmpty<T>(rx, tail, m);
        ParamSame(t.params, p, defined, rx, segment);
        SetParamFind(t.params, p, rx, rest, m);
      }
    }
  }

  lemma ParamSame<T>(ps: seq<ParamChild<T>>, p: ParamChild<T>, defined: Constraints, rx: Regex, value: string)
    requires ValidParams(ps, defined) && p.custom == CustomOf(defined, p.constraint)
    ensures ParamFor(ps, p.constraint).Some? ==>
      (ParamMatches(ParamFor(ps, p.constraint).value, rx, value) <==> ParamMatches(p, rx, value))
  {
    hide CustomOf;
  }

  /** At whatever depth an insert is rejected, the nodes it leaves behind match nothing. */
  lemma {:induction false} RejectedFind<T>(
    t: Tree<T>, steps: Steps, m: Method, route: T, defined: Constraints, rx: Regex, rest: string, m': Method)
    requires Valid(t, defined) && StepsDefined(steps, defined)
    requires Insert(t, steps, m, route, defined).error.Some?
    ensures Find(Insert(t, steps, m, route, defined).tree, rx, rest, m') == Find(t, rx, rest, m')
    decreases |steps|
  {
    hide NextSegment, Find, SetChild, Child, Clash;
    if steps[0].Ok? && !steps[0].value.Wildcard? && Clash(t, steps[0].value).None? {
      var seg := steps[0].value;
      var node := Insert(Child(t, seg), steps[1..], m, route, defined).tree;
      ChildValid(t, seg, defined);
      if NextSegment(rest).Some? {
        RejectedFind(Child(t, seg), steps[1..], m, route, defined, rx, NextSegment(rest).value.1, m');
      }
      SetChildFind(t, seg, node, defined, rx, rest, m');
    }
  }

  // ---- Which inserts are accepted

  /** Two patterns that name the same place differently. */
  predicate Conflicts(p: Pattern, q: Pattern) {
    if p == [] || q == [] then false
    else if p[0] == q[0] then !p[0].Wildcard? && Conflicts(p[1..], q[1..])
    else (p[0].Wildcard? && q[0].Wildcard?) || (p[0].Param? && q[0].Param? && p[0].constraint == q[0].constraint)
  }

  predicate WildcardLast(p: Pattern) {
    forall i | 0 <= i < |p| - 1 :: !p[i].Wildcard?
  }

  predicate ClashAlong<T>(t: Tree<T>, p: Pattern)
    decreases |p|
  {
    p != [] && (Clash(t, p[0]).Some? || (!p[0].Wildcard? && ClashAlong(Child(t, p[0]), p[1..])))
  }

  ghost predicate PatternDefined(p: Pattern, defined: Constraints) {
    forall i | 0 <= i < |p| :: SegmentDefined(p[i], defined)
  }

  lemma {:induction false} InsertAccepts<T>(t: Tree<T>, p: Pattern, m: Method, route: T, defined: Constraints)
    ensures Insert(t, AsSteps(p), m, route, defined).error.None? <==> WildcardLast(p) && !ClashAlong(t, p)
    decreases |p|
  {
    hide Clash, Child, SetChild, MethodInsert;
    if p != [] {
      assert AsSteps(p)[1..] == AsSteps(p[1..]);
      assert forall i | 1 <= i < |p| :: p[i] == p[1..][i - 1];
      InsertAccepts(Child(t, p[0]), p[1..], m, route, defined);
      assert WildcardLast(p) <==> (|p| > 1 ==> !p[0].Wildcard?) && WildcardLast(p[1..]);
    }
  }

  /** The node that a pattern's segments lead to. */
  function At<T>(t: Tree<T>, p: Pattern): Tree<T>
    decreases |p|
  {
    if p == [] then t else At(Child(t, p[0]), p[1..])
  }

  /** Two parameters with one constraint, or two wildcards, in one place. */
  predicate NamedOtherwise<T>(t: Tree<T>, seg: Segment, existing: string) {
    || (seg.Param? && exists i :: 0 <= i < |t.params| && t.params[i].constraint == seg.constraint && t.params[i].name == existing != seg.name)
    || (seg.Wildcard? && t.wildcard.Some? && t.wildcard.value.name == existing != seg.name)
  }

  /** Why an insert is refused: a wildcard that isn't last, or a segment whose place
      already has another name. */
  lemma {:induction false} InsertErrorIs<T>(t: Tree<T>, p: Pattern, m: Method, route: T, defined: Constraints)
    ensures match Insert(t, AsSteps(p), m, route, defined).error
      case None => true
      case Some(WildcardNotLast) => exists k :: 0 <= k < |p| - 1 && p[k].Wildcard?
      case Some(ConflictingNames(existing, wanted)) =>
        exists k :: 0 <= k < |p| && !p[k].Literal? && wanted == p[k].name && NamedOtherwise(At(t, p[..k]), p[k], existing)
      case Some(_) => false
    decreases |p|
  {
    hide Child, SetChild, MethodInsert, NamedOtherwise;
    if p != [] {
      var seg := p[0];
      assert AsSteps(p)[1..] == AsSteps(p[1..]);
      assert At(t, p[..0]) == t;
      if seg.Wildcard? && |p| > 1 {
      } else if Clash(t, seg).Some? {
        ClashNames(t, seg);
      } else if !seg.Wildcard? {
        InsertErrorIs(Child(t, seg), p[1..], m, route, defined);
        forall k | 0 <= k < |p[1..]|
          ensures p[1..][k] == p[k + 1] && At(t, p[..k + 1]) == At(Child(t, seg), p[1..][..k])
        {
          assert p[..k + 1][1..] == p[1..][..k];
        }
      }
    }
  }

  lemma ClashNames<T>(t: Tree<T>, seg: Segment)
    requires Clash(t, seg).Some?
    ensures !seg.Literal? && NamedOtherwise(t, seg, Clash(t, seg).value)
  {}

  lemma {:induction false} EmptyNeverClashes<T>(p: Pattern)
    ensures !ClashAlong<T>(Empty(), p)
    decreases |p|
  {
    if p != [] {
      EmptyNeverClashes<T>(p[1..]);
    }
  }

  /** After an accepted insert, what clashes is what clashed before, and what
      conflicts with the pattern inserted. */
  lemma {:induction false} ClashAfterInsert<T>(t: Tree<T>, p: Pattern, m: Method, route: T, defined: Constraints, q: Pattern)
    requires Valid(t, defined) && PatternDefined(p, defined)
    requires Insert(t, AsSteps(p), m, route, defined).error.None?
    ensures ClashAlong(Insert(t, AsSteps(p), m, route, defined).tree, q) <==> ClashAlong(t, q) || Conflicts(p, q)
    decreases |p|
  {
    hide MethodInsert, SetChild, Child, ParamFor;
    var t' := Insert(t, AsSteps(p), m, route, defined).tree;
    if p == [] || p[0].Wildcard? {
      ClashOfWildcard(t, t', p, q);
    } else if q != [] {
      var seg := p[0];
      assert AsSteps(p)[1..] == AsSteps(p[1..]);
      var node := Insert(Child(t, seg), AsSteps(p)[1..], m, route, defined).tree;
      SetChildChild(t, seg, node, defined, q[0]);
      if q[0] == seg {
        ChildValid(t, seg, defined);
        ClashAfterInsert(Child(t, seg), p[1..], m, route, defined, q[1..]);
      }
    }
  }

  lemma ClashOfWildcard<T>(t: Tree<T>, t': Tree<T>, p: Pattern, q: Pattern)
    requires t'.literals == t.literals && t'.params == t.params
    requires p == [] ==> t'.wildcard == t.wildcard
    requires p != [] ==> p[0].Wildcard? && Clash(t, p[0]).None? && t'.wildcard.Some? && t'.wildcard.value.name == p[0].name
    ensures ClashAlong(t', q) <==> ClashAlong(t, q) || Conflicts(p, q)
  {
    hide ParamFor;
    if q != [] && !q[0].Wildcard? {
    }
  }

  // ---- Registering a list of routes

  datatype Registration<T> = Registration(pattern: Pattern, verb: Method, route: T)

  /** `t` after every registration in order, if all are accepted. */
  function InsertAll<T>(t: Tree<T>, rs: seq<Registration<T>>, defined: Constraints): Option<Tree<T>> {
    if rs == [] then Some(t)
    else
      match InsertAll(t, rs[..|rs| - 1], defined)
      case None => None
      case Some(u) =>
        var last := rs[|rs| - 1];
        var r := Insert(u, AsSteps(last.pattern), last.verb, last.route, defined);
        if r.error.None? then Some(r.tree) else None
  }

  function Build<T>(rs: seq<Registration<T>>, defined: Constraints): Option<Tree<T>> {
    InsertAll(Empty(), rs, defined)
  }

  ghost predicate AllDefined<T>(rs: seq<Registration<T>>, defined: Constraints) {
    forall i | 0 <= i < |rs| :: PatternDefined(rs[i].pattern, defined)
  }

  ghost predicate ConflictFree<T>(rs: seq<Registration<T>>) {
    && (forall i | 0 <= i < |rs| :: WildcardLast(rs[i].pattern))
    && (forall i, j | 0 <= i < |rs| && 0 <= j < |rs| :: !Conflicts(rs[i].pattern, rs[j].pattern))
  }

  ghost predicate DistinctKeys<T>(rs: seq<Registration<T>>) {
    forall i, j | 0 <= i < j < |rs| :: rs[i].pattern != rs[j].pattern || rs[i].verb != rs[j].verb
  }

  lemma StepsOfDefined(p: Pattern, defined: Constraints)
    requires PatternDefined(p, defined)
    ensures StepsDefined(AsSteps(p), defined)
  {}

  lemma {:induction false} BuildValid<T>(rs: seq<Registration<T>>, defined: Constraints)
    requires AllDefined(rs, defined)
    ensures Build(rs, defined).Some? ==> Valid(Build(rs, defined).value, defined)
  {
    hide Insert, PatternDefined;
    if rs != [] {
      BuildValid(rs[..|rs| - 1], defined);
      var last := rs[|rs| - 1];
      StepsOfDefined(last.pattern, defined);
      if Build(rs[..|rs| - 1], defined).Some? {
        InsertKeepsValid(Build(rs[..|rs| - 1], defined).value, AsSteps(last.pattern), last.verb, last.route, defined);
      }
    }
  }

  lemma {:induction false} ClashAfterBuild<T>(rs: seq<Registration<T>>, defined: Constraints, q: Pattern)
    requires AllDefined(rs, defined) && Build(rs, defined).Some?
    ensures ClashAlong(Build(rs, defined).value, q) <==> exists i | 0 <= i < |rs| :: Conflicts(rs[i].pattern, q)
  {
    hide Insert, ClashAlong, Conflicts, PatternDefined;
    if rs == [] {
      EmptyNeverClashes<T>(q);
    } else {
      var init, last := rs[..|rs| - 1], rs[|rs| - 1];
      BuildValid(init, defined);
      ClashAfterBuild(init, defined, q);
      ClashAfterInsert(Build(init, defined).value, last.pattern, last.verb, last.route, defined, q);
      assert forall i | 0 <= i < |init| :: rs[i] == init[i];
    }
  }

  lemma {:induction false} ConflictsSymmetric(p: Pattern, q: Pattern)
    ensures Conflicts(p, q) <==> Conflicts(q, p)
    ensures !Conflicts(p, p)
    decreases |p|
  {
    if p != [] {
      ConflictsSymmetric(p[1..], if q != [] then q[1..] else q);
    }
  }

  /** A list is accepted, in the order given, exactly when no pattern in it
      conflicts with another and every wildcard is last. */
  lemma {:induction false} BuildAccepts<T>(rs: seq<Registration<T>>, defined: Constraints)
    requires AllDefined(rs, defined)
    ensures Build(rs, defined).Some? <==> ConflictFree(rs)
  {
    hide Insert, ClashAlong, Conflicts, WildcardLast, PatternDefined;
    if rs != [] {
      var init, last := rs[..|rs| - 1], rs[|rs| - 1];
      BuildAccepts(init, defined);
      assert forall i | 0 <= i < |init| :: rs[i] == init[i];
      forall i | 0 <= i < |rs| ensures Conflicts(rs[i].pattern, last.pattern) <==> Conflicts(last.pattern, rs[i].pattern) {
        ConflictsSymmetric(rs[i].pattern, last.pattern);
      }
      ConflictsSymmetric(last.pattern, last.pattern);
      if Build(init, defined).Some? {
        ClashAfterBuild(init, defined, last.pattern);
        InsertAccepts(Build(init, defined).value, last.pattern, last.verb, last.route, defined);
      }
    }
  }

  lemma StepsInjective(p: Pattern, q: Pattern)
    ensures AsSteps(p) == AsSteps(q) <==> p == q
  {
    if AsSteps(p) == AsSteps(q) {
      assert forall i | 0 <= i < |p| :: AsSteps(p)[i] == Ok(p[i]) && AsSteps(q)[i] == Ok(q[i]);
    }
  }

  /** With distinct keys, the routes of the tree are those registered. */
  lemma {:induction false} BuildRoute<T(!new)>(rs: seq<Registration<T>>, defined: Constraints, p: Pattern, m: Method, route: T)
    requires AllDefined(rs, defined) && DistinctKeys(rs) && Build(rs, defined).Some?
    ensures RouteAt(Build(rs, defined).value, p, m) == Some(route) <==> Registration(p, m, route) in rs
    ensures RouteAt(Build(rs, defined).value, p, m).Some? ==> exists i | 0 <= i < |rs| :: rs[i].pattern == p && rs[i].verb == m
  {
    hide Insert, PatternDefined, RouteAt;
    if rs == [] {
      EmptyRoutes<T>(p, m);
    } else {
      var init, last := rs[..|rs| - 1], rs[|rs| - 1];
      BuildValid(init, defined);
      BuildRoute(init, defined, p, m, route);
      StepsOfDefined(last.pattern, defined);
      InsertRoute(Build(init, defined).value, AsSteps(last.pattern), last.verb, last.route, defined, p, m);
      StepsInjective(last.pattern, p);
      assert rs == init + [last];
      assert forall i | 0 <= i < |init| :: rs[i] == init[i];
    }
  }

  // ---- Equal routes, equal lookups

  ghost predicate SameRoutes<T>(t: Tree<T>, u: Tree<T>) {
    forall p, m :: RouteAt(t, p, m) == RouteAt(u, p, m)
  }

  /** The same answer, up to the order of allowed methods. */
  ghost predicate Similar<T>(a: Outcome<T>, b: Outcome<T>) {
    match (a, b)
    case (MethodNotAllowed(x), MethodNotAllowed(y)) => SameMethods(x, y)
    case _ => a == b
  }

  ghost predicate SameMethods<T>(x: Methods<T>, y: Methods<T>) {
    forall m :: MethodRoute(x, m) == MethodRoute(y, m)
  }

  lemma MethodOutcomeSimilar<T>(x: Methods<T>, y: Methods<T>, m: Method)
    requires SameMethods(x, y)
    ensures Similar(MethodOutcome(x, m), MethodOutcome(y, m))
  {
    if x != [] { assert MethodRoute(x, x[0].verb).Some?; }
    if y != [] { assert MethodRoute(y, y[0].verb).Some?; }
  }

  lemma BestSimilar<T>(a: Outcome<T>, b: Outcome<T>, a': Outcome<T>, b': Outcome<T>)
    requires Similar(a, a') && Similar(b, b')
    ensures Similar(Best(a, b), Best(a', b'))
  {}

  lemma ChildSameRoutes<T>(t: Tree<T>, u: Tree<T>, seg: Segment)
    requires SameRoutes(t, u) && !seg.Wildcard?
    ensures SameRoutes(Child(t, seg), Child(u, seg))
  {
    hide Child;
    forall p, m ensures RouteAt(Child(t, seg), p, m) == RouteAt(Child(u, seg), p, m) {
      assert ([seg] + p)[1..] == p;
      assert RouteAt(t, [seg] + p, m) == RouteAt(u, [seg] + p, m);
    }
  }

  lemma ParamForTail<T>(ps: seq<ParamChild<T>>, c: Constraint)
    requires ps != []
    ensures ParamFor(ps, c) == if ps[0].constraint == c then Some(ps[0]) else ParamFor(ps[1..], c)
  {}

  /** No value of a segment fits two constraints. */
  ghost predicate Disjoint(defined: Constraints, rx: Regex) {
    forall value, c, d | value != "" && '/' !in value && Overlap(defined, rx, c, d, value) :: c == d
  }

  predicate Overlap(defined: Constraints, rx: Regex, c: Constraint, d: Constraint, value: string) {
    !c.Any? && !d.Any? && Fits(defined, rx, c, value) && Fits(defined, rx, d, value)
  }

  /** The built-in constraints are disjoint. */
  lemma BuiltInDisjoint(rx: Regex)
    ensures Disjoint([], rx)
  {
    hide IsI64, IsUuid;
    forall value, c, d | Overlap([], rx, c, d, value)
      ensures c == d
    {
      if IsUuid(value) { IntIsNotUuid(value); }
    }
  }

  /** Of the constraints but `Any`, at most `c` fits the value. */
  ghost predicate OnlyFit(defined: Constraints, rx: Regex, c: Constraint, value: string) {
    !c.Any? && forall d: Constraint | !d.Any? && Fits(defined, rx, d, value) :: d == c
  }

  lemma OnlyFitExists(defined: Constraints, rx: Regex, value: string) returns (c: Constraint)
    requires Disjoint(defined, rx) && value != "" && '/' !in value
    ensures OnlyFit(defined, rx, c, value)
  {
    hide Fits;
    if d: Constraint :| !d.Any? && Fits(defined, rx, d, value) {
      c := d;
      assert forall e: Constraint | !e.Any? && Fits(defined, rx, e, value) :: Overlap(defined, rx, e, c, value);
    } else {
      c := Int;
    }
  }

  /** The parameters answer as that of the constraint that fits and the
      unconstrained one do, wherever they stand. */
  lemma {:induction false} FindParamsFit<T>(ps: seq<ParamChild<T>>, defined: Constraints, rx: Regex, rest: string, m: Method, c: Constraint)
    requires ValidParams(ps, defined) && NextSegment(rest).Some?
    requires OnlyFit(defined, rx, c, NextSegment(rest).value.0)
    ensures FindParams(ps, rx, rest, m) ==
      Best(FindMaybe(ParamFor(ps, c), rx, rest, m), FindMaybe(ParamFor(ps, Any), rx, rest, m))
  {
    hide NextSegment, FindParam, ParamFor, CustomOf, Fits;
    if ps == [] {
      assert ParamFor(ps, c) == None && ParamFor(ps, Any) == None by { NoParams(ps, c); NoParams(ps, Any); }
    } else {
      var p := ps[0];
      FindParamsFit(ps[1..], defined, rx, rest, m, c);
      ParamForTail(ps, c);
      ParamForTail(ps, Any);
      if p.constraint != c && p.constraint != Any { FitsNot(p, defined, rx, rest, m, c); }
      if p.constraint == c { NoParams(ps[1..], c); }
      if p.constraint == Any { assert ps[1..] == []; NoParams(ps[1..], c); NoParams(ps[1..], Any); }
    }
  }

  lemma NoParams<T>(ps: seq<ParamChild<T>>, c: Constraint)
    requires forall i | 0 <= i < |ps| :: ps[i].constraint != c
    ensures ParamFor(ps, c) == None
  {}

  lemma FitsNot<T>(p: ParamChild<T>, defined: Constraints, rx: Regex, rest: string, m: Method, c: Constraint)
    requires p.custom == CustomOf(defined, p.constraint) && (p.constraint.Custom? ==> p.constraint.index < |defined|)
    requires NextSegment(rest).Some? && OnlyFit(defined, rx, c, NextSegment(rest).value.0)
    requires p.constraint != c && !p.constraint.Any?
    ensures FindParam(p, rx, rest, m) == NotFound
  {
    hide NextSegment, Find;
    ParamMatchesFits(p, defined, rx, NextSegment(rest).value.0);
  }

  lemma FindParamNone<T>(p: ParamChild<T>, rx: Regex, rest: string, m: Method)
    requires NextSegment(rest).Some? && Find(p.node, rx, NextSegment(rest).value.1, m) == NotFound
    ensures FindParam(p, rx, rest, m) == NotFound
  {
    hide NextSegment, Find, ParamMatches;
  }

  lemma FindParamSimilar<T>(p: ParamChild<T>, q: ParamChild<T>, rx: Regex, rest: string, m: Method)
    requires p.name == q.name && p.constraint == q.constraint && p.custom == q.custom && NextSegment(rest).Some?
    requires Similar(Find(p.node, rx, NextSegment(rest).value.1, m), Find(q.node, rx, NextSegment(rest).value.1, m))
    ensures Similar(FindParam(p, rx, rest, m), FindParam(q, rx, rest, m))
  {
    hide NextSegment, Find;
  }

  /** A parameter that the other tree lacks leads nowhere. */
  lemma FindParamAlone<T(!new)>(
    t: Tree<T>, u: Tree<T>, p: ParamChild<T>, defined: Constraints, rx: Regex, rest: string, m: Method)
    requires Valid(t, defined) && Valid(u, defined) && SameRoutes(t, u) && Disjoint(defined, rx) && NextSegment(rest).Some?
    requires ParamFor(t.params, p.constraint) == Some(p) && Child(u, Param(p.name, p.constraint)) == Empty()
    ensures FindParam(p, rx, rest, m) == NotFound
    decreases |rest|, 0
  {
    hide NextSegment, Find, FindParam, Disjoint, ParamFor, SameRoutes, Valid;
    var tail := NextSegment(rest).value.1;
    var seg := Param(p.name, p.constraint);
    assert Child(t, seg) == p.node;
    FindEmpty<T>(rx, tail, m);
    ChildSameRoutes(t, u, seg);
    ChildValid(t, seg, defined);
    ChildValid(u, seg, defined);
    FindSimilar(p.node, Empty(), defined, rx, tail, m);
    FindParamNone(p, rx, rest, m);
  }

  /** The same parameter of two trees with the same routes, present or not. */
  lemma FindMaybeSimilar<T(!new)>(t: Tree<T>, u: Tree<T>, c: Constraint, defined: Constraints, rx: Regex, rest: string, m: Method)
    requires Valid(t, defined) && Valid(u, defined) && SameRoutes(t, u) && Disjoint(defined, rx) && NextSegment(rest).Some?
    ensures Similar(FindMaybe(ParamFor(t.params, c), rx, rest, m), FindMaybe(ParamFor(u.params, c), rx, rest, m))
    decreases |rest|, 1
  {
    hide NextSegment, Find, FindParam, Disjoint, ParamIndex, SameRoutes, Valid;
    var tail := NextSegment(rest).value.1;
    var p, q := ParamFor(t.params, c), ParamFor(u.params, c);
    if p.Some? && q.Some? && p.value.name == q.value.name {
      var seg := Param(p.value.name, c);
      ChildSameRoutes(t, u, seg);
      ChildValid(t, seg, defined);
      ChildValid(u, seg, defined);
      FindSimilar(p.value.node, q.value.node, defined, rx, tail, m);
      CustomSame(t, u, p.value, q.value, defined);
      FindParamSimilar(p.value, q.value, rx, rest, m);
    } else {
      if p.Some? { FindParamAlone(t, u, p.value, defined, rx, rest, m); }
      if q.Some? {
        SameRoutesBack(t, u);
        FindParamAlone(u, t, q.value, defined, rx, rest, m);
      }
    }
  }

  lemma SameRoutesBack<T>(t: Tree<T>, u: Tree<T>)
    requires SameRoutes(t, u)
    ensures SameRoutes(u, t)
  {}

  lemma CustomSame<T>(t: Tree<T>, u: Tree<T>, p: ParamChild<T>, q: ParamChild<T>, defined: Constraints)
    requires Valid(t, defined) && Valid(u, defined) && p in t.params && q in u.params && p.constraint == q.constraint
    ensures p.custom == q.custom
  {}

  lemma WildcardSimilar<T>(t: Tree<T>, u: Tree<T>, rest: string, m: Method)
    requires SameRoutes(t, u)
    ensures Similar(FindWildcard(t.wildcard, rest, m), FindWildcard(u.wildcard, rest, m))
  {
    hide MethodRoute, Remainder;
    if t.wildcard.Some? {
      forall m' ensures MethodRoute(t.wildcard.value.methods, m') == RouteAt(u, [Wildcard(t.wildcard.value.name)], m') {
        assert RouteAt(t, [Wildcard(t.wildcard.value.name)], m') == RouteAt(u, [Wildcard(t.wildcard.value.name)], m');
      }
      NoMethods(t.wildcard.value.methods);
    }
    if u.wildcard.Some? {
      forall m' ensures MethodRoute(u.wildcard.value.methods, m') == RouteAt(t, [Wildcard(u.wildcard.value.name)], m') {
        assert RouteAt(t, [Wildcard(u.wildcard.value.name)], m') == RouteAt(u, [Wildcard(u.wildcard.value.name)], m');
      }
      NoMethods(u.wildcard.value.methods);
    }
    if t.wildcard.Some? && u.wildcard.Some? && t.wildcard.value.name == u.wildcard.value.name {
      MethodOutcomeSimilar(t.wildcard.value.methods, u.wildcard.value.methods, m);
    }
  }

  lemma NoMethods<T>(ms: Methods<T>)
    ensures (forall m :: MethodRoute(ms, m) == None) ==> ms == []
  {
    if ms != [] { assert MethodRoute(ms, ms[0].verb).Some?; }
  }

  /** Two trees with the same routes look every path up alike, however they were
      built, if no value fits two constraints. */
  lemma {:induction false} FindSimilar<T(!new)>(t: Tree<T>, u: Tree<T>, defined: Constraints, rx: Regex, rest: string, m: Method)
    requires Valid(t, defined) && Valid(u, defined) && SameRoutes(t, u) && Disjoint(defined, rx)
    ensures Similar(Find(t, rx, rest, m), Find(u, rx, rest, m))
    decreases |rest|, 2
  {
    hide NextSegment, FindParams, FindWildcard, FindMaybe, ParamFor, Child, MethodOutcome, Best, Similar, SameRoutes, Disjoint, OnlyFit;
    match NextSegment(rest)
    case None =>
      assert SameMethods(t.methods, u.methods) by { OwnSameMethods(t, u); }
      MethodOutcomeSimilar(t.methods, u.methods, m);
    case Some((segment, tail)) =>
      var seg := Literal(segment);
      ChildSameRoutes(t, u, seg);
      ChildValid(t, seg, defined);
      ChildValid(u, seg, defined);
      FindSimilar(Child(t, seg), Child(u, seg), defined, rx, tail, m);
      var c := OnlyFitExists(defined, rx, segment);
      FindMaybeSimilar(t, u, c, defined, rx, rest, m);
      FindMaybeSimilar(t, u, Any, defined, rx, rest, m);
      FindParamsFit(t.params, defined, rx, rest, m, c);
      FindParamsFit(u.params, defined, rx, rest, m, c);
      WildcardSimilar(t, u, rest, m);
      BestSimilar(FindMaybe(ParamFor(t.params, c), rx, rest, m), FindMaybe(ParamFor(t.params, Any), rx, rest, m),
                  FindMaybe(ParamFor(u.params, c), rx, rest, m), FindMaybe(ParamFor(u.params, Any), rx, rest, m));
      BestSimilar(Find(Child(t, seg), rx, tail, m), FindParams(t.params, rx, rest, m),
                  Find(Child(u, seg), rx, tail, m), FindParams(u.params, rx, rest, m));
      BestSimilar(Best(Find(Child(t, seg), rx, tail, m), FindParams(t.params, rx, rest, m)), FindWildcard(t.wildcard, rest, m),
                  Best(Find(Child(u, seg), rx, tail, m), FindParams(u.params, rx, rest, m)), FindWildcard(u.wildcard, rest, m));
  }

  lemma OwnSameMethods<T>(t: Tree<T>, u: Tree<T>)
    requires SameRoutes(t, u)
    ensures SameMethods(t.methods, u.methods)
  {
    forall m ensures MethodRoute(t.methods, m) == MethodRoute(u.methods, m) {
      assert RouteAt(t, [], m) == RouteAt(u, [], m);
    }
  }

  // ---- Order of registration

  ghost predicate Permutation<T>(a: seq<Registration<T>>, b: seq<Registration<T>>) {
    multiset(a) == multiset(b)
  }

  lemma PermutationIn<T>(a: seq<Registration<T>>, b: seq<Registration<T>>, r: Registration<T>)
    requires Permutation(a, b)
    ensures r in a <==> r in b
  {
    assert r in a <==> r in multiset(a);
    assert r in b <==> r in multiset(b);
  }

  lemma PermutationDefined<T>(a: seq<Registration<T>>, b: seq<Registration<T>>, defined: Constraints)
    requires Permutation(a, b) && AllDefined(a, defined)
    ensures AllDefined(b, defined)
  {
    forall i | 0 <= i < |b| ensures PatternDefined(b[i].pattern, defined) {
      PermutationIn(a, b, b[i]);
      var k :| 0 <= k < |a| && a[k] == b[i];
    }
  }

  lemma AtMostOnce<T>(a: seq<Registration<T>>, r: Registration<T>)
    requires DistinctKeys(a)
    ensures multiset(a)[r] <= 1
  {
    if r in a {
      var i :| 0 <= i < |a| && a[i] == r;
      assert a == a[..i] + ([r] + a[i + 1..]);
      assert r !in a[..i] && r !in a[i + 1..];
    }
  }

  lemma Twice<T>(b: seq<Registration<T>>, i: nat, j: nat)
    requires i < j < |b| && b[i] == b[j]
    ensures multiset(b)[b[i]] >= 2
  {
    assert b == b[..j] + b[j..];
    assert b[..j][i] == b[i] && b[j..][0] == b[j];
  }

  lemma PermutationDistinct<T>(a: seq<Registration<T>>, b: seq<Registration<T>>)
    requires Permutation(a, b) && DistinctKeys(a)
    ensures DistinctKeys(b)
  {
    forall i, j | 0 <= i < j < |b| ensures b[i].pattern != b[j].pattern || b[i].verb != b[j].verb {
      PermutationIn(a, b, b[i]);
      PermutationIn(a, b, b[j]);
      var k :| 0 <= k < |a| && a[k] == b[i];
      var l :| 0 <= l < |a| && a[l] == b[j];
      AtMostOnce(a, b[i]);
      if b[i] == b[j] {
        Twice(b, i, j);
      }
    }
  }

  lemma PermutationConflictFree<T(!new)>(a: seq<Registration<T>>, b: seq<Registration<T>>)
    requires Permutation(a, b) && ConflictFree(a)
    ensures ConflictFree(b)
  {
    hide Conflicts, WildcardLast;
    forall i | 0 <= i < |b| ensures WildcardLast(b[i].pattern) {
      PermutationIn(a, b, b[i]);
      var i' :| 0 <= i' < |a| && a[i'] == b[i];
    }
    forall i, j | 0 <= i < |b| && 0 <= j < |b| ensures !Conflicts(b[i].pattern, b[j].pattern) {
      PermutationIn(a, b, b[i]);
      PermutationIn(a, b, b[j]);
      var i' :| 0 <= i' < |a| && a[i'] == b[i];
      var j' :| 0 <= j' < |a| && a[j'] == b[j];
    }
  }

  /** If no value fits two constraints, any permutation of a list of registrations
      with distinct keys is accepted exactly when the list is, and then every path
      gets the same answer. */
  lemma OrderIsIrrelevant<T(!new)>(a: seq<Registration<T>>, b: seq<Registration<T>>, defined: Constraints, rx: Regex)
    requires Permutation(a, b) && DistinctKeys(a) && AllDefined(a, defined) && Disjoint(defined, rx)
    ensures Build(a, defined).Some? <==> Build(b, defined).Some?
    ensures Build(a, defined).Some? ==> forall rest, m ::
      Similar(Find(Build(a, defined).value, rx, rest, m), Find(Build(b, defined).value, rx, rest, m))
  {
    hide Build, ConflictFree, DistinctKeys, AllDefined, Find, Disjoint;
    PermutationDefined(a, b, defined);
    PermutationDistinct(a, b);
    BuildAccepts(a, defined);
    BuildAccepts(b, defined);
    if ConflictFree(a) { PermutationConflictFree(a, b); }
    if ConflictFree(b) { PermutationConflictFree(b, a); }
    if Build(a, defined).Some? {
      var t, u := Build(a, defined).value, Build(b, defined).value;
      BuildValid(a, defined);
      BuildValid(b, defined);
      forall p, m ensures RouteAt(t, p, m) == RouteAt(u, p, m) {
        SameRegistered(a, b, defined, p, m);
      }
      forall rest, m ensures Similar(Find(t, rx, rest, m), Find(u, rx, rest, m)) {
        FindSimilar(t, u, defined, rx, rest, m);
      }
    }
  }

  lemma SameRegistered<T(!new)>(
    a: seq<Registration<T>>, b: seq<Registration<T>>, defined: Constraints, p: Pattern, m: Method)
    requires Permutation(a, b) && DistinctKeys(a) && DistinctKeys(b) && AllDefined(a, defined) && AllDefined(b, defined)
    requires Build(a, defined).Some? && Build(b, defined).Some?
    ensures RouteAt(Build(a, defined).value, p, m) == RouteAt(Build(b, defined).value, p, m)
  {
    hide Build, DistinctKeys, AllDefined, RouteAt;
    var x, y := RouteAt(Build(a, defined).value, p, m), RouteAt(Build(b, defined).value, p, m);
    if x.Some? {
      BuildRoute(a, defined, p, m, x.value);
      BuildRoute(b, defined, p, m, x.value);
      PermutationIn(a, b, Registration(p, m, x.value));
    }
    if y.Some? {
      BuildRoute(a, defined, p, m, y.value);
      BuildRoute(b, defined, p, m, y.value);
      PermutationIn(a, b, Registration(p, m, y.value));
    }
  }

  /** A list with the routes of two constraints at one place, under one name. */
  function Pair<T>(c: Constraint, r: T, d: Constraint, s: T, name: string, m: Method): seq<Registration<T>> {
    [Registration([Param(name, c)], m, r), Registration([Param(name, d)], m, s)]
  }

  /** And if a value fits two, the order matters: whichever is registered first
      answers for it. */
  lemma OrderMatters<T(!new)>(
    defined: Constraints, rx: Regex, c: Constraint, d: Constraint, value: string, name: string, m: Method, r: T, s: T)
    requires value != "" && '/' !in value && Overlap(defined, rx, c, d, value) && c != d
    ensures var a, b := Pair(c, r, d, s, name, m), Pair(d, s, c, r, name, m);
      && Permutation(a, b) && DistinctKeys(a) && AllDefined(a, defined) && Build(a, defined).Some? && Build(b, defined).Some?
      && Find(Build(a, defined).value, rx, value, m) == Matched(r, [Capture(name, c, value)])
      && Find(Build(b, defined).value, rx, value, m) == Matched(s, [Capture(name, d, value)])
  {
    hide Build, Find, Fits;
    var a, b := Pair(c, r, d, s, name, m), Pair(d, s, c, r, name, m);
    assert a == [a[0]] + [a[1]] && b == [a[1]] + [a[0]];
    FirstAnswers(defined, rx, c, d, value, name, m, r, s);
    FirstAnswers(defined, rx, d, c, value, name, m, s, r);
  }

  lemma FirstAnswers<T>(
    defined: Constraints, rx: Regex, c: Constraint, d: Constraint, value: string, name: string, m: Method, r: T, s: T)
    requires value != "" && '/' !in value && Overlap(defined, rx, c, d, value) && c != d
    ensures var a := Pair(c, r, d, s, name, m); AllDefined(a, defined) && Build(a, defined).Some?
    ensures Find(Build(Pair(c, r, d, s, name, m), defined).value, rx, value, m) == Matched(r, [Capture(name, c, value)])
  {
    hide Insert, Find, CustomOf, Fits, Leaf;
    var p, q := ParamChild(name, c, CustomOf(defined, c), Leaf(m, r)), ParamChild(name, d, CustomOf(defined, d), Leaf(m, s));
    var t: Tree<T> := Empty().(params := [p]);
    var u: Tree<T> := Empty().(params := [p, q]);
    var a := Pair(c, r, d, s, name, m);
    assert a[..1] == [a[0]] && a[..1][..0] == [];
    InsertOne(Empty(), name, c, m, r, defined);
    assert [] + [p] == [p] && [p] + [q] == [p, q];
    assert InsertAll(Empty(), [], defined) == Some(Empty<T>());
    assert InsertAll(Empty(), a[..1], defined) == Some(t);
    InsertOne(t, name, d, m, s, defined);
    assert InsertAll(Empty(), a, defined) == Some(u);
    CustomDefined(defined, rx, c, value);
    CustomDefined(defined, rx, d, value);
    assert ParamMatches(p, rx, value) by { ParamMatchesFits(p, defined, rx, value); }
    assert Find(Leaf(m, r), rx, "", m) == Matched(r, []) by { FindLeaf(m, r, rx); }
    FindFirst(u, p, q, rx, value, m);
  }

  lemma CustomDefined(defined: Constraints, rx: Regex, c: Constraint, value: string)
    requires Fits(defined, rx, c, value)
    ensures c.Custom? ==> c.index < |defined|
  {}

  lemma FindLeaf<T>(m: Method, r: T, rx: Regex)
    ensures Find(Leaf(m, r), rx, "", m) == Matched(r, [])
  {
    assert NextSegment("") == None;
    MethodInsertRoute([], m, r, m);
  }

  function Leaf<T>(m: Method, r: T): Tree<T> {
    Empty().(methods := MethodInsert([], m, r))
  }

  /** A parameter with a new constraint goes after those there. */
  lemma InsertOne<T>(t: Tree<T>, name: string, c: Constraint, m: Method, r: T, defined: Constraints)
    requires !c.Any? && ParamIndex(t.params, c).None? && ParamIndex(t.params, Any).None?
    ensures Insert(t, AsSteps([Param(name, c)]), m, r, defined)
         == Inserted(t.(params := t.params + [ParamChild(name, c, CustomOf(defined, c), Leaf(m, r))]), None)
  {
    hide CustomOf, Insert, SetChild, Child, Clash, Leaf;
    var seg := Param(name, c);
    var steps := AsSteps([seg]);
    assert steps == [Ok(seg)] && steps[1..] == [];
    assert Clash(t, seg) == None && Child(t, seg) == Empty() by { ChildOfNone(t, name, c); }
    assert Insert(Empty(), [], m, r, defined) == Inserted(Leaf(m, r), None) by { InsertLeaf(m, r, defined); }
    InsertStep(t, steps, seg, m, r, defined);
    SetNew(t, name, c, Leaf(m, r), defined);
  }

  lemma ChildOfNone<T>(t: Tree<T>, name: string, c: Constraint)
    requires ParamIndex(t.params, c).None?
    ensures Clash(t, Param(name, c)) == None && Child(t, Param(name, c)) == Empty()
  {}

  lemma InsertLeaf<T>(m: Method, r: T, defined: Constraints)
    ensures Insert(Empty(), [], m, r, defined) == Inserted(Leaf(m, r), None)
  {}

  lemma InsertStep<T>(t: Tree<T>, steps: Steps, seg: Segment, m: Method, r: T, defined: Constraints)
    requires steps == [Ok(seg)] && seg.Param? && Clash(t, seg) == None
    ensures Insert(t, steps, m, r, defined)
         == (var below := Insert(Child(t, seg), [], m, r, defined); Inserted(SetChild(t, seg, below.tree, defined), below.error))
  {
    hide SetChild, Child, Clash;
    assert steps[1..] == [];
  }

  lemma SetNew<T>(t: Tree<T>, name: string, c: Constraint, node: Tree<T>, defined: Constraints)
    requires ParamIndex(t.params, c).None? && ParamIndex(t.params, Any).None?
    ensures SetChild(t, Param(name, c), node, defined)
         == t.(params := t.params + [ParamChild(name, c, CustomOf(defined, c), node)])
  {
    hide CustomOf, ParamIndex;
    var ps := t.params;
    assert ps[..|ps|] == ps && ps[|ps|..] == [];
  }

  /** The first of two parameters that fit answers. */
  lemma FindFirst<T>(u: Tree<T>, p: ParamChild<T>, q: ParamChild<T>, rx: Regex, value: string, m: Method)
    requires u == Empty().(params := [p, q]) && value != "" && '/' !in value
    requires ParamMatches(p, rx, value) && Find(p.node, rx, "", m).Matched?
    ensures var found := Find(p.node, rx, "", m);
      Find(u, rx, value, m) == Matched(found.route, [Capture(p.name, p.constraint, value)] + found.captures)
  {
    hide ParamMatches, Find, FindParam;
    assert NextSegment(value) == Some((value, ""));
    FindEmpty<T>(rx, "", m);
    assert Child(u, Literal(value)) == Empty() by { assert u.literals == map[]; }
    assert FindParams([p, q], rx, value, m) == FindParam(p, rx, value, m) by {
      ParamAnswers(p, rx, value, m);
    }
    ParamAnswers(p, rx, value, m);
    RootAnswers(u, rx, value, m);
  }

  lemma ParamAnswers<T>(p: ParamChild<T>, rx: Regex, value: string, m: Method)
    requires NextSegment(value) == Some((value, "")) && ParamMatches(p, rx, value)
    ensures FindParam(p, rx, value, m) == Capturing(Capture(p.name, p.constraint, value), Find(p.node, rx, "", m))
  {
    hide ParamMatches, Find, NextSegment;
  }

  lemma RootAnswers<T>(u: Tree<T>, rx: Regex, value: string, m: Method)
    requires NextSegment(value) == Some((value, "")) && u.wildcard.None?
    ensures Find(u, rx, value, m) == Best(Find(Child(u, Literal(value)), rx, "", m), FindParams(u.params, rx, value, m))
  {
    hide NextSegment, Child, FindParams;
  }
}
