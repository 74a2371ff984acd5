/** Two broader claims one could make of the tree that its code does not keep,
    with an input that breaks each and the exact condition under which it holds
    (src/tree.rs:176-206, 253-276). */
module RouteTreeEdges {
  import opened Wrappers
  import opened Path
  import opened RouteTree
  import opened RouteTreeMap
  import opened RouteTreeOrder

  // ---- Removing: what follows a wildcard is not looked at

  /** `p` cut after its first wildcard. */
  function Cut(p: Pattern): Pattern {
    if p == [] then [] else if p[0].Wildcard? then p[..1] else [p[0]] + Cut(p[1..])
  }

  lemma {:induction false} CutIs(p: Pattern)
    ensures UpToWildcard(AsSteps(p)) == AsSteps(Cut(p))
    ensures Cut(p) == p <==> WildcardLast(p)
  {
    if p != [] {
      hide WildcardLast;
      assert AsSteps(p)[1..] == AsSteps(p[1..]);
      CutIs(p[1..]);
      LastOfTail(p);
      if p[0].Wildcard? {
        assert AsSteps(p)[..1] == AsSteps(p[..1]);
      } else {
        assert AsSteps([p[0]] + Cut(p[1..])) == AsSteps(p)[..1] + AsSteps(Cut(p[1..]));
        assert Cut(p)[1..] == Cut(p[1..]);
        assert p == [p[0]] + p[1..];
      }
    } else {
      assert AsSteps(p) == [];
    }
  }

  lemma LastOfTail(p: Pattern)
    requires p != []
    ensures WildcardLast(p) <==> if p[0].Wildcard? then |p| == 1 else WildcardLast(p[1..])
  {
    assert forall i | 1 <= i < |p| :: p[i] == p[1..][i - 1];
  }

  lemma {:induction false} NoRouteAfterWildcard<T>(t: Tree<T>, p: Pattern, m: Method)
    requires !WildcardLast(p)
    ensures RouteAt(t, p, m) == None
    decreases |p|
  {
    if !p[0].Wildcard? {
      var i :| 0 <= i < |p| - 1 && p[i].Wildcard?;
      assert p[1..][i - 1].Wildcard?;
      NoRouteAfterWildcard(Child(t, p[0]), p[1..], m);
    }
  }

  /** A removal leaves every route but that of its own pattern and method alone. */
  ghost predicate RemovesOnlyItsOwn<T>(t: Tree<T>, p: Pattern, m: Method, defined: Constraints) {
    forall q, m' | (q, m') != (p, m) :: RouteAt(Remove(t, AsSteps(p), m, defined).tree, q, m') == RouteAt(t, q, m')
  }

  /** It does exactly when the wildcard is last, or nothing is registered for
      the pattern cut after its wildcard. */
  lemma RemoveIsExactWhen<T>(t: Tree<T>, p: Pattern, m: Method, defined: Constraints)
    requires Valid(t, defined) && PatternDefined(p, defined)
    ensures RemovesOnlyItsOwn(t, p, m, defined) <==> WildcardLast(p) || RouteAt(t, Cut(p), m).None?
  {
    hide Remove, RouteAt, Valid, UpToWildcard, Cut, WildcardLast;
    CutIs(p);
    StepsOfDefined(p, defined);
    var t' := Remove(t, AsSteps(p), m, defined).tree;
    forall q, m' ensures RouteAt(t', q, m') == if q == Cut(p) && m' == m then None else RouteAt(t, q, m') {
      RemoveRoute(t, AsSteps(p), m, defined, q, m');
      StepsInjective(Cut(p), q);
    }
    if !WildcardLast(p) && RouteAt(t, Cut(p), m).Some? {
      assert RouteAt(t', Cut(p), m) != RouteAt(t, Cut(p), m) && (Cut(p), m) != (p, m);
    }
  }

  /** Removing `*rest/more`, a pattern no insert accepts, takes `*rest` out. */
  lemma RemoveTakesAnother()
    ensures
      var t := Insert(Empty<int>(), AsSteps([Wildcard("rest")]), GET, 7, []).tree;
      !RemovesOnlyItsOwn(t, [Wildcard("rest"), Literal("more")], GET, [])
  {
    var p := [Wildcard("rest"), Literal("more")];
    var steps := AsSteps([Wildcard("rest")]);
    var t := Insert(Empty<int>(), steps, GET, 7, []).tree;
    InsertKeepsValid(Empty<int>(), steps, GET, 7, []);
    InsertRoute(Empty<int>(), steps, GET, 7, [], [Wildcard("rest")], GET);
    assert Insert(Empty<int>(), steps, GET, 7, []).error.None?;
    RemoveIsExactWhen(t, p, GET, []);
    assert Cut(p) == [Wildcard("rest")] && p[0].Wildcard?;
  }

  // ---- Inserting: a rejected pattern keeps the names it introduced

  /** The segments a rejected insert has made nodes for. */
  function LeftBehind<T>(t: Tree<T>, steps: Steps): Pattern
    decreases |steps|
  {
    if steps == [] || steps[0].Err? || steps[0].value.Wildcard? || Clash(t, steps[0].value).Some? then []
    else [steps[0].value] + LeftBehind(Child(t, steps[0].value), steps[1..])
  }

  /** What clashes after a rejected insert: what clashed before, and what
      names a place of the segments left behind differently. */
  lemma {:induction false} ClashAfterRejected<T>(t: Tree<T>, steps: Steps, m: Method, route: T, defined: Constraints, q: Pattern)
    requires Valid(t, defined) && StepsDefined(steps, defined)
    requires Insert(t, steps, m, route, defined).error.Some?
    ensures ClashAlong(Insert(t, steps, m, route, defined).tree, q) <==> ClashAlong(t, q) || Conflicts(LeftBehind(t, steps), q)
    decreases |steps|
  {
    hide MethodInsert, SetChild, Child, Clash;
    if steps[0].Ok? && !steps[0].value.Wildcard? && Clash(t, steps[0].value).None? && q != [] {
      var seg := steps[0].value;
      var node := Insert(Child(t, seg), steps[1..], m, route, defined).tree;
      var left := LeftBehind(t, steps);
      assert left[0] == seg && left[1..] == LeftBehind(Child(t, seg), steps[1..]);
      SetChildChild(t, seg, node, defined, q[0]);
      if q[0] == seg {
        ChildValid(t, seg, defined);
        ClashAfterRejected(Child(t, seg), steps[1..], m, route, defined, q[1..]);
      }
    }
  }

  /** A later insert that the rejected one alone makes fail: exactly those
      that were fine before and conflict with what it left behind. */
  lemma RejectedInsertBlocks<T>(t: Tree<T>, steps: Steps, m: Method, route: T, defined: Constraints, q: Pattern, m': Method, route': T)
    requires Valid(t, defined) && StepsDefined(steps, defined) && Insert(t, steps, m, route, defined).error.Some?
    requires Insert(t, AsSteps(q), m', route', defined).error.None?
    ensures Insert(Insert(t, steps, m, route, defined).tree, AsSteps(q), m', route', defined).error.None?
      <==> !Conflicts(LeftBehind(t, steps), q)
  {
    hide Insert, ClashAlong, Conflicts;
    InsertAccepts(t, q, m', route', defined);
    InsertAccepts(Insert(t, steps, m, route, defined).tree, q, m', route', defined);
    ClashAfterRejected(t, steps, m, route, defined, q);
  }

  /** After `{id}` followed by an unnamed wildcard is refused, `{slug}` is too,
      though nothing is listed. */
  lemma LeftoverNameConflicts()
    ensures
      var bad: Steps := [Ok(Param("id", Any)), Err(UnnamedWildcard)];
      var t := Insert(Empty<int>(), bad, GET, 1, []);
      && t.error == Some(UnnamedWildcard)
      && Insert(Empty<int>(), AsSteps([Param("slug", Any)]), GET, 2, []).error.None?
      && Insert(t.tree, AsSteps([Param("slug", Any)]), GET, 2, []).error.Some?
  {
    var bad: Steps := [Ok(Param("id", Any)), Err(UnnamedWildcard)];
    var q := [Param("slug", Any)];
    assert bad[1..] == [Err(UnnamedWildcard)];
    InsertAccepts(Empty<int>(), q, GET, 2, []);
    EmptyNeverClashes<int>(q);
    RejectedInsertBlocks(Empty<int>(), bad, GET, 1, [], q, GET, 2);
    assert LeftBehind(Empty<int>(), bad) == [Param("id", Any)] + LeftBehind(Empty<int>(), bad[1..]);
    assert Conflicts(LeftBehind(Empty<int>(), bad), q);
  }
}
