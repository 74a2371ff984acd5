/** Insert and remove refine a finite map from (pattern, method) to route, and
    a rejected insert is invisible (src/tree.rs:164-276). */
module RouteTreeMap {
  import opened Wrappers
  import opened Path
  import opened RouteTree

  // ---- Methods

  lemma MethodIndexIs<T>(ms: Methods<T>, i: nat)
    requires Distinct(ms) && i < |ms|
    ensures MethodIndex(ms, ms[i].verb) == Some(i)
  {
    hide MethodIndex;
    var r := MethodIndex(ms, ms[i].verb);
    assert r.Some?;
  }

  lemma MethodInsertRoute<T>(ms: Methods<T>, m: Method, route: T, m': Method)
    requires Distinct(ms)
    ensures Distinct(MethodInsert(ms, m, route))
    ensures MethodRoute(MethodInsert(ms, m, route), m') == if m' == m then Some(route) else MethodRoute(ms, m')
  {
    hide MethodIndex, Distinct, MethodRoute;
    MethodInsertDistinct(ms, m, route);
    var r := MethodInsert(ms, m, route);
    match MethodIndex(ms, m') {
      case Some(i) =>
        assert r[i] == if m' == m then Entry(m, route) else ms[i];
        MethodRouteIs(ms, i);
        MethodRouteIs(r, i);
      case None =>
        if m' == m {
          assert r[|ms|] == Entry(m, route);
          MethodRouteIs(r, |ms|);
        } else {
          assert forall i | 0 <= i < |r| :: r[i].verb != m';
          MethodRouteNone(ms, m');
          MethodRouteNone(r, m');
        }
    }
  }

  lemma MethodRouteIs<T>(ms: Methods<T>, i: nat)
    requires Distinct(ms) && i < |ms|
    ensures MethodRoute(ms, ms[i].verb) == Some(ms[i].route)
  {
    hide MethodIndex;
    MethodIndexIs(ms, i);
  }

  lemma MethodRouteNone<T>(ms: Methods<T>, m: Method)
    requires forall i | 0 <= i < |ms| :: ms[i].verb != m
    ensures MethodRoute(ms, m) == None
  {
    hide MethodIndex;
  }

  lemma MethodInsertDistinct<T>(ms: Methods<T>, m: Method, route: T)
    requires Distinct(ms)
    ensures Distinct(MethodInsert(ms, m, route))
  {
    hide MethodIndex;
  }

  lemma {:induction false} MethodRemoveKeeps<T>(ms: Methods<T>, m: Method)
    requires Distinct(ms)
    ensures var r := MethodRemove(ms, m);
      && Distinct(r)
      && forall i | 0 <= i < |r| :: r[i].verb != m && r[i] in ms
  {
    if ms != [] {
      MethodRemoveKeeps(ms[1..], m);
      var rest := MethodRemove(ms[1..], m);
      assert forall i | 0 <= i < |rest| :: rest[i] in ms && rest[i].verb != ms[0].verb;
    }
  }

  lemma MethodRouteTail<T>(ms: Methods<T>, m: Method)
    requires ms != []
    ensures MethodRoute(ms, m) == if ms[0].verb == m then Some(ms[0].route) else MethodRoute(ms[1..], m)
  {}

  lemma {:induction false} MethodRemoveRoute<T>(ms: Methods<T>, m: Method, m': Method)
    requires Distinct(ms)
    ensures Distinct(MethodRemove(ms, m))
    ensures MethodRoute(MethodRemove(ms, m), m') == if m' == m then None else MethodRoute(ms, m')
    ensures |MethodRemove(ms, m)| <= |ms|
    ensures |MethodRemove(ms, m)| < |ms| <==> MethodRoute(ms, m).Some?
  {
    hide MethodIndex, MethodRoute;
    MethodRemoveKeeps(ms, m);
    if ms == [] {
      assert MethodRoute(ms, m).None? && MethodRoute(ms, m').None? by { MethodRouteEmpty<T>(m); MethodRouteEmpty<T>(m'); }
    } else {
      MethodRemoveRoute(ms[1..], m, m');
      MethodRouteTail(ms, m);
      MethodRouteTail(ms, m');
      if ms[0].verb != m {
        var r := MethodRemove(ms, m);
        MethodRouteTail(r, m');
        assert r[1..] == MethodRemove(ms[1..], m);
      }
    }
  }

  lemma MethodRouteEmpty<T>(m: Method)
    ensures MethodRoute<T>([], m) == None
  {}

  // ---- Children

  lemma ParamForIs<T>(ps: seq<ParamChild<T>>, defined: Constraints, i: nat)
    requires ValidParams(ps, defined) && i < |ps|
    ensures ParamIndex(ps, ps[i].constraint) == Some(i) && ParamFor(ps, ps[i].constraint) == Some(ps[i])
  {
    hide ParamIndex;
    var r := ParamIndex(ps, ps[i].constraint);
    assert r.Some?;
  }

  lemma SetParamValid<T>(ps: seq<ParamChild<T>>, p: ParamChild<T>, defined: Constraints)
    requires ValidParams(ps, defined)
    requires p.custom == CustomOf(defined, p.constraint) && (p.constraint.Custom? ==> p.constraint.index < |defined|)
    ensures ValidParams(SetParam(ps, p), defined)
    ensures p in SetParam(ps, p)
    ensures forall i | 0 <= i < |SetParam(ps, p)| :: var q := SetParam(ps, p)[i]; q == p || (q in ps && q.constraint != p.constraint)
    ensures forall q | q in ps && q.constraint != p.constraint :: q in SetParam(ps, p)
  {
    hide ParamIndex, CustomOf, ValidParams, NewParamPlace;
    match ParamIndex(ps, p.constraint)
    case Some(k) => ParamReplaced(ps, p, defined, k);
    case None =>
      NewPlace(ps, defined);
      ParamAdded(ps, p, defined, NewParamPlace(ps));
  }

  lemma NewPlace<T>(ps: seq<ParamChild<T>>, defined: Constraints)
    requires ValidParams(ps, defined)
    ensures var i := NewParamPlace(ps); i >= |ps| - 1 && (forall j | 0 <= j < i :: ps[j].constraint != Any)
    ensures var i := NewParamPlace(ps); i < |ps| ==> ps[i].constraint == Any
  {
    hide ParamIndex;
  }

  lemma ParamReplaced<T>(ps: seq<ParamChild<T>>, p: ParamChild<T>, defined: Constraints, k: nat)
    requires ValidParams(ps, defined) && k < |ps| && ps[k].constraint == p.constraint
    requires p.custom == CustomOf(defined, p.constraint) && (p.constraint.Custom? ==> p.constraint.index < |defined|)
    ensures var r := ps[k := p];
      && ValidParams(r, defined) && p in r
      && (forall i | 0 <= i < |r| :: r[i] == p || (r[i] in ps && r[i].constraint != p.constraint))
      && (forall q | q in ps && q.constraint != p.constraint :: q in r)
  {
    hide CustomOf;
    var r := ps[k := p];
    assert r[k] == p;
    forall q | q in ps && q.constraint != p.constraint ensures q in r {
      var j :| 0 <= j < |ps| && ps[j] == q;
      assert r[j] == q;
    }
  }

  lemma ParamAdded<T>(ps: seq<ParamChild<T>>, p: ParamChild<T>, defined: Constraints, i: nat)
    requires ValidParams(ps, defined) && forall j | 0 <= j < |ps| :: ps[j].constraint != p.constraint
    requires p.custom == CustomOf(defined, p.constraint) && (p.constraint.Custom? ==> p.constraint.index < |defined|)
    requires |ps| - 1 <= i <= |ps| && (i < |ps| ==> ps[i].constraint == Any) && forall j | 0 <= j < i :: ps[j].constraint != Any
    ensures var r := ps[..i] + [p] + ps[i..];
      && ValidParams(r, defined) && p in r
      && (forall i | 0 <= i < |r| :: r[i] == p || (r[i] in ps && r[i].constraint != p.constraint))
      && (forall q | q in ps && q.constraint != p.constraint :: q in r)
  {
    hide CustomOf;
    var r := ps[..i] + [p] + ps[i..];
    assert r[i] == p;
    assert forall j | 0 <= j < i :: r[j] == ps[j];
    assert forall j | i < j < |r| :: r[j] == ps[j - 1];
    forall q | q in ps ensures q in r {
      var j :| 0 <= j < |ps| && ps[j] == q;
      assert r[if j < i then j else j + 1] == q;
    }
  }

  lemma ParamForIff<T>(ps: seq<ParamChild<T>>, defined: Constraints, p: ParamChild<T>)
    requires ValidParams(ps, defined)
    ensures p in ps <==> ParamFor(ps, p.constraint) == Some(p)
  {
    if p in ps {
      var i :| 0 <= i < |ps| && ps[i] == p;
      ParamForIs(ps, defined, i);
    }
  }

  lemma SetParamFor<T>(ps: seq<ParamChild<T>>, p: ParamChild<T>, defined: Constraints, c: Constraint)
    requires ValidParams(ps, defined)
    requires p.custom == CustomOf(defined, p.constraint) && (p.constraint.Custom? ==> p.constraint.index < |defined|)
    ensures ParamFor(SetParam(ps, p), c) == if c == p.constraint then Some(p) else ParamFor(ps, c)
  {
    hide ParamIndex, SetParam, CustomOf, ValidParams;
    var r := SetParam(ps, p);
    SetParamValid(ps, p, defined);
    if c == p.constraint {
      ParamForIff(r, defined, p);
    } else {
      if ParamFor(ps, c).Some? { ParamForIff(r, defined, ParamFor(ps, c).value); }
      if ParamFor(r, c).Some? { ParamForIff(ps, defined, ParamFor(r, c).value); }
    }
  }

  /** The constraint of a parsed parameter is one that is defined. */
  ghost predicate SegmentDefined(seg: Segment, defined: Constraints) {
    seg.Param? && seg.constraint.Custom? ==> seg.constraint.index < |defined|
  }

  /** Replacing the subtree of a segment changes that subtree and no other. */
  lemma SetChildChild<T>(t: Tree<T>, seg: Segment, node: Tree<T>, defined: Constraints, seg': Segment)
    requires Valid(t, defined) && SegmentDefined(seg, defined) && !seg.Wildcard? && Clash(t, seg).None?
    ensures Child(SetChild(t, seg, node, defined), seg') == if seg' == seg then node else Child(t, seg')
    ensures var r := SetChild(t, seg, node, defined); r.methods == t.methods && r.wildcard == t.wildcard
    ensures HasChild(SetChild(t, seg, node, defined), seg') <==> seg' == seg || HasChild(t, seg')
    ensures Clash(SetChild(t, seg, node, defined), seg') ==
      if seg'.Param? && seg.Param? && seg'.constraint == seg.constraint && seg'.name != seg.name
      then Some(seg.name) else Clash(t, seg')
  {
    hide ParamFor, SetParam;
    if seg.Param? && seg'.Param? {
      SetParamFor(t.params, ParamChild(seg.name, seg.constraint, CustomOf(defined, seg.constraint), node),
                  defined, seg'.constraint);
    }
  }

  lemma SetChildValid<T>(t: Tree<T>, seg: Segment, node: Tree<T>, defined: Constraints)
    requires Valid(t, defined) && Valid(node, defined) && SegmentDefined(seg, defined)
    ensures Valid(SetChild(t, seg, node, defined), defined)
  {
    hide ParamFor, SetParam;
    if seg.Param? {
      var p := ParamChild(seg.name, seg.constraint, CustomOf(defined, seg.constraint), node);
      SetParamValid(t.params, p, defined);
      var r := SetParam(t.params, p);
      forall i | 0 <= i < |r| ensures Valid(r[i].node, defined) {
        assert r[i] == p || r[i] in t.params;
      }
    }
  }

  lemma ChildSame<T>(t: Tree<T>, t': Tree<T>, seg: Segment)
    requires t.literals == t'.literals && t.params == t'.params
    ensures Child(t, seg) == Child(t', seg)
  {}

  lemma ChildValid<T>(t: Tree<T>, seg: Segment, defined: Constraints)
    requires Valid(t, defined)
    ensures Valid(Child(t, seg), defined)
  {
    hide ParamIndex;
  }

  // ---- Insert

  lemma {:induction false} EmptyRoutes<T>(p: Pattern, m: Method)
    ensures RouteAt<T>(Empty(), p, m) == None
    decreases |p|
  {
    if p != [] && !p[0].Wildcard? {
      EmptyRoutes<T>(p[1..], m);
    }
  }

  ghost predicate StepsDefined(steps: Steps, defined: Constraints) {
    forall i | 0 <= i < |steps| && steps[i].Ok? :: SegmentDefined(steps[i].value, defined)
  }

  lemma {:induction false} InsertKeepsValid<T>(t: Tree<T>, steps: Steps, m: Method, route: T, defined: Constraints)
    requires Valid(t, defined) && StepsDefined(steps, defined)
    ensures Valid(Insert(t, steps, m, route, defined).tree, defined)
    decreases |steps|
  {
    hide MethodInsert, ParamFor, SetChild, Child;
    MethodInsertRoute(t.methods, m, route, m);
    MethodInsertRoute(WildcardMethods(t), m, route, m);
    if steps != [] && steps[0].Ok? && !steps[0].value.Wildcard? {
      var seg := steps[0].value;
      ChildValid(t, seg, defined);
      InsertKeepsValid(Child(t, seg), steps[1..], m, route, defined);
      SetChildValid(t, seg, Insert(Child(t, seg), steps[1..], m, route, defined).tree, defined);
    }
  }

  lemma StepsOf(steps: Steps, p: Pattern)
    requires steps != [] && p != []
    ensures steps == AsSteps(p) <==> steps[0] == Ok(p[0]) && steps[1..] == AsSteps(p[1..])
  {}

  /** A new subtree changes the entries below its segment and no others. */
  lemma RouteBelow<T>(t: Tree<T>, seg: Segment, node: Tree<T>, defined: Constraints, p: Pattern, m': Method)
    requires Valid(t, defined) && SegmentDefined(seg, defined) && !seg.Wildcard? && Clash(t, seg).None?
    ensures RouteAt(SetChild(t, seg, node, defined), p, m')
         == if p != [] && p[0] == seg then RouteAt(node, p[1..], m') else RouteAt(t, p, m')
  {
    hide Valid, SetChild, Child, Clash, MethodRoute;
    SetChildChild(t, seg, node, defined, if p == [] then Wildcard("") else p[0]);
  }

  lemma RouteOfMethods<T>(t: Tree<T>, ms: Methods<T>, p: Pattern, m: Method)
    ensures RouteAt(t.(methods := ms), p, m) == if p == [] then MethodRoute(ms, m) else RouteAt(t, p, m)
  {
    hide Child, MethodRoute;
    if p != [] { ChildSame(t, t.(methods := ms), p[0]); }
  }

  lemma RouteOfWildcard<T>(t: Tree<T>, w: WildcardChild<T>, p: Pattern, m: Method)
    requires t.wildcard.Some? ==> t.wildcard.value.name == w.name
    ensures RouteAt(t.(wildcard := Some(w)), p, m)
         == if p == [Wildcard(w.name)] then MethodRoute(w.methods, m) else RouteAt(t, p, m)
    ensures RouteAt(t, [Wildcard(w.name)], m) == MethodRoute(WildcardMethods(t), m)
  {
    hide Child, MethodRoute;
    MethodRouteEmpty<T>(m);
    if p != [] { ChildSame(t, t.(wildcard := Some(w)), p[0]); }
  }

  /** What an insert does at the node where it stops. */
  lemma InsertHere<T>(t: Tree<T>, steps: Steps, m: Method, route: T, defined: Constraints, p: Pattern, m': Method)
    requires Valid(t, defined)
    requires steps != [] && steps[0].Ok? && !steps[0].value.Wildcard? ==> Clash(t, steps[0].value).Some?
    ensures var r := Insert(t, steps, m, route, defined);
      RouteAt(r.tree, p, m') ==
        if r.error.None? && steps == AsSteps(p) && m' == m then Some(route) else RouteAt(t, p, m')
  {
    hide MethodInsert, MethodIndex, MethodRoute, SetChild, Child, ValidParams, RouteAt;
    if steps == [] {
      var ms := MethodInsert(t.methods, m, route);
      MethodInsertRoute(t.methods, m, route, m');
      RouteOfMethods(t, ms, p, m');
      RouteOfMethods(t, t.methods, p, m');
      assert t.(methods := t.methods) == t;
    } else if steps[0].Ok? && steps[0].value.Wildcard? && |steps| == 1 && Clash(t, steps[0].value).None? {
      var ms := MethodInsert(WildcardMethods(t), m, route);
      MethodInsertRoute(WildcardMethods(t), m, route, m');
      RouteOfWildcard(t, WildcardChild(steps[0].value.name, ms), p, m');
    }
  }

  lemma InsertGoesOn<T>(t: Tree<T>, steps: Steps, m: Method, route: T, defined: Constraints)
    requires steps != [] && steps[0].Ok? && !steps[0].value.Wildcard? && Clash(t, steps[0].value).None?
    ensures var seg := steps[0].value;
      var r := Insert(Child(t, seg), steps[1..], m, route, defined);
      Insert(t, steps, m, route, defined) == Inserted(SetChild(t, seg, r.tree, defined), r.error)
  {
    hide SetChild, Child, MethodInsert;
  }

  lemma RouteGoesOn<T>(t: Tree<T>, p: Pattern, m: Method)
    requires p != [] && !p[0].Wildcard?
    ensures RouteAt(t, p, m) == RouteAt(Child(t, p[0]), p[1..], m)
  {
    hide Child, MethodRoute;
  }

  /** An accepted insert sets its own entry and touches no other; a rejected
      one, at whatever depth it fails, touches none. */
  lemma {:induction false} InsertRoute<T>(
    t: Tree<T>, steps: Steps, m: Method, route: T, defined: Constraints, p: Pattern, m': Method)
    requires Valid(t, defined) && StepsDefined(steps, defined)
    ensures var r := Insert(t, steps, m, route, defined);
      RouteAt(r.tree, p, m') ==
        if r.error.None? && steps == AsSteps(p) && m' == m then Some(route) else RouteAt(t, p, m')
    decreases |steps|
  {
    hide Insert, RouteAt, SetChild, Child, Valid, Clash;
    if steps == [] || steps[0].Err? || steps[0].value.Wildcard? || Clash(t, steps[0].value).Some? {
      InsertHere(t, steps, m, route, defined, p, m');
    } else {
      var seg := steps[0].value;
      InsertGoesOn(t, steps, m, route, defined);
      ChildValid(t, seg, defined);
      RouteBelow(t, seg, Insert(Child(t, seg), steps[1..], m, route, defined).tree, defined, p, m');
      if p != [] {
        StepsOf(steps, p);
        if p[0] == seg {
          RouteGoesOn(t, p, m');
          InsertRoute(Child(t, seg), steps[1..], m, route, defined, p[1..], m');
        }
      }
    }
  }

  // ---- Remove

  lemma {:induction false} RemoveKeepsValid<T>(t: Tree<T>, steps: Steps, m: Method, defined: Constraints)
    requires Valid(t, defined) && StepsDefined(steps, defined)
    ensures Valid(Remove(t, steps, m, defined).tree, defined)
    decreases |steps|
  {
    hide MethodRemove, ParamFor, SetChild, Child;
    MethodRemoveRoute(t.methods, m, m);
    if t.wildcard.Some? { MethodRemoveRoute(t.wildcard.value.methods, m, m); }
    if steps != [] && steps[0].Ok? && !steps[0].value.Wildcard? {
      var seg := steps[0].value;
      ChildValid(t, seg, defined);
      RemoveKeepsValid(Child(t, seg), steps[1..], m, defined);
      SetChildValid(t, seg, Remove(Child(t, seg), steps[1..], m, defined).tree, defined);
    }
  }

  /** What a removal looks at: nothing after the first wildcard. */
  function UpToWildcard(steps: Steps): Steps {
    if steps == [] then steps
    else if steps[0].Ok? && steps[0].value.Wildcard? then steps[..1]
    else steps[..1] + UpToWildcard(steps[1..])
  }

  lemma UpToWildcardOf(steps: Steps, p: Pattern)
    requires steps != [] && p != []
    ensures UpToWildcard(steps) == AsSteps(p) <==>
      steps[0] == Ok(p[0]) && (if p[0].Wildcard? then |p| == 1 else UpToWildcard(steps[1..]) == AsSteps(p[1..]))
  {
    StepsOf(UpToWildcard(steps), p);
    if steps[0].Ok? && steps[0].value.Wildcard? {
      assert UpToWildcard(steps)[1..] == [];
    } else {
      assert UpToWildcard(steps)[1..] == UpToWildcard(steps[1..]);
    }
  }

  lemma HasChildMeans<T>(t: Tree<T>, seg: Segment)
    ensures if HasChild(t, seg) then Clash(t, seg) == None else Child(t, seg) == Empty()
  {}

  /** What a removal does at the node where it stops. */
  lemma RemoveHere<T>(t: Tree<T>, steps: Steps, m: Method, defined: Constraints, p: Pattern, m': Method)
    requires Valid(t, defined)
    requires steps != [] && steps[0].Ok? && !steps[0].value.Wildcard? ==> !HasChild(t, steps[0].value)
    ensures var r := Remove(t, steps, m, defined);
      RouteAt(r.tree, p, m') == if UpToWildcard(steps) == AsSteps(p) && m' == m then None else RouteAt(t, p, m')
    ensures UpToWildcard(steps) == AsSteps(p) ==>
      Remove(t, steps, m, defined).result == Ok(RouteAt(t, p, m).Some?)
  {
    hide MethodRemove, MethodRoute, SetChild, Child, HasChild, UpToWildcard, ValidParams, RouteAt, AsSteps;
    CutHere(steps, p);
    if steps == [] {
      MethodRemoveRoute(t.methods, m, m');
      RouteOfMethods(t, MethodRemove(t.methods, m), p, m');
      RouteOfMethods(t, t.methods, p, m');
      RouteOfMethods(t, t.methods, p, m);
      assert t.(methods := t.methods) == t;
    } else if steps[0].Ok? {
      var seg := steps[0].value;
      if seg.Wildcard? {
        if t.wildcard.Some? && t.wildcard.value.name == seg.name {
          var ms := MethodRemove(t.wildcard.value.methods, m);
          MethodRemoveRoute(t.wildcard.value.methods, m, m');
          RouteOfWildcard(t, WildcardChild(seg.name, ms), p, m');
          RouteOfWildcard(t, t.wildcard.value, p, m');
          RouteOfWildcard(t, t.wildcard.value, p, m);
          assert t.(wildcard := Some(t.wildcard.value)) == t;
        } else {
          NoWildcard(t, seg.name, m);
          NoWildcard(t, seg.name, m');
        }
      } else if p != [] && p[0] == seg {
        RouteGoesOn(t, p, m);
        RouteGoesOn(t, p, m');
        HasChildMeans(t, seg);
        EmptyRoutes<T>(p[1..], m);
        EmptyRoutes<T>(p[1..], m');
      }
    }
  }

  lemma NoWildcard<T>(t: Tree<T>, name: string, m: Method)
    requires t.wildcard.None? || t.wildcard.value.name != name
    ensures RouteAt(t, [Wildcard(name)], m) == None
  {}

  lemma CutHere(steps: Steps, p: Pattern)
    ensures steps == [] ==> (UpToWildcard(steps) == AsSteps(p) <==> p == [])
    ensures steps != [] && steps[0].Err? ==> UpToWildcard(steps) != AsSteps(p)
    ensures steps != [] && steps[0].Ok? && steps[0].value.Wildcard? ==>
      (UpToWildcard(steps) == AsSteps(p) <==> p == [steps[0].value])
    ensures steps != [] && UpToWildcard(steps) == AsSteps(p) ==> p != [] && steps[0] == Ok(p[0])
  {
    hide UpToWildcard;
    UpToWildcardEmpty(steps);
    if p == [] {
      assert AsSteps(p) == [];
    } else if steps != [] {
      UpToWildcardOf(steps, p);
    }
  }

  lemma RemoveGoesOn<T>(t: Tree<T>, steps: Steps, m: Method, defined: Constraints)
    requires steps != [] && steps[0].Ok? && !steps[0].value.Wildcard? && HasChild(t, steps[0].value)
    ensures var seg := steps[0].value;
      var r := Remove(Child(t, seg), steps[1..], m, defined);
      Remove(t, steps, m, defined) == Removed(SetChild(t, seg, r.tree, defined), r.result)
  {
    hide SetChild, Child, HasChild, MethodRemove;
  }

  /** A removal takes out the entry of its pattern cut after the first wildcard
      and no other, and answers whether that entry was there. */
  lemma {:induction false} RemoveRoute<T>(
    t: Tree<T>, steps: Steps, m: Method, defined: Constraints, p: Pattern, m': Method)
    requires Valid(t, defined) && StepsDefined(steps, defined)
    ensures var r := Remove(t, steps, m, defined);
      RouteAt(r.tree, p, m') == if UpToWildcard(steps) == AsSteps(p) && m' == m then None else RouteAt(t, p, m')
    ensures UpToWildcard(steps) == AsSteps(p) ==>
      Remove(t, steps, m, defined).result == Ok(RouteAt(t, p, m).Some?)
    decreases |steps|
  {
    hide Remove, RouteAt, SetChild, Child, Valid, HasChild, UpToWildcard;
    if steps == [] || steps[0].Err? || steps[0].value.Wildcard? || !HasChild(t, steps[0].value) {
      RemoveHere(t, steps, m, defined, p, m');
    } else {
      var seg := steps[0].value;
      RemoveGoesOn(t, steps, m, defined);
      ChildValid(t, seg, defined);
      HasChildMeans(t, seg);
      RouteBelow(t, seg, Remove(Child(t, seg), steps[1..], m, defined).tree, defined, p, m');
      UpToWildcardEmpty(steps);
      if p == [] {
        assert AsSteps(p) == [];
      } else {
        UpToWildcardOf(steps, p);
        if p[0] == seg {
          RouteGoesOn(t, p, m);
          RouteGoesOn(t, p, m');
          RemoveRoute(Child(t, seg), steps[1..], m, defined, p[1..], m');
        }
      }
    }
  }

  lemma UpToWildcardEmpty(steps: Steps)
    ensures UpToWildcard(steps) == [] <==> steps == []
  {}
}
