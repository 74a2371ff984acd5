/** Which of the patterns that match a path answers it: at the first segment where
    two of them differ, a literal goes before a constrained parameter, that before
    an unconstrained one, and that before a wildcard (src/tree.rs:289-362). */
module RouteTreePriority {
  import opened Wrappers
  import opened Path
  import opened RouteTree
  import opened RouteTreeMap
  import opened RouteTreeFind

  function Rank(seg: Segment): nat {
    match seg
    case Literal(_) => 0
    case Param(_, c) => if c.Any? then 2 else 1
    case Wildcard(_) => 3
  }

  /** `q` goes before `p`: where they first differ, it has the segment of lower rank. */
  predicate Before(q: Pattern, p: Pattern) {
    q != [] && p != [] && (Rank(q[0]) < Rank(p[0]) || (q[0] == p[0] && Before(q[1..], p[1..])))
  }

  /** `q` has a route for the method and matches the path. */
  ghost predicate Takes<T>(t: Tree<T>, q: Pattern, defined: Constraints, rx: Regex, rest: string, m: Method) {
    RouteAt(t, q, m).Some? && Match(q, defined, rx, rest).Some?
  }

  // ---- What a pattern matches

  /** Whether one segment of a path fits one of a pattern. */
  predicate SegmentFits(seg: Segment, value: string, defined: Constraints, rx: Regex) {
    match seg
    case Literal(text) => value == text
    case Param(_, c) => Fits(defined, rx, c, value)
    case Wildcard(_) => true
  }

  /** A pattern matches a path of as many segments, each fitting; one that ends in a
      wildcard, also a longer one. */
  predicate MatchesSegments(p: Pattern, segments: seq<string>, defined: Constraints, rx: Regex) {
    && (forall i | 0 <= i < |p| - 1 :: !p[i].Wildcard?)
    && |p| <= |segments| && (p == [] || !p[|p| - 1].Wildcard? ==> |p| == |segments|)
    && forall i | 0 <= i < |p| :: SegmentFits(p[i], segments[i], defined, rx)
  }

  lemma {:induction false} MatchIs(p: Pattern, defined: Constraints, rx: Regex, rest: string)
    ensures Match(p, defined, rx, rest).Some? <==> MatchesSegments(p, AllSegments(rest), defined, rx)
    decreases |p|
  {
    hide NextSegment, Fits;
    match NextSegment(rest)
    case None =>
    case Some((segment, tail)) =>
      var segments := AllSegments(rest);
      assert segments == [segment] + AllSegments(tail);
      if p != [] && !(p[0].Wildcard? && |p| == 1) {
        MatchIs(p[1..], defined, rx, tail);
        assert segments[1..] == AllSegments(tail);
        MatchesTail(p, segments, defined, rx);
      } else if p != [] {
        assert MatchesSegments(p, segments, defined, rx);
      }
  }

  lemma MatchesTail(p: Pattern, segments: seq<string>, defined: Constraints, rx: Regex)
    requires p != [] && segments != [] && !(p[0].Wildcard? && |p| == 1)
    ensures MatchesSegments(p, segments, defined, rx) <==>
      !p[0].Wildcard? && SegmentFits(p[0], segments[0], defined, rx) && MatchesSegments(p[1..], segments[1..], defined, rx)
  {
    hide Fits, SegmentFits;
    var q, rest := p[1..], segments[1..];
    assert forall i | 0 <= i < |q| :: q[i] == p[i + 1];
    assert forall i | 1 <= i < |p| :: p[i] == q[i - 1];
    assert forall i | 1 <= i < |segments| :: segments[i] == rest[i - 1];
    if MatchesSegments(p, segments, defined, rx) {
      assert |p| == 1 ==> |segments| == 1;
      assert MatchesSegments(q, rest, defined, rx);
    }
  }

  /** What is captured: the segment of each parameter, in order, and all that is left
      for a wildcard. */
  lemma {:induction false} CapturesAre(p: Pattern, defined: Constraints, rx: Regex, rest: string)
    requires Match(p, defined, rx, rest).Some?
    ensures |p| <= |AllSegments(rest)|
    ensures Match(p, defined, rx, rest).value == CapturesOf(p, AllSegments(rest), LeftAt(rest, |p|))
    decreases |p|
  {
    hide NextSegment, Fits;
    if p != [] && !p[0].Wildcard? {
      var (segment, tail) := NextSegment(rest).value;
      CapturesAre(p[1..], defined, rx, tail);
      assert AllSegments(rest)[1..] == AllSegments(tail);
    }
  }

  /** What is left of a path before its `n`-th segment, without the slashes in front. */
  function LeftAt(rest: string, n: nat): string
    decreases n
  {
    if n <= 1 then Remainder(rest)
    else match NextSegment(rest) case None => "" case Some((_, tail)) => LeftAt(tail, n - 1)
  }

  function CapturesOf(p: Pattern, segments: seq<string>, left: string): seq<Capture>
    requires |p| <= |segments|
    decreases |p|
  {
    if p == [] then []
    else
      (match p[0]
       case Literal(_) => []
       case Param(name, c) => [Capture(name, c, segments[0])]
       case Wildcard(name) => [Capture(name, Any, left)]) + CapturesOf(p[1..], segments[1..], left)
  }

  // ---- Nothing that matches is missed

  lemma TakesBelow<T>(t: Tree<T>, q: Pattern, defined: Constraints, rx: Regex, rest: string, m: Method)
    requires Takes(t, q, defined, rx, rest, m) && NextSegment(rest).Some?
    ensures q != []
    ensures var (segment, tail) := NextSegment(rest).value;
      match q[0]
      case Literal(text) => text == segment && Takes(Child(t, q[0]), q[1..], defined, rx, tail, m)
      case Param(_, c) => Fits(defined, rx, c, segment) && Takes(Child(t, q[0]), q[1..], defined, rx, tail, m)
      case Wildcard(name) => |q| == 1 && t.wildcard.Some? && t.wildcard.value.name == name && MethodRoute(t.wildcard.value.methods, m).Some?
  {
    hide NextSegment, Child, Fits;
  }

  lemma {:induction false} FindComplete<T>(t: Tree<T>, q: Pattern, defined: Constraints, rx: Regex, rest: string, m: Method)
    requires Valid(t, defined) && Takes(t, q, defined, rx, rest, m)
    ensures Find(t, rx, rest, m).Matched?
    decreases |q|
  {
    hide NextSegment, Child, FindParams, FindParam, Takes, Valid, MethodRoute;
    match NextSegment(rest)
    case None => TakesHere(t, q, defined, rx, rest, m);
    case Some((segment, tail)) =>
      TakesBelow(t, q, defined, rx, rest, m);
      match q[0] {
        case Literal(_) =>
          ChildValid(t, q[0], defined);
          FindComplete(Child(t, q[0]), q[1..], defined, rx, tail, m);
        case Param(name, c) =>
          var i := TakingParam(t, q, defined, rx, rest, m);
          ParamsComplete(t.params, i, rx, rest, m);
        case Wildcard(_) => WildcardTakes(t.wildcard.value, rest, m);
      }
  }

  lemma TakesHere<T>(t: Tree<T>, q: Pattern, defined: Constraints, rx: Regex, rest: string, m: Method)
    requires Takes(t, q, defined, rx, rest, m) && NextSegment(rest).None?
    ensures q == [] && MethodOutcome(t.methods, m).Matched?
  {
    hide MethodIndex;
  }

  lemma WildcardTakes<T>(w: WildcardChild<T>, rest: string, m: Method)
    requires MethodRoute(w.methods, m).Some?
    ensures FindWildcard(Some(w), rest, m).Matched?
  {
    hide MethodIndex;
  }

  /** The child of the parameter that a pattern starts with, and what it finds. */
  lemma TakingParam<T>(t: Tree<T>, q: Pattern, defined: Constraints, rx: Regex, rest: string, m: Method) returns (i: nat)
    requires Valid(t, defined) && Takes(t, q, defined, rx, rest, m) && NextSegment(rest).Some? && q != [] && q[0].Param?
    ensures i < |t.params| && t.params[i].name == q[0].name && t.params[i].constraint == q[0].constraint
    ensures FindParam(t.params[i], rx, rest, m).Matched?
    decreases |q|, 0
  {
    hide NextSegment, Takes, Find, Fits, ParamMatches, CustomOf;
    var (segment, tail) := NextSegment(rest).value;
    TakesBelow(t, q, defined, rx, rest, m);
    assert Child(t, q[0]) != Empty() by { TakesNotEmpty<T>(q[1..], defined, rx, tail, m); }
    i := ParamIndex(t.params, q[0].constraint).value;
    assert Child(t, q[0]) == t.params[i].node && t.params[i].name == q[0].name;
    ParamMatchesFits(t.params[i], defined, rx, segment);
    FindComplete(t.params[i].node, q[1..], defined, rx, tail, m);
  }

  lemma TakesNotEmpty<T>(q: Pattern, defined: Constraints, rx: Regex, rest: string, m: Method)
    ensures !Takes<T>(Empty(), q, defined, rx, rest, m)
  {
    EmptyRoutes<T>(q, m);
  }

  lemma {:induction false} ParamsComplete<T>(ps: seq<ParamChild<T>>, i: nat, rx: Regex, rest: string, m: Method)
    requires i < |ps| && NextSegment(rest).Some? && FindParam(ps[i], rx, rest, m).Matched?
    ensures FindParams(ps, rx, rest, m).Matched?
    decreases |ps|
  {
    hide NextSegment, FindParam;
    if i > 0 { ParamsComplete(ps[1..], i - 1, rx, rest, m); }
  }

  // ---- What is found

  /** The first parameter that finds anything answers. */
  lemma {:induction false} FindParamSound<T>(ps: seq<ParamChild<T>>, rx: Regex, rest: string, m: Method) returns (i: nat)
    requires NextSegment(rest).Some? && FindParams(ps, rx, rest, m).Matched?
    ensures i < |ps| && FindParam(ps[i], rx, rest, m) == FindParams(ps, rx, rest, m)
    ensures forall j | 0 <= j < i :: !FindParam(ps[j], rx, rest, m).Matched?
    decreases |ps|
  {
    hide NextSegment, FindParam;
    if FindParam(ps[0], rx, rest, m).Matched? {
      i := 0;
    } else {
      var j := FindParamSound(ps[1..], rx, rest, m);
      i := j + 1;
      assert forall k | 1 <= k < i :: ps[k] == ps[1..][k - 1];
    }
  }

  /** A match is the route of a pattern that matches the path, with its captures,
      and no pattern that matches with a route for the method goes before it. */
  lemma {:induction false} FindPrefers<T>(t: Tree<T>, defined: Constraints, rx: Regex, rest: string, m: Method)
    returns (p: Pattern)
    requires Valid(t, defined) && Find(t, rx, rest, m).Matched?
    ensures RouteAt(t, p, m) == Some(Find(t, rx, rest, m).route)
    ensures Match(p, defined, rx, rest) == Some(Find(t, rx, rest, m).captures)
    ensures forall q: Pattern | Takes(t, q, defined, rx, rest, m) :: !Before(q, p)
    decreases |rest|, 1
  {
    hide NextSegment, Child, FindParams, FindParam, Takes, Before, Rank;
    var found := Find(t, rx, rest, m);
    match NextSegment(rest)
    case None =>
      p := [];
      assert forall q :: !Before(q, []) by { NoneBefore(); }
    case Some((segment, tail)) =>
      var seg := Literal(segment);
      var below := Find(Child(t, seg), rx, tail, m);
      if below.Matched? {
        ChildValid(t, seg, defined);
        var q := FindPrefers(Child(t, seg), defined, rx, tail, m);
        p := [seg] + q;
        assert p[1..] == q;
        forall o: Pattern | Takes(t, o, defined, rx, rest, m) ensures !Before(o, p) {
          TakesBelow(t, o, defined, rx, rest, m);
          NotBefore(o, p);
        }
      } else if FindParams(t.params, rx, rest, m).Matched? {
        var i := FindParamSound(t.params, rx, rest, m);
        ParamForIs(t.params, defined, i);
        p := ParamPrefers(t, i, defined, rx, rest, m);
        forall o: Pattern | Takes(t, o, defined, rx, rest, m) ensures !Before(o, p) {
          LiteralTakesNone(t, o, defined, rx, rest, m);
          ParamsInOrder(t, i, o, p, defined, rx, rest, m);
        }
      } else {
        var w := t.wildcard.value;
        p := [Wildcard(w.name)];
        assert found.captures == [Capture(w.name, Any, Remainder(rest))];
        forall o: Pattern | Takes(t, o, defined, rx, rest, m) ensures !Before(o, p) {
          LiteralTakesNone(t, o, defined, rx, rest, m);
          if o != [] && o[0].Param? {
            var j := TakingParam(t, o, defined, rx, rest, m);
            ParamsComplete(t.params, j, rx, rest, m);
          }
          TakesBelow(t, o, defined, rx, rest, m);
          NotBefore(o, p);
        }
      }
  }

  lemma NoneBefore()
    ensures forall q :: !Before(q, [])
  {}

  /** Unless it has a segment of lower rank first, or the same and goes before after it. */
  lemma NotBefore(q: Pattern, p: Pattern)
    requires q != [] && p != []
    ensures Before(q, p) ==> Rank(q[0]) < Rank(p[0]) || (q[0] == p[0] && Before(q[1..], p[1..]))
    ensures p[0].Literal? ==> Rank(p[0]) == 0
    ensures Rank(q[0]) < 3 ==> !q[0].Wildcard?
    ensures q[0].Wildcard? && p[0].Wildcard? && |p| == 1 ==> !Before(q, p)
  {}

  lemma LiteralTakesNone<T>(t: Tree<T>, q: Pattern, defined: Constraints, rx: Regex, rest: string, m: Method)
    requires Valid(t, defined) && Takes(t, q, defined, rx, rest, m) && NextSegment(rest).Some?
    requires var (segment, tail) := NextSegment(rest).value; !Find(Child(t, Literal(segment)), rx, tail, m).Matched?
    ensures q != [] && !q[0].Literal?
  {
    hide NextSegment, Child, Takes, Find, Valid;
    TakesBelow(t, q, defined, rx, rest, m);
    if q[0].Literal? {
      ChildValid(t, q[0], defined);
      FindComplete(Child(t, q[0]), q[1..], defined, rx, NextSegment(rest).value.1, m);
    }
  }

  /** Among parameters: those before it in the tree find nothing, and the
      unconstrained one is last. */
  lemma {:induction false} ParamsInOrder<T>(
    t: Tree<T>, i: nat, q: Pattern, p: Pattern, defined: Constraints, rx: Regex, rest: string, m: Method)
    requires Valid(t, defined) && NextSegment(rest).Some? && i < |t.params| && p != []
    requires p[0] == Param(t.params[i].name, t.params[i].constraint)
    requires forall j | 0 <= j < i :: !FindParam(t.params[j], rx, rest, m).Matched?
    requires Takes(t, q, defined, rx, rest, m) && q != [] && !q[0].Literal?
    requires forall o: Pattern | Takes(t.params[i].node, o, defined, rx, NextSegment(rest).value.1, m) :: !Before(o, p[1..])
    ensures !Before(q, p)
  {
    hide NextSegment, Takes, Find, FindParam, CustomOf;
    if q[0].Param? {
      var j := TakingParam(t, q, defined, rx, rest, m);
      TakesBelow(t, q, defined, rx, rest, m);
      if q[0] == p[0] {
        assert j == i && Child(t, q[0]) == t.params[i].node by { ParamForIs(t.params, defined, i); }
      }
    }
  }

  lemma ParamPrefers<T>(t: Tree<T>, i: nat, defined: Constraints, rx: Regex, rest: string, m: Method) returns (p: Pattern)
    requires NextSegment(rest).Some? && Valid(t, defined) && i < |t.params|
    requires ParamFor(t.params, t.params[i].constraint) == Some(t.params[i])
    requires FindParam(t.params[i], rx, rest, m).Matched?
    ensures RouteAt(t, p, m) == Some(FindParam(t.params[i], rx, rest, m).route)
    ensures Match(p, defined, rx, rest) == Some(FindParam(t.params[i], rx, rest, m).captures)
    ensures p != [] && p[0] == Param(t.params[i].name, t.params[i].constraint)
    ensures forall o: Pattern | Takes(t.params[i].node, o, defined, rx, NextSegment(rest).value.1, m) :: !Before(o, p[1..])
    decreases |rest|, 0
  {
    hide NextSegment, Find, Fits, ParamMatches, ParamFor, Takes, Before;
    var child := t.params[i];
    var (segment, tail) := NextSegment(rest).value;
    var seg := Param(child.name, child.constraint);
    ParamMatchesFits(child, defined, rx, segment);
    var q := FindPrefers(child.node, defined, rx, tail, m);
    p := [seg] + q;
    assert p[1..] == q;
  }

  // ---- When no route has the method

  /** A pattern that matches with a route for some method is never overlooked. */
  lemma {:induction false} FindSomething<T>(
    t: Tree<T>, q: Pattern, m': Method, defined: Constraints, rx: Regex, rest: string, m: Method)
    requires Valid(t, defined) && Takes(t, q, defined, rx, rest, m')
    ensures Find(t, rx, rest, m) != NotFound
    decreases |q|
  {
    hide NextSegment, Child, FindParams, FindParam, Takes, Valid, MethodRoute, MethodOutcome;
    match NextSegment(rest)
    case None =>
      TakesHere(t, q, defined, rx, rest, m');
      SomeMethods(t.methods, m', m);
    case Some((segment, tail)) =>
      TakesBelow(t, q, defined, rx, rest, m');
      match q[0] {
        case Literal(_) =>
          ChildValid(t, q[0], defined);
          FindSomething(Child(t, q[0]), q[1..], m', defined, rx, tail, m);
        case Param(name, c) =>
          var i := ParamFindsSomething(t, q, m', defined, rx, rest, m);
          ParamsFindSomething(t.params, i, rx, rest, m);
        case Wildcard(_) => SomeMethods(t.wildcard.value.methods, m', m);
      }
  }

  lemma SomeMethods<T>(ms: Methods<T>, m': Method, m: Method)
    requires MethodRoute(ms, m').Some? || MethodOutcome(ms, m').Matched?
    ensures MethodOutcome(ms, m) != NotFound
  {}

  lemma ParamFindsSomething<T>(
    t: Tree<T>, q: Pattern, m': Method, defined: Constraints, rx: Regex, rest: string, m: Method) returns (i: nat)
    requires Valid(t, defined) && Takes(t, q, defined, rx, rest, m') && NextSegment(rest).Some? && q != [] && q[0].Param?
    ensures i < |t.params| && t.params[i].name == q[0].name && t.params[i].constraint == q[0].constraint
    ensures FindParam(t.params[i], rx, rest, m) != NotFound
    decreases |q|, 0
  {
    hide NextSegment, Takes, Find, Fits, ParamMatches, CustomOf;
    var (segment, tail) := NextSegment(rest).value;
    TakesBelow(t, q, defined, rx, rest, m');
    assert Child(t, q[0]) != Empty() by { TakesNotEmpty<T>(q[1..], defined, rx, tail, m'); }
    i := ParamIndex(t.params, q[0].constraint).value;
    assert Child(t, q[0]) == t.params[i].node && t.params[i].name == q[0].name;
    ParamMatchesFits(t.params[i], defined, rx, segment);
    FindSomething(t.params[i].node, q[1..], m', defined, rx, tail, m);
  }

  lemma {:induction false} ParamsFindSomething<T>(ps: seq<ParamChild<T>>, i: nat, rx: Regex, rest: string, m: Method)
    requires i < |ps| && NextSegment(rest).Some? && FindParam(ps[i], rx, rest, m) != NotFound
    ensures FindParams(ps, rx, rest, m) != NotFound
    decreases |ps|
  {
    hide NextSegment, FindParam;
    if i > 0 { ParamsFindSomething(ps[1..], i - 1, rx, rest, m); }
  }

  /** The first parameter that refuses, where none finds a route. */
  lemma {:induction false} FirstRefusing<T>(ps: seq<ParamChild<T>>, rx: Regex, rest: string, m: Method) returns (i: nat)
    requires NextSegment(rest).Some? && FindParams(ps, rx, rest, m).MethodNotAllowed?
    ensures i < |ps| && FindParam(ps[i], rx, rest, m) == FindParams(ps, rx, rest, m)
    ensures forall j | 0 <= j < i :: FindParam(ps[j], rx, rest, m) == NotFound
    decreases |ps|
  {
    hide NextSegment, FindParam;
    if FindParam(ps[0], rx, rest, m) != NotFound {
      i := 0;
    } else {
      var j := FirstRefusing(ps[1..], rx, rest, m);
      i := j + 1;
      assert forall k | 1 <= k < i :: ps[k] == ps[1..][k - 1];
    }
  }

  /** A refusal names the methods of a pattern that matches the path, and none that
      matches, for any method, goes before it. */
  lemma {:induction false} FindRefuses<T>(t: Tree<T>, defined: Constraints, rx: Regex, rest: string, m: Method)
    returns (p: Pattern)
    requires Valid(t, defined) && Find(t, rx, rest, m).MethodNotAllowed?
    ensures var allowed := Find(t, rx, rest, m).allowed;
      allowed != [] && Distinct(allowed) && forall m' :: RouteAt(t, p, m') == MethodRoute(allowed, m')
    ensures Match(p, defined, rx, rest).Some?
    ensures forall q: Pattern, m' | Takes(t, q, defined, rx, rest, m') :: !Before(q, p)
    decreases |rest|, 1
  {
    hide NextSegment, Child, FindParams, FindParam, Takes, Before, Rank, MethodRoute, Distinct;
    var found := Find(t, rx, rest, m);
    match NextSegment(rest)
    case None =>
      p := [];
      RefusedHere(t.methods, m);
      assert forall q :: !Before(q, []) by { NoneBefore(); }
    case Some((segment, tail)) =>
      var seg := Literal(segment);
      var below := Find(Child(t, seg), rx, tail, m);
      if below != NotFound {
        ChildValid(t, seg, defined);
        var q := FindRefuses(Child(t, seg), defined, rx, tail, m);
        p := [seg] + q;
        assert p[1..] == q;
        forall o: Pattern, m' | Takes(t, o, defined, rx, rest, m') ensures !Before(o, p) {
          TakesBelow(t, o, defined, rx, rest, m');
          NotBefore(o, p);
        }
      } else if FindParams(t.params, rx, rest, m) != NotFound {
        var i := FirstRefusing(t.params, rx, rest, m);
        ParamForIs(t.params, defined, i);
        p := ParamRefuses(t, i, defined, rx, rest, m);
        forall o: Pattern, m' | Takes(t, o, defined, rx, rest, m') ensures !Before(o, p) {
          LiteralRefusesNone(t, o, m', defined, rx, rest, m);
          RefusalsInOrder(t, i, o, m', p, defined, rx, rest, m);
        }
      } else {
        var w := t.wildcard.value;
        p := [Wildcard(w.name)];
        RefusedHere(w.methods, m);
        forall o: Pattern, m' | Takes(t, o, defined, rx, rest, m') ensures !Before(o, p) {
          LiteralRefusesNone(t, o, m', defined, rx, rest, m);
          if o != [] && o[0].Param? {
            var j := ParamFindsSomething(t, o, m', defined, rx, rest, m);
            ParamsFindSomething(t.params, j, rx, rest, m);
          }
          TakesBelow(t, o, defined, rx, rest, m');
          NotBefore(o, p);
        }
      }
  }

  lemma RefusedHere<T>(ms: Methods<T>, m: Method)
    ensures MethodOutcome(ms, m).MethodNotAllowed? ==> MethodOutcome(ms, m).allowed == ms && ms != []
  {}

  lemma LiteralRefusesNone<T>(
    t: Tree<T>, q: Pattern, m': Method, defined: Constraints, rx: Regex, rest: string, m: Method)
    requires Valid(t, defined) && Takes(t, q, defined, rx, rest, m') && NextSegment(rest).Some?
    requires var (segment, tail) := NextSegment(rest).value; Find(Child(t, Literal(segment)), rx, tail, m) == NotFound
    ensures q != [] && !q[0].Literal?
  {
    hide NextSegment, Child, Takes, Find, Valid;
    TakesBelow(t, q, defined, rx, rest, m');
    if q[0].Literal? {
      ChildValid(t, q[0], defined);
      FindSomething(Child(t, q[0]), q[1..], m', defined, rx, NextSegment(rest).value.1, m);
    }
  }

  lemma {:induction false} RefusalsInOrder<T>(
    t: Tree<T>, i: nat, q: Pattern, m': Method, p: Pattern, defined: Constraints, rx: Regex, rest: string, m: Method)
    requires Valid(t, defined) && NextSegment(rest).Some? && i < |t.params| && p != []
    requires p[0] == Param(t.params[i].name, t.params[i].constraint)
    requires forall j | 0 <= j < i :: FindParam(t.params[j], rx, rest, m) == NotFound
    requires Takes(t, q, defined, rx, rest, m') && q != [] && !q[0].Literal?
    requires forall o: Pattern, n | Takes(t.params[i].node, o, defined, rx, NextSegment(rest).value.1, n) :: !Before(o, p[1..])
    ensures !Before(q, p)
  {
    hide NextSegment, Takes, Find, FindParam, CustomOf;
    if q[0].Param? {
      var j := ParamFindsSomething(t, q, m', defined, rx, rest, m);
      TakesBelow(t, q, defined, rx, rest, m');
      if q[0] == p[0] {
        assert j == i && Child(t, q[0]) == t.params[i].node by { ParamForIs(t.params, defined, i); }
      }
    }
  }

  lemma ParamRefuses<T>(t: Tree<T>, i: nat, defined: Constraints, rx: Regex, rest: string, m: Method) returns (p: Pattern)
    requires NextSegment(rest).Some? && Valid(t, defined) && i < |t.params|
    requires ParamFor(t.params, t.params[i].constraint) == Some(t.params[i])
    requires FindParam(t.params[i], rx, rest, m).MethodNotAllowed?
    ensures var allowed := FindParam(t.params[i], rx, rest, m).allowed;
      allowed != [] && Distinct(allowed) && forall m' :: RouteAt(t, p, m') == MethodRoute(allowed, m')
    ensures Match(p, defined, rx, rest).Some?
    ensures p != [] && p[0] == Param(t.params[i].name, t.params[i].constraint)
    ensures forall o: Pattern, m' | Takes(t.params[i].node, o, defined, rx, NextSegment(rest).value.1, m') :: !Before(o, p[1..])
    decreases |rest|, 0
  {
    hide NextSegment, Find, Fits, ParamMatches, ParamFor, Takes, Before, MethodRoute, Distinct;
    var child := t.params[i];
    var (segment, tail) := NextSegment(rest).value;
    var seg := Param(child.name, child.constraint);
    ParamMatchesFits(child, defined, rx, segment);
    var q := FindRefuses(child.node, defined, rx, tail, m);
    p := [seg] + q;
    assert p[1..] == q;
  }
}
