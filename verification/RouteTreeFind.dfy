/** What a lookup finds: the first listed pattern that matches the path and has
    the method, else the first that matches at all (src/tree.rs:289-362). */
module RouteTreeFind {
  import opened Wrappers
  import opened Path
  import opened RouteTree
  import opened RouteTreeMap

  // ---- Patterns against paths

  /** What `p` captures from `rest`, if it matches all of it. */
  function Match(p: Pattern, defined: Constraints, rx: Regex, rest: string): Option<seq<Capture>>
    decreases |p|
  {
    match NextSegment(rest)
    case None => if p == [] then Some([]) else None
    case Some((segment, tail)) =>
      if p == [] then None
      else
        match p[0]
        case Literal(text) => if text == segment then Match(p[1..], defined, rx, tail) else None
        case Wildcard(name) => if |p| == 1 then Some([Capture(name, Any, Remainder(rest))]) else None
        case Param(name, c) =>
          if Fits(defined, rx, c, segment) then
            (match Match(p[1..], defined, rx, tail)
             case None => None
             case Some(captures) => Some([Capture(name, c, segment)] + captures))
          else None
  }

  // ---- The listing

  /** The routes of one pattern, as `collect_routes` pushes them in a row. */
  datatype Slot<T> = Slot(pattern: Pattern, methods: Methods<T>)

  type Slots<T> = seq<Slot<T>>

  function Under<T>(seg: Segment, slots: Slots<T>): (r: Slots<T>)
    ensures |r| == |slots|
    ensures forall i | 0 <= i < |r| :: r[i] == Slot([seg] + slots[i].pattern, slots[i].methods)
  {
    seq(|slots|, i requires 0 <= i < |slots| => Slot([seg] + slots[i].pattern, slots[i].methods))
  }

  function LiteralSlots<T>(keys: seq<string>, parts: seq<Slots<T>>): Slots<T>
    requires |keys| == |parts|
  {
    if keys == [] then [] else Under(Literal(keys[0]), parts[0]) + LiteralSlots(keys[1..], parts[1..])
  }

  function ParamSlots<T>(ps: seq<ParamChild<T>>, parts: seq<Slots<T>>): Slots<T>
    requires |ps| == |parts|
  {
    if ps == [] then []
    else Under(Param(ps[0].name, ps[0].constraint), parts[0]) + ParamSlots(ps[1..], parts[1..])
  }

  function WildcardSlots<T>(w: Option<WildcardChild<T>>): Slots<T> {
    if w.None? then [] else [Slot([Wildcard(w.value.name)], w.value.methods)]
  }

  /** `keys` lists a hash map's keys, in whatever order it yields them. */
  ghost predicate Enumerates(keys: seq<string>, s: set<string>) {
    && (forall i | 0 <= i < |keys| :: keys[i] in s)
    && (forall k | k in s :: k in keys)
    && (forall i, j | 0 <= i < j < |keys| :: keys[i] != keys[j])
  }

  /** `slots` is a listing of `t`, for some order of each node's hash map. */
  ghost predicate IsListing<T(!new)>(t: Tree<T>, slots: Slots<T>)
    decreases t, 1
  {
    exists keys, literals, params :: IsListingOf(t, slots, keys, literals, params)
  }

  ghost predicate IsListingOf<T(!new)>(
    t: Tree<T>, slots: Slots<T>, keys: seq<string>, literals: seq<Slots<T>>, params: seq<Slots<T>>)
    decreases t, 0
  {
    && Enumerates(keys, t.literals.Keys)
    && |literals| == |keys| && |params| == |t.params|
    && (forall i | 0 <= i < |keys| :: keys[i] in t.literals && IsListing(t.literals[keys[i]], literals[i]))
    && (forall i | 0 <= i < |params| :: IsListing(t.params[i].node, params[i]))
    && slots == [Slot([], t.methods)] + LiteralSlots(keys, literals) + ParamSlots(t.params, params) + WildcardSlots(t.wildcard)
  }

  // ---- The first slot that answers

  function SlotOutcome<T>(slot: Slot<T>, defined: Constraints, rx: Regex, rest: string, m: Method): Outcome<T> {
    match Match(slot.pattern, defined, rx, rest)
    case None => NotFound
    case Some(captures) =>
      var outcome := MethodOutcome(slot.methods, m);
      if outcome.Matched? then Matched(outcome.route, captures) else outcome
  }

  function First<T>(slots: Slots<T>, defined: Constraints, rx: Regex, rest: string, m: Method): Outcome<T> {
    if slots == [] then NotFound
    else Best(SlotOutcome(slots[0], defined, rx, rest, m), First(slots[1..], defined, rx, rest, m))
  }

  lemma {:induction false} FirstConcat<T>(a: Slots<T>, b: Slots<T>, defined: Constraints, rx: Regex, rest: string, m: Method)
    ensures First(a + b, defined, rx, rest, m) == Best(First(a, defined, rx, rest, m), First(b, defined, rx, rest, m))
  {
    hide SlotOutcome;
    if a == [] {
      assert a + b == b;
    } else {
      assert (a + b)[0] == a[0] && (a + b)[1..] == a[1..] + b;
      FirstConcat(a[1..], b, defined, rx, rest, m);
    }
  }

  /** Listing below a segment looks the rest up below it, if the segment fits. */
  lemma {:induction false} FirstUnder<T>(seg: Segment, slots: Slots<T>, defined: Constraints, rx: Regex, rest: string, m: Method)
    requires !seg.Wildcard?
    ensures First(Under(seg, slots), defined, rx, rest, m) ==
      match NextSegment(rest)
      case None => NotFound
      case Some((segment, tail)) =>
        var inner := First(slots, defined, rx, tail, m);
        if seg.Literal? then if seg.text == segment then inner else NotFound
        else if Fits(defined, rx, seg.constraint, segment) then Capturing(Capture(seg.name, seg.constraint, segment), inner)
        else NotFound
  {
    hide NextSegment, MethodOutcome, Fits;
    if slots != [] {
      var under := Under(seg, slots);
      assert under[1..] == Under(seg, slots[1..]);
      FirstUnder(seg, slots[1..], defined, rx, rest, m);
      assert under[0].pattern[0] == seg && under[0].pattern[1..] == slots[0].pattern;
    }
  }

  lemma {:induction false} FirstLiterals<T>(
    keys: seq<string>, parts: seq<Slots<T>>, defined: Constraints, rx: Regex, rest: string, m: Method)
    requires |keys| == |parts|
    requires forall i, j | 0 <= i < j < |keys| :: keys[i] != keys[j]
    ensures match NextSegment(rest)
      case None => First(LiteralSlots(keys, parts), defined, rx, rest, m) == NotFound
      case Some((segment, tail)) =>
        && (segment !in keys ==> First(LiteralSlots(keys, parts), defined, rx, rest, m) == NotFound)
        && forall i | 0 <= i < |keys| && keys[i] == segment ::
          First(LiteralSlots(keys, parts), defined, rx, rest, m) == First(parts[i], defined, rx, tail, m)
  {
    hide NextSegment, First, Under;
    if keys == [] {
      FirstNone<T>(defined, rx, rest, m);
    } else {
      FirstLiterals(keys[1..], parts[1..], defined, rx, rest, m);
      FirstUnder(Literal(keys[0]), parts[0], defined, rx, rest, m);
      FirstConcat(Under(Literal(keys[0]), parts[0]), LiteralSlots(keys[1..], parts[1..]), defined, rx, rest, m);
      assert forall i | 1 <= i < |keys| :: keys[i] == keys[1..][i - 1] && parts[i] == parts[1..][i - 1];
    }
  }

  lemma FirstNone<T>(defined: Constraints, rx: Regex, rest: string, m: Method)
    ensures First<T>([], defined, rx, rest, m) == NotFound
  {}

  lemma ParamMatchesFits<T>(p: ParamChild<T>, defined: Constraints, rx: Regex, value: string)
    requires p.custom == CustomOf(defined, p.constraint) && (p.constraint.Custom? ==> p.constraint.index < |defined|)
    ensures ParamMatches(p, rx, value) <==> Fits(defined, rx, p.constraint, value)
  {}

  lemma {:induction false} FirstParams<T(!new)>(
    ps: seq<ParamChild<T>>, parts: seq<Slots<T>>, defined: Constraints, rx: Regex, rest: string, m: Method)
    requires |ps| == |parts| && NextSegment(rest).Some?
    requires forall i | 0 <= i < |ps| ::
      && ps[i].custom == CustomOf(defined, ps[i].constraint)
      && (ps[i].constraint.Custom? ==> ps[i].constraint.index < |defined|)
      && First(parts[i], defined, rx, NextSegment(rest).value.1, m) == Find(ps[i].node, rx, NextSegment(rest).value.1, m)
    ensures First(ParamSlots(ps, parts), defined, rx, rest, m) == FindParams(ps, rx, rest, m)
  {
    hide NextSegment, First, Find, Under, ParamMatches, Fits, CustomOf;
    if ps == [] {
      FirstNone<T>(defined, rx, rest, m);
    } else {
      FirstParams(ps[1..], parts[1..], defined, rx, rest, m);
      FirstUnder(Param(ps[0].name, ps[0].constraint), parts[0], defined, rx, rest, m);
      FirstConcat(Under(Param(ps[0].name, ps[0].constraint), parts[0]), ParamSlots(ps[1..], parts[1..]), defined, rx, rest, m);
      ParamMatchesFits(ps[0], defined, rx, NextSegment(rest).value.0);
    }
  }

  lemma {:induction false} FirstParamsNone<T>(
    ps: seq<ParamChild<T>>, parts: seq<Slots<T>>, defined: Constraints, rx: Regex, rest: string, m: Method)
    requires |ps| == |parts| && NextSegment(rest).None?
    ensures First(ParamSlots(ps, parts), defined, rx, rest, m) == NotFound
  {
    hide NextSegment, First, Under;
    if ps == [] {
      FirstNone<T>(defined, rx, rest, m);
    } else {
      FirstParamsNone(ps[1..], parts[1..], defined, rx, rest, m);
      FirstUnder(Param(ps[0].name, ps[0].constraint), parts[0], defined, rx, rest, m);
      FirstConcat(Under(Param(ps[0].name, ps[0].constraint), parts[0]), ParamSlots(ps[1..], parts[1..]), defined, rx, rest, m);
    }
  }

  lemma FirstOwn<T>(ms: Methods<T>, defined: Constraints, rx: Regex, rest: string, m: Method)
    ensures First([Slot([], ms)], defined, rx, rest, m) ==
      if NextSegment(rest).None? then MethodOutcome(ms, m) else NotFound
  {
    hide NextSegment;
    assert [Slot([], ms)][1..] == [];
  }

  lemma FirstWildcard<T>(w: Option<WildcardChild<T>>, defined: Constraints, rx: Regex, rest: string, m: Method)
    ensures First(WildcardSlots(w), defined, rx, rest, m) ==
      if NextSegment(rest).None? then NotFound else FindWildcard(w, rest, m)
  {
    hide NextSegment, Remainder, MethodIndex;
    if w.Some? {
      assert WildcardSlots(w)[1..] == [];
    }
  }

  lemma FirstOfFour<T>(a: Slots<T>, b: Slots<T>, c: Slots<T>, d: Slots<T>, defined: Constraints, rx: Regex, rest: string, m: Method)
    ensures First(a + b + c + d, defined, rx, rest, m) ==
      Best(Best(Best(First(a, defined, rx, rest, m), First(b, defined, rx, rest, m)),
                First(c, defined, rx, rest, m)), First(d, defined, rx, rest, m))
  {
    hide First, Best;
    FirstConcat(a + b + c, d, defined, rx, rest, m);
    FirstConcat(a + b, c, defined, rx, rest, m);
    FirstConcat(a, b, defined, rx, rest, m);
  }

  lemma {:induction false} FindEmpty<T>(rx: Regex, rest: string, m: Method)
    ensures Find<T>(Empty(), rx, rest, m) == NotFound
    decreases |rest|
  {
    if NextSegment(rest).Some? {
      FindEmpty<T>(rx, NextSegment(rest).value.1, m);
    }
  }

  /** Backtracking through the tree answers as a scan of its listing does. */
  lemma {:induction false} FindIsFirst<T(!new)>(
    t: Tree<T>, slots: Slots<T>, defined: Constraints, rx: Regex, rest: string, m: Method)
    requires Valid(t, defined) && IsListing(t, slots)
    ensures Find(t, rx, rest, m) == First(slots, defined, rx, rest, m)
    decreases t
  {
    hide First, NextSegment, LiteralSlots, ParamSlots, WildcardSlots, MethodOutcome, FindParams, FindWildcard;
    var keys, literals, params :| IsListingOf(t, slots, keys, literals, params);
    FirstOfFour([Slot([], t.methods)], LiteralSlots(keys, literals), ParamSlots(t.params, params), WildcardSlots(t.wildcard),
                defined, rx, rest, m);
    FirstOwn(t.methods, defined, rx, rest, m);
    FirstLiterals(keys, literals, defined, rx, rest, m);
    FirstWildcard(t.wildcard, defined, rx, rest, m);
    if NextSegment(rest).None? {
      FirstParamsNone(t.params, params, defined, rx, rest, m);
    } else {
      var (segment, tail) := NextSegment(rest).value;
      forall i | 0 <= i < |params| ensures Find(t.params[i].node, rx, tail, m) == First(params[i], defined, rx, tail, m) {
        FindIsFirst(t.params[i].node, params[i], defined, rx, tail, m);
      }
      FirstParams(t.params, params, defined, rx, rest, m);
      if segment in t.literals {
        var i :| 0 <= i < |keys| && keys[i] == segment;
        FindIsFirst(t.literals[segment], literals[i], defined, rx, tail, m);
      } else {
        FindEmpty<T>(rx, tail, m);
      }
    }
  }

  // ---- What the listing holds

  /** The routes kept for a pattern, if the tree has a node for it. */
  function MethodsAt<T>(t: Tree<T>, p: Pattern): Option<Methods<T>>
    decreases |p|
  {
    if p == [] then Some(t.methods)
    else if p[0].Wildcard? then
      if |p| == 1 && t.wildcard.Some? && t.wildcard.value.name == p[0].name then Some(t.wildcard.value.methods) else None
    else if HasChild(t, p[0]) then MethodsAt(Child(t, p[0]), p[1..])
    else None
  }

  lemma {:induction false} RouteAtMethods<T>(t: Tree<T>, p: Pattern, m: Method)
    ensures RouteAt(t, p, m) == match MethodsAt(t, p) case None => None case Some(ms) => MethodRoute(ms, m)
    decreases |p|
  {
    hide Child, HasChild, MethodRoute;
    if p != [] && !p[0].Wildcard? {
      RouteAtMethods(Child(t, p[0]), p[1..], m);
      if !HasChild(t, p[0]) {
        HasChildMeans(t, p[0]);
        EmptyRoutes<T>(p[1..], m);
      }
    }
  }

  lemma InUnder<T>(seg: Segment, slots: Slots<T>, p: Pattern, ms: Methods<T>)
    ensures Slot(p, ms) in Under(seg, slots) <==> p != [] && p[0] == seg && Slot(p[1..], ms) in slots
  {
    var under := Under(seg, slots);
    if Slot(p, ms) in under {
      var i :| 0 <= i < |under| && under[i] == Slot(p, ms);
      assert slots[i] == Slot(p[1..], ms);
    }
    if p != [] && p[0] == seg && Slot(p[1..], ms) in slots {
      var i :| 0 <= i < |slots| && slots[i] == Slot(p[1..], ms);
      assert under[i] == Slot(p, ms) by { assert [seg] + p[1..] == p; }
    }
  }

  lemma {:induction false} InLiterals<T>(keys: seq<string>, parts: seq<Slots<T>>, p: Pattern, ms: Methods<T>)
    requires |keys| == |parts|
    ensures Slot(p, ms) in LiteralSlots(keys, parts) <==>
      p != [] && p[0].Literal? && exists i :: 0 <= i < |keys| && keys[i] == p[0].text && Slot(p[1..], ms) in parts[i]
  {
    hide Under;
    if keys != [] {
      InUnder(Literal(keys[0]), parts[0], p, ms);
      InLiterals(keys[1..], parts[1..], p, ms);
      var tail := LiteralSlots(keys[1..], parts[1..]);
      assert Slot(p, ms) in LiteralSlots(keys, parts) <==> Slot(p, ms) in Under(Literal(keys[0]), parts[0]) || Slot(p, ms) in tail;
      if Slot(p, ms) in tail {
        var i :| 0 <= i < |keys[1..]| && keys[1..][i] == p[0].text && Slot(p[1..], ms) in parts[1..][i];
        assert keys[i + 1] == p[0].text && Slot(p[1..], ms) in parts[i + 1];
      }
      if i :| p != [] && p[0].Literal? && 1 <= i < |keys| && keys[i] == p[0].text && Slot(p[1..], ms) in parts[i] {
        assert keys[1..][i - 1] == p[0].text && Slot(p[1..], ms) in parts[1..][i - 1];
      }
    }
  }

  lemma {:induction false} InParams<T>(ps: seq<ParamChild<T>>, parts: seq<Slots<T>>, p: Pattern, ms: Methods<T>)
    requires |ps| == |parts|
    ensures Slot(p, ms) in ParamSlots(ps, parts) <==>
      p != [] && exists i :: 0 <= i < |ps| && p[0] == Param(ps[i].name, ps[i].constraint) && Slot(p[1..], ms) in parts[i]
  {
    hide Under;
    if ps != [] {
      InUnder(Param(ps[0].name, ps[0].constraint), parts[0], p, ms);
      InParams(ps[1..], parts[1..], p, ms);
      var tail := ParamSlots(ps[1..], parts[1..]);
      assert Slot(p, ms) in ParamSlots(ps, parts) <==>
        Slot(p, ms) in Under(Param(ps[0].name, ps[0].constraint), parts[0]) || Slot(p, ms) in tail;
      if Slot(p, ms) in tail {
        var i :| 0 <= i < |ps[1..]| && p[0] == Param(ps[1..][i].name, ps[1..][i].constraint) && Slot(p[1..], ms) in parts[1..][i];
        assert p[0] == Param(ps[i + 1].name, ps[i + 1].constraint) && Slot(p[1..], ms) in parts[i + 1];
      }
      if i :| p != [] && 1 <= i < |ps| && p[0] == Param(ps[i].name, ps[i].constraint) && Slot(p[1..], ms) in parts[i] {
        assert p[0] == Param(ps[1..][i - 1].name, ps[1..][i - 1].constraint) && Slot(p[1..], ms) in parts[1..][i - 1];
      }
    }
  }

  /** A listing holds each pattern's routes, and nothing else. */
  lemma {:induction false} ListingIsExact<T(!new)>(t: Tree<T>, slots: Slots<T>, defined: Constraints, p: Pattern, ms: Methods<T>)
    requires Valid(t, defined) && IsListing(t, slots)
    ensures Slot(p, ms) in slots <==> MethodsAt(t, p) == Some(ms)
    decreases t
  {
    hide LiteralSlots, ParamSlots, ParamIndex;
    var keys, literals, params :| IsListingOf(t, slots, keys, literals, params);
    InLiterals(keys, literals, p, ms);
    InParams(t.params, params, p, ms);
    var s := Slot(p, ms);
    assert s in slots <==>
      ((p == [] && ms == t.methods) || s in LiteralSlots(keys, literals) || s in ParamSlots(t.params, params)
       || s in WildcardSlots(t.wildcard));
    if p != [] && p[0].Literal? && p[0].text in t.literals {
      forall i | 0 <= i < |keys| && keys[i] == p[0].text
        ensures Slot(p[1..], ms) in literals[i] <==> MethodsAt(t, p) == Some(ms)
      {
        ListingIsExact(t.literals[p[0].text], literals[i], defined, p[1..], ms);
      }
    } else if p != [] && p[0].Param? {
      forall i | 0 <= i < |params| && p[0] == Param(t.params[i].name, t.params[i].constraint)
        ensures Slot(p[1..], ms) in params[i] <==> MethodsAt(t, p) == Some(ms)
      {
        ParamForIs(t.params, defined, i);
        ListingIsExact(t.params[i].node, params[i], defined, p[1..], ms);
      }
      if HasChild(t, p[0]) {
        var i := ParamIndex(t.params, p[0].constraint).value;
        assert p[0] == Param(t.params[i].name, t.params[i].constraint);
        assert s in ParamSlots(t.params, params) <==> MethodsAt(t, p) == Some(ms);
      }
    } else if |p| == 1 {
      assert p == [p[0]];
    }
  }

  // ---- The first matching pattern

  ghost predicate FitsPath<T>(slot: Slot<T>, defined: Constraints, rx: Regex, rest: string) {
    slot.methods != [] && Match(slot.pattern, defined, rx, rest).Some?
  }

  ghost predicate Hits<T>(slot: Slot<T>, defined: Constraints, rx: Regex, rest: string, m: Method) {
    Match(slot.pattern, defined, rx, rest).Some? && MethodRoute(slot.methods, m).Some?
  }

  ghost predicate FirstHit<T>(slots: Slots<T>, i: nat, defined: Constraints, rx: Regex, rest: string, m: Method) {
    i < |slots| && Hits(slots[i], defined, rx, rest, m) && forall j | 0 <= j < i :: !Hits(slots[j], defined, rx, rest, m)
  }

  ghost predicate FirstFit<T>(slots: Slots<T>, i: nat, defined: Constraints, rx: Regex, rest: string) {
    i < |slots| && FitsPath(slots[i], defined, rx, rest) && forall j | 0 <= j < i :: !FitsPath(slots[j], defined, rx, rest)
  }

  /** What `outcome` claims about a scan of `slots` in order. */
  ghost predicate Answers<T>(outcome: Outcome<T>, slots: Slots<T>, defined: Constraints, rx: Regex, rest: string, m: Method) {
    match outcome
    case NotFound => forall j | 0 <= j < |slots| :: !FitsPath(slots[j], defined, rx, rest)
    case Matched(route, captures) =>
      exists i: nat :: FirstHit(slots, i, defined, rx, rest, m)
        && Match(slots[i].pattern, defined, rx, rest) == Some(captures) && MethodRoute(slots[i].methods, m) == Some(route)
    case MethodNotAllowed(allowed) =>
      && (forall j | 0 <= j < |slots| :: !Hits(slots[j], defined, rx, rest, m))
      && exists i: nat :: FirstFit(slots, i, defined, rx, rest) && allowed == slots[i].methods
  }

  lemma {:induction false} FirstAnswers<T>(slots: Slots<T>, defined: Constraints, rx: Regex, rest: string, m: Method)
    ensures Answers(First(slots, defined, rx, rest, m), slots, defined, rx, rest, m)
  {
    hide Answers, SlotOutcome;
    if slots == [] {
      NoneAnswers<T>(defined, rx, rest, m);
    } else {
      FirstAnswers(slots[1..], defined, rx, rest, m);
      AnswersMore(slots, First(slots[1..], defined, rx, rest, m), defined, rx, rest, m);
    }
  }

  lemma NoneAnswers<T>(defined: Constraints, rx: Regex, rest: string, m: Method)
    ensures Answers<T>(NotFound, [], defined, rx, rest, m)
  {}

  /** One slot more in front of those that were scanned. */
  lemma AnswersMore<T>(slots: Slots<T>, after: Outcome<T>, defined: Constraints, rx: Regex, rest: string, m: Method)
    requires slots != [] && Answers(after, slots[1..], defined, rx, rest, m)
    ensures Answers(Best(SlotOutcome(slots[0], defined, rx, rest, m), after), slots, defined, rx, rest, m)
  {
    hide Match, MethodIndex, FitsPath, Hits, SlotOutcome;
    var tail := slots[1..];
    SlotOutcomeIs(slots[0], defined, rx, rest, m);
    var first := SlotOutcome(slots[0], defined, rx, rest, m);
    assert forall j | 1 <= j < |slots| :: slots[j] == tail[j - 1];
    if first.Matched? {
      assert FirstHit(slots, 0, defined, rx, rest, m);
    } else if after.Matched? {
      var i: nat :| FirstHit(tail, i, defined, rx, rest, m) && Match(tail[i].pattern, defined, rx, rest) == Some(after.captures)
        && MethodRoute(tail[i].methods, m) == Some(after.route);
      assert FirstHit(slots, i + 1, defined, rx, rest, m);
    } else if first.MethodNotAllowed? {
      assert FirstFit(slots, 0, defined, rx, rest);
      forall j | 0 <= j < |tail|
        ensures !Hits(tail[j], defined, rx, rest, m)
      {
        SlotOutcomeIs(tail[j], defined, rx, rest, m);
      }
    } else if after.MethodNotAllowed? {
      var i: nat :| FirstFit(tail, i, defined, rx, rest) && after.allowed == tail[i].methods;
      assert FirstFit(slots, i + 1, defined, rx, rest);
    }
  }

  lemma SlotOutcomeIs<T>(slot: Slot<T>, defined: Constraints, rx: Regex, rest: string, m: Method)
    ensures Hits(slot, defined, rx, rest, m) ==> FitsPath(slot, defined, rx, rest)
    ensures match SlotOutcome(slot, defined, rx, rest, m)
      case NotFound => !FitsPath(slot, defined, rx, rest)
      case Matched(route, captures) =>
        && Hits(slot, defined, rx, rest, m)
        && Match(slot.pattern, defined, rx, rest) == Some(captures)
        && MethodRoute(slot.methods, m) == Some(route)
      case MethodNotAllowed(allowed) =>
        FitsPath(slot, defined, rx, rest) && !Hits(slot, defined, rx, rest, m) && allowed == slot.methods
  {
    hide Match;
  }

  /** The router's promise: for every valid tree and every listing of it, a
      lookup gives the first listed route whose pattern matches the path and
      whose method is the one asked for, with that pattern's captures; failing
      that, the methods of the first pattern that matches; else nothing. */
  lemma FindAnswers<T(!new)>(t: Tree<T>, slots: Slots<T>, defined: Constraints, rx: Regex, rest: string, m: Method)
    requires Valid(t, defined) && IsListing(t, slots)
    ensures Answers(Find(t, rx, rest, m), slots, defined, rx, rest, m)
  {
    hide Answers, First, Find;
    FindIsFirst(t, slots, defined, rx, rest, m);
    FirstAnswers(slots, defined, rx, rest, m);
  }
}
