/** The route tree as a value, and what inserting, removing and finding do to
    it (src/tree.rs). `RouteNode` updates it in place. */
module RouteTree {
  import opened Wrappers
  import opened Path

  datatype Method = GET | POST | PUT | PATCH | DELETE | HEAD | OPTIONS

  // ---- The routes of one node

  datatype Entry<T> = Entry(verb: Method, route: T)

  type Methods<T> = seq<Entry<T>>

  function MethodIndex<T>(ms: Methods<T>, m: Method): (r: Option<nat>)
    ensures r.None? <==> forall i | 0 <= i < |ms| :: ms[i].verb != m
    ensures r.Some? ==> r.value < |ms| && ms[r.value].verb == m
  {
    if ms == [] then None
    else if ms[0].verb == m then Some(0)
    else
      match MethodIndex(ms[1..], m)
      case None => None
      case Some(i) => Some(i + 1)
  }

  function MethodRoute<T>(ms: Methods<T>, m: Method): Option<T> {
    match MethodIndex(ms, m)
    case None => None
    case Some(i) => Some(ms[i].route)
  }

  function MethodInsert<T>(ms: Methods<T>, m: Method, route: T): Methods<T> {
    match MethodIndex(ms, m)
    case None => ms + [Entry(m, route)]
    case Some(i) => ms[i := Entry(m, route)]
  }

  function MethodRemove<T>(ms: Methods<T>, m: Method): Methods<T> {
    if ms == [] then []
    else if ms[0].verb == m then MethodRemove(ms[1..], m)
    else [ms[0]] + MethodRemove(ms[1..], m)
  }

  ghost predicate Distinct<T>(ms: Methods<T>) {
    forall i, j | 0 <= i < j < |ms| :: ms[i].verb != ms[j].verb
  }

  // ---- The tree

  /** A custom constraint's regex and name, kept next to the parameter. */
  datatype CustomRegex = CustomRegex(pattern: string, name: string)

  datatype ParamChild<T> =
    ParamChild(name: string, constraint: Constraint, custom: Option<CustomRegex>, node: Tree<T>)

  datatype WildcardChild<T> = WildcardChild(name: string, methods: Methods<T>)

  datatype Tree<T> = Tree(
    methods: Methods<T>,
    literals: map<string, Tree<T>>,
    params: seq<ParamChild<T>>,
    wildcard: Option<WildcardChild<T>>)

  function Empty<T>(): Tree<T> {
    Tree([], map[], [], None)
  }

  function ParamIndex<T>(ps: seq<ParamChild<T>>, c: Constraint): (r: Option<nat>)
    ensures r.None? <==> forall i | 0 <= i < |ps| :: ps[i].constraint != c
    ensures r.Some? ==> r.value < |ps| && ps[r.value].constraint == c
    ensures r.Some? ==> forall i | 0 <= i < r.value :: ps[i].constraint != c
  {
    if ps == [] then None
    else if ps[0].constraint == c then Some(0)
    else
      match ParamIndex(ps[1..], c)
      case None => None
      case Some(i) => Some(i + 1)
  }

  function CustomOf(defined: Constraints, c: Constraint): Option<CustomRegex> {
    match c
    case Custom(i) => if i < |defined| then Some(CustomRegex(defined[i].pattern, defined[i].name)) else None
    case _ => None
  }

  /** The node invariant: one route per method, one parameter per constraint,
      the unconstrained one last, a regex exactly for custom ones. */
  ghost predicate Valid<T>(t: Tree<T>, defined: Constraints)
    decreases t
  {
    && Distinct(t.methods)
    && (t.wildcard.Some? ==> Distinct(t.wildcard.value.methods))
    && ValidParams(t.params, defined)
    && (forall i | 0 <= i < |t.params| :: Valid(t.params[i].node, defined))
    && (forall k | k in t.literals :: Valid(t.literals[k], defined))
  }

  ghost predicate ValidParams<T>(ps: seq<ParamChild<T>>, defined: Constraints) {
    && (forall i, j | 0 <= i < j < |ps| :: ps[i].constraint != ps[j].constraint)
    && (forall i | 0 <= i < |ps| :: ps[i].constraint == Any ==> i == |ps| - 1)
    && (forall i | 0 <= i < |ps| :: ps[i].custom == CustomOf(defined, ps[i].constraint))
    && (forall i | 0 <= i < |ps| && ps[i].constraint.Custom? :: ps[i].constraint.index < |defined|)
  }

  // ---- Insert

  type Pattern = seq<Segment>

  /** The segments of a pattern as `insert_at` meets them: parsed one by one,
      so an error shows up only once the nodes before it are there. */
  type Steps = seq<Result<Segment, PatternError>>

  function Parse(segments: seq<string>, defined: Constraints): (steps: Steps)
    ensures |steps| == |segments|
    ensures forall i | 0 <= i < |steps| :: steps[i] == ParseWith(segments[i], defined)
  {
    seq(|segments|, i requires 0 <= i < |segments| => ParseWith(segments[i], defined))
  }

  function AsSteps(p: Pattern): (steps: Steps)
    ensures |steps| == |p|
    ensures forall i | 0 <= i < |p| :: steps[i] == Ok(p[i])
  {
    seq(|p|, i requires 0 <= i < |p| => Ok(p[i]))
  }

  /** The parameter for a constraint. */
  function ParamFor<T>(ps: seq<ParamChild<T>>, c: Constraint): (r: Option<ParamChild<T>>)
    ensures r.Some? ==> r.value.constraint == c && r.value in ps
  {
    match ParamIndex(ps, c)
    case None => None
    case Some(i) => Some(ps[i])
  }

  /** The subtree below a segment, empty if there is none. */
  function Child<T>(t: Tree<T>, seg: Segment): Tree<T> {
    match seg
    case Literal(text) => if text in t.literals then t.literals[text] else Empty()
    case Param(name, c) =>
      var p := ParamFor(t.params, c);
      if p.Some? && p.value.name == name then p.value.node else Empty()
    case Wildcard(_) => Empty()
  }

  predicate HasChild<T>(t: Tree<T>, seg: Segment) {
    match seg
    case Literal(text) => text in t.literals
    case Param(name, c) => ParamFor(t.params, c).Some? && ParamFor(t.params, c).value.name == name
    case Wildcard(_) => false
  }

  /** The name already taken where `seg` would go, if it is another one. */
  function Clash<T>(t: Tree<T>, seg: Segment): Option<string> {
    match seg
    case Literal(_) => None
    case Param(name, c) =>
      var p := ParamFor(t.params, c);
      if p.Some? && p.value.name != name then Some(p.value.name) else None
    case Wildcard(name) =>
      if t.wildcard.Some? && t.wildcard.value.name != name then Some(t.wildcard.value.name) else None
  }

  /** Where a new parameter goes: before the unconstrained one, after the others. */
  function NewParamPlace<T>(ps: seq<ParamChild<T>>): (i: nat)
    ensures i <= |ps|
  {
    match ParamIndex(ps, Any)
    case Some(i) => i
    case None => |ps|
  }

  function SetParam<T>(ps: seq<ParamChild<T>>, p: ParamChild<T>): seq<ParamChild<T>> {
    match ParamIndex(ps, p.constraint)
    case Some(i) => ps[i := p]
    case None => ps[..NewParamPlace(ps)] + [p] + ps[NewParamPlace(ps)..]
  }

  /** The tree with `node` below a literal or parameter. */
  function SetChild<T>(t: Tree<T>, seg: Segment, node: Tree<T>, defined: Constraints): Tree<T> {
    match seg
    case Literal(text) => t.(literals := t.literals[text := node])
    case Param(name, c) => t.(params := SetParam(t.params, ParamChild(name, c, CustomOf(defined, c), node)))
    case Wildcard(_) => t
  }

  function WildcardMethods<T>(t: Tree<T>): Methods<T> {
    if t.wildcard.Some? then t.wildcard.value.methods else []
  }

  datatype Inserted<T> = Inserted(tree: Tree<T>, error: Option<PatternError>)

  function Insert<T>(t: Tree<T>, steps: Steps, m: Method, route: T, defined: Constraints): Inserted<T>
    decreases |steps|
  {
    if steps == [] then Inserted(t.(methods := MethodInsert(t.methods, m, route)), None)
    else
      match steps[0]
      case Err(e) => Inserted(t, Some(e))
      case Ok(seg) =>
        if seg.Wildcard? && |steps| > 1 then Inserted(t, Some(WildcardNotLast))
        else if Clash(t, seg).Some? then Inserted(t, Some(ConflictingNames(Clash(t, seg).value, seg.name)))
        else if seg.Wildcard? then
          Inserted(t.(wildcard := Some(WildcardChild(seg.name, MethodInsert(WildcardMethods(t), m, route)))), None)
        else
          var r := Insert(Child(t, seg), steps[1..], m, route, defined);
          Inserted(SetChild(t, seg, r.tree, defined), r.error)
  }

  // ---- Remove

  datatype Removed<T> = Removed(tree: Tree<T>, result: Result<bool, PatternError>)

  function Remove<T>(t: Tree<T>, steps: Steps, m: Method, defined: Constraints): Removed<T>
    decreases |steps|
  {
    if steps == [] then
      var ms := MethodRemove(t.methods, m);
      Removed(t.(methods := ms), Ok(|ms| != |t.methods|))
    else
      match steps[0]
      case Err(e) => Removed(t, Err(e))
      case Ok(seg) =>
        if seg.Wildcard? then
          if t.wildcard.Some? && t.wildcard.value.name == seg.name then
            var ms := MethodRemove(t.wildcard.value.methods, m);
            Removed(t.(wildcard := Some(WildcardChild(seg.name, ms))), Ok(|ms| != |t.wildcard.value.methods|))
          else Removed(t, Ok(false))
        else if HasChild(t, seg) then
          var r := Remove(Child(t, seg), steps[1..], m, defined);
          Removed(SetChild(t, seg, r.tree, defined), r.result)
        else Removed(t, Ok(false))
  }

  // ---- Find

  /** A captured parameter: its name, its constraint, its text. */
  datatype Capture = Capture(name: string, constraint: Constraint, value: string)

  datatype Outcome<T> =
    | NotFound
    | MethodNotAllowed(allowed: Methods<T>)
    | Matched(route: T, captures: seq<Capture>)

  /** Of two branches tried in order: the first that matches, else the first 405. */
  function Best<T>(first: Outcome<T>, second: Outcome<T>): Outcome<T> {
    if first.Matched? || second.NotFound? then first
    else if second.Matched? || first.NotFound? then second
    else first
  }

  function MethodOutcome<T>(ms: Methods<T>, m: Method): Outcome<T> {
    if ms == [] then NotFound
    else
      match MethodRoute(ms, m)
      case None => MethodNotAllowed(ms)
      case Some(route) => Matched(route, [])
  }

  function Capturing<T>(capture: Capture, outcome: Outcome<T>): Outcome<T> {
    if outcome.Matched? then outcome.(captures := [capture] + outcome.captures) else outcome
  }

  type Regex = (string, string) -> bool

  /** `Param::matches`: the custom regex if it has one. */
  predicate ParamMatches<T>(p: ParamChild<T>, rx: Regex, value: string) {
    match p.custom
    case Some(custom) => rx(custom.pattern, value)
    case None => p.constraint.Any? || (p.constraint.Int? && IsI64(value)) || (p.constraint.Uuid? && IsUuid(value))
  }

  function Find<T>(t: Tree<T>, rx: Regex, rest: string, m: Method): Outcome<T>
    decreases |rest|, 1, 0
  {
    match NextSegment(rest)
    case None => MethodOutcome(t.methods, m)
    case Some((segment, tail)) =>
      Best(Best(Find(Child(t, Literal(segment)), rx, tail, m),
                FindParams(t.params, rx, rest, m)),
           FindWildcard(t.wildcard, rest, m))
  }

  function FindParams<T>(ps: seq<ParamChild<T>>, rx: Regex, rest: string, m: Method): Outcome<T>
    requires NextSegment(rest).Some?
    decreases |rest|, 0, |ps|
  {
    if ps == [] then NotFound
    else Best(FindParam(ps[0], rx, rest, m), FindParams(ps[1..], rx, rest, m))
  }

  function FindParam<T>(p: ParamChild<T>, rx: Regex, rest: string, m: Method): Outcome<T>
    requires NextSegment(rest).Some?
    decreases |rest|, 0, 0
  {
    var (segment, tail) := NextSegment(rest).value;
    if ParamMatches(p, rx, segment) then
      Capturing(Capture(p.name, p.constraint, segment), Find(p.node, rx, tail, m))
    else NotFound
  }

  function FindWildcard<T>(w: Option<WildcardChild<T>>, rest: string, m: Method): Outcome<T> {
    match w
    case None => NotFound
    case Some(w) => Capturing(Capture(w.name, Any, Remainder(rest)), MethodOutcome(w.methods, m))
  }

  // ---- The route of a pattern and method: the finite map a tree stands for

  function RouteAt<T>(t: Tree<T>, p: Pattern, m: Method): Option<T>
    decreases |p|
  {
    if p == [] then MethodRoute(t.methods, m)
    else if p[0].Wildcard? then
      if |p| == 1 && t.wildcard.Some? && t.wildcard.value.name == p[0].name
      then MethodRoute(t.wildcard.value.methods, m) else None
    else RouteAt(Child(t, p[0]), p[1..], m)
  }
}
