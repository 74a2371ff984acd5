/** The route tree updated in place, as src/tree.rs does: each node owns its
    children, and `tree` is the value it stands for. */
module RouteNode {
  import opened Wrappers
  import opened Path
  import RT = RouteTree
  import opened RouteTreeMap
  import opened RouteTreeFind
  import opened RouteTreeOrder
  import opened RouteTreeRebuild
  import opened RouteText

  /** A growable vector, shared and pushed to. */
  class Vec<T> {
    var items: seq<T>

    constructor ()
      ensures items == []
    {
      items := [];
    }

    method Push(x: T)
      modifies this
      ensures items == old(items) + [x]
    {
      items := items + [x];
    }

    method Pop()
      requires items != []
      modifies this
      ensures items == old(items)[..|old(items)| - 1]
    {
      items := items[..|items| - 1];
    }
  }

  /** What a lookup returns; the captures are in the vector it was given. */
  datatype Answer<T> = NotFound | MethodNotAllowed(allowed: RT.Methods<T>) | Matched(route: T)

  function AnswerOf<T>(found: RT.Outcome<T>): Answer<T> {
    match found
    case NotFound => NotFound
    case MethodNotAllowed(allowed) => MethodNotAllowed(allowed)
    case Matched(route, _) => Matched(route)
  }

  function CapturesOf<T>(found: RT.Outcome<T>): seq<RT.Capture> {
    if found.Matched? then found.captures else []
  }

  /** `Outcome::or`: of two failed branches, the first 405. */
  function Or<T>(first: Answer<T>, second: Answer<T>): Answer<T> {
    if first.NotFound? then second else first
  }

  /** One line of a listing. */
  datatype Listed<T> = Listed(pattern: string, verb: RT.Method, route: T)

  datatype ParamNode<T(!new)> = ParamNode(name: string, constraint: Constraint, custom: Option<RT.CustomRegex>, node: Node<T>)

  class Node<T(!new)> {
    var methods: RT.Methods<T>
    var literals: map<string, Node<T>>
    var params: seq<ParamNode<T>>
    var wildcard: Option<RT.WildcardChild<T>>
    ghost var Repr: set<object>
    ghost var children: set<Node<T>>
    ghost var tree: RT.Tree<T>

    /** The node owns its children, they share nothing, and `tree` is its value. */
    ghost predicate Valid()
      reads this, Repr
      ensures Valid() ==> this in Repr
      decreases Repr, 2
    {
      this in Repr && Shape()
    }

    ghost predicate Shape()
      requires this in Repr
      reads this, Repr
      decreases Repr, 1
    {
      Owns() && Places() && Mirrors()
    }

    /** Its children's nodes are its own, and theirs alone. */
    ghost predicate Owns()
      requires this in Repr
      reads this`Repr, this`children, Repr - {this}
      decreases Repr, 0
    {
      && children <= Repr
      && (forall c | c in children :: c.Repr <= Repr && this !in c.Repr && c.Valid())
      && (forall c, d | c in children && d in children && c != d :: c.Repr !! d.Repr)
    }

    /** `tree` has the value of everything here. */
    ghost predicate Mirrors()
      reads this, set k | k in literals :: literals[k], set i | 0 <= i < |params| :: params[i].node
    {
      MirrorsBut({})
    }

    /** Of everything but the subtrees of some literals. */
    ghost predicate MirrorsBut(texts: set<string>)
      reads this, set k | k in literals :: literals[k], set i | 0 <= i < |params| :: params[i].node
    {
      && tree.methods == methods
      && tree.wildcard == wildcard
      && tree.literals.Keys == literals.Keys
      && (forall k | k in literals && k !in texts :: tree.literals[k] == literals[k].tree)
      && |tree.params| == |params|
      && (forall i | 0 <= i < |params| :: tree.params[i] == Value(params[i]))
    }

    /** `tree` takes in the new value of a literal's subtree. */
    ghost method MirrorLiteral(text: string)
      requires this in Repr && text in literals && Owns() && Places() && MirrorsBut({text})
      modifies this`tree
      ensures Valid() && tree == old(tree).(literals := old(tree).literals[text := literals[text].tree])
    {
      hide Valid, Apart;
      LiteralIsApart(literals, params, children, text);
      tree := tree.(literals := tree.literals[text := literals[text].tree]);
      Fold();
    }

    lemma Unfold()
      requires Valid()
      ensures Shape()
    {}

    lemma Fold()
      requires this in Repr && Shape()
      ensures Valid()
    {}

    ghost predicate Places()
      reads this`literals, this`params, this`children
    {
      Apart(literals, params, children)
    }

    /** Every child is in one place. */
    static ghost predicate Apart(literals: map<string, Node<T>>, params: seq<ParamNode<T>>, children: set<Node<T>>) {
      && (forall k | k in literals :: literals[k] in children)
      && (forall i | 0 <= i < |params| :: params[i].node in children)
      && (forall k, l | k in literals && l in literals && k != l :: literals[k] != literals[l])
      && (forall i, j | 0 <= i < j < |params| :: params[i].node != params[j].node)
      && (forall k, i | k in literals && 0 <= i < |params| :: literals[k] != params[i].node)
    }

    static lemma LiteralIsApart(literals: map<string, Node<T>>, params: seq<ParamNode<T>>, children: set<Node<T>>, text: string)
      requires Apart(literals, params, children) && text in literals
      ensures forall k | k in literals :: literals[k] in children && (k != text ==> literals[k] != literals[text])
      ensures forall i | 0 <= i < |params| :: params[i].node in children && params[i].node != literals[text]
    {}

    static lemma ParamIsApart(literals: map<string, Node<T>>, params: seq<ParamNode<T>>, children: set<Node<T>>, i: nat)
      requires Apart(literals, params, children) && i < |params|
      ensures forall k | k in literals :: literals[k] in children && literals[k] != params[i].node
      ensures forall j | 0 <= j < |params| :: params[j].node in children && (j != i ==> params[j].node != params[i].node)
    {}

    static lemma NewLiteralIsApart(
      literals: map<string, Node<T>>, params: seq<ParamNode<T>>, children: set<Node<T>>, text: string, child: Node<T>)
      requires Apart(literals, params, children) && text !in literals && child !in children
      ensures Apart(literals[text := child], params, children + {child})
      ensures forall k | k in literals :: literals[k] in children
      ensures forall i | 0 <= i < |params| :: params[i].node in children
    {}

    constructor ()
      ensures Valid() && fresh(Repr) && tree == RT.Empty()
    {
      methods, literals, params, wildcard := [], map[], [], None;
      Repr, children := {this}, {};
      tree := RT.Empty();
    }

    /** `Methods::insert`: replaces the entry of the method, or pushes one. */
    static method InsertMethod(ms: RT.Methods<T>, m: RT.Method, route: T) returns (r: RT.Methods<T>)
      ensures r == RT.MethodInsert(ms, m, route)
    {
      var i := RT.MethodIndex(ms, m);
      if i.Some? {
        r := ms[i.value := RT.Entry(m, route)];
      } else {
        r := ms + [RT.Entry(m, route)];
      }
    }

    /** Replaces the routes that end here. */
    method SetMethods(ms: RT.Methods<T>)
      requires Valid()
      modifies this
      ensures Valid() && Repr == old(Repr) && tree == old(tree).(methods := ms)
    {
      hide Valid;
      Unfold();
      methods := ms;
      tree := tree.(methods := ms);
      Fold();
    }

    /** Replaces the wildcard. */
    method SetWildcard(w: RT.WildcardChild<T>)
      requires Valid()
      modifies this
      ensures Valid() && Repr == old(Repr) && tree == old(tree).(wildcard := Some(w))
    {
      hide Valid;
      Unfold();
      wildcard := Some(w);
      tree := tree.(wildcard := Some(w));
      Fold();
    }

    /** Registers a route: `insert_at`. */
    method InsertAt(segments: seq<string>, m: RT.Method, route: T, defined: Constraints) returns (error: Option<PatternError>)
      requires Valid() && RT.Valid(tree, defined) && ValidConstraints(defined)
      modifies Repr
      ensures Valid() && fresh(Repr - old(Repr))
      ensures RT.Inserted(tree, error) == RT.Insert(old(tree), RT.Parse(segments, defined), m, route, defined)
      decreases |segments|, 0
    {
      hide Valid, RT.MethodInsert, RT.SetChild, RT.Child, RT.Valid;
      Unfold();
      if segments == [] {
        var ms := InsertMethod(methods, m, route);
        SetMethods(ms);
        return None;
      }
      var first, rest := segments[0], segments[1..];
      assert RT.Parse(segments, defined)[1..] == RT.Parse(rest, defined);
      match ParseWith(first, defined)
      case Err(e) =>
        return Some(e);
      case Ok(Literal(text)) =>
        error := InsertBelowLiteral(text, rest, m, route, defined);
      case Ok(Param(name, constraint)) =>
        error := InsertBelowParam(first, name, constraint, rest, m, route, defined);
      case Ok(Wildcard(name)) =>
        if rest != [] {
          return Some(WildcardNotLast);
        }
        var w := if wildcard.Some? then wildcard.value else RT.WildcardChild(name, []);
        if w.name != name {
          return Some(ConflictingNames(w.name, name));
        }
        var ms := InsertMethod(w.methods, m, route);
        SetWildcard(RT.WildcardChild(name, ms));
        return None;
    }

    /** A new child's nodes become its own. */
    ghost method Adopt(child: Node<T>)
      requires this in Repr && Owns() && child.Valid() && child.Repr !! Repr
      modifies this`Repr, this`children
      ensures this in Repr && Repr == old(Repr) + child.Repr && children == old(children) + {child} && Owns()
    {
      hide Valid;
      Repr, children := Repr + child.Repr, children + {child};
    }

    /** `entry(text).or_default()` when there is no such literal yet. */
    method AddLiteral(text: string)
      requires Valid() && text !in literals
      modifies this
      ensures Valid() && fresh(Repr - old(Repr)) && text in literals
      ensures tree == old(tree).(literals := old(tree).literals[text := RT.Empty()])
    {
      hide Valid, Apart, Owns;
      Unfold();
      var child := new Node();
      NewLiteralIsApart(literals, params, children, text, child);
      literals := literals[text := child];
      Adopt(child);
      tree := tree.(literals := tree.literals[text := RT.Empty()]);
      Fold();
    }

    /** Inserts into the subtree of one child, and takes in the nodes it gained. */
    method InsertInChild(child: Node<T>, rest: seq<string>, m: RT.Method, route: T, defined: Constraints)
      returns (error: Option<PatternError>)
      requires Valid() && child in children && RT.Valid(child.tree, defined) && ValidConstraints(defined)
      modifies Repr
      ensures this in Repr && fresh(Repr - old(Repr)) && Owns()
      ensures tree == old(tree) && methods == old(methods) && wildcard == old(wildcard)
      ensures literals == old(literals) && params == old(params) && children == old(children)
      ensures RT.Inserted(child.tree, error) == RT.Insert(old(child.tree), RT.Parse(rest, defined), m, route, defined)
      ensures forall c | c in children && c != child :: c.tree == old(c.tree)
      decreases |rest|, 1
    {
      hide Valid, Apart, Mirrors, RT.Insert, RT.Valid;
      Unfold();
      error := child.InsertAt(rest, m, route, defined);
      Repr := Repr + child.Repr;
    }

    /** Inserts into the subtree of a literal. */
    method InsertInLiteral(text: string, rest: seq<string>, m: RT.Method, route: T, defined: Constraints)
      returns (error: Option<PatternError>)
      requires Valid() && text in literals && text in tree.literals
      requires RT.Valid(tree.literals[text], defined) && ValidConstraints(defined)
      modifies Repr
      ensures Valid() && fresh(Repr - old(Repr))
      ensures var below := RT.Insert(old(tree).literals[text], RT.Parse(rest, defined), m, route, defined);
        tree == old(tree).(literals := old(tree).literals[text := below.tree]) && error == below.error
      decreases |rest|, 2
    {
      hide Valid, Apart, Owns, RT.Insert, RT.Valid;
      Unfold();
      LiteralIsApart(literals, params, children, text);
      error := InsertInChild(literals[text], rest, m, route, defined);
      MirrorLiteral(text);
    }

    method InsertBelowLiteral(text: string, rest: seq<string>, m: RT.Method, route: T, defined: Constraints)
      returns (error: Option<PatternError>)
      requires Valid() && RT.Valid(tree, defined) && ValidConstraints(defined)
      modifies Repr
      ensures Valid() && fresh(Repr - old(Repr))
      ensures var below := RT.Insert(RT.Child(old(tree), Literal(text)), RT.Parse(rest, defined), m, route, defined);
        tree == RT.SetChild(old(tree), Literal(text), below.tree, defined) && error == below.error
      decreases |rest|, 3
    {
      hide Valid, Owns, Apart, RT.Insert, RT.Valid;
      Unfold();
      ChildValid(tree, Literal(text), defined);
      EmptyValid<T>(defined);
      ghost var before := tree.literals;
      if text !in literals {
        AddLiteral(text);
      }
      error := InsertInLiteral(text, rest, m, route, defined);
      assert tree.literals == before[text := tree.literals[text]];
    }

    /** Where the parameter for a constraint is. */
    method FindParamIndex(constraint: Constraint) returns (index: Option<nat>)
      requires Valid()
      ensures index == RT.ParamIndex(tree.params, constraint)
    {
      hide Valid, RT.ParamIndex;
      Unfold();
      var i := 0;
      while i < |params|
        invariant i <= |params|
        invariant forall j | 0 <= j < i :: params[j].constraint != constraint
      {
        if params[i].constraint == constraint {
          return Some(i);
        }
        i := i + 1;
      }
      assert forall j | 0 <= j < |tree.params| :: tree.params[j].constraint == params[j].constraint;
      return None;
    }

    /** Adds a parameter without routes, before the unconstrained one. */
    method AddParam(p: ParamNode<T>) returns (index: nat)
      requires Valid() && p.node.Valid() && p.node.Repr !! Repr
      requires RT.ParamIndex(tree.params, p.constraint) == None
      modifies this
      ensures Valid() && Repr == old(Repr) + p.node.Repr
      ensures index < |params| && params[index] == p
      ensures index == RT.NewParamPlace(old(tree).params)
      ensures tree == old(tree).(params := RT.SetParam(old(tree).params, Value(p)))
    {
      hide Valid, RT.ParamIndex, RT.SetParam, RT.NewParamPlace;
      Unfold();
      NewParam(tree.params, Value(p));
      var place := FindParamIndex(Any);
      index := if place.Some? then place.value else |params|;
      PlaceParam(p, index);
    }

    /** `params.insert(index, p)`. */
    method PlaceParam(p: ParamNode<T>, index: nat)
      requires Valid() && p.node.Valid() && p.node.Repr !! Repr
      requires index <= |params| == |tree.params|
      modifies this
      ensures Valid() && Repr == old(Repr) + p.node.Repr
      ensures index < |params| && params[index] == p
      ensures tree == old(tree).(params := old(tree).params[..index] + [Value(p)] + old(tree).params[index..])
    {
      hide Valid;
      Unfold();
      ghost var before, beforeTree := params, tree.params;
      params := params[..index] + [p] + params[index..];
      Adopt(p.node);
      tree := tree.(params := beforeTree[..index] + [Value(p)] + beforeTree[index..]);
      assert Places();
      forall j | 0 <= j < |params| ensures tree.params[j] == Value(params[j]) {
        if j < index {
          assert params[j] == before[j] && tree.params[j] == beforeTree[j];
        } else if j > index {
          assert params[j] == before[j - 1] && tree.params[j] == beforeTree[j - 1];
        }
      }
      Fold();
    }

    /** The value a parameter stands for. */
    static ghost function Value(p: ParamNode<T>): RT.ParamChild<T>
      reads p.node
    {
      RT.ParamChild(p.name, p.constraint, p.custom, p.node.tree)
    }

    /** Updates the subtree of a parameter after an insert into it. */
    method InsertInParam(i: nat, rest: seq<string>, m: RT.Method, route: T, defined: Constraints)
      returns (error: Option<PatternError>)
      requires Valid() && i < |params| && i < |tree.params| && RT.Valid(tree.params[i].node, defined) && ValidConstraints(defined)
      modifies Repr
      ensures Valid() && fresh(Repr - old(Repr))
      ensures var below := RT.Insert(old(tree).params[i].node, RT.Parse(rest, defined), m, route, defined);
        tree == old(tree).(params := old(tree).params[i := old(tree).params[i].(node := below.tree)]) && error == below.error
      decreases |rest|, 2
    {
      hide Valid, Apart, RT.Insert, RT.Valid;
      Unfold();
      ParamIsApart(literals, params, children, i);
      error := InsertInChild(params[i].node, rest, m, route, defined);
      tree := tree.(params := tree.params[i := tree.params[i].(node := params[i].node.tree)]);
      Fold();
    }

    method InsertBelowParam(
      first: string, name: string, constraint: Constraint, rest: seq<string>, m: RT.Method, route: T, defined: Constraints)
      returns (error: Option<PatternError>)
      requires Valid() && RT.Valid(tree, defined) && ValidConstraints(defined)
      requires ParseWith(first, defined) == Ok(Segment.Param(name, constraint))
      modifies Repr
      ensures Valid() && fresh(Repr - old(Repr))
      ensures var seg := Segment.Param(name, constraint);
        if RT.Clash(old(tree), seg).Some? then
          tree == old(tree) && error == Some(ConflictingNames(RT.Clash(old(tree), seg).value, name))
        else
          var below := RT.Insert(RT.Child(old(tree), seg), RT.Parse(rest, defined), m, route, defined);
          tree == RT.SetChild(old(tree), seg, below.tree, defined) && error == below.error
      decreases |rest|, 4
    {
      hide Valid, RT.Insert, RT.ParamIndex, RT.SetChild, RT.Child, RT.Clash, ParseWith;
      Unfold();
      ghost var before := tree;
      var index := FindParamIndex(constraint);
      ClashIs(tree, index, name, constraint);
      if index.Some? {
        if params[index.value].name != name {
          return Some(ConflictingNames(params[index.value].name, name));
        }
        ParamValid(tree, index.value, defined);
        error := InsertInParam(index.value, rest, m, route, defined);
        InsertedExisting(before, index.value, tree.params[index.value].node, defined);
      } else {
        error := InsertInNewParam(first, name, constraint, rest, m, route, defined);
      }
    }

    /** A parameter that isn't there yet is added, then inserted into. */
    method InsertInNewParam(
      first: string, name: string, constraint: Constraint, rest: seq<string>, m: RT.Method, route: T, defined: Constraints)
      returns (error: Option<PatternError>)
      requires Valid() && ValidConstraints(defined) && RT.ParamIndex(tree.params, constraint).None?
      requires ParseWith(first, defined) == Ok(Segment.Param(name, constraint))
      modifies Repr
      ensures Valid() && fresh(Repr - old(Repr))
      ensures var seg := Segment.Param(name, constraint);
        var below := RT.Insert(RT.Child(old(tree), seg), RT.Parse(rest, defined), m, route, defined);
        tree == RT.SetChild(old(tree), seg, below.tree, defined) && error == below.error
      decreases |rest|, 3
    {
      hide Valid, RT.Insert, RT.ParamIndex, RT.SetChild, RT.Child, RT.SetParam, RT.CustomOf, RT.NewParamPlace, ParseWith, RT.Valid;
      ghost var before := tree;
      var custom := CustomRegexOf(constraint, first, name, defined);
      var node := new Node();
      var i := AddParam(ParamNode(name, constraint, custom, node));
      Unfold();
      EmptyValid<T>(defined);
      InsertedNew(before, i, name, constraint, RT.Empty(), defined);
      error := InsertInParam(i, rest, m, route, defined);
      InsertedNew(before, i, name, constraint, tree.params[i].node, defined);
    }

    // ---- Remove

    /** `Methods::remove`: keeps the other methods' entries. */
    static method RemoveMethod(ms: RT.Methods<T>, m: RT.Method) returns (r: RT.Methods<T>)
      ensures r == RT.MethodRemove(ms, m)
    {
      r := [];
      var i: nat := |ms|;
      while i > 0
        invariant 0 <= i <= |ms|
        invariant r == RT.MethodRemove(ms[i..], m)
      {
        i := i - 1;
        assert ms[i..][1..] == ms[i + 1..];
        if ms[i].verb != m {
          r := [ms[i]] + r;
        }
      }
      assert ms[0..] == ms;
    }

    /** Removes the route of a pattern and method: `remove_at`. Emptied nodes stay. */
    method RemoveAt(segments: seq<string>, m: RT.Method, defined: Constraints) returns (result: Result<bool, PatternError>)
      requires Valid() && RT.Valid(tree, defined) && ValidConstraints(defined)
      modifies Repr
      ensures Valid() && Repr == old(Repr)
      ensures RT.Removed(tree, result) == RT.Remove(old(tree), RT.Parse(segments, defined), m, defined)
      decreases |segments|, 0
    {
      hide Valid, RT.MethodRemove, RT.SetChild, RT.Child, RT.Valid, RT.HasChild;
      Unfold();
      if segments == [] {
        var ms := RemoveMethod(methods, m);
        result := Ok(|ms| != |methods|);
        SetMethods(ms);
        return;
      }
      var first, rest := segments[0], segments[1..];
      assert RT.Parse(segments, defined)[1..] == RT.Parse(rest, defined);
      match ParseWith(first, defined)
      case Err(e) =>
        return Err(e);
      case Ok(Literal(text)) =>
        result := RemoveBelowLiteral(text, rest, m, defined);
      case Ok(Param(name, constraint)) =>
        result := RemoveBelowParam(name, constraint, rest, m, defined);
      case Ok(Wildcard(name)) =>
        if wildcard.Some? && wildcard.value.name == name {
          var ms := RemoveMethod(wildcard.value.methods, m);
          result := Ok(|ms| != |wildcard.value.methods|);
          SetWildcard(RT.WildcardChild(name, ms));
        } else {
          result := Ok(false);
        }
    }

    method RemoveBelowLiteral(text: string, rest: seq<string>, m: RT.Method, defined: Constraints)
      returns (result: Result<bool, PatternError>)
      requires Valid() && RT.Valid(tree, defined) && ValidConstraints(defined)
      modifies Repr
      ensures Valid() && Repr == old(Repr)
      ensures var seg := Literal(text);
        if RT.HasChild(old(tree), seg) then
          var below := RT.Remove(RT.Child(old(tree), seg), RT.Parse(rest, defined), m, defined);
          tree == RT.SetChild(old(tree), seg, below.tree, defined) && result == below.result
        else tree == old(tree) && result == Ok(false)
      decreases |rest|, 1
    {
      hide Valid, Apart, RT.Remove, RT.Valid;
      Unfold();
      ChildValid(tree, Literal(text), defined);
      if text in literals {
        LiteralIsApart(literals, params, children, text);
        var child := literals[text];
        result := child.RemoveAt(rest, m, defined);
        MirrorLiteral(text);
      } else {
        result := Ok(false);
      }
    }

    method RemoveInParam(i: nat, rest: seq<string>, m: RT.Method, defined: Constraints) returns (result: Result<bool, PatternError>)
      requires Valid() && i < |params| && i < |tree.params| && RT.Valid(tree.params[i].node, defined) && ValidConstraints(defined)
      modifies Repr
      ensures Valid() && Repr == old(Repr)
      ensures var below := RT.Remove(old(tree).params[i].node, RT.Parse(rest, defined), m, defined);
        tree == old(tree).(params := old(tree).params[i := old(tree).params[i].(node := below.tree)]) && result == below.result
      decreases |rest|, 1
    {
      hide Valid, Apart, RT.Remove, RT.Valid;
      Unfold();
      ParamIsApart(literals, params, children, i);
      var child := params[i].node;
      result := child.RemoveAt(rest, m, defined);
      tree := tree.(params := tree.params[i := tree.params[i].(node := child.tree)]);
      Fold();
    }

    method RemoveBelowParam(name: string, constraint: Constraint, rest: seq<string>, m: RT.Method, defined: Constraints)
      returns (result: Result<bool, PatternError>)
      requires Valid() && RT.Valid(tree, defined) && ValidConstraints(defined)
      modifies Repr
      ensures Valid() && Repr == old(Repr)
      ensures var seg := Segment.Param(name, constraint);
        if RT.HasChild(old(tree), seg) then
          var below := RT.Remove(RT.Child(old(tree), seg), RT.Parse(rest, defined), m, defined);
          tree == RT.SetChild(old(tree), seg, below.tree, defined) && result == below.result
        else tree == old(tree) && result == Ok(false)
      decreases |rest|, 2
    {
      hide Valid, RT.Remove, RT.ParamIndex;
      Unfold();
      ghost var before := tree;
      var index := FindParamIndex(constraint);
      if index.Some? && params[index.value].name == name {
        result := RemoveInParam(index.value, rest, m, defined);
        InsertedExisting(before, index.value, tree.params[index.value].node, defined);
      } else {
        result := Ok(false);
      }
    }

    // ---- Find

    /** `param.matches`. */
    static method ParamFits(p: ParamNode<T>, rx: RT.Regex, value: string) returns (fits: bool)
      ensures fits == RT.ParamMatches(Value(p), rx, value)
    {
      match p.custom
      case Some(custom) => fits := rx(custom.pattern, value);
      case None => fits := p.constraint.Any? || (p.constraint.Int? && IsI64(value)) || (p.constraint.Uuid? && IsUuid(value));
    }

    /** `Methods::lookup`. */
    static method LookupMethod(ms: RT.Methods<T>, m: RT.Method) returns (answer: Answer<T>)
      ensures answer == AnswerOf(RT.MethodOutcome(ms, m)) && CapturesOf(RT.MethodOutcome(ms, m)) == []
    {
      if ms == [] {
        return NotFound;
      }
      var i := RT.MethodIndex(ms, m);
      answer := if i.Some? then Matched(ms[i.value].route) else MethodNotAllowed(ms);
    }

    /** Looks `rest` up, pushing the captures of the match onto `captures`:
        `find_from`. A branch that fails leaves none behind. */
    method FindFrom(rest: string, m: RT.Method, captures: Vec<RT.Capture>, rx: RT.Regex) returns (answer: Answer<T>)
      requires Valid() && captures !in Repr
      modifies captures
      ensures answer == AnswerOf(RT.Find(tree, rx, rest, m))
      ensures captures.items == old(captures.items) + CapturesOf(RT.Find(tree, rx, rest, m))
      decreases |rest|, 1
    {
      hide Valid, RT.Find, RT.FindParams, RT.FindParam, RT.FindWildcard, RT.MethodOutcome, NextSegment, Remainder,
        RT.Best, RT.Child, Or, AnswerOf, CapturesOf;
      Unfold();
      var segment, tail := Next(rest);
      if segment.None? {
        FindHere(tree, rx, rest, m);
        answer := LookupMethod(methods, m);
        return;
      }
      FindHere(tree, rx, rest, m);
      ghost var found := RT.Find(RT.Child(tree, Literal(segment.value)), rx, tail, m);
      ThreeBranches(found, RT.FindParams(tree.params, rx, rest, m), RT.FindWildcard(tree.wildcard, rest, m));
      answer := FindInLiteral(segment.value, tail, m, captures, rx);
      if answer.Matched? {
        return;
      }
      var best := answer;
      answer := FindInParams(rest, segment.value, tail, m, captures, rx, best);
      if answer.Matched? {
        return;
      }
      best := answer;
      answer := FindInWildcard(rest, m, captures);
      if !answer.Matched? {
        answer := Or(best, answer);
      }
    }

    /** The literal child, if there is one. */
    method FindInLiteral(segment: string, tail: string, m: RT.Method, captures: Vec<RT.Capture>, rx: RT.Regex)
      returns (answer: Answer<T>)
      requires Valid() && captures !in Repr
      modifies captures
      ensures var found := RT.Find(RT.Child(tree, Literal(segment)), rx, tail, m);
        && answer == AnswerOf(found)
        && captures.items == old(captures.items) + CapturesOf(found)
      decreases |tail|, 2
    {
      hide Valid, RT.Find, RT.Child;
      Unfold();
      LiteralChild(tree, segment);
      if segment in literals {
        answer := literals[segment].FindFrom(tail, m, captures, rx);
      } else {
        FindEmpty<T>(rx, tail, m);
        answer := NotFound;
      }
    }

    /** The wildcard takes all that is left. */
    method FindInWildcard(rest: string, m: RT.Method, captures: Vec<RT.Capture>) returns (answer: Answer<T>)
      requires Valid() && captures !in Repr
      modifies captures
      ensures answer == AnswerOf(RT.FindWildcard(tree.wildcard, rest, m))
      ensures captures.items == old(captures.items) + CapturesOf(RT.FindWildcard(tree.wildcard, rest, m))
    {
      hide Valid, Remainder, RT.MethodOutcome;
      Unfold();
      answer := NotFound;
      if wildcard.Some? {
        captures.Push(RT.Capture(wildcard.value.name, Any, Remainder(rest)));
        answer := LookupMethod(wildcard.value.methods, m);
        if answer.Matched? {
          return;
        }
        captures.Pop();
      }
    }

    /** The parameters, in order, each popped again if its branch fails. */
    method FindInParams(
      rest: string, segment: string, tail: string, m: RT.Method, captures: Vec<RT.Capture>, rx: RT.Regex, start: Answer<T>)
      returns (answer: Answer<T>)
      requires Valid() && captures !in Repr && !start.Matched?
      requires NextSegment(rest) == Some((segment, tail))
      modifies captures
      ensures var found := RT.FindParams(tree.params, rx, rest, m);
        && answer == (if found.Matched? then AnswerOf(found) else Or(start, AnswerOf(found)))
        && captures.items == old(captures.items) + CapturesOf(found)
        && (answer.Matched? <==> found.Matched?)
      decreases |rest|, 0
    {
      hide Valid, Apart, RT.Find, RT.FindParams, RT.FindParam, RT.ParamMatches, NextSegment, RT.Best;
      Unfold();
      answer := start;
      var i := 0;
      FindNoParams<T>(rx, rest, m);
      while i < |params|
        invariant i <= |params|
        invariant captures.items == old(captures.items)
        invariant !answer.Matched? && !RT.FindParams(tree.params[..i], rx, rest, m).Matched?
        invariant answer == Or(start, AnswerOf(RT.FindParams(tree.params[..i], rx, rest, m)))
      {
        FindParamsNext(tree.params, i, rx, rest, m);
        BestOfFailures(RT.FindParams(tree.params[..i], rx, rest, m), RT.FindParam(tree.params[i], rx, rest, m));
        ParamIsApart(literals, params, children, i);
        var fits := ParamFits(params[i], rx, segment);
        FindParamIs(tree.params[i], segment, tail, rx, rest, m);
        if fits {
          captures.Push(RT.Capture(params[i].name, params[i].constraint, segment));
          var branch := params[i].node.FindFrom(tail, m, captures, rx);
          if branch.Matched? {
            return branch;
          }
          answer := Or(answer, branch);
          captures.Pop();
        }
        i := i + 1;
      }
      assert tree.params[..|params|] == tree.params;
    }

    // ---- The listing

    static method PushMethods(pattern: RT.Pattern, prefix: string, text: string, ms: RT.Methods<T>, out: Vec<Listed<T>>, defined: Constraints)
      requires text == TextUnder(prefix, pattern, defined)
      modifies out
      ensures out.items == old(out.items) + Printed(prefix, SlotEntries(pattern, ms), defined)
    {
      var i := 0;
      while i < |ms|
        invariant i <= |ms|
        invariant out.items == old(out.items) + Printed(prefix, SlotEntries(pattern, ms), defined)[..i]
      {
        out.Push(Listed(text, ms[i].verb, ms[i].route));
        i := i + 1;
      }
    }

    /** Pushes every route below this node: `collect_routes`. `slots` is the
        listing, for the order in which each hash map yields its literals. */
    method CollectRoutes(prefix: string, out: Vec<Listed<T>>, defined: Constraints) returns (ghost slots: Slots<T>)
      requires Valid() && RT.Valid(tree, defined) && out !in Repr
      modifies out
      ensures IsListing(tree, slots)
      ensures out.items == old(out.items) + Printed(prefix, Entries(slots), defined)
      decreases Repr, 1
    {
      hide Valid, RT.Valid, IsListing, LiteralSlots, ParamSlots, Printed, Format, TextUnder, Entries;
      Unfold();
      TextHere(prefix, defined);
      PushMethods([], prefix, if prefix == "" then "/" else prefix, methods, out, defined);
      ghost var keys, literalParts := CollectLiterals(prefix, out, defined);
      ghost var paramParts := CollectParams(prefix, out, defined);
      if wildcard.Some? {
        TextOfWildcard(prefix, wildcard.value.name, defined);
        PushMethods([Wildcard(wildcard.value.name)], prefix, prefix + "/*" + wildcard.value.name, wildcard.value.methods, out, defined);
      }
      slots := [Slot([], methods)] + LiteralSlots(keys, literalParts) + ParamSlots(tree.params, paramParts) + WildcardSlots(wildcard);
      PrintedOfFour(prefix, methods, LiteralSlots(keys, literalParts), ParamSlots(tree.params, paramParts), wildcard, defined);
      ListingOf(tree, slots, keys, literalParts, paramParts);
    }

    method CollectLiterals(prefix: string, out: Vec<Listed<T>>, defined: Constraints)
      returns (ghost keys: seq<string>, ghost parts: seq<Slots<T>>)
      requires Valid() && RT.Valid(tree, defined) && out !in Repr
      modifies out
      ensures Enumerates(keys, tree.literals.Keys) && |parts| == |keys|
      ensures forall i | 0 <= i < |keys| :: IsListing(tree.literals[keys[i]], parts[i])
      ensures out.items == old(out.items) + Printed(prefix, Entries(LiteralSlots(keys, parts)), defined)
      decreases Repr, 0
    {
      hide Valid, Apart, RT.Valid, IsListing, LiteralSlots, Printed, FormatParam, Entries;
      Unfold();
      keys, parts := [], [];
      NoSlots<T>();
      PrintedNone<T>(prefix, defined);
      var left := literals.Keys;
      while left != {}
        decreases left
        invariant left <= literals.Keys
        invariant |parts| == |keys| && forall i | 0 <= i < |keys| :: keys[i] in literals && keys[i] !in left
        invariant forall k | k in literals && k !in left :: k in keys
        invariant forall i, j | 0 <= i < j < |keys| :: keys[i] != keys[j]
        invariant forall i | 0 <= i < |keys| :: IsListing(tree.literals[keys[i]], parts[i])
        invariant out.items == old(out.items) + Printed(prefix, Entries(LiteralSlots(keys, parts)), defined)
      {
        var k :| k in left;
        LiteralValid(tree, k, defined);
        LiteralIsApart(literals, params, children, k);
        ghost var part := literals[k].CollectRoutes(prefix + "/" + k, out, defined);
        PrintedBelow(prefix, Literal(k), part, defined);
        LiteralSlotsAppend(keys, parts, k, part);
        PrintedConcat(prefix, LiteralSlots(keys, parts), Under(Literal(k), part), defined);
        keys, parts := keys + [k], parts + [part];
        left := left - {k};
      }
    }

    method CollectParams(prefix: string, out: Vec<Listed<T>>, defined: Constraints) returns (ghost parts: seq<Slots<T>>)
      requires Valid() && RT.Valid(tree, defined) && out !in Repr
      modifies out
      ensures |parts| == |tree.params|
      ensures forall i | 0 <= i < |parts| :: IsListing(tree.params[i].node, parts[i])
      ensures out.items == old(out.items) + Printed(prefix, Entries(ParamSlots(tree.params, parts)), defined)
      decreases Repr, 0
    {
      hide Valid, RT.Valid, IsListing, ParamSlots, Printed, FormatParam, Entries;
      Unfold();
      parts := [];
      NoSlots<T>();
      PrintedNone<T>(prefix, defined);
      var i := 0;
      while i < |params|
        invariant i == |parts| <= |params|
        invariant forall j | 0 <= j < i :: IsListing(tree.params[j].node, parts[j])
        invariant out.items == old(out.items) + Printed(prefix, Entries(ParamSlots(tree.params[..i], parts)), defined)
      {
        var p := params[i];
        ParamValid(tree, i, defined);
        var segment := FormatNode(p, defined);
        ghost var part := p.node.CollectRoutes(prefix + "/" + segment, out, defined);
        PrintedBelow(prefix, Segment.Param(p.name, p.constraint), part, defined);
        ParamSlotsAppend(tree.params[..i], parts, tree.params[i], part);
        assert tree.params[..i + 1] == tree.params[..i] + [tree.params[i]];
        PrintedConcat(prefix, ParamSlots(tree.params[..i], parts), Under(Segment.Param(p.name, p.constraint), part), defined);
        parts := parts + [part];
        i := i + 1;
      }
      assert tree.params[..i] == tree.params;
    }

    /** `Param::format`: a custom constraint by the name kept with its regex. */
    static method FormatNode(p: ParamNode<T>, ghost defined: Constraints) returns (text: string)
      requires p.custom == RT.CustomOf(defined, p.constraint) && (p.constraint.Custom? ==> p.constraint.index < |defined|)
      ensures text == FormatParam(p.name, p.constraint, defined)
    {
      match p.custom
      case Some(custom) => text := "{" + (p.name + [':'] + custom.name) + "}";
      case None => text := FormatParam(p.name, p.constraint, []);
    }
  }

  /** Entries as text, below `prefix`. */
  function Printed<T>(prefix: string, rs: Registrations<T>, defined: Constraints): seq<Listed<T>> {
    seq(|rs|, i requires 0 <= i < |rs| => Listed(TextUnder(prefix, rs[i].pattern, defined), rs[i].verb, rs[i].route))
  }

  lemma PrintedNone<T>(prefix: string, defined: Constraints)
    ensures Printed<T>(prefix, Entries<T>([]), defined) == []
  {}

  lemma NoSlots<T>()
    ensures LiteralSlots<T>([], []) == [] && ParamSlots<T>([], []) == []
  {}

  lemma PrintedConcat<T>(prefix: string, a: Slots<T>, b: Slots<T>, defined: Constraints)
    ensures Printed(prefix, Entries(a + b), defined) == Printed(prefix, Entries(a), defined) + Printed(prefix, Entries(b), defined)
  {
    hide Entries, TextUnder;
    EntriesConcat(a, b);
  }

  lemma PrintedBelow<T>(prefix: string, seg: Segment, slots: Slots<T>, defined: Constraints)
    ensures Printed(prefix, Entries(Under(seg, slots)), defined) ==
      Printed(prefix + "/" + Format(seg, defined), Entries(slots), defined)
  {
    hide Entries, TextUnder, Format;
    EntriesUnder(seg, slots);
    var rs := Entries(slots);
    forall i | 0 <= i < |rs|
      ensures TextUnder(prefix, [seg] + rs[i].pattern, defined) == TextUnder(prefix + "/" + Format(seg, defined), rs[i].pattern, defined)
    {
      TextUnderStep(prefix, seg, rs[i].pattern, defined);
    }
  }

  lemma PrintedOfFour<T>(
    prefix: string, ms: RT.Methods<T>, b: Slots<T>, c: Slots<T>, w: Option<RT.WildcardChild<T>>, defined: Constraints)
    ensures Printed(prefix, Entries([Slot([], ms)] + b + c + WildcardSlots(w)), defined) ==
      Printed(prefix, SlotEntries([], ms), defined) + Printed(prefix, Entries(b), defined) + Printed(prefix, Entries(c), defined)
      + (if w.None? then [] else Printed(prefix, SlotEntries([Wildcard(w.value.name)], w.value.methods), defined))
  {
    hide Entries, Printed;
    PrintedConcat(prefix, [Slot([], ms)] + b + c, WildcardSlots(w), defined);
    PrintedConcat(prefix, [Slot([], ms)] + b, c, defined);
    PrintedConcat(prefix, [Slot([], ms)], b, defined);
    SlotEntriesOne([], ms);
    PrintedNone<T>(prefix, defined);
    if w.Some? { SlotEntriesOne([Wildcard(w.value.name)], w.value.methods); }
  }

  lemma {:induction false} LiteralSlotsAppend<T>(keys: seq<string>, parts: seq<Slots<T>>, k: string, part: Slots<T>)
    requires |keys| == |parts|
    ensures LiteralSlots(keys + [k], parts + [part]) == LiteralSlots(keys, parts) + Under(Literal(k), part)
  {
    hide Under;
    if keys == [] {
      assert LiteralSlots(([k])[1..], ([part])[1..]) == [];
      assert keys + [k] == [k] && parts + [part] == [part];
    } else {
      assert (keys + [k])[1..] == keys[1..] + [k] && (parts + [part])[1..] == parts[1..] + [part];
      LiteralSlotsAppend(keys[1..], parts[1..], k, part);
    }
  }

  lemma {:induction false} ParamSlotsAppend<T>(ps: seq<RT.ParamChild<T>>, parts: seq<Slots<T>>, p: RT.ParamChild<T>, part: Slots<T>)
    requires |ps| == |parts|
    ensures ParamSlots(ps + [p], parts + [part]) == ParamSlots(ps, parts) + Under(Segment.Param(p.name, p.constraint), part)
  {
    hide Under;
    if ps == [] {
      assert ParamSlots(([p])[1..], ([part])[1..]) == [];
      assert ps + [p] == [p] && parts + [part] == [part];
    } else {
      assert (ps + [p])[1..] == ps[1..] + [p] && (parts + [part])[1..] == parts[1..] + [part];
      ParamSlotsAppend(ps[1..], parts[1..], p, part);
    }
  }

  lemma TextHere(prefix: string, defined: Constraints)
    ensures TextUnder(prefix, [], defined) == if prefix == "" then "/" else prefix
  {
    assert prefix + "" == prefix;
  }

  lemma TextOfWildcard(prefix: string, name: string, defined: Constraints)
    ensures TextUnder(prefix, [Wildcard(name)], defined) == prefix + "/*" + name
  {
    assert Formatted([Wildcard(name)], defined)[1..] == [];
    assert Slashed(["*" + name]) == "/" + ("*" + name) + Slashed([]) == "/*" + name;
    assert prefix + ("/*" + name) == prefix + "/*" + name;
  }

  lemma ListingOf<T(!new)>(
    t: RT.Tree<T>, slots: Slots<T>, keys: seq<string>, literals: seq<Slots<T>>, params: seq<Slots<T>>)
    requires IsListingOf(t, slots, keys, literals, params)
    ensures IsListing(t, slots)
  {}

  lemma LiteralValid<T>(t: RT.Tree<T>, k: string, defined: Constraints)
    requires RT.Valid(t, defined) && k in t.literals
    ensures RT.Valid(t.literals[k], defined)
  {}

  lemma ParamValid<T>(t: RT.Tree<T>, i: nat, defined: Constraints)
    requires RT.Valid(t, defined) && i < |t.params|
    ensures RT.Valid(t.params[i].node, defined)
    ensures t.params[i].custom == RT.CustomOf(defined, t.params[i].constraint)
    ensures t.params[i].constraint.Custom? ==> t.params[i].constraint.index < |defined|
  {}

  /** The regex and the name kept next to a parameter with a custom constraint. */
  method CustomRegexOf(constraint: Constraint, first: string, ghost name: string, defined: Constraints)
    returns (custom: Option<RT.CustomRegex>)
    requires ValidConstraints(defined) && ParseWith(first, defined) == Ok(Segment.Param(name, constraint))
    ensures custom == RT.CustomOf(defined, constraint)
  {
    hide ConstraintName, Position;
    match constraint
    case Custom(i) =>
      ConstraintNameIsDefined(first, defined);
      custom := Some(RT.CustomRegex(defined[i].pattern, ConstraintName(first)));
    case _ => custom := None;
  }

  lemma ClashIs<T>(t: RT.Tree<T>, index: Option<nat>, name: string, c: Constraint)
    requires index == RT.ParamIndex(t.params, c)
    ensures RT.Clash(t, Segment.Param(name, c))
         == if index.Some? && t.params[index.value].name != name then Some(t.params[index.value].name) else None
  {
    hide RT.ParamIndex;
  }

  lemma InsertedExisting<T>(t: RT.Tree<T>, i: nat, node: RT.Tree<T>, defined: Constraints)
    requires RT.Valid(t, defined) && i < |t.params|
    ensures var seg := Segment.Param(t.params[i].name, t.params[i].constraint);
      && RT.SetChild(t, seg, node, defined) == t.(params := t.params[i := t.params[i].(node := node)])
      && RT.Child(t, seg) == t.params[i].node && RT.Clash(t, seg).None?
  {
    hide RT.ParamIndex, RT.CustomOf;
    ParamForIs(t.params, defined, i);
  }

  lemma InsertedNew<T>(t: RT.Tree<T>, i: nat, name: string, c: Constraint, node: RT.Tree<T>, defined: Constraints)
    requires RT.ParamIndex(t.params, c).None? && i == RT.NewParamPlace(t.params)
    ensures var seg, empty := Segment.Param(name, c), RT.ParamChild(name, c, RT.CustomOf(defined, c), RT.Empty<T>());
      && RT.SetChild(t, seg, node, defined) == t.(params := RT.SetParam(t.params, empty)[i := empty.(node := node)])
      && RT.SetParam(t.params, empty)[i] == empty
      && RT.Child(t, seg) == RT.Empty() && RT.Clash(t, seg).None?
  {
    hide RT.ParamIndex, RT.CustomOf;
  }

  lemma EmptyValid<T>(defined: Constraints)
    ensures RT.Valid<T>(RT.Empty(), defined)
  {}

  lemma NewParam<T>(ps: seq<RT.ParamChild<T>>, p: RT.ParamChild<T>)
    requires RT.ParamIndex(ps, p.constraint) == None
    ensures var i := RT.NewParamPlace(ps); RT.SetParam(ps, p) == ps[..i] + [p] + ps[i..]
    ensures RT.NewParamPlace(ps) == match RT.ParamIndex(ps, Any) case Some(i) => i case None => |ps|
  {}

  lemma LiteralChild<T>(t: RT.Tree<T>, text: string)
    ensures RT.Child(t, Literal(text)) == if text in t.literals then t.literals[text] else RT.Empty()
  {}

  /** Three branches tried in order: the first that matches, else the first 405. */
  lemma ThreeBranches<T>(a: RT.Outcome<T>, b: RT.Outcome<T>, c: RT.Outcome<T>)
    ensures var best := RT.Best(RT.Best(a, b), c);
      if a.Matched? then best == a
      else if b.Matched? then best == b
      else if c.Matched? then best == c
      else AnswerOf(best) == Or(Or(AnswerOf(a), AnswerOf(b)), AnswerOf(c)) && CapturesOf(best) == []
    ensures forall x | x == a || x == b || x == c ::
      (AnswerOf(x).Matched? <==> x.Matched?) && (!x.Matched? ==> CapturesOf(x) == [])
    ensures AnswerOf(RT.NotFound) == Answer<T>.NotFound
  {}

  lemma BestOfFailures<T>(a: RT.Outcome<T>, b: RT.Outcome<T>)
    ensures !a.Matched? && b.Matched? ==> RT.Best(a, b) == b
    ensures !a.Matched? && !b.Matched? ==>
      !RT.Best(a, b).Matched? && AnswerOf(RT.Best(a, b)) == Or(AnswerOf(a), AnswerOf(b))
  {}

  lemma FindHere<T>(t: RT.Tree<T>, rx: RT.Regex, rest: string, m: RT.Method)
    ensures RT.Find(t, rx, rest, m) ==
      match NextSegment(rest)
      case None => RT.MethodOutcome(t.methods, m)
      case Some((segment, tail)) =>
        RT.Best(RT.Best(RT.Find(RT.Child(t, Literal(segment)), rx, tail, m), RT.FindParams(t.params, rx, rest, m)),
                RT.FindWildcard(t.wildcard, rest, m))
  {}

  lemma FindNoParams<T>(rx: RT.Regex, rest: string, m: RT.Method)
    requires NextSegment(rest).Some?
    ensures RT.FindParams<T>([], rx, rest, m) == RT.NotFound
  {}

  lemma FindParamIs<T>(p: RT.ParamChild<T>, segment: string, tail: string, rx: RT.Regex, rest: string, m: RT.Method)
    requires NextSegment(rest) == Some((segment, tail))
    ensures RT.FindParam(p, rx, rest, m) ==
      if RT.ParamMatches(p, rx, segment) then RT.Capturing(RT.Capture(p.name, p.constraint, segment), RT.Find(p.node, rx, tail, m))
      else RT.NotFound
  {
    hide RT.ParamMatches, RT.Find;
  }

  /** A matching parameter ends the scan; the others only add to the best failure. */
  lemma FindParamsNext<T>(ps: seq<RT.ParamChild<T>>, i: nat, rx: RT.Regex, rest: string, m: RT.Method)
    requires i < |ps| && NextSegment(rest).Some? && !RT.FindParams(ps[..i], rx, rest, m).Matched?
    ensures RT.FindParams(ps[..i + 1], rx, rest, m) == RT.Best(RT.FindParams(ps[..i], rx, rest, m), RT.FindParam(ps[i], rx, rest, m))
    ensures RT.FindParam(ps[i], rx, rest, m).Matched? ==> RT.FindParams(ps, rx, rest, m) == RT.FindParam(ps[i], rx, rest, m)
  {
    hide NextSegment, RT.FindParam, RT.FindParams;
    assert ps[..i + 1] == ps[..i] + [ps[i]] && ps == ps[..i + 1] + ps[i + 1..];
    FindParamsConcat(ps[..i], [ps[i]], rx, rest, m);
    FindParamsOne(ps[i], rx, rest, m);
    FindParamsConcat(ps[..i + 1], ps[i + 1..], rx, rest, m);
  }
}
