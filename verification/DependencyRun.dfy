/** One request's dependencies (korvex/_schema.py:350-414, 426-492;
    korvex/_app.py:580-599, 838-846): values made in post-order, some by
    generators that wait at a `yield`, and torn down last first with errors
    threaded through them. */
module DependencyRun {
  import opened Wrappers
  import opened Planner

  /** Errors are told apart by identity. */
  datatype Error =
    | Raised(id: nat, validation: bool)  // `validation`: a ValidationError
    | Invalid(time: nat)                 // made by `bind`, once it has read everything
    | NoYield(time: nat)                 // "didn't yield"
    | YieldedTwice(gen: nat)

  predicate IsValidation(e: Error) {
    e.Invalid? || (e.Raised? && e.validation)
  }

  /** A value, what its function was given, and the generator that waits, if any. */
  datatype Value = Value(func: Func, args: seq<Value>, gen: Option<nat>)

  /** A generator that has reached its `yield`. */
  datatype Gen = Gen(func: Func, args: seq<Value>)

  datatype Outcome = Gives | Raises(error: Error) | Ends

  datatype After = Finishes | Throws(error: Error) | YieldsAgain

  /** Everything the run does not decide: what each function is and does, when
      called at a given time, and what each generator does with an error. */
  datatype World = World(
    generator: Func -> bool,
    call: (Func, nat) -> Outcome,
    read: (Func, nat) -> Option<Error>,
    resume: (nat, Option<Error>) -> After)

  datatype Event =
    | Called(func: Func, cached: bool, args: seq<Value>)
    | Entered(func: Func, cached: bool, args: seq<Value>)
    | Failed(func: Func, args: seq<Value>)
    | Rejected(func: Func)
    | Unread(func: Func)     // its own parameters raised something else than a validation error
    | Handled(args: seq<Value>)
    | Resumed(gen: nat, error: Option<Error>)

  // ---- What values are

  /** `v` is a value of `f`, made from the values it asks for, in order. */
  predicate ValueOf(v: Value, f: Func, g: Graph)
    decreases v
  {
    && v.func == f && f in g
    && |v.args| == |Wanted(g[f])|
    && forall i | 0 <= i < |v.args| :: ValueOf(v.args[i], Wanted(g[f])[i].func, g)
  }

  /** Every generator behind `v` is one of `gens`. */
  predicate From(v: Value, gens: seq<Gen>)
    decreases v
  {
    && (v.gen.Some? ==> v.gen.value < |gens| && gens[v.gen.value] == Gen(v.func, v.args))
    && forall i | 0 <= i < |v.args| :: From(v.args[i], gens)
  }

  /** The generator `k` is behind `v`, directly or through what it was made from. */
  predicate Holds(v: Value, k: nat)
    decreases v
  {
    v.gen == Some(k) || exists i :: 0 <= i < |v.args| && Holds(v.args[i], k)
  }

  predicate AllFrom(vs: seq<Value>, gens: seq<Gen>) {
    forall i | 0 <= i < |vs| :: From(vs[i], gens)
  }

  predicate AnyHolds(vs: seq<Value>, k: nat) {
    exists i :: 0 <= i < |vs| && Holds(vs[i], k)
  }

  /** The values these items ask for, in order. */
  predicate AreFor(vs: seq<Value>, items: seq<Item>, g: Graph) {
    && |vs| == |Wanted(items)|
    && forall i | 0 <= i < |vs| :: ValueOf(vs[i], Wanted(items)[i].func, g)
  }

  predicate AreValuesOf(vs: seq<Value>, f: Func, g: Graph) {
    f in g && AreFor(vs, g[f], g)
  }

  lemma {:induction false} FromMore(v: Value, gens: seq<Gen>, more: seq<Gen>)
    requires From(v, gens) && gens <= more
    ensures From(v, more)
    decreases v
  {
    forall i | 0 <= i < |v.args|
      ensures From(v.args[i], more)
    {
      FromMore(v.args[i], gens, more);
    }
  }

  lemma {:induction false} HeldIsFrom(v: Value, k: nat, gens: seq<Gen>)
    requires From(v, gens) && Holds(v, k)
    ensures k < |gens|
    decreases v
  {
    if v.gen != Some(k) {
      var i :| 0 <= i < |v.args| && Holds(v.args[i], k);
      HeldIsFrom(v.args[i], k, gens);
    }
  }

  /** `h` is among the dependencies of `p`, direct or not. */
  predicate Inside(p: Plan, h: Func)
    decreases p
  {
    exists i :: 0 <= i < |p.deps| && (p.deps[i].plan.func == h || Inside(p.deps[i].plan, h))
  }

  lemma {:induction false} InsideIsSmaller(p: Plan, h: Func, g: Graph) returns (q: Plan)
    requires IsPlanOf(p, p.func, g) && Inside(p, h)
    ensures IsPlanOf(q, h, g) && Size(q) < Size(p)
    decreases p
  {
    var i :| 0 <= i < |p.deps| && (p.deps[i].plan.func == h || Inside(p.deps[i].plan, h));
    PartIsSmaller(p, i, |p.deps|);
    if p.deps[i].plan.func == h {
      q := p.deps[i].plan;
    } else {
      q := InsideIsSmaller(p.deps[i].plan, h, g);
    }
  }

  /** What has a plan as a dependency is not among its own dependencies. A
      handler can be, through its route's: see `MemoDecides`. */
  lemma NotInsideItself(p: Plan, g: Graph)
    requires IsPlanOf(p, p.func, g)
    ensures !Inside(p, p.func)
  {
    if Inside(p, p.func) {
      var q := InsideIsSmaller(p, p.func, g);
      PlanIsUnique(p, q, p.func, g);
    }
  }

  // ---- What the log says

  predicate Early(e: Event) {
    !e.Resumed? && !e.Handled?
  }

  /** The generators that reached their `yield`, in order. */
  function EnteredIn(log: seq<Event>): seq<Gen> {
    if log == [] then []
    else
      var e := log[|log| - 1];
      EnteredIn(log[..|log| - 1]) + (if e.Entered? then [Gen(e.func, e.args)] else [])
  }

  /** How often a cached dependency on `f` was given a new value. */
  function Made(log: seq<Event>, f: Func): nat {
    if log == [] then 0
    else
      var e := log[|log| - 1];
      Made(log[..|log| - 1], f) + (if (e.Called? || e.Entered?) && e.cached && e.func == f then 1 else 0)
  }

  lemma LogMore(log: seq<Event>, e: Event)
    ensures EnteredIn(log + [e]) == EnteredIn(log) + (if e.Entered? then [Gen(e.func, e.args)] else [])
    ensures forall f :: Made(log + [e], f)
                     == Made(log, f) + (if (e.Called? || e.Entered?) && e.cached && e.func == f then 1 else 0)
  {
    assert (log + [e])[..|log|] == log;
  }

  predicate Names(e: Event, f: Func) {
    (e.Called? || e.Entered? || e.Failed? || e.Rejected? || e.Unread?) && e.func == f
  }

  /** `f` was called, or would have been but for its arguments. */
  ghost predicate Tried(log: seq<Event>, f: Func) {
    exists i :: 0 <= i < |log| && Names(log[i], f)
  }

  lemma TriedMore(log: seq<Event>, more: seq<Event>, f: Func)
    requires Tried(log, f) && log <= more
    ensures Tried(more, f)
  {
    var i :| 0 <= i < |log| && Names(log[i], f);
    assert more[i] == log[i];
  }

  lemma TriedLast(log: seq<Event>, e: Event, f: Func)
    requires Names(e, f)
    ensures Tried(log + [e], f)
  {
    assert (log + [e])[|log|] == e;
  }

  lemma {:induction false} MadeIsTried(log: seq<Event>, f: Func)
    requires Made(log, f) > 0
    ensures Tried(log, f)
  {
    if Names(log[|log| - 1], f) {
    } else {
      MadeIsTried(log[..|log| - 1], f);
      TriedMore(log[..|log| - 1], log, f);
    }
  }

  // ---- What the log says of the world

  /** The error a function fails with when it is called at a given time, if it
      does: its own, or that of a generator that ends before it yields. */
  function FailsWith(w: World, f: Func, time: nat): Option<Error> {
    match w.call(f, time)
    case Raises(e) => Some(e)
    case Ends => if w.generator(f) then Some(NoYield(time)) else None
    case Gives => None
  }

  /** An event is what the world had happen at its time. */
  ghost predicate True(w: World, e: Event, time: nat) {
    match e
    case Called(f, _, _) => !w.generator(f) && FailsWith(w, f, time).None?
    case Entered(f, _, _) => w.generator(f) && FailsWith(w, f, time).None?
    case Failed(f, _) => FailsWith(w, f, time).Some?
    case Unread(f) => w.read(f, time).Some? && !IsValidation(w.read(f, time).value)
    case _ => true
  }

  ghost predicate AllTrue(w: World, log: seq<Event>, from: nat) {
    forall i | from <= i < |log| :: True(w, log[i], i)
  }

  /** The error that the last event of a log is about. */
  function LastError(w: World, log: seq<Event>): Option<Error> {
    if log == [] then None
    else
      var time := |log| - 1;
      match log[time]
      case Failed(f, _) => FailsWith(w, f, time)
      case Rejected(_) => Some(Invalid(time))
      case Unread(f) => w.read(f, time)
      case _ => None
  }

  /** One of these dependencies failed with a validation error at `time`. */
  ghost predicate Invalidates(w: World, log: seq<Event>, time: nat, deps: seq<Dep>) {
    && time < |log|
    && (exists k :: 0 <= k < |deps| && Names(log[time], deps[k].plan.func))
    && LastError(w, log[..time + 1]).Some? && IsValidation(LastError(w, log[..time + 1]).value)
  }

  /** What makes a function's arguments invalid: its own parameters, or a dependency. */
  ghost predicate IsInvalid(w: World, log: seq<Event>, plan: Plan, from: nat) {
    && log != []
    && var own := w.read(plan.func, |log| - 1);
      || (own.Some? && IsValidation(own.value))
      || exists j: nat :: j >= from && Invalidates(w, log, j, plan.deps)
  }

  /** The first `n` dependencies were tried. */
  ghost predicate AllTried(log: seq<Event>, deps: seq<Dep>, n: nat) {
    n <= |deps| && forall k | 0 <= k < n :: Tried(log, deps[k].plan.func)
  }

  /** What is new is the value of a dependency, direct or not. */
  ghost predicate OnlyInside(had: map<Func, Value>, values: map<Func, Value>, plan: Plan) {
    forall f | f in values && f !in had :: Inside(plan, f)
  }

  lemma InsideAre(had: map<Func, Value>, values: map<Func, Value>, plan: Plan)
    requires OnlyInside(had, values, plan)
    ensures forall f | f in values && f !in had :: Inside(plan, f)
  {}

  lemma NothingYet(w: World, log: seq<Event>, plan: Plan, values: map<Func, Value>)
    ensures AllTrue(w, log, |log|) && AllTried(log, plan.deps, 0) && OnlyInside(values, values, plan)
  {}

  lemma OneMoreInside(a: map<Func, Value>, b: map<Func, Value>, c: map<Func, Value>, plan: Plan, i: nat)
    requires OnlyInside(a, b, plan) && i < |plan.deps|
    requires forall f | f in c && f !in b :: f == plan.deps[i].plan.func || Inside(plan.deps[i].plan, f)
    ensures OnlyInside(a, c, plan)
  {
    forall f | f in c && f !in a
      ensures Inside(plan, f)
    {
      if f !in b { InsidePart(plan, i, f); }
    }
  }

  lemma AllTriedMore(log: seq<Event>, more: seq<Event>, deps: seq<Dep>)
    requires log <= more
    ensures forall n | 0 <= n && AllTried(log, deps, n) :: AllTried(more, deps, n)
  {
    forall n, k | 0 <= n && AllTried(log, deps, n) && 0 <= k < n
      ensures Tried(more, deps[k].plan.func)
    {
      TriedMore(log, more, deps[k].plan.func);
    }
  }

  lemma OneMoreTried(log: seq<Event>, more: seq<Event>, deps: seq<Dep>, i: nat)
    requires AllTried(log, deps, i) && log <= more && i < |deps| && Tried(more, deps[i].plan.func)
    ensures AllTried(more, deps, i + 1)
  {
    AllTriedMore(log, more, deps);
  }

  lemma IsInvalidBecause(w: World, log: seq<Event>, plan: Plan, from: nat, invalid: bool, at: nat)
    requires log != []
    requires if invalid then at >= from && Invalidates(w, log, at, plan.deps)
             else w.read(plan.func, |log| - 1).Some? && IsValidation(w.read(plan.func, |log| - 1).value)
    ensures IsInvalid(w, log, plan, from)
  {}

  lemma AllTrueMore(w: World, log: seq<Event>, from: nat, e: Event)
    requires AllTrue(w, log, from) && True(w, e, |log|)
    ensures AllTrue(w, log + [e], from)
  {}

  lemma AllTrueTwice(w: World, log: seq<Event>, more: seq<Event>, from: nat)
    requires AllTrue(w, log, from) && AllTrue(w, more, |log|) && log <= more
    ensures AllTrue(w, more, from)
  {}

  lemma InvalidatesMore(w: World, log: seq<Event>, more: seq<Event>, deps: seq<Dep>, time: nat)
    requires Invalidates(w, log, time, deps) && log <= more
    ensures Invalidates(w, more, time, deps)
  {
    assert more[..time + 1] == log[..time + 1];
  }

  // ---- Teardown, as a function

  /** The error in force once generator `k` was resumed with `raised`. */
  function Next(w: World, k: nat, raised: Option<Error>): Option<Error> {
    match w.resume(k, raised)
    case Finishes => raised
    case Throws(e) => Some(e)
    case YieldsAgain => Some(YieldedTwice(k))
  }

  /** Resuming the first `n` generators, last first. */
  function Resumptions(w: World, n: nat, raised: Option<Error>): seq<Event> {
    if n == 0 then [] else [Resumed(n - 1, raised)] + Resumptions(w, n - 1, Next(w, n - 1, raised))
  }

  /** The error in force after that. */
  function Final(w: World, n: nat, raised: Option<Error>): Option<Error> {
    if n == 0 then raised else Final(w, n - 1, Next(w, n - 1, raised))
  }

  /** What the log says of a value just made. */
  function Making(dep: Dep, args: seq<Value>, w: World): Event {
    if w.generator(dep.plan.func) then Entered(dep.plan.func, dep.cached, args)
    else Called(dep.plan.func, dep.cached, args)
  }

  class Run {
    var values: map<Func, Value>
    var teardowns: seq<Gen>
    var onClose: bool   // the response is being streamed: the teardown waits for its end
    var log: seq<Event>

    ghost predicate Valid(g: Graph)
      reads this
    {
      && GoodValues(values, teardowns, g)
      && GoodGens(teardowns, g)
      && EnteredIn(log) == teardowns
      && (forall f :: Made(log, f) == if f in values then 1 else 0)
      && (forall i | 0 <= i < |log| :: Early(log[i]))
    }

    constructor ()
      ensures fresh(this)
      ensures log == [] && teardowns == [] && !onClose
      ensures forall g :: Valid(g)
    {
      values, teardowns, onClose, log := map[], [], false, [];
    }

    /** The value of a dependency: the one it already has in this run if it is
        cached, and otherwise a new one, made from its own dependencies. */
    method Resolve(dep: Dep, w: World, ghost g: Graph) returns (r: Result<Value, Error>)
      requires Valid(g) && IsPlanOf(dep.plan, dep.plan.func, g)
      modifies this
      ensures Valid(g) && onClose == old(onClose)
      ensures Grew(old(teardowns), teardowns, old(log), log, old(values), values)
      ensures forall f | f in values && f !in old(values) :: f == dep.plan.func || Inside(dep.plan, f)
      ensures r.Ok? ==> ValueOf(r.value, dep.plan.func, g) && From(r.value, teardowns)
      ensures r.Ok? && dep.cached ==> dep.plan.func in values && values[dep.plan.func] == r.value
      ensures dep.cached && dep.plan.func in old(values) ==> r == Ok(old(values)[dep.plan.func]) && log == old(log)
      ensures r.Ok? && !(dep.cached && dep.plan.func in old(values)) ==>
                && |log| > |old(log)| && log[|log| - 1] == Making(dep, r.value.args, w)
                && (r.value.gen.Some? <==> w.generator(dep.plan.func))
                && (r.value.gen.Some? ==> |teardowns| == r.value.gen.value + 1)
      ensures r.Ok? || IsValidation(r.error) ==> Tried(log, dep.plan.func)
      ensures AllTrue(w, log, |old(log)|)
      ensures r.Err? ==> |log| > |old(log)| && LastError(w, log) == Some(r.error)
      ensures r.Err? && IsValidation(r.error) ==> Names(log[|log| - 1], dep.plan.func)
      decreases dep.plan, 1
    {
      hide True, AllTrue, LastError, OnlyInside, IsInvalid, AllTried, IsPlanOf, Planned, ValueOf, From, Inside, EnteredIn, Made, AreFor, GoodValues, GoodGens, Grew, Tried;
      var func := dep.plan.func;
      if dep.cached && func in values {
        ValueIsGood(values, teardowns, g, func);
        MadeIsTried(log, func);
        NothingYet(w, log, dep.plan, values);
        SameGrew(teardowns, log, values);
        return Ok(values[func]);
      }
      PlanOfDeps(dep.plan, func, g);
      var bound := Bind(dep.plan, w, g[func], g);
      InsideAre(old(values), values, dep.plan);
      if bound.Err? {
        return Err(bound.error);
      }
      NotInsideItself(dep.plan, g);
      LogKept(old(teardowns), teardowns, old(log), log, old(values), values);
      var args := bound.value;
      var outcome := w.call(func, |log|);
      var time := |log|;
      if outcome.Raises? || (outcome.Ends? && w.generator(func)) {
        FailedIsTrue(w, func, args, log);
        TriedLast(log, Failed(func, args), func);
        Note(Failed(func, args), w, old(teardowns), |old(log)|, old(log), old(values), g);
        return Err(if outcome.Raises? then outcome.error else NoYield(time));
      }
      var gens := if w.generator(func) then [Gen(func, args)] else [];
      var value := Value(func, args, if w.generator(func) then Some(|teardowns|) else None);
      var event := Making(dep, args, w);
      assert True(w, event, time) by { MakingIsTrue(w, dep, args, time); }
      AllTrueMore(w, log, |old(log)|, event);
      ValueMade(value, teardowns, gens, g, values);
      LogMore(log, event);
      TriedLast(log, event, func);
      GrewMore(old(teardowns), teardowns, gens, old(log), log, event, old(values), values);
      log := log + [event];
      teardowns := teardowns + gens;
      if dep.cached {
        GrewValue(old(teardowns), teardowns, old(log), log, old(values), values, func, value);
        values := values[func := value];
      }
      r := Ok(value);
    }

    /** The arguments of a plan's function: the value of every dependency, in
        order. A validation error lets the others go on, and fails the whole. */
    method Bind(plan: Plan, w: World, ghost items: seq<Item>, ghost g: Graph) returns (r: Result<seq<Value>, Error>)
      requires Valid(g) && Planned(plan.deps, items, g)
      modifies this
      ensures Valid(g) && onClose == old(onClose)
      ensures Grew(old(teardowns), teardowns, old(log), log, old(values), values)
      ensures OnlyInside(old(values), values, plan)
      ensures AllTrue(w, log, |old(log)|)
      ensures r.Ok? ==> AreFor(r.value, items, g) && AllFrom(r.value, teardowns) && w.read(plan.func, |log|).None?
      ensures r.Err? ==> |log| > |old(log)| && LastError(w, log) == Some(r.error)
      ensures r.Err? && IsValidation(r.error) ==>
                && log[|log| - 1] == Rejected(plan.func) && r.error == Invalid(|log| - 1)
                && Tried(log, plan.func) && AllTried(log, plan.deps, |plan.deps|)
                && IsInvalid(w, log, plan, |old(log)|)
      decreases plan, 0
    {
      hide LastError, AllTrue, Invalidates, True, Tried, AllTried, OnlyInside, IsInvalid;
      hide ValueOf, From, EnteredIn, Made, GoodValues, GoodGens, Grew, AreFor, Planned, IsPlanOf;
      var args: seq<Value>, invalid := [], false;
      ghost var at: nat := 0;
      SameGrew(teardowns, log, values);
      NothingYet(w, log, plan, values);
      for i := 0 to |plan.deps|
        invariant Valid(g) && onClose == old(onClose) && |log| >= |old(log)|
        invariant Grew(old(teardowns), teardowns, old(log), log, old(values), values)
        invariant OnlyInside(old(values), values, plan)
        invariant !invalid ==> BoundUpTo(args, plan, i, g) && AllFrom(args, teardowns)
        invariant AllTried(log, plan.deps, i)
        invariant AllTrue(w, log, |old(log)|)
        invariant invalid ==> at >= |old(log)| && Invalidates(w, log, at, plan.deps)
      {
        PartIsPlan(plan, items, i, g);
        ghost var gens, was, had := teardowns, log, values;
        var found := Resolve(plan.deps[i], w, g);
        GrewTwice(old(teardowns), gens, teardowns, old(log), was, log, old(values), had, values);
        LogKept(gens, teardowns, was, log, had, values);
        AllTrueTwice(w, was, log, |old(log)|);
        OneMoreInside(old(values), had, values, plan, i);
        if invalid { InvalidatesMore(w, was, log, plan.deps, at); }
        match found {
          case Err(e) =>
            if !IsValidation(e) {
              return Err(e);
            }
            JustInvalidated(w, log, plan.deps, i);
            invalid, at := true, |log| - 1;
          case Ok(value) =>
            if !invalid {
              AllFromMore(args, gens, teardowns);
            }
            args := args + [value];
        }
        OneMoreTried(was, log, plan.deps, i);
      }
      var own := w.read(plan.func, |log|);
      if own.Some? && !IsValidation(own.value) {
        UnreadIsTrue(w, plan.func, log);
        Note(Unread(plan.func), w, old(teardowns), |old(log)|, old(log), old(values), g);
        return Err(own.value);
      }
      if invalid || own.Some? {
        var time := |log|;
        RejectedIsTrue(w, plan.func, log);
        TriedLast(log, Rejected(plan.func), plan.func);
        AllTriedMore(log, log + [Rejected(plan.func)], plan.deps);
        if invalid { InvalidatesMore(w, log, log + [Rejected(plan.func)], plan.deps, at); }
        IsInvalidBecause(w, log + [Rejected(plan.func)], plan, |old(log)|, invalid, at);
        Note(Rejected(plan.func), w, old(teardowns), |old(log)|, old(log), old(values), g);
        return Err(Invalid(time));
      }
      BoundAll(args, plan, items, g);
      r := Ok(args);
    }

    /** Keeps in the log why a function gives no value. */
    method Note(e: Event, w: World, ghost gens: seq<Gen>, ghost from: nat, ghost was: seq<Event>, ghost had: map<Func, Value>, ghost g: Graph)
      requires Valid(g) && (e.Rejected? || e.Unread? || e.Failed?) && True(w, e, |log|)
      requires AllTrue(w, log, from) && Grew(gens, teardowns, was, log, had, values)
      modifies this`log
      ensures Valid(g) && log == old(log) + [e]
      ensures AllTrue(w, log, from) && Grew(gens, teardowns, was, log, had, values)
    {
      hide True, AllTrue, EnteredIn, Made, GoodValues, GoodGens, Grew;
      AllTrueMore(w, log, from, e);
      LogMore(log, e);
      GrewMore(gens, teardowns, [], was, log, e, had, values);
      assert teardowns + [] == teardowns;
      log := log + [e];
    }

    /** Tears down what waits at its `yield`, last first, each with the latest
        error. Raises the last one, unless it is the one given. */
    method Close(error: Option<Error>, w: World) returns (raises: Option<Error>)
      modifies this
      ensures teardowns == [] && values == old(values) && onClose == old(onClose)
      ensures log == old(log) + Resumptions(w, |old(teardowns)|, error)
      ensures var final := Final(w, |old(teardowns)|, error);
        (raises.Some? <==> final != error) && (raises.Some? ==> raises == final)
    {
      var waiting := teardowns;
      teardowns := [];
      var raised := error;
      var n: nat := |waiting|;
      while n > 0
        invariant teardowns == [] && values == old(values) && onClose == old(onClose)
        invariant n <= |waiting|
        invariant log + Resumptions(w, n, raised) == old(log) + Resumptions(w, |waiting|, error)
        invariant Final(w, n, raised) == Final(w, |waiting|, error)
        invariant error.Some? ==> raised.Some?
      {
        n := n - 1;
        ghost var rest := Resumptions(w, n, Next(w, n, raised));
        assert log + ([Resumed(n, raised)] + rest) == log + [Resumed(n, raised)] + rest;
        log := log + [Resumed(n, raised)];
        match w.resume(n, raised) {
          case Finishes =>
          case Throws(latest) =>
            if raised != Some(latest) {
              raised := Some(latest);
            }
          case YieldsAgain =>
            raised := Some(YieldedTwice(n));
        }
      }
      assert log + [] == log;
      raises := if raised.Some? && raised != error then raised else None;
    }

    /** Answers a request: binds the handler's plan, calls it, and closes, at
        once or, for a streamed response, in `Finish`. `calls` is what was
        logged before the teardown, `error` what ended it, if anything. */
    method Serve(plan: Plan, w: World, streamed: bool, ghost own: seq<Item>, ghost g: Graph)
      returns (r: Result<seq<Value>, Error>, ghost calls: seq<Event>, ghost error: Option<Error>)
      requires Valid(g) && log == [] && !onClose && plan.func in g && Planned(plan.deps, Items(own, plan.func, g), g)
      modifies this
      ensures Sequenced(calls)
      ensures r.Ok? && streamed ==>
                log == calls && teardowns == EnteredIn(calls) && error.None? && onClose == (teardowns != [])
      ensures !(r.Ok? && streamed) ==> !onClose && log == calls + Resumptions(w, |EnteredIn(calls)|, error)
      ensures !streamed || error.Some? ==> r.Err? == Final(w, |EnteredIn(calls)|, error).Some?
      ensures r.Err? ==> Some(r.error) == Final(w, |EnteredIn(calls)|, error)
      ensures AllTrue(w, calls, 0) && calls != [] && forall i | 0 <= i < |calls| - 1 :: Early(calls[i])
      ensures var last := |calls| - 1;
        if calls[last].Handled? then
          && AreFor(calls[last].args, Items(own, plan.func, g), g)
          && w.read(plan.func, last).None?
          && error == (match w.call(plan.func, last) case Raises(e) => Some(e) case _ => None)
        else error.Some? && error == LastError(w, calls)
      ensures r.Ok? ==> calls[|calls| - 1] == Handled(r.value) && error.None?
    {
      hide True, ValueOf, From, EnteredIn, Made, GoodValues, AreFor, Inside, Planned, Grew;
      var bound := Bind(plan, w, Items(own, plan.func, g), g);
      calls, error := log, if bound.Err? then Some(bound.error) else None;
      if bound.Ok? {
        var outcome := w.call(plan.func, |log|);
        SequencedMore(log, Handled(bound.value));
        LogMore(log, Handled(bound.value));
        assert True(w, Handled(bound.value), |log|) by { HandledIsTrue(w, bound.value, |log|); }
        AllTrueMore(w, log, 0, Handled(bound.value));
        log := log + [Handled(bound.value)];
        calls, error := log, if outcome.Raises? then Some(outcome.error) else None;
        if !outcome.Raises? {
          if streamed {
            onClose := teardowns != [];
            return Ok(bound.value), calls, error;
          }
          var another := Close(None, w);
          return if another.Some? then Err(another.value) else Ok(bound.value), calls, error;
        }
        bound := Err(outcome.error);
      }
      var another := Close(Some(bound.error), w);
      FinalKeepsError(w, |EnteredIn(calls)|, bound.error);
      r := Err(if another.Some? then another.value else bound.error);
    }

    /** What waited for a streamed response to end, run once however often this is called. */
    method Finish(w: World) returns (failure: Option<Error>)
      modifies this
      ensures !onClose
      ensures if old(onClose) then teardowns == [] && log == old(log) + Resumptions(w, |old(teardowns)|, None)
              else teardowns == old(teardowns) && log == old(log)
      ensures failure == if old(onClose) then Final(w, |old(teardowns)|, None) else None
    {
      failure := None;
      if onClose {
        onClose := false;
        failure := Close(None, w);
      }
    }
  }

  lemma FailedIsTrue(w: World, f: Func, args: seq<Value>, log: seq<Event>)
    requires FailsWith(w, f, |log|).Some?
    ensures True(w, Failed(f, args), |log|) && LastError(w, log + [Failed(f, args)]) == FailsWith(w, f, |log|)
  {}

  lemma MakingIsTrue(w: World, dep: Dep, args: seq<Value>, time: nat)
    requires FailsWith(w, dep.plan.func, time).None?
    ensures True(w, Making(dep, args, w), time)
  {}

  lemma UnreadIsTrue(w: World, f: Func, log: seq<Event>)
    requires w.read(f, |log|).Some? && !IsValidation(w.read(f, |log|).value)
    ensures True(w, Unread(f), |log|) && LastError(w, log + [Unread(f)]) == w.read(f, |log|)
  {}

  lemma RejectedIsTrue(w: World, f: Func, log: seq<Event>)
    ensures True(w, Rejected(f), |log|) && LastError(w, log + [Rejected(f)]) == Some(Invalid(|log|))
  {}

  lemma HandledIsTrue(w: World, args: seq<Value>, time: nat)
    ensures True(w, Handled(args), time)
  {}

  lemma JustInvalidated(w: World, log: seq<Event>, deps: seq<Dep>, i: nat)
    requires log != [] && i < |deps| && Names(log[|log| - 1], deps[i].plan.func)
    requires LastError(w, log).Some? && IsValidation(LastError(w, log).value)
    ensures Invalidates(w, log, |log| - 1, deps)
  {
    assert log[..|log| - 1 + 1] == log;
  }

  // ---- The pieces of `Valid`

  ghost predicate GoodValues(values: map<Func, Value>, gens: seq<Gen>, g: Graph) {
    forall f | f in values :: ValueOf(values[f], f, g) && From(values[f], gens)
  }

  ghost predicate GoodGens(gens: seq<Gen>, g: Graph) {
    forall k | 0 <= k < |gens| :: AreValuesOf(gens[k].args, gens[k].func, g) && AllFrom(gens[k].args, gens[..k])
  }

  /** What a step may do to a run: add to it. */
  ghost predicate Grew(
    gens: seq<Gen>, gens': seq<Gen>, log: seq<Event>, log': seq<Event>,
    values: map<Func, Value>, values': map<Func, Value>)
  {
    && gens <= gens'
    && log <= log'
    && forall f | f in values :: f in values' && values'[f] == values[f]
  }

  lemma LogKept(
    gens: seq<Gen>, gens': seq<Gen>, log: seq<Event>, log': seq<Event>,
    values: map<Func, Value>, values': map<Func, Value>)
    requires Grew(gens, gens', log, log', values, values')
    ensures log <= log'
  {}

  lemma SameGrew(gens: seq<Gen>, log: seq<Event>, values: map<Func, Value>)
    ensures Grew(gens, gens, log, log, values, values)
  {}

  lemma GrewTwice(
    a: seq<Gen>, b: seq<Gen>, c: seq<Gen>, l: seq<Event>, m: seq<Event>, n: seq<Event>,
    x: map<Func, Value>, y: map<Func, Value>, z: map<Func, Value>)
    requires Grew(a, b, l, m, x, y) && Grew(b, c, m, n, y, z)
    ensures Grew(a, c, l, n, x, z) && b <= c
  {}

  lemma GrewMore(
    a: seq<Gen>, b: seq<Gen>, more: seq<Gen>, l: seq<Event>, m: seq<Event>, e: Event,
    x: map<Func, Value>, y: map<Func, Value>)
    requires Grew(a, b, l, m, x, y)
    ensures Grew(a, b + more, l, m + [e], x, y)
  {}

  lemma GrewValue(
    a: seq<Gen>, b: seq<Gen>, l: seq<Event>, m: seq<Event>,
    x: map<Func, Value>, y: map<Func, Value>, f: Func, v: Value)
    requires Grew(a, b, l, m, x, y) && f !in y
    ensures Grew(a, b, l, m, x, y[f := v])
  {}

  lemma ValueIsGood(values: map<Func, Value>, gens: seq<Gen>, g: Graph, f: Func)
    requires GoodValues(values, gens, g) && f in values
    ensures ValueOf(values[f], f, g) && From(values[f], gens)
  {}

  /** A new value, and the generator it may come from, fit in. */
  lemma ValueMade(v: Value, gens: seq<Gen>, more: seq<Gen>, g: Graph, values: map<Func, Value>)
    requires AreValuesOf(v.args, v.func, g) && AllFrom(v.args, gens)
    requires GoodValues(values, gens, g) && GoodGens(gens, g)
    requires v.gen == (if more == [] then None else Some(|gens|)) && more <= [Gen(v.func, v.args)]
    ensures ValueOf(v, v.func, g) && From(v, gens + more)
    ensures GoodValues(values, gens + more, g) && GoodValues(values[v.func := v], gens + more, g)
    ensures GoodGens(gens + more, g)
  {
    hide ValueOf;
    assert ValueOf(v, v.func, g) by { ValueIsOf(v, g); }
    AllFromMore(v.args, gens, gens + more);
    forall f | f in values
      ensures From(values[f], gens + more)
    {
      FromMore(values[f], gens, gens + more);
    }
    forall k | 0 <= k < |gens + more|
      ensures AreValuesOf((gens + more)[k].args, (gens + more)[k].func, g)
      ensures AllFrom((gens + more)[k].args, (gens + more)[..k])
    {
      assert (gens + more)[..k] == if k < |gens| then gens[..k] else gens;
    }
  }

  lemma ValueIsOf(v: Value, g: Graph)
    requires AreValuesOf(v.args, v.func, g)
    ensures ValueOf(v, v.func, g)
  {}

  lemma AllFromMore(vs: seq<Value>, gens: seq<Gen>, more: seq<Gen>)
    requires AllFrom(vs, gens) && gens <= more
    ensures AllFrom(vs, more)
  {
    forall i | 0 <= i < |vs|
      ensures From(vs[i], more)
    {
      FromMore(vs[i], gens, more);
    }
  }

  lemma PartIsPlan(p: Plan, items: seq<Item>, i: nat, g: Graph)
    requires Planned(p.deps, items, g) && i < |p.deps|
    ensures IsPlanOf(p.deps[i].plan, p.deps[i].plan.func, g)
  {}

  lemma InsidePart(p: Plan, i: nat, f: Func)
    requires i < |p.deps| && (f == p.deps[i].plan.func || Inside(p.deps[i].plan, f))
    ensures Inside(p, f)
  {}

  /** The values of the first `n` dependencies of a plan. */
  ghost predicate BoundUpTo(args: seq<Value>, p: Plan, n: nat, g: Graph) {
    n == |args| <= |p.deps| && forall i | 0 <= i < n :: ValueOf(args[i], p.deps[i].plan.func, g)
  }

  lemma BoundAll(args: seq<Value>, p: Plan, items: seq<Item>, g: Graph)
    requires BoundUpTo(args, p, |p.deps|, g) && Planned(p.deps, items, g)
    ensures AreFor(args, items, g)
  {
    hide ValueOf;
    forall i | 0 <= i < |p.deps|
      ensures p.deps[i].plan.func == Wanted(items)[i].func
    {
      PlanOfDeps(p.deps[i].plan, Wanted(items)[i].func, g);
    }
  }

  // ---- Resources outlive their users

  /** Whether the value of generator `k` was given to what `e` records. */
  predicate Uses(e: Event, k: nat) {
    (e.Called? || e.Entered? || e.Failed? || e.Handled?) && AnyHolds(e.args, k)
  }

  /** A log without teardowns, each generator in it made from earlier ones. */
  ghost predicate Sequenced(calls: seq<Event>) {
    && (forall i | 0 <= i < |calls| :: !calls[i].Resumed?)
    && var gens := EnteredIn(calls);
      forall k | 0 <= k < |gens| :: AllFrom(gens[k].args, gens[..k])
  }

  lemma SequencedMore(log: seq<Event>, e: Event)
    requires Sequenced(log) && e.Handled?
    ensures Sequenced(log + [e])
  {
    LogMore(log, e);
    assert EnteredIn(log) + [] == EnteredIn(log);
  }

  /** Generator `k` is resumed at `p` and never again, after everything that was
      given its value, and after every generator made from it. */
  ghost predicate EndsAt(log: seq<Event>, gens: seq<Gen>, k: nat, p: nat) {
    && p < |log| && log[p].Resumed? && log[p].gen == k
    && forall q | 0 <= q < |log| :: EndsAfter(log[q], gens, k, q, p)
  }

  ghost predicate EndsAfter(e: Event, gens: seq<Gen>, k: nat, q: nat, p: nat) {
    && (e.Resumed? && e.gen == k ==> q == p)
    && (Uses(e, k) ==> q < p)
    && (e.Resumed? && e.gen < |gens| && AnyHolds(gens[e.gen].args, k) ==> q < p)
  }

  ghost predicate EndsOnce(log: seq<Event>, gens: seq<Gen>, k: nat) {
    exists p: nat :: EndsAt(log, gens, k, p)
  }

  /** Every generator that reached its `yield` ends so. */
  ghost predicate Outlives(log: seq<Event>) {
    var gens := EnteredIn(log);
    forall k | 0 <= k < |gens| :: EndsOnce(log, gens, k)
  }

  /** The main result about teardown. `Serve` and `Finish` leave logs of this form. */
  lemma ResourcesOutliveTheirUsers(calls: seq<Event>, w: World, error: Option<Error>)
    requires Sequenced(calls)
    ensures Outlives(calls + Resumptions(w, |EnteredIn(calls)|, error))
  {
    var gens := EnteredIn(calls);
    var n := |gens|;
    EnteredBefore(calls, w, n, error);
    forall k | 0 <= k < n
      ensures EndsOnce(calls + Resumptions(w, n, error), gens, k)
    {
      EndsWhere(calls, gens, w, error, k);
    }
  }

  lemma EndsWhere(calls: seq<Event>, gens: seq<Gen>, w: World, error: Option<Error>, k: nat)
    requires Sequenced(calls) && gens == EnteredIn(calls) && k < |gens|
    ensures EndsAt(calls + Resumptions(w, |gens|, error), gens, k, |calls| + |gens| - 1 - k)
  {
    hide EndsAfter, EnteredIn, Resumptions, Sequenced;
    var n := |gens|;
    var ends := Resumptions(w, n, error);
    var log := calls + ends;
    var p := |calls| + n - 1 - k;
    ResumptionAt(w, n, error, n - 1 - k);
    assert log[p] == ends[n - 1 - k];
    forall q | 0 <= q < |log|
      ensures EndsAfter(log[q], gens, k, q, p)
    {
      if q < |calls| {
        CallEndsBefore(calls, gens, k, q, p);
        assert log[q] == calls[q];
      } else {
        ResumptionAt(w, n, error, q - |calls|);
        assert log[q] == ends[q - |calls|];
        ResumedEndsAfter(calls, gens, k, log[q], q, p);
      }
    }
  }

  lemma CallEndsBefore(calls: seq<Event>, gens: seq<Gen>, k: nat, q: nat, p: nat)
    requires Sequenced(calls) && q < |calls| <= p
    ensures EndsAfter(calls[q], gens, k, q, p)
  {
    hide EnteredIn;
  }

  lemma ResumedEndsAfter(calls: seq<Event>, gens: seq<Gen>, k: nat, e: Event, q: nat, p: nat)
    requires Sequenced(calls) && gens == EnteredIn(calls) && k < |gens|
    requires e.Resumed? && p == |calls| + |gens| - 1 - k && q == |calls| + |gens| - 1 - e.gen
    ensures EndsAfter(e, gens, k, q, p)
  {
    hide EnteredIn, AnyHolds;
    if e.gen < |gens| && AnyHolds(gens[e.gen].args, k) {
      HeldIsEarlier(gens[e.gen].args, k, gens[..e.gen]);
    }
  }

  lemma HeldIsEarlier(vs: seq<Value>, k: nat, gens: seq<Gen>)
    requires AllFrom(vs, gens) && AnyHolds(vs, k)
    ensures k < |gens|
  {
    var i :| 0 <= i < |vs| && Holds(vs[i], k);
    HeldIsFrom(vs[i], k, gens);
  }

  lemma {:induction false} ResumptionCount(w: World, n: nat, raised: Option<Error>)
    ensures |Resumptions(w, n, raised)| == n
  {
    if n > 0 {
      ResumptionCount(w, n - 1, Next(w, n - 1, raised));
    }
  }

  lemma {:induction false} ResumptionAt(w: World, n: nat, raised: Option<Error>, i: nat)
    requires i < n
    ensures var ends := Resumptions(w, n, raised);
      |ends| == n && ends[i].Resumed? && ends[i].gen == n - 1 - i
  {
    ResumptionCount(w, n, raised);
    if i > 0 {
      ResumptionAt(w, n - 1, Next(w, n - 1, raised), i - 1);
    }
  }

  lemma {:induction false} EnteredBefore(calls: seq<Event>, w: World, n: nat, raised: Option<Error>)
    ensures EnteredIn(calls + Resumptions(w, n, raised)) == EnteredIn(calls)
    decreases n
  {
    var ends := Resumptions(w, n, raised);
    if n == 0 {
      assert calls + ends == calls;
    } else {
      var e := Resumed(n - 1, raised);
      LogMore(calls, e);
      EnteredBefore(calls + [e], w, n - 1, Next(w, n - 1, raised));
      assert calls + ends == calls + [e] + Resumptions(w, n - 1, Next(w, n - 1, raised));
    }
  }

  // ---- Which error

  /** The error a teardown raised anew, if it did. */
  function RaisedBy(w: World, e: Event): Option<Error>
    requires e.Resumed?
  {
    match w.resume(e.gen, e.error)
    case Finishes => None
    case Throws(x) => Some(x)
    case YieldsAgain => Some(YieldedTwice(e.gen))
  }

  /** Looking back from the end: the last error a teardown raised, or else the first one. */
  function Latest(w: World, ends: seq<Event>, error: Option<Error>): Option<Error>
    requires forall i | 0 <= i < |ends| :: ends[i].Resumed?
  {
    if ends == [] then error
    else
      var last := RaisedBy(w, ends[|ends| - 1]);
      if last.Some? then last else Latest(w, ends[..|ends| - 1], error)
  }

  /** Each teardown receives the latest error of those before it, and the run
      ends with the latest of all: catching one does not swallow it. */
  lemma {:induction false} TeardownsGetTheLatest(w: World, n: nat, error: Option<Error>, i: nat)
    requires i <= n
    ensures var ends := Resumptions(w, n, error);
      && |ends| == n && (forall j | 0 <= j < n :: ends[j].Resumed?)
      && (i < n ==> ends[i].error == Latest(w, ends[..i], error))
      && (i == n ==> Final(w, n, error) == Latest(w, ends[..i], error))
    decreases n
  {
    var ends := Resumptions(w, n, error);
    ResumptionCount(w, n, error);
    forall j | 0 <= j < n ensures ends[j].Resumed? { ResumptionAt(w, n, error, j); }
    if i > 0 {
      var next := Next(w, n - 1, error);
      TeardownsGetTheLatest(w, n - 1, next, i - 1);
      assert ends[1..] == Resumptions(w, n - 1, next);
      assert ends[..i] == [ends[0]] + ends[1..][..i - 1];
      LatestAfter(w, ends[0], ends[1..][..i - 1], error);
    }
  }

  lemma {:induction false} LatestAfter(w: World, first: Event, ends: seq<Event>, error: Option<Error>)
    requires first.Resumed? && first.error == error && forall i | 0 <= i < |ends| :: ends[i].Resumed?
    ensures Latest(w, [first] + ends, error) == Latest(w, ends, Next(w, first.gen, error))
    decreases |ends|
  {
    var all := [first] + ends;
    if ends == [] {
      assert all[..|all| - 1] == [];
    } else {
      assert all[..|all| - 1] == [first] + ends[..|ends| - 1] && all[|all| - 1] == ends[|ends| - 1];
      LatestAfter(w, first, ends[..|ends| - 1], error);
    }
  }

  lemma {:induction false} FinalKeepsError(w: World, n: nat, error: Error)
    ensures Final(w, n, Some(error)).Some?
  {
    if n > 0 {
      FinalKeepsError(w, n - 1, Next(w, n - 1, Some(error)).value);
    }
  }
}
