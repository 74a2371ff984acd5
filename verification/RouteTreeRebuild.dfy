/** Registering a listing again, in the order listed, gives a tree that answers
    every lookup as the first one did, custom constraints included
    (src/tree.rs:334-373, src/path.rs:84-94). */
module RouteTreeRebuild {
  import opened Wrappers
  import opened Path
  import opened RouteTree
  import opened RouteTreeMap
  import opened RouteTreeFind
  import opened RouteTreeOrder

  type Registrations<T> = seq<Registration<T>>

  /** The entries `collect_routes` pushes for one pattern. */
  function SlotEntries<T>(p: Pattern, ms: Methods<T>): (r: Registrations<T>)
    ensures |r| == |ms|
    ensures forall i | 0 <= i < |ms| :: r[i] == Registration(p, ms[i].verb, ms[i].route)
  {
    seq(|ms|, i requires 0 <= i < |ms| => Registration(p, ms[i].verb, ms[i].route))
  }

  /** The listing as `routes()` returns it. */
  function Entries<T>(slots: Slots<T>): Registrations<T> {
    if slots == [] then [] else SlotEntries(slots[0].pattern, slots[0].methods) + Entries(slots[1..])
  }

  function Below<T>(seg: Segment, rs: Registrations<T>): (r: Registrations<T>)
    ensures |r| == |rs|
    ensures forall i | 0 <= i < |rs| :: r[i] == Registration([seg] + rs[i].pattern, rs[i].verb, rs[i].route)
  {
    seq(|rs|, i requires 0 <= i < |rs| => Registration([seg] + rs[i].pattern, rs[i].verb, rs[i].route))
  }

  lemma {:induction false} EntriesConcat<T>(a: Slots<T>, b: Slots<T>)
    ensures Entries(a + b) == Entries(a) + Entries(b)
  {
    if a == [] {
      assert a + b == b;
    } else {
      assert (a + b)[0] == a[0] && (a + b)[1..] == a[1..] + b;
      EntriesConcat(a[1..], b);
    }
  }

  lemma {:induction false} EntriesUnder<T>(seg: Segment, slots: Slots<T>)
    ensures Entries(Under(seg, slots)) == Below(seg, Entries(slots))
  {
    if slots != [] {
      assert Under(seg, slots)[1..] == Under(seg, slots[1..]);
      EntriesUnder(seg, slots[1..]);
    }
  }

  lemma {:induction false} InsertAllConcat<T>(t: Tree<T>, a: Registrations<T>, b: Registrations<T>, defined: Constraints)
    ensures InsertAll(t, a + b, defined) ==
      match InsertAll(t, a, defined) case None => None case Some(u) => InsertAll(u, b, defined)
    decreases |b|
  {
    hide Insert;
    if b == [] {
      assert a + b == a;
    } else {
      assert (a + b)[..|a + b| - 1] == a + b[..|b| - 1];
      InsertAllConcat(t, a, b[..|b| - 1], defined);
    }
  }

  // ---- Inserting below one segment

  lemma SetParamTwice<T>(ps: seq<ParamChild<T>>, p: ParamChild<T>, q: ParamChild<T>, defined: Constraints)
    requires ValidParams(ps, defined) && p.constraint == q.constraint && p.custom == CustomOf(defined, p.constraint)
    requires p.constraint.Custom? ==> p.constraint.index < |defined|
    ensures SetParam(SetParam(ps, p), q) == SetParam(ps, q)
  {
    hide ParamIndex, ValidParams, CustomOf;
    var r := SetParam(ps, p);
    SetParamValid(ps, p, defined);
    var i := match ParamIndex(ps, p.constraint) case Some(i) => i case None => NewParamPlace(ps);
    assert r[i] == p;
    ParamForIs(r, defined, i);
    assert r[i := q] == SetParam(ps, q);
  }

  lemma SetChildTwice<T>(t: Tree<T>, seg: Segment, a: Tree<T>, b: Tree<T>, defined: Constraints)
    requires Valid(t, defined) && SegmentDefined(seg, defined)
    ensures SetChild(SetChild(t, seg, a, defined), seg, b, defined) == SetChild(t, seg, b, defined)
  {
    hide SetParam;
    match seg
    case Literal(text) => assert t.literals[text := a][text := b] == t.literals[text := b];
    case Param(name, c) =>
      SetParamTwice(t.params, ParamChild(name, c, CustomOf(defined, c), a), ParamChild(name, c, CustomOf(defined, c), b), defined);
    case Wildcard(_) =>
  }

  /** Entries that all start with `seg` only build the subtree below it. */
  lemma {:induction false} InsertAllBelow<T>(t: Tree<T>, seg: Segment, rs: Registrations<T>, defined: Constraints)
    requires Valid(t, defined) && SegmentDefined(seg, defined) && !seg.Wildcard? && Clash(t, seg).None?
    ensures InsertAll(t, Below(seg, rs), defined) ==
      if rs == [] then Some(t)
      else match InsertAll(Child(t, seg), rs, defined)
        case None => None
        case Some(u) => Some(SetChild(t, seg, u, defined))
  {
    hide Child, SetChild, Clash, Insert;
    if rs != [] {
      var init, last := rs[..|rs| - 1], rs[|rs| - 1];
      var below := Below(seg, rs);
      assert below[..|rs| - 1] == Below(seg, init);
      InsertAllBelow(t, seg, init, defined);
      var u := InsertAll(Child(t, seg), init, defined);
      if u.Some? {
        var v := if init == [] then t else SetChild(t, seg, u.value, defined);
        SetChildChild(t, seg, u.value, defined, seg);
        InsertBelow(v, seg, last, defined);
        SetChildTwice(t, seg, u.value, Insert(u.value, AsSteps(last.pattern), last.verb, last.route, defined).tree, defined);
      }
    }
  }

  lemma InsertBelow<T>(t: Tree<T>, seg: Segment, r: Registration<T>, defined: Constraints)
    requires !seg.Wildcard? && Clash(t, seg).None?
    ensures var below := Insert(Child(t, seg), AsSteps(r.pattern), r.verb, r.route, defined);
      Insert(t, AsSteps([seg] + r.pattern), r.verb, r.route, defined) ==
        Inserted(SetChild(t, seg, below.tree, defined), below.error)
  {
    hide Child, SetChild;
    assert AsSteps([seg] + r.pattern)[1..] == AsSteps(r.pattern);
  }

  // ---- The four parts of a node

  lemma {:induction false} RebuildOwn<T>(t: Tree<T>, ms: Methods<T>, defined: Constraints)
    requires Distinct(ms) && t.methods == []
    ensures InsertAll(t, SlotEntries([], ms), defined) == Some(t.(methods := ms))
  {
    if ms == [] {
      assert t.(methods := []) == t;
    } else {
      var init, last := ms[..|ms| - 1], ms[|ms| - 1];
      assert SlotEntries([], ms)[..|ms| - 1] == SlotEntries([], init);
      RebuildOwn(t, init, defined);
      assert MethodIndex(init, last.verb) == None;
      assert init + [last] == ms;
      assert AsSteps([]) == [];
    }
  }

  lemma {:induction false} RebuildWildcard<T>(t: Tree<T>, name: string, ms: Methods<T>, defined: Constraints)
    requires Distinct(ms) && t.wildcard.None?
    ensures InsertAll(t, SlotEntries([Wildcard(name)], ms), defined) == Some(WithWildcard(t, name, ms))
  {
    hide Insert, WithWildcard, AsSteps;
    if ms == [] {
      assert WithWildcard(t, name, ms) == t by { NoWildcardAdded(t, name, ms); }
    } else {
      var init, last := ms[..|ms| - 1], ms[|ms| - 1];
      assert SlotEntries([Wildcard(name)], ms)[..|ms| - 1] == SlotEntries([Wildcard(name)], init);
      RebuildWildcard(t, name, init, defined);
      assert init + [last] == ms;
      AddToWildcard(t, name, init, last, defined);
    }
  }

  function WithWildcard<T>(t: Tree<T>, name: string, ms: Methods<T>): Tree<T> {
    if ms == [] then t else t.(wildcard := Some(WildcardChild(name, ms)))
  }

  lemma NoWildcardAdded<T>(t: Tree<T>, name: string, ms: Methods<T>)
    requires ms == []
    ensures WithWildcard(t, name, ms) == t
  {}

  lemma AddToWildcard<T>(t: Tree<T>, name: string, ms: Methods<T>, last: Entry<T>, defined: Constraints)
    requires Distinct(ms + [last]) && t.wildcard.None?
    ensures Insert(WithWildcard(t, name, ms), AsSteps([Wildcard(name)]), last.verb, last.route, defined)
         == Inserted(WithWildcard(t, name, ms + [last]), None)
  {
    hide MethodIndex;
    NewMethod(ms, last);
  }

  lemma NewMethod<T>(ms: Methods<T>, last: Entry<T>)
    requires Distinct(ms + [last])
    ensures MethodInsert(ms, last.verb, last.route) == ms + [last]
  {
    hide MethodIndex;
    forall i | 0 <= i < |ms|
      ensures ms[i].verb != last.verb
    {
      assert (ms + [last])[i] == ms[i] && (ms + [last])[|ms|] == last;
    }
    assert MethodIndex(ms, last.verb).None?;
  }

  ghost predicate SameFind<T>(t: Tree<T>, u: Tree<T>, rx: Regex) {
    forall rest, m :: Find(t, rx, rest, m) == Find(u, rx, rest, m)
  }

  /** A part rebuilt on its own: what the induction gives for a child. */
  ghost predicate Rebuilt<T>(t: Tree<T>, entries: Registrations<T>, defined: Constraints, rx: Regex) {
    var u := Build(entries, defined);
    u.Some? && Valid(u.value, defined) && SameFind(t, u.value, rx)
  }

  /** The tree after one part: `seg` gets the rebuilt child, or stays absent if it has no entry. */
  function After<T>(t: Tree<T>, seg: Segment, entries: Registrations<T>, defined: Constraints): Tree<T> {
    if entries == [] || Build(entries, defined).None? then t else SetChild(t, seg, Build(entries, defined).value, defined)
  }

  lemma AfterPart<T>(t: Tree<T>, seg: Segment, entries: Registrations<T>, defined: Constraints)
    requires Valid(t, defined) && SegmentDefined(seg, defined) && !seg.Wildcard? && Clash(t, seg).None?
    requires Child(t, seg) == Empty() && Build(entries, defined).Some? && Valid(Build(entries, defined).value, defined)
    ensures InsertAll(t, Below(seg, entries), defined) == Some(After(t, seg, entries, defined))
    ensures Valid(After(t, seg, entries, defined), defined)
  {
    hide InsertAll, SetChild, Child, Clash;
    InsertAllBelow(t, seg, entries, defined);
    if entries != [] { SetChildValid(t, seg, Build(entries, defined).value, defined); }
  }

  lemma {:induction false} RebuildLiterals<T(!new)>(
    t: Tree<T>, keys: seq<string>, parts: seq<Slots<T>>, children: map<string, Tree<T>>, defined: Constraints, rx: Regex)
    returns (u: Tree<T>)
    requires Valid(t, defined) && |keys| == |parts|
    requires forall i, j | 0 <= i < j < |keys| :: keys[i] != keys[j]
    requires forall i | 0 <= i < |keys| :: keys[i] in children && keys[i] !in t.literals
    requires forall i | 0 <= i < |keys| :: Rebuilt(children[keys[i]], Entries(parts[i]), defined, rx)
    ensures InsertAll(t, Entries(LiteralSlots(keys, parts)), defined) == Some(u)
    ensures Valid(u, defined) && u.methods == t.methods && u.params == t.params && u.wildcard == t.wildcard
    ensures forall k :: SameFind(Child(u, Literal(k)), if k in keys then children[k] else Child(t, Literal(k)), rx)
    decreases |keys|
  {
    hide Valid, Find, InsertAll, Rebuilt, SameFind;
    if keys == [] {
      u := t;
      assert InsertAll(t, [], defined) == Some(t) by { InsertAllNone(t, defined); }
      forall k ensures SameFind(Child(t, Literal(k)), Child(t, Literal(k)), rx) { SameFindSelf(Child(t, Literal(k)), rx); }
    } else {
      var seg, entries := Literal(keys[0]), Entries(parts[0]);
      var v := After(t, seg, entries, defined);
      RebuiltFacts(children[keys[0]], entries, defined, rx);
      AfterPart(t, seg, entries, defined);
      u := RebuildLiterals(v, keys[1..], parts[1..], children, defined, rx);
      EntriesUnder(seg, parts[0]);
      EntriesConcat(Under(seg, parts[0]), LiteralSlots(keys[1..], parts[1..]));
      InsertAllConcat(t, Below(seg, entries), Entries(LiteralSlots(keys[1..], parts[1..])), defined);
      forall k ensures SameFind(Child(u, Literal(k)), if k in keys then children[k] else Child(t, Literal(k)), rx) {
        if k == keys[0] {
          assert k !in keys[1..];
          SameFindVia(Child(u, Literal(k)), Child(v, Literal(k)), children[k], rx);
        } else {
          assert k in keys <==> k in keys[1..];
        }
      }
    }
  }

  lemma InsertAllNone<T>(t: Tree<T>, defined: Constraints)
    ensures InsertAll(t, [], defined) == Some(t)
  {}

  lemma SameFindSelf<T>(t: Tree<T>, rx: Regex)
    ensures SameFind(t, t, rx)
  {}

  lemma SameFindVia<T>(t: Tree<T>, u: Tree<T>, v: Tree<T>, rx: Regex)
    requires SameFind(t, u, rx) && SameFind(v, u, rx)
    ensures SameFind(t, v, rx)
  {
    hide Find;
  }

  lemma RebuiltFacts<T>(t: Tree<T>, entries: Registrations<T>, defined: Constraints, rx: Regex)
    requires Rebuilt(t, entries, defined, rx)
    ensures var u := Build(entries, defined);
      u.Some? && Valid(u.value, defined) && SameFind(t, u.value, rx) && (entries == [] ==> u.value == Empty())
  {}

  lemma {:induction false} RebuildParams<T(!new)>(
    t: Tree<T>, ps: seq<ParamChild<T>>, parts: seq<Slots<T>>, defined: Constraints, rx: Regex)
    returns (u: Tree<T>)
    requires Valid(t, defined) && ValidParams(ps, defined) && |ps| == |parts|
    requires forall i, j | 0 <= i < |ps| && 0 <= j < |t.params| :: ps[i].constraint != t.params[j].constraint
    requires ps != [] ==> forall j | 0 <= j < |t.params| :: t.params[j].constraint != Any
    requires forall i | 0 <= i < |ps| :: Rebuilt(ps[i].node, Entries(parts[i]), defined, rx)
    ensures InsertAll(t, Entries(ParamSlots(ps, parts)), defined) == Some(u)
    ensures Valid(u, defined) && u.methods == t.methods && u.literals == t.literals && u.wildcard == t.wildcard
    ensures forall rest, m | NextSegment(rest).Some? ::
      FindParams(u.params, rx, rest, m) == Best(FindParams(t.params, rx, rest, m), FindParams(ps, rx, rest, m))
    decreases |ps|
  {
    hide Valid, Find, InsertAll, Rebuilt, SameFind, FindParam, NextSegment, ParamIndex, CustomOf, Best;
    if ps == [] {
      u := t;
      InsertAllNone(t, defined);
      forall rest, m | NextSegment(rest).Some? ensures FindParams(t.params, rx, rest, m) ==
          Best(FindParams(t.params, rx, rest, m), NotFound) {
        BestLaws(FindParams(t.params, rx, rest, m), NotFound, NotFound);
      }
    } else {
      var p, entries := ps[0], Entries(parts[0]);
      var seg := Param(p.name, p.constraint);
      var v := After(t, seg, entries, defined);
      RebuiltFacts(p.node, entries, defined, rx);
      AfterPart(t, seg, entries, defined);
      AfterParam(t, p, entries, defined, rx);
      u := RebuildParams(v, ps[1..], parts[1..], defined, rx);
      EntriesUnder(seg, parts[0]);
      EntriesConcat(Under(seg, parts[0]), ParamSlots(ps[1..], parts[1..]));
      InsertAllConcat(t, Below(seg, entries), Entries(ParamSlots(ps[1..], parts[1..])), defined);
      forall rest, m | NextSegment(rest).Some? ensures FindParams(u.params, rx, rest, m) ==
          Best(FindParams(t.params, rx, rest, m), FindParams(ps, rx, rest, m)) {
        BestLaws(FindParams(t.params, rx, rest, m), FindParam(p, rx, rest, m), FindParams(ps[1..], rx, rest, m));
      }
    }
  }

  /** `Best` is associative, and `NotFound` its unit. */
  lemma BestLaws<T>(a: Outcome<T>, b: Outcome<T>, c: Outcome<T>)
    ensures Best(a, NotFound) == a && Best(NotFound, a) == a
    ensures Best(Best(a, b), c) == Best(a, Best(b, c))
  {}

  /** A rebuilt parameter goes after those already there, and answers as the original. */
  lemma AfterParam<T(!new)>(t: Tree<T>, p: ParamChild<T>, entries: Registrations<T>, defined: Constraints, rx: Regex)
    requires ParamFor(t.params, p.constraint) == None && p.custom == CustomOf(defined, p.constraint)
    requires forall j | 0 <= j < |t.params| :: t.params[j].constraint != Any
    requires Rebuilt(p.node, entries, defined, rx)
    ensures var v := After(t, Param(p.name, p.constraint), entries, defined);
      && v.methods == t.methods && v.literals == t.literals && v.wildcard == t.wildcard
      && (v.params == t.params || (|v.params| == |t.params| + 1 && v.params[..|t.params|] == t.params
                                   && v.params[|t.params|].constraint == p.constraint))
      && forall rest, m | NextSegment(rest).Some? ::
        FindParams(v.params, rx, rest, m) == Best(FindParams(t.params, rx, rest, m), FindParam(p, rx, rest, m))
  {
    hide Valid, Find, FindParams, NextSegment, ParamIndex, CustomOf, Build, Best;
    RebuiltFacts(p.node, entries, defined, rx);
    var u := Build(entries, defined).value;
    var v := After(t, Param(p.name, p.constraint), entries, defined);
    var q := p.(node := u);
    if entries != [] {
      assert v.params == t.params + [q];
    }
    forall rest, m | NextSegment(rest).Some?
      ensures FindParams(v.params, rx, rest, m) == Best(FindParams(t.params, rx, rest, m), FindParam(p, rx, rest, m))
    {
      assert FindParam(p, rx, rest, m) == FindParam(q, rx, rest, m);
      if entries == [] {
        FindEmpty<T>(rx, NextSegment(rest).value.1, m);
        FindParamNone(q, rx, rest, m);
        BestLaws(FindParams(t.params, rx, rest, m), NotFound, NotFound);
      } else {
        FindParamsConcat(t.params, [q], rx, rest, m);
        FindParamsOne(q, rx, rest, m);
      }
    }
  }

  lemma SlotEntriesOne<T>(p: Pattern, ms: Methods<T>)
    ensures Entries([Slot(p, ms)]) == SlotEntries(p, ms)
  {
    assert [Slot(p, ms)][1..] == [];
  }

  /** The listing of any valid tree is accepted whole by a fresh tree, which
      then gives the same answer, captures and allowed methods included, to
      every lookup. */
  lemma {:induction false} ListingRebuilds<T(!new)>(t: Tree<T>, slots: Slots<T>, defined: Constraints, rx: Regex)
    requires Valid(t, defined) && IsListing(t, slots)
    ensures Rebuilt(t, Entries(slots), defined, rx)
    decreases t
  {
    hide Entries, InsertAll, Find, Rebuilt, LiteralSlots, ParamSlots, NextSegment;
    var keys, literals, params :| IsListingOf(t, slots, keys, literals, params);
    forall i | 0 <= i < |keys| ensures Rebuilt(t.literals[keys[i]], Entries(literals[i]), defined, rx) {
      ListingRebuilds(t.literals[keys[i]], literals[i], defined, rx);
    }
    forall i | 0 <= i < |params| ensures Rebuilt(t.params[i].node, Entries(params[i]), defined, rx) {
      ListingRebuilds(t.params[i].node, params[i], defined, rx);
    }
    var own := Empty<T>().(methods := t.methods);
    SlotEntriesOne([], t.methods);
    RebuildOwn(Empty<T>(), t.methods, defined);
    var afterLiterals := RebuildLiterals(own, keys, literals, t.literals, defined, rx);
    var afterParams := RebuildParams(afterLiterals, t.params, params, defined, rx);
    var a, b, c := Entries([Slot([], t.methods)]), Entries(LiteralSlots(keys, literals)), Entries(ParamSlots(t.params, params));
    var d := Entries(WildcardSlots(t.wildcard));
    EntriesOfFour([Slot([], t.methods)], LiteralSlots(keys, literals), ParamSlots(t.params, params), WildcardSlots(t.wildcard));
    InsertAllConcat(Empty<T>(), a, b, defined);
    InsertAllConcat(Empty<T>(), a + b, c, defined);
    InsertAllConcat(Empty<T>(), a + b + c, d, defined);
    var u := RebuildLast(afterParams, t.wildcard, defined);
    assert Build(Entries(slots), defined) == Some(u);
    forall rest, m ensures Find(t, rx, rest, m) == Find(u, rx, rest, m) {
      PartsFind(t, u, keys, defined, rx, rest, m);
    }
    RebuiltIs(t, u, Entries(slots), defined, rx);
  }

  lemma RebuiltIs<T>(t: Tree<T>, u: Tree<T>, entries: Registrations<T>, defined: Constraints, rx: Regex)
    requires Build(entries, defined) == Some(u) && Valid(u, defined)
    requires forall rest, m :: Find(t, rx, rest, m) == Find(u, rx, rest, m)
    ensures Rebuilt(t, entries, defined, rx)
  {
    hide Find, InsertAll;
  }

  lemma EntriesOfFour<T>(a: Slots<T>, b: Slots<T>, c: Slots<T>, d: Slots<T>)
    ensures Entries(a + b + c + d) == Entries(a) + Entries(b) + Entries(c) + Entries(d)
  {
    hide Entries;
    EntriesConcat(a + b + c, d);
    EntriesConcat(a + b, c);
    EntriesConcat(a, b);
  }

  lemma RebuildLast<T>(t: Tree<T>, w: Option<WildcardChild<T>>, defined: Constraints) returns (u: Tree<T>)
    requires Valid(t, defined) && t.wildcard.None? && (w.Some? ==> Distinct(w.value.methods))
    ensures InsertAll(t, Entries(WildcardSlots(w)), defined) == Some(u) && Valid(u, defined)
    ensures u.methods == t.methods && u.literals == t.literals && u.params == t.params
    ensures u.wildcard == w || (u.wildcard.None? && w.Some? && w.value.methods == [])
  {
    hide InsertAll;
    InsertAllNone(t, defined);
    if w.None? {
      u := t;
    } else {
      SlotEntriesOne([Wildcard(w.value.name)], w.value.methods);
      RebuildWildcard(t, w.value.name, w.value.methods, defined);
      u := if w.value.methods == [] then t else t.(wildcard := w);
    }
  }

  lemma PartsFind<T(!new)>(
    t: Tree<T>, u: Tree<T>, keys: seq<string>, defined: Constraints, rx: Regex, rest: string, m: Method)
    requires Enumerates(keys, t.literals.Keys)
    requires u.methods == t.methods
    requires forall k :: SameFind(Child(u, Literal(k)), if k in keys then t.literals[k] else Empty(), rx)
    requires NextSegment(rest).Some? ==>
      FindParams(u.params, rx, rest, m) == Best(NotFound, FindParams(t.params, rx, rest, m))
    requires u.wildcard == t.wildcard || (u.wildcard.None? && t.wildcard.Some? && t.wildcard.value.methods == [])
    ensures Find(t, rx, rest, m) == Find(u, rx, rest, m)
  {
    hide FindParams, NextSegment;
    if NextSegment(rest).Some? {
      var (segment, tail) := NextSegment(rest).value;
      assert SameFind(Child(u, Literal(segment)), Child(t, Literal(segment)), rx);
    }
  }
}
