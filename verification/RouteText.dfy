/** Patterns as text: what the tree prints parses back (src/path.rs:85-94,
    src/tree.rs:342-373). */
module RouteText {
  import opened Wrappers
  import opened Path
  import opened RouteTree
  import opened RouteTreeMap

  ghost predicate PatternParsed(p: Pattern, defined: Constraints) {
    forall i | 0 <= i < |p| :: Parsed(p[i], defined)
  }

  function Formatted(p: Pattern, defined: Constraints): (r: seq<string>)
    ensures |r| == |p|
    ensures forall i | 0 <= i < |p| :: r[i] == Format(p[i], defined)
  {
    seq(|p|, i requires 0 <= i < |p| => Format(p[i], defined))
  }

  /** A pattern as `collect_routes` prints it, below `prefix`. */
  function TextUnder(prefix: string, p: Pattern, defined: Constraints): string
  {
    var text := prefix + Slashed(Formatted(p, defined));
    if text == "" then "/" else text
  }

  lemma TextUnderStep(prefix: string, seg: Segment, p: Pattern, defined: Constraints)
    ensures TextUnder(prefix, [seg] + p, defined) == TextUnder(prefix + "/" + Format(seg, defined), p, defined)
  {
    hide Format;
    assert Formatted([seg] + p, defined)[1..] == Formatted(p, defined);
    assert prefix + ("/" + Format(seg, defined) + Slashed(Formatted(p, defined))) ==
      (prefix + "/" + Format(seg, defined)) + Slashed(Formatted(p, defined));
  }

  /** Splitting a printed pattern gives its segments as printed. */
  lemma TextSegments(p: Pattern, defined: Constraints)
    requires ValidConstraints(defined) && PatternParsed(p, defined)
    ensures Segments(TextUnder("", p, defined)) == Formatted(p, defined)
  {
    hide Parsed, Format, Slashed;
    var parts := Formatted(p, defined);
    forall i | 0 <= i < |p| ensures parts[i] != "" && '/' !in parts[i] {
      FormatIsSegment(p[i], defined);
    }
    SegmentsOfSlashed(parts);
    assert "" + Slashed(parts) == Slashed(parts);
    if p == [] {
      SlashedEmpty();
    } else {
      SlashedEnd(parts);
    }
  }

  /** Splitting and parsing a printed pattern gives the pattern back. */
  lemma TextParses(p: Pattern, defined: Constraints)
    requires ValidConstraints(defined) && PatternParsed(p, defined)
    ensures Parse(Segments(TextUnder("", p, defined)), defined) == AsSteps(p)
  {
    hide Parsed, Format, ParseWith, Slashed;
    TextSegments(p, defined);
    forall i | 0 <= i < |p| ensures ParseWith(Formatted(p, defined)[i], defined) == Ok(p[i]) {
      ParseAfterFormat(p[i], defined);
    }
  }

  lemma SlashedEmpty()
    ensures Slashed([]) == ""
  {}

  /** Every name in the tree is one a pattern can give. */
  ghost predicate Named<T>(t: Tree<T>, defined: Constraints)
    decreases t
  {
    && (forall k | k in t.literals :: Parsed(Literal(k), defined) && Named(t.literals[k], defined))
    && (forall i | 0 <= i < |t.params| ::
          Parsed(Param(t.params[i].name, t.params[i].constraint), defined) && Named(t.params[i].node, defined))
    && (t.wildcard.Some? ==> Parsed(Wildcard(t.wildcard.value.name), defined))
  }

  ghost predicate StepsParsed(steps: Steps, defined: Constraints) {
    forall i | 0 <= i < |steps| && steps[i].Ok? :: Parsed(steps[i].value, defined)
  }

  lemma ParseParsed(path: string, defined: Constraints)
    ensures StepsParsed(Parse(Segments(path), defined), defined) && StepsDefined(Parse(Segments(path), defined), defined)
  {
    var segments := Segments(path);
    forall i | 0 <= i < |segments| && ParseWith(segments[i], defined).Ok?
      ensures Parsed(ParseWith(segments[i], defined).value, defined)
    {
      ParseGivesParsed(segments[i], defined);
    }
  }

  lemma SetChildNamed<T>(t: Tree<T>, seg: Segment, node: Tree<T>, defined: Constraints)
    requires Valid(t, defined) && Named(t, defined) && Named(node, defined) && Parsed(seg, defined)
    ensures Named(SetChild(t, seg, node, defined), defined)
  {
    hide ParamFor, SetParam, Parsed, Valid;
    if seg.Param? {
      var p := ParamChild(seg.name, seg.constraint, CustomOf(defined, seg.constraint), node);
      assert SegmentDefined(seg, defined) by { ParsedDefined(seg, defined); }
      assert ValidParams(t.params, defined) by { ValidHasParams(t, defined); }
      SetParamValid(t.params, p, defined);
      var r := SetParam(t.params, p);
      forall i | 0 <= i < |r|
        ensures Parsed(Param(r[i].name, r[i].constraint), defined) && Named(r[i].node, defined)
      {
        assert r[i] == p || r[i] in t.params;
      }
    }
  }

  lemma ParsedDefined(seg: Segment, defined: Constraints)
    requires Parsed(seg, defined)
    ensures SegmentDefined(seg, defined)
  {}

  lemma ValidHasParams<T>(t: Tree<T>, defined: Constraints)
    requires Valid(t, defined)
    ensures ValidParams(t.params, defined)
  {}

  lemma ChildNamed<T>(t: Tree<T>, seg: Segment, defined: Constraints)
    requires Named(t, defined)
    ensures Named(Child(t, seg), defined)
  {
    hide ParamIndex, Parsed;
  }

  lemma {:induction false} InsertKeepsNamed<T>(t: Tree<T>, steps: Steps, m: Method, route: T, defined: Constraints)
    requires Valid(t, defined) && Named(t, defined) && StepsParsed(steps, defined) && StepsDefined(steps, defined)
    ensures Named(Insert(t, steps, m, route, defined).tree, defined)
    decreases |steps|
  {
    hide MethodInsert, ParamFor, SetChild, Child, Parsed, Valid;
    if steps != [] && steps[0].Ok? && !steps[0].value.Wildcard? {
      var seg := steps[0].value;
      ChildValid(t, seg, defined);
      ChildNamed(t, seg, defined);
      InsertKeepsNamed(Child(t, seg), steps[1..], m, route, defined);
      SetChildNamed(t, seg, Insert(Child(t, seg), steps[1..], m, route, defined).tree, defined);
    }
  }

  lemma {:induction false} RemoveKeepsNamed<T>(t: Tree<T>, steps: Steps, m: Method, defined: Constraints)
    requires Valid(t, defined) && Named(t, defined) && StepsParsed(steps, defined) && StepsDefined(steps, defined)
    ensures Named(Remove(t, steps, m, defined).tree, defined)
    decreases |steps|
  {
    hide MethodRemove, ParamFor, SetChild, Child, Parsed, Valid, HasChild;
    if steps != [] && steps[0].Ok? && !steps[0].value.Wildcard? {
      var seg := steps[0].value;
      ChildValid(t, seg, defined);
      ChildNamed(t, seg, defined);
      RemoveKeepsNamed(Child(t, seg), steps[1..], m, defined);
      SetChildNamed(t, seg, Remove(Child(t, seg), steps[1..], m, defined).tree, defined);
    }
  }

  /** A pattern with routes is one that was parsed. */
  lemma {:induction false} RouteParsed<T>(t: Tree<T>, p: Pattern, m: Method, defined: Constraints)
    requires Named(t, defined) && RouteAt(t, p, m).Some?
    ensures PatternParsed(p, defined)
    decreases |p|
  {
    hide Parsed, ParamIndex;
    if p != [] && !p[0].Wildcard? {
      ChildNamed(t, p[0], defined);
      RouteParsed(Child(t, p[0]), p[1..], m, defined);
      EmptyRoutes<T>(p[1..], m);
      assert forall i | 1 <= i < |p| :: p[i] == p[1..][i - 1];
    }
  }
}
