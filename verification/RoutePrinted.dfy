/** A router's listing, as text, can be registered again: the round trip through
    printing, splitting, parsing and inserting (src/tree.rs:153-226, 336-373). */
module RoutePrinted {
  import opened Wrappers
  import opened Path
  import RT = RouteTree
  import opened RouteTreeMap
  import opened RouteTreeFind
  import opened RouteTreeOrder
  import opened RouteTreeRebuild
  import opened RouteText
  import opened RouteNode

  /** `insert_with` for every line in order, if all are accepted. */
  function InsertListed<T>(t: RT.Tree<T>, lines: seq<Listed<T>>, defined: Constraints): Option<RT.Tree<T>> {
    if lines == [] then Some(t)
    else
      match InsertListed(t, lines[..|lines| - 1], defined)
      case None => None
      case Some(u) =>
        var last := lines[|lines| - 1];
        var r := RT.Insert(u, RT.Parse(Segments(last.pattern), defined), last.verb, last.route, defined);
        if r.error.None? then Some(r.tree) else None
  }

  ghost predicate AllParsed<T>(rs: Registrations<T>, defined: Constraints) {
    forall i | 0 <= i < |rs| :: PatternParsed(rs[i].pattern, defined)
  }

  /** Lines printed from well-formed patterns are inserted as the patterns are. */
  lemma {:induction false} PrintedInserts<T>(t: RT.Tree<T>, rs: Registrations<T>, defined: Constraints)
    requires ValidConstraints(defined) && AllParsed(rs, defined)
    ensures InsertListed(t, Printed("", rs, defined), defined) == InsertAll(t, rs, defined)
  {
    hide RT.Insert, RT.Parse, RT.AsSteps, Segments, TextUnder, PatternParsed;
    if rs != [] {
      var before, last := rs[..|rs| - 1], rs[|rs| - 1];
      assert Printed("", rs, defined)[..|rs| - 1] == Printed("", before, defined);
      PrintedInserts(t, before, defined);
      TextParses(last.pattern, defined);
    }
  }

  lemma {:induction false} EntryIsInSlot<T>(slots: Slots<T>, r: Registration<T>) returns (i: nat)
    requires r in Entries(slots)
    ensures i < |slots| && slots[i].pattern == r.pattern && RT.Entry(r.verb, r.route) in slots[i].methods
  {
    var here := SlotEntries(slots[0].pattern, slots[0].methods);
    if r in here {
      var k :| 0 <= k < |here| && here[k] == r;
      assert slots[0].methods[k] == RT.Entry(r.verb, r.route);
      i := 0;
    } else {
      var j := EntryIsInSlot(slots[1..], r);
      i := j + 1;
    }
  }

  /** What is listed is well-formed. */
  lemma EntriesAreParsed<T(!new)>(t: RT.Tree<T>, slots: Slots<T>, defined: Constraints)
    requires RT.Valid(t, defined) && Named(t, defined) && IsListing(t, slots)
    ensures AllParsed(Entries(slots), defined)
  {
    hide Entries, RT.Valid, Named, IsListing, PatternParsed, RT.RouteAt, MethodsAt, RT.MethodIndex;
    var rs := Entries(slots);
    forall i | 0 <= i < |rs|
      ensures PatternParsed(rs[i].pattern, defined)
    {
      var r := rs[i];
      var k := EntryIsInSlot(slots, r);
      var p, ms := slots[k].pattern, slots[k].methods;
      ListingIsExact(t, slots, defined, p, ms);
      RouteAtMethods(t, p, r.verb);
      var j :| 0 <= j < |ms| && ms[j] == RT.Entry(r.verb, r.route);
      assert RT.MethodIndex(ms, r.verb).Some?;
      RouteParsed(t, p, r.verb, defined);
    }
  }

  /** The round trip: any listing of a tree, as printed, is accepted whole by a
      fresh tree with the same constraints, which then answers every lookup alike. */
  lemma PrintedRebuilds<T(!new)>(t: RT.Tree<T>, slots: Slots<T>, defined: Constraints, rx: RT.Regex)
    requires RT.Valid(t, defined) && Named(t, defined) && ValidConstraints(defined) && IsListing(t, slots)
    ensures var u := InsertListed(RT.Empty(), Printed("", Entries(slots), defined), defined);
      u.Some? && RT.Valid(u.value, defined) && SameFind(t, u.value, rx)
  {
    hide Entries, RT.Valid, Named, IsListing, AllParsed, InsertListed, InsertAll, SameFind;
    EntriesAreParsed(t, slots, defined);
    PrintedInserts(RT.Empty(), Entries(slots), defined);
    ListingRebuilds(t, slots, defined, rx);
  }
}
