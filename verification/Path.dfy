/** Path splitting and route pattern syntax (src/path.rs). */
module Path {
  import opened Wrappers
  import opened Text

  // ---- Segments of a path

  /** What `Segments` still has to yield once `rest` is left: the next
      non-empty segment, and what is left after it. */
  function NextSegment(rest: string): (r: Option<(string, string)>)
    ensures r.None? <==> Remainder(rest) == ""
    ensures r.Some? ==> |r.value.1| < |rest| && r.value.0 != "" && '/' !in r.value.0
  {
    var trimmed := TrimStart(rest, '/');
    if trimmed == "" then None
    else
      match SplitOnce(trimmed, '/')
      case None => Some((trimmed, ""))
      case Some((segment, tail)) => Some((segment, tail))
  }

  /** The part of the path not consumed yet: what a wildcard captures. */
  function Remainder(rest: string): string {
    TrimStart(rest, '/')
  }

  /** `Segments::next`: skips empty parts one split at a time. */
  method Next(start: string) returns (segment: Option<string>, rest: string)
    ensures NextSegment(start) == (if segment.Some? then Some((segment.value, rest)) else None)
    ensures segment.None? ==> rest == ""
  {
    rest := start;
    while rest != ""
      invariant NextSegment(rest) == NextSegment(start)
      decreases |rest|
    {
      var head, tail := rest, "";
      var split := SplitOnce(rest, '/');
      if split.Some? {
        head, tail := split.value.0, split.value.1;
      }
      if head != "" {
        assert TrimStart(rest, '/') == rest;
        return Some(head), tail;
      }
      assert rest[0] == '/' && tail == rest[1..];
      rest := tail;
    }
    segment := None;
  }

  /** Every segment `rest` yields. */
  function AllSegments(rest: string): (segments: seq<string>)
    ensures forall i | 0 <= i < |segments| :: segments[i] != "" && '/' !in segments[i]
    decreases |rest|
  {
    match NextSegment(rest)
    case None => []
    case Some((segment, tail)) => [segment] + AllSegments(tail)
  }

  /** `Segments::new(path).collect()`. */
  function Segments(path: string): (segments: seq<string>)
    ensures forall i | 0 <= i < |segments| :: segments[i] != "" && '/' !in segments[i]
  {
    AllSegments(Trim(path, '/'))
  }

  /** Segments printed after a slash each, as routes are listed. */
  function Slashed(segments: seq<string>): string {
    if segments == [] then "" else "/" + segments[0] + Slashed(segments[1..])
  }

  ghost predicate Segmented(segments: seq<string>) {
    forall i | 0 <= i < |segments| :: segments[i] != "" && '/' !in segments[i]
  }

  lemma SegmentedTail(segments: seq<string>)
    requires Segmented(segments) && segments != []
    ensures Segmented(segments[1..]) && segments[0] != "" && '/' !in segments[0]
  {}

  /** What is left after a slash and a segment. */
  lemma FirstSegment(segment: string, tail: string)
    requires segment != "" && '/' !in segment && (tail == "" || tail[0] == '/')
    ensures TrimStart("/" + (segment + tail), '/') == segment + tail
    ensures var next := Some((segment, if tail == "" then "" else tail[1..]));
      NextSegment(segment + tail) == next && NextSegment("/" + (segment + tail)) == next
  {
    hide SplitOnce;
    var s := "/" + (segment + tail);
    assert s[1..] == segment + tail && (segment + tail)[0] == segment[0] && segment[0] in segment;
    if tail == "" {
      assert segment + tail == segment;
    } else {
      assert segment + tail == segment + ['/'] + tail[1..];
      SplitOnceAt(segment, '/', tail[1..]);
    }
  }

  lemma {:induction false} AllSegmentsOfSlashed(segments: seq<string>)
    requires Segmented(segments)
    ensures AllSegments(Slashed(segments)) == segments
    ensures segments != [] ==>
      AllSegments(Slashed(segments)[1..]) == segments && TrimStart(Slashed(segments), '/') == Slashed(segments)[1..]
  {
    hide NextSegment, TrimStart, Segmented, Slashed, AllSegments;
    SlashedIs(segments);
    if segments != [] {
      var first, tail := segments[0], Slashed(segments[1..]);
      SegmentedTail(segments);
      AllSegmentsOfSlashed(segments[1..]);
      SlashedIs(segments[1..]);
      FirstSegment(first, tail);
      AllSegmentsNext(first + tail);
      AllSegmentsNext("/" + (first + tail));
      assert Slashed(segments)[1..] == first + tail;
      assert segments == [first] + segments[1..];
    }
  }

  lemma SlashedIs(segments: seq<string>)
    ensures Slashed(segments) == if segments == [] then "" else "/" + (segments[0] + Slashed(segments[1..]))
    ensures AllSegments("") == []
  {
    if segments != [] {
      assert "/" + segments[0] + Slashed(segments[1..]) == "/" + (segments[0] + Slashed(segments[1..]));
    }
  }

  lemma AllSegmentsNext(rest: string)
    requires NextSegment(rest).Some?
    ensures AllSegments(rest) == [NextSegment(rest).value.0] + AllSegments(NextSegment(rest).value.1)
  {}

  lemma {:induction false} SlashedEnd(segments: seq<string>)
    requires Segmented(segments) && segments != []
    ensures var s := Slashed(segments); |s| > 1 && s[|s| - 1] != '/'
  {
    var last := segments[0];
    assert last[|last| - 1] != '/';
    if |segments| > 1 {
      SlashedEnd(segments[1..]);
    }
  }

  /** A pattern printed from its segments splits back into them: the listing
      (`/` for no segment at all) can be registered again. */
  lemma SegmentsOfSlashed(segments: seq<string>)
    requires Segmented(segments)
    ensures Segments(if segments == [] then "/" else Slashed(segments)) == segments
  {
    if segments == [] {
      assert TrimStart("/", '/') == TrimStart("/"[1..], '/') == "";
    } else {
      AllSegmentsOfSlashed(segments);
      SlashedEnd(segments);
    }
  }

  // ---- Constraints

  datatype Constraint = Any | Int | Uuid | Custom(index: nat)

  /** A constraint the app defined. Its regex is the text `pattern`; what it
      matches is a parameter wherever that matters. */
  datatype Defined = Defined(name: string, pattern: string)

  type Constraints = seq<Defined>

  const MAX_CONSTRAINTS := 65535  // u16::MAX

  predicate IsHexDigit(c: char) { IsDigit(c) || 'a' <= c <= 'f' || 'A' <= c <= 'F' }

  predicate IsNameChar(c: char) { IsAlphanumeric(c) || c == '_' }

  /** `value.parse::<i64>().is_ok()`: an optional sign, digits, in range. */
  predicate IsI64(value: string) {
    var digits := if value != "" && (value[0] == '+' || value[0] == '-') then value[1..] else value;
    && digits != ""
    && AllIn(digits, IsDigit)
    && (if value[0] == '-' then Number(digits) <= 0x8000_0000_0000_0000 else Number(digits) < 0x8000_0000_0000_0000)
  }

  predicate IsHexGroup(group: string, len: nat) {
    |group| == len && AllIn(group, IsHexDigit)
  }

  predicate IsUuid(value: string) {
    var groups := SplitAll(value, '-');
    && |groups| == 5
    && IsHexGroup(groups[0], 8) && IsHexGroup(groups[1], 4) && IsHexGroup(groups[2], 4)
    && IsHexGroup(groups[3], 4) && IsHexGroup(groups[4], 12)
  }

  /** No value fits both built-in constraints, so their order never matters. */
  lemma IntIsNotUuid(value: string)
    requires IsUuid(value)
    ensures !IsI64(value)
  {
    assert value[1..][7] == '-';
  }

  /** A sign, or none, zeros and a number: what writes an integer, if it fits 64 bits. */
  predicate WritesI64(value: string, sign: string, zeros: nat, n: nat) {
    && value == sign + (Zeros(zeros) + Decimal(n))
    && (((sign == "" || sign == "+") && n <= 0x7fff_ffff_ffff_ffff) || (sign == "-" && n <= 0x8000_0000_0000_0000))
  }

  /** The texts that fit `int` are those that write an integer of 64 bits. */
  lemma IntsAre(value: string)
    ensures IsI64(value) <==> exists sign, zeros: nat, n: nat :: WritesI64(value, sign, zeros, n)
  {
    hide IsI64, WritesI64;
    if IsI64(value) {
      var sign, zeros, n := I64IsWritten(value);
    }
    forall sign, zeros: nat, n: nat | WritesI64(value, sign, zeros, n)
      ensures IsI64(value)
    {
      WrittenIsI64(value, sign, zeros, n);
    }
  }

  lemma I64IsWritten(value: string) returns (sign: string, zeros: nat, n: nat)
    requires IsI64(value)
    ensures WritesI64(value, sign, zeros, n)
  {
    hide Decimal, Number, Zeros;
    sign := if value[0] == '+' || value[0] == '-' then value[..1] else "";
    var digits := value[|sign|..];
    assert value == sign + digits;
    zeros := DecimalOfNumber(digits);
    n := Number(digits);
  }

  lemma WrittenIsI64(value: string, sign: string, zeros: nat, n: nat)
    requires WritesI64(value, sign, zeros, n)
    ensures IsI64(value)
  {
    var digits := Zeros(zeros) + Decimal(n);
    assert value == sign + digits && AllIn(digits, IsDigit) && digits != "";
    NumberAfterZeros(zeros, Decimal(n));
    NumberOfDecimal(n);
    assert IsDigit(digits[0]);
    if sign != "" {
      assert value[0] == sign[0] && value[1..] == digits;
    } else {
      assert value == digits;
    }
  }

  const HEX_DIGITS := "0123456789abcdefABCDEF"

  lemma HexDigitsAre(c: char)
    ensures IsHexDigit(c) <==> c in HEX_DIGITS
  {
    if 'a' <= c <= 'f' {
      assert HEX_DIGITS[10 + (c as int - 'a' as int)] == c;
    } else if 'A' <= c <= 'F' {
      assert HEX_DIGITS[16 + (c as int - 'A' as int)] == c;
    } else if IsDigit(c) {
      assert HEX_DIGITS[c as int - '0' as int] == c;
    }
  }

  /** Five groups of hexadecimal digits of either case, with dashes between. */
  ghost predicate WritesUuid(value: string, groups: seq<string>) {
    && |groups| == 5 && value == Join(groups, '-')
    && |groups[0]| == 8 && |groups[1]| == |groups[2]| == |groups[3]| == 4 && |groups[4]| == 12
    && forall i, k | 0 <= i < 5 && 0 <= k < |groups[i]| :: groups[i][k] in HEX_DIGITS
  }

  /** The texts that fit `uuid` are those that write one. */
  lemma UuidsAre(value: string)
    ensures IsUuid(value) <==> exists groups :: WritesUuid(value, groups)
  {
    hide IsHexGroup, Join, SplitAll, WritesUuid;
    if IsUuid(value) {
      UuidIsWritten(value);
    }
    forall groups | WritesUuid(value, groups)
      ensures IsUuid(value)
    {
      WrittenIsUuid(value, groups);
    }
  }

  lemma UuidIsWritten(value: string)
    requires IsUuid(value)
    ensures WritesUuid(value, SplitAll(value, '-'))
  {
    hide IsHexGroup, Join, SplitAll;
    JoinSplit(value, '-');
    var groups := SplitAll(value, '-');
    forall i | 0 <= i < 5
      ensures |groups[i]| == (if i == 0 then 8 else if i == 4 then 12 else 4)
      ensures forall k | 0 <= k < |groups[i]| :: groups[i][k] in HEX_DIGITS
    {
      HexGroupIs(groups[i], if i == 0 then 8 else if i == 4 then 12 else 4);
    }
  }

  lemma WrittenIsUuid(value: string, groups: seq<string>)
    requires WritesUuid(value, groups)
    ensures IsUuid(value)
  {
    hide IsHexGroup, Join, SplitAll;
    assert '-' !in HEX_DIGITS;
    forall i | 0 <= i < 5
      ensures IsHexGroup(groups[i], |groups[i]|)
      ensures '-' !in groups[i]
    {
      HexGroupIs(groups[i], |groups[i]|);
    }
    SplitJoin(groups, '-');
  }

  lemma HexGroupIs(group: string, len: nat)
    ensures IsHexGroup(group, len) <==> |group| == len && forall k | 0 <= k < |group| :: group[k] in HEX_DIGITS
  {
    forall c ensures IsHexDigit(c) <==> c in HEX_DIGITS { HexDigitsAre(c); }
    hide IsHexDigit;
  }

  function ParseBuiltIn(name: string): Option<Constraint> {
    if name == "str" then Some(Any)
    else if name == "int" then Some(Int)
    else if name == "uuid" then Some(Uuid)
    else None
  }

  /** The position of the constraint called `name`. */
  function Position(defined: Constraints, name: string): (r: Option<nat>)
    ensures r.None? <==> forall i | 0 <= i < |defined| :: defined[i].name != name
    ensures r.Some? ==> r.value < |defined| && defined[r.value].name == name
  {
    if defined == [] then None
    else if defined[0].name == name then Some(0)
    else
      match Position(defined[1..], name)
      case None => None
      case Some(i) => Some(i + 1)
  }

  function Lookup(defined: Constraints, name: string): (r: Option<Constraint>) {
    match ParseBuiltIn(name)
    case Some(c) => Some(c)
    case None =>
      match Position(defined, name)
      case Some(i) => if i <= MAX_CONSTRAINTS then Some(Custom(i)) else None
      case None => None
  }

  datatype DefineError = BuiltIn | BadName | AlreadyDefined(pattern: string) | BadRegex | TooMany

  /** `Constraints::define`; `compiles` says which regexes the regex library accepts. */
  method Define(defined: Constraints, name: string, pattern: string, compiles: string -> bool)
    returns (r: Result<Constraints, DefineError>)
    requires ValidConstraints(defined)
    ensures r.Ok? ==> ValidConstraints(r.value) && defined <= r.value && |r.value| <= |defined| + 1
    ensures r.Ok? ==> exists i :: 0 <= i < |r.value| && r.value[i] == Defined(name, pattern)
    ensures r.Ok? <==>
      Defined(name, pattern) in defined ||
      (ValidName(name) && Position(defined, name).None? && compiles(pattern) && |defined| < MAX_CONSTRAINTS)
    ensures r.Err? ==> match r.error
      case BuiltIn => name == "str" || name == "int" || name == "uuid"
      case BadName => name == "" || exists i :: 0 <= i < |name| && !(IsAlphanumeric(name[i]) || name[i] == '_')
      case AlreadyDefined(other) => Defined(name, other) in defined && other != pattern
      case BadRegex => !compiles(pattern)
      case TooMany => |defined| == 65535
  {
    if ParseBuiltIn(name).Some? {
      return Err(BuiltIn);
    }
    if name == "" || !AllIn(name, IsNameChar) {
      return Err(BadName);
    }
    var at := Position(defined, name);
    if at.Some? {
      if defined[at.value].pattern == pattern {
        return Ok(defined);
      }
      return Err(AlreadyDefined(defined[at.value].pattern));
    }
    if !compiles(pattern) {
      return Err(BadRegex);
    }
    if |defined| >= MAX_CONSTRAINTS {
      return Err(TooMany);
    }
    var extended := defined + [Defined(name, pattern)];
    assert extended[|defined|] == Defined(name, pattern);
    return Ok(extended);
  }

  ghost predicate ValidName(name: string) {
    ParseBuiltIn(name).None? && name != "" && AllIn(name, IsNameChar)
  }

  ghost predicate ValidConstraints(defined: Constraints) {
    && |defined| <= MAX_CONSTRAINTS
    && (forall i | 0 <= i < |defined| :: ValidName(defined[i].name))
    && (forall i, j | 0 <= i < j < |defined| :: defined[i].name != defined[j].name)
  }

  /** Whether `value` fits a constraint; `rx(pattern, value)` is the regex library's answer. */
  predicate Fits(defined: Constraints, rx: (string, string) -> bool, constraint: Constraint, value: string) {
    match constraint
    case Any => true
    case Int => IsI64(value)
    case Uuid => IsUuid(value)
    case Custom(i) => i < |defined| && rx(defined[i].pattern, value)
  }

  // ---- Segments of a pattern

  datatype Segment = Literal(text: string) | Param(name: string, constraint: Constraint) | Wildcard(name: string)

  datatype PatternError =
    | UnknownConstraint(constraint: string)
    | ConflictingNames(existing: string, wanted: string)
    | UnnamedWildcard
    | WildcardNotLast

  /** `Segment::parse_with`. */
  function ParseWith(raw: string, defined: Constraints): (r: Result<Segment, PatternError>)
  {
    if raw != "" && raw[0] == '*' then
      if |raw| == 1 then Err(UnnamedWildcard) else Ok(Wildcard(raw[1..]))
    else if |raw| < 2 || raw[0] != '{' || raw[|raw| - 1] != '}' then
      Ok(Literal(raw))
    else
      var inner := raw[1..|raw| - 1];
      match SplitOnce(inner, ':')
      case None => Ok(Param(inner, Any))
      case Some((name, c)) =>
        match Lookup(defined, c)
        case None => Err(UnknownConstraint(c))
        case Some(constraint) => Ok(Param(name, constraint))
  }

  /** The name a constraint is written with. */
  function ConstraintText(constraint: Constraint, defined: Constraints): string
  {
    match constraint
    case Any => "str"
    case Int => "int"
    case Uuid => "uuid"
    case Custom(i) => if i < |defined| then defined[i].name else ""
  }

  /** `Constraint::format`, and `Param::format` for a custom constraint. */
  function FormatParam(name: string, constraint: Constraint, defined: Constraints): string
  {
    "{" + (if constraint.Any? then name else name + [':'] + ConstraintText(constraint, defined)) + "}"
  }

  function Format(segment: Segment, defined: Constraints): string
  {
    match segment
    case Literal(text) => text
    case Param(name, constraint) => FormatParam(name, constraint, defined)
    case Wildcard(name) => "*" + name
  }

  /** The segments a raw one can parse to. */
  ghost predicate Parsed(segment: Segment, defined: Constraints) {
    match segment
    case Literal(text) => text != "" && '/' !in text && ParseWith(text, defined) == Ok(segment)
    case Param(name, constraint) =>
      ':' !in name && '/' !in name && (constraint.Custom? ==> constraint.index < |defined|)
    case Wildcard(name) => name != "" && '/' !in name
  }

  lemma ParseGivesParsed(raw: string, defined: Constraints)
    requires raw != "" && '/' !in raw
    ensures ParseWith(raw, defined).Ok? ==> Parsed(ParseWith(raw, defined).value, defined)
  {
    if |raw| >= 2 && raw[0] == '{' && raw[|raw| - 1] == '}' {
      var inner := raw[1..|raw| - 1];
      assert forall i | 0 <= i < |inner| :: inner[i] == raw[i + 1];
      assert '/' !in inner;
    }
  }

  lemma PositionOf(defined: Constraints, i: nat)
    requires ValidConstraints(defined) && i < |defined|
    ensures Position(defined, defined[i].name) == Some(i)
  {
    var r := Position(defined, defined[i].name);
    assert r.Some?;
  }

  lemma ParseBraced(inner: string, defined: Constraints)
    ensures ParseWith("{" + inner + "}", defined) ==
      match SplitOnce(inner, ':')
      case None => Ok(Param(inner, Any))
      case Some((name, c)) =>
        match Lookup(defined, c)
        case None => Err(UnknownConstraint(c))
        case Some(constraint) => Ok(Param(name, constraint))
  {
    var raw := "{" + inner + "}";
    assert raw[0] == '{' && raw[|raw| - 1] == '}' && raw[1..|raw| - 1] == inner;
  }

  lemma ParseConstrained(name: string, c: string, inner: string, defined: Constraints)
    requires inner == name + [':'] + c && ':' !in name && Lookup(defined, c).Some?
    ensures ParseWith("{" + inner + "}", defined) == Ok(Param(name, Lookup(defined, c).value))
  {
    SplitOnceAt(name, ':', c);
    ParseBraced(inner, defined);
  }

  /** What a constrained parameter takes, from its text: anything for `str`, the
      integers of 64 bits for `int`, UUIDs for `uuid`, and what the regex defined
      under that name matches for another; a name that nobody defined is refused. */
  lemma ParamTakes(name: string, c: string, defined: Constraints, rx: (string, string) -> bool, value: string)
    requires ValidConstraints(defined) && ':' !in name
    ensures match ParseWith("{" + (name + [':'] + c) + "}", defined)
      case Ok(segment) =>
        && segment.Param? && segment.name == name
        && (Fits(defined, rx, segment.constraint, value) <==>
              || c == "str"
              || (c == "int" && exists sign, zeros: nat, n: nat :: WritesI64(value, sign, zeros, n))
              || (c == "uuid" && exists groups :: WritesUuid(value, groups))
              || exists d :: d in defined && d.name == c && rx(d.pattern, value))
      case Err(e) =>
        e == UnknownConstraint(c) && c != "str" && c != "int" && c != "uuid" && forall d | d in defined :: d.name != c
  {
    hide IsI64, IsUuid, WritesI64, WritesUuid;
    SplitOnceAt(name, ':', c);
    ParseBraced(name + [':'] + c, defined);
    IntsAre(value);
    UuidsAre(value);
    forall d | d in defined
      ensures d.name != "str" && d.name != "int" && d.name != "uuid"
      ensures d.name == c ==> Position(defined, c).Some? && defined[Position(defined, c).value] == d
    {
      var i :| 0 <= i < |defined| && defined[i] == d;
      assert ValidName(defined[i].name);
      PositionOf(defined, i);
    }
  }

  lemma LookupText(constraint: Constraint, defined: Constraints)
    requires ValidConstraints(defined) && (constraint.Custom? ==> constraint.index < |defined|)
    ensures Lookup(defined, ConstraintText(constraint, defined)) == Some(constraint)
  {
    if constraint.Custom? {
      PositionOf(defined, constraint.index);
      assert ValidName(defined[constraint.index].name);
    }
  }

  /** Formatting a parsed segment and parsing it again gives it back. */
  lemma ParseAfterFormat(segment: Segment, defined: Constraints)
    requires ValidConstraints(defined) && Parsed(segment, defined)
    ensures ParseWith(Format(segment, defined), defined) == Ok(segment)
  {
    match segment
    case Literal(_) =>
    case Wildcard(name) => assert ("*" + name)[1..] == name;
    case Param(name, constraint) =>
      if constraint.Any? {
        ParseBraced(name, defined);
      } else {
        var c := ConstraintText(constraint, defined);
        LookupText(constraint, defined);
        ParseConstrained(name, c, name + [':'] + c, defined);
      }
  }

  /** A formatted segment is one non-empty segment of a path. */
  lemma FormatIsSegment(segment: Segment, defined: Constraints)
    requires ValidConstraints(defined) && Parsed(segment, defined)
    ensures Format(segment, defined) != "" && '/' !in Format(segment, defined)
  {
    if segment.Param? && segment.constraint.Custom? {
      var name := defined[segment.constraint.index].name;
      assert ValidName(name);
      assert forall i | 0 <= i < |name| :: IsNameChar(name[i]);
    }
  }

  /** `constraint_name`: `{post:slug}` -> `slug`, found by trimming braces. */
  function ConstraintName(raw: string): string {
    match SplitOnce(TrimEnd(TrimStart(raw, '{'), '}'), ':')
    case Some((_, c)) => c
    case None => ""
  }

  lemma {:induction false} TrimStartBefore(s: string, c: char, d: char, after: string) returns (kept: string)
    requires c != d && d !in s
    ensures TrimStart(s + [d] + after, c) == kept + [d] + after && d !in kept
  {
    var t := s + [d] + after;
    if s != "" && s[0] == c {
      assert t[1..] == s[1..] + [d] + after;
      kept := TrimStartBefore(s[1..], c, d, after);
    } else {
      assert t[0] != c;
      kept := s;
    }
  }

  lemma TrimEndOne(s: string, c: char)
    requires s != "" && s[|s| - 1] != c
    ensures TrimEnd(s + [c], c) == s
  {
    assert (s + [c])[..|s|] == s;
  }

  lemma BracedName(name: string, c: string)
    requires ValidName(c) && ':' !in name
    ensures ConstraintName("{" + name + ":" + c + "}") == c
  {
    var raw := "{" + name + ":" + c + "}";
    assert raw == ("{" + name) + [':'] + (c + "}");
    var kept := TrimStartBefore("{" + name, '{', ':', c + "}");
    var t := kept + [':'] + c;
    assert kept + [':'] + (c + "}") == t + ['}'];
    assert t[|t| - 1] == c[|c| - 1] && IsNameChar(c[|c| - 1]);
    TrimEndOne(t, '}');
    SplitOnceAt(kept, ':', c);
  }

  lemma Braced(raw: string, defined: Constraints) returns (name: string, c: string)
    requires ParseWith(raw, defined).Ok? && ParseWith(raw, defined).value.Param?
    requires ParseWith(raw, defined).value.constraint.Custom?
    ensures raw == "{" + name + ":" + c + "}" && ':' !in name
    ensures Lookup(defined, c) == Some(ParseWith(raw, defined).value.constraint)
  {
    hide Lookup, SplitOnce;
    var inner := raw[1..|raw| - 1];
    var split := SplitOnce(inner, ':').value;
    name, c := split.0, split.1;
    assert inner == name + ":" + c;
    assert raw == "{" + inner + "}";
  }

  /** The name the tree keeps next to a custom constraint's regex is the name
      it was defined under, whatever braces the segment starts or ends with. */
  lemma ConstraintNameIsDefined(raw: string, defined: Constraints)
    requires ValidConstraints(defined)
    requires ParseWith(raw, defined).Ok? && ParseWith(raw, defined).value.Param?
    requires ParseWith(raw, defined).value.constraint.Custom?
    ensures var i := ParseWith(raw, defined).value.constraint.index;
      i < |defined| && ConstraintName(raw) == defined[i].name
  {
    var name, c := Braced(raw, defined);
    var i := Position(defined, c).value;
    assert defined[i].name == c && ValidName(defined[i].name);
    BracedName(name, c);
  }
}
