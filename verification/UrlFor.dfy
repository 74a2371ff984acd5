/** Reverse URLs: a link built for a route leads back to that route, with the
    values it was built from (korvex/_urls.py:84-126, 210-224). Text is its
    UTF-8 bytes, one character each. */
module UrlFor {
  import opened Wrappers
  import opened Text
  import opened Path
  import RT = RouteTree
  import opened RouteTreeMap
  import opened RouteTreeFind
  import opened RouteTreePriority
  import opened RouteTreeOrder
  import opened RouteText
  import opened Router
  import opened UrlPattern

  // ---- Percent-encoding (section 2.1 of RFC 3986)

  predicate IsByte(c: char) { c as int < 256 }

  function Hex(d: nat): (c: char)
    requires d < 16
    ensures IsHexDigit(c) && HexValue(c) == d
  {
    if d < 10 then '0' + d as char else 'A' + (d - 10) as char
  }

  function HexValue(c: char): nat
    requires IsHexDigit(c)
  {
    if c <= '9' then c as int - '0' as int
    else if c <= 'F' then c as int - 'A' as int + 10
    else c as int - 'a' as int + 10
  }

  /** Hexadecimal digits are read in either case. */
  lemma HexValueIs(i: nat)
    requires i < |HEX_DIGITS|
    ensures IsHexDigit(HEX_DIGITS[i]) && HexValue(HEX_DIGITS[i]) == if i < 16 then i else i - 6
  {
    assert IsHexDigit(HEX_DIGITS[i]) by { HexDigitsAre(HEX_DIGITS[i]); }
  }

  predicate Unreserved(c: char) {
    IsNameChar(c) || c == '.' || c == '-' || c == '~'
  }

  const LITERAL_SAFE := "!$&'()*+,;=:@"

  function QuoteOne(c: char, safe: string): string
    requires IsByte(c)
  {
    if Unreserved(c) || c in safe then [c] else ['%', Hex(c as int / 16), Hex(c as int % 16)]
  }

  /** `urllib.parse.quote`. */
  function Quote(text: string, safe: string): string
    requires AllIn(text, IsByte)
  {
    if text == "" then "" else QuoteOne(text[0], safe) + Quote(text[1..], safe)
  }

  /** `urllib.parse.unquote`: an incomplete escape is left as it is. */
  function Unquote(text: string): string {
    if text == "" then ""
    else if |text| >= 3 && text[0] == '%' && IsHexDigit(text[1]) && IsHexDigit(text[2]) then
      [(HexValue(text[1]) * 16 + HexValue(text[2])) as char] + Unquote(text[3..])
    else [text[0]] + Unquote(text[1..])
  }

  lemma UnquoteOne(c: char, safe: string, tail: string)
    requires IsByte(c) && '%' !in safe
    ensures Unquote(QuoteOne(c, safe) + tail) == [c] + Unquote(tail)
  {
    if Unreserved(c) || c in safe {
      assert ([c] + tail)[1..] == tail;
    } else {
      var a, b := Hex(c as int / 16), Hex(c as int % 16);
      assert (['%', a, b] + tail)[3..] == tail;
      assert HexValue(a) * 16 + HexValue(b) == c as int;
    }
  }

  lemma {:induction false} UnquoteQuote(text: string, safe: string, rest: string)
    requires AllIn(text, IsByte) && '%' !in safe
    ensures Unquote(Quote(text, safe) + rest) == text + Unquote(rest)
  {
    hide Unquote, QuoteOne;
    if text == "" {
      assert "" + rest == rest;
    } else {
      UnquoteQuote(text[1..], safe, rest);
      var tail := Quote(text[1..], safe) + rest;
      UnquoteOne(text[0], safe, tail);
      assert Quote(text, safe) + rest == QuoteOne(text[0], safe) + tail;
      assert text == [text[0]] + text[1..];
    }
  }

  lemma UnquoteSlash(rest: string)
    ensures Unquote("/" + rest) == "/" + Unquote(rest)
  {
    assert ("/" + rest)[1..] == rest;
  }

  // ---- What a link may hold

  /** Section 2.3 of RFC 3986. */
  predicate IsUnreserved(c: char) {
    c in DIGITS || c in LOWER_LETTERS || c in UPPER_LETTERS || c in "-._~"
  }

  /** Section 3.3 of RFC 3986: what a segment of a path may hold besides escapes. */
  predicate IsPathChar(c: char) {
    IsUnreserved(c) || c in "!$&'()*+,;=" || c in ":@"
  }

  /** Made of these characters and of escapes, in upper case. */
  predicate Escaped(s: string, allowed: char -> bool) {
    if s == "" then true
    else if s[0] == '%' then |s| >= 3 && UpperHex(s[1]) && UpperHex(s[2]) && Escaped(s[3..], allowed)
    else allowed(s[0]) && Escaped(s[1..], allowed)
  }

  predicate UpperHex(c: char) {
    c in "0123456789ABCDEF"
  }

  /** What the link holds for a segment: of a parameter, nothing that a path gives a
      meaning to; of a wildcard, slashes too; of a literal, what a segment may hold. */
  predicate LinkText(text: string, place: Place) {
    match place
    case Fixed => Escaped(text, IsPathChar)
    case ParamPlace(_, _) => Escaped(text, IsUnreserved)
    case WildcardPlace(_) => Escaped(text, c => IsUnreserved(c) || c == '/')
  }

  /** No character that ends or splits a path in a URL. */
  predicate Harmless(c: char) {
    IsPathChar(c) || c == '/' || c == '%'
  }

  lemma UnreservedAre(c: char)
    ensures Unreserved(c) <==> IsUnreserved(c)
  {
    AlphanumericsAre(c);
    hide IsAlphanumeric, DIGITS, LOWER_LETTERS, UPPER_LETTERS;
  }

  lemma HexIsUpper(d: nat)
    requires d < 16
    ensures UpperHex(Hex(d))
  {
    assert "0123456789ABCDEF"[d] == Hex(d);
  }

  lemma {:induction false} EscapedConcat(a: string, b: string, allowed: char -> bool)
    requires Escaped(a, allowed) && Escaped(b, allowed)
    ensures Escaped(a + b, allowed)
    decreases |a|
  {
    if a == "" {
      assert a + b == b;
    } else if a[0] == '%' {
      assert (a + b)[3..] == a[3..] + b;
      EscapedConcat(a[3..], b, allowed);
    } else {
      assert (a + b)[1..] == a[1..] + b;
      EscapedConcat(a[1..], b, allowed);
    }
  }

  lemma OneIsEscaped(c: char, safe: string, allowed: char -> bool)
    requires IsByte(c) && '%' !in safe && (forall x | x in safe :: allowed(x)) && forall x | IsUnreserved(x) :: allowed(x)
    ensures Escaped(QuoteOne(c, safe), allowed)
  {
    hide IsUnreserved, UpperHex;
    UnreservedAre(c);
    if Unreserved(c) || c in safe {
      assert c != '%' && [c][1..] == "";
    } else {
      HexIsUpper(c as int / 16);
      HexIsUpper(c as int % 16);
      assert QuoteOne(c, safe)[3..] == "";
    }
  }

  lemma {:induction false} QuoteIsEscaped(text: string, safe: string, allowed: char -> bool)
    requires AllIn(text, IsByte)
    requires '%' !in safe && (forall x | x in safe :: allowed(x)) && forall x | IsUnreserved(x) :: allowed(x)
    ensures Escaped(Quote(text, safe), allowed)
  {
    hide IsUnreserved, QuoteOne;
    if text != "" {
      OneIsEscaped(text[0], safe, allowed);
      QuoteIsEscaped(text[1..], safe, allowed);
      EscapedConcat(QuoteOne(text[0], safe), Quote(text[1..], safe), allowed);
    }
  }

  lemma LiteralSafeAre(c: char)
    ensures c in LITERAL_SAFE ==> IsPathChar(c) && c != '%'
  {}

  /** Nothing but escapes is written otherwise than it is. */
  lemma {:induction false} QuoteKeeps(text: string, safe: string)
    requires AllIn(text, IsByte) && forall c | c in text :: IsUnreserved(c) || c in safe
    ensures Quote(text, safe) == text
  {
    hide IsUnreserved;
    if text != "" {
      assert text[0] in text && forall c | c in text[1..] :: c in text;
      UnreservedAre(text[0]);
      QuoteKeeps(text[1..], safe);
      assert [text[0]] + text[1..] == text;
    }
  }

  // ---- Building a link

  datatype UrlError = Missing | Unexpected | EmptyPart | SlashInParam | BadConstraint | BadType | NotReached | OtherRoute

  /** The text a raw segment of the pattern stands for. */
  function TextFor(raw: string, params: map<string, string>, word: char -> bool): string {
    match NameOf(Classify(raw, word))
    case Some(name) => if name in params then params[name] else ""
    case None => raw
  }

  predicate BadPart(part: string) {
    part == "" || part == "." || part == ".."
  }

  /** The values a segment of the pattern accepts: no empty part, `.` or `..`; in
      a parameter no slash and what its built-in constraint asks; and what
      converts to the type the handler annotated. */
  ghost predicate Accepts(raw: string, params: map<string, string>, typed: (string, string) -> bool, word: char -> bool) {
    var place := Classify(raw, word);
    !place.Fixed? ==>
      && place.name in params
      && var text := params[place.name];
        && (forall part | part in (if place.WildcardPlace? then SplitAll(text, '/') else [text]) :: !BadPart(part))
        && (place.ParamPlace? ==> '/' !in text && !WrongType(place.constraint, text))
        && typed(place.name, text)
  }

  predicate WrongType(constraint: string, text: string) {
    (constraint == "int" && !IsI64(text)) || (constraint == "uuid" && !IsUuid(text))
  }

  /** Why a segment's value is refused. */
  ghost predicate Refuses(e: UrlError, place: Place, text: string, typed: (string, string) -> bool) {
    match e
    case EmptyPart => exists part :: part in SplitAll(text, '/') + [text] && (part == "" || part == "." || part == "..")
    case SlashInParam => place.ParamPlace? && '/' in text
    case BadConstraint => place.ParamPlace? && ((place.constraint == "int" && !IsI64(text)) || (place.constraint == "uuid" && !IsUuid(text)))
    case BadType => !place.Fixed? && !typed(place.name, text)
    case _ => false
  }

  /** One segment, checked and encoded. */
  method Encode(raw: string, params: map<string, string>, typed: (string, string) -> bool, word: char -> bool)
    returns (r: Result<string, UrlError>)
    requires raw != "" && '/' !in raw && AllIn(raw, IsByte)
    requires forall name | name in params :: AllIn(params[name], IsByte)
    requires NameOf(Classify(raw, word)).Some? ==> NameOf(Classify(raw, word)).value in params
    ensures r.Ok? <==> Accepts(raw, params, typed, word)
    ensures r.Err? ==> r.error in {EmptyPart, SlashInParam, BadConstraint, BadType}
    ensures r.Err? ==> Refuses(r.error, Classify(raw, word), TextFor(raw, params, word), typed)
    ensures r.Ok? ==> Segmented(SplitAll(TextFor(raw, params, word), '/'))
    ensures r.Ok? && !Classify(raw, word).WildcardPlace? ==> '/' !in TextFor(raw, params, word)
    ensures r.Ok? ==> forall rest :: Unquote(r.value + rest) == TextFor(raw, params, word) + Unquote(rest)
    ensures r.Ok? ==> LinkText(r.value, Classify(raw, word))
    ensures r.Ok? && Classify(raw, word).Fixed? && (forall c | c in raw :: IsPathChar(c)) ==> r.value == raw
    ensures r.Ok? && !Classify(raw, word).Fixed? && (forall c | c in TextFor(raw, params, word) :: IsUnreserved(c) || c == '/') ==>
      r.value == TextFor(raw, params, word)
  {
    hide QuoteParts, Quote, Unquote, SplitAll, SplitOnce, Escaped, IsUnreserved, IsPathChar;
    var place := Classify(raw, word);
    if place.Fixed? {
      SplitNone(raw);
      forall rest ensures Unquote(Quote(raw, LITERAL_SAFE) + rest) == raw + Unquote(rest) {
        UnquoteQuote(raw, LITERAL_SAFE, rest);
      }
      assert LinkText(Quote(raw, LITERAL_SAFE), place) by { LiteralIsLinkText(raw); }
      if forall c | c in raw :: IsPathChar(c) { LiteralKeeps(raw); }
      return Ok(Quote(raw, LITERAL_SAFE));
    }
    var text := params[place.name];
    var parts := if place.WildcardPlace? then SplitAll(text, '/') else [text];
    var i := 0;
    while i < |parts|
      invariant i <= |parts|
      invariant forall j | 0 <= j < i :: !BadPart(parts[j])
    {
      if BadPart(parts[i]) {
        assert parts[i] in SplitAll(text, '/') + [text];
        return Err(EmptyPart);
      }
      i := i + 1;
    }
    if place.ParamPlace? {
      if '/' in text {
        return Err(SlashInParam);
      }
      if WrongType(place.constraint, text) {
        return Err(BadConstraint);
      }
      SplitNone(text);
    }
    if !typed(place.name, text) {
      return Err(BadType);
    }
    JoinSplit(text, '/');
    assert Join(parts, '/') == text;
    var encoded := QuoteParts(parts);
    forall rest ensures Unquote(encoded + rest) == text + Unquote(rest) { UnquoteParts(parts, rest); }
    PartsAreEscaped(parts);
    if forall c | c in text :: IsUnreserved(c) || c == '/' { TextKeeps(parts); }
    return Ok(encoded);
  }

  lemma TextKeeps(parts: seq<string>)
    requires |parts| > 0 && AllIn(Join(parts, '/'), IsByte) && forall i | 0 <= i < |parts| :: '/' !in parts[i]
    requires forall c | c in Join(parts, '/') :: IsUnreserved(c) || c == '/'
    ensures QuoteParts(parts) == Join(parts, '/')
  {
    hide IsUnreserved;
    forall i, c | 0 <= i < |parts| && c in parts[i]
      ensures IsUnreserved(c)
    {
      JoinHas(parts, i, c);
    }
    PartsKeep(parts);
  }

  lemma {:induction false} JoinHas(parts: seq<string>, i: nat, c: char)
    requires i < |parts| && c in parts[i]
    ensures c in Join(parts, '/')
  {
    if i > 0 { JoinHas(parts[1..], i - 1, c); }
  }

  /** `"/".join(quote(part, safe="") for part in parts)`. */
  function QuoteParts(parts: seq<string>): string
    requires |parts| > 0 && AllIn(Join(parts, '/'), IsByte)
  {
    PartsAllIn(parts);
    if |parts| == 1 then Quote(parts[0], "") else Quote(parts[0], "") + ("/" + QuoteParts(parts[1..]))
  }

  lemma PartsAllIn(parts: seq<string>)
    requires |parts| > 0 && AllIn(Join(parts, '/'), IsByte)
    ensures AllIn(parts[0], IsByte) && (|parts| > 1 ==> AllIn(Join(parts[1..], '/'), IsByte))
  {
    if |parts| > 1 {
      var joined, tail := Join(parts, '/'), Join(parts[1..], '/');
      assert forall i | 0 <= i < |parts[0]| :: joined[i] == parts[0][i];
      assert forall i | 0 <= i < |tail| :: joined[|parts[0]| + 1 + i] == tail[i];
    }
  }

  lemma {:induction false} UnquoteParts(parts: seq<string>, rest: string)
    requires |parts| > 0 && AllIn(Join(parts, '/'), IsByte)
    ensures Unquote(QuoteParts(parts) + rest) == Join(parts, '/') + Unquote(rest)
  {
    hide Quote, Unquote;
    PartsAllIn(parts);
    if |parts| == 1 {
      UnquoteQuote(parts[0], "", rest);
    } else {
      var others, tail := QuoteParts(parts[1..]), Join(parts[1..], '/');
      assert QuoteParts(parts) + rest == Quote(parts[0], "") + ("/" + (others + rest));
      UnquoteQuote(parts[0], "", "/" + (others + rest));
      UnquoteSlash(others + rest);
      UnquoteParts(parts[1..], rest);
      assert Join(parts, '/') + Unquote(rest) == parts[0] + ("/" + (tail + Unquote(rest)));
    }
  }

  lemma {:induction false} PartsAreEscaped(parts: seq<string>)
    requires |parts| > 0 && AllIn(Join(parts, '/'), IsByte)
    ensures Escaped(QuoteParts(parts), c => IsUnreserved(c) || c == '/')
    ensures |parts| == 1 ==> Escaped(QuoteParts(parts), IsUnreserved)
  {
    hide Quote, Escaped, IsUnreserved;
    var slashed := c => IsUnreserved(c) || c == '/';
    PartsAllIn(parts);
    QuoteIsEscaped(parts[0], "", slashed);
    if |parts| == 1 {
      QuoteIsEscaped(parts[0], "", IsUnreserved);
    } else {
      assert Escaped("/", slashed) by { SlashIsEscaped(slashed); }
      PartsAreEscaped(parts[1..]);
      EscapedConcat("/", QuoteParts(parts[1..]), slashed);
      EscapedConcat(Quote(parts[0], ""), "/" + QuoteParts(parts[1..]), slashed);
    }
  }

  /** Parts of unreserved characters are written as they are. */
  lemma {:induction false} PartsKeep(parts: seq<string>)
    requires |parts| > 0 && AllIn(Join(parts, '/'), IsByte)
    requires forall i, c | 0 <= i < |parts| && c in parts[i] :: IsUnreserved(c)
    ensures QuoteParts(parts) == Join(parts, '/')
  {
    hide Quote, IsUnreserved;
    PartsAllIn(parts);
    QuoteKeeps(parts[0], "");
    if |parts| > 1 {
      PartsKeep(parts[1..]);
      assert Join(parts, '/') == parts[0] + ("/" + Join(parts[1..], '/'));
    }
  }

  lemma SlashIsEscaped(allowed: char -> bool)
    requires allowed('/')
    ensures Escaped("/", allowed)
  {
    assert "/"[1..] == "";
  }

  lemma LiteralIsLinkText(raw: string)
    requires AllIn(raw, IsByte)
    ensures Escaped(Quote(raw, LITERAL_SAFE), IsPathChar)
  {
    forall c ensures c in LITERAL_SAFE ==> IsPathChar(c) && c != '%' { LiteralSafeAre(c); }
    hide LITERAL_SAFE;
    QuoteIsEscaped(raw, LITERAL_SAFE, IsPathChar);
  }

  lemma LiteralKeeps(raw: string)
    requires AllIn(raw, IsByte) && forall c | c in raw :: IsPathChar(c)
    ensures Quote(raw, LITERAL_SAFE) == raw
  {
    forall c | c in raw ensures IsUnreserved(c) || c in LITERAL_SAFE { PathCharIsSafe(c); }
    QuoteKeeps(raw, LITERAL_SAFE);
  }

  lemma PathCharIsSafe(c: char)
    requires IsPathChar(c)
    ensures IsUnreserved(c) || c in LITERAL_SAFE
  {
    hide IsUnreserved;
  }

  lemma SplitNone(s: string)
    requires '/' !in s
    ensures SplitAll(s, '/') == [s]
  {}

  // ---- The whole link

  ghost predicate Texts(raws: seq<string>, params: map<string, string>, word: char -> bool, texts: seq<string>) {
    && |texts| == |raws|
    && (forall i | 0 <= i < |raws| :: texts[i] == TextFor(raws[i], params, word))
    && (forall i | 0 <= i < |raws| && NameOf(Classify(raws[i], word)).Some? :: NameOf(Classify(raws[i], word)).value in params)
  }

  /** Texts that can stand in a path: no empty part, a slash in wildcards only. */
  ghost predicate Linkable(raws: seq<string>, texts: seq<string>, word: char -> bool) {
    && |texts| == |raws|
    && (forall i | 0 <= i < |raws| :: Segmented(SplitAll(texts[i], '/')))
    && (forall i | 0 <= i < |raws| && !Classify(raws[i], word).WildcardPlace? :: '/' !in texts[i])
  }

  /** The values given are those expected, no more and no fewer. */
  predicate Given(expected: seq<string>, params: map<string, string>) {
    (forall name | name in expected :: name in params) && forall name | name in params :: name in expected
  }

  function TextsOf(raws: seq<string>, params: map<string, string>, word: char -> bool): (texts: seq<string>)
    ensures |texts| == |raws|
  {
    seq(|raws|, i requires 0 <= i < |raws| => TextFor(raws[i], params, word))
  }

  /** The path reaches the route with this key. */
  ghost predicate Reaches(t: RT.Tree<Route>, rx: RT.Regex, path: string, verb: string, key: string) {
    var answer := Uncached(t, rx, path, verb);
    answer.Found? && answer.route.handler == key
  }

  /** What the link holds for each segment. */
  ghost predicate LinkTexts(encoded: seq<string>, raws: seq<string>, word: char -> bool) {
    |encoded| == |raws| && forall i | 0 <= i < |raws| :: LinkText(encoded[i], Classify(raws[i], word))
  }

  /** A link made of the texts of the segments of its pattern. */
  ghost predicate IsLinkOf(url: string, raws: seq<string>, word: char -> bool) {
    exists encoded :: LinkTexts(encoded, raws, word) && url == "/" + Join(encoded, '/')
  }

  lemma {:induction false} EscapedIsHarmless(s: string, allowed: char -> bool)
    requires Escaped(s, allowed) && forall c | allowed(c) :: Harmless(c)
    ensures AllIn(s, Harmless)
    decreases |s|
  {
    hide IsPathChar;
    if s != "" && s[0] == '%' {
      UpperHexIsHarmless(s[1]);
      UpperHexIsHarmless(s[2]);
      EscapedIsHarmless(s[3..], allowed);
      assert s == [s[0], s[1], s[2]] + s[3..];
    } else if s != "" {
      EscapedIsHarmless(s[1..], allowed);
      assert s == [s[0]] + s[1..];
    }
  }

  lemma UpperHexIsHarmless(c: char)
    requires UpperHex(c)
    ensures Harmless(c)
  {
    hide LOWER_LETTERS;
    assert c in DIGITS || c in UPPER_LETTERS;
  }

  /** No link has a query, a fragment, a space or a control character in it. */
  lemma LinkIsHarmless(encoded: seq<string>, raws: seq<string>, word: char -> bool)
    requires LinkTexts(encoded, raws, word)
    ensures AllIn("/" + Join(encoded, '/'), Harmless)
  {
    hide LinkText, Harmless;
    forall i | 0 <= i < |encoded| ensures AllIn(encoded[i], Harmless) {
      PartIsHarmless(encoded[i], Classify(raws[i], word));
    }
    assert Harmless('/') by { SlashIsHarmless(); }
    JoinIsHarmless(encoded);
  }

  lemma SlashIsHarmless()
    ensures Harmless('/')
  {}

  lemma PartIsHarmless(text: string, place: Place)
    requires LinkText(text, place)
    ensures AllIn(text, Harmless)
  {
    hide Escaped, IsUnreserved;
    match place
    case Fixed => EscapedIsHarmless(text, IsPathChar);
    case ParamPlace(_, _) => EscapedIsHarmless(text, IsUnreserved);
    case WildcardPlace(_) => EscapedIsHarmless(text, c => IsUnreserved(c) || c == '/');
  }

  lemma {:induction false} JoinIsHarmless(parts: seq<string>)
    requires Harmless('/') && forall i | 0 <= i < |parts| :: AllIn(parts[i], Harmless)
    ensures AllIn(Join(parts, '/'), Harmless)
  {
    hide Harmless;
    if |parts| > 1 { JoinIsHarmless(parts[1..]); }
  }

  lemma HarmlessIs(c: char)
    ensures Harmless(c) ==> c != '?' && c != '#' && c != '\\' && 33 <= c as int <= 126
  {
    hide DIGITS, LOWER_LETTERS, UPPER_LETTERS;
    AlphanumericsAre(c);
  }

  /** A link can be made: the values are those the pattern's text asks for, each
      segment accepts its own, and the path they make reaches the route. */
  ghost predicate CanLink(
    t: RT.Tree<Route>, rx: RT.Regex, key: string, verb: string, pattern: string, params: map<string, string>,
    typed: (string, string) -> bool, word: char -> bool)
  {
    var raws := Segments(pattern);
    && Given(Expected(pattern, word), params)
    && (forall i | 0 <= i < |raws| :: Accepts(raws[i], params, typed, word))
    && Reaches(t, rx, "/" + Join(TextsOf(raws, params, word), '/'), verb, key)
  }

  /** Why no link can be made: a name that is expected and not given, one given that
      isn't, a value that is refused, or a path that another route answers, or none. */
  ghost predicate FailsBecause(
    e: UrlError, t: RT.Tree<Route>, rx: RT.Regex, key: string, verb: string, pattern: string, params: map<string, string>,
    typed: (string, string) -> bool, word: char -> bool)
  {
    var expected, raws := Expected(pattern, word), Segments(pattern);
    match e
    case Missing => exists name :: name in expected && name !in params
    case Unexpected => (forall name | name in expected :: name in params) && exists name :: name in params && name !in expected
    case NotReached => !Uncached(t, rx, "/" + Join(TextsOf(raws, params, word), '/'), verb).Found?
    case OtherRoute =>
      var answer := Uncached(t, rx, "/" + Join(TextsOf(raws, params, word), '/'), verb);
      answer.Found? && answer.route.handler != key
    case _ => exists i :: 0 <= i < |raws| && Refuses(e, Classify(raws[i], word), TextFor(raws[i], params, word), typed)
  }

  /** `path_for`: the link for a route, exactly when one can be made. */
  method PathFor(
    router: Router, key: string, verb: string, pattern: string, params: map<string, string>,
    typed: (string, string) -> bool, word: char -> bool)
    returns (r: Result<string, UrlError>, ghost texts: seq<string>)
    requires router.Valid() && WordClass(word)
    requires AllIn(pattern, IsByte) && forall name | name in params :: AllIn(params[name], IsByte)
    ensures r.Ok? <==> CanLink(router.root.tree, router.rx, key, verb, pattern, params, typed, word)
    ensures r.Ok? ==> Texts(Segments(pattern), params, word, texts) && Linkable(Segments(pattern), texts, word)
    ensures r.Ok? ==>
      Unquote(r.value) == "/" + Join(texts, '/') && Reaches(router.root.tree, router.rx, Unquote(r.value), verb, key)
    ensures r.Ok? ==> IsLinkOf(r.value, Segments(pattern), word) && AllIn(r.value, Harmless)
    ensures r.Err? ==> FailsBecause(r.error, router.root.tree, router.rx, key, verb, pattern, params, typed, word)
  {
    hide Recorded, Linkable, Encoded, Refuses, Harmless, LinkTexts, Quote, Unquote, Segments, Uncached, Classify, SplitAll, TextFor, Accepts, Expected, RT.Valid, RT.Find;
    texts := [];
    var expected := Expected(pattern, word);
    if exists name :: name in expected && name !in params {
      return Err(Missing), texts;
    }
    if exists name :: name in params && name !in expected {
      return Err(Unexpected), texts;
    }
    NamesAreExpected(pattern, word);
    PatternAllIn(pattern);
    var encoded := EncodeAll(Segments(pattern), params, typed, word);
    if encoded.Err? {
      return Err(encoded.error), texts;
    }
    var decoded := TextsOf(Segments(pattern), params, word);
    texts := decoded;
    UnquoteJoin(encoded.value, decoded);
    var path, url := "/" + Join(decoded, '/'), "/" + Join(encoded.value, '/');
    UnquoteSlash(Join(encoded.value, '/'));
    var unreached := CheckReached(router, path, key, verb);
    if unreached.Some? {
      return Err(unreached.value), texts;
    }
    LinkIsHarmless(encoded.value, Segments(pattern), word);
    return Ok(url), texts;
  }

  /** `_check_reached`: the path must lead to the route, not to another that answers it first. */
  method CheckReached(router: Router, path: string, key: string, verb: string) returns (e: Option<UrlError>)
    requires router.Valid()
    ensures e.None? <==> Reaches(router.root.tree, router.rx, path, verb, key)
    ensures var answer := Uncached(router.root.tree, router.rx, path, verb);
      e.Some? ==> e.value == if answer.Found? then OtherRoute else NotReached
  {
    hide Uncached, RT.Valid, RT.Find, Recorded;
    var answer := router.CoreMatch(path, verb);
    e := if !answer.Found? then Some(NotReached) else if answer.route.handler != key then Some(OtherRoute) else None;
  }

  /** Every segment, checked and encoded, up to the first that is refused. */
  method EncodeAll(raws: seq<string>, params: map<string, string>, typed: (string, string) -> bool, word: char -> bool)
    returns (r: Result<seq<string>, UrlError>)
    requires forall i | 0 <= i < |raws| :: raws[i] != "" && '/' !in raws[i] && AllIn(raws[i], IsByte)
    requires forall name | name in params :: AllIn(params[name], IsByte)
    requires forall i | 0 <= i < |raws| && NameOf(Classify(raws[i], word)).Some? ::
               NameOf(Classify(raws[i], word)).value in params
    ensures r.Ok? <==> forall i | 0 <= i < |raws| :: Accepts(raws[i], params, typed, word)
    ensures r.Err? ==> r.error in {EmptyPart, SlashInParam, BadConstraint, BadType}
    ensures r.Err? ==> exists i :: 0 <= i < |raws| && Refuses(r.error, Classify(raws[i], word), TextFor(raws[i], params, word), typed)
    ensures r.Ok? ==> Linkable(raws, TextsOf(raws, params, word), word) && Encoded(r.value, TextsOf(raws, params, word))
    ensures r.Ok? ==> LinkTexts(r.value, raws, word)
  {
    hide Refuses, LinkText, IsPathChar, Segmented, Quote, Unquote, Classify, SplitAll, TextFor, Accepts;
    var encoded: seq<string> := [];
    for i := 0 to |raws|
      invariant |encoded| == i
      invariant forall j | 0 <= j < i :: LinkText(encoded[j], Classify(raws[j], word))
      invariant forall j | 0 <= j < i :: Accepts(raws[j], params, typed, word)
      invariant Linkable(raws[..i], TextsOf(raws, params, word)[..i], word)
      invariant Encoded(encoded, TextsOf(raws, params, word)[..i])
    {
      var e := Encode(raws[i], params, typed, word);
      if e.Err? {
        return Err(e.error);
      }
      encoded := encoded + [e.value];
    }
    assert raws[..|raws|] == raws && TextsOf(raws, params, word)[..|raws|] == TextsOf(raws, params, word);
    r := Ok(encoded);
  }

  lemma PatternAllIn(pattern: string)
    requires AllIn(pattern, IsByte)
    ensures forall i | 0 <= i < |Segments(pattern)| :: AllIn(Segments(pattern)[i], IsByte)
  {
    TrimAllIn(pattern, '/', IsByte);
    TrimAllIn(TrimStart(pattern, '/'), '/', IsByte);
    SegmentsAllIn(Trim(pattern, '/'), IsByte);
  }

  /** Each part decodes to its text, whatever follows it. */
  ghost predicate Encoded(encoded: seq<string>, decoded: seq<string>) {
    |encoded| == |decoded| && forall i, rest | 0 <= i < |encoded| :: Unquote(encoded[i] + rest) == decoded[i] + Unquote(rest)
  }

  lemma {:induction false} UnquoteJoin(encoded: seq<string>, decoded: seq<string>)
    requires Encoded(encoded, decoded)
    ensures Unquote(Join(encoded, '/')) == Join(decoded, '/')
  {
    hide Unquote;
    assert Unquote("") == "" by { UnquoteEmpty(); }
    if |encoded| == 1 {
      assert encoded[0] + "" == encoded[0] && decoded[0] + "" == decoded[0];
      assert Unquote(encoded[0] + "") == decoded[0] + Unquote("");
    } else if |encoded| > 1 {
      UnquoteJoin(encoded[1..], decoded[1..]);
      var tail := Join(encoded[1..], '/');
      assert Join(encoded, '/') == encoded[0] + ("/" + tail);
      assert Unquote(encoded[0] + ("/" + tail)) == decoded[0] + Unquote("/" + tail);
      UnquoteSlash(tail);
      assert decoded[0] + ("/" + Join(decoded[1..], '/')) == Join(decoded, '/');
    }
  }

  lemma UnquoteEmpty()
    ensures Unquote("") == ""
  {}

  // ---- What the link captures

  /** What a match of `p` on `texts` captures: each parameter, its text. */
  function Supplied(p: RT.Pattern, texts: seq<string>): seq<RT.Capture>
    requires |texts| == |p|
  {
    if p == [] then []
    else
      (match p[0]
       case Literal(_) => []
       case Param(name, c) => [RT.Capture(name, c, texts[0])]
       case Wildcard(name) => [RT.Capture(name, Any, texts[0])]) + Supplied(p[1..], texts[1..])
  }

  ghost predicate NoSlashEnds(s: string) {
    s != "" && s[0] != '/' && s[|s| - 1] != '/'
  }

  /** A text of non-empty parts has no slash at either end. */
  lemma Ends(text: string)
    requires Segmented(SplitAll(text, '/'))
    ensures NoSlashEnds(text)
  {
    hide SplitAll, SplitOnce;
    JoinSplit(text, '/');
    JoinEnds(SplitAll(text, '/'));
  }

  lemma {:induction false} JoinEnds(parts: seq<string>)
    requires |parts| > 0 && forall i | 0 <= i < |parts| :: NoSlashEnds(parts[i])
    ensures NoSlashEnds(Join(parts, '/'))
  {
    if |parts| > 1 {
      assert forall i | 0 <= i < |parts[1..]| :: NoSlashEnds(parts[1..][i]);
      JoinEnds(parts[1..]);
      var j := Join(parts, '/');
      assert NoSlashEnds(parts[0]) && j[0] == parts[0][0];
      assert j[|j| - 1] == Join(parts[1..], '/')[|Join(parts[1..], '/')| - 1];
    }
  }

  lemma NextOfJoin(texts: seq<string>)
    requires |texts| > 0 && texts[0] != "" && texts[0][0] != '/'
    ensures Remainder(Join(texts, '/')) == Join(texts, '/')
    ensures '/' !in texts[0] ==> NextSegment(Join(texts, '/')) == Some((texts[0], Join(texts[1..], '/')))
    ensures NextSegment(Join(texts, '/')).Some?
  {
    hide SplitOnce;
    var joined := Join(texts, '/');
    assert joined[0] == texts[0][0];
    if |texts| > 1 && '/' !in texts[0] {
      SplitOnceAt(texts[0], '/', Join(texts[1..], '/'));
    }
  }

  /** A pattern that matches the joined texts captures each of them whole. */
  lemma {:induction false} MatchOfJoin(p: RT.Pattern, texts: seq<string>, defined: Constraints, rx: RT.Regex)
    requires |texts| == |p|
    requires forall i | 0 <= i < |p| :: Segmented(SplitAll(texts[i], '/')) && (!p[i].Wildcard? ==> '/' !in texts[i])
    requires Match(p, defined, rx, Join(texts, '/')).Some?
    ensures Match(p, defined, rx, Join(texts, '/')) == Some(Supplied(p, texts))
    decreases |p|
  {
    hide SplitAll, NextSegment, Remainder, Fits;
    if p != [] {
      Ends(texts[0]);
      NextOfJoin(texts);
      if p[0].Wildcard? {
        assert Supplied(p[1..], texts[1..]) == [] && texts == [texts[0]];
        assert Supplied(p, texts) == [RT.Capture(p[0].name, Any, texts[0])];
      } else {
        MatchOfJoin(p[1..], texts[1..], defined, rx);
        assert [] + Supplied(p[1..], texts[1..]) == Supplied(p[1..], texts[1..]);
      }
    }
  }

  lemma TrimSlash(s: string)
    requires s == "" || NoSlashEnds(s)
    ensures Trim("/" + s, '/') == s
  {
    assert ("/" + s)[1..] == s;
  }

  lemma TrimLink(texts: seq<string>)
    requires forall i | 0 <= i < |texts| :: Segmented(SplitAll(texts[i], '/'))
    ensures Trim("/" + Join(texts, '/'), '/') == Join(texts, '/')
  {
    hide SplitAll, Trim, NoSlashEnds, Segmented;
    if texts != [] {
      forall i | 0 <= i < |texts| ensures NoSlashEnds(texts[i]) { Ends(texts[i]); }
      JoinEnds(texts);
    }
    TrimSlash(Join(texts, '/'));
  }

  // ---- Round trip

  /** No other route has the handler key of the one at `p` and `m`. */
  ghost predicate OnlyKey(t: RT.Tree<Route>, p: RT.Pattern, m: RT.Method) {
    && RT.RouteAt(t, p, m).Some?
    && forall q, n | RT.RouteAt(t, q, n).Some? && RT.RouteAt(t, q, n).value.handler == RT.RouteAt(t, p, m).value.handler ::
      q == p && n == m
  }

  /** A parameter whose name is a word is read as that parameter. */
  lemma ClassifyFormat(seg: Segment, defined: Constraints, word: char -> bool)
    requires ValidConstraints(defined) && Parsed(seg, defined)
    requires forall c | IsNameChar(c) :: word(c)
    ensures Classify(Format(seg, defined), word).WildcardPlace? ==> seg.Wildcard?
    ensures !seg.Literal? && IsWord(seg.name, word) ==> NameOf(Classify(Format(seg, defined), word)) == Some(seg.name)
  {
    hide SplitOnce, Lookup, Position;
    match seg
    case Literal(_) =>
    case Wildcard(name) => assert ("*" + name)[1..] == name;
    case Param(name, c) =>
      if c.Any? {
        assert ("{" + name + "}")[1..|name| + 1] == name;
      } else {
        var text := ConstraintText(c, defined);
        assert IsWord(text, word);
        var inner := name + [':'] + text;
        assert ("{" + inner + "}")[1..|inner| + 1] == inner;
        SplitOnceAt(name, ':', text);
      }
  }

  /** What a parameter of a listed route accepts in a link: no empty part, `.` or
      `..`, no slash, and, as the router reads it back, an integer of 64 bits for
      `int` and a UUID for `uuid`; what converts to the type that was annotated. */
  lemma ParamAccepts(
    name: string, c: Constraint, defined: Constraints, params: map<string, string>, typed: (string, string) -> bool,
    word: char -> bool)
    requires ValidConstraints(defined) && Parsed(Param(name, c), defined) && WordClass(word) && IsWord(name, word)
    ensures Accepts(Format(Param(name, c), defined), params, typed, word) <==> (
      && name in params
      && var text := params[name];
        && text != "" && text != "." && text != ".." && '/' !in text
        && (c == Int ==> exists sign, zeros: nat, n: nat :: WritesI64(text, sign, zeros, n))
        && (c == Uuid ==> exists groups :: WritesUuid(text, groups))
        && typed(name, text))
  {
    hide IsI64, IsUuid, WritesI64, WritesUuid, Classify, SplitAll, Format, Parsed;
    ClassifyParam(Param(name, c), defined, word);
    var place := Classify(Format(Param(name, c), defined), word);
    if name in params {
      var text := params[name];
      IntsAre(text);
      UuidsAre(text);
      assert text in [text];
      assert (forall part | part in [text] :: !BadPart(part)) <==> !BadPart(text);
    }
  }

  /** A wildcard accepts slashes too, between parts like those. */
  lemma WildcardAccepts(
    name: string, defined: Constraints, params: map<string, string>, typed: (string, string) -> bool, word: char -> bool)
    requires ValidConstraints(defined) && Parsed(Wildcard(name), defined) && WordClass(word) && IsWord(name, word)
    ensures Accepts(Format(Wildcard(name), defined), params, typed, word) <==> (
      && name in params && typed(name, params[name])
      && forall part | part in SplitAll(params[name], '/') :: part != "" && part != "." && part != "..")
  {
    hide Classify, SplitAll, Format, Parsed;
    ClassifyParam(Wildcard(name), defined, word);
    if name in params {
      var text, place := params[name], Classify(Format(Wildcard(name), defined), word);
      var parts := SplitAll(text, '/');
      assert place == WildcardPlace(name);
      assert (forall part | part in (if place.WildcardPlace? then SplitAll(text, '/') else [text]) :: !BadPart(part))
        <==> (forall part | part in parts :: !BadPart(part));
      assert (forall part | part in parts :: !BadPart(part)) <==> (forall part | part in parts :: part != "" && part != "." && part != "..");
    }
  }

  lemma ClassifyParam(seg: Segment, defined: Constraints, word: char -> bool)
    requires ValidConstraints(defined) && Parsed(seg, defined) && WordClass(word)
    requires !seg.Literal? && IsWord(seg.name, word)
    ensures match seg
      case Wildcard(name) => Classify(Format(seg, defined), word) == WildcardPlace(name)
      case Param(name, c) =>
        exists text :: Classify(Format(seg, defined), word) == ParamPlace(name, text) && (text == "int" <==> c == Int) && (text == "uuid" <==> c == Uuid)
      case Literal(_) => true
  {
    hide SplitOnce, Lookup, Position;
    match seg
    case Literal(_) =>
    case Wildcard(name) => assert ("*" + name)[1..] == name;
    case Param(name, c) =>
      if c.Any? {
        assert ("{" + name + "}")[1..|name| + 1] == name;
        assert ':' !in name;
        assert Classify(Format(seg, defined), word) == ParamPlace(name, "");
      } else {
        var text := ConstraintText(c, defined);
        assert IsWord(text, word) by { TextIsWord(c, defined, word); }
        var inner := name + [':'] + text;
        assert ("{" + inner + "}")[1..|inner| + 1] == inner;
        SplitOnceAt(name, ':', text);
        assert Classify(Format(seg, defined), word) == ParamPlace(name, text);
        if c.Custom? { assert ValidName(defined[c.index].name); }
      }
  }

  lemma TextIsWord(c: Constraint, defined: Constraints, word: char -> bool)
    requires ValidConstraints(defined) && (c.Custom? ==> c.index < |defined|) && forall x | IsNameChar(x) :: word(x)
    ensures IsWord(ConstraintText(c, defined), word)
  {
    if c.Custom? { assert ValidName(defined[c.index].name); }
  }

  /** Following a link: decoded and matched in the same router for the same
      method, the URL built for a listed route leads to that route and captures
      every parameter as the text supplied for it, wildcards included. */
  lemma LinkLeadsBack(
    t: RT.Tree<Route>, defined: Constraints, rx: RT.Regex, p: RT.Pattern, verb: string, texts: seq<string>,
    params: map<string, string>, word: char -> bool, url: string)
    requires RT.Valid(t, defined) && PatternParsed(p, defined) && ValidConstraints(defined)
    requires ParseMethod(verb).Some? && OnlyKey(t, p, ParseMethod(verb).value)
    requires WordClass(word)
    requires Texts(Formatted(p, defined), params, word, texts) && Linkable(Formatted(p, defined), texts, word)
    requires Unquote(url) == "/" + Join(texts, '/')
    requires Reaches(t, rx, Unquote(url), verb, RT.RouteAt(t, p, ParseMethod(verb).value).value.handler)
    ensures |texts| == |p|
    ensures Uncached(t, rx, Unquote(url), verb) == Found(RT.RouteAt(t, p, ParseMethod(verb).value).value, Supplied(p, texts))
    ensures forall i | 0 <= i < |p| && !p[i].Literal? && IsWord(p[i].name, word) ::
      p[i].name in params && texts[i] == params[p[i].name]
  {
    hide RT.Find, RT.Valid, RT.RouteAt, Named, Segments, TextUnder, Unquote, Join, SplitAll, Trim, Format, Classify, Parsed;
    var m := ParseMethod(verb).value;
    var raws := Formatted(p, defined);
    forall i | 0 <= i < |p|
      ensures Classify(raws[i], word).WildcardPlace? ==> p[i].Wildcard?
      ensures !p[i].Literal? && IsWord(p[i].name, word) ==> NameOf(Classify(raws[i], word)) == Some(p[i].name)
    {
      ClassifyFormat(p[i], defined, word);
    }
    TrimLink(texts);
    var q := FindPrefers(t, defined, rx, Join(texts, '/'), m);
    assert q == p;
    MatchOfJoin(p, texts, defined, rx);
  }
}
