/** How a link's builder reads a route's pattern (korvex/_urls.py:84-107): by a
    search over the whole text, for the names it expects, and segment by segment. */
module UrlPattern {
  import opened Wrappers
  import opened Text
  import opened Path

  /** What holds of the regex class of word characters. */
  ghost predicate WordClass(word: char -> bool) {
    (forall c | IsNameChar(c) :: word(c)) && !word('/') && !word('{') && !word('}') && !word(':') && !word('*')
  }

  /** `_PARAM.fullmatch` or `_WILDCARD.fullmatch`: a parameter's name, and its constraint's. */
  datatype Place = Fixed | ParamPlace(name: string, constraint: string) | WildcardPlace(name: string)

  predicate IsWord(text: string, word: char -> bool) {
    text != "" && AllIn(text, word)
  }

  function Classify(raw: string, word: char -> bool): Place {
    if |raw| > 1 && raw[0] == '*' && IsWord(raw[1..], word) then WildcardPlace(raw[1..])
    else if |raw| > 2 && raw[0] == '{' && raw[|raw| - 1] == '}' then
      var inner := raw[1..|raw| - 1];
      match SplitOnce(inner, ':')
      case None => if IsWord(inner, word) then ParamPlace(inner, "") else Fixed
      case Some((name, c)) => if IsWord(name, word) && IsWord(c, word) then ParamPlace(name, c) else Fixed
    else Fixed
  }

  function NameOf(place: Place): Option<string> {
    match place
    case Fixed => None
    case ParamPlace(name, _) => Some(name)
    case WildcardPlace(name) => Some(name)
  }

  // ---- The search

  /** Where the word characters at the start of `s` end. */
  function WordEnd(s: string, word: char -> bool): (n: nat)
    ensures n <= |s| && AllIn(s[..n], word) && (n < |s| ==> !word(s[n]))
  {
    if s == "" || !word(s[0]) then 0 else 1 + WordEnd(s[1..], word)
  }

  /** What the search finds at the start of `s`: a name, and the length of the match. */
  function FoundAt(s: string, word: char -> bool): (r: Option<(string, nat)>)
    ensures r.Some? ==> 0 < r.value.1 <= |s|
  {
    if s == "" then None
    else
      var n := WordEnd(s[1..], word);
      var end := 1 + n;
      if n == 0 then None
      else if s[0] == '*' then Some((s[1..end], end))
      else if s[0] != '{' || end == |s| then None
      else if s[end] == '}' then Some((s[1..end], end + 1))
      else if s[end] == ':' then
        var k := WordEnd(s[end + 1..], word);
        if k > 0 && end + 1 + k < |s| && s[end + 1 + k] == '}' then Some((s[1..end], end + 2 + k)) else None
      else None
  }

  /** A match of the source's expression: a star and a word, as long as can be, or a
      word in braces, perhaps with a colon and another word. */
  ghost predicate MatchAt(s: string, word: char -> bool, name: string, length: nat) {
    && length <= |s| && IsWord(name, word)
    && (|| (s[..length] == "*" + name && (length < |s| ==> !word(s[length])))
        || s[..length] == "{" + name + "}"
        || exists constraint :: IsWord(constraint, word) && s[..length] == "{" + name + (":" + constraint + "}"))
  }

  /** What is found at the start of a text is exactly such a match. */
  lemma FoundAtIs(s: string, word: char -> bool, name: string, length: nat)
    requires WordClass(word)
    ensures FoundAt(s, word) == Some((name, length)) <==> MatchAt(s, word, name, length)
  {
    hide FoundAt, MatchAt;
    if FoundAt(s, word) == Some((name, length)) { FoundMatches(s, word); }
    if MatchAt(s, word, name, length) { MatchIsFound(s, word, name, length); }
  }

  lemma FoundMatches(s: string, word: char -> bool)
    requires FoundAt(s, word).Some?
    ensures MatchAt(s, word, FoundAt(s, word).value.0, FoundAt(s, word).value.1)
  {
    var n := WordEnd(s[1..], word);
    var end := 1 + n;
    var name := s[1..end];
    assert name == s[1..][..n];
    hide WordEnd;
    if s[0] == '*' {
      assert s[..end] == "*" + name;
    } else if s[end] == '}' {
      assert s[..end + 1] == "{" + name + "}";
    } else {
      var k := WordEnd(s[end + 1..], word);
      var constraint := s[end + 1..][..k];
      assert IsWord(constraint, word);
      assert s[..end + 2 + k] == "{" + name + (":" + constraint + "}");
    }
  }

  lemma MatchIsFound(s: string, word: char -> bool, name: string, length: nat)
    requires WordClass(word) && MatchAt(s, word, name, length)
    ensures FoundAt(s, word) == Some((name, length))
  {
    hide FoundAt;
    var rest := s[length..];
    assert s == s[..length] + rest;
    if s[..length] == "*" + name {
      StarIsFound(s, word, name, rest);
    } else if s[..length] == "{" + name + "}" {
      BracesAreFound(s, word, name, rest);
    } else {
      var constraint :| IsWord(constraint, word) && s[..length] == "{" + name + (":" + constraint + "}");
      ConstrainedIsAt(s, word, name, constraint, rest);
    }
  }

  lemma StarIsFound(s: string, word: char -> bool, name: string, rest: string)
    requires WordClass(word) && IsWord(name, word) && s == "*" + name + rest && (rest != "" ==> !word(rest[0]))
    ensures FoundAt(s, word) == Some((name, 1 + |name|))
  {
    hide WordEnd;
    assert s[1..] == name + rest;
    WordEndIs(name, rest, word);
    assert s[1..1 + |name|] == name;
  }

  lemma BracesAreFound(s: string, word: char -> bool, name: string, rest: string)
    requires WordClass(word) && IsWord(name, word) && s == "{" + name + "}" + rest
    ensures FoundAt(s, word) == Some((name, 2 + |name|))
  {
    hide WordEnd;
    assert s[1..] == name + ("}" + rest);
    WordEndIs(name, "}" + rest, word);
    assert s[1..1 + |name|] == name && s[1 + |name|] == '}';
  }

  lemma ConstrainedIsAt(s: string, word: char -> bool, name: string, constraint: string, rest: string)
    requires WordClass(word) && IsWord(name, word) && IsWord(constraint, word)
    requires s == "{" + name + (":" + constraint + "}") + rest
    ensures FoundAt(s, word) == Some((name, 3 + |name| + |constraint|))
  {
    hide WordEnd;
    var end := 1 + |name|;
    ConstrainedParts(s, name, constraint, rest);
    WordEndIs(name, ":" + (constraint + ("}" + rest)), word);
    WordEndIs(constraint, "}" + rest, word);
  }

  lemma ConstrainedParts(s: string, name: string, constraint: string, rest: string)
    requires s == "{" + name + (":" + constraint + "}") + rest
    ensures var end := 1 + |name|;
      && |s| >= end + 2 + |constraint| && s[0] == '{' && s[1..] == name + (":" + (constraint + ("}" + rest)))
      && s[1..end] == name && s[end] == ':' && s[end + 1..] == constraint + ("}" + rest) && s[end + 1 + |constraint|] == '}'
  {
    var end := 1 + |name|;
    var tail := name + (":" + (constraint + ("}" + rest)));
    assert s[1..] == tail;
    assert tail[..|name|] == name && tail[|name| + 1..] == constraint + ("}" + rest);
    assert s[1..end] == tail[..|name|] && s[end + 1..] == tail[|name| + 1..];
  }

  /** Every name the search finds, from left to right. */
  function Expected(s: string, word: char -> bool): seq<string> {
    if s == "" then []
    else
      match FoundAt(s, word)
      case None => Expected(s[1..], word)
      case Some((name, length)) => [name] + Expected(s[length..], word)
  }

  // ---- The two readings agree

  lemma {:induction false} WordEndStops(a: string, b: string, word: char -> bool)
    requires !word('/')
    ensures WordEnd(a + "/" + b, word) == WordEnd(a, word)
  {
    if a == "" {
      assert ("/" + b)[0] == '/' && a + "/" + b == "/" + b;
    } else {
      assert (a + "/" + b)[1..] == a[1..] + "/" + b;
      WordEndStops(a[1..], b, word);
    }
  }

  /** No match goes past a slash. */
  lemma FoundStops(a: string, b: string, word: char -> bool)
    requires a != "" && !word('/')
    ensures FoundAt(a + "/" + b, word) == FoundAt(a, word)
  {
    hide WordEnd;
    var s := a + "/" + b;
    var n := WordEnd(a[1..], word);
    SuffixStops(a, b, 1, word);
    assert s[0] == a[0] && s[1..1 + n] == a[1..1 + n];
    if 1 + n < |a| {
      SuffixStops(a, b, n + 2, word);
      assert s[1 + n] == a[1 + n];
      var k := WordEnd(a[n + 2..], word);
      assert n + 2 + k < |a| ==> s[n + 2 + k] == a[n + 2 + k];
      assert n + 2 + k == |a| ==> s[n + 2 + k] == '/';
    } else {
      assert s[1 + n] == '/';
    }
  }

  lemma SuffixStops(a: string, b: string, k: nat, word: char -> bool)
    requires k <= |a| && !word('/')
    ensures WordEnd((a + "/" + b)[k..], word) == WordEnd(a[k..], word)
  {
    assert (a + "/" + b)[k..] == a[k..] + "/" + b;
    WordEndStops(a[k..], b, word);
  }

  lemma {:induction false} ExpectedSplit(a: string, b: string, word: char -> bool)
    requires !word('/')
    ensures Expected(a + "/" + b, word) == Expected(a, word) + Expected(b, word)
    decreases |a|
  {
    hide FoundAt;
    var s := a + "/" + b;
    if a == "" {
      assert s[0] == '/' && s[1..] == b;
      SlashIsNoStart(s, word);
    } else {
      FoundStops(a, b, word);
      match FoundAt(a, word) {
        case None =>
          assert s[1..] == a[1..] + "/" + b;
          ExpectedSplit(a[1..], b, word);
        case Some((name, length)) =>
          assert s[length..] == a[length..] + "/" + b;
          ExpectedSplit(a[length..], b, word);
      }
    }
  }

  lemma SlashIsNoStart(s: string, word: char -> bool)
    requires s != "" && s[0] == '/'
    ensures FoundAt(s, word).None?
  {}

  /** In a segment that is a parameter, the search finds its name and nothing else. */
  lemma PlaceIsExpected(raw: string, word: char -> bool)
    requires WordClass(word) && NameOf(Classify(raw, word)).Some?
    ensures Expected(raw, word) == [NameOf(Classify(raw, word)).value]
  {
    PlaceIsFound(raw, word);
    assert raw[|raw|..] == "" && Expected("", word) == [];
  }

  lemma WordEndIs(name: string, rest: string, word: char -> bool)
    requires AllIn(name, word) && (rest == "" || !word(rest[0]))
    ensures WordEnd(name + rest, word) == |name|
  {
    var n := WordEnd(name + rest, word);
    assert forall i | 0 <= i < |name| :: (name + rest)[i] == name[i];
    assert rest != "" ==> (name + rest)[|name|] == rest[0];
    assert forall i | 0 <= i < n :: (name + rest)[..n][i] == (name + rest)[i];
  }

  lemma PlaceIsFound(raw: string, word: char -> bool)
    requires WordClass(word) && NameOf(Classify(raw, word)).Some?
    ensures raw != "" && FoundAt(raw, word) == Some((NameOf(Classify(raw, word)).value, |raw|))
  {
    hide WordEnd, SplitOnce;
    match Classify(raw, word)
    case WildcardPlace(name) =>
      assert raw[1..] == name + "" && raw[1..|raw|] == raw[1..];
      WordEndIs(name, "", word);
    case ParamPlace(name, constraint) =>
      var inner := raw[1..|raw| - 1];
      assert raw[1..] == inner + "}";
      if SplitOnce(inner, ':').None? {
        WordEndIs(inner, "}", word);
      } else {
        ConstrainedIsFound(raw, name, constraint, word);
      }
  }

  lemma ConstrainedIsFound(raw: string, name: string, constraint: string, word: char -> bool)
    requires WordClass(word) && IsWord(name, word) && IsWord(constraint, word)
    requires raw != "" && raw[0] == '{' && raw[1..] == name + [':'] + constraint + "}"
    ensures FoundAt(raw, word) == Some((name, |raw|))
  {
    hide WordEnd, FoundAt;
    var rest := [':'] + constraint + "}";
    var end := 1 + |name|;
    assert raw[1..] == name + rest;
    WordEndIs(name, rest, word);
    assert raw[end] == rest[0] && raw[end + 1..] == constraint + "}" && raw[1..end] == name by {
      Cut(raw, name, constraint);
    }
    WordEndIs(constraint, "}", word);
    assert raw[end + 1..][|constraint|] == '}';
    FoundIs(raw, |name|, |constraint|, word);
  }

  lemma Cut(raw: string, name: string, constraint: string)
    requires raw != "" && raw[1..] == name + ([':'] + constraint + "}")
    ensures var end := 1 + |name|;
      |raw| == end + 2 + |constraint| && raw[end] == ':' && raw[end + 1..] == constraint + "}" && raw[1..end] == name
  {
    var tail := raw[1..];
    assert tail[|name|] == ':' && tail[..|name|] == name && tail[|name| + 1..] == constraint + "}";
    assert raw[1 + |name|] == tail[|name|] && raw[1..1 + |name|] == tail[..|name|] && raw[|name| + 2..] == tail[|name| + 1..];
  }

  lemma FoundIs(raw: string, n: nat, k: nat, word: char -> bool)
    requires raw != "" && raw[0] == '{' && n > 0 && k > 0 && |raw| == n + k + 3
    requires WordEnd(raw[1..], word) == n && raw[n + 1] == ':'
    requires WordEnd(raw[n + 2..], word) == k && raw[n + 2 + k] == '}'
    ensures FoundAt(raw, word) == Some((raw[1..n + 1], |raw|))
  {
    hide WordEnd;
  }

  lemma {:induction false} ExpectedTrimmed(s: string, word: char -> bool)
    requires !word('/')
    ensures Expected(TrimStart(s, '/'), word) == Expected(s, word)
  {
    if s != "" && s[0] == '/' {
      ExpectedTrimmed(s[1..], word);
      assert s == "" + "/" + s[1..];
      ExpectedSplit("", s[1..], word);
    }
  }

  lemma {:induction false} ExpectedTrimmedEnd(s: string, word: char -> bool)
    requires !word('/')
    ensures Expected(TrimEnd(s, '/'), word) == Expected(s, word)
  {
    if s != "" && s[|s| - 1] == '/' {
      ExpectedTrimmedEnd(s[..|s| - 1], word);
      assert s == s[..|s| - 1] + "/" + "";
      ExpectedSplit(s[..|s| - 1], "", word);
    }
  }

  /** What the search finds in each segment, in order. */
  function ExpectedIn(raws: seq<string>, word: char -> bool): seq<string> {
    if raws == [] then [] else Expected(raws[0], word) + ExpectedIn(raws[1..], word)
  }

  /** The names of the segments that are parameters, in order. */
  function NamesOf(raws: seq<string>, word: char -> bool): seq<string> {
    if raws == [] then []
    else (match NameOf(Classify(raws[0], word)) case Some(name) => [name] case None => []) + NamesOf(raws[1..], word)
  }

  lemma {:induction false} RestIsExpected(rest: string, word: char -> bool)
    requires !word('/')
    ensures Expected(rest, word) == ExpectedIn(AllSegments(rest), word)
    decreases |rest|
  {
    hide Expected, TrimStart;
    ExpectedTrimmed(rest, word);
    match NextSegment(rest) {
      case None => assert Expected("", word) == [] by { NothingExpected(word); }
      case Some((segment, tail)) =>
        RestIsExpected(tail, word);
        var trimmed := TrimStart(rest, '/');
        if SplitOnce(trimmed, '/').Some? {
          assert trimmed == segment + "/" + tail;
          ExpectedSplit(segment, tail, word);
        } else {
          assert AllSegments("") == [];
        }
        assert AllSegments(rest)[1..] == AllSegments(tail);
    }
  }

  lemma NothingExpected(word: char -> bool)
    ensures Expected("", word) == []
  {}

  /** The search over a whole pattern finds what it finds in each of its segments. */
  lemma PatternIsExpected(pattern: string, word: char -> bool)
    requires !word('/')
    ensures Expected(pattern, word) == ExpectedIn(Segments(pattern), word)
  {
    hide Expected, ExpectedIn, AllSegments, TrimStart, TrimEnd;
    ExpectedTrimmed(pattern, word);
    ExpectedTrimmedEnd(TrimStart(pattern, '/'), word);
    RestIsExpected(Trim(pattern, '/'), word);
  }

  /** The search finds nothing in the segments that are no parameters. */
  ghost predicate PlainLiterals(raws: seq<string>, word: char -> bool) {
    forall i | 0 <= i < |raws| && NameOf(Classify(raws[i], word)).None? :: Expected(raws[i], word) == []
  }

  lemma {:induction false} ExpectedAtLeast(raws: seq<string>, word: char -> bool)
    requires WordClass(word)
    ensures |ExpectedIn(raws, word)| >= |NamesOf(raws, word)|
    ensures |ExpectedIn(raws, word)| == |NamesOf(raws, word)| <==> PlainLiterals(raws, word)
    ensures PlainLiterals(raws, word) ==> ExpectedIn(raws, word) == NamesOf(raws, word)
    ensures forall raw | raw in raws && NameOf(Classify(raw, word)).Some? ::
              NameOf(Classify(raw, word)).value in ExpectedIn(raws, word)
  {
    hide Classify, Expected;
    if raws != [] {
      var raw, rest := raws[0], raws[1..];
      ExpectedAtLeast(rest, word);
      if NameOf(Classify(raw, word)).Some? { PlaceIsExpected(raw, word); }
      assert PlainLiterals(raws, word) <==>
        (NameOf(Classify(raw, word)).None? ==> Expected(raw, word) == []) && PlainLiterals(rest, word) by {
        assert forall i | 0 < i < |raws| :: raws[i] == rest[i - 1];
        assert forall i | 0 <= i < |rest| :: rest[i] == raws[i + 1];
      }
    }
  }

  /** The names that a builder expects are those of the pattern's own parameters,
      in order, exactly when the search finds nothing in its literals. */
  lemma OwnNamesExpectedWhen(pattern: string, word: char -> bool)
    requires WordClass(word)
    ensures Expected(pattern, word) == NamesOf(Segments(pattern), word) <==> PlainLiterals(Segments(pattern), word)
  {
    hide Classify, Expected, Segments, PlainLiterals;
    PatternIsExpected(pattern, word);
    ExpectedAtLeast(Segments(pattern), word);
  }

  /** Every parameter that a pattern has is one that its builder expects, whatever its literals. */
  lemma NamesAreExpected(pattern: string, word: char -> bool)
    requires WordClass(word)
    ensures forall raw | raw in Segments(pattern) && NameOf(Classify(raw, word)).Some? ::
              NameOf(Classify(raw, word)).value in Expected(pattern, word)
  {
    hide Classify, Expected, Segments, PlainLiterals;
    PatternIsExpected(pattern, word);
    ExpectedAtLeast(Segments(pattern), word);
  }

  /** It may expect more: a literal with braces inside is searched too. */
  lemma LiteralsAreSearched(word: char -> bool)
    requires WordClass(word)
    ensures Classify("a{b}c", word) == Fixed && Expected("a{b}c", word) == ["b"]
  {
    var s := "a{b}c";
    assert s[1..] == "{b}c" && s[1..][1..] == "b" + "}c" && s[1..][3..] == "c" + "";
    WordEndIs("b", "}c", word);
    assert s[1..][1..2] == "b";
    assert Expected("c", word) == [] by { assert "c"[1..] == ""; }
  }

  /** A part of a text is made of what the text is made of. */
  lemma {:induction false} SegmentsAllIn(rest: string, p: char -> bool)
    requires AllIn(rest, p)
    ensures forall i | 0 <= i < |AllSegments(rest)| :: AllIn(AllSegments(rest)[i], p)
    decreases |rest|
  {
    TrimAllIn(rest, '/', p);
    match NextSegment(rest) {
      case None =>
      case Some((segment, tail)) =>
        var trimmed := TrimStart(rest, '/');
        if SplitOnce(trimmed, '/').Some? {
          assert trimmed == segment + ['/'] + tail;
          EndsAllIn(segment, ['/'], tail, p);
        }
        SegmentsAllIn(tail, p);
    }
  }

  lemma EndsAllIn(a: string, b: string, c: string, p: char -> bool)
    requires AllIn(a + b + c, p)
    ensures AllIn(a, p) && AllIn(c, p)
  {
    assert forall i | 0 <= i < |a| :: a[i] == (a + b + c)[i];
    assert forall i | 0 <= i < |c| :: c[i] == (a + b + c)[|a| + |b| + i];
  }

  lemma {:induction false} TrimAllIn(s: string, c: char, p: char -> bool)
    requires AllIn(s, p)
    ensures AllIn(TrimStart(s, c), p) && AllIn(TrimEnd(s, c), p)
  {
    if s != "" {
      if s[0] == c { TrimAllIn(s[1..], c, p); }
      if s[|s| - 1] == c { TrimAllIn(s[..|s| - 1], c, p); }
    }
  }
}
