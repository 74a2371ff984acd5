/** The `Forwarded` header of RFC 7239 and its older cousins: who the client
    really is behind proxies that append what they saw (src/proxy.rs:215-300). */
module Forwarded {
  import opened Wrappers
  import Text

  // ---- Inside and outside quotes

  datatype Mode = Plain | Quoted | Escaped

  function Next(m: Mode, c: char): Mode {
    match m
    case Escaped => Quoted
    case Quoted => if c == '\\' then Escaped else if c == '"' then Plain else Quoted
    case Plain => if c == '"' then Quoted else Plain
  }

  function Scan(m: Mode, s: string): Mode
    decreases |s|
  {
    if s == "" then m else Scan(Next(m, s[0]), s[1..])
  }

  /** No quote left open, no escape left hanging. */
  predicate Balanced(s: string) {
    Scan(Plain, s) == Plain
  }

  /** The parts between separators outside quotes, `m` being where `s` starts. */
  function Cut(m: Mode, s: string, sep: char): (parts: seq<string>)
    ensures |parts| > 0
    decreases |s|
  {
    if s == "" then [""]
    else if s[0] == sep && m == Plain then [""] + Cut(Plain, s[1..], sep)
    else Glue([s[0]], Cut(Next(m, s[0]), s[1..], sep))
  }

  /** `s` put in front of the first part. */
  function Glue(s: string, parts: seq<string>): seq<string>
    requires |parts| > 0
  {
    [s + parts[0]] + parts[1..]
  }

  /** The parts trimmed, without the empty ones. */
  function Kept(parts: seq<string>): seq<string> {
    if parts == [] then []
    else (if Text.Strip(parts[0]) != "" then [Text.Strip(parts[0])] else []) + Kept(parts[1..])
  }

  /** What `SplitUnquoted` returns. */
  function Parts(text: string, sep: char): Option<seq<string>> {
    if Balanced(text) then Some(Kept(Cut(Plain, text, sep))) else None
  }

  function ModeOf(quoted: bool, escaped: bool): Mode {
    if escaped then Escaped else if quoted then Quoted else Plain
  }

  method SplitUnquoted(text: string, sep: char) returns (r: Option<seq<string>>)
    requires sep != '"'
    ensures r == Parts(text, sep)
  {
    hide SoFar, Scan, Cut, Kept;
    var raw: seq<string> := [];
    var start, quoted, escaped := 0, false, false;
    var index := 0;
    assert text[0..] == text && text[0..0] == "";
    SoFarStart(text, sep);
    while index < |text|
      invariant start <= index <= |text|
      invariant escaped ==> quoted
      invariant SoFar(text, sep, raw, text[start..index], ModeOf(quoted, escaped), text[index..])
    {
      var c := text[index];
      ghost var m := ModeOf(quoted, escaped);
      SoFarStep(text, sep, raw, text[start..index], m, text[index..]);
      assert text[index..][1..] == text[index + 1..];
      assert text[start..index + 1] == text[start..index] + [c];
      if escaped {
        escaped := false;
      } else if c == '\\' && quoted {
        escaped := true;
      } else if c == '"' {
        quoted := !quoted;
      } else if c == sep && !quoted {
        raw := raw + [text[start..index]];
        start := index + 1;
      }
      index := index + 1;
    }
    SoFarEnd(text, sep, raw, text[start..index], ModeOf(quoted, escaped), text[index..]);
    if quoted || escaped {
      return None;
    }
    raw := raw + [text[start..]];
    assert text[start..index] == text[start..];
    r := Some(Kept(raw));
  }

  /** Where the cut of `text` stands, with `raw` and `part` behind and `rest` ahead. */
  ghost predicate SoFar(text: string, sep: char, raw: seq<string>, part: string, m: Mode, rest: string) {
    Scan(Plain, text) == Scan(m, rest) && Cut(Plain, text, sep) == raw + Glue(part, Cut(m, rest, sep))
  }

  lemma SoFarStart(text: string, sep: char)
    ensures SoFar(text, sep, [], "", Plain, text)
  {
    GlueNothing(Cut(Plain, text, sep));
  }

  lemma SoFarStep(text: string, sep: char, raw: seq<string>, part: string, m: Mode, rest: string)
    requires rest != "" && SoFar(text, sep, raw, part, m, rest)
    ensures if rest[0] == sep && m == Plain then sep == '"' || SoFar(text, sep, raw + [part], "", Plain, rest[1..])
            else SoFar(text, sep, raw, part + [rest[0]], Next(m, rest[0]), rest[1..])
  {
    if rest[0] == sep && m == Plain {
      GlueNothing(Cut(Plain, rest[1..], sep));
      assert part + "" == part;
      assert raw + ([part] + Cut(Plain, rest[1..], sep)) == raw + [part] + Cut(Plain, rest[1..], sep);
    } else {
      GlueTwice(part, [rest[0]], Cut(Next(m, rest[0]), rest[1..], sep));
    }
  }

  lemma SoFarEnd(text: string, sep: char, raw: seq<string>, part: string, m: Mode, rest: string)
    requires rest == "" && SoFar(text, sep, raw, part, m, rest)
    ensures Scan(Plain, text) == m && Cut(Plain, text, sep) == raw + [part]
  {
    assert part + "" == part;
  }

  lemma GlueNothing(parts: seq<string>)
    requires |parts| > 0
    ensures Glue("", parts) == parts
  {
    assert "" + parts[0] == parts[0];
  }

  lemma GlueTwice(a: string, b: string, parts: seq<string>)
    requires |parts| > 0
    ensures Glue(a, Glue(b, parts)) == Glue(a + b, parts)
  {
    assert a + (b + parts[0]) == (a + b) + parts[0];
  }

  // ---- What a cut is

  lemma {:induction false} ScanConcat(m: Mode, a: string, b: string)
    ensures Scan(m, a + b) == Scan(Scan(m, a), b)
    decreases |a|
  {
    if a == "" {
      assert a + b == b;
    } else {
      assert (a + b)[1..] == a[1..] + b;
      ScanConcat(Next(m, a[0]), a[1..], b);
    }
  }

  /** A separator met outside quotes always cuts. */
  lemma {:induction false} CutAppend(m: Mode, a: string, sep: char, b: string)
    requires sep != '"' && Scan(m, a) == Plain
    ensures Cut(m, a + [sep] + b, sep) == Cut(m, a, sep) + Cut(Plain, b, sep)
    decreases |a|
  {
    var s := a + [sep] + b;
    if a == "" {
      assert s[1..] == b;
    } else {
      assert s[1..] == a[1..] + [sep] + b;
      if a[0] == sep && m == Plain {
        CutAppend(Plain, a[1..], sep, b);
      } else {
        CutAppend(Next(m, a[0]), a[1..], sep, b);
      }
    }
  }

  /** A part as `Cut` leaves it: balanced, without a separator outside quotes. */
  predicate Part(s: string, sep: char) {
    Balanced(s) && Cut(Plain, s, sep) == [s]
  }

  /** Cutting undoes joining: of any parts, whatever their quotes hold. */
  lemma {:induction false} CutJoin(parts: seq<string>, sep: char)
    requires sep != '"' && |parts| > 0 && forall i | 0 <= i < |parts| :: Part(parts[i], sep)
    ensures Balanced(Text.Join(parts, sep))
    ensures Cut(Plain, Text.Join(parts, sep), sep) == parts
  {
    if |parts| > 1 {
      var rest := Text.Join(parts[1..], sep);
      CutJoin(parts[1..], sep);
      CutAppend(Plain, parts[0], sep, rest);
      ScanConcat(Plain, parts[0] + [sep], rest);
      ScanConcat(Plain, parts[0], [sep]);
    }
  }

  lemma JoinGlue(s: string, parts: seq<string>, sep: char)
    requires |parts| > 0
    ensures Text.Join(Glue(s, parts), sep) == s + Text.Join(parts, sep)
  {
    var glued := Glue(s, parts);
    assert glued[1..] == parts[1..];
    if |parts| > 1 {
      assert s + (parts[0] + [sep] + Text.Join(parts[1..], sep)) == (s + parts[0]) + [sep] + Text.Join(parts[1..], sep);
    }
  }

  /** One more character in front of a first part. */
  lemma CutOne(m: Mode, c: char, s: string, sep: char)
    requires !(c == sep && m == Plain)
    ensures Scan(m, [c] + s) == Scan(Next(m, c), s)
    ensures Cut(m, [c] + s, sep) == Glue([c], Cut(Next(m, c), s, sep))
  {
    assert ([c] + s)[1..] == s;
  }

  /** Joining undoes cutting, and the pieces of a balanced text are parts. */
  lemma {:induction false} CutIsParts(m: Mode, s: string, sep: char)
    requires sep != '"' && Scan(m, s) == Plain
    ensures var parts := Cut(m, s, sep);
      && Text.Join(parts, sep) == s
      && Scan(m, parts[0]) == Plain && Cut(m, parts[0], sep) == [parts[0]]
      && forall i | 0 < i < |parts| :: Part(parts[i], sep)
    decreases |s|
  {
    if s != "" {
      var c, tail := s[0], s[1..];
      assert s == [c] + tail;
      if c == sep && m == Plain {
        CutIsParts(Plain, tail, sep);
        CutAtSeparator(tail, sep);
      } else {
        hide Cut, Scan;
        CutOne(m, c, tail, sep);
        CutIsParts(Next(m, c), tail, sep);
        var rest := Cut(Next(m, c), tail, sep);
        JoinGlue([c], rest, sep);
        CutOne(m, c, rest[0], sep);
      }
    }
  }

  lemma CutAtSeparator(tail: string, sep: char)
    requires sep != '"'
    ensures Cut(Plain, [sep] + tail, sep) == [""] + Cut(Plain, tail, sep)
    ensures Text.Join([""] + Cut(Plain, tail, sep), sep) == [sep] + Text.Join(Cut(Plain, tail, sep), sep)
  {
    assert ([sep] + tail)[1..] == tail;
    assert ([""] + Cut(Plain, tail, sep))[1..] == Cut(Plain, tail, sep);
    assert "" + [sep] + Text.Join(Cut(Plain, tail, sep), sep) == [sep] + Text.Join(Cut(Plain, tail, sep), sep);
  }

  lemma {:induction false} TrimLeftBalanced(s: string)
    requires Balanced(s)
    ensures Balanced(Text.StripLeft(s))
  {
    if s != "" && Text.Space(s[0]) {
      TrimLeftBalanced(s[1..]);
    }
  }

  lemma {:induction false} TrimRightBalanced(s: string)
    requires Balanced(s)
    ensures Balanced(Text.StripRight(s))
  {
    if s != "" && Text.Space(s[|s| - 1]) {
      var last := s[|s| - 1];
      assert s == s[..|s| - 1] + [last];
      ScanConcat(Plain, s[..|s| - 1], [last]);
      assert Scan(Scan(Plain, s[..|s| - 1]), [last]) == Next(Scan(Plain, s[..|s| - 1]), last);
      TrimRightBalanced(s[..|s| - 1]);
    }
  }

  lemma {:induction false} KeptBalanced(parts: seq<string>)
    requires forall i | 0 <= i < |parts| :: Balanced(parts[i])
    ensures forall part | part in Kept(parts) :: Balanced(part)
  {
    if parts != [] {
      TrimLeftBalanced(parts[0]);
      TrimRightBalanced(Text.StripLeft(parts[0]));
      KeptBalanced(parts[1..]);
    }
  }

  /** The parts of a balanced line are balanced after trimming, so the second
      split, inside each part, never fails. */
  lemma PartsAreBalanced(text: string, sep: char)
    requires sep != '"' && Balanced(text)
    ensures forall part | part in Parts(text, sep).value :: Balanced(part)
  {
    CutIsParts(Plain, text, sep);
    assert Part(Cut(Plain, text, sep)[0], sep);
    KeptBalanced(Cut(Plain, text, sep));
  }

  // ---- Quoted values

  function Unescape(s: string): string {
    if s == "" then ""
    else if s[0] != '\\' then [s[0]] + Unescape(s[1..])
    else if |s| == 1 then "\\"
    else [s[1]] + Unescape(s[2..])
  }

  function Unquoted(value: string): string {
    if |value| >= 2 && value[0] == '"' && value[|value| - 1] == '"' then Unescape(value[1..|value| - 1]) else value
  }

  method Unquote(value: string) returns (out: string)
    ensures out == Unquoted(value)
  {
    if !(|value| >= 2 && value[0] == '"' && value[|value| - 1] == '"') {
      return value;
    }
    var inner := value[1..|value| - 1];
    out := "";
    var i := 0;
    while i < |inner|
      invariant 0 <= i <= |inner|
      invariant Unescape(inner) == out + Unescape(inner[i..])
    {
      var c := inner[i];
      i := i + 1;
      if c == '\\' && i < |inner| {
        assert inner[i - 1..][2..] == inner[i + 1..];
        c := inner[i];
        i := i + 1;
      } else {
        assert inner[i - 1..][1..] == inner[i..];
      }
      out := out + [c];
    }
  }

  function Escape(v: string): string {
    if v == "" then "" else EscapeOne(v[0]) + Escape(v[1..])
  }

  function Quote(v: string): string {
    "\"" + Escape(v) + "\""
  }

  lemma {:induction false} UnescapeEscape(v: string)
    ensures Unescape(Escape(v)) == v
  {
    if v != "" {
      var e := Escape(v);
      UnescapeEscape(v[1..]);
      if v[0] == '"' || v[0] == '\\' {
        assert e[2..] == Escape(v[1..]);
      } else {
        assert e[1..] == Escape(v[1..]);
      }
      assert [v[0]] + v[1..] == v;
    }
  }

  lemma UnquoteQuote(v: string)
    ensures Unquoted(Quote(v)) == v
  {
    UnescapeEscape(v);
    assert Quote(v)[1..|Quote(v)| - 1] == Escape(v);
  }

  function EscapeOne(c: char): string {
    if c == '"' || c == '\\' then ['\\', c] else [c]
  }

  lemma EscapedCharStays(c: char, rest: string, sep: char)
    ensures Scan(Quoted, EscapeOne(c) + rest) == Scan(Quoted, rest)
    ensures Cut(Quoted, EscapeOne(c) + rest, sep) == Glue(EscapeOne(c), Cut(Quoted, rest, sep))
  {
    var s := EscapeOne(c) + rest;
    if c == '"' || c == '\\' {
      assert s[1..][0] == c && s[1..][1..] == rest;
      GlueTwice(['\\'], [c], Cut(Quoted, rest, sep));
      assert ['\\'] + [c] == ['\\', c];
    } else {
      assert s[1..] == rest;
    }
  }

  /** Nothing in an escaped value closes its quotes. */
  lemma {:induction false} EscapeStaysQuoted(v: string, rest: string, sep: char)
    ensures Scan(Quoted, Escape(v) + rest) == Scan(Quoted, rest)
    ensures Cut(Quoted, Escape(v) + rest, sep) == Glue(Escape(v), Cut(Quoted, rest, sep))
  {
    hide Scan, Cut;
    if v == "" {
      assert "" + rest == rest;
      GlueNothing(Cut(Quoted, rest, sep));
    } else {
      var one, tail := EscapeOne(v[0]), Escape(v[1..]);
      assert Escape(v) + rest == one + (tail + rest);
      EscapedCharStays(v[0], tail + rest, sep);
      EscapeStaysQuoted(v[1..], rest, sep);
      GlueTwice(one, tail, Cut(Quoted, rest, sep));
    }
  }

  // ---- Elements

  datatype Element = Element(node: Option<string>, proto: Option<string>, host: Option<string>)

  const EMPTY := Element(None, None, None)

  /** One `name=value` pair read into the element; others are skipped. */
  function Apply(e: Element, pair: string): Element {
    match Text.SplitOnce(pair, '=')
    case None => e
    case Some((name, value)) =>
      var v := Unquoted(Text.Strip(value));
      var key := Text.Lower(Text.Strip(name));
      if key == "for" then e.(node := Some(v))
      else if key == "proto" then e.(proto := Some(v))
      else if key == "host" then e.(host := Some(v))
      else e
  }

  function ApplyAll(pairs: seq<string>): Element {
    if pairs == [] then EMPTY else Apply(ApplyAll(pairs[..|pairs| - 1]), pairs[|pairs| - 1])
  }

  /** The element of one part. */
  function ElementOf(part: string): Element {
    match Parts(part, ';')
    case None => EMPTY
    case Some(pairs) => ApplyAll(pairs)
  }

  /** The elements of parts, without the empty ones. */
  function Collect(parts: seq<string>): seq<Element> {
    if parts == [] then []
    else
      var e := ElementOf(parts[|parts| - 1]);
      Collect(parts[..|parts| - 1]) + (if e != EMPTY then [e] else [])
  }

  function LineElements(line: string): seq<Element> {
    match Parts(line, ',')
    case None => []
    case Some(parts) => Collect(parts)
  }

  function AllElements(lines: seq<string>): seq<Element> {
    if lines == [] then [] else AllElements(lines[..|lines| - 1]) + LineElements(lines[|lines| - 1])
  }

  predicate AllBalanced(lines: seq<string>) {
    forall i | 0 <= i < |lines| :: Balanced(lines[i])
  }

  /** The elements of a header, over all its lines; one unbalanced line spoils them all. */
  function Elements(lines: seq<string>): seq<Element> {
    if AllBalanced(lines) then AllElements(lines) else []
  }

  method ParseElement(part: string) returns (e: Element)
    ensures e == ElementOf(part)
  {
    var split := SplitUnquoted(part, ';');
    e := EMPTY;
    var pairs := if split.Some? then split.value else [];
    for i := 0 to |pairs|
      invariant e == ApplyAll(pairs[..i])
    {
      assert pairs[..i + 1][..i] == pairs[..i];
      var named := Text.SplitOnce(pairs[i], '=');
      if named.Some? {
        var value := Unquote(Text.Strip(named.value.1));
        var key := Text.Lower(Text.Strip(named.value.0));
        if key == "for" {
          e := e.(node := Some(value));
        } else if key == "proto" {
          e := e.(proto := Some(value));
        } else if key == "host" {
          e := e.(host := Some(value));
        }
      }
    }
    assert pairs[..|pairs|] == pairs;
  }

  lemma CollectNone(parts: seq<string>)
    ensures Collect(parts[..0]) == []
  {}

  lemma CollectNext(parts: seq<string>, i: nat)
    requires i < |parts|
    ensures var e := ElementOf(parts[i]);
      Collect(parts[..i + 1]) == Collect(parts[..i]) + (if e != EMPTY then [e] else [])
  {
    hide ElementOf;
    assert parts[..i + 1][..i] == parts[..i];
  }

  lemma AllNone(lines: seq<string>)
    ensures AllElements(lines[..0]) == []
  {}

  lemma AllNext(lines: seq<string>, k: nat)
    requires k < |lines|
    ensures AllElements(lines[..k + 1]) == AllElements(lines[..k]) + LineElements(lines[k])
  {
    hide LineElements;
    assert lines[..k + 1][..k] == lines[..k];
  }

  method ParseForwarded(lines: seq<string>) returns (elements: seq<Element>)
    ensures elements == Elements(lines)
  {
    hide ElementOf, Cut, Kept, Scan, Collect, AllElements;
    elements := [];
    AllNone(lines);
    for k := 0 to |lines|
      invariant AllBalanced(lines[..k]) && elements == AllElements(lines[..k])
    {
      AllNext(lines, k);
      var split := SplitUnquoted(lines[k], ',');
      if split.None? {
        assert !Balanced(lines[k]);
        return [];
      }
      var parts := split.value;
      CollectNone(parts);
      for i := 0 to |parts|
        invariant elements == AllElements(lines[..k]) + Collect(parts[..i])
      {
        CollectNext(parts, i);
        var element := ParseElement(parts[i]);
        if element != EMPTY {
          elements := elements + [element];
        }
      }
      assert parts[..|parts|] == parts;
    }
    assert lines[..|lines|] == lines;
  }

  // ---- What a proxy appends

  lemma {:induction false} KeptConcat(a: seq<string>, b: seq<string>)
    ensures Kept(a + b) == Kept(a) + Kept(b)
  {
    if a == [] {
      assert a + b == b;
    } else {
      assert (a + b)[1..] == a[1..] + b;
      KeptConcat(a[1..], b);
    }
  }

  lemma {:induction false} CollectConcat(a: seq<string>, b: seq<string>)
    ensures Collect(a + b) == Collect(a) + Collect(b)
    decreases |b|
  {
    hide ElementOf;
    if b == [] {
      assert a + b == a;
    } else {
      assert (a + b)[..|a + b| - 1] == a + b[..|b| - 1];
      CollectConcat(a, b[..|b| - 1]);
    }
  }

  /** A space in front changes nothing. */
  lemma LeadingSpace(p: string)
    requires Balanced(p)
    ensures Balanced(" " + p) && LineElements(" " + p) == LineElements(p)
  {
    assert (" " + p)[1..] == p && (" " + p)[0] == ' ';
    var parts := Cut(Plain, p, ',');
    assert Cut(Plain, " " + p, ',') == Glue(" ", parts);
    assert (" " + parts[0])[1..] == parts[0];
    assert Glue(" ", parts)[1..] == parts[1..];
  }

  /** The append law. After a balanced text, the appended elements follow its
      own. */
  lemma AppendLaw(c: string, p: string)
    requires Balanced(c) && Balanced(p)
    ensures Balanced(c + ", " + p)
    ensures LineElements(c + ", " + p) == LineElements(c) + LineElements(p)
  {
    var q := " " + p;
    assert c + ", " + p == c + [','] + q;
    LeadingSpace(p);
    CutAppend(Plain, c, ',', q);
    ScanConcat(Plain, c + [','], q);
    ScanConcat(Plain, c, [',']);
    KeptConcat(Cut(Plain, c, ','), Cut(Plain, q, ','));
    CollectConcat(Kept(Cut(Plain, c, ',')), Kept(Cut(Plain, q, ',')));
  }

  /** Without backslashes, text that is balanced outside quotes leaves open
      quotes open. */
  lemma {:induction false} QuotesFlip(s: string)
    requires '\\' !in s
    ensures Scan(Quoted, s) == Quoted <==> Scan(Plain, s) == Plain
    ensures Scan(Quoted, s) == Plain <==> Scan(Plain, s) == Quoted
  {
    if s != "" {
      assert s[0] in s && forall c | c in s[1..] :: c in s;
      QuotesFlip(s[1..]);
    }
  }

  /** After an unbalanced text, the line is rejected exactly when the appended
      element does not itself close an open quote. */
  lemma AppendAfterOpenQuote(c: string, p: string)
    requires !Balanced(c)
    ensures Balanced(c + ", " + p) <==> Scan(Quoted, p) == Plain
  {
    hide Scan;
    var q := [' '] + p;
    assert c + ", " + p == c + ([','] + q);
    ScanConcat(Plain, c, [','] + q);
    var m := Scan(Plain, c);
    ScanStep(m, ',', q);
    ScanStep(Next(m, ','), ' ', p);
  }

  lemma ScanStep(m: Mode, c: char, s: string)
    ensures Scan(m, [c] + s) == Scan(Next(m, c), s)
  {
    assert ([c] + s)[1..] == s;
  }

  /** So an element without backslashes is never swallowed by the quote a
      client left open: the whole header is ignored instead. */
  lemma OpenQuoteIsIgnored(lines: seq<string>, c: string, p: string)
    requires !Balanced(c) && Balanced(p) && '\\' !in p
    ensures Elements(lines + [c + ", " + p]) == []
  {
    AppendAfterOpenQuote(c, p);
    QuotesFlip(p);
    assert (lines + [c + ", " + p])[|lines|] == c + ", " + p;
  }

  /** Text that opens a quote, more text, and an end that closes it: one part. */
  lemma Swallowed(a: string, b: string, d: string, sep: char)
    requires sep !in a && '"' !in a && sep != '"'
    requires '"' !in b && '\\' !in b
    requires sep !in d && Scan(Quoted, d) == Plain
    ensures var line := a + ("\"" + (b + d));
      Balanced(line) && Cut(Plain, line, sep) == [line]
  {
    hide Scan, Cut;
    Outside(Plain, a, sep);
    Outside(Quoted, d, sep);
    Inside(b, sep);
    QuoteOpens(sep);
    WholeConcat(Quoted, b, d, sep);
    WholeConcat(Plain, "\"", b + d, sep);
    WholeConcat(Plain, a, "\"" + (b + d), sep);
    ScanConcat(Quoted, b, d);
    ScanConcat(Plain, "\"", b + d);
    ScanConcat(Plain, a, "\"" + (b + d));
  }

  lemma QuoteOpens(sep: char)
    requires sep != '"'
    ensures Scan(Plain, "\"") == Quoted && Cut(Plain, "\"", sep) == ["\""]
  {
    Outside(Plain, "\"", sep);
    assert "\""[1..] == "";
  }

  /** With an escaped quote in it, a balanced element can be swallowed: the line
      is accepted, and the client's element is the only one the server reads. */
  lemma EscapedQuoteIsSwallowed()
    ensures var c, p := "for=a;x=\"", "for=b;y=\"\\\"\"";
      && !Balanced(c) && Balanced(p)
      && Balanced(c + ", " + p)
      && LineElements(c + ", " + p) == [Element(Some("a"), None, None)]
  {
    hide Scan, Cut, LineElements;
    var c, p := "for=a;x=\"", "for=b;y=\"\\\"\"";
    var a, b, d := "for=a;x=", "for=b;y=", "\"\\\"\"";
    var line := c + ", " + p;
    ShortScan(d);
    Swallowed(a, ", " + b, d, ',');
    Outside(Plain, a, ',');
    Outside(Plain, b, ',');
    QuoteOpens(',');
    ScanConcat(Plain, a, "\"");
    ScanConcat(Plain, b, d);
    assert c == a + "\"" && p == b + d;
    assert line == a + ("\"" + (", " + b + d));
    var rest := "x=" + ("\"" + (", " + b + d));
    assert line == "for=a" + [';'] + rest;
    Swallowed("x=", ", " + b, d, ';');
    Outside(Plain, "for=a", ';');
    CutAppend(Plain, "for=a", ';', rest);
    assert line[0] == 'f' && line[|line| - 1] == '"' && rest[0] == 'x' && rest[|rest| - 1] == '"';
    SwallowedElement(line, rest);
  }

  /** A part that is a `for` pair and a pair of no known name. */
  lemma SwallowedElement(line: string, rest: string)
    requires Balanced(line) && Cut(Plain, line, ',') == [line] && Cut(Plain, line, ';') == ["for=a", rest]
    requires Tidy(line) && Tidy(rest) && |rest| > 2 && rest[0] == 'x' && rest[1] == '='
    ensures LineElements(line) == [Element(Some("a"), None, None)]
  {
    hide Scan, Cut, Text.Strip, Apply;
    TidyKept([line]);
    TidyKept(["for=a", rest]);
    ForPair();
    OtherPair(Element(Some("a"), None, None), rest);
    ApplyTwo("for=a", rest);
    CollectOne(line);
  }

  lemma ForPair()
    ensures Apply(EMPTY, "for=a") == Element(Some("a"), None, None)
  {
    hide Text.Strip;
    assert "for=a" == "for" + ['='] + "a";
    Text.SplitOnceAt("for", '=', "a");
    TidyTrim("for");
    TidyTrim("a");
    assert Text.Lower("for") == "for";
  }

  lemma OtherPair(e: Element, pair: string)
    requires |pair| >= 2 && pair[0] == 'x' && pair[1] == '='
    ensures Apply(e, pair) == e
  {
    hide Text.Strip, Unquoted;
    assert pair == "x" + ['='] + pair[2..];
    Text.SplitOnceAt("x", '=', pair[2..]);
    TidyTrim("x");
    assert Text.Lower("x")[0] == 'x';
  }

  lemma ApplyTwo(a: string, b: string)
    ensures ApplyAll([a, b]) == Apply(Apply(EMPTY, a), b)
  {
    hide Apply;
    assert [a, b][..1] == [a] && [a][..0] == [];
    assert ApplyAll([]) == EMPTY && ApplyAll([a]) == Apply(ApplyAll([]), a);
  }

  lemma ShortScan(d: string)
    requires d == "\"\\\"\""
    ensures Scan(Plain, d) == Plain && Scan(Quoted, d) == Plain
  {
    var d1 := d[1..];
    var d2 := d1[1..];
    var d3 := d2[1..];
    assert d[0] == '"' && d1[0] == '\\' && d2[0] == '"' && d3[0] == '"' && d3[1..] == "";
    assert Scan(Plain, d) == Scan(Quoted, d1) == Scan(Escaped, d2) == Scan(Quoted, d3) == Scan(Plain, "");
    assert Scan(Quoted, d) == Scan(Plain, d1) == Scan(Plain, d2) == Scan(Quoted, d3);
  }

  lemma {:induction false} Outside(m: Mode, s: string, sep: char)
    requires sep !in s
    ensures Cut(m, s, sep) == [s]
    ensures '"' !in s && m == Plain ==> Scan(m, s) == Plain
    decreases |s|
  {
    if s != "" {
      assert s[0] in s && forall c | c in s[1..] :: c in s;
      Outside(Next(m, s[0]), s[1..], sep);
      assert [s[0]] + s[1..] == s;
    }
  }

  lemma {:induction false} Inside(s: string, sep: char)
    requires '"' !in s && '\\' !in s
    ensures Cut(Quoted, s, sep) == [s] && Scan(Quoted, s) == Quoted
  {
    if s != "" {
      assert s[0] in s && forall c | c in s[1..] :: c in s;
      Inside(s[1..], sep);
      assert [s[0]] + s[1..] == s;
    }
  }

  /** Text that no separator cuts can be read piece by piece. */
  lemma {:induction false} WholeConcat(m: Mode, a: string, b: string, sep: char)
    requires Cut(m, a, sep) == [a]
    ensures Cut(m, a + b, sep) == Glue(a, Cut(Scan(m, a), b, sep))
    decreases |a|
  {
    if a == "" {
      assert a + b == b;
      GlueNothing(Cut(m, b, sep));
    } else {
      assert (a + b)[1..] == a[1..] + b;
      assert !(a[0] == sep && m == Plain);
      var rest := Cut(Next(m, a[0]), a[1..], sep);
      assert Cut(m, a, sep)[0] == [a[0]] + rest[0];
      assert ([a[0]] + rest[0])[1..] == rest[0];
      assert rest == [a[1..]];
      WholeConcat(Next(m, a[0]), a[1..], b, sep);
      GlueTwice([a[0]], a[1..], Cut(Scan(m, a), b, sep));
      assert [a[0]] + a[1..] == a;
    }
  }

  // ---- Printing elements and reading them back

  /** A pair the way a careful proxy writes it, always quoted. */
  function PrintPair(name: string, v: string): string {
    name + "=" + Quote(v)
  }

  function PrintOption(name: string, v: Option<string>): seq<string> {
    if v.Some? then [PrintPair(name, v.value)] else []
  }

  function PrintPairs(e: Element): seq<string> {
    PrintOption("for", e.node) + PrintOption("proto", e.proto) + PrintOption("host", e.host)
  }

  function PrintElement(e: Element): string {
    Text.Join(PrintPairs(e), ';')
  }

  /** Each proxy's element after those before it. */
  function Print(elements: seq<Element>): string {
    if elements == [] then ""
    else if |elements| == 1 then PrintElement(elements[0])
    else Print(elements[..|elements| - 1]) + ", " + PrintElement(elements[|elements| - 1])
  }

  predicate Key(name: string) {
    name == "for" || name == "proto" || name == "host"
  }

  /** Trimming finds nothing to do. */
  predicate Tidy(s: string) {
    s != "" && !Text.Space(s[0]) && !Text.Space(s[|s| - 1])
  }

  lemma TidyTrim(s: string)
    requires Tidy(s)
    ensures Text.Strip(s) == s
  {}

  lemma QuoteIsPart(v: string, sep: char)
    requires sep != '"'
    ensures Part(Quote(v), sep)
  {
    var end := "\"";
    EscapeStaysQuoted(v, end, sep);
    assert end[1..] == "";
    var s := "\"" + (Escape(v) + end);
    assert Quote(v) == s && s[1..] == Escape(v) + end;
    Outside(Quoted, end, sep);
  }

  lemma PairIsPart(name: string, v: string, sep: char)
    requires Key(name) && (sep == ',' || sep == ';')
    ensures Part(PrintPair(name, v), sep) && Tidy(PrintPair(name, v))
  {
    var before := name + "=";
    Outside(Plain, before, sep);
    QuoteIsPart(v, sep);
    WholeConcat(Plain, before, Quote(v), sep);
    ScanConcat(Plain, before, Quote(v));
  }

  lemma PairIsRead(e: Element, name: string, v: string)
    requires Key(name)
    ensures Apply(e, PrintPair(name, v))
         == if name == "for" then e.(node := Some(v))
            else if name == "proto" then e.(proto := Some(v)) else e.(host := Some(v))
  {
    assert '=' !in name;
    Text.SplitOnceAt(name, '=', Quote(v));
    TidyTrim(name);
    TidyTrim(Quote(v));
    UnquoteQuote(v);
    assert Text.Lower(name) == name;
  }

  /** What a parameter's name means doesn't depend on its case, nor on spaces around it. */
  lemma NameIsRead(e: Element, name: string, value: string)
    requires '=' !in name
    ensures Apply(e, name + ['='] + value) ==
      if Spells(name, "for", "FOR") then e.(node := Some(Unquoted(Text.Strip(value))))
      else if Spells(name, "proto", "PROTO") then e.(proto := Some(Unquoted(Text.Strip(value))))
      else if Spells(name, "host", "HOST") then e.(host := Some(Unquoted(Text.Strip(value))))
      else e
  {
    hide Unquoted, Text.Strip;
    Text.SplitOnceAt(name, '=', value);
    SpellsIs(name, "for", "FOR");
    SpellsIs(name, "proto", "PROTO");
    SpellsIs(name, "host", "HOST");
  }

  /** Without the spaces around it, each character of the name is one of the two. */
  predicate Spells(name: string, low: string, up: string)
    requires |low| == |up|
  {
    var s := Text.Strip(name);
    |s| == |low| && forall i | 0 <= i < |s| :: s[i] == low[i] || s[i] == up[i]
  }

  lemma SpellsIs(name: string, low: string, up: string)
    requires |low| == |up| && forall i | 0 <= i < |up| :: 'A' <= up[i] <= 'Z' && low[i] == up[i] - 'A' + 'a'
    ensures Spells(name, low, up) <==> Text.Lower(Text.Strip(name)) == low
  {
    hide Text.Strip;
    var s := Text.Strip(name);
    if |s| == |low| {
      assert forall i | 0 <= i < |s| :: Text.LowerChar(s[i]) == low[i] <==> s[i] == low[i] || s[i] == up[i];
      if Text.Lower(s) == low {
        assert forall i | 0 <= i < |s| :: Text.Lower(s)[i] == low[i];
      }
    }
  }

  /** A value without quotes around it is read as it is; a pair without a value, not at all. */
  lemma BareIsRead(e: Element, v: string)
    ensures v == "" || v[0] != '"' ==> Unquoted(v) == v
    ensures '=' !in v ==> Apply(e, v) == e
  {}

  lemma PairsAreRead(e: Element)
    ensures ApplyAll(PrintPairs(e)) == e
  {
    hide Apply, PrintPair;
    var a, b, c := PrintOption("for", e.node), PrintOption("proto", e.proto), PrintOption("host", e.host);
    ApplyOption([], "for", e.node);
    ApplyOption(a, "proto", e.proto);
    ApplyOption(a + b, "host", e.host);
    assert [] + a == a;
    if e.node.Some? { PairIsRead(EMPTY, "for", e.node.value); }
    if e.proto.Some? { PairIsRead(ApplyAll(a), "proto", e.proto.value); }
    if e.host.Some? { PairIsRead(ApplyAll(a + b), "host", e.host.value); }
  }

  lemma ApplyOption(pairs: seq<string>, name: string, v: Option<string>)
    ensures ApplyAll(pairs + PrintOption(name, v))
         == if v.Some? then Apply(ApplyAll(pairs), PrintPair(name, v.value)) else ApplyAll(pairs)
  {
    hide Apply, PrintPair;
    var all := pairs + PrintOption(name, v);
    if v.Some? {
      assert all[..|all| - 1] == pairs;
    } else {
      assert all == pairs;
    }
  }

  /** Parts joined by another character are one part. */
  lemma {:induction false} JoinIsPart(parts: seq<string>, c: char, sep: char)
    requires c != sep && c != '"' && sep != '"' && parts != []
    requires forall i | 0 <= i < |parts| :: Part(parts[i], sep) && Tidy(parts[i])
    ensures Part(Text.Join(parts, c), sep) && Tidy(Text.Join(parts, c))
  {
    hide Cut, Scan;
    if |parts| > 1 {
      var rest := Text.Join(parts[1..], c);
      JoinIsPart(parts[1..], c, sep);
      Outside(Plain, [c], sep);
      WholeConcat(Plain, [c], rest, sep);
      ScanConcat(Plain, [c], rest);
      WholeConcat(Plain, parts[0], [c] + rest, sep);
      ScanConcat(Plain, parts[0], [c] + rest);
      assert Text.Join(parts, c) == parts[0] + ([c] + rest);
    }
  }

  lemma {:induction false} TidyKept(parts: seq<string>)
    requires forall i | 0 <= i < |parts| :: Tidy(parts[i])
    ensures Kept(parts) == parts
  {
    if parts != [] {
      TidyTrim(parts[0]);
      TidyKept(parts[1..]);
    }
  }

  lemma ElementIsRead(e: Element)
    requires e != EMPTY
    ensures Balanced(PrintElement(e)) && LineElements(PrintElement(e)) == [e]
  {
    hide Cut, Scan, Text.Strip, PrintPair, Apply, Kept;
    var pairs, s := PrintPairs(e), PrintElement(e);
    forall i, sep | 0 <= i < |pairs| && (sep == ',' || sep == ';')
      ensures Part(pairs[i], sep) && Tidy(pairs[i])
    {
      if e.node.Some? { PairIsPart("for", e.node.value, sep); }
      if e.proto.Some? { PairIsPart("proto", e.proto.value, sep); }
      if e.host.Some? { PairIsPart("host", e.host.value, sep); }
    }
    CutJoin(pairs, ';');
    TidyKept(pairs);
    PairsAreRead(e);
    assert ElementOf(s) == e;
    JoinIsPart(pairs, ';', ',');
    TidyKept([s]);
    assert Parts(s, ',') == Some([s]);
    CollectOne(s);
  }

  lemma CollectOne(s: string)
    ensures Collect([s]) == if ElementOf(s) != EMPTY then [ElementOf(s)] else []
  {
    hide ElementOf;
    assert [s][..0] == [] && Collect([]) == [];
  }

  /** The round trip: elements written with quoted, escaped values in a text,
      whatever these hold, are read back as they were. */
  lemma {:induction false} PrintParse(elements: seq<Element>)
    requires elements != [] && EMPTY !in elements
    ensures Balanced(Print(elements)) && LineElements(Print(elements)) == elements
    ensures Elements([Print(elements)]) == elements
  {
    hide LineElements, Balanced, PrintElement;
    var last := elements[|elements| - 1];
    var before := elements[..|elements| - 1];
    ElementIsRead(last);
    if before != [] {
      PrintParse(before);
      AppendLaw(Print(before), PrintElement(last));
      assert before + [last] == elements;
    }
    OneLine(Print(elements));
  }

  lemma OneLine(line: string)
    ensures Elements([line]) == if Balanced(line) then LineElements(line) else []
  {
    hide LineElements, Balanced;
    assert [line][..0] == [] && AllElements([]) == [];
    assert [line][0] == line;
  }
}
