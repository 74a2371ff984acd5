/** What the test client writes is what requests read: which forms come back as they were. */
module MultipartRoundTrip {
  import opened Wrappers
  import Text
  import Forwarded
  import opened Multipart

  // ---- What can be written and read back

  predicate TokenChar(c: char) {
    'a' <= c <= 'z' || 'A' <= c <= 'Z' || '0' <= c <= '9' || c in "!#$%&'*+-.^_`|~"
  }

  /** Printable, or a tab or line break. */
  predicate NameChar(c: char) {
    ' ' <= c <= '~' || c in "\t\r\n"
  }

  predicate Name(s: string) {
    forall i | 0 <= i < |s| :: NameChar(s[i])
  }

  /** A type and a subtype, in lower case. */
  predicate MediaType(s: string) {
    (forall i | 0 <= i < |s| :: TokenChar(s[i]) || s[i] == '/') && Count(s, '/') == 1 && Text.Lower(s) == s
  }

  /** A UUID in hexadecimal. */
  predicate Boundary(b: string) {
    |b| == 32 && forall i | 0 <= i < |b| :: '0' <= b[i] <= '9' || 'a' <= b[i] <= 'f'
  }

  /** Names of any such characters, as long as the delimiter isn't in what is
      written for them. The contents may be anything. */
  ghost predicate Named(e: Entry, d: string) {
    && Name(e.name) && !Contains(Quoted(e.name), d)
    && (e.value.File? ==>
          && Name(e.value.filename) && !Contains(Quoted(e.value.filename), d)
          && MediaType(e.value.contentType) && !Contains(e.value.contentType, d))
  }

  lemma {:induction false} ReplaceNothing(s: string, c: char, replacement: string)
    requires c !in s
    ensures Replace(s, c, replacement) == s
  {
    if s != "" {
      assert s[0] in s && forall x | x in s[1..] :: x in s;
      ReplaceNothing(s[1..], c, replacement);
      assert [s[0]] + s[1..] == s;
    }
  }

  lemma {:induction false} ReplaceHas(s: string, c: char, replacement: string, x: char)
    requires x !in replacement && (x == c || x !in s)
    ensures x !in Replace(s, c, replacement)
  {
    if s != "" {
      assert s[0] in s && forall y | y in s[1..] :: y in s;
      ReplaceHas(s[1..], c, replacement, x);
    }
  }

  /** What is written for a name has no quote and no line break. */
  lemma QuotedHas(s: string)
    ensures '\r' !in Quoted(s) && '\n' !in Quoted(s) && '"' !in Quoted(s)
  {
    var a := Replace(s, '\r', "%0D");
    var b := Replace(a, '\n', "%0A");
    ReplaceHas(s, '\r', "%0D", '\r');
    ReplaceHas(a, '\n', "%0A", '\r');
    ReplaceHas(b, '"', "%22", '\r');
    ReplaceHas(a, '\n', "%0A", '\n');
    ReplaceHas(b, '"', "%22", '\n');
    ReplaceHas(b, '"', "%22", '"');
  }

  lemma TokenCharIs(c: char)
    requires TokenChar(c)
    ensures !Text.Space(c) && c != '"' && c != ';'
  {}

  // ---- Where the delimiter can stand

  lemma FindIs(s: string, sep: string, i: nat)
    requires sep != "" && At(s, i, sep) && forall j: nat | j < i :: !At(s, j, sep)
    ensures Find(s, sep) == Some(i)
  {}

  lemma AtHas(s: string, i: nat, sep: string, k: nat)
    requires k < |sep|
    ensures At(s, i, sep) ==> s[i + k] == sep[k]
  {
    assert At(s, i, sep) ==> s[i..i + |sep|][k] == s[i + k];
  }

  /** Not across a character that isn't in it. */
  lemma Apart(a: string, c: char, b: string, d: string)
    requires c !in d && d != "" && !Contains(a, d) && !Contains(b, d)
    ensures !Contains(a + ([c] + b), d)
  {
    var s := a + ([c] + b);
    forall i: nat
      ensures !At(s, i, d)
    {
      if i + |d| <= |a| {
        assert a[i..i + |d|] == s[i..i + |d|] && !At(a, i, d);
      } else if i > |a| && i + |d| <= |s| {
        assert b[i - |a| - 1..i - |a| - 1 + |d|] == s[i..i + |d|] && !At(b, i - |a| - 1, d);
      } else if i <= |a| {
        AtHas(s, i, d, |a| - i);
        assert s[|a|] == c;
      }
    }
  }

  lemma TooShort(a: string, d: string)
    requires |a| < |d|
    ensures !Contains(a, d)
  {}

  /** The text of a part before its contents. */
  function Before(e: Entry): string {
    CRLF + (Head(e) + BLANK)
  }

  lemma BoundaryHas(b: string)
    requires Boundary(b)
    ensures var d := Delimiter(b);
      |d| == 34 && '\r' !in d && '\n' !in d && ' ' !in d && '"' !in d
  {}

  lemma BeforeIs(e: Entry)
    ensures Before(e)
         == CRLF + "Content-Disposition:" + ([' '] + ("form-data; name=" + (['"'] + (Quoted(e.name) + (['"'] + EndOf(e))))))
  {
    hide Quoted;
    var n, end := Quoted(e.name), EndOf(e);
    if e.value.File? {
      var f := Quoted(e.value.filename);
      HeadOfFile(e);
      FileEndIs(f, e.value.contentType);
      BeforeLast("Content-Disposition: form-data; name=\"" + n, "\"",
        "; filename=\"" + f + "\"" + (CRLF + ("Content-Type: " + e.value.contentType)), BLANK);
    } else {
      HeadOfField(e);
      BeforeLast("Content-Disposition: form-data; name=\"" + n, "\"", "", BLANK);
      assert "\"" + "" == "\"" && "" + BLANK == BLANK;
    }
    assert "Content-Disposition: form-data; name=\"" == "Content-Disposition:" + ([' '] + ("form-data; name=" + ['"']));
    BeforeFirst(CRLF, "Content-Disposition:", [' '], "form-data; name=", ['"'], n, ['"'] + end);
  }

  lemma BeforeLast(a: string, quote: string, end: string, blank: string)
    ensures a + (quote + end) + blank == a + (quote + (end + blank))
  {}

  lemma BeforeFirst(crlf: string, a: string, space: string, b: string, quote: string, n: string, end: string)
    ensures crlf + (((a + (space + (b + quote))) + n) + end) == crlf + a + (space + (b + (quote + (n + end))))
  {}

  /** What follows the name's closing quote. */
  function EndOf(e: Entry): string {
    if e.value.Field? then BLANK
    else "; filename=" + (['"'] + (Quoted(e.value.filename) + (['"'] + (CRLF + "Content-Type:" + ([' '] + (e.value.contentType + BLANK))))))
  }

  lemma FileEndIs(f: string, c: string)
    ensures "; filename=\"" + f + "\"" + (CRLF + ("Content-Type: " + c)) + BLANK
         == "; filename=" + (['"'] + (f + (['"'] + (CRLF + "Content-Type:" + ([' '] + (c + BLANK))))))
  {
    assert "; filename=\"" == "; filename=" + ['"'];
    assert "Content-Type: " == "Content-Type:" + [' '];
    FileRegroup("; filename=", ['"'], f, CRLF, "Content-Type:", [' '], c, BLANK);
  }

  lemma FileRegroup(name: string, quote: string, f: string, crlf: string, ct: string, space: string, c: string, blank: string)
    ensures (name + quote) + f + quote + (crlf + ((ct + space) + c)) + blank
         == name + (quote + (f + (quote + (crlf + ct + (space + (c + blank))))))
  {}

  /** No header holds the delimiter. */
  lemma BeforeIsClean(e: Entry, b: string)
    requires Boundary(b) && Named(e, Delimiter(b))
    ensures !Contains(Before(e), Delimiter(b))
  {
    hide Before, MediaType, Name, Contains, Delimiter, Quoted;
    var d := Delimiter(b);
    BoundaryHas(b);
    BeforeIs(e);
    EndIsClean(e, b);
    var a, s := CRLF + "Content-Disposition:", "form-data; name=";
    TooShort(a, d);
    TooShort(s, d);
    Apart(Quoted(e.name), '"', EndOf(e), d);
    Apart(s, '"', Quoted(e.name) + (['"'] + EndOf(e)), d);
    Apart(a, ' ', s + (['"'] + (Quoted(e.name) + (['"'] + EndOf(e)))), d);
  }

  lemma EndIsClean(e: Entry, b: string)
    requires Boundary(b) && Named(e, Delimiter(b))
    ensures !Contains(EndOf(e), Delimiter(b))
  {
    hide MediaType, Name, Contains, Delimiter, Quoted;
    var d := Delimiter(b);
    BoundaryHas(b);
    TooShort(BLANK, d);
    if e.value.File? {
      var n, t, f, c := "; filename=", CRLF + "Content-Type:", Quoted(e.value.filename), e.value.contentType;
      TooShort(n, d);
      TooShort(t, d);
      TooShort("\n\r\n", d);
      Apart(c, '\r', "\n\r\n", d);
      assert c + BLANK == c + (['\r'] + "\n\r\n");
      Apart(t, ' ', c + BLANK, d);
      Apart(f, '"', t + ([' '] + (c + BLANK)), d);
      Apart(n, '"', f + (['"'] + (t + ([' '] + (c + BLANK)))), d);
    }
  }

  // ---- Reading one part

  /** A part whose contents, with what follows them, are `rest`. */
  function PieceWith(e: Entry, rest: string): string {
    CRLF + (Head(e) + (BLANK + rest))
  }

  /** The closing quote of a file's name is read as one. */
  predicate Whole(e: Entry) {
    e.value.File? ==> !EndsInSlash(Quoted(e.name))
  }

  predicate EndsInSlash(s: string) {
    s != "" && s[|s| - 1] == '\\'
  }

  /** The entry that is read then, if these are the contents. */
  function With(e: Entry, data: string): Entry {
    Entry(
      Unescaped(Quoted(e.name)),
      if e.value.Field? then Field(data)
      else File(FileName(Unescaped(Quoted(e.value.filename))), e.value.contentType, data))
  }

  /** The first line of a part. */
  function Line(e: Entry): string {
    "Content-Disposition: form-data; name=\"" + Quoted(e.name) + "\""
    + (if e.value.Field? then "" else "; filename=\"" + Quoted(e.value.filename) + "\"")
  }

  function TypeLine(e: Entry): string
    requires e.value.File?
  {
    "Content-Type: " + e.value.contentType
  }

  lemma HeadIs(e: Entry, d: string)
    requires Named(e, d)
    ensures Head(e) == Line(e) + (if e.value.Field? then "" else CRLF + TypeLine(e))
    ensures '\r' !in Line(e) && (e.value.File? ==> '\r' !in TypeLine(e))
  {
    hide Quoted, Name, Contains;
    LineHas(e);
    if e.value.File? {
      TypeHas(e.value.contentType);
    }
  }

  lemma TypeHas(t: string)
    requires MediaType(t)
    ensures '\r' !in t
  {}

  lemma LineHas(e: Entry)
    ensures '\r' !in Line(e)
  {
    hide Quoted;
    QuotedHas(e.name);
    if e.value.File? { QuotedHas(e.value.filename); }
  }

  lemma FindAfter(a: string, s: string, sep: string)
    requires sep != "" && sep[0] !in a && sep <= s
    ensures Find(a + s, sep) == Some(|a|)
  {
    hide At;
    forall j: nat | j < |a|
      ensures !At(a + s, j, sep)
    {
      AtHas(a + s, j, sep, 0);
      assert (a + s)[j] == a[j];
    }
    FoundAfter(a, s, sep);
  }

  lemma Untouched(s: string, sep: string)
    requires sep != "" && sep[0] !in s
    ensures Split(s, sep) == [s]
  {
    forall i: nat
      ensures !At(s, i, sep)
    {
      AtHas(s, i, sep, 0);
      assert i < |s| ==> s[i] != sep[0];
    }
  }

  /** The head and the rest of a part are told apart, and its lines. */
  lemma HeadIsFound(e: Entry, d: string, rest: string)
    requires Named(e, d)
    ensures RemovePrefix(PieceWith(e, rest), CRLF) == Head(e) + (BLANK + rest)
    ensures Partition(Head(e) + (BLANK + rest), BLANK) == (Head(e), rest)
    ensures Split(Head(e), CRLF) == if e.value.Field? then [Line(e)] else [Line(e), TypeLine(e)]
  {
    hide Line, TypeLine, Head, Named, Find, Split;
    HeadIs(e, d);
    var s := BLANK + rest;
    if e.value.Field? {
      assert Head(e) == Line(e);
      FindAfter(Head(e), s, BLANK);
      Untouched(Head(e), CRLF);
    } else {
      TypeLineStarts(e);
      TwoLines(Line(e), TypeLine(e), s);
      SplitLines(Line(e), TypeLine(e));
    }
    assert (Head(e) + s)[|Head(e)| + 4..] == rest;
    assert (Head(e) + s)[..|Head(e)|] == Head(e);
  }

  lemma SplitLines(l: string, t: string)
    requires '\r' !in l && '\r' !in t
    ensures Split(l + (CRLF + t), CRLF) == [l, t]
  {
    hide Find;
    FindAfter(l, CRLF + t, CRLF);
    assert (l + (CRLF + t))[|l| + 2..] == t && (l + (CRLF + t))[..|l|] == l;
    Untouched(t, CRLF);
  }

  lemma TypeLineStarts(e: Entry)
    requires e.value.File?
    ensures TypeLine(e) != ""
  {}

  lemma TwoLines(l: string, t: string, s: string)
    requires '\r' !in l && '\r' !in t && t != "" && BLANK <= s
    ensures Find(l + (CRLF + t) + s, BLANK) == Some(|l| + 2 + |t|)
  {
    hide Find, At;
    forall j: nat | j < |l + (CRLF + t)|
      ensures !At(l + (CRLF + t) + s, j, BLANK)
    {
      NotInLines(l, CRLF, t, s, BLANK, j);
    }
    FoundAfter(l + (CRLF + t), s, BLANK);
  }

  lemma NotInLines(l: string, crlf: string, t: string, s: string, blank: string, j: nat)
    requires |crlf| == 2 && crlf[0] == '\r' && crlf[1] == '\n'
    requires |blank| == 4 && blank[0] == '\r' && blank[2] == '\r'
    requires '\r' !in l && '\r' !in t && t != "" && j < |l + (crlf + t)|
    ensures !At(l + (crlf + t) + s, j, blank)
  {
    hide At;
    NotBefore(l + (crlf + t), s, blank, j);
  }

  lemma FoundAfter(a: string, s: string, sep: string)
    requires sep != "" && sep <= s && forall j: nat | j < |a| :: !At(a + s, j, sep)
    ensures Find(a + s, sep) == Some(|a|)
  {
    hide Find;
    assert (a + s)[|a|..|a| + |sep|] == s[..|sep|];
    FindIs(a + s, sep, |a|);
  }

  lemma NotBefore(a: string, s: string, blank: string, j: nat)
    requires |blank| == 4 && blank[0] == '\r' && blank[2] == '\r' && j < |a|
    requires a[j] != '\r' || (j + 2 < |a| && a[j + 2] != '\r')
    ensures !At(a + s, j, blank)
  {
    AtHas(a + s, j, blank, 0);
    AtHas(a + s, j, blank, 2);
    assert (a + s)[j] == a[j];
  }

  lemma FoundAt(s: string, sep: string, i: nat)
    requires sep != "" && i + |sep| <= |s| && s[i..i + |sep|] == sep && forall j: nat | j < i :: !At(s, j, sep)
    ensures Find(s, sep) == Some(i)
  {
    hide Find;
    FindIs(s, sep, i);
  }

  // ---- Its headers

  lemma HeaderHere(lines: seq<string>, key: string, value: string, name: string)
    requires lines != [] && lines[0] == key + [':'] + value && ':' !in key
    ensures Header(lines, name)
         == if Text.Lower(Text.Strip(key)) == name then Some(Text.Strip(value)) else Header(lines[1..], name)
  {
    Text.SplitOnceAt(key, ':', value);
  }

  lemma ParamHere(pieces: seq<string>, key: string, value: string, name: string)
    requires pieces != [] && pieces[0] == key + ['='] + value && '=' !in key
    ensures Param(pieces, name)
         == if Text.Lower(Text.Strip(key)) == name then Some(Unwrapped(Text.Strip(value))) else Param(pieces[1..], name)
  {
    Text.SplitOnceAt(key, '=', value);
  }

  lemma Tidy(s: string)
    requires s != "" && !Text.Space(s[0]) && !Text.Space(s[|s| - 1])
    ensures Text.Strip(s) == s && Text.Strip(" " + s) == s
  {
    assert (" " + s)[1..] == s;
  }

  lemma Keys()
    ensures Text.Lower(Text.Strip("Content-Disposition")) == "content-disposition"
    ensures Text.Lower(Text.Strip("Content-Type")) == "content-type"
    ensures Text.Lower(Text.Strip("form-data")) == "form-data"
    ensures Text.Lower(Text.Strip(" name")) == "name"
    ensures Text.Lower(Text.Strip(" filename")) == "filename"
  {
    hide Text.Strip;
    HeaderKeys();
    Tidy("form-data");
    Tidy("name");
    Tidy("filename");
    assert " name" == " " + "name" && " filename" == " " + "filename";
    assert Text.Lower("form-data") == "form-data";
    assert Text.Lower("name") == "name";
    assert Text.Lower("filename") == "filename";
  }

  lemma HeaderKeys()
    ensures Text.Lower(Text.Strip("Content-Disposition")) == "content-disposition"
    ensures Text.Lower(Text.Strip("Content-Type")) == "content-type"
  {
    hide Text.Strip;
    Tidy("Content-Disposition");
    Tidy("Content-Type");
    assert Text.Lower("Content-Disposition") == "content-disposition";
    assert Text.Lower("Content-Type") == "content-type";
  }

  function Params(e: Entry): seq<string> {
    ["form-data", " name=\"" + Quoted(e.name) + "\""]
    + (if e.value.Field? then [] else [" filename=\"" + Quoted(e.value.filename) + "\""])
  }

  lemma DispositionIs(e: Entry, lines: seq<string>)
    requires lines != [] && lines[0] == Line(e)
    ensures Header(lines, "content-disposition") == Some(Text.Join(Params(e), ';'))
    ensures Header(lines, "content-type") == Header(lines[1..], "content-type")
  {
    hide Text.Strip, Text.Lower, Text.Join, Line;
    var value := Text.Join(Params(e), ';');
    JoinIs(e);
    assert Line(e) == "Content-Disposition" + [':'] + (" " + value) by { LineIs(e); }
    HeaderHere(lines, "Content-Disposition", " " + value, "content-disposition");
    HeaderHere(lines, "Content-Disposition", " " + value, "content-type");
    Keys();
    Tidy(value);
  }

  // ---- The pieces of a value

  function AfterAll(q: Quoting, s: string): Quoting
    decreases |s|
  {
    if s == "" then q else AfterAll(After(q, s[0]), s[1..])
  }

  /** Text that nothing cuts can be read piece by piece. */
  lemma {:induction false} PiecesConcat(q: Quoting, a: string, b: string)
    requires Pieces(q, a) == [a]
    ensures Pieces(q, a + b) == Forwarded.Glue(a, Pieces(AfterAll(q, a), b))
    decreases |a|
  {
    if a == "" {
      assert a + b == b;
      Forwarded.GlueNothing(Pieces(q, b));
    } else {
      assert (a + b)[1..] == a[1..] + b;
      assert !(a[0] == ';' && !q.inside);
      var rest := Pieces(After(q, a[0]), a[1..]);
      assert Pieces(q, a)[0] == [a[0]] + rest[0];
      assert ([a[0]] + rest[0])[1..] == rest[0];
      assert rest == [a[1..]];
      PiecesConcat(After(q, a[0]), a[1..], b);
      Forwarded.GlueTwice([a[0]], a[1..], Pieces(AfterAll(q, a), b));
      assert [a[0]] + a[1..] == a;
    }
  }

  lemma {:induction false} NoSemicolon(q: Quoting, s: string)
    requires ';' !in s
    ensures Pieces(q, s) == [s]
    decreases |s|
  {
    hide After;
    if s != "" {
      assert s[0] in s && forall c | c in s[1..] :: c in s;
      NoSemicolon(After(q, s[0]), s[1..]);
      assert [s[0]] + s[1..] == s;
    }
  }

  lemma {:induction false} NoQuote(q: Quoting, s: string)
    requires '"' !in s
    ensures AfterAll(q, s) == Quoting(q.inside, if s == "" then q.slash else EndsInSlash(s))
    decreases |s|
  {
    if s != "" {
      assert s[0] in s && forall c | c in s[1..] :: c in s;
      NoQuote(After(q, s[0]), s[1..]);
    }
  }

  lemma {:induction false} InQuotes(q: Quoting, s: string)
    requires q.inside && '"' !in s
    ensures Pieces(q, s) == [s]
    decreases |s|
  {
    if s != "" {
      assert s[0] in s && forall c | c in s[1..] :: c in s;
      InQuotes(After(q, s[0]), s[1..]);
      assert [s[0]] + s[1..] == s;
    }
  }

  lemma OneQuote(q: Quoting)
    ensures Pieces(q, "\"") == ["\""] && AfterAll(q, "\"") == After(q, '"')
  {
    NoSemicolon(q, "\"");
    assert "\""[1..] == "";
  }

  lemma Semicolon(q: Quoting, b: string)
    requires !q.inside
    ensures Pieces(q, ";" + b) == [""] + Pieces(OUTSIDE, b)
  {
    assert (";" + b)[1..] == b;
  }

  /** A quoted parameter: the closing quote is one unless a backslash is before it. */
  lemma QuotedPiece(before: string, n: string, rest: string)
    requires ';' !in before && '"' !in before && !EndsInSlash(before) && '"' !in n
    ensures Pieces(OUTSIDE, before + ("\"" + (n + ("\"" + rest))))
         == Forwarded.Glue(before + "\"" + n + "\"", Pieces(Quoting(EndsInSlash(n), false), rest))
  {
    hide Pieces, AfterAll, Forwarded.Glue;
    NoSemicolon(OUTSIDE, before);
    NoQuote(OUTSIDE, before);
    OneQuote(OUTSIDE);
    var q := Quoting(true, false);
    InQuotes(q, n);
    NoQuote(q, n);
    var q' := Quoting(true, EndsInSlash(n));
    OneQuote(q');
    var last := Pieces(Quoting(EndsInSlash(n), false), rest);
    PiecesConcat(q', "\"", rest);
    PiecesConcat(q, n, "\"" + rest);
    PiecesConcat(OUTSIDE, "\"", n + ("\"" + rest));
    PiecesConcat(OUTSIDE, before, "\"" + (n + ("\"" + rest)));
    Forwarded.GlueTwice(n, "\"", last);
    Forwarded.GlueTwice("\"", n + "\"", last);
    Forwarded.GlueTwice(before, "\"" + (n + "\""), last);
    assert before + ("\"" + (n + "\"")) == before + "\"" + n + "\"";
  }

  /** The pieces of the value: as written, or, when the name's closing quote is
      taken for an escaped one, the name runs into the file name. */
  lemma PiecesAre(e: Entry) returns (g: string, more: seq<string>)
    ensures var pieces := Pieces(OUTSIDE, Text.Join(Params(e), ';'));
      if Whole(e) then pieces == Params(e)
      else pieces == ["form-data", " name=\"" + Quoted(e.name) + "\"" + ("; filename=\"" + g)] + more
  {
    hide Quoted, Pieces, Forwarded.Glue, EndsInSlash, Text.Join;
    var n := Quoted(e.name);
    QuotedHas(e.name);
    JoinIs(e);
    var first := " name=\"" + n + "\"";
    g, more := "", [];
    assert !EndsInSlash(" name=") && !EndsInSlash(" filename=") by { NotSlashes(); }
    if e.value.Field? {
      FieldPieces(n);
    } else {
      QuotedHas(e.value.filename);
      if EndsInSlash(n) {
        g, more := LostPieces(n, Quoted(e.value.filename));
      } else {
        FilePieces(n, Quoted(e.value.filename));
      }
    }
  }

  lemma NotSlashes()
    ensures !EndsInSlash(" name=") && !EndsInSlash(" filename=")
  {}

  lemma Glued(p: string, pieces: seq<string>)
    ensures Forwarded.Glue(p, [""] + pieces) == [p] + pieces
  {
    assert p + "" == p && ([""] + pieces)[1..] == pieces;
  }

  lemma FormDataPieces(x: string)
    ensures Pieces(OUTSIDE, "form-data" + [';'] + x) == ["form-data"] + Pieces(OUTSIDE, x)
  {
    hide Pieces, AfterAll, Forwarded.Glue;
    NoSemicolon(OUTSIDE, "form-data");
    NoQuote(OUTSIDE, "form-data");
    Semicolon(AfterAll(OUTSIDE, "form-data"), x);
    PiecesConcat(OUTSIDE, "form-data", ";" + x);
    assert "form-data" + [';'] + x == "form-data" + (";" + x);
    Glued("form-data", Pieces(OUTSIDE, x));
  }

  lemma NamePieces(n: string, rest: string)
    requires '"' !in n
    ensures Pieces(OUTSIDE, " name=\"" + n + "\"" + rest)
         == Forwarded.Glue(" name=\"" + n + "\"", Pieces(Quoting(EndsInSlash(n), false), rest))
  {
    hide Pieces, Forwarded.Glue;
    QuotedPiece(" name=", n, rest);
    assert " name=\"" == " name=" + "\"";
    Regrouped(" name=", "\"", n, rest);
  }

  lemma FilenamePieces(f: string)
    requires '"' !in f
    ensures Pieces(OUTSIDE, " filename=\"" + f + "\"")
         == Forwarded.Glue(" filename=\"" + f + "\"", Pieces(Quoting(EndsInSlash(f), false), ""))
  {
    hide Pieces, Forwarded.Glue;
    QuotedPiece(" filename=", f, "");
    assert " filename=\"" == " filename=" + "\"";
    Regrouped(" filename=", "\"", f, "");
  }

  lemma Regrouped(before: string, quote: string, n: string, rest: string)
    ensures (before + quote) + n + quote + rest == before + (quote + (n + (quote + rest)))
    ensures rest == "" ==> (before + quote) + n + quote == before + (quote + (n + (quote + rest)))
    ensures (before + quote) + n + quote == before + quote + n + quote
  {}

  lemma FieldPieces(n: string)
    requires '"' !in n
    ensures Pieces(OUTSIDE, "form-data" + [';'] + (" name=\"" + n + "\"")) == ["form-data", " name=\"" + n + "\""]
  {
    hide Pieces, Forwarded.Glue;
    var name := " name=\"" + n + "\"";
    FormDataPieces(name);
    NamePieces(n, "");
    assert name + "" == name;
    NothingLeft(EndsInSlash(n), name);
  }

  lemma NothingLeft(inside: bool, p: string)
    ensures Forwarded.Glue(p, Pieces(Quoting(inside, false), "")) == [p]
  {
    Glued(p, []);
    assert [""] + [] == [""];
  }

  lemma FilePieces(n: string, f: string)
    requires '"' !in n && '"' !in f && !EndsInSlash(n)
    ensures Pieces(OUTSIDE, "form-data" + [';'] + (" name=\"" + n + "\"" + [';'] + (" filename=\"" + f + "\"")))
         == ["form-data", " name=\"" + n + "\"", " filename=\"" + f + "\""]
  {
    hide Pieces, Forwarded.Glue;
    var name, file := " name=\"" + n + "\"", " filename=\"" + f + "\"";
    assert name + [';'] + file == name + (";" + file);
    FormDataPieces(name + [';'] + file);
    NamePieces(n, ";" + file);
    Semicolon(OUTSIDE, file);
    Glued(name, Pieces(OUTSIDE, file));
    FilenamePieces(f);
    NothingLeft(EndsInSlash(f), file);
  }

  lemma LostPieces(n: string, f: string) returns (g: string, more: seq<string>)
    requires '"' !in n && EndsInSlash(n)
    ensures Pieces(OUTSIDE, "form-data" + [';'] + (" name=\"" + n + "\"" + [';'] + (" filename=\"" + f + "\"")))
         == ["form-data", " name=\"" + n + "\"" + ("; filename=\"" + g)] + more
  {
    hide Pieces, AfterAll, Forwarded.Glue;
    var name, file := " name=\"" + n + "\"", " filename=\"" + f + "\"";
    var lead, end := "; filename=\"", f + "\"";
    assert name + [';'] + file == name + (lead + end) by { Led(name, f); }
    FormDataPieces(name + [';'] + file);
    NamePieces(n, lead + end);
    var q := Quoting(true, false);
    assert Pieces(q, lead) == [lead] by { LeadIsWhole(); }
    PiecesConcat(q, lead, end);
    var tail := Pieces(AfterAll(q, lead), end);
    g, more := tail[0], tail[1..];
    Forwarded.GlueTwice(name, lead, tail);
    assert Forwarded.Glue(name + lead, tail) == [name + lead + g] + more by { GlueIs(name + lead, tail); }
    assert name + lead + g == name + (lead + g);
  }

  lemma Led(name: string, f: string)
    ensures name + [';'] + (" filename=\"" + f + "\"") == name + ("; filename=\"" + (f + "\""))
  {
    assert "; filename=\"" == [';'] + " filename=\"";
  }

  lemma GlueIs(s: string, parts: seq<string>)
    requires |parts| > 0
    ensures Forwarded.Glue(s, parts) == [s + parts[0]] + parts[1..]
  {}

  lemma LeadIsWhole()
    ensures Pieces(Quoting(true, false), "; filename=\"") == ["; filename=\""]
  {
    hide Pieces, AfterAll;
    var q := Quoting(true, false);
    InQuotes(q, "; filename=");
    assert "; filename=\"" == "; filename=" + "\"";
    OneQuote(AfterAll(q, "; filename="));
    PiecesConcat(q, "; filename=", "\"");
  }

  lemma LineIs(e: Entry)
    ensures Line(e) == "Content-Disposition" + [':'] + (" " + Text.Join(Params(e), ';'))
  {
    hide Quoted;
    JoinIs(e);
    assert "Content-Disposition: form-data; name=\"" == "Content-Disposition" + [':'] + (" " + ("form-data" + ([';'] + " name=\"")));
    if e.value.File? {
      assert "; filename=\"" == [';'] + " filename=\"";
      LineRegroup("Content-Disposition" + [':'], " ", "form-data", [';'], " name=\"", Quoted(e.name), "\"", " filename=\"", Quoted(e.value.filename));
    } else {
      LineRegroup("Content-Disposition" + [':'], " ", "form-data", [';'], " name=\"", Quoted(e.name), "\"", "", "");
    }
  }

  lemma LineRegroup(a: string, sp: string, b: string, semi: string, c: string, n: string, q: string, f: string, name: string)
    ensures (a + (sp + (b + (semi + c)))) + n + q == a + (sp + (b + semi + (c + n + q)))
    ensures (a + (sp + (b + (semi + c)))) + n + q + ((semi + f) + name + q)
         == a + (sp + (b + semi + (c + n + q + semi + (f + name + q))))
  {}

  lemma JoinIs(e: Entry)
    ensures var value := Text.Join(Params(e), ';');
      && value == (if e.value.Field? then "form-data" + [';'] + (" name=\"" + Quoted(e.name) + "\"")
                   else "form-data" + [';'] + (" name=\"" + Quoted(e.name) + "\"" + [';'] + (" filename=\"" + Quoted(e.value.filename) + "\"")))
      && value != "" && value[0] == 'f' && value[|value| - 1] == '"'
  {
    hide Quoted;
    var p := Params(e);
    var q := p[1..];
    assert Text.Join(p, ';') == p[0] + [';'] + Text.Join(q, ';') && q[0] == p[1];
    if e.value.File? {
      var r := q[1..];
      assert |r| == 1 && r[0] == p[2];
      assert Text.Join(q, ';') == q[0] + [';'] + Text.Join(r, ';') && Text.Join(r, ';') == r[0];
    } else {
      assert |q| == 1 && Text.Join(q, ';') == q[0];
    }
  }

  lemma ParamsAre(e: Entry)
    ensures Param(Params(e), "name") == Some(Unescaped(Quoted(e.name)))
    ensures Param(Params(e), "filename") == if e.value.Field? then None else Some(Unescaped(Quoted(e.value.filename)))
  {
    hide Param, Quoted, Unescaped;
    var n := Quoted(e.name);
    var first, rest := [" name=\"" + n + "\""], if e.value.Field? then [] else [" filename=\"" + Quoted(e.value.filename) + "\""];
    assert Params(e) == ["form-data"] + (first + rest);
    FormDataParam(first + rest, "name");
    FormDataParam(first + rest, "filename");
    NameParam(n, rest);
    if e.value.File? {
      FilenameParam(Quoted(e.value.filename));
    } else {
      assert Param([], "filename") == None by { NoParam("filename"); }
    }
  }

  lemma NoParam(name: string)
    ensures Param([], name) == None
  {}

  lemma FormDataParam(rest: seq<string>, name: string)
    requires name != "form-data"
    ensures Param(["form-data"] + rest, name) == Param(rest, name)
  {
    hide Text.Strip, Text.Lower;
    Keys();
    var all := ["form-data"] + rest;
    assert '=' !in all[0] && Text.SplitOnce(all[0], '=').None?;
    assert all[1..] == rest;
  }

  lemma NameParam(n: string, rest: seq<string>)
    ensures Param([" name=\"" + n + "\""] + rest, "name") == Some(Unescaped(n))
    ensures Param([" name=\"" + n + "\""] + rest, "filename") == Param(rest, "filename")
  {
    hide Text.Strip, Text.Lower, Unwrapped, Unescaped;
    Keys();
    var v := "\"" + n + "\"";
    var all := [" name=\"" + n + "\""] + rest;
    assert " name=\"" == " name" + ['='] + "\"";
    assert all[0] == " name" + ['='] + v;
    UnwrappedIs(n);
    ParamHere(all, " name", v, "name");
    ParamHere(all, " name", v, "filename");
    assert all[1..] == rest;
  }

  lemma FilenameParam(f: string)
    ensures Param([" filename=\"" + f + "\""], "filename") == Some(Unescaped(f))
  {
    hide Text.Strip, Text.Lower, Unwrapped, Unescaped;
    Keys();
    var v := "\"" + f + "\"";
    var all := [" filename=\"" + f + "\""];
    assert " filename=\"" == " filename" + ['='] + "\"";
    assert all[0] == " filename" + ['='] + v;
    UnwrappedIs(f);
    ParamHere(all, " filename", v, "filename");
  }

  lemma UnwrappedIs(n: string)
    ensures Unwrapped(Text.Strip("\"" + n + "\"")) == Unescaped(n)
  {
    hide Unescaped;
    var v := "\"" + n + "\"";
    Tidy(v);
    assert v[1..|v| - 1] == n;
  }

  lemma MediaTypeHas(c: string)
    requires MediaType(c)
    ensures c != "" && !Text.Space(c[0]) && !Text.Space(c[|c| - 1]) && ';' !in c
    ensures Text.Lower(c) == c && Count(c, '/') == 1
  {
    hide TokenChar;
    forall i | 0 <= i < |c|
      ensures !Text.Space(c[i]) && c[i] != ';'
    {
      if c[i] != '/' { TokenCharIs(c[i]); }
    }
  }

  lemma NotSplit(c: string)
    requires ';' !in c
    ensures Text.SplitAll(c, ';') == [c]
  {}

  lemma TypeIs(e: Entry, d: string, lines: seq<string>)
    requires Named(e, d) && e.value.File? && lines == [Line(e), TypeLine(e)]
    ensures ContentType(lines) == e.value.contentType
  {
    hide Text.Strip, Text.Lower, Line, MediaType, Name, Text.SplitAll, Contains, Quoted;
    var c := e.value.contentType;
    MediaTypeHas(c);
    DispositionIs(e, lines);
    assert TypeLine(e) == "Content-Type" + [':'] + (" " + c) by {
      assert "Content-Type: " == "Content-Type" + [':'] + " ";
    }
    HeaderHere(lines[1..], "Content-Type", " " + c, "content-type");
    Keys();
    Tidy(c);
    assert Text.SplitAll(c, ';') == [c] by { NotSplit(c); }
  }

  /** A part's content type is read in lower case, without parameters; one that is
      missing, or no type and subtype, is plain text. */
  lemma ContentTypeIs(lines: seq<string>, header: string, t: string, more: string)
    requires ':' !in header && Text.Lower(Text.Strip(header)) == "content-type"
    requires ';' !in t && (more == "" || more[0] == ';')
    requires lines != [] && lines[0] == header + [':'] + (t + more)
    ensures ContentType(lines) == if Count(Text.Lower(Text.Strip(t)), '/') == 1 then Text.Lower(Text.Strip(t)) else "text/plain"
    ensures ContentType([]) == "text/plain"
  {
    hide Text.Strip, Text.Lower;
    HeaderHere(lines, header, t + more, "content-type");
    StripTwice(t, more);
  }

  /** Stripping a value and then what comes before its first semicolon. */
  lemma StripTwice(t: string, more: string)
    requires ';' !in t && (more == "" || more[0] == ';')
    ensures Text.Strip(Text.SplitAll(Text.Strip(t + more), ';')[0]) == Text.Strip(t)
  {
    hide Text.StripLeft, Text.StripRight, Text.SplitAll;
    var a := Text.StripLeft(t);
    LeftOf(t, more);
    LeftTwice(t);
    assert ';' !in a by { LeftHas(t); }
    if more == "" {
      assert a + more == a && t + more == t;
      var s := Text.Strip(t);
      assert ';' !in s by { RightHas(a); }
      assert Text.SplitAll(s, ';') == [s] by { NotSplit(s); }
      StripOnce(t);
    } else {
      var r := RightOf(a, more);
      assert Text.SplitAll(a + r, ';')[0] == a by { SplitHead(a, r); }
    }
  }

  lemma SplitHead(a: string, r: string)
    requires ';' !in a && r != "" && r[0] == ';'
    ensures Text.SplitAll(a + r, ';')[0] == a
  {
    assert a + r == a + [';'] + r[1..];
    Text.SplitOnceAt(a, ';', r[1..]);
  }

  lemma {:induction false} LeftOf(t: string, more: string)
    requires more == "" || more[0] == ';'
    ensures Text.StripLeft(t + more) == Text.StripLeft(t) + more
  {
    if t == "" {
      assert t + more == more;
    } else if Text.Space(t[0]) {
      assert (t + more)[1..] == t[1..] + more;
      LeftOf(t[1..], more);
    }
  }

  lemma {:induction false} RightOf(a: string, more: string) returns (r: string)
    requires more != "" && more[0] == ';'
    ensures Text.StripRight(a + more) == a + r && r != "" && r[0] == ';'
    decreases |more|
  {
    var last := more[|more| - 1];
    if Text.Space(last) {
      assert (a + more)[..|a + more| - 1] == a + more[..|more| - 1];
      r := RightOf(a, more[..|more| - 1]);
    } else {
      r := more;
    }
  }

  lemma {:induction false} LeftTwice(t: string)
    ensures Text.StripLeft(Text.StripLeft(t)) == Text.StripLeft(t)
  {
    if t != "" && Text.Space(t[0]) { LeftTwice(t[1..]); }
  }

  lemma {:induction false} LeftHas(t: string)
    ensures forall x | x in Text.StripLeft(t) :: x in t
  {
    if t != "" && Text.Space(t[0]) { LeftHas(t[1..]); }
  }

  lemma {:induction false} RightHas(t: string)
    ensures forall x | x in Text.StripRight(t) :: x in t
  {
    if t != "" && Text.Space(t[|t| - 1]) { RightHas(t[..|t| - 1]); }
  }

  lemma StripOnce(t: string)
    ensures Text.Strip(Text.Strip(t)) == Text.Strip(t)
  {
    hide Text.Strip;
    var left, right := Text.StripIs(t);
    if Text.Strip(t) != "" { Tidy(Text.Strip(t)); } else { StripNothing(); }
  }

  lemma StripNothing()
    ensures Text.Strip("") == ""
  {}

  /** A part whose type carries a name, and whose disposition has no file name, is a
      file too: `email.message` looks for its name there. */
  lemma NamedByType(n: string, t: string, f: string, rest: string)
    requires Name(n) && '"' !in n && '\r' !in n && '\n' !in n && '"' !in f && '\r' !in f
    requires MediaType(t)
    ensures var head := Line(Entry(n, Field(""))) + (CRLF + ("Content-Type: " + t + "; name=\"" + f + "\""));
      Read(CRLF + (head + (BLANK + rest)))
        == Some(Entry(Unescaped(n), File(FileName(Unescaped(f)), t, RemoveSuffix(rest, CRLF))))
  {
    hide Line, Quoted, Unescaped, Unwrapped, FileName, Text.Strip, Text.Lower, Pieces, Param, MediaType, Find, Split, RemovePrefix, RemoveSuffix, Header, Count;
    var e := Entry(n, Field(""));
    assert Quoted(n) == n by { PlainIsQuoted(n); }
    var more := "; name=\"" + f + "\"";
    var line, other := Line(e), "Content-Type: " + t + more;
    assert "Content-Type: " + t + "; name=\"" + f + "\"" == other;
    MediaTypeHas(t);
    assert '\r' !in t by { TypeHas(t); }
    assert '\r' !in line by { LineHas(e); }
    HeadOfTwo(line, other, rest);
    var lines := [line, other];
    DispositionIs(e, lines);
    var g, rest' := PiecesAre(e);
    assert Whole(e) && Pieces(OUTSIDE, Text.Join(Params(e), ';')) == Params(e);
    ParamsAre(e);
    TypeNames(t, f, lines);
  }

  lemma HeadOfTwo(line: string, other: string, rest: string)
    requires '\r' !in line && '\r' !in other && other != ""
    ensures RemovePrefix(CRLF + (line + (CRLF + other) + (BLANK + rest)), CRLF) == line + (CRLF + other) + (BLANK + rest)
    ensures Partition(line + (CRLF + other) + (BLANK + rest), BLANK) == (line + (CRLF + other), rest)
    ensures Split(line + (CRLF + other), CRLF) == [line, other]
  {
    hide Find, Split;
    var head := line + (CRLF + other);
    TwoLines(line, other, BLANK + rest);
    SplitLines(line, other);
    assert (head + (BLANK + rest))[|head| + 4..] == rest;
    assert (head + (BLANK + rest))[..|head|] == head;
  }

  lemma TypeNames(t: string, f: string, lines: seq<string>)
    requires MediaType(t) && '"' !in f
    requires |lines| == 2 && lines[1] == "Content-Type: " + t + ("; name=\"" + f + "\"")
    requires Header(lines, "content-type") == Header(lines[1..], "content-type")
    ensures ContentType(lines) == t && ParamOf(lines, "content-type", "name") == Some(Unescaped(f))
  {
    hide Text.Strip, Text.Lower, Unwrapped, Unescaped, Pieces, Param, MediaType, Header, Text.SplitAll, Forwarded.Glue, Count, AfterAll;
    MediaTypeHas(t);
    Keys();
    var more := "; name=\"" + f + "\"";
    var value := t + more;
    assert lines[1] == "Content-Type" + [':'] + (" " + value) by { assert "Content-Type: " == "Content-Type" + [':'] + " "; }
    HeaderHere(lines[1..], "Content-Type", " " + value, "content-type");
    Tidy(value);
    Tidy(t);
    assert Header(lines, "content-type") == Some(value);
    assert Text.SplitAll(value, ';')[0] == t by { SplitHead(t, more); }
    var name := " name=\"" + f + "\"";
    assert value == t + (";" + name) by { assert "; name=\"" == ";" + " name=\""; }
    TypePieces(t, name);
    NamePieces(f, "");
    assert name + "" == name;
    NothingLeft(EndsInSlash(f), name);
    assert Pieces(OUTSIDE, value) == [t, name];
    TypeIsNoName(t, f);
  }

  lemma TypePieces(t: string, name: string)
    requires MediaType(t)
    ensures Pieces(OUTSIDE, t + (";" + name)) == [t] + Pieces(OUTSIDE, name)
  {
    hide Pieces, AfterAll, Forwarded.Glue;
    MediaTypeHas(t);
    NoSemicolon(OUTSIDE, t);
    assert '"' !in t by { TypeHasNoQuote(t); }
    NoQuote(OUTSIDE, t);
    Semicolon(AfterAll(OUTSIDE, t), name);
    PiecesConcat(OUTSIDE, t, ";" + name);
    Glued(t, Pieces(OUTSIDE, name));
  }

  lemma TypeHasNoQuote(t: string)
    requires MediaType(t)
    ensures '"' !in t && '=' !in t
  {}

  lemma TypeIsNoName(t: string, f: string)
    requires MediaType(t)
    ensures Param([t, " name=\"" + f + "\""], "name") == Some(Unescaped(f))
  {
    hide Text.Strip, Text.Lower, Unescaped;
    MediaTypeHas(t);
    Tidy(t);
    var all := [t, " name=\"" + f + "\""];
    assert '=' !in t by { TypeHasNoQuote(t); }
    assert Text.SplitOnce(t, '=').None?;
    assert Text.Lower(Text.Strip(t)) != "name" by { NotName(t); }
    NameParam(f, []);
    assert all[1..] == [" name=\"" + f + "\""] + [];
  }

  lemma NotName(t: string)
    requires Count(t, '/') == 1
    ensures t != "name"
  {
    assert "name"[1..] == "ame" && "ame"[1..] == "me" && "me"[1..] == "e" && "e"[1..] == "";
    assert Count("e", '/') == 0 && Count("me", '/') == 0 && Count("ame", '/') == 0;
  }

  // ---- A name that runs into the file name

  /** How long a text is without quotes and backslashes. */
  function Weight(s: string): nat {
    if s == "" then 0 else (if s[0] == '"' || s[0] == '\\' then 0 else 1) + Weight(s[1..])
  }

  lemma {:induction false} WeightConcat(a: string, b: string)
    ensures Weight(a + b) == Weight(a) + Weight(b)
  {
    if a == "" {
      assert a + b == b;
    } else {
      assert (a + b)[1..] == a[1..] + b;
      WeightConcat(a[1..], b);
    }
  }

  lemma {:induction false} WeightUnslash(s: string, c: char)
    requires c == '"' || c == '\\'
    ensures Weight(Unslash(s, c)) == Weight(s)
    decreases |s|
  {
    if |s| >= 2 {
      if s[0] == '\\' && s[1] == c {
        WeightUnslash(s[2..], c);
        assert s[1..][1..] == s[2..];
        WeightConcat([c], Unslash(s[2..], c));
        assert Weight([c]) == 0;
      } else {
        WeightUnslash(s[1..], c);
        assert ([s[0]] + Unslash(s[1..], c))[1..] == Unslash(s[1..], c);
      }
    }
  }

  lemma {:induction false} WeightReplace(s: string, c: char, replacement: string)
    requires Weight(replacement) > 0
    ensures Weight(Replace(s, c, replacement)) >= Weight(s)
  {
    if s != "" {
      WeightReplace(s[1..], c, replacement);
      WeightConcat(if s[0] == c then replacement else [s[0]], Replace(s[1..], c, replacement));
      WeightConcat([s[0]], s[1..]);
      assert [s[0]] + s[1..] == s && Weight([s[0]]) <= 1;
    }
  }

  lemma WeightQuoted(s: string)
    ensures Weight(Quoted(s)) >= Weight(s)
  {
    hide Replace;
    assert Weight("%0D") > 0 && Weight("%0A") > 0 && Weight("%22") > 0;
    WeightReplace(s, '\r', "%0D");
    WeightReplace(Replace(s, '\r', "%0D"), '\n', "%0A");
    WeightReplace(Replace(Replace(s, '\r', "%0D"), '\n', "%0A"), '"', "%22");
  }

  /** Stripping takes nothing before the last character that is no space. */
  lemma {:induction false} StripKeeps(a: string, g: string)
    requires a != "" && !Text.Space(a[0]) && !Text.Space(a[|a| - 1])
    ensures a <= Text.Strip(a + g)
    decreases |g|
  {
    assert Text.StripLeft(a + g) == a + g;
    if g == "" {
      assert a + g == a;
    } else if Text.Space(g[|g| - 1]) {
      var h := g[..|g| - 1];
      assert (a + g)[..|a + g| - 1] == a + h;
      assert Text.StripLeft(a + h) == a + h;
      StripKeeps(a, h);
    }
  }

  lemma LeadWeighs(n: string)
    ensures var a := "\"" + n + "\"" + "; filename=\"";
      Weight(a) > Weight(n) && a[0] == '"' && a[|a| - 1] == '"' && !Text.Space('"')
  {
    assert Weight("; filename=\"") > 0;
    WeightConcat("\"", n);
    WeightConcat("\"" + n, "\"");
    WeightConcat("\"" + n + "\"", "; filename=\"");
  }

  /** The name read then weighs more than the one written, so it is another. */
  lemma LostName(n: string, g: string)
    ensures Weight(Unwrapped(Text.Strip("\"" + n + "\"" + ("; filename=\"" + g)))) > Weight(n)
  {
    hide Text.Strip, Text.Space, Weight, Unwrapped;
    var a := "\"" + n + "\"" + "; filename=\"";
    assert "\"" + n + "\"" + ("; filename=\"" + g) == a + g;
    LeadWeighs(n);
    StripKeeps(a, g);
    var r := Text.Strip(a + g);
    assert r == a + r[|a|..];
    WeightConcat(a, r[|a|..]);
    UnwrappedWeighs(r);
  }

  lemma UnwrappedWeighs(r: string)
    requires r != "" && r[0] == '"'
    ensures Weight(Unwrapped(r)) == Weight(r)
  {
    hide Unescaped;
    if |r| > 1 && r[|r| - 1] == '"' {
      var inner := r[1..|r| - 1];
      assert r == ['"'] + inner + ['"'] && Weight(['"']) == 0;
      WeightConcat(['"'], inner);
      WeightConcat(['"'] + inner, ['"']);
      WeightUnescaped(inner);
    }
  }

  lemma WeightUnescaped(s: string)
    ensures Weight(Unescaped(s)) == Weight(s)
  {
    WeightUnslash(s, '\\');
    WeightUnslash(Unslash(s, '\\'), '"');
  }

  lemma LostParam(n: string, g: string, more: seq<string>)
    ensures Param(["form-data", " name=\"" + n + "\"" + ("; filename=\"" + g)] + more, "name")
         == Some(Unwrapped(Text.Strip("\"" + n + "\"" + ("; filename=\"" + g))))
  {
    hide Text.Strip, Text.Lower, Unwrapped, Param;
    Keys();
    var v := "\"" + n + "\"" + ("; filename=\"" + g);
    var rest := [" name=\"" + n + "\"" + ("; filename=\"" + g)] + more;
    assert ["form-data", " name=\"" + n + "\"" + ("; filename=\"" + g)] + more == ["form-data"] + rest;
    FormDataParam(rest, "name");
    assert " name=\"" == " name" + ['='] + "\"";
    assert rest[0] == " name" + ['='] + v;
    ParamHere(rest, " name", v, "name");
  }

  /** One part is read, whatever follows its head: as it was written, escapes
      resolved, unless the name runs into the file name; then under another name. */
  lemma PartIsRead(e: Entry, d: string, rest: string)
    requires Named(e, d)
    ensures Read(PieceWith(e, rest)).Some?
    ensures if Whole(e) then Read(PieceWith(e, rest)) == Some(With(e, RemoveSuffix(rest, CRLF)))
            else Read(PieceWith(e, rest)).value.name != e.name
  {
    hide Head, Line, TypeLine, Partition, RemovePrefix, RemoveSuffix, Named, ContentType, Params, Pieces, Param;
    hide Quoted, Unescaped, Unwrapped, Text.Strip, Text.Join, FileName, EndsInSlash;
    HeadIsFound(e, d, rest);
    var lines := Split(Head(e), CRLF);
    DispositionIs(e, lines);
    var g, more := PiecesAre(e);
    if Whole(e) {
      ParamsAre(e);
      if e.value.File? {
        TypeIs(e, d, lines);
      } else {
        assert Header([], "content-type").None?;
        assert lines[1..] == [];
      }
    } else {
      LostParam(Quoted(e.name), g, more);
      LostName(Quoted(e.name), g);
      WeightQuoted(e.name);
    }
  }

  // ---- Which entries come back

  /** Two backslashes next to each other are read as one. */
  ghost predicate Doubled(s: string) {
    Contains(s, "\\\\")
  }

  /** A name that is read as it was given. */
  ghost predicate Plain(s: string) {
    '"' !in s && '\r' !in s && '\n' !in s && !Doubled(s)
  }

  /** A file name that is: without angle brackets around it and spaces at its ends, too. */
  ghost predicate Bare(f: string) {
    && Plain(f)
    && !(|f| > 1 && f[0] == '<' && f[|f| - 1] == '>')
    && (f != "" ==> !Text.Space(f[0]) && !Text.Space(f[|f| - 1]))
  }

  /** An entry that is read as it was given. The name of a file must not end in a
      backslash: that makes its closing quote an escaped one. */
  ghost predicate Survives(e: Entry) {
    && Plain(e.name)
    && (e.value.File? ==> Bare(e.value.filename) && !EndsInSlash(e.name))
  }

  lemma DoubledTail(s: string, k: nat)
    requires k <= |s|
    ensures Doubled(s[k..]) ==> Doubled(s)
  {
    if Doubled(s[k..]) {
      var i: nat :| At(s[k..], i, "\\\\");
      assert s[k..][i..i + 2] == s[k + i..k + i + 2];
      assert At(s, k + i, "\\\\");
    }
  }

  lemma {:induction false} UnslashShorter(s: string, c: char)
    ensures |Unslash(s, c)| <= |s|
    ensures '"' !in s && c == '"' ==> Unslash(s, c) == s
    ensures '"' !in s && c == '\\' ==> '"' !in Unslash(s, c)
    ensures c == '\\' && Doubled(s) ==> |Unslash(s, c)| < |s|
    ensures c == '\\' && !Doubled(s) ==> Unslash(s, c) == s
    decreases |s|
  {
    hide Contains;
    if |s| < 2 {
      TooShort(s, "\\\\");
    } else {
      assert s[0] in s && s[1] in s;
      assert forall x | x in s[1..] :: x in s;
      if s[0] == '\\' && s[1] == c {
        assert forall x | x in s[2..] :: x in s;
        UnslashShorter(s[2..], c);
        if c == '\\' { DoubledHere(s); }
      } else {
        UnslashShorter(s[1..], c);
        assert [s[0]] + s[1..] == s;
        if c == '\\' {
          DoubledNext(s);
        }
      }
    }
  }

  lemma DoubledHere(s: string)
    requires |s| >= 2 && s[0] == '\\' && s[1] == '\\'
    ensures Doubled(s)
  {
    assert s[0..2] == "\\\\";
    assert At(s, 0, "\\\\");
  }

  lemma DoubledNext(s: string)
    requires |s| >= 2 && !(s[0] == '\\' && s[1] == '\\')
    ensures Doubled(s) <==> Doubled(s[1..])
  {
    DoubledTail(s, 1);
    if Doubled(s) {
      var i: nat :| At(s, i, "\\\\");
      AtHas(s, i, "\\\\", 0);
      AtHas(s, i, "\\\\", 1);
      assert i > 0;
      assert s[1..][i - 1..i + 1] == s[i..i + 2];
      assert At(s[1..], i - 1, "\\\\");
    }
  }

  lemma PlainIsQuoted(s: string)
    requires '"' !in s && '\r' !in s && '\n' !in s
    ensures Quoted(s) == s
  {
    ReplaceNothing(s, '\r', "%0D");
    ReplaceNothing(s, '\n', "%0A");
    ReplaceNothing(s, '"', "%22");
  }

  lemma {:induction false} UnslashHas(s: string, c: char, x: char)
    requires x !in s && x != c
    ensures x !in Unslash(s, c)
    decreases |s|
  {
    if |s| >= 2 {
      assert s[0] in s && forall y | y in s[1..] :: y in s;
      if s[0] == '\\' && s[1] == c {
        assert forall y | y in s[2..] :: y in s;
        UnslashHas(s[2..], c, x);
      } else {
        UnslashHas(s[1..], c, x);
      }
    }
  }

  /** A name comes back exactly when it has no quote, no line break and no two
      backslashes together. */
  lemma NameIsRead(s: string)
    ensures Unescaped(Quoted(s)) == s <==> Plain(s)
    ensures var r := Unescaped(Quoted(s));
      '"' !in r && '\r' !in r && '\n' !in r && (Quoted(s) == s && Doubled(s) ==> |r| < |s|)
  {
    hide Quoted, Unslash, Doubled;
    var q := Quoted(s);
    QuotedHas(s);
    UnslashShorter(q, '\\');
    var r := Unslash(q, '\\');
    UnslashShorter(r, '"');
    UnslashHas(q, '\\', '\r');
    UnslashHas(q, '\\', '\n');
    if '"' !in s && '\r' !in s && '\n' !in s { PlainIsQuoted(s); }
  }

  lemma {:induction false} LeftShorter(s: string)
    ensures |Text.StripLeft(s)| <= |s|
    ensures forall x | x in Text.StripLeft(s) :: x in s
    ensures |Text.StripLeft(s)| == |s| <==> s == "" || !Text.Space(s[0])
  {
    if s != "" && Text.Space(s[0]) {
      LeftShorter(s[1..]);
    }
  }

  lemma {:induction false} RightShorter(s: string)
    ensures |Text.StripRight(s)| <= |s|
    ensures forall x | x in Text.StripRight(s) :: x in s
    ensures |Text.StripRight(s)| == |s| <==> s == "" || !Text.Space(s[|s| - 1])
  {
    if s != "" && Text.Space(s[|s| - 1]) {
      RightShorter(s[..|s| - 1]);
    }
  }

  lemma StripIs(s: string)
    ensures |Text.Strip(s)| <= |s|
    ensures forall x | x in Text.Strip(s) :: x in s
    ensures Text.Strip(s) == s <==> s == "" || (!Text.Space(s[0]) && !Text.Space(s[|s| - 1]))
  {
    LeftShorter(s);
    RightShorter(Text.StripLeft(s));
  }

  /** And a file name when it has no angle brackets around it or space at an end, either. */
  lemma FileNameIsRead(f: string)
    ensures FileName(Unescaped(Quoted(f))) == f <==> Bare(f)
  {
    hide Quoted, Unescaped, Doubled, Text.Strip;
    var r := Unescaped(Quoted(f));
    NameIsRead(f);
    assert r != "" ==> r[0] in r;
    var u := Unwrapped(r);
    assert |u| <= |r| && forall x | x in u :: x in r;
    StripIs(u);
    if Plain(f) {
      assert r == f;
    } else if '"' !in f && '\r' !in f && '\n' !in f {
      PlainIsQuoted(f);
      assert |r| < |f|;
    }
  }

  lemma NotDoubled(s: string)
    requires '\\' !in s
    ensures !Doubled(s)
  {
    forall i: nat
      ensures !At(s, i, "\\\\")
    {
      AtHas(s, i, "\\\\", 0);
      assert i < |s| ==> s[i] in s;
    }
  }

  /** A quote, for one, is not read as it was given. */
  lemma QuoteChanges()
    ensures Unescaped(Quoted("a\"b")) == "a%22b" != "a\"b"
  {
    hide Replace, Unslash;
    var s, r := "a\"b", "a%22b";
    ReplaceNothing(s, '\r', "%0D");
    ReplaceNothing(s, '\n', "%0A");
    assert Replace(s, '"', "%22") == r by { ReplacedQuote(); }
    NotDoubled(r);
    UnslashShorter(r, '\\');
    UnslashShorter(r, '"');
  }

  lemma ReplacedQuote()
    ensures Replace("a\"b", '"', "%22") == "a%22b"
  {
    var s := "a\"b";
    assert s[1..] == "\"b" && s[1..][1..] == "b" && "b"[1..] == "";
    assert Replace("b", '"', "%22") == "b";
    assert Replace(s[1..], '"', "%22") == "%22b";
  }

  lemma LastIsKept(s: string)
    ensures Plain(s) ==> (EndsInSlash(Quoted(s)) <==> EndsInSlash(s))
  {
    if Plain(s) { PlainIsQuoted(s); }
  }

  /** An entry comes back exactly when its names do. */
  lemma EntryIsRead(e: Entry, d: string)
    requires Named(e, d)
    ensures Read(PieceWith(e, e.value.data + CRLF)).Some?
    ensures Read(PieceWith(e, e.value.data + CRLF)) == Some(e) <==> Survives(e)
  {
    hide Read, PieceWith, Named, Quoted, Unescaped, EndsInSlash, Plain, Bare, FileName;
    var data := e.value.data;
    PartIsRead(e, d, data + CRLF);
    assert (data + CRLF)[..|data|] == data && (data + CRLF)[|data|..] == CRLF;
    NameIsRead(e.name);
    LastIsKept(e.name);
    if e.value.File? { FileNameIsRead(e.value.filename); }
  }

  // ---- Whole bodies

  /** A body after its first delimiter. */
  function Rest(entries: seq<Entry>, b: string): string {
    if entries == [] then CLOSING else PieceWith(entries[0], entries[0].value.data + CRLF + Body(entries[1..], b))
  }

  lemma BodyIs(entries: seq<Entry>, b: string)
    ensures Body(entries, b) == Delimiter(b) + Rest(entries, b)
  {
    hide Head;
    if entries != [] {
      var e := entries[0];
      BodyRegroup(Delimiter(b), CRLF, Head(e), BLANK, e.value.data, Body(entries[1..], b));
    }
  }

  lemma BodyRegroup(d: string, crlf: string, head: string, blank: string, data: string, rest: string)
    ensures d + ((crlf + (head + (blank + (data + crlf)))) + rest) == d + (crlf + (head + (blank + (data + crlf + rest))))
  {}

  /** What a part's delimiter cuts off ends with a line break, so nothing straddles. */
  lemma NothingStraddles(x: string, d: string, rest: string, j: nat)
    requires x != "" && x[|x| - 1] == '\n' && '\n' !in d && !Contains(x, d) && j < |x|
    ensures !At(x + rest, j, d)
  {
    if j + |d| <= |x| {
      assert (x + rest)[j..j + |d|] == x[j..j + |d|];
      assert !At(x, j, d);
    } else {
      AtHas(x + rest, j, d, |x| - 1 - j);
      assert (x + rest)[|x| - 1] == '\n';
    }
  }

  lemma SplitFirst(x: string, d: string, rest: string)
    requires d != "" && x != "" && x[|x| - 1] == '\n' && '\n' !in d && !Contains(x, d)
    ensures Split(x + (d + rest), d) == [x] + Split(rest, d)
  {
    hide Contains, At, Find;
    var s := x + (d + rest);
    forall j: nat | j < |x|
      ensures !At(s, j, d)
    {
      NothingStraddles(x, d, d + rest, j);
    }
    FoundAfter(x, d + rest, d);
    assert s[..|x|] == x && s[|x| + |d|..] == rest;
  }

  lemma SplitLead(d: string, rest: string)
    requires d != ""
    ensures Split(d + rest, d) == [""] + Split(rest, d)
  {
    assert (d + rest)[0..|d|] == d;
    FoundAt(d + rest, d, 0);
    assert (d + rest)[|d|..] == rest && (d + rest)[..0] == "";
  }

  lemma PieceIs(e: Entry, rest: string)
    ensures PieceWith(e, rest) == Before(e) + rest
    ensures |Before(e)| > 4 && Before(e)[|Before(e)| - 1] == '\n'
  {
    hide Quoted;
    PieceRegroup(CRLF, Head(e), BLANK, rest);
  }

  lemma PieceRegroup(crlf: string, head: string, blank: string, rest: string)
    ensures crlf + (head + (blank + rest)) == crlf + (head + blank) + rest
  {}

  /** Nothing but the contents can hold the delimiter. */
  lemma PieceIsClean(e: Entry, b: string)
    requires Boundary(b) && Named(e, Delimiter(b)) && !Contains(e.value.data, Delimiter(b))
    ensures !Contains(PieceWith(e, e.value.data + CRLF), Delimiter(b))
  {
    hide Before, Contains, Named;
    var d, data := Delimiter(b), e.value.data;
    BoundaryHas(b);
    BeforeIsClean(e, b);
    PieceIs(e, data + CRLF);
    var before := Before(e);
    var n := |before| - 1;
    PrefixIsClean(before, n, d);
    TooShort("\n", d);
    Apart(data, '\r', "\n", d);
    assert data + CRLF == data + (['\r'] + "\n");
    Apart(before[..n], '\n', data + CRLF, d);
    assert before + (data + CRLF) == before[..n] + (['\n'] + (data + CRLF));
  }

  lemma PrefixIsClean(s: string, n: nat, d: string)
    requires n <= |s| && !Contains(s, d)
    ensures !Contains(s[..n], d)
  {
    forall i: nat
      ensures !At(s[..n], i, d)
    {
      assert !At(s, i, d);
      assert i + |d| <= n ==> s[..n][i..i + |d|] == s[i..i + |d|];
    }
  }

  /** Contents that hold the delimiter are cut off there. */
  lemma PieceIsCut(e: Entry, b: string, rest: string) returns (k: nat)
    requires Boundary(b) && Named(e, Delimiter(b)) && Contains(e.value.data, Delimiter(b))
    ensures k < |e.value.data|
    ensures Split(PieceWith(e, e.value.data + rest), Delimiter(b))[0] == PieceWith(e, e.value.data[..k])
  {
    hide Before, Named, PieceWith;
    var d, data := Delimiter(b), e.value.data;
    BoundaryHas(b);
    BeforeIsClean(e, b);
    PieceIs(e, data + rest);
    k := Find(data, d).value;
    PieceIs(e, data[..k]);
    var before := Before(e);
    CutInside(before, data, rest, d, k);
  }

  lemma CutInside(before: string, data: string, rest: string, d: string, k: nat)
    requires before != "" && before[|before| - 1] == '\n' && '\n' !in d && d != "" && !Contains(before, d)
    requires At(data, k, d) && forall j: nat | j < k :: !At(data, j, d)
    ensures Split(before + (data + rest), d)[0] == before + data[..k]
  {
    hide Find, Contains;
    var s := before + (data + rest);
    var n := |before| + k;
    forall j: nat | j < n
      ensures !At(s, j, d)
    {
      if j < |before| {
        NothingStraddles(before, d, data + rest, j);
      } else {
        AtInside(before, data, rest, d, j - |before|);
      }
    }
    AtInside(before, data, rest, d, k);
    FoundAt(s, d, n);
    assert s[..n] == before + data[..k];
  }

  lemma AtInside(before: string, data: string, rest: string, d: string, j: nat)
    requires j + |d| <= |data|
    ensures At(before + (data + rest), |before| + j, d) <==> At(data, j, d)
  {
    var n := |before| + j;
    assert (before + (data + rest))[n..n + |d|] == data[j..j + |d|];
  }

  lemma {:induction false} ReadFirst(part: string, parts: seq<string>)
    ensures ReadAll([part] + parts) == (if Read(part).Some? then [Read(part).value] else []) + ReadAll(parts)
    decreases |parts|
  {
    hide Read;
    var all := [part] + parts;
    if parts == [] {
      assert all[..0] == [] && all[|all| - 1] == part;
    } else {
      assert all[..|all| - 1] == [part] + parts[..|parts| - 1] && all[|all| - 1] == parts[|parts| - 1];
      ReadFirst(part, parts[..|parts| - 1]);
    }
  }

  lemma OpenFirst(e: Entry, rest: string, parts: seq<string>)
    ensures Open([PieceWith(e, rest)] + parts) == [PieceWith(e, rest)] + Open(parts)
  {
    var part := PieceWith(e, rest);
    assert part[0] == '\r' && !("--" <= part);
    assert ([part] + parts)[1..] == parts;
  }

  /** The first part of a body is read on its own, as its entry exactly when that survives. */
  lemma FirstIsRead(e: Entry, b: string, parts: seq<string>) returns (first: Entry)
    requires Named(e, Delimiter(b))
    ensures ReadAll(Open([PieceWith(e, e.value.data + CRLF)] + parts)) == [first] + ReadAll(Open(parts))
    ensures first == e <==> Survives(e)
  {
    hide PieceWith, Read, Named, Survives;
    var part := PieceWith(e, e.value.data + CRLF);
    OpenFirst(e, e.value.data + CRLF, parts);
    EntryIsRead(e, Delimiter(b));
    ReadFirst(part, Open(parts));
    first := Read(part).value;
  }

  lemma FirstIsCut(e: Entry, b: string, k: nat, parts: seq<string>)
    requires Named(e, Delimiter(b)) && k < |e.value.data|
    ensures var read := ReadAll(Open([PieceWith(e, e.value.data[..k])] + parts));
      read != [] && read[0] != e
  {
    hide PieceWith, Read, Named, Whole;
    var data := e.value.data[..k];
    OpenFirst(e, data, parts);
    PartIsRead(e, Delimiter(b), data);
    ReadFirst(PieceWith(e, data), Open(parts));
  }

  /** No contents hold the delimiter, and every entry survives. */
  ghost predicate Kept(entries: seq<Entry>, d: string) {
    forall i | 0 <= i < |entries| :: !Contains(entries[i].value.data, d) && Survives(entries[i])
  }

  lemma KeptTail(entries: seq<Entry>, d: string)
    requires entries != []
    ensures Kept(entries, d) <==>
      !Contains(entries[0].value.data, d) && Survives(entries[0]) && Kept(entries[1..], d)
  {
    hide Contains, Survives;
    var tail := entries[1..];
    assert forall i | 0 <= i < |tail| :: tail[i] == entries[i + 1];
    assert forall i | 0 < i < |entries| :: entries[i] == tail[i - 1];
  }

  lemma {:induction false} RestIsRead(entries: seq<Entry>, b: string)
    requires Boundary(b) && forall i | 0 <= i < |entries| :: Named(entries[i], Delimiter(b))
    ensures ReadAll(Open(Split(Rest(entries, b), Delimiter(b)))) == entries
       <==> Kept(entries, Delimiter(b))
  {
    hide Named, PieceWith, Contains, Boundary, Delimiter, Rest, Split, Open, ReadAll, Kept, Survives;
    var d := Delimiter(b);
    if entries == [] {
      assert Kept([], d) by { NoneKept(d); }
      BoundaryHas(b);
      ClosingIsRead(d);
      assert Rest([], b) == CLOSING by { RestOfNone(b); }
    } else {
      var e, tail := entries[0], entries[1..];
      KeptTail(entries, d);
      if Contains(e.value.data, d) {
        RestIsCut(entries, b);
      } else {
        RestIsRead(tail, b);
        var first := RestGoesOn(entries, b);
        assert entries == [e] + tail;
      }
    }
  }

  lemma NoneKept(d: string)
    ensures Kept([], d)
  {}

  lemma RestOfNone(b: string)
    ensures Rest([], b) == CLOSING
  {}

  lemma RestIs(entries: seq<Entry>, b: string)
    requires entries != []
    ensures Rest(entries, b) == PieceWith(entries[0], entries[0].value.data + (CRLF + Body(entries[1..], b)))
  {
    hide PieceWith, Body;
    var data, rest := entries[0].value.data, Body(entries[1..], b);
    assert data + CRLF + rest == data + (CRLF + rest);
  }

  /** A first entry whose contents hold the delimiter does not come back. */
  lemma RestIsCut(entries: seq<Entry>, b: string)
    requires Boundary(b) && entries != [] && Named(entries[0], Delimiter(b))
    requires Contains(entries[0].value.data, Delimiter(b))
    ensures ReadAll(Open(Split(Rest(entries, b), Delimiter(b)))) != entries
  {
    hide Named, PieceWith, Contains, Boundary, Delimiter, Rest, Split, Open, ReadAll;
    var d, e := Delimiter(b), entries[0];
    BoundaryHas(b);
    RestIs(entries, b);
    var k := PieceIsCut(e, b, CRLF + Body(entries[1..], b));
    var parts := Split(Rest(entries, b), d);
    assert parts == [PieceWith(e, e.value.data[..k])] + parts[1..];
    FirstIsCut(e, b, k, parts[1..]);
  }

  /** Any other comes back if it survives, and the rest is read on its own. */
  lemma RestGoesOn(entries: seq<Entry>, b: string) returns (first: Entry)
    requires Boundary(b) && entries != [] && Named(entries[0], Delimiter(b))
    requires !Contains(entries[0].value.data, Delimiter(b))
    ensures ReadAll(Open(Split(Rest(entries, b), Delimiter(b))))
         == [first] + ReadAll(Open(Split(Rest(entries[1..], b), Delimiter(b))))
    ensures first == entries[0] <==> Survives(entries[0])
  {
    hide Named, PieceWith, Contains, Boundary, Delimiter, Rest, Split, Open, ReadAll, Before, Survives;
    var d, e, tail := Delimiter(b), entries[0], entries[1..];
    var x := PieceWith(e, e.value.data + CRLF);
    BoundaryHas(b);
    RestIs(entries, b);
    BodyIs(tail, b);
    PieceIsClean(e, b);
    PieceIs(e, e.value.data + CRLF);
    PieceIs(e, e.value.data + (CRLF + Body(tail, b)));
    Append4(Before(e), e.value.data, CRLF, Body(tail, b));
    assert x != "" && x[|x| - 1] == '\n';
    SplitFirst(x, d, Rest(tail, b));
    first := FirstIsRead(e, b, Split(Rest(tail, b), d));
  }

  lemma Append4(a: string, b: string, c: string, d: string)
    ensures a + (b + (c + d)) == a + (b + c) + d
  {}

  lemma ClosingIsRead(d: string)
    requires |d| == 34
    ensures ReadAll(Open(Split(CLOSING, d))) == []
  {
    assert Split(CLOSING, d) == [CLOSING];
    assert "--" <= CLOSING;
  }

  /** The round trip: every entry comes back, contents and order, line breaks and
      blank lines included, if and only if no contents hold the delimiter, no name
      has a quote, a line break or two backslashes together, no file name has
      angle brackets around it or a space at an end, and no file's name ends in a
      backslash. */
  lemma RoundTrip(entries: seq<Entry>, b: string)
    requires Boundary(b) && forall i | 0 <= i < |entries| :: Named(entries[i], Delimiter(b))
    ensures Entries(Body(entries, b), b) == entries
       <==> Kept(entries, Delimiter(b))
  {
    hide Named, Rest, Body, Kept, Split, Read;
    BodyIs(entries, b);
    SplitLead(Delimiter(b), Rest(entries, b));
    var parts := Split(Body(entries, b), Delimiter(b));
    assert parts[1..] == Split(Rest(entries, b), Delimiter(b));
    RestIsRead(entries, b);
  }

  /** The values under one name, in order. */
  function ValuesOf(entries: seq<Entry>, name: string): seq<Value> {
    if entries == [] then []
    else (if entries[0].name == name then [entries[0].value] else []) + ValuesOf(entries[1..], name)
  }

  /** The form a request gets holds, for each name, its values in the order they were written. */
  lemma {:induction false} GroupHolds(entries: seq<Entry>, name: string)
    ensures name in Group(entries) <==> ValuesOf(entries, name) != []
    ensures name in Group(entries) ==> Group(entries)[name] == ValuesOf(entries, name)
  {
    if entries != [] {
      var before, last := entries[..|entries| - 1], entries[|entries| - 1];
      GroupHolds(before, name);
      assert entries == before + [last];
      ValuesMore(before, last, name);
    }
  }

  lemma ValuesHead(e: Entry, rest: seq<Entry>, name: string)
    ensures ValuesOf([e] + rest, name) == (if e.name == name then [e.value] else []) + ValuesOf(rest, name)
    ensures ValuesOf([], name) == []
  {
    assert ([e] + rest)[1..] == rest;
  }

  lemma {:induction false} ValuesMore(entries: seq<Entry>, e: Entry, name: string)
    ensures ValuesOf(entries + [e], name) == ValuesOf(entries, name) + (if e.name == name then [e.value] else [])
  {
    hide ValuesOf;
    if entries == [] {
      ValuesHead(e, [], name);
      assert entries + [e] == [e] + [];
    } else {
      var first, rest := entries[0], entries[1..];
      ValuesMore(rest, e, name);
      ValuesHead(first, rest, name);
      ValuesHead(first, rest + [e], name);
      assert entries == [first] + rest && entries + [e] == [first] + (rest + [e]);
    }
  }
}
