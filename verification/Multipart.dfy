/** Forms with files, as the test client writes them (korvex/testing.py:959-979)
    and requests read them (korvex/_requests.py:323-346): section 4.1 of
    RFC 7578, section 5.1.1 of RFC 2046. A body is bytes, one to a character. */
module Multipart {
  import opened Wrappers
  import Text
  import Forwarded

  const CRLF := "\r\n"
  const BLANK := "\r\n\r\n"

  datatype Value = Field(data: string) | File(filename: string, contentType: string, data: string)

  datatype Entry = Entry(name: string, value: Value)

  type Form = map<string, seq<Value>>

  // ---- Finding and splitting

  predicate At(s: string, i: nat, sep: string) {
    i + |sep| <= |s| && s[i..i + |sep|] == sep
  }

  ghost predicate Contains(s: string, sep: string) {
    exists i: nat :: At(s, i, sep)
  }

  /** The leftmost place where `sep` stands. */
  function Find(s: string, sep: string): (r: Option<nat>)
    requires sep != ""
    ensures r.Some? ==> At(s, r.value, sep) && forall i: nat | i < r.value :: !At(s, i, sep)
    ensures r.None? ==> forall i: nat :: !At(s, i, sep)
  {
    if |s| < |sep| then None
    else if s[..|sep|] == sep then Some(0)
    else
      InTail(s, sep);
      match Find(s[1..], sep)
      case None => None
      case Some(i) => Some(i + 1)
  }

  lemma InTail(s: string, sep: string)
    requires s != ""
    ensures forall i: nat | i > 0 :: At(s, i, sep) <==> At(s[1..], i - 1, sep)
  {
    forall i: nat | i > 0
      ensures At(s, i, sep) <==> At(s[1..], i - 1, sep)
    {
      if i + |sep| <= |s| {
        var here, there := s[i..i + |sep|], s[1..][i - 1..i - 1 + |sep|];
        assert forall k | 0 <= k < |sep| :: here[k] == s[i + k] == there[k];
        assert here == there;
      }
    }
  }

  /** Python's `split`. */
  function Split(s: string, sep: string): (parts: seq<string>)
    requires sep != ""
    ensures |parts| > 0
    decreases |s|
  {
    match Find(s, sep)
    case None => [s]
    case Some(i) => [s[..i]] + Split(s[i + |sep|..], sep)
  }

  /** Python's `partition`, without the separator. */
  function Partition(s: string, sep: string): (string, string)
    requires sep != ""
  {
    match Find(s, sep)
    case None => (s, "")
    case Some(i) => (s[..i], s[i + |sep|..])
  }

  function RemovePrefix(s: string, p: string): string {
    if p <= s then s[|p|..] else s
  }

  function RemoveSuffix(s: string, p: string): string {
    if |p| <= |s| && s[|s| - |p|..] == p then s[..|s| - |p|] else s
  }

  // ---- Writing

  function Replace(s: string, c: char, replacement: string): string {
    if s == "" then "" else (if s[0] == c then replacement else [s[0]]) + Replace(s[1..], c, replacement)
  }

  /** A name inside a quoted header parameter. */
  function Quoted(s: string): string {
    Replace(Replace(Replace(s, '\r', "%0D"), '\n', "%0A"), '"', "%22")
  }

  function Disposition(e: Entry): string {
    "Content-Disposition: form-data; name=\"" + Quoted(e.name) + "\""
    + (if e.value.Field? then "" else "; filename=\"" + Quoted(e.value.filename) + "\"")
  }

  function Head(e: Entry): string {
    Disposition(e) + (if e.value.Field? then "" else CRLF + ("Content-Type: " + e.value.contentType))
  }

  function Delimiter(boundary: string): string {
    "--" + boundary
  }

  /** A part, without the delimiter before it. */
  function Piece(e: Entry): string {
    CRLF + (Head(e) + (BLANK + (e.value.data + CRLF)))
  }

  const CLOSING := "--\r\n"

  function Body(entries: seq<Entry>, boundary: string): string {
    if entries == [] then Delimiter(boundary) + CLOSING
    else Delimiter(boundary) + (Piece(entries[0]) + Body(entries[1..], boundary))
  }

  /** A form's fields, one entry per value, in order. */
  function Fields(form: seq<(string, seq<string>)>): seq<Entry> {
    if form == [] then []
    else
      var (name, values) := form[|form| - 1];
      Fields(form[..|form| - 1]) + FieldValues(name, values)
  }

  function FieldValues(name: string, values: seq<string>): seq<Entry> {
    seq(|values|, i requires 0 <= i < |values| => Entry(name, Field(values[i])))
  }

  method Write(form: seq<(string, seq<string>)>, files: seq<Entry>, boundary: string) returns (body: string)
    requires forall i | 0 <= i < |files| :: files[i].value.File?
    ensures body == Body(Fields(form) + files, boundary)
  {
    hide Fields, Body, Piece, Parts, Quoted, Delimiter;
    var parts: string := "";
    ghost var done: seq<Entry> := [];
    NoParts(boundary);
    FieldsNone(form);
    for i := 0 to |form|
      invariant done == Fields(form[..i])
      invariant parts == Parts(done, boundary)
    {
      var (name, values) := form[i];
      ghost var before := done;
      FieldsNext(form, i);
      for j := 0 to |values|
        invariant done == before + FieldValues(name, values)[..j]
        invariant parts == Parts(done, boundary)
      {
        var head := "--" + boundary + "\r\nContent-Disposition: form-data; name=\"" + Quoted(name) + "\"\r\n\r\n";
        ghost var e := Entry(name, Field(values[j]));
        FieldIsPart(e, boundary, head);
        PartsNext(done, e, boundary);
        assert done + [e] == before + FieldValues(name, values)[..j + 1];
        parts := parts + (head + values[j] + "\r\n");
        done := done + [e];
      }
    }
    assert form[..|form|] == form;
    for i := 0 to |files|
      invariant done == Fields(form) + files[..i]
      invariant parts == Parts(done, boundary)
    {
      var File(filename, contentType, data) := files[i].value;
      var head := "--" + boundary + "\r\nContent-Disposition: form-data; name=\"" + Quoted(files[i].name)
        + "\"; filename=\"" + Quoted(filename) + "\"\r\nContent-Type: " + contentType + "\r\n\r\n";
      FileIsPart(files[i], boundary, head);
      PartsNext(done, files[i], boundary);
      assert done + [files[i]] == Fields(form) + files[..i + 1];
      parts := parts + (head + data + "\r\n");
      done := done + [files[i]];
    }
    assert files[..|files|] == files;
    BodyIsParts(done, boundary);
    body := parts + ("--" + boundary + "--\r\n");
    ClosingIs(boundary);
  }

  /** The parts of a body, each after its delimiter. */
  function Parts(entries: seq<Entry>, boundary: string): string {
    if entries == [] then ""
    else Parts(entries[..|entries| - 1], boundary) + (Delimiter(boundary) + Piece(entries[|entries| - 1]))
  }

  lemma ClosingIs(boundary: string)
    ensures "--" + boundary + "--\r\n" == Delimiter(boundary) + CLOSING
  {}

  lemma NoParts(boundary: string)
    ensures Parts([], boundary) == ""
  {}

  lemma PartsNext(entries: seq<Entry>, e: Entry, boundary: string)
    ensures Parts(entries + [e], boundary) == Parts(entries, boundary) + (Delimiter(boundary) + Piece(e))
  {
    assert (entries + [e])[..|entries|] == entries;
  }

  lemma FieldsNone(form: seq<(string, seq<string>)>)
    ensures Fields(form[..0]) == []
  {}

  lemma FieldsNext(form: seq<(string, seq<string>)>, i: nat)
    requires i < |form|
    ensures Fields(form[..i + 1]) == Fields(form[..i]) + FieldValues(form[i].0, form[i].1)
  {
    assert form[..i + 1][..i] == form[..i];
  }

  lemma FieldIsPart(e: Entry, boundary: string, head: string)
    requires e.value.Field?
    requires head == "--" + boundary + "\r\nContent-Disposition: form-data; name=\"" + Quoted(e.name) + "\"\r\n\r\n"
    ensures head + e.value.data + "\r\n" == Delimiter(boundary) + Piece(e)
  {
    hide Quoted;
    var name := "Content-Disposition: form-data; name=\"";
    assert "\r\nContent-Disposition: form-data; name=\"" == CRLF + name;
    assert "\"\r\n\r\n" == "\"" + BLANK;
    Regroup("--", boundary, CRLF, name, Quoted(e.name), "\"", BLANK, e.value.data);
    assert Head(e) == name + Quoted(e.name) + "\"" by { HeadOfField(e); }
  }

  lemma FileIsPart(e: Entry, boundary: string, head: string)
    requires e.value.File?
    requires head == "--" + boundary + "\r\nContent-Disposition: form-data; name=\"" + Quoted(e.name)
        + "\"; filename=\"" + Quoted(e.value.filename) + "\"\r\nContent-Type: " + e.value.contentType + "\r\n\r\n"
    ensures head + e.value.data + "\r\n" == Delimiter(boundary) + Piece(e)
  {
    hide Quoted;
    var name := "Content-Disposition: form-data; name=\"";
    var q, f, c := Quoted(e.name), Quoted(e.value.filename), e.value.contentType;
    var end := "; filename=\"" + f + "\"" + (CRLF + ("Content-Type: " + c));
    assert "\r\nContent-Disposition: form-data; name=\"" == CRLF + name;
    FileEnd(f, c);
    Regroup("--", boundary, CRLF, name, q, "\"" + end, BLANK, e.value.data);
    HeadOfFile(e);
    Nested("--" + boundary + (CRLF + name) + q, "\"; filename=\"", f, "\"\r\nContent-Type: ", c, BLANK);
  }

  lemma FileEnd(f: string, c: string)
    ensures "\"; filename=\"" + f + "\"\r\nContent-Type: " + c
         == "\"" + ("; filename=\"" + f + "\"" + (CRLF + ("Content-Type: " + c)))
  {
    assert "\"; filename=\"" == "\"" + "; filename=\"";
    assert "\"\r\nContent-Type: " == "\"" + (CRLF + "Content-Type: ");
  }

  lemma HeadOfField(e: Entry)
    requires e.value.Field?
    ensures Head(e) == "Content-Disposition: form-data; name=\"" + Quoted(e.name) + "\""
  {
    hide Quoted;
  }

  lemma HeadOfFile(e: Entry)
    requires e.value.File?
    ensures Head(e) == "Content-Disposition: form-data; name=\"" + Quoted(e.name)
      + ("\"" + ("; filename=\"" + Quoted(e.value.filename) + "\"" + (CRLF + ("Content-Type: " + e.value.contentType))))
  {
    hide Quoted;
  }

  // Concatenations regrouped, the literals in them kept out of sight.

  lemma Regroup(dashes: string, b: string, crlf: string, name: string, q: string, end: string, blank: string, data: string)
    ensures dashes + b + (crlf + name) + q + (end + blank) + data + crlf
         == (dashes + b) + (crlf + ((name + q + end) + (blank + (data + crlf))))
  {}

  lemma Nested(a: string, b: string, f: string, ct: string, c: string, blank: string)
    ensures a + b + f + ct + c + blank == a + (b + f + ct + c + blank)
    ensures a + b + f + (ct + c + blank) == a + (b + f + ct + c + blank)
  {}

  lemma {:induction false} BodyIsParts(entries: seq<Entry>, boundary: string)
    ensures Body(entries, boundary) == Parts(entries, boundary) + (Delimiter(boundary) + CLOSING)
  {
    PartsThenBody(entries, |entries|, boundary);
    assert entries[..|entries|] == entries && entries[|entries|..] == [];
  }

  lemma {:induction false} PartsThenBody(entries: seq<Entry>, i: nat, boundary: string)
    requires i <= |entries|
    ensures Body(entries, boundary) == Parts(entries[..i], boundary) + Body(entries[i..], boundary)
  {
    hide Piece;
    if i == 0 {
      assert entries[..0] == [] && entries[0..] == entries;
      assert "" + Body(entries, boundary) == Body(entries, boundary);
    } else {
      PartsThenBody(entries, i - 1, boundary);
      PartsNext(entries[..i - 1], entries[i - 1], boundary);
      assert entries[..i - 1] + [entries[i - 1]] == entries[..i];
      assert entries[i - 1..][1..] == entries[i..];
    }
  }

  // ---- Reading

  /** The value of the first header so named, as `email.message` gives it. */
  function Header(lines: seq<string>, name: string): Option<string> {
    if lines == [] then None
    else
      var (key, value) := match Text.SplitOnce(lines[0], ':') case None => (lines[0], "") case Some(both) => both;
      if Text.Lower(Text.Strip(key)) == name then Some(Text.Strip(value)) else Header(lines[1..], name)
  }

  /** `replace` of every backslash with `c` after it by `c`. */
  function Unslash(s: string, c: char): string {
    if |s| < 2 then s
    else if s[0] == '\\' && s[1] == c then [c] + Unslash(s[2..], c)
    else [s[0]] + Unslash(s[1..], c)
  }

  function Unescaped(s: string): string {
    Unslash(Unslash(s, '\\'), '"')
  }

  /** Out of its quotes, escapes resolved, or out of its angle brackets. */
  function Unwrapped(v: string): string {
    if |v| > 1 && v[0] == '"' && v[|v| - 1] == '"' then Unescaped(v[1..|v| - 1])
    else if |v| > 1 && v[0] == '<' && v[|v| - 1] == '>' then v[1..|v| - 1]
    else v
  }

  /** The first parameter so named among the pieces of a header's value. */
  function Param(pieces: seq<string>, name: string): Option<string> {
    if pieces == [] then None
    else
      var (key, value) := match Text.SplitOnce(pieces[0], '=') case None => (pieces[0], "") case Some(both) => both;
      if Text.Lower(Text.Strip(key)) == name then Some(Unwrapped(Text.Strip(value))) else Param(pieces[1..], name)
  }

  /** How quotes are counted in a header's value: each opens or closes, but one
      right after a backslash. */
  datatype Quoting = Quoting(inside: bool, slash: bool)

  const OUTSIDE := Quoting(false, false)

  function After(q: Quoting, c: char): Quoting {
    Quoting(if c == '"' && !q.slash then !q.inside else q.inside, c == '\\')
  }

  /** The value cut at the semicolons outside its quotes. */
  function Pieces(q: Quoting, value: string): (pieces: seq<string>)
    ensures |pieces| > 0
    decreases |value|
  {
    if value == "" then [""]
    else if value[0] == ';' && !q.inside then [""] + Pieces(OUTSIDE, value[1..])
    else Forwarded.Glue([value[0]], Pieces(After(q, value[0]), value[1..]))
  }

  function ParamOf(lines: seq<string>, header: string, name: string): Option<string> {
    match Header(lines, header)
    case None => None
    case Some(value) => Param(Pieces(OUTSIDE, value), name)
  }

  /** A file name is unwrapped once more, and stripped. */
  function FileName(v: string): string {
    Text.Strip(Unwrapped(v))
  }

  function Count(s: string, c: char): nat {
    if s == "" then 0 else (if s[0] == c then 1 else 0) + Count(s[1..], c)
  }

  function ContentType(lines: seq<string>): string {
    match Header(lines, "content-type")
    case None => "text/plain"
    case Some(value) =>
      var t := Text.Lower(Text.Strip(Text.SplitAll(value, ';')[0]));
      if Count(t, '/') == 1 then t else "text/plain"
  }

  /** The entry of one part, or None if it names no field. */
  function Read(part: string): Option<Entry> {
    var (head, rest) := Partition(RemovePrefix(part, CRLF), BLANK);
    var lines := Split(head, CRLF);
    match ParamOf(lines, "content-disposition", "name")
    case None => None
    case Some(name) =>
      var data := RemoveSuffix(rest, CRLF);
      var inDisposition := ParamOf(lines, "content-disposition", "filename");
      match (if inDisposition.Some? then inDisposition else ParamOf(lines, "content-type", "name"))
      case None => Some(Entry(name, Field(data)))
      case Some(filename) => Some(Entry(name, File(FileName(filename), ContentType(lines), data)))
  }

  /** Values grouped under their names, each name's in order. */
  function Group(entries: seq<Entry>): Form {
    if entries == [] then map[] else Added(Group(entries[..|entries| - 1]), entries[|entries| - 1])
  }

  function Added(form: Form, e: Entry): Form {
    form[e.name := (if e.name in form then form[e.name] else []) + [e.value]]
  }

  /** The parts before the closing one. */
  function Open(parts: seq<string>): seq<string> {
    if parts == [] || "--" <= parts[0] then [] else [parts[0]] + Open(parts[1..])
  }

  function ReadAll(parts: seq<string>): seq<Entry> {
    if parts == [] then []
    else
      var e := Read(parts[|parts| - 1]);
      ReadAll(parts[..|parts| - 1]) + (if e.Some? then [e.value] else [])
  }

  function Entries(body: string, boundary: string): seq<Entry> {
    ReadAll(Open(Split(body, Delimiter(boundary))[1..]))
  }

  method Parse(body: string, boundary: string) returns (form: Form)
    ensures form == Group(Entries(body, boundary))
  {
    hide Read, Split, Group;
    var parts := Split(body, Delimiter(boundary))[1..];
    form := map[];
    GroupNone(parts);
    var i := 0;
    while i < |parts| && !("--" <= parts[i])
      invariant i <= |parts| && forall k | 0 <= k < i :: !("--" <= parts[k])
      invariant form == Group(ReadAll(parts[..i]))
      decreases |parts| - i
    {
      ReadNext(parts, i);
      var e := Read(parts[i]);
      assert ReadAll(parts[..i]) + [] == ReadAll(parts[..i]);
      if e.Some? {
        GroupNext(ReadAll(parts[..i]), e.value);
        var Entry(name, value) := e.value;
        form := form[name := (if name in form then form[name] else []) + [value]];
      }
      i := i + 1;
    }
    OpenIs(parts, i);
  }

  lemma GroupNone(parts: seq<string>)
    ensures Group(ReadAll(parts[..0])) == map[]
  {}

  lemma GroupNext(entries: seq<Entry>, e: Entry)
    ensures Group(entries + [e]) == Added(Group(entries), e)
  {
    assert (entries + [e])[..|entries|] == entries;
  }

  lemma ReadNext(parts: seq<string>, i: nat)
    requires i < |parts|
    ensures ReadAll(parts[..i + 1]) == ReadAll(parts[..i]) + (var e := Read(parts[i]); if e.Some? then [e.value] else [])
  {
    hide Read;
    assert parts[..i + 1][..i] == parts[..i];
  }

  lemma {:induction false} OpenIs(parts: seq<string>, i: nat)
    requires i <= |parts| && (forall k | 0 <= k < i :: !("--" <= parts[k])) && (i < |parts| ==> "--" <= parts[i])
    ensures Open(parts) == parts[..i]
  {
    if i > 0 {
      OpenIs(parts[1..], i - 1);
      assert [parts[0]] + parts[1..][..i - 1] == parts[..i];
    }
  }
}
