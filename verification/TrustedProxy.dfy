/** Whose word is taken for the client (src/proxy.rs:26-213): only a
    trusted proxy's, and of what it passes on, only what it wrote itself, as long
    as the line can be read. */
module TrustedProxy {
  import opened Wrappers
  import Text
  import Forwarded

  /** The lines of each header, as they come: a line may hold any bytes. */
  datatype Headers = Headers(
    xFor: seq<string>, xProto: seq<string>, xHost: seq<string>, forwarded: seq<string>)

  /** What `to_str` accepts: a line with any other byte is dropped whole. */
  predicate VisibleChar(c: char) {
    ' ' <= c <= '~' || c == '\t'
  }

  predicate Visible(line: string) {
    Text.AllIn(line, VisibleChar)
  }

  /** `address` says which texts are the address of a trusted proxy. */
  datatype Trusted = Trusted(all: bool, address: string -> bool, host: bool)

  datatype Resolved = Resolved(client: Option<(string, nat)>, scheme: string, host: Option<string>)

  /** The lines that are read. */
  function Texts(lines: seq<string>): seq<string> {
    if lines == [] then []
    else Texts(lines[..|lines| - 1]) + (if Visible(lines[|lines| - 1]) then [lines[|lines| - 1]] else [])
  }

  /** Every comma-separated value, over all lines, without the empty ones. */
  function Values(lines: seq<string>): seq<string> {
    if lines == [] then []
    else
      Values(lines[..|lines| - 1])
      + (if Visible(lines[|lines| - 1]) then Forwarded.Kept(Text.SplitAll(lines[|lines| - 1], ',')) else [])
  }

  // ---- Addresses

  /** Rust's `parse` of a 16-bit port, 0 if it isn't one. */
  function Port(s: string): (port: nat)
    ensures port < 0x1_0000
  {
    var digits := if s != "" && s[0] == '+' then s[1..] else s;
    if digits != "" && Text.AllIn(digits, Text.IsDigit) && Text.Number(digits) < 0x1_0000 then Text.Number(digits) else 0
  }

  function SplitHostPort(entry: string): (string, nat) {
    if entry != "" && entry[0] == '[' then
      match Text.SplitOnce(entry[1..], ']')
      case None => (entry[1..], 0)
      case Some((host, after)) => (host, if after != "" && after[0] == ':' then Port(after[1..]) else 0)
    else
      match Text.SplitOnce(entry, ':')
      case Some((host, port)) => if ':' !in port then (host, Port(port)) else (entry, 0)
      case None => (entry, 0)
  }

  predicate TrustsEntry(t: Trusted, entry: string) {
    t.all || t.address(SplitHostPort(entry).0)
  }

  function Scheme(proto: string): string {
    if Text.Lower(proto) == "https" then "https" else "http"
  }

  predicate HostChar(c: char) {
    Text.IsAlphanumeric(c) || c in ".-:[]_"
  }

  function ValidHost(host: string): Option<string> {
    if host != "" && |host| <= 255 && Text.AllIn(host, HostChar) then Some(Text.Lower(host)) else None
  }

  // ---- The walk from the right

  /** The last one not trusted, or else the first of all. */
  function Walk<T>(entries: seq<T>, trusts: T -> bool): Option<T> {
    match LastUntrusted(entries, trusts)
    case Some(entry) => Some(entry)
    case None => if entries == [] then None else Some(entries[0])
  }

  function LastUntrusted<T>(entries: seq<T>, trusts: T -> bool): Option<T> {
    if entries == [] then None
    else if !trusts(entries[|entries| - 1]) then Some(entries[|entries| - 1])
    else LastUntrusted(entries[..|entries| - 1], trusts)
  }

  function Last(values: seq<string>): Option<string> {
    if values == [] then None else Some(values[|values| - 1])
  }

  function HostOf(host: Option<string>): Option<string> {
    match host case None => None case Some(h) => ValidHost(h)
  }

  function ResolveXForwarded(h: Headers, t: Trusted, r: Resolved): Resolved {
    var client := Walk(Values(h.xFor), EntryTrust(t));
    var proto := Last(Values(h.xProto));
    Resolved(
      if client.Some? then Some((client.value, 0)) else r.client,
      if proto.Some? then Scheme(proto.value) else r.scheme,
      HostOf(Last(Values(h.xHost))))
  }

  predicate TrustsElement(t: Trusted, e: Forwarded.Element) {
    e.node.Some? && TrustsEntry(t, e.node.value)
  }

  function EntryTrust(t: Trusted): string -> bool {
    entry => TrustsEntry(t, entry)
  }

  function ElementTrust(t: Trusted): Forwarded.Element -> bool {
    e => TrustsElement(t, e)
  }

  function ResolveForwarded(elements: seq<Forwarded.Element>, t: Trusted, r: Resolved): Resolved {
    match Walk(elements, ElementTrust(t))
    case None => r
    case Some(e) =>
      Resolved(
        if e.node.Some? then Some(SplitHostPort(e.node.value)) else r.client,
        if e.proto.Some? then Scheme(e.proto.value) else r.scheme,
        HostOf(e.host))
  }

  /** `peer` is None over a Unix socket, which is always trusted. */
  function Resolve(peer: Option<(string, nat)>, h: Headers, t: Trusted): Resolved {
    var start := Resolved(peer, "http", None);
    if peer.Some? && !t.all && !t.address(peer.value.0) then start
    else
      var r :=
        if h.xFor != [] || h.xProto != [] then ResolveXForwarded(h, t, start)
        else
          var elements := Forwarded.Elements(Texts(h.forwarded));
          if elements == [] then ResolveXForwarded(h, t, start) else ResolveForwarded(elements, t, start);
      if t.host then r else r.(host := None)
  }

  // ---- What the walk finds

  /** The client is the last entry that isn't a trusted proxy: all those after
      it are. Only when every entry is trusted is it the first. */
  lemma {:induction false} WalkIsLastUntrusted<T>(entries: seq<T>, trusts: T -> bool)
    ensures match LastUntrusted(entries, trusts)
      case None => forall i | 0 <= i < |entries| :: trusts(entries[i])
      case Some(found) => exists i ::
        && 0 <= i < |entries| && entries[i] == found && !trusts(found)
        && forall j | i < j < |entries| :: trusts(entries[j])
  {
    if entries != [] && trusts(entries[|entries| - 1]) {
      var before := entries[..|entries| - 1];
      WalkIsLastUntrusted(before, trusts);
      match LastUntrusted(before, trusts) {
        case None =>
        case Some(found) =>
          var i :| 0 <= i < |before| && before[i] == found && forall j | i < j < |before| :: trusts(before[j]);
          assert entries[i] == found && forall j | i < j < |entries| :: trusts(entries[j]);
      }
    }
  }

  /** What comes before an untrusted entry has no say. */
  lemma {:induction false} WalkFromTheRight<T>(mine: seq<T>, theirs: seq<T>, trusts: T -> bool)
    requires exists i :: 0 <= i < |theirs| && !trusts(theirs[i])
    ensures Walk(mine + theirs, trusts) == Walk(theirs, trusts) == LastUntrusted(theirs, trusts)
    ensures LastUntrusted(theirs, trusts).Some?
    ensures LastUntrusted(mine + theirs, trusts) == LastUntrusted(theirs, trusts)
    decreases |theirs|
  {
    var all := mine + theirs;
    assert all[|all| - 1] == theirs[|theirs| - 1];
    if trusts(theirs[|theirs| - 1]) {
      assert all[..|all| - 1] == mine + theirs[..|theirs| - 1];
      var i :| 0 <= i < |theirs| && !trusts(theirs[i]);
      assert theirs[..|theirs| - 1][i] == theirs[i];
      WalkFromTheRight(mine, theirs[..|theirs| - 1], trusts);
    }
  }

  // ---- What the server believes

  /** Headers are for the peer to say, if it is a proxy that is trusted. */
  predicate Believed(peer: Option<(string, nat)>, t: Trusted) {
    peer.None? || t.all || t.address(peer.value.0)
  }

  /** From anyone but a trusted proxy, no header changes anything: the client is
      the peer itself, over plain HTTP. */
  lemma StrangersAreNotBelieved(peer: Option<(string, nat)>, h: Headers, t: Trusted)
    ensures !Believed(peer, t) ==> Resolve(peer, h, t) == Resolved(peer, "http", None)
  {
    hide ResolveXForwarded, ResolveForwarded, Forwarded.Elements;
  }

  /** And only from one can they: exactly a Unix socket or a trusted address is believed. */
  lemma HeadersDecideWhen(peer: Option<(string, nat)>, t: Trusted)
    ensures (exists h, h' :: Resolve(peer, h, t) != Resolve(peer, h', t)) <==> Believed(peer, t)
  {
    hide Resolve;
    if Believed(peer, t) {
      var h, none := Headers([], ["https"], [], []), Headers([], [], [], []);
      SaysHttps(peer, t);
      assert Resolve(peer, h, t) != Resolve(peer, none, t);
    } else {
      forall h, h' ensures Resolve(peer, h, t) == Resolve(peer, h', t) {
        StrangersAreNotBelieved(peer, h, t);
        StrangersAreNotBelieved(peer, h', t);
      }
    }
  }

  lemma SaysHttps(peer: Option<(string, nat)>, t: Trusted)
    requires Believed(peer, t)
    ensures Resolve(peer, Headers([], ["https"], [], []), t).scheme == "https"
    ensures Resolve(peer, Headers([], [], [], []), t).scheme == "http"
  {
    hide Walk, Scheme, Values, Forwarded.Elements;
    HttpsIsRead();
    NothingSaid();
    assert Walk([], EntryTrust(t)) == None by { WalkNothing(EntryTrust(t)); }
  }

  lemma NothingSaid()
    ensures Forwarded.Elements(Texts([])) == [] && Values([]) == []
  {
    assert Texts([]) == [] && Forwarded.AllElements([]) == [];
  }

  lemma WalkNothing<T>(trusts: T -> bool)
    ensures Walk([], trusts) == None
  {}

  lemma HttpsIsRead()
    ensures Values(["https"]) == ["https"] && Scheme("https") == "https"
  {
    hide Values, Scheme, Text.Lower;
    assert PlainValue("https") by { assert Visible("https"); }
    ValuesOfLine(["https"]);
    assert Text.Join(["https"], ',') == "https";
    assert SaysSecure("https");
    SchemeIs("https");
  }

  /** The place of the client in a list of proxies: everything after it is trusted,
      and so is itself only if it is the first. */
  ghost predicate Chosen<T>(entries: seq<T>, trusts: T -> bool, i: int) {
    && 0 <= i < |entries|
    && (forall j | i < j < |entries| :: trusts(entries[j]))
    && (trusts(entries[i]) ==> i == 0)
  }

  lemma WalkIsChosen<T>(entries: seq<T>, trusts: T -> bool)
    ensures match Walk(entries, trusts)
      case None => entries == []
      case Some(found) => exists i :: Chosen(entries, trusts, i) && entries[i] == found
  {
    WalkIsLastUntrusted(entries, trusts);
    match LastUntrusted(entries, trusts)
    case None => if entries != [] { assert Chosen(entries, trusts, 0); }
    case Some(found) =>
      var i :| 0 <= i < |entries| && entries[i] == found && !trusts(found) && forall j | i < j < |entries| :: trusts(entries[j]);
      assert Chosen(entries, trusts, i);
  }

  /** `https`, in either case. */
  predicate SaysSecure(proto: string) {
    |proto| == 5 && proto[0] in "hH" && proto[1] in "tT" && proto[2] in "tT" && proto[3] in "pP" && proto[4] in "sS"
  }

  lemma SchemeIs(proto: string)
    ensures Scheme(proto) == if SaysSecure(proto) then "https" else "http"
  {
    var lower := Text.Lower(proto);
    if |proto| == 5 {
      assert lower[0] == 'h' <==> proto[0] in "hH" by { IsEither(proto[0], 'h', 'H'); }
      assert lower[1] == 't' <==> proto[1] in "tT" by { IsEither(proto[1], 't', 'T'); }
      assert lower[2] == 't' <==> proto[2] in "tT" by { IsEither(proto[2], 't', 'T'); }
      assert lower[3] == 'p' <==> proto[3] in "pP" by { IsEither(proto[3], 'p', 'P'); }
      assert lower[4] == 's' <==> proto[4] in "sS" by { IsEither(proto[4], 's', 'S'); }
      assert lower == [lower[0], lower[1], lower[2], lower[3], lower[4]];
    }
  }

  lemma IsEither(c: char, low: char, up: char)
    requires 'A' <= up <= 'Z' && low == up - 'A' + 'a'
    ensures Text.LowerChar(c) == low <==> c in [low, up]
  {}

  const HOST_CHARS := ".-:[]_"

  /** A host name or address, with an optional port: short, and of these characters only. */
  predicate IsHost(host: string) {
    && 1 <= |host| <= 255
    && forall i | 0 <= i < |host| ::
         host[i] in Text.DIGITS || host[i] in Text.LOWER_LETTERS || host[i] in Text.UPPER_LETTERS || host[i] in HOST_CHARS
  }

  lemma ValidHostIs(host: string)
    ensures ValidHost(host) == if IsHost(host) then Some(Text.Lower(host)) else None
  {
    hide Text.IsAlphanumeric, Text.DIGITS, Text.LOWER_LETTERS, Text.UPPER_LETTERS;
    forall c: char ensures Text.IsAlphanumeric(c) <==> c in Text.DIGITS || c in Text.LOWER_LETTERS || c in Text.UPPER_LETTERS {
      Text.AlphanumericsAre(c);
    }
    assert forall i | 0 <= i < |host| :: HostChar(host[i]) <==>
      host[i] in Text.DIGITS || host[i] in Text.LOWER_LETTERS || host[i] in Text.UPPER_LETTERS || host[i] in HOST_CHARS;
  }

  /** The forwarded host that is believed: one that the app asked for, and that is one. */
  function HostFrom(value: Option<string>, t: Trusted): Option<string> {
    if t.host && value.Some? && IsHost(value.value) then Some(Text.Lower(value.value)) else None
  }

  /** What a trusted proxy's `X-Forwarded` headers say: the client is the last
      address that is no trusted proxy's; the scheme and the host are those of the
      last values. */
  lemma XForwardedIs(peer: Option<(string, nat)>, h: Headers, t: Trusted)
    requires Believed(peer, t)
    requires h.xFor != [] || h.xProto != [] || Forwarded.Elements(Texts(h.forwarded)) == []
    ensures var r := Resolve(peer, h, t);
      var addresses, protos, hosts := Values(h.xFor), Values(h.xProto), Values(h.xHost);
      && (if addresses == [] then r.client == peer
          else exists i :: Chosen(addresses, EntryTrust(t), i) && r.client == Some((addresses[i], 0)))
      && r.scheme == (if protos != [] && SaysSecure(protos[|protos| - 1]) then "https" else "http")
      && r.host == HostFrom(if hosts == [] then None else Some(hosts[|hosts| - 1]), t)
  {
    hide Values, Texts, Forwarded.Elements, Walk, Scheme, ValidHost, IsHost, SaysSecure;
    var protos, hosts := Values(h.xProto), Values(h.xHost);
    WalkIsChosen(Values(h.xFor), EntryTrust(t));
    if protos != [] { SchemeIs(protos[|protos| - 1]); }
    if hosts != [] { ValidHostIs(hosts[|hosts| - 1]); }
  }

  /** What its `Forwarded` header says, where there is no other: the element of the
      last node that is no trusted proxy describes the request. */
  lemma ForwardedIs(peer: Option<(string, nat)>, h: Headers, t: Trusted)
    requires Believed(peer, t) && h.xFor == [] && h.xProto == [] && Forwarded.Elements(Texts(h.forwarded)) != []
    ensures var r := Resolve(peer, h, t);
      var elements := Forwarded.Elements(Texts(h.forwarded));
      exists i :: Chosen(elements, ElementTrust(t), i)
        && r.client == (match elements[i].node case Some(node) => Some(SplitHostPort(node)) case None => peer)
        && r.scheme == (if elements[i].proto.Some? && SaysSecure(elements[i].proto.value) then "https" else "http")
        && r.host == HostFrom(elements[i].host, t)
  {
    hide Values, Texts, Forwarded.Elements, Walk, Scheme, ValidHost, IsHost, SaysSecure, SplitHostPort, ElementTrust;
    var elements := Forwarded.Elements(Texts(h.forwarded));
    WalkIsChosen(elements, ElementTrust(t));
    var i :| Chosen(elements, ElementTrust(t), i) && Walk(elements, ElementTrust(t)) == Some(elements[i]);
    if elements[i].proto.Some? { SchemeIs(elements[i].proto.value); }
    if elements[i].host.Some? { ValidHostIs(elements[i].host.value); }
  }

  /** `Forwarded` is read exactly from a trusted peer that sends neither of the others. */
  lemma ForwardedIsReadWhen(peer: Option<(string, nat)>, h: Headers, t: Trusted)
    ensures (exists f, f' :: Resolve(peer, h.(forwarded := f), t) != Resolve(peer, h.(forwarded := f'), t))
       <==> Believed(peer, t) && h.xFor == [] && h.xProto == []
  {
    hide Resolve, ResolveXForwarded, ResolveForwarded, Forwarded.Elements;
    if !Believed(peer, t) {
      forall f ensures Resolve(peer, h.(forwarded := f), t) == Resolved(peer, "http", None) {
        StrangersAreNotBelieved(peer, h.(forwarded := f), t);
      }
    } else if h.xFor != [] || h.xProto != [] {
      forall f, f' ensures Resolve(peer, h.(forwarded := f), t) == Resolve(peer, h.(forwarded := f'), t) {
        OthersFirst(peer, h, t, f, f');
      }
    } else {
      var f := ForwardedSaysHttps(peer, h, t);
      assert Resolve(peer, h.(forwarded := f), t) != Resolve(peer, h.(forwarded := []), t);
    }
  }

  lemma OthersFirst(peer: Option<(string, nat)>, h: Headers, t: Trusted, f: seq<string>, f': seq<string>)
    requires h.xFor != [] || h.xProto != []
    ensures Resolve(peer, h.(forwarded := f), t) == Resolve(peer, h.(forwarded := f'), t)
  {
    hide Values, Forwarded.Elements, Texts, Walk, ResolveForwarded;
  }

  lemma ForwardedSaysHttps(peer: Option<(string, nat)>, h: Headers, t: Trusted) returns (f: seq<string>)
    requires Believed(peer, t) && h.xFor == [] && h.xProto == []
    ensures Resolve(peer, h.(forwarded := f), t).scheme == "https"
    ensures Resolve(peer, h.(forwarded := []), t).scheme == "http"
  {
    hide Resolve, Values, Forwarded.Elements, Texts, SaysSecure, IsHost, Forwarded.Print, HostFrom, SplitHostPort;
    var e := Forwarded.Element(None, Some("https"), None);
    f := [Forwarded.Print([e])];
    assert VisibleElement(e) by { assert Visible("https"); }
    PrintedIsRead([e]);
    ForwardedIs(peer, h.(forwarded := f), t);
    assert SaysSecure("https") by { HttpsIsRead(); SchemeIs("https"); }
    NothingSaid();
    XForwardedIs(peer, h.(forwarded := []), t);
  }

  // ---- What the values of a header are

  /** A value as a header can hold it: visible, trimmed, without a comma. */
  predicate PlainValue(v: string) {
    Visible(v) && Forwarded.Tidy(v) && ',' !in v
  }

  /** Each of the values listed in a line is read, in order. */
  lemma ValuesOfLine(values: seq<string>)
    requires values != [] && forall v | v in values :: PlainValue(v)
    ensures Values([Text.Join(values, ',')]) == values
  {
    hide Visible, Forwarded.Tidy, Forwarded.Kept, Text.SplitAll;
    assert forall i | 0 <= i < |values| :: PlainValue(values[i]);
    CommaIsVisible();
    VisibleJoined(values, ',');
    Text.SplitJoin(values, ',');
    Forwarded.TidyKept(values);
    OnlyLine(Text.Join(values, ','));
  }

  lemma CommaIsVisible()
    ensures Visible([','])
  {}

  /** And those of the lines one after another. */
  lemma {:induction false} ValuesOfLines(a: seq<string>, b: seq<string>)
    ensures Values(a + b) == Values(a) + Values(b)
    decreases |b|
  {
    hide Visible, Forwarded.Kept;
    if b == [] {
      assert a + b == a;
    } else {
      assert (a + b)[..|a + b| - 1] == a + b[..|b| - 1] && (a + b)[|a + b| - 1] == b[|b| - 1];
      ValuesOfLines(a, b[..|b| - 1]);
    }
  }

  // ---- What an address with a port is

  /** A name or IPv4 address, with a port or without; an IPv6 address, bare or in
      brackets, with a port or without. A port that is no 16-bit number is 0. */
  lemma AddressIsRead(host: string, port: nat)
    ensures ':' !in host && (host == "" || host[0] != '[') ==>
      SplitHostPort(host) == (host, 0) && SplitHostPort(host + [':'] + Text.Decimal(port)) == (host, if port < 0x1_0000 then port else 0)
    ensures ']' !in host ==>
      && SplitHostPort("[" + host + "]") == (host, 0)
      && SplitHostPort("[" + host + "]:" + Text.Decimal(port)) == (host, if port < 0x1_0000 then port else 0)
  {
    hide Port, Text.SplitOnce;
    var digits := Text.Decimal(port);
    assert Port(digits) == (if port < 0x1_0000 then port else 0) && ':' !in digits by { PortIs(port); }
    if ':' !in host && (host == "" || host[0] != '[') {
      Text.SplitOnceAt(host, ':', digits);
      assert Text.SplitOnce(host, ':').None?;
    }
    if ']' !in host {
      BracketedIs(host, "");
      BracketedIs(host, ":" + digits);
      assert "[" + host + "]" + "" == "[" + host + "]";
      assert "[" + host + "]" + (":" + digits) == "[" + host + "]:" + digits;
      assert (":" + digits)[1..] == digits;
    }
  }

  lemma BracketedIs(host: string, after: string)
    requires ']' !in host
    ensures SplitHostPort("[" + host + "]" + after) == (host, if after != "" && after[0] == ':' then Port(after[1..]) else 0)
  {
    hide Port, Text.SplitOnce;
    var entry := "[" + host + "]" + after;
    assert entry[0] == '[' && entry[1..] == host + [']'] + after;
    Text.SplitOnceAt(host, ']', after);
  }

  /** A text with several colons and no brackets is an IPv6 address, whole. */
  lemma BareAddressIsRead(a: string, b: string, c: string)
    requires ':' !in a && (a == "" || a[0] != '[') && ':' !in b
    ensures var entry := a + [':'] + (b + [':'] + c); SplitHostPort(entry) == (entry, 0)
  {
    Text.SplitOnceAt(a, ':', b + [':'] + c);
    assert (b + [':'] + c)[|b|] == ':';
  }

  lemma PortIs(port: nat)
    ensures Port(Text.Decimal(port)) == (if port < 0x1_0000 then port else 0) && ':' !in Text.Decimal(port)
    ensures Port("+" + Text.Decimal(port)) == Port(Text.Decimal(port))
    ensures forall s | s != "" && !Text.IsDigit(s[0]) && s[0] != '+' :: Port(s) == 0
  {
    assert ("+" + Text.Decimal(port))[1..] == Text.Decimal(port);
    Text.NumberOfDecimal(port);
    assert Text.IsDigit(Text.Decimal(port)[0]);
  }

  /** A proxy is trusted by its address, whatever its port and however it is
      written; an element that names no node is no trusted proxy. */
  lemma TrustIs(t: Trusted, host: string, port: nat)
    ensures ':' !in host && (host == "" || host[0] != '[') ==>
      && (EntryTrust(t)(host) <==> t.all || t.address(host))
      && (EntryTrust(t)(host + [':'] + Text.Decimal(port)) <==> t.all || t.address(host))
    ensures ']' !in host ==>
      && (EntryTrust(t)("[" + host + "]") <==> t.all || t.address(host))
      && (EntryTrust(t)("[" + host + "]:" + Text.Decimal(port)) <==> t.all || t.address(host))
    ensures forall e: Forwarded.Element ::
      ElementTrust(t)(e) <==> match e.node case None => false case Some(node) => EntryTrust(t)(node)
  {
    hide SplitHostPort;
    AddressIsRead(host, port);
  }

  /** A byte that a header can be read with: printable ASCII, or a tab. */
  lemma VisibleCharIs(c: char)
    ensures VisibleChar(c) <==> 32 <= c as int <= 126 || c as int == 9
  {}

  // ---- A client cannot pretend

  lemma VisibleConcat(a: string, b: string)
    ensures Visible(a + b) <==> Visible(a) && Visible(b)
  {
    assert forall i | 0 <= i < |a| :: (a + b)[i] == a[i];
    assert forall i | 0 <= i < |b| :: (a + b)[|a| + i] == b[i];
    if Visible(a + b) {
      assert Visible(a) && Visible(b);
    }
  }

  /** A line that a proxy appended to is read if both parts of it can be. */
  lemma VisibleAppend(c: string, p: string)
    ensures Visible(c + ", " + p) <==> Visible(c) && Visible(p)
  {
    VisibleConcat(c, ", ");
    VisibleConcat(c + ", ", p);
  }

  lemma LastLine(lines: seq<string>, line: string)
    ensures Values(lines + [line])
         == Values(lines) + (if Visible(line) then Forwarded.Kept(Text.SplitAll(line, ',')) else [])
    ensures Texts(lines + [line]) == Texts(lines) + (if Visible(line) then [line] else [])
  {
    assert (lines + [line])[..|lines|] == lines;
  }

  lemma OnlyLine(line: string)
    ensures Values([line]) == if Visible(line) then Forwarded.Kept(Text.SplitAll(line, ',')) else []
    ensures Texts([line]) == if Visible(line) then [line] else []
  {
    LastLine([], line);
    assert [] + [line] == [line] && Values([]) == [] && Texts([]) == [];
  }

  /** The values of a header whose last line a proxy appended to. */
  lemma AppendedValues(lines: seq<string>, c: string, p: string)
    requires Visible(p)
    ensures Values(lines + [c + ", " + p])
         == if Visible(c) then Values(lines) + Forwarded.Kept(Text.SplitAll(c, ',')) + Values([p]) else Values(lines)
  {
    hide Visible, Values;
    var line := c + ", " + p;
    VisibleAppend(c, p);
    LastLine(lines, line);
    OnlyLine(p);
    if Visible(c) { AppendedKept(c, p); }
  }

  lemma AppendedKept(c: string, p: string)
    ensures Forwarded.Kept(Text.SplitAll(c + ", " + p, ','))
         == Forwarded.Kept(Text.SplitAll(c, ',')) + Forwarded.Kept(Text.SplitAll(p, ','))
  {
    hide Forwarded.Kept, Text.SplitAll;
    assert c + ", " + p == c + [','] + (" " + p);
    SplitAppend(c, " " + p);
    Forwarded.KeptConcat(Text.SplitAll(c, ','), Text.SplitAll(" " + p, ','));
    KeptSpace(p);
  }

  /** `X-Forwarded-For`, whatever lines and text `c` the client sent, with what
      the proxies `p` appended, among which one saw an address that is no proxy.
      If `c` can be read, the answer is the one `p` alone gives. If not, the line
      is dropped, with all that `p` says: the answer is that of the client's
      lines, the last one empty. */
  lemma ClientCannotChooseFor(
      peer: Option<(string, nat)>, h: Headers, t: Trusted, lines: seq<string>, c: string, p: string)
    requires Visible(p) && exists i :: 0 <= i < |Values([p])| && !TrustsEntry(t, Values([p])[i])
    ensures Resolve(peer, h.(xFor := lines + [c + ", " + p]), t)
         == Resolve(peer, h.(xFor := if Visible(c) then [p] else lines + [""]), t)
  {
    hide Values, Visible, Walk;
    var mine := Values([p]);
    AppendedValues(lines, c, p);
    if Visible(c) {
      var i :| 0 <= i < |mine| && !TrustsEntry(t, mine[i]);
      assert !EntryTrust(t)(mine[i]);
      WalkFromTheRight(Values(lines) + Forwarded.Kept(Text.SplitAll(c, ',')), mine, EntryTrust(t));
      SameFor(peer, h, t, lines + [c + ", " + p], [p]);
    } else {
      EmptyLine(lines);
      SameFor(peer, h, t, lines + [c + ", " + p], lines + [""]);
    }
  }

  lemma EmptyLine(lines: seq<string>)
    ensures Values(lines + [""]) == Values(lines)
  {
    LastLine(lines, "");
    assert Text.SplitAll("", ',') == [""] && Forwarded.Kept([""]) == [];
  }

  lemma SameFor(peer: Option<(string, nat)>, h: Headers, t: Trusted, f: seq<string>, g: seq<string>)
    requires f != [] && g != [] && Walk(Values(f), EntryTrust(t)) == Walk(Values(g), EntryTrust(t))
    ensures Resolve(peer, h.(xFor := f), t) == Resolve(peer, h.(xFor := g), t)
  {
    hide Values, Walk, ResolveForwarded;
  }

  /** `X-Forwarded-Proto` and `-Host`: the last value is the nearest proxy's, or,
      if the text before it can't be read, the last of the client's other lines. */
  lemma LastValueIsTheProxys(lines: seq<string>, c: string, p: string)
    requires Visible(p) && Values([p]) != []
    ensures Last(Values(lines + [c + ", " + p])) == Last(if Visible(c) then Values([p]) else Values(lines))
  {
    hide Visible, Values;
    AppendedValues(lines, c, p);
  }

  /** So behind a proxy that appends to a line it doesn't check, a client can be
      whoever it says in a line before one that can't be read. */
  lemma UnreadableLineLetsClientChoose(
      peer: Option<(string, nat)>, h: Headers, t: Trusted, mine: string, c: string, p: string)
    requires peer.Some? ==> t.all || t.address(peer.value.0)
    requires Visible(p) && !Visible(c) && Values([mine]) == [mine]
    ensures Resolve(peer, h.(xFor := [mine, c + ", " + p]), t).client == Some((mine, 0))
  {
    hide Visible, Values, ResolveForwarded;
    assert [mine, c + ", " + p] == [mine] + [c + ", " + p];
    AppendedValues([mine], c, p);
    assert [mine][..0] == [] && Walk([mine], EntryTrust(t)) == Some(mine) by {
      assert LastUntrusted([mine][..0], EntryTrust(t)) == None;
    }
  }

  /** Such as this one, whatever the proxy saw. */
  lemma UnreadableLineIsDropped(peer: Option<(string, nat)>, h: Headers, t: Trusted, p: string)
    requires (peer.Some? ==> t.all || t.address(peer.value.0)) && Visible(p)
    ensures Resolve(peer, h.(xFor := ["6.6.6.6", "\U{FF}" + ", " + p]), t).client == Some(("6.6.6.6", 0))
  {
    hide Forwarded.Kept, Resolve;
    assert !Visible("\U{FF}") by { assert !VisibleChar("\U{FF}"[0]); }
    assert Values(["6.6.6.6"]) == ["6.6.6.6"] by {
      OnlyLine("6.6.6.6");
      assert Text.SplitAll("6.6.6.6", ',') == ["6.6.6.6"] by { assert Text.SplitOnce("6.6.6.6", ',').None?; }
      Forwarded.TidyKept(["6.6.6.6"]);
    }
    UnreadableLineLetsClientChoose(peer, h, t, "6.6.6.6", "\U{FF}", p);
  }

  lemma {:induction false} SplitAppend(a: string, b: string)
    ensures Text.SplitAll(a + [','] + b, ',') == Text.SplitAll(a, ',') + Text.SplitAll(b, ',')
    decreases |a|
  {
    match Text.SplitOnce(a, ',')
    case None => Text.SplitOnceAt(a, ',', b);
    case Some((before, after)) =>
      assert a + [','] + b == before + [','] + (after + [','] + b);
      Text.SplitOnceAt(before, ',', after + [','] + b);
      SplitAppend(after, b);
  }

  lemma KeptSpace(p: string)
    ensures Forwarded.Kept(Text.SplitAll(" " + p, ',')) == Forwarded.Kept(Text.SplitAll(p, ','))
  {
    match Text.SplitOnce(p, ',')
    case None =>
      assert Text.SplitOnce(" " + p, ',').None?;
    case Some((before, after)) =>
      assert " " + p == (" " + before) + [','] + after;
      Text.SplitOnceAt(" " + before, ',', after);
      assert Text.SplitAll(" " + p, ',')[1..] == Text.SplitAll(after, ',') == Text.SplitAll(p, ',')[1..];
  }

  /** `Forwarded`, the main result. Whatever lines and text `c` the client
      sent, with what the proxies `p` appended (text, balanced, without
      backslashes, one of them naming an address that is no proxy): if `c` can be
      read, either the answer is the one `p` alone gives, or the client's text was
      unbalanced and the header is ignored. If not, the line is dropped with all
      that `p` says, and the answer is that of the client's other lines. */
  lemma ClientCannotChoose(
      peer: Option<(string, nat)>, h: Headers, t: Trusted, lines: seq<string>, c: string, p: string)
    requires h.xFor == [] && h.xProto == []
    requires Visible(p) && Forwarded.Balanced(p) && '\\' !in p
    requires exists e :: e in Forwarded.LineElements(p) && !TrustsElement(t, e)
    ensures Resolve(peer, h.(forwarded := lines + [c + ", " + p]), t)
         == Resolve(peer, h.(forwarded :=
              if !Visible(c) then lines
              else if Forwarded.AllBalanced(Texts(lines)) && Forwarded.Balanced(c) then [p]
              else []), t)
  {
    hide Forwarded.LineElements, Forwarded.Balanced, Resolve, TrustsElement, Visible, Texts, Forwarded.Elements;
    var f := lines + [c + ", " + p];
    VisibleAppend(c, p);
    LastLine(lines, c + ", " + p);
    OnlyLine(p);
    AppendedElements(Texts(lines), c, p);
    if !Visible(c) {
      SameTexts(peer, h, t, f, lines);
    } else if Forwarded.AllBalanced(Texts(lines)) && Forwarded.Balanced(c) {
      Forwarded.OneLine(p);
      LastWalk(t, Forwarded.AllElements(Texts(lines)) + Forwarded.LineElements(c), Forwarded.LineElements(p));
      SameWalk(peer, h, t, f, [p]);
    } else {
      NoElements(peer, h, t, f);
    }
  }

  lemma LastWalk(t: Trusted, before: seq<Forwarded.Element>, theirs: seq<Forwarded.Element>)
    requires exists e :: e in theirs && !TrustsElement(t, e)
    ensures Walk(before + theirs, ElementTrust(t)) == Walk(theirs, ElementTrust(t))
  {
    var e :| e in theirs && !TrustsElement(t, e);
    var i :| 0 <= i < |theirs| && theirs[i] == e;
    assert !ElementTrust(t)(theirs[i]);
    WalkFromTheRight(before, theirs, ElementTrust(t));
  }

  lemma SameTexts(peer: Option<(string, nat)>, h: Headers, t: Trusted, f: seq<string>, g: seq<string>)
    requires Texts(f) == Texts(g)
    ensures Resolve(peer, h.(forwarded := f), t) == Resolve(peer, h.(forwarded := g), t)
  {
    hide Walk, ResolveForwarded, Values, Forwarded.Elements, Texts;
  }

  /** The elements of a header whose last line a proxy appended to. */
  lemma AppendedElements(texts: seq<string>, c: string, p: string)
    requires Forwarded.Balanced(p) && '\\' !in p
    ensures Forwarded.Elements(texts + [c + ", " + p])
         == if Forwarded.AllBalanced(texts) && Forwarded.Balanced(c)
            then Forwarded.AllElements(texts) + Forwarded.LineElements(c) + Forwarded.LineElements(p)
            else []
  {
    hide Forwarded.LineElements, Forwarded.Balanced;
    var line := c + ", " + p;
    var all := texts + [line];
    assert all[|all| - 1] == line && all[..|all| - 1] == texts;
    if !Forwarded.Balanced(c) {
      Forwarded.OpenQuoteIsIgnored(texts, c, p);
    } else {
      Forwarded.AppendLaw(c, p);
      assert Forwarded.AllBalanced(all) <==> Forwarded.AllBalanced(texts) by {
        assert forall i | 0 <= i < |texts| :: all[i] == texts[i];
      }
    }
  }

  lemma SameWalk(peer: Option<(string, nat)>, h: Headers, t: Trusted, f: seq<string>, g: seq<string>)
    requires h.xFor == [] && h.xProto == []
    requires Forwarded.Elements(Texts(f)) != [] && Forwarded.Elements(Texts(g)) != []
    requires Walk(Forwarded.Elements(Texts(f)), ElementTrust(t)) == Walk(Forwarded.Elements(Texts(g)), ElementTrust(t))
    ensures Resolve(peer, h.(forwarded := f), t) == Resolve(peer, h.(forwarded := g), t)
  {
    hide Walk, Forwarded.Elements, Texts;
  }

  lemma NoElements(peer: Option<(string, nat)>, h: Headers, t: Trusted, f: seq<string>)
    requires Forwarded.Elements(Texts(f)) == []
    ensures Resolve(peer, h.(forwarded := f), t) == Resolve(peer, h.(forwarded := []), t)
  {
    hide Walk, ResolveForwarded, Values;
  }

  // ---- What a header can say

  predicate VisibleOption(v: Option<string>) {
    v.Some? ==> Visible(v.value)
  }

  predicate VisibleElement(e: Forwarded.Element) {
    VisibleOption(e.node) && VisibleOption(e.proto) && VisibleOption(e.host)
  }

  lemma {:induction false} VisibleEscape(v: string)
    ensures Visible(Forwarded.Escape(v)) <==> Visible(v)
  {
    hide Visible;
    if v != "" {
      VisibleEscape(v[1..]);
      VisibleConcat(Forwarded.EscapeOne(v[0]), Forwarded.Escape(v[1..]));
      VisibleConcat([v[0]], v[1..]);
      assert v == [v[0]] + v[1..];
      assert Visible(Forwarded.EscapeOne(v[0])) <==> Visible([v[0]]) by { VisibleOne(v[0]); }
    } else {
      assert Forwarded.Escape(v) == v;
    }
  }

  lemma VisibleOne(c: char)
    ensures Visible(Forwarded.EscapeOne(c)) <==> Visible([c])
  {
    assert VisibleChar('\\') && VisibleChar('"');
    if Visible([c]) { assert VisibleChar([c][0]); }
  }

  lemma PairVisible(name: string, v: Option<string>)
    requires Visible(name) && v.Some?
    ensures Visible(Forwarded.PrintPair(name, v.value)) <==> VisibleOption(v)
  {
    hide Visible;
    var q := "\"" + Forwarded.Escape(v.value);
    Marks();
    VisibleEscape(v.value);
    VisibleConcat("\"", Forwarded.Escape(v.value));
    VisibleConcat(q, "\"");
    VisibleConcat(name, "=");
    VisibleConcat(name + "=", Forwarded.Quote(v.value));
  }

  lemma Marks()
    ensures Visible("\"") && Visible("=") && Visible(";") && Visible(", ")
    ensures Visible("for") && Visible("proto") && Visible("host") && Visible("")
  {}

  lemma VisibleBoth(a: seq<string>, b: seq<string>)
    ensures (forall s | s in a + b :: Visible(s)) <==> (forall s | s in a :: Visible(s)) && (forall s | s in b :: Visible(s))
  {
    hide Visible;
    assert forall s | s in a :: s in a + b;
    assert forall s | s in b :: s in a + b;
  }

  lemma {:induction false} VisibleJoined(parts: seq<string>, c: char)
    requires Visible([c])
    ensures Visible(Text.Join(parts, c)) <==> forall s | s in parts :: Visible(s)
  {
    hide Visible;
    Marks();
    if |parts| == 1 {
      assert forall s :: s in parts <==> s == parts[0];
    } else if |parts| > 1 {
      var rest := Text.Join(parts[1..], c);
      VisibleJoined(parts[1..], c);
      VisibleConcat(parts[0], [c]);
      VisibleConcat(parts[0] + [c], rest);
      assert parts == [parts[0]] + parts[1..];
    }
  }

  lemma PairsVisible(e: Forwarded.Element)
    ensures (forall s | s in Forwarded.PrintPairs(e) :: Visible(s)) <==> VisibleElement(e)
  {
    hide Visible, Forwarded.PrintPair;
    Marks();
    if e.node.Some? { PairVisible("for", e.node); }
    if e.proto.Some? { PairVisible("proto", e.proto); }
    if e.host.Some? { PairVisible("host", e.host); }
    var a, b, c := Forwarded.PrintOption("for", e.node), Forwarded.PrintOption("proto", e.proto), Forwarded.PrintOption("host", e.host);
    VisibleBoth(a, b);
    VisibleBoth(a + b, c);
  }

  lemma {:induction false} PrintVisible(elements: seq<Forwarded.Element>)
    ensures Visible(Forwarded.Print(elements)) <==> forall e | e in elements :: VisibleElement(e)
  {
    hide Visible, Forwarded.PrintElement, VisibleElement;
    Marks();
    if elements != [] {
      var before, last := elements[..|elements| - 1], elements[|elements| - 1];
      assert elements == before + [last];
      PrintVisible(before);
      assert Visible(Forwarded.PrintElement(last)) <==> VisibleElement(last) by { ElementVisible(last); }
      VisibleConcat(Forwarded.Print(before), ", ");
      VisibleConcat(Forwarded.Print(before) + ", ", Forwarded.PrintElement(last));
    }
  }

  lemma ElementVisible(e: Forwarded.Element)
    ensures Visible(Forwarded.PrintElement(e)) <==> VisibleElement(e)
  {
    hide Visible, VisibleElement, Forwarded.PrintPairs;
    Marks();
    VisibleJoined(Forwarded.PrintPairs(e), ';');
    PairsVisible(e);
  }

  /** Elements printed in one line of a header are read back as they were exactly
      when their values are text; otherwise the line is dropped. */
  lemma PrintedIsRead(elements: seq<Forwarded.Element>)
    requires elements != [] && Forwarded.EMPTY !in elements
    ensures Forwarded.Elements(Texts([Forwarded.Print(elements)]))
         == if forall e | e in elements :: VisibleElement(e) then elements else []
  {
    hide Visible, VisibleElement, Forwarded.Print, Texts;
    var line := Forwarded.Print(elements);
    PrintVisible(elements);
    OnlyLine(line);
    Forwarded.PrintParse(elements);
    assert Forwarded.Elements([]) == [];
  }

  /** A host that is believed is one the app asked for, in lower case and made
      of name characters only. */
  lemma HostIsClean(peer: Option<(string, nat)>, h: Headers, t: Trusted)
    requires Resolve(peer, h, t).host.Some?
    ensures t.host
    ensures Clean(Resolve(peer, h, t).host.value)
  {
    hide Walk, Values, Last, ValidHost, Clean, Forwarded.Elements;
    forall host: string | ValidHost(host).Some?
      ensures Clean(ValidHost(host).value)
    {
      ValidHostIsClean(host);
    }
  }

  /** In lower case, and nothing but a name or address with a port. */
  ghost predicate Clean(host: string) {
    0 < |host| <= 255 && Text.AllIn(host, HostChar) && Text.Lower(host) == host
  }

  lemma ValidHostIsClean(host: string)
    requires ValidHost(host).Some?
    ensures Clean(ValidHost(host).value)
  {}
}
