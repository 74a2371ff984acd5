# Korvex, modelled and verified

A Dafny model of the parts of Korvex where a mistake would be hard to see, and
proofs of what those parts promise. `dafny verify dfyconfig.toml` checks it all.

- **Routing.** `Path`, `RouteTree` and `RouteNode` are the radix-tree router:
  patterns, the tree as a value, and the same tree updated in place. `RouteTreeMap`,
  `RouteTreeFind`, `RouteTreePriority`, `RouteTreeMethods`, `RouteTreeOrder`,
  `RouteTreeRebuild`, `RouteTreeEdges`, `RouteText` and `RoutePrinted` prove what insert, remove, lookup and listing do,
  and how they fit together. `Router` adds the lookup cache, `UrlPattern` and
  `UrlFor` reverse URLs, `Links` the keys that make them lead back, `UrlIndex` the
  index of names. A custom regex is a predicate `rx(pattern, value)` about which
  nothing is assumed; hash maps are listed in any order.
- **Threads.** `Backlog`, with `BacklogExits`, `WakeUp` and `StopAll` are transition systems: every
  atomic operation of the source is a step, and runs are arbitrary interleavings
  of steps, sequentially consistent.
- **Dependencies.** `Planner` works out what a handler needs; `DependencyRun`
  makes the values and tears them down. What functions and generators do is an
  arbitrary `World`, which may answer differently at every call.
- **Rate limits.** `RateLimit` has the memory store and the Redis script, on real
  numbers and a clock that never goes back.
- **Proxies.** `Forwarded` parses the header of RFC 7239 (section 4);
  `TrustedProxy` decides whose word is taken.
- **Forms.** `Multipart` writes and reads `multipart/form-data` (section 4.1 of
  RFC 7578, section 5.1.1 of RFC 2046); `MultipartRoundTrip` relates the two.

`Text` and `Wrappers` hold what the modules share.

Code that updates things in place is a class or a method with loops, proved
against functions; what the source promises is then proved about the functions.

## What turned out not to hold

The code is kept as it is; the conditions are exact.

- Removing a pattern with a segment after its wildcard takes out the route of the
  shorter pattern (`RouteTreeEdges.RemoveTakesAnother`); `RouteTreeEdges.RemoveIsExactWhen`
  says exactly when a removal keeps to its own entry.
- A rejected insert is invisible to lookups and listings, but a parameter name it
  left behind can make a later insert fail (`RouteTreeEdges.LeftoverNameConflicts`,
  `RouteTreeEdges.RejectedInsertBlocks`).
- The backlog can exceed HIGH_WATER by two chunks, not one (`Backlog.BoundIsReached`).
- The drop of a streamed body wakes Python before its channel closes, so Python can
  be left waiting (`BacklogExits.WakeFirstCanStick`, `BacklogExits.WakeFirstSticksWhen`).
  The WebSocket relay closes first, and never does; a WebSocket whose upgrade fails
  (src/websocket.rs:220-224) wakes nobody (`BacklogExits.FailedUpgradeCanStick`,
  `BacklogExits.FailedUpgradeSticksWhen`).
- A second signal while a handler holds the lock of the loops, or the one inside
  `stopping.set()`, makes the main thread wait for itself for ever
  (`StopAll.SecondSignalCanLock`, `StopAll.SelfLockedWhen`, `StopAll.SelfLockedForEver`).
- The order of registration matters as soon as two constraints fit one value
  (`RouteTreeOrder.OrderMatters`), and only then (`RouteTreeOrder.OrderIsIrrelevant`).
- A literal segment with braces or a star inside can ask for a value that no
  parameter of the pattern has (`UrlPattern.LiteralsAreSearched`);
  `UrlPattern.OwnNamesExpectedWhen` says exactly which patterns don't.
- A header line with a byte that is no visible ASCII is dropped whole, with what a
  proxy appended to it, and the client's other lines decide
  (`TrustedProxy.UnreadableLineIsDropped`, `TrustedProxy.UnreadableLineLetsClientChoose`).
  `TrustedProxy.ClientCannotChooseFor`, `TrustedProxy.LastValueIsTheProxys` and
  `TrustedProxy.ClientCannotChoose` say what is answered in each case.
- Whether a route is accepted can depend on the routes declared before it, when its
  handler is also a dependency of one of its own dependencies (`Planner.MemoDecides`;
  `Planner.PlanRoute` has the exact condition).
- A name with a quote (`MultipartRoundTrip.QuoteChanges`), a line break or two
  backslashes together, a file name in angle brackets or with a space at an end,
  and a file's name that ends in a backslash are not read as they were given
  (`MultipartRoundTrip.EntryIsRead`).
- The comment on `forwarded` (src/proxy.rs:221-225) says that a line with a quote
  left open is ignored. An element with an escaped quote closes it instead
  (`Forwarded.EscapedQuoteIsSwallowed`); `Forwarded.AppendAfterOpenQuote` says exactly when.

## Model

| member | source | states |
|---|---|---|
| `Path.NextSegment` | src/path.rs:36-46 | A path yields no segment exactly when nothing but slashes is left; a segment it yields is never empty and never holds a slash, and what is left is shorter. |
| `Path.Next` | src/path.rs:36-46 | `Segments::next`, the loop that skips empty parts, yields what the specification yields and leaves the same rest. |
| `Path.SegmentsOfSlashed` | src/path.rs:20-47 | Split after join: non-empty, slash-free segments printed after a slash each (or `/` alone for none) split back into themselves, so a listed pattern can be registered again. |
| `Path.IntIsNotUuid` | src/path.rs:75-82 | No text fits both `int` and `uuid`. |
| `Path.IntsAre` | src/path.rs:75-82 | The texts that fit `int` are exactly those that write an integer of 64 bits: a sign or none, zeros, and its digits. |
| `Path.UuidsAre` | src/path.rs:75-82 | The texts that fit `uuid` are exactly five groups of 8, 4, 4, 4 and 12 hexadecimal digits, of either case, with dashes between. |
| `Path.ParamTakes` | src/path.rs:62-82 | A constrained parameter, from its text: `str` takes anything, `int` and `uuid` what the two rows above say, another name what the regex defined under it matches, and a name that nobody defined is refused. |
| `Path.Define` | src/path.rs:118-147 | A constraint is accepted exactly when it is already there with the same regex, or its name is a new, valid, non-built-in one, its regex compiles and there is room; an accepted list only grows, keeps its positions and holds the definition; a refused one says why. |
| `Path.ParseGivesParsed` | src/path.rs:200-220 | Whatever a pattern's segment parses to is well-formed: no slash in its names, a constraint that is defined, no literal that would read as something else. |
| `Path.ParseAfterFormat` | src/path.rs:85-94 | Parse after format: every well-formed segment, custom constraints included, is read back from its printed form. |
| `Path.FormatIsSegment` | src/path.rs:85-94 | A printed segment is non-empty and slash-free, so printing never changes where a pattern splits. |
| `Path.ConstraintNameIsDefined` | src/tree.rs:366-373 | `constraint_name`, which trims braces and cuts at the first colon, names the custom constraint the segment was parsed with. |
| `RouteTreeMap.InsertKeepsValid` | src/tree.rs:164-226 | Any insert, accepted or not, keeps the node invariant: one route per method, one parameter per constraint, the unconstrained one last, a regex kept exactly for custom constraints. |
| `RouteTreeMap.RemoveKeepsValid` | src/tree.rs:247-276 | Any removal keeps the same invariant. |
| `RouteTreeMap.InsertRoute` | src/tree.rs:164-226 | Insert refines the update of a finite map from (pattern, method) to route: an accepted one sets its own entry and no other, a rejected one, at whatever depth it fails, touches none. |
| `RouteTreeMap.RemoveRoute` | src/tree.rs:247-276 | Remove takes out the entry of its pattern, cut after the first wildcard, and no other, and answers whether that entry was there. |
| `RouteTreeMap.MethodInsertRoute` | src/tree.rs:60-65 | `Methods::insert` sets the route of its own method only, and keeps methods distinct. |
| `RouteTreeMap.MethodRemoveRoute` | src/tree.rs:67-71 | `Methods::remove` drops its own method only, and gets shorter exactly when the method was there. |
| `RouteTreeFind.FindIsFirst` | src/tree.rs:289-332 | Backtracking lookup equals a left-to-right scan of the tree's listing, for every order in which the hash maps may be listed. |
| `RouteTreeFind.FindAnswers` | src/tree.rs:289-362 | A match is the first listed entry that matches the path and has the method, with exactly that pattern's captures; a 405 carries the methods of the first matching pattern that has any, and then no entry that matches has the method; else nothing that matches has any method. |
| `RouteTreePriority.MatchIs` | src/tree.rs:289-333 | A pattern matches a path exactly when they have as many segments, each fitting, or when it ends in a wildcard with at least one segment left for it. |
| `RouteTreePriority.CapturesAre` | src/tree.rs:309-330 | It captures each parameter's segment, in order, and for a wildcard all that is left of the path. |
| `RouteTreePriority.FindPrefers` | src/tree.rs:289-333 | A match is the route of a pattern in the tree that matches, with its captures, and no pattern that matches with a route for the method goes before it: at the first segment where two differ, a literal before a constrained parameter, before an unconstrained one, before a wildcard. |
| `RouteTreePriority.FindComplete` | src/tree.rs:289-333 | If any pattern matches with a route for the method, something is found. |
| `RouteTreePriority.FindRefuses` | src/tree.rs:289-333 | A refusal carries the methods of a pattern that matches, and none that matches, for any method, goes before it. |
| `RouteTreeMethods.InsertSameFound` | src/tree.rs:164-226 | An insert under one method, accepted or rejected, changes which route is found under no other. |
| `RouteTreeMethods.RemoveSameFound` | src/tree.rs:247-287 | Nor does a removal. |
| `RouteTreeFind.ListingIsExact` | src/tree.rs:342-363 | A listing holds each pattern of the tree with its routes, and nothing else. |
| `RouteTreeOrder.RejectedFind` | src/tree.rs:164-226 | A rejected insert, at any depth, changes the answer to no lookup. |
| `RouteTreeOrder.ClashAfterInsert` | src/tree.rs:182-185 | After an accepted insert, what is refused for a taken parameter name is exactly what was refused before, plus what names a place of the new pattern differently. |
| `RouteTreeOrder.InsertErrorIs` | src/tree.rs:164-226 | An insert is refused for a wildcard that isn't last, or for a segment whose place already has another name, and the error gives both names. |
| `RouteTreeOrder.BuildAccepts` | src/tree.rs:164-226 | A list of registrations is accepted, in the order given, exactly when no two patterns name one place differently and every wildcard is last. |
| `RouteTreeOrder.BuildRoute` | src/tree.rs:164-226 | With distinct (pattern, method) keys, the routes of the tree are exactly those registered. |
| `RouteTreeOrder.OrderIsIrrelevant` | src/tree.rs:164-226 | With any constraints, custom ones included, of which no two fit one value, any permutation of distinct registrations is accepted exactly when the list is, and then every path and method gets the same answer, up to the order of the allowed methods. |
| `RouteTreeOrder.OrderMatters` | src/tree.rs:187-205 | If two constraints fit one value, there are two routes that answer it differently in their two orders: the one registered first answers. |
| `RouteTreeOrder.BuiltInDisjoint` | src/path.rs:75-82 | No value fits two of the built-in constraints, so with those alone the order never matters. |
| `RouteTreeRebuild.ListingRebuilds` | src/tree.rs:342-363 | Any listing of a valid tree is accepted whole by a fresh tree with the same constraints, which then gives every lookup the same answer, captures and allowed methods included. |
| `RoutePrinted.PrintedRebuilds` | src/tree.rs:336-373 | The whole round trip: the listing as it is printed, each line split, parsed and inserted into a fresh tree with the same constraints, is accepted and gives every lookup the same answer. |
| `RouteTreeEdges.RemoveIsExactWhen` | src/tree.rs:271-274 | Removing a pattern leaves every other entry alone if and only if its wildcard, if any, is last, or nothing is registered for the pattern cut after it. |
| `RouteTreeEdges.RemoveTakesAnother` | src/tree.rs:271-274 | The failing case is real: removing a pattern with a segment after its wildcard, which no insert accepts, takes the shorter pattern's route out. |
| `RouteTreeEdges.ClashAfterRejected` | src/tree.rs:176-206 | What clashes after a rejected insert: what clashed before, and what names the nodes it left behind differently. |
| `RouteTreeEdges.RejectedInsertBlocks` | src/tree.rs:176-206 | A later insert, fine before, is refused because of a rejected one exactly when it conflicts with what that one left behind. |
| `RouteTreeEdges.LeftoverNameConflicts` | src/tree.rs:176-206 | A concrete pair: after a rejected `{id}` pattern, a `{slug}` pattern is refused although nothing is listed. |
| `RouteText.TextParses` | src/tree.rs:342-373 | A pattern printed as the listing prints it, split and parsed again, is the pattern. |
| `RouteText.InsertKeepsNamed` | src/tree.rs:164-226 | Every name an insert puts in the tree is one a pattern can give, so listings stay readable. |
| `RouteText.RouteParsed` | src/tree.rs:342-363 | Every pattern with a route in such a tree is well-formed, so it survives printing and parsing. |
| `RouteNode.Node.InsertAt` | src/tree.rs:164-226 | The in-place insert leaves the tree, and returns the error, of the value specification, and keeps ownership of the nodes. |
| `RouteNode.Node.RemoveAt` | src/tree.rs:247-276 | The in-place removal leaves the tree and returns the answer of the value specification; no node is dropped. |
| `RouteNode.Node.FindFrom` | src/tree.rs:289-333 | The lookup over the shared vector answers as the specification, and the vector grows by exactly the captures of the match: a branch that fails leaves none behind. |
| `RouteNode.Node.CollectRoutes` | src/tree.rs:342-363 | The listing pushed onto the vector is, line by line, the printed text of a complete listing of the tree, in some order of each hash map. |
| `Router.Router.Match` | korvex/router.py:69-72 | The cached lookup gives what the tree answers now, whatever was evicted; exceptions are not cached. Over any run of calls, a match is a route registered under that very method and not replaced or removed since, of a pattern that matches and that none goes before. |
| `Router.UncachedAnswers` | src/tree.rs:289-333 | What the tree answers, from the calls accepted so far alone: a route registered under the method asked for; failing that the names of the methods of the pattern that goes first; nothing if no pattern matches; an error if there is no such method. |
| `Router.ParseMethodIs` | src/method.rs:14-39 | A method is read from its own name and from no other text. |
| `Router.Router.AddRoute` | korvex/router.py:75-78 | Registering sets its own entry only and bumps the version, or fails for the stated reason; one that raises, before the cache is cleared, changes no lookup; which route answers another method stays as it was. |
| `Router.Router.Remove` | korvex/router.py:80-84 | Removing takes out its own entry, cut after the first wildcard, answers whether it was there, clears the cache and bumps the version; one that raises changes nothing; which route answers another method stays as it was. |
| `Router.Router.Constraint` | src/path.rs:118-147 | Defining a constraint succeeds exactly when it may, changes no lookup, and so may keep the cache. |
| `Router.Router.Routes` | src/tree.rs:336-363 | The router's listing is the printed text of a complete listing of its tree. |
| `Router.ValidGrows` | src/path.rs:110-147 | Constraints defined later never invalidate a tree that is already there. |
| `UrlFor.UnquoteQuote` | korvex/_urls.py:107-123 | Percent-decoding undoes the percent-encoding of links, for every byte and every safe set without `%`, whatever follows. |
| `UrlFor.Encode` | korvex/_urls.py:104-123 | A segment is encoded exactly when its value is accepted, and the encoding decodes to the value; a refused one says why. A parameter's text is written with unreserved characters and escapes only (section 2.3 of RFC 3986), a wildcard's with slashes too, a literal with what a segment of a path may hold (section 3.3); and what needs no escape is left as it is. |
| `UrlFor.ParamAccepts` | korvex/_urls.py:114-121 | Of a parameter, a link accepts exactly the values that are no `.` or `..`, not empty, without a slash, of the built-in constraint, as the router reads it back, and of the annotated type. |
| `UrlFor.WildcardAccepts` | korvex/_urls.py:112-121 | Of a wildcard, those whose every part is so. |
| `UrlFor.LinkIsHarmless` | korvex/_urls.py:96-126 | A whole link holds characters of paths and escapes only: no query, no fragment, no space, no control character. |
| `UrlFor.HarmlessIs` | korvex/_urls.py:96-126 | Those are printable, and none is a space, a question mark, a number sign or a backslash. |
| `UrlFor.HexValueIs` | korvex/_urls.py:107-123 | An escape in either case is read as the byte it writes. |
| `UrlFor.PathFor` | korvex/_urls.py:84-126 | A link is returned exactly when the values given are those that the search over the pattern's text expects, every segment accepts its own, and the path reaches the route; otherwise the error is the first of these that fails. Decoded, it is the path of the values; as it is, it is made of the texts of the segments, joined. |
| `UrlPattern.NamesAreExpected` | korvex/_urls.py:88-107 | Every parameter a segment of the pattern has, read on its own, is one that the search over the whole text finds, so its value is there when it is needed. |
| `UrlPattern.ExpectedSplit` | korvex/_urls.py:88 | The search never matches across a slash: it finds in two joined texts what it finds in each. |
| `UrlPattern.FoundAtIs` | korvex/_urls.py:88 | What the search finds at a place is exactly a match of the source's expression: a star and a word, or a word in braces, perhaps with a colon and another word. |
| `UrlPattern.OwnNamesExpectedWhen` | korvex/_urls.py:88 | The names that have to be given are those of the pattern's own parameters, in order, if and only if the search finds nothing in its literal segments. |
| `UrlPattern.PatternIsExpected` | korvex/_urls.py:88 | Over a whole pattern the search finds what it finds in each segment, in order. |
| `UrlPattern.LiteralsAreSearched` | korvex/_urls.py:88 | In a literal such as `a{b}c` it finds a name, which then has to be given although nothing uses it. |
| `UrlFor.MatchOfJoin` | src/tree.rs:289-333 | A pattern that matches a path joined from non-empty texts captures each text whole, wildcards with slashes included. |
| `UrlFor.LinkLeadsBack` | korvex/_urls.py:209-224 | Any URL that decodes to the path of a pattern's texts and reaches a route with that pattern's own key, matched in the same router for the same method, gives that route and captures every parameter as exactly its text. |
| `Links.InsertKeepsKeyed` | korvex/_routing.py:366-384 | Registering, accepted or rejected, keeps every key taken and the key of one entry only, if nothing else has the key used. |
| `Links.RemoveKeepsKeyed` | src/tree.rs:247-276 | Removing keeps it so. |
| `Links.Site.Register` | korvex/_routing.py:366-384 | A function is registered under a key that no route of the app has; an accepted one sets its own entry only and takes its key, a rejected one does neither; keys stay apart, over any run of registrations. |
| `Links.Site.UrlFor` | korvex/_app.py:247-277 | The reverse routing round trip, after any run of registrations: the link returned for a listed route, percent-decoded and matched in the same router for the same method, leads to that route with the values it was built from, and holds nothing that would make a browser ask for another path. |
| `UrlIndex.RegisteredChanges` | korvex/_app.py:279-287 | Registering a route, even in place of another, changes the signature. |
| `UrlIndex.RegisteredIsIndexed` | korvex/_app.py:302-306 | What is in the index after a registration: of its own place, what the router lists then; elsewhere exactly what was there, but for routes of the same kind under the same key, which go by the new name. |
| `UrlIndex.App.Register` | korvex/_app.py:302-306 | A route, HTTP or WebSocket, on the app or on a host, that is registered with a name is found under it. |
| `UrlIndex.HostChanges` | korvex/_app.py:226-231 | A new host changes the signature, although the hosts are re-sorted. |
| `UrlIndex.HostIsAdded` | korvex/_app.py:226-231 | A new host is there from then on, the others stay, those without parameters come first, and each kind keeps its order. |
| `UrlIndex.HostsAreDistinct` | korvex/_app.py:226-231 | A pattern that already has a host adds none, and no two hosts share a pattern. |
| `UrlIndex.HostKeepsTargets` | korvex/_app.py:226-231 | A new host moves no route to another: each is in the index as before, under the place its host has now. |
| `UrlIndex.EqualSignatureSameState` | korvex/_app.py:279-287 | Over every run of registrations, an equal signature implies that the routes, the listings and the hosts are all unchanged in between. |
| `UrlIndex.App.UrlIndex` | korvex/_app.py:279-287 | The cached index always equals a fresh `build_index` of the current state. |
| `UrlIndex.BuildIndexIsExact` | korvex/_urls.py:52-68 | The index holds exactly the named routes listed now, on the app, its WebSockets and every host, explicit names apart. |
| `UrlIndex.ResolveIs` | korvex/_urls.py:71-81 | A name resolves to a route of the app, the one place it names at its level, explicit names first; it fails exactly for want of a route or for two places. |
| `UrlIndex.RouteName` | korvex/_routing.py:532-542 | The handler key is taken by no other route, and is the first free one of `base`, `base#2`, `base#3`... |
| `Backlog.RunKeepsInv` | src/server.rs:98-131 | Every interleaving of the sender's and the taker's atomic steps keeps the counter conserved, one wake-up per WAIT, and a raised flag that will be seen. |
| `Backlog.BytesAreConserved` | src/server.rs:98-124 | While the channel is open, the counter equals the bytes queued, plus those counted and not sent, plus those received and not subtracted; so `fetch_sub` never underflows. |
| `Backlog.ChunksInOrder` | src/server.rs:505-523 | Chunks are taken in the order they were sent, each once, and while the channel is open the others are still in it. |
| `Backlog.WokenWhenLow` | src/server.rs:98-124 | While a stream goes on, a wake-up starts only once at most a quarter of HIGH_WATER is left, and is pushed only for a sender that asked for one. |
| `Backlog.WaitsAreMatched` | src/server.rs:98-131 | Every `add` that returned WAIT is matched by exactly one `Writable`, and none is pushed for one that returned SENT. |
| `Backlog.WakeUpsFindTheirFuture` | korvex/_serve.py:214-248 | A `Writable` that the loop takes finds the future of the sender it is for, and wakes it; one is only dropped once the client is gone and Python knows. |
| `Backlog.WaitingIsNeverForgotten` | src/server.rs:98-131 | A waiting sender, of a WebSocket or of a stream whose client is connected, has a `Writable` queued or about to be pushed, a taker about to swap the flag, or more than LOW_WATER bytes still to take. |
| `Backlog.WaitingIsWoken` | src/server.rs:116-131 | From any such state, streams included, the taker going on alone pushes the `Writable` in a bounded number of steps. |
| `Backlog.PileIsBounded` | src/server.rs:98-124 | With chunks of at most `cap` bytes, the counter never exceeds HIGH_WATER plus two chunks, in any interleaving, and plus three between the last wake of a dropped body and its close. |
| `Backlog.BoundIsReached` | src/server.rs:116-131 | Two chunks, not one: a swap made on an old count wakes the sender early, in a run that reaches the bound. |
| `Backlog.LateBoundIsReached` | src/server.rs:518-523 | The third chunk is real: a run in which the last wake of a dropped body lets it in. |
| `BacklogExits.CloseFirstNeverSticks` | src/websocket.rs:230-234 | No reachable state leaves Python waiting with no thread able to step, if the channel closes before the last wake. |
| `BacklogExits.WakeFirstCanStick` | src/server.rs:518-523 | If the last wake comes before the channel closes, as in `ChannelBody::drop`, there is a run that leaves Python waiting for ever. |
| `BacklogExits.WakeFirstSticksWhen` | src/server.rs:98-131 | In that order a run leaves Python waiting for ever exactly when the channel has been closed and the sender, past HIGH_WATER, raised the flag after the taker had looked at it for the last time, and queued that chunk before the close. |
| `BacklogExits.AtomicDropNeverSticks` | src/server.rs:518-523 | If nothing came between the last look of a drop, its push and the close, from any reachable state, whoever waits would have a `Writable`, and no later state would leave Python waiting for ever. |
| `BacklogExits.DropIsItsSteps` | src/server.rs:518-523 | That drop is the last swap, push and close in one go. |
| `BacklogExits.FailedUpgradeCanStick` | src/websocket.rs:220-224 | A handshake whose upgrade fails closes its channel and wakes nobody: a run in which Python, having sent past HIGH_WATER before, waits for ever. |
| `BacklogExits.FailedUpgradeSticksWhen` | src/websocket.rs:220-224 | Python is left waiting for ever exactly when it had sent more than HIGH_WATER by the time the upgrade failed. |
| `WakeUp.TakenOnceInOrder` | src/server.rs:196-207 | For any number of producers, every event pushed is taken once, in push order, or still waits in the queue. |
| `WakeUp.NoWakeUpIsLost` | src/server.rs:327-344 | An event not taken has a byte in the socket, a producer still inside `push`, or the loop still before its drain. |
| `WakeUp.OneBytePerTake` | src/server.rs:202-206 | A burst sends a single byte: one producer at most writes between two clearings of the flag. |
| `WakeUp.QuiescentIsDrained` | src/server.rs:327-344 | Every reachable state in which no thread has a step left has an empty queue: all that was pushed was taken. |
| `WakeUp.ComesToRest` | src/server.rs:327-344 | Under any schedule, with nothing new pushed, the threads come to such a state within a bounded number of steps. |
| `WakeUp.ClearingFirstLosesEvents` | src/server.rs:328-333 | Clearing the flag before emptying the socket loses an event for good: a concrete run. |
| `StopAll.NoStopIsMissed` | korvex/_serve.py:135-145 | In every interleaving of any number of `stop_all` and `joined` calls, signal handlers nested in the main thread included, once a `stop_all` has returned, every loop that joined, before or since, has its stop event set. |
| `StopAll.NoStopUnasked` | korvex/_serve.py:135-145 | Without a call of `stop_all`, no stop event is set. |
| `StopAll.NoDeadlock` | korvex/_serve.py:135-145 | Unless a signal has arrived while a handler held a lock, the event's or that of the loops: while a call is under way, it or a thread inside a lock has a step to take. |
| `StopAll.SelfLockedWhen` | korvex/_serve.py:135-139 | A handler is left interrupted inside one of the two locks exactly when a signal arrived while the handler that was running was inside one. |
| `StopAll.SelfLockedForEver` | korvex/_serve.py:135-139 | From then on the main thread returns from no handler, whatever any thread does and whatever signals still come: it waits for a lock of its own. |
| `StopAll.SecondSignalCanLock` | korvex/_serve.py:135-136 | Such a run: a second signal while the first handler is inside `stopping.set()`. |
| `StopAll.StepsGetThere` | korvex/_serve.py:135-145 | Each call ends after a bounded number of its own steps, the main thread's handler by handler, and inside the lock of the loops nobody else's steps delay it. |
| `Planner.PlanFor` | korvex/_schema.py:575-612 | The depth-first planner terminates, keeps the shared memo sound and growing, returns a plan that spells out everything the items ask for, none of it leading back to the handler but through what was remembered, and on failure the walk that led to a cycle, a refused parameter or the handler itself. |
| `Planner.PlanRoute` | korvex/_schema.py:590-612 | Planning a route fails exactly when a cycle or a refused parameter can be reached from the handler or the route's own dependencies, or an own dependency leads back to the handler by a walk on which the memo holds nothing; otherwise it gives the only plan there is. The memo stays sound over any run of registrations, of any routes, declared or refused. |
| `Planner.EmptyMemoRefusesMost` | korvex/_schema.py:600-612 | What the memo holds never makes a route be refused, and makes one be accepted only if an own dependency leads back to its handler. |
| `Planner.MemoDecidesRefusal` | korvex/_schema.py:600-612 | There it decides: a handler whose own dependency depends on it is refused on its own, and accepted once that dependency is remembered. |
| `Planner.MemoDecides` | korvex/_schema.py:600-612 | The same as two registrations: the route is refused by itself, and accepted after another of the same pattern and kind. |
| `Planner.PlanIsUnique` | korvex/_schema.py:600-612 | A function has one plan as a dependency of a route, so a remembered plan is the one that would be made again. |
| `Planner.DepsAreUnique` | korvex/_schema.py:613-718 | A handler has one plan for the route's own dependencies it is given. |
| `Planner.PlanMeansNoFailure` | korvex/_schema.py:590-593 | What has a plan reaches no cycle and no refused parameter. |
| `DependencyRun.Run.Resolve` | korvex/_schema.py:442-460 | A cached dependency gets one value per run; any other is made anew from its own dependencies' values, in order; generators that reach their `yield` join the teardown list after those they use. A failing one gives the very error that its function raised, or that it did not yield. |
| `DependencyRun.Run.Bind` | korvex/_schema.py:350-414 | Arguments are the values the items ask for, a route's own dependencies included, in order, and there are some only if the function's own parameters could be read; a validation error, of its own or of a dependency, lets every other dependency be tried and fails the whole under one error, any other error ends it at once and is the one that is raised. |
| `DependencyRun.Run.Close` | korvex/_schema.py:467-492 | Teardown resumes what waits, last first, each once, with the latest error, empties the list, and raises exactly when the final error differs from the one given. |
| `DependencyRun.Run.Serve` | korvex/_app.py:587-599 | For any accepted route, one whose handler is also among its dependencies included: the handler is called with the values its items ask for, or something before it failed; the error in force at the teardown is what the handler raised, or what failed before it, and none otherwise. The teardown runs to its end, or is left to the end of the stream; the request fails exactly when an error is in force after it, with that error, and succeeds only if the handler did. |
| `DependencyRun.Run.Finish` | korvex/_app.py:838-846 | What waits for a streamed response to end runs once, however often this is called. |
| `DependencyRun.ResourcesOutliveTheirUsers` | korvex/_schema.py:467-492 | Every generator that reached its `yield` is resumed exactly once, after everything that was given its value, directly or through other values, and after every generator made from it. |
| `DependencyRun.TeardownsGetTheLatest` | korvex/_schema.py:474-492 | Each teardown receives the last error raised before it, or else the one given; finishing or catching one does not swallow it. |
| `DependencyRun.NotInsideItself` | korvex/_schema.py:442-460 | A function planned as a dependency is not among its own dependencies, so a value is never cached twice. |
| `RateLimit.MemoryStore.Hit` | korvex/middleware/_rate_limit.py:61-72 | Answers as a table that forgets nothing would, and leaves a table no later hit can tell from that one; the cleanup runs on every thousandth allowed hit. |
| `RateLimit.MemoryStore.ForgetOld` | korvex/middleware/_rate_limit.py:74-79 | Dropping the keys whose allowance is back leaves every key as it would be seen from now on. |
| `RateLimit.ScriptIsExact` | korvex/middleware/_rate_limit.py:86-103 | The Redis script decides and stores as the same rule says, and gives each key at least a millisecond and long enough to outlast its value. |
| `RateLimit.StoresAgree` | korvex/middleware/_rate_limit.py:61-103 | After any run of hits on any keys, with cleanups and expiries, the memory store, the script and a table that forgets nothing give one answer. |
| `RateLimit.AllowedIsBounded` | korvex/middleware/_rate_limit.py:61-72 | The GCRA bound: in any window of length T, at most requests + T * requests / per hits on one key are allowed, whatever other keys do. |
| `RateLimit.RetryAfterIsExact` | korvex/middleware/_rate_limit.py:66-67 | After a refusal, the same hit is allowed from now + retry_after on, and at no earlier time. |
| `RateLimit.RetryAfterIsLeast` | korvex/middleware/_rate_limit.py:61-72 | In any answer, `retry_after` is the least time after which the hit would have been allowed, none if it was, and `remaining` is at least 0 and less than `requests`. |
| `RateLimit.ResetIsExact` | korvex/middleware/_rate_limit.py:67-72 | From now + reset on, and at no earlier time, a hit finds the whole allowance. |
| `RateLimit.RemainingIsExact` | korvex/middleware/_rate_limit.py:66-72 | After a hit, allowed or refused, the n-th next one at the same instant is allowed if and only if n is at most `remaining`. |
| `RateLimit.BurstIsExact` | korvex/middleware/_rate_limit.py:61-72 | A key whose whole allowance is there has a burst of exactly `requests`. |
| `RateLimit.KeysAreIndependent` | korvex/middleware/_rate_limit.py:61-72 | What one key is answered depends on its own hits only. |
| `Forwarded.SplitUnquoted` | src/proxy.rs:259-282 | The quote and escape scan returns the trimmed, non-empty parts between separators outside quotes, or None exactly for unbalanced text. |
| `Forwarded.CutJoin` | src/proxy.rs:259-282 | Cutting undoes joining: balanced parts without a bare separator, whatever their quotes hold, joined by it cut back into themselves. |
| `Forwarded.CutIsParts` | src/proxy.rs:259-282 | Joining undoes cutting, and every piece of a balanced text is balanced and holds no bare separator. |
| `Forwarded.PartsAreBalanced` | src/proxy.rs:238-239 | The parts of a balanced line are balanced after trimming, so the second split never fails. |
| `Forwarded.Unquote` | src/proxy.rs:284-300 | Removes the quotes and resolves the escapes of a quoted value; anything else is left as it is. |
| `Forwarded.UnquoteQuote` | src/proxy.rs:284-300 | A value written in quotes with its quotes and backslashes escaped is read back, whatever it holds. |
| `Forwarded.NameIsRead` | src/proxy.rs:240-251 | A pair is read by its name in any case, with spaces around it or not, and only `for`, `proto` and `host` say anything. |
| `Forwarded.BareIsRead` | src/proxy.rs:284-300 | A value without a quote in front is read as it is, and a pair without a value not at all. |
| `Text.SpacesAre` | src/proxy.rs:187-188 | Trimming takes spaces, tabs and line breaks of ASCII, written out. |
| `Text.StripIs` | src/proxy.rs:187-188 | It takes nothing else, and all of them, at both ends. |
| `Text.LowerIs` | src/proxy.rs:176-177 | Lower case is each letter of ASCII for its own, written out, and everything else as it is. |
| `Forwarded.ParseForwarded` | src/proxy.rs:226-257 | The elements of a header are those of its lines in order, or none at all if one line is unbalanced. |
| `Forwarded.AppendLaw` | src/proxy.rs:221-257 | After a balanced text C, the line `C, P` is balanced and gives the elements of C followed by those of P. |
| `Forwarded.AppendAfterOpenQuote` | src/proxy.rs:221-257 | After an unbalanced text, the line is rejected exactly when the appended element, read from inside a quote, does not end outside one. |
| `Forwarded.OpenQuoteIsIgnored` | src/proxy.rs:221-257 | So after an unbalanced text, a balanced element without backslashes is never swallowed: the whole header is ignored. |
| `Forwarded.EscapedQuoteIsSwallowed` | src/proxy.rs:221-257 | A balanced element with an escaped quote in it can be swallowed by an open quote before it: a concrete line of which the server reads the client's element only. |
| `Forwarded.PrintParse` | src/proxy.rs:226-257 | Non-empty elements, written in one line of text with quoted and escaped values, are read back as they were. |
| `TrustedProxy.HeadersDecideWhen` | src/proxy.rs:87-95 | Headers can change the answer if and only if the peer is a Unix socket or the address of a trusted proxy. |
| `TrustedProxy.StrangersAreNotBelieved` | src/proxy.rs:87-95 | For any other peer the client is the peer, the scheme `http`, and there is no host. |
| `TrustedProxy.XForwardedIs` | src/proxy.rs:117-137 | From a trusted peer, the client is the last address in `X-Forwarded-For` that is no trusted proxy's, or the first of all, or the peer; the scheme and the host are those of the last values, a host only if the app asked for it and it is one. |
| `TrustedProxy.ForwardedIs` | src/proxy.rs:139-158 | With `Forwarded`, all of it is what the element of the last node that is no trusted proxy says. |
| `TrustedProxy.ForwardedIsReadWhen` | src/proxy.rs:96-105 | `Forwarded` can change the answer if and only if the peer is believed and sends neither `X-Forwarded-For` nor `-Proto`. |
| `TrustedProxy.TrustIs` | src/proxy.rs:67-74 | A proxy is trusted by its address, whatever its port and however it is written; an element that names no node is none. |
| `TrustedProxy.AddressIsRead` | src/proxy.rs:192-208 | An address is told from its port, bare, with a port or in brackets; a port that is no 16-bit number is 0. |
| `TrustedProxy.BareAddressIsRead` | src/proxy.rs:204-207 | One with several colons and no brackets is an IPv6 address, whole. |
| `TrustedProxy.ValuesOfLine` | src/proxy.rs:180-190 | Each of the values listed in a header's line is read, in order. |
| `TrustedProxy.ValuesOfLines` | src/proxy.rs:180-190 | And the lines one after another. |
| `TrustedProxy.WalkIsLastUntrusted` | src/proxy.rs:117-158 | The walk from the right finds an entry that is no trusted proxy with only trusted ones after it, or none if all are trusted. |
| `TrustedProxy.VisibleCharIs` | src/proxy.rs:185-186 | A line is read if all its bytes are printable ASCII or tabs. |
| `TrustedProxy.PrintedIsRead` | src/proxy.rs:226-257 | As a line of a header, they are read back exactly when all their values are visible ASCII or tabs; otherwise the line is dropped. |
| `TrustedProxy.ClientCannotChooseFor` | src/proxy.rs:87-137 | Whatever lines the client sent, and whatever it wrote before what its proxies appended to `X-Forwarded-For`: if the text before can be read, the answer is the one the appended text alone gives; if it holds any byte that is no visible ASCII, the line is dropped with the proxies' part, and the answer is that of the client's other lines. |
| `TrustedProxy.UnreadableLineLetsClientChoose` | src/proxy.rs:181-190 | So with such a byte the client found is whatever address the client wrote in a line before, for every appended text. |
| `TrustedProxy.UnreadableLineIsDropped` | src/proxy.rs:181-190 | A concrete input: `6.6.6.6` in one line, the byte 0xFF at the start of the next. |
| `TrustedProxy.LastValueIsTheProxys` | src/proxy.rs:126-137 | The last value of `X-Forwarded-Proto` and `-Host` is the nearest proxy's, or, exactly when the text before it can't be read, the last of the client's other lines. |
| `TrustedProxy.ClientCannotChoose` | src/proxy.rs:87-158 | With `Forwarded`, whatever lines and text the client sent, the resolved client, scheme and host are those of the appended elements alone; or, if the client's part is text but unbalanced, those without the header; or, if the last line can't be read, those of the client's other lines. |
| `TrustedProxy.HostIsClean` | src/proxy.rs:168-178 | A host is only believed if the app asked for it, and is then lower case, at most 255 long, and made of name characters only. |
| `Multipart.Find` | korvex/_requests.py:327-330 | The leftmost place of a separator, or none exactly when it stands nowhere. |
| `Multipart.Write` | korvex/testing.py:959-974 | The loops of the writer produce the body of the form's fields, one part per value in order, followed by the files. |
| `Multipart.Parse` | korvex/_requests.py:323-346 | The loop of the reader groups, by name, the entries of the parts before the closing delimiter. |
| `MultipartRoundTrip.PartIsRead` | korvex/_requests.py:330-345 | A part's names are read with escapes resolved, a file name without angle brackets around it and spaces at its ends, its content type as written, and its contents are everything after the first blank line but one final line break; or, if a file's name ends in a backslash, it is read under another name. |
| `MultipartRoundTrip.RoundTrip` | korvex/_requests.py:323-346 | With any names whose written form doesn't hold the delimiter, every entry comes back, in order and byte for byte, line breaks and blank lines included, if and only if no contents hold the delimiter and every entry's names survive. |
| `MultipartRoundTrip.EntryIsRead` | korvex/testing.py:977-979 | Names survive exactly when no name has a quote, a line break or two backslashes together, no file name has angle brackets around it or a space at an end, and no file's name ends in a backslash. |
| `MultipartRoundTrip.QuoteChanges` | korvex/testing.py:977-979 | A quote in a name is read back as `%22`. |
| `MultipartRoundTrip.GroupHolds` | korvex/_requests.py:345-346 | For each name, the form holds its values in the order they were written. |
| `MultipartRoundTrip.ContentTypeIs` | korvex/_requests.py:344 | A content type is read in lower case, without its parameters; one that is missing, or no type and subtype, is `text/plain`. |
| `MultipartRoundTrip.NamedByType` | korvex/_requests.py:339-344 | A part without a file name whose content type carries a name is a file of that name. |

## Left out

- RouteNode.Node.CollectRoutes: the order of each node's literals is any order, as a hash map gives; the sort the Python binding applies to the result is not modelled.
- RouteNode.Node.InsertAt: nodes are objects that their parent owns; how they are laid out and reused in memory is left out, and paths are sequences, not slices of one buffer.
- Router.Router.Match: captures are texts; turning those of `int` and `uuid` parameters into Python values is left out. Evictions are an arbitrary set, not the last 1024 uses.
- Router.Router.Constraint: which regexes compile is a parameter.
- UrlFor.PathFor: values are already text, as UTF-8 bytes, and conversion to the annotated type is a parameter. The wording of errors is left out, and a missing name is reported before an unexpected one, not together. Which characters make a word is judged byte by byte, where the source judges Unicode characters. Patterns are split as the router splits them, which skips empty parts that the source's `split` keeps; no listed pattern has any.
- UrlFor.LinkLeadsBack: captures are stated for parameter names that are words, as the source's expressions require.
- Links.Site.Register: routes of other hosts are seen only as keys that are taken, and the checks made before a route reaches the router are left out. `App.docs`, whose keys are fixed, is taken to be called once.
- UrlIndex.App.UrlIndex: the map from handler keys back to targets, only used to word an error, is left out. Registrations come one at a time.
- Backlog.WaitingIsNeverForgotten: until a streamed body is dropped; what happens then is `BacklogExits.WakeFirstSticksWhen`, and `BacklogExits.FailedUpgradeSticksWhen` for a WebSocket that never was. One sender at a time per stream, as `writable` keeps one future per id. Python closing its own side is not modelled.
- StopAll.NoStopIsMissed: no loop is closed yet; handing a loop its `stop.set` is one step, as is each change of a lock or flag.
- Planner.PlanRoute: a parameter that can't be read is an item that raises; the rules that tell the sources of a parameter apart, and the one-body check on a finished handler plan, are left out.
- DependencyRun.Run.Resolve: dependency overrides are left out; one that depends on what it replaces does not end. Sync and async generators are alike.
- DependencyRun.Run.Close: an error raised by `generator.close()` after a second `yield`, which skips the other teardowns, is left out, as is an after hook that raises on a streamed response.
- RateLimit.StoresAgree: floats are reals, and the script's numbers are not written out as text; the clock is monotone and shared.
- TrustedProxy.ClientCannotChoose: which texts are addresses of trusted proxies is a parameter; the record the resolvers fill in place is returned.
- MultipartRoundTrip.RoundTrip: names are ASCII, printable but for tabs and line breaks, and content types lower-case tokens; for these a header parser in the manner of `email.message` is written out, without the continued and encoded parameters of RFC 2231. Contents are bytes: the text encodings of fields are left out.
- Sockets, HTTP parsing, timeouts, process forking, PyO3 conversions and signals are foreign calls; the queues, flags and counters they act on are kept.
- The WebSocket handshake's `decide`, `close` and `finish` take a sender out of a locked option once; they would add only easy members.
- OpenAPI, the docs pages, the CLI, CORS, compression, security headers and the example application are formatting and single branches.
- Hooks before and after a request, host matching and `RouteGroup` prefixes are left out.
