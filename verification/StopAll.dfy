/** How threads are told to stop (korvex/_serve.py:130-152). Signal handlers
    and failing loops call `stop_all`, loops that start call `joined`, any number
    of each, in any interleaving. `stop_all` sets an event, which Python does under
    a lock of the event's own, and then goes through the list of loops, under
    another. Python runs every signal handler in the main thread: a new one
    interrupts the one that is running, which goes on once it has returned. No
    loop is closed yet. */
module StopAll {
  import opened Wrappers

  datatype Caller =
    | Asking             // waiting for the event's lock
    | Raising            // holds it, about to set `stopping`
    | Raised             // holds it, `stopping` is set
    | Waiting            // waiting for the lock of the loops
    | Telling(next: nat) // holds it, on its way through the loops
    | Returned

  datatype Loop =
    | Entering
    | Locked             // holds the lock
    | Added              // appended itself, holds the lock
    | Checking           // about to look at `stopping`
    | Setting            // saw it set, about to set its own event
    | Joined

  datatype Thread = Main | InCaller(c: nat) | InLoop(l: nat)

  datatype Lock = OfEvent | OfLoops

  datatype State = State(
    stopping: bool,
    setting: Option<Thread>,     // who holds the event's lock
    lock: Option<Thread>,        // and that of the loops
    loops: seq<nat>,
    stopped: set<nat>,           // loops whose stop event is set
    handlers: seq<Caller>,       // of signals, in the main thread, the running one last
    handled: nat,                // signal handlers that have returned
    callers: map<nat, Caller>,   // loops' threads that failed
    joining: map<nat, Loop>)

  const START := State(false, None, None, [], {}, [], 0, map[], map[])

  /** A signal arrives, or a thread takes its next step. */
  datatype Action = Signal | Step(thread: Thread)

  /** One step of a `stop_all` in thread `t`: where it is then, and the rest. */
  function DoCaller(s: State, t: Thread, at: Caller): Option<(Caller, State)> {
    match at
    case Asking => if s.setting.Some? then None else Some((Raising, s.(setting := Some(t))))
    case Raising => Some((Raised, s.(stopping := true)))
    case Raised => Some((Waiting, s.(setting := None)))
    case Waiting => if s.lock.Some? then None else Some((Telling(0), s.(lock := Some(t))))
    case Telling(next) =>
      if next < |s.loops| then Some((Telling(next + 1), s.(stopped := s.stopped + {s.loops[next]})))
      else Some((Returned, s.(lock := None)))
    case Returned => None
  }

  function DoMain(s: State): Option<State> {
    if s.handlers == [] then None
    else
      var top := |s.handlers| - 1;
      match DoCaller(s, Main, s.handlers[top])
      case None => None
      case Some((at, t)) =>
        Some(if at.Returned? then t.(handlers := s.handlers[..top], handled := s.handled + 1)
             else t.(handlers := s.handlers[top := at]))
  }

  function DoFailing(s: State, c: nat): Option<State> {
    if c !in s.callers then Some(s.(callers := s.callers[c := Asking]))
    else
      match DoCaller(s, InCaller(c), s.callers[c])
      case None => None
      case Some((at, t)) => Some(t.(callers := s.callers[c := at]))
  }

  function DoLoop(s: State, l: nat): Option<State> {
    if l !in s.joining then Some(s.(joining := s.joining[l := Entering]))
    else
      match s.joining[l]
      case Entering =>
        if s.lock.Some? then None
        else Some(s.(lock := Some(InLoop(l)), joining := s.joining[l := Locked]))
      case Locked => Some(s.(loops := s.loops + [l], joining := s.joining[l := Added]))
      case Added => Some(s.(lock := None, joining := s.joining[l := Checking]))
      case Checking => Some(s.(joining := s.joining[l := if s.stopping then Setting else Joined]))
      case Setting => Some(s.(stopped := s.stopped + {l}, joining := s.joining[l := Joined]))
      case Joined => None
  }

  function DoThread(s: State, t: Thread): Option<State> {
    match t
    case Main => DoMain(s)
    case InCaller(c) => DoFailing(s, c)
    case InLoop(l) => DoLoop(s, l)
  }

  function Do(s: State, a: Action): Option<State> {
    match a
    case Signal => Some(s.(handlers := s.handlers + [Asking]))
    case Step(t) => DoThread(s, t)
  }

  /** The state after a run of actions, if each was possible. */
  function Exec(run: seq<Action>): Option<State> {
    if run == [] then Some(START)
    else
      match Exec(run[..|run| - 1])
      case None => None
      case Some(s) => Do(s, run[|run| - 1])
  }

  // ---- What every step keeps

  function Owner(s: State, k: Lock): Option<Thread> {
    match k
    case OfEvent => s.setting
    case OfLoops => s.lock
  }

  /** Whether a call is inside its `with` on `k`. */
  predicate Inside(at: Caller, k: Lock) {
    match k
    case OfEvent => at.Raising? || at.Raised?
    case OfLoops => at.Telling?
  }

  /** Whether thread `t` is. */
  ghost predicate Holds(s: State, t: Thread, k: Lock) {
    match t
    case Main => exists i :: 0 <= i < |s.handlers| && Inside(s.handlers[i], k)
    case InCaller(c) => c in s.callers && Inside(s.callers[c], k)
    case InLoop(l) => k.OfLoops? && l in s.joining && (s.joining[l].Locked? || s.joining[l].Added?)
  }

  ghost predicate HoldsRight(s: State, t: Thread, k: Lock) {
    Holds(s, t, k) <==> Owner(s, k) == Some(t)
  }

  ghost predicate Locking(s: State) {
    (forall t, k :: HoldsRight(s, t, k)) && HandlersInOrder(s)
  }

  /** What a handler can have done since it interrupted one inside a `with`. */
  ghost predicate HandlersInOrder(s: State) {
    && (forall i, j | 0 <= i < j < |s.handlers| && Inside(s.handlers[i], OfLoops) :: !Inside(s.handlers[j], OfLoops))
    && (forall i, j | 0 <= i < j < |s.handlers| && Inside(s.handlers[i], OfEvent) :: s.handlers[j].Asking?)
    && (forall i | 0 <= i < |s.handlers| :: !s.handlers[i].Returned?)
  }

  /** The list holds exactly the loops past their append. */
  ghost predicate Listed(s: State) {
    forall l: nat :: l in s.loops <==> l in s.joining && !s.joining[l].Entering? && !s.joining[l].Locked?
  }

  /** The first `n` loops of the list are stopped. */
  ghost predicate Told(s: State, n: nat) {
    n <= |s.loops| && forall i | 0 <= i < n :: s.loops[i] in s.stopped
  }

  /** Some call of `stop_all` has returned. */
  predicate HasReturned(s: State) {
    s.handled > 0 || exists c :: c in s.callers && s.callers[c].Returned?
  }

  /** Every loop that has joined is stopped. */
  ghost predicate AllStopped(s: State) {
    forall l | l in s.joining && s.joining[l].Joined? :: l in s.stopped
  }

  /** Whether a call has set `stopping`. */
  predicate HasRaised(at: Caller) {
    !at.Asking? && !at.Raising?
  }

  /** A loop not stopped yet, and not told by a caller, will look for itself. */
  ghost predicate WillStop(s: State) {
    && SaysSo(s)
    && (forall c | c in s.callers && s.callers[c].Telling? :: Told(s, s.callers[c].next))
    && (forall i | 0 <= i < |s.handlers| && s.handlers[i].Telling? :: Told(s, s.handlers[i].next))
    && (HasReturned(s) ==> AllStopped(s))
  }

  /** Once a call has set `stopping`, it is set. */
  ghost predicate SaysSo(s: State) {
    && (forall c | c in s.callers && HasRaised(s.callers[c]) :: s.stopping)
    && (forall i | 0 <= i < |s.handlers| && HasRaised(s.handlers[i]) :: s.stopping)
    && (s.handled > 0 ==> s.stopping)
  }

  /** Some call of `stop_all` has begun. */
  predicate Called(s: State) {
    s.callers != map[] || s.handlers != [] || s.handled > 0
  }

  ghost predicate OnlyWhenAsked(s: State) {
    && (s.stopping ==> Called(s))
    && (s.stopped != {} ==> s.stopping)
    && (forall l | l in s.stopped :: l in s.loops)
    && (forall l | l in s.joining && s.joining[l].Setting? :: s.stopping)
  }

  ghost predicate Inv(s: State) {
    Locking(s) && Listed(s) && WillStop(s) && OnlyWhenAsked(s)
  }

  lemma StepKeepsLocking(s: State, a: Action)
    requires Locking(s) && Do(s, a).Some?
    ensures Locking(Do(s, a).value)
  {
    hide Do, Holds, Owner, HoldsRight;
    var s' := Do(s, a).value;
    forall u: Thread, k
      ensures HoldsRight(s', u, k)
    {
      if u.Main? { MainHolds(s, a, k); } else { OtherHolds(s, a, u, k); }
    }
    HandlersStayInOrder(s, a);
  }

  lemma HandlersStayInOrder(s: State, a: Action)
    requires Locking(s) && Do(s, a).Some?
    ensures HandlersInOrder(Do(s, a).value)
  {
    assert HoldsRight(s, Main, OfEvent) && HoldsRight(s, Main, OfLoops);
    if a == Step(Main) {
      TopStaysInOrder(s);
    } else {
      var s' := Do(s, a).value;
      assert s'.handlers == if a.Signal? then s.handlers + [Asking] else s.handlers;
    }
  }

  lemma TopStaysInOrder(s: State)
    requires HoldsRight(s, Main, OfEvent) && HoldsRight(s, Main, OfLoops) && HandlersInOrder(s) && Do(s, Step(Main)).Some?
    ensures HandlersInOrder(Do(s, Step(Main)).value)
  {}

  lemma OtherHolds(s: State, a: Action, u: Thread, k: Lock)
    requires Locking(s) && Do(s, a).Some? && !u.Main?
    ensures HoldsRight(Do(s, a).value, u, k)
  {
    hide Do, HoldsRight, HandlersInOrder;
    if a.Step? {
      match a.thread {
        case Main => MainMoves(s, u, k);
        case InCaller(c) => CallerMoves(s, c, u, k);
        case InLoop(l) => LoopMoves(s, l, u, k);
      }
    } else {
      SignalMoves(s, u, k);
    }
  }

  lemma SignalMoves(s: State, u: Thread, k: Lock)
    requires HoldsRight(s, u, k) && !u.Main?
    ensures HoldsRight(Do(s, Signal).value, u, k)
  {}

  lemma MainMoves(s: State, u: Thread, k: Lock)
    requires HoldsRight(s, u, k) && HoldsRight(s, Main, k) && !u.Main? && Do(s, Step(Main)).Some?
    ensures HoldsRight(Do(s, Step(Main)).value, u, k)
  {}

  lemma CallerMoves(s: State, c: nat, u: Thread, k: Lock)
    requires HoldsRight(s, u, k) && HoldsRight(s, InCaller(c), k) && !u.Main? && Do(s, Step(InCaller(c))).Some?
    ensures HoldsRight(Do(s, Step(InCaller(c))).value, u, k)
  {}

  lemma LoopMoves(s: State, l: nat, u: Thread, k: Lock)
    requires HoldsRight(s, u, k) && HoldsRight(s, InLoop(l), k) && !u.Main? && Do(s, Step(InLoop(l))).Some?
    ensures HoldsRight(Do(s, Step(InLoop(l))).value, u, k)
  {}

  lemma MainHolds(s: State, a: Action, k: Lock)
    requires Locking(s) && Do(s, a).Some?
    ensures HoldsRight(Do(s, a).value, Main, k)
  {
    var s' := Do(s, a).value;
    assert HoldsRight(s, Main, k);
    if a.Signal? {
      assert forall i | 0 <= i < |s.handlers| :: s'.handlers[i] == s.handlers[i];
    } else if a.thread.Main? {
      MainMovesOn(s, k);
    } else {
      assert HoldsRight(s, a.thread, k);
      assert s'.handlers == s.handlers;
    }
  }

  /** Only the running handler moves. */
  lemma MainMovesOn(s: State, k: Lock)
    requires HoldsRight(s, Main, k) && HandlersInOrder(s) && Do(s, Step(Main)).Some?
    ensures HoldsRight(Do(s, Step(Main)).value, Main, k)
  {
    var s' := Do(s, Step(Main)).value;
    var top := |s.handlers| - 1;
    assert forall i | 0 <= i < top :: s'.handlers[i] == s.handlers[i];
    if Inside(s.handlers[top], k) {
      assert forall i | 0 <= i < top :: !Inside(s.handlers[i], k);
    }
    if |s'.handlers| == |s.handlers| && Inside(s'.handlers[top], k) {
      assert Holds(s', Main, k);
    }
  }

  lemma StepKeepsListed(s: State, a: Action)
    requires Listed(s) && Do(s, a).Some?
    ensures Listed(Do(s, a).value)
  {
    hide Do;
    if a.Step? && a.thread.InLoop? {
      LoopListed(s, a.thread.l);
    } else {
      OthersJoinNothing(s, a);
    }
  }

  lemma OthersJoinNothing(s: State, a: Action)
    requires Do(s, a).Some? && !(a.Step? && a.thread.InLoop?)
    ensures var s' := Do(s, a).value; s'.loops == s.loops && s'.joining == s.joining
  {}

  lemma LoopListed(s: State, l: nat)
    requires Listed(s) && Do(s, Step(InLoop(l))).Some?
    ensures Listed(Do(s, Step(InLoop(l))).value)
  {}

  /** A call that tells the last loop leaves every joined one stopped. */
  lemma ToldAll(s: State)
    requires Listed(s) && Told(s, |s.loops|)
    ensures AllStopped(s)
  {
    forall l | l in s.joining && s.joining[l].Joined?
      ensures l in s.stopped
    {
      assert l in s.loops;
      var i :| 0 <= i < |s.loops| && s.loops[i] == l;
    }
  }

  lemma ToldStays(s: State, a: Action, n: nat)
    requires Told(s, n) && Do(s, a).Some?
    ensures Told(Do(s, a).value, n)
  {
    var s' := Do(s, a).value;
    assert s.loops <= s'.loops && s.stopped <= s'.stopped;
  }

  lemma CallersTell(s: State, a: Action, c: nat)
    requires WillStop(s) && Do(s, a).Some?
    ensures var s' := Do(s, a).value; c in s'.callers && s'.callers[c].Telling? ==> Told(s', s'.callers[c].next)
  {
    if c in s.callers && s.callers[c].Telling? { ToldStays(s, a, s.callers[c].next); }
  }

  lemma HandlersTell(s: State, a: Action, i: nat)
    requires WillStop(s) && Do(s, a).Some?
    ensures var s' := Do(s, a).value;
      i < |s'.handlers| && s'.handlers[i].Telling? ==> Told(s', s'.handlers[i].next)
  {
    if i < |s.handlers| && s.handlers[i].Telling? { ToldStays(s, a, s.handlers[i].next); }
  }

  lemma StepSaysSo(s: State, a: Action)
    requires SaysSo(s) && Do(s, a).Some?
    ensures SaysSo(Do(s, a).value)
  {}

  lemma StepKeepsWillStop(s: State, a: Action)
    requires Locking(s) && Listed(s) && WillStop(s) && Do(s, a).Some?
    ensures WillStop(Do(s, a).value)
  {
    hide Do, Told, HasReturned, AllStopped, SaysSo;
    var s' := Do(s, a).value;
    StepSaysSo(s, a);
    forall c | c in s'.callers && s'.callers[c].Telling?
      ensures Told(s', s'.callers[c].next)
    {
      CallersTell(s, a, c);
    }
    forall i | 0 <= i < |s'.handlers| && s'.handlers[i].Telling?
      ensures Told(s', s'.handlers[i].next)
    {
      HandlersTell(s, a, i);
    }
    if HasReturned(s') {
      ReturnedStopped(s, a);
    }
  }

  lemma ReturnedStopped(s: State, a: Action)
    requires Locking(s) && Listed(s) && WillStop(s) && Do(s, a).Some? && HasReturned(Do(s, a).value)
    ensures AllStopped(Do(s, a).value)
  {
    hide Do, HasReturned, AllStopped, Locking, Listed;
    if HasReturned(s) {
      StaysStopped(s, a);
    } else {
      JustReturned(s, a);
      ToldAll(s);
      assert AllStopped(Do(s, a).value) by { SameStopped(s, Do(s, a).value); }
    }
  }

  lemma StaysStopped(s: State, a: Action)
    requires HasReturned(s) && SaysSo(s) && AllStopped(s) && Do(s, a).Some?
    ensures AllStopped(Do(s, a).value)
  {
    assert s.stopping;
  }

  /** The first to return has just told every loop in the list. */
  lemma JustReturned(s: State, a: Action)
    requires WillStop(s) && Do(s, a).Some? && !HasReturned(s) && HasReturned(Do(s, a).value)
    ensures Told(s, |s.loops|)
    ensures var s' := Do(s, a).value; s'.joining == s.joining && s'.stopped == s.stopped
  {
    hide Told, SaysSo, AllStopped;
    if a.thread.Main? {
      assert s.handlers[|s.handlers| - 1].Telling?;
    } else {
      assert a.thread.InCaller? && s.callers[a.thread.c].Telling?;
    }
    assert forall n: nat | Told(s, n) :: n <= |s.loops| by { ToldInside(s); }
  }

  lemma ToldInside(s: State)
    ensures forall n: nat | Told(s, n) :: n <= |s.loops|
  {}

  lemma SameStopped(s: State, s': State)
    requires AllStopped(s) && s'.joining == s.joining && s'.stopped == s.stopped
    ensures AllStopped(s')
  {}

  lemma StepKeepsOnlyWhenAsked(s: State, a: Action)
    requires Listed(s) && SaysSo(s) && OnlyWhenAsked(s) && Do(s, a).Some?
    ensures OnlyWhenAsked(Do(s, a).value)
  {
    StepKeepsCalled(s, a);
    StepStopsListed(s, a);
    StepStops(s, a);
  }

  lemma StepKeepsCalled(s: State, a: Action)
    requires (s.stopping ==> Called(s)) && Do(s, a).Some?
    ensures var s' := Do(s, a).value; s'.stopping ==> Called(s')
  {
    var s' := Do(s, a).value;
    assert a.Step? && a.thread.InCaller? ==> a.thread.c in s'.callers;
  }

  lemma StepStopsListed(s: State, a: Action)
    requires Listed(s) && (forall l | l in s.stopped :: l in s.loops) && Do(s, a).Some?
    ensures var s' := Do(s, a).value; forall l | l in s'.stopped :: l in s'.loops
  {
    hide Listed;
    if a.Step? && a.thread.InLoop? && a.thread.l in s.joining && s.joining[a.thread.l].Setting? {
      assert a.thread.l in s.loops by { ListedHas(s, a.thread.l); }
    }
  }

  lemma ListedHas(s: State, l: nat)
    requires Listed(s) && l in s.joining && s.joining[l].Setting?
    ensures l in s.loops
  {}

  lemma StepStops(s: State, a: Action)
    requires OnlyWhenAsked(s) && SaysSo(s) && Do(s, a).Some?
    ensures var s' := Do(s, a).value;
      && (s'.stopped != {} ==> s'.stopping)
      && forall l | l in s'.joining && s'.joining[l].Setting? :: s'.stopping
  {}

  lemma {:induction false} RunKeepsInv(run: seq<Action>)
    requires Exec(run).Some?
    ensures Inv(Exec(run).value)
  {
    hide Do, Locking, Listed, OnlyWhenAsked, SaysSo, Told, AllStopped;
    if run == [] {
      StartInv();
    } else {
      RunKeepsInv(run[..|run| - 1]);
      var s, a := Exec(run[..|run| - 1]).value, run[|run| - 1];
      StepKeepsLocking(s, a);
      StepKeepsListed(s, a);
      StepKeepsWillStop(s, a);
      StepKeepsOnlyWhenAsked(s, a);
    }
  }

  lemma StartInv()
    ensures Inv(START)
  {}

  // ---- Main results

  /** No stop is missed: once any call of `stop_all` has returned, every loop
      that joined, before or since, has its stop event set. */
  lemma NoStopIsMissed(run: seq<Action>, l: nat)
    requires Exec(run).Some?
    requires var s := Exec(run).value; HasReturned(s) && l in s.joining && s.joining[l].Joined?
    ensures l in Exec(run).value.stopped
  {
    hide Exec;
    RunKeepsInv(run);
  }

  /** And none is invented: without a call, no event is set. */
  lemma NoStopUnasked(run: seq<Action>)
    requires Exec(run).Some?
    requires !Called(Exec(run).value)
    ensures Exec(run).value.stopped == {}
  {
    hide Exec;
    RunKeepsInv(run);
  }

  // ---- When it can stand still

  /** Whether thread `t` has begun and not finished. */
  predicate Busy(s: State, t: Thread) {
    match t
    case Main => s.handlers != []
    case InCaller(c) => c in s.callers && !s.callers[c].Returned?
    case InLoop(l) => l in s.joining && !s.joining[l].Joined?
  }

  predicate InsideAny(at: Caller) {
    Inside(at, OfEvent) || Inside(at, OfLoops)
  }

  /** A handler was interrupted inside a `with`: the lock is the main thread's own,
      and the handlers after it will want it. */
  ghost predicate SelfLocked(s: State) {
    exists i :: 0 <= i < |s.handlers| - 1 && InsideAny(s.handlers[i])
  }

  predicate TopInside(s: State) {
    s.handlers != [] && InsideAny(s.handlers[|s.handlers| - 1])
  }

  /** At `i` a signal arrives while the handler that is running holds a lock. */
  ghost predicate Interrupts(run: seq<Action>, i: nat) {
    i < |run| && run[i] == Signal && Exec(run[..i]).Some? && TopInside(Exec(run[..i]).value)
  }

  lemma StepSelfLocks(s: State, a: Action)
    requires Locking(s) && Do(s, a).Some?
    ensures SelfLocked(Do(s, a).value) <==> SelfLocked(s) || (a == Signal && TopInside(s))
    ensures SelfLocked(s) ==> Do(s, a).value.handled == s.handled && |Do(s, a).value.handlers| >= |s.handlers|
  {
    hide Inside;
    var s' := Do(s, a).value;
    if SelfLocked(s) {
      var i :| 0 <= i < |s.handlers| - 1 && InsideAny(s.handlers[i]);
      LowerStays(s, a, i);
      assert InsideAny(s'.handlers[i]);
    }
    if SelfLocked(s') {
      var i :| 0 <= i < |s'.handlers| - 1 && InsideAny(s'.handlers[i]);
      assert s'.handlers[i] == s.handlers[i];
    }
    if a == Signal && TopInside(s) {
      assert InsideAny(s'.handlers[|s.handlers| - 1]);
    }
  }

  /** The handlers that one inside a `with` was interrupted by never return. */
  lemma LowerStays(s: State, a: Action, i: nat)
    requires Locking(s) && Do(s, a).Some? && i < |s.handlers| - 1 && InsideAny(s.handlers[i])
    ensures var s' := Do(s, a).value;
      |s'.handlers| >= |s.handlers| && s'.handlers[i] == s.handlers[i] && s'.handled == s.handled
  {
    assert HoldsRight(s, Main, OfEvent) && HoldsRight(s, Main, OfLoops);
    assert !s.handlers[|s.handlers| - 1].Telling?;
  }

  lemma InterruptsEarlier(run: seq<Action>, i: nat)
    requires run != [] && i < |run| - 1
    ensures Interrupts(run, i) <==> Interrupts(run[..|run| - 1], i)
  {
    assert run[..i] == run[..|run| - 1][..i];
  }

  lemma InterruptsInside(run: seq<Action>, i: nat)
    ensures Interrupts(run, i) ==> i < |run|
  {}

  lemma InterruptsNow(run: seq<Action>)
    requires run != [] && Exec(run[..|run| - 1]).Some?
    ensures Interrupts(run, |run| - 1) <==> run[|run| - 1] == Signal && TopInside(Exec(run[..|run| - 1]).value)
  {}

  /** The main thread locks itself out exactly when a signal arrives while a
      handler holds a lock, the event's or that of the loops. */
  lemma {:induction false} SelfLockedWhen(run: seq<Action>)
    requires Exec(run).Some?
    ensures SelfLocked(Exec(run).value) <==> exists i: nat :: Interrupts(run, i)
  {
    hide Do, Inv, SelfLocked, Interrupts, TopInside;
    if run == [] {
      NotYetLocked();
    } else {
      var before, n := run[..|run| - 1], |run| - 1;
      SelfLockedWhen(before);
      LocksOut(before, run[n]);
      InterruptsNow(run);
      forall i: nat
        ensures Interrupts(run, i) <==> Interrupts(before, i) || (i == n && Interrupts(run, n))
      {
        InterruptsInside(run, i);
        InterruptsInside(before, i);
        if i < n { InterruptsEarlier(run, i); }
      }
    }
  }

  lemma NotYetLocked()
    ensures Exec([]) == Some(START) && !SelfLocked(START)
    ensures forall i: nat :: !Interrupts([], i)
  {}

  lemma LocksOut(before: seq<Action>, a: Action)
    requires Exec(before).Some? && Do(Exec(before).value, a).Some?
    ensures var s := Exec(before).value; var s' := Do(s, a).value;
      && (SelfLocked(s') <==> SelfLocked(s) || (a == Signal && TopInside(s)))
      && (SelfLocked(s) ==> s'.handled == s.handled && |s'.handlers| >= |s.handlers|)
  {
    RunKeepsInv(before);
    hide Exec, Do, SelfLocked;
    StepSelfLocks(Exec(before).value, a);
  }

  /** From then on no handler ever returns, whatever anyone does. */
  lemma {:induction false} SelfLockedForEver(run: seq<Action>, more: seq<Action>)
    requires Exec(run).Some? && SelfLocked(Exec(run).value) && Exec(run + more).Some?
    ensures var s, s' := Exec(run).value, Exec(run + more).value;
      SelfLocked(s') && s'.handled == s.handled && |s'.handlers| >= |s.handlers|
    decreases |more|
  {
    hide Do, SelfLocked, TopInside;
    if more == [] {
      assert run + more == run;
    } else {
      var all, before := run + more, run + more[..|more| - 1];
      assert all[..|all| - 1] == before;
      SelfLockedForEver(run, more[..|more| - 1]);
      LocksOut(before, all[|all| - 1]);
    }
  }

  /** Such as a second signal while the first handler sets the event: it waits
      for the lock that the first one holds. */
  lemma SecondSignalCanLock()
    ensures var run := [Signal, Step(Main), Signal];
      Exec(run).Some? && SelfLocked(Exec(run).value) && Do(Exec(run).value, Step(Main)).None?
  {
    var one, two, three := [Signal], [Signal, Step(Main)], [Signal, Step(Main), Signal];
    assert one[..0] == [] && two[..1] == one && three[..2] == two;
    var s := START.(handlers := [Asking]);
    assert START.handlers + [Asking] == [Asking] && [Asking][0 := Raising] == [Raising];
    assert Exec(one) == Some(s);
    assert Exec(two) == Some(s.(setting := Some(Main), handlers := [Raising]));
    assert Exec(three).value.handlers[0] == Raising;
  }

  /** Otherwise there is no deadlock: while a thread is busy, it or one that holds
      a lock has a step. */
  lemma NoDeadlock(run: seq<Action>, t: Thread) returns (u: Thread)
    requires Exec(run).Some? && Busy(Exec(run).value, t)
    requires forall i: nat :: !Interrupts(run, i)
    ensures Busy(Exec(run).value, u) && Do(Exec(run).value, Step(u)).Some?
    ensures u == t || Holds(Exec(run).value, u, OfEvent) || Holds(Exec(run).value, u, OfLoops)
  {
    SelfLockedWhen(run);
    RunKeepsInv(run);
    hide Exec, Interrupts, WillStop, OnlyWhenAsked, Listed;
    var s := Exec(run).value;
    u := t;
    if Do(s, Step(t)).None? {
      var k := WaitsFor(s, t);
      u := Owner(s, k).value;
      assert HoldsRight(s, u, k);
      HolderMoves(s, u, k);
    }
  }

  lemma WaitsFor(s: State, t: Thread) returns (k: Lock)
    requires HandlersInOrder(s) && Busy(s, t) && Do(s, Step(t)).None?
    ensures Owner(s, k).Some?
  {
    k := if s.setting.Some? then OfEvent else OfLoops;
  }

  lemma HolderMoves(s: State, u: Thread, k: Lock)
    requires HandlersInOrder(s) && Holds(s, u, k) && !SelfLocked(s)
    ensures Busy(s, u) && Do(s, Step(u)).Some?
  {
    if u.Main? {
      var i :| 0 <= i < |s.handlers| && Inside(s.handlers[i], k);
      assert InsideAny(s.handlers[i]) && i == |s.handlers| - 1;
    }
  }

  /** How many steps a call still has to take. */
  function CallLeft(s: State, at: Caller): nat {
    match at
    case Asking => |s.loops| + 5
    case Raising => |s.loops| + 4
    case Raised => |s.loops| + 3
    case Waiting => |s.loops| + 2
    case Telling(next) => if next < |s.loops| then |s.loops| - next + 1 else 1
    case Returned => 0
  }

  /** How many steps `t` still has to take for what it is doing. */
  function StepsOf(s: State, t: Thread): nat {
    match t
    case Main => if s.handlers == [] then 0 else CallLeft(s, s.handlers[|s.handlers| - 1])
    case InCaller(c) => if c !in s.callers then 0 else CallLeft(s, s.callers[c])
    case InLoop(l) =>
      if l !in s.joining then 0
      else (match s.joining[l]
        case Entering => 5
        case Locked => 4
        case Added => 3
        case Checking => 2
        case Setting => 1
        case Joined => 0)
  }

  lemma OwnStep(s: State, t: Thread)
    requires HandlersInOrder(s) && Busy(s, t) && Do(s, Step(t)).Some?
    ensures var s' := Do(s, Step(t)).value;
      StepsOf(s', t) < StepsOf(s, t) || (t.Main? && |s'.handlers| < |s.handlers|)
  {}

  lemma OthersStep(s: State, t: Thread, u: Thread)
    requires HoldsRight(s, t, OfLoops) && HoldsRight(s, u, OfLoops) && Holds(s, t, OfLoops) && u != t
    requires Do(s, Step(u)).Some?
    ensures StepsOf(Do(s, Step(u)).value, t) == StepsOf(s, t)
  {
    hide Holds, Do;
    assert !Holds(s, u, OfLoops);
    OnlyHolderAdds(s, u);
    OnlyItsOwn(s, t, u);
  }

  /** A thread's step moves no other. */
  lemma OnlyItsOwn(s: State, t: Thread, u: Thread)
    requires u != t && Do(s, Step(u)).Some?
    ensures var s' := Do(s, Step(u)).value;
      match t
      case Main => s'.handlers == s.handlers
      case InCaller(c) => (c in s'.callers <==> c in s.callers) && (c in s.callers ==> s'.callers[c] == s.callers[c])
      case InLoop(l) => (l in s'.joining <==> l in s.joining) && (l in s.joining ==> s'.joining[l] == s.joining[l])
  {}

  lemma OnlyHolderAdds(s: State, u: Thread)
    requires Do(s, Step(u)).Some? && !Holds(s, u, OfLoops)
    ensures Do(s, Step(u)).value.loops == s.loops
  {}

  /** Its own steps get it there, the main thread's to the end of the handler that
      is running; and while it holds the loops' lock nobody else's take it further
      away. */
  lemma StepsGetThere(run: seq<Action>, t: Thread, u: Thread)
    requires Exec(run).Some? && Busy(Exec(run).value, t) && Do(Exec(run).value, Step(u)).Some?
    ensures var s := Exec(run).value; var s' := Do(s, Step(u)).value;
      && (u == t ==> StepsOf(s', t) < StepsOf(s, t) || (t.Main? && |s'.handlers| < |s.handlers|))
      && (u != t && Holds(s, t, OfLoops) ==> StepsOf(s', t) == StepsOf(s, t))
  {
    RunKeepsInv(run);
    var s := Exec(run).value;
    assert HoldsRight(s, t, OfLoops) && HoldsRight(s, u, OfLoops);
    hide Exec, Do, StepsOf, Holds, HoldsRight;
    if u == t {
      OwnStep(s, t);
    } else if Holds(s, t, OfLoops) {
      OthersStep(s, t, u);
    }
  }
}
