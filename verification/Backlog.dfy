/** Backpressure between Python, which sends, and the Rust thread, which takes
    (src/server.rs:63-132, 470-523; src/websocket.rs:103-108, 230-235, 294-304;
    korvex/_serve.py:214-248).
    Every atomic operation is a step of its own, in any interleaving. */
module Backlog {
  import opened Wrappers

  const HIGH_WATER := 1_048_576  // 1 MiB
  const LOW_WATER := 262_144     // a quarter of it

  // ---- The two threads

  /** Where Python is in `send_chunk`, `n` being the chunk's size. */
  datatype Sender =
    | Idle
    | Over(n: nat)                  // counted past HIGH_WATER, about to store `waiting`
    | Stored(n: nat)                // about to load `bytes`
    | Low(n: nat)                   // loaded at most LOW_WATER, about to swap `waiting`
    | Sending(n: nat, wait: bool)   // `add` returned WAIT (or SENT), about to queue the chunk
    | Waiting                       // awaiting a Writable event
    | Gone(wait: bool)              // the channel is closed

  /** Where the Rust side is. */
  datatype Taker =
    | Ready
    | Received(n: nat)   // took a chunk off the channel, about to subtract it
    | Swapping           // down to LOW_WATER, about to swap `waiting`
    | Pushing            // swapped it, about to push a Writable
    | LastSwap           // leaving: about to swap `waiting` for the last time
    | LastPush
    | LastClose          // leaving, woke first: about to close the channel
    | Done

  datatype State = State(
    bytes: int, waiting: bool, channel: seq<nat>, open: bool,
    sender: Sender, taker: Taker,
    events: nat,   // Writable events pushed and not delivered yet
    pushed: nat,   // Writable events ever pushed
    waits: nat)    // adds that returned WAIT

  const START := State(0, false, [], true, Idle, Ready, 0, 0, 0)

  /** How the Rust side leaves: the WebSocket relay closes the channel, then
      wakes; a streamed body wakes as it is dropped, and its receiver closes
      after that; a handshake whose upgrade fails only closes. */
  datatype Exit = CloseThenWake | WakeThenClose | CloseOnly

  datatype Config = Config(cap: nat, exit: Exit)

  datatype Action = Add(n: nat) | SenderStep | Deliver | Take | TakerStep | Leave

  // ---- Steps

  function DoSender(s: State): Option<State> {
    match s.sender
    case Over(n) => Some(s.(waiting := true, sender := Stored(n)))
    case Stored(n) =>
      if s.bytes <= LOW_WATER then Some(s.(sender := Low(n)))
      else Some(s.(sender := Sending(n, true), waits := s.waits + 1))
    case Low(n) =>
      if s.waiting then Some(s.(waiting := false, sender := Sending(n, false)))
      else Some(s.(sender := Sending(n, true), waits := s.waits + 1))
    case Sending(n, wait) =>
      if !s.open then Some(s.(sender := Gone(wait)))
      else Some(s.(channel := s.channel + [n], sender := if wait then Waiting else Idle))
    case _ => None
  }

  function Swap(s: State, woken: Taker, other: Taker): State {
    if s.waiting then s.(waiting := false, taker := woken) else s.(taker := other)
  }

  function Push(s: State, next: Taker): State {
    s.(events := s.events + 1, pushed := s.pushed + 1, taker := next)
  }

  function Close(s: State, next: Taker): State {
    s.(open := false, channel := [], taker := next)
  }

  function DoTaker(s: State, cfg: Config): Option<State> {
    match s.taker
    case Received(n) =>
      var now := if s.bytes >= n then s.bytes - n else 0;
      Some(s.(bytes := s.bytes - n, taker := if now <= LOW_WATER then Swapping else Ready))
    case Swapping => Some(Swap(s, Pushing, Ready))
    case Pushing => Some(Push(s, Ready))
    case LastSwap => Some(Swap(s, LastPush, if cfg.exit.CloseThenWake? then Done else LastClose))
    case LastPush => Some(Push(s, if cfg.exit.CloseThenWake? then Done else LastClose))
    case LastClose => Some(Close(s, Done))
    case _ => None
  }

  function Do(s: State, a: Action, cfg: Config): Option<State> {
    match a
    case Add(n) =>
      if s.sender != Idle || n > cfg.cap then None
      else
        var now := s.bytes + n;
        Some(s.(bytes := now, sender := if now <= HIGH_WATER then Sending(n, false) else Over(n)))
    case SenderStep => DoSender(s)
    case Deliver =>
      // The loop takes events between Python's steps, not inside `send_chunk`;
      // one for which no future waits is dropped.
      if s.events == 0 || !(s.sender.Idle? || s.sender.Waiting? || s.sender.Gone?) then None
      else Some(s.(events := s.events - 1, sender := if s.sender == Waiting then Idle else s.sender))
    case Take =>
      // A relay whose handshake fails never starts.
      if s.taker == Ready && s.channel != [] && !cfg.exit.CloseOnly? then Some(s.(channel := s.channel[1..], taker := Received(s.channel[0]))) else None
    case TakerStep => DoTaker(s, cfg)
    case Leave =>
      // The relay also leaves with a chunk it could not write.
      if s.taker == Ready || (cfg.exit.CloseThenWake? && s.taker.Received?) then
        match cfg.exit
        case CloseThenWake => Some(Close(s, LastSwap))
        case WakeThenClose => Some(s.(taker := LastSwap))
        case CloseOnly => Some(Close(s, Done))
      else None
  }

  /** The state after a run of actions, if each was possible. */
  function Exec(s: State, run: seq<Action>, cfg: Config): Option<State> {
    if run == [] then Some(s)
    else
      match Exec(s, run[..|run| - 1], cfg)
      case None => None
      case Some(t) => Do(t, run[|run| - 1], cfg)
  }

  // ---- What every step keeps

  function Sum(ns: seq<nat>): nat {
    if ns == [] then 0 else ns[0] + Sum(ns[1..])
  }

  lemma {:induction false} SumAppend(ns: seq<nat>, n: nat)
    ensures Sum(ns + [n]) == Sum(ns) + n
  {
    if ns == [] {
      assert (ns + [n])[1..] == [];
    } else {
      assert (ns + [n])[1..] == ns[1..] + [n];
      SumAppend(ns[1..], n);
    }
  }

  /** Counted by the sender, not on the channel yet. */
  function Counted(p: Sender): nat {
    if p.Over? || p.Stored? || p.Low? || p.Sending? then p.n else 0
  }

  function Taken(t: Taker): nat {
    if t.Received? then t.n else 0
  }

  /** While the channel is open, no byte is lost or counted twice. */
  ghost predicate Conserved(s: State) {
    s.open ==> s.bytes == Sum(s.channel) + Counted(s.sender) + Taken(s.taker)
  }

  /** Whether a wake-up is owed for the add in progress or just done. */
  function Owed(p: Sender): nat {
    if p.Stored? || p.Low? || p.Waiting? || (p.Sending? && p.wait) || (p.Gone? && p.wait) then 1 else 0
  }

  /** Wake-ups on their way: a raised flag, a push under way, an event. */
  function Coming(s: State): nat {
    s.events + AboutToPush(s.taker) + (if s.waiting then 1 else 0)
  }

  function AboutToPush(t: Taker): nat {
    if t.Pushing? || t.LastPush? then 1 else 0
  }

  /** One wake-up per WAIT, and none without, as long as Python still listens. */
  ghost predicate OneWakeUp(s: State) {
    && (if s.sender.Gone? then Coming(s) <= Owed(s.sender) else Coming(s) == Owed(s.sender))
    && s.waits + (if s.sender.Stored? || s.sender.Low? then 1 else 0)
       == s.pushed + AboutToPush(s.taker) + (if s.waiting then 1 else 0)
  }

  /** Past its last look at `bytes`. */
  predicate Committed(p: Sender) {
    p.Waiting? || (p.Sending? && p.wait)
  }

  /** A raised flag will be seen: the taker is about to look, or has enough left to take. */
  ghost predicate WillBeSeen(s: State, cfg: Config) {
    && (s.open && s.waiting && Committed(s.sender) && !s.taker.LastClose? ==>
          s.taker.Swapping? || s.taker.LastSwap? || s.bytes > LOW_WATER)
    && (cfg.exit.CloseThenWake? && s.waiting && s.sender.Waiting? && !s.open ==> s.taker.LastSwap?)
    && (cfg.exit.CloseThenWake? ==> !s.taker.LastClose? && (s.open <==> !(s.taker.LastSwap? || s.taker.LastPush? || s.taker.Done?)))
    && (!cfg.exit.CloseThenWake? ==> (s.open <==> !s.taker.Done?))
    && (s.sender.Gone? ==> !s.open)
  }

  ghost predicate Inv(s: State, cfg: Config) {
    Conserved(s) && OneWakeUp(s) && WillBeSeen(s, cfg)
  }

  lemma StepConserves(s: State, a: Action, cfg: Config)
    requires Conserved(s) && Do(s, a, cfg).Some?
    ensures Conserved(Do(s, a, cfg).value)
  {
    if a.SenderStep? && s.sender.Sending? {
      SumAppend(s.channel, s.sender.n);
    }
  }

  lemma StepKeepsOneWakeUp(s: State, a: Action, cfg: Config)
    requires OneWakeUp(s) && WillBeSeen(s, cfg) && Do(s, a, cfg).Some?
    ensures OneWakeUp(Do(s, a, cfg).value)
  {}

  lemma StepKeepsWillBeSeen(s: State, a: Action, cfg: Config)
    requires OneWakeUp(s) && WillBeSeen(s, cfg) && Conserved(s) && Do(s, a, cfg).Some?
    ensures WillBeSeen(Do(s, a, cfg).value, cfg)
  {}

  lemma StepKeepsInv(s: State, a: Action, cfg: Config)
    requires Inv(s, cfg) && Do(s, a, cfg).Some?
    ensures Inv(Do(s, a, cfg).value, cfg)
  {
    hide Do, Conserved, OneWakeUp, WillBeSeen;
    StepConserves(s, a, cfg);
    StepKeepsOneWakeUp(s, a, cfg);
    StepKeepsWillBeSeen(s, a, cfg);
  }

  lemma {:induction false} RunKeepsInv(run: seq<Action>, cfg: Config)
    requires Exec(START, run, cfg).Some?
    ensures Inv(Exec(START, run, cfg).value, cfg)
  {
    hide Inv, Do;
    if run == [] {
      assert Inv(START, cfg) by { StartInv(START, cfg); }
    } else {
      RunKeepsInv(run[..|run| - 1], cfg);
      StepKeepsInv(Exec(START, run[..|run| - 1], cfg).value, run[|run| - 1], cfg);
    }
  }

  lemma StartInv(s: State, cfg: Config)
    requires s.channel == [] && s.bytes == 0 && s.open && s.sender == Idle && s.taker == Ready
    requires !s.waiting && s.events == s.pushed == s.waits == 0
    ensures Inv(s, cfg)
  {}

  // ---- The chunks themselves

  /** The chunks queued so far, and those taken off the channel. */
  function SentIn(run: seq<Action>, cfg: Config): seq<nat> {
    if run == [] then []
    else
      var before := run[..|run| - 1];
      SentIn(before, cfg) + match Exec(START, before, cfg)
        case Some(s) => if run[|run| - 1] == SenderStep && s.sender.Sending? && s.open then [s.sender.n] else []
        case None => []
  }

  function TakenIn(run: seq<Action>, cfg: Config): seq<nat> {
    if run == [] then []
    else
      TakenIn(run[..|run| - 1], cfg) + match Exec(START, run, cfg)
        case Some(s) => if run[|run| - 1] == Take && s.taker.Received? then [s.taker.n] else []
        case None => []
  }

  /** Chunks are taken in the order they were sent, each once, and while the channel
      is open the others are still in it. */
  lemma {:induction false} ChunksInOrder(run: seq<Action>, cfg: Config)
    requires Exec(START, run, cfg).Some?
    ensures var s := Exec(START, run, cfg).value;
      if s.open then TakenIn(run, cfg) + s.channel == SentIn(run, cfg) else TakenIn(run, cfg) <= SentIn(run, cfg)
    ensures !Exec(START, run, cfg).value.open ==> Exec(START, run, cfg).value.channel == []
  {
    hide Do;
    if run != [] {
      var before, a := run[..|run| - 1], run[|run| - 1];
      ChunksInOrder(before, cfg);
      var s, s' := Exec(START, before, cfg).value, Exec(START, run, cfg).value;
      OneChunk(s, a, cfg);
      MoreInOrder(TakenIn(before, cfg), s.channel, SentIn(before, cfg), if s'.taker.Received? then s'.taker.n else 0, s'.channel);
    }
  }

  lemma MoreInOrder(taken: seq<nat>, channel: seq<nat>, sent: seq<nat>, n: nat, rest: seq<nat>)
    ensures channel == [n] + rest && taken + channel == sent ==> taken + [n] + rest == sent
    ensures forall m: nat :: taken + channel == sent ==> taken + (channel + [m]) == sent + [m]
  {}

  lemma OneChunk(s: State, a: Action, cfg: Config)
    requires Do(s, a, cfg).Some? && (!s.open ==> s.channel == [])
    ensures var s' := Do(s, a, cfg).value;
      && (s'.open ==> s.open) && (!s'.open ==> s'.channel == [])
      && (a == Take ==> s'.taker.Received? && s.channel == [s'.taker.n] + s'.channel && s.open)
      && (a == SenderStep && s.sender.Sending? && s.open ==> s'.open && s'.channel == s.channel + [s.sender.n])
      && (a != Take && !(a == SenderStep && s.sender.Sending? && s.open) && s'.open ==> s'.channel == s.channel)
  {
    if a == Take { assert s.channel == [s.channel[0]] + s.channel[1..]; }
  }

  // ---- Main results

  /** In every interleaving, while the channel is open the counter is exactly
      what is queued, counted but not sent, and received but not subtracted;
      so a subtraction never goes below zero. */
  lemma BytesAreConserved(run: seq<Action>, cfg: Config)
    requires Exec(START, run, cfg).Some? && Exec(START, run, cfg).value.open
    ensures var s := Exec(START, run, cfg).value;
      && s.bytes == Sum(s.channel) + Counted(s.sender) + Taken(s.taker)
      && (s.taker.Received? ==> s.bytes >= s.taker.n)
  {
    hide Exec;
    RunKeepsInv(run, cfg);
  }

  /** Every add that returned WAIT is matched by exactly one Writable, and none
      is pushed for one that returned SENT: when the sender can send again they
      are all pushed and delivered, while it waits exactly one is missing or on
      its way. */
  lemma WaitsAreMatched(run: seq<Action>, cfg: Config)
    requires Exec(START, run, cfg).Some?
    ensures var s := Exec(START, run, cfg).value;
      && (s.sender.Idle? ==> s.pushed == s.waits && s.events == 0 && !s.waiting && AboutToPush(s.taker) == 0)
      && (s.sender.Waiting? ==> s.waits == s.pushed + 1 - s.events && s.events <= 1)
      && (s.sender.Waiting? && s.events == 0 ==> (s.waiting <==> AboutToPush(s.taker) == 0))
  {
    hide Exec;
    RunKeepsInv(run, cfg);
  }

  /** No `Writable` is dropped while anybody wants it: one that the loop takes
      finds its future waiting, unless the client is gone and Python knows. */
  lemma WakeUpsFindTheirFuture(run: seq<Action>, cfg: Config)
    requires Exec(START, run, cfg).Some? && Do(Exec(START, run, cfg).value, Deliver, cfg).Some?
    ensures var s := Exec(START, run, cfg).value;
      !s.sender.Gone? ==> s.sender == Waiting && Do(s, Deliver, cfg).value.sender == Idle
  {
    hide Exec;
    RunKeepsInv(run, cfg);
  }

  /** Someone still serves the channel: the relay of a WebSocket, to its last
      wake, or the body of a stream, as long as its client is connected. */
  predicate Served(s: State, cfg: Config) {
    cfg.exit.CloseThenWake? || (cfg.exit.WakeThenClose? && s.open && !Leaving(s))
  }

  /** Woke for the last time but still open, the way a dropped body leaves. */
  predicate Leaving(s: State) {
    s.taker.LastSwap? || s.taker.LastPush? || s.taker.LastClose?
  }

  /** A waiting sender is never forgotten, streams and WebSockets alike: a
      Writable is queued or about to be pushed, the taker is about to look at
      the flag, or there is more than LOW_WATER left to take. */
  lemma WaitingIsNeverForgotten(run: seq<Action>, cfg: Config)
    requires Exec(START, run, cfg).Some? && Exec(START, run, cfg).value.sender.Waiting?
    requires Served(Exec(START, run, cfg).value, cfg)
    ensures var s := Exec(START, run, cfg).value;
      || s.events > 0
      || s.taker.Pushing? || s.taker.LastPush?
      || s.taker.Swapping? || s.taker.LastSwap?
      || (s.open && Sum(s.channel) + Taken(s.taker) > LOW_WATER)
  {
    hide Exec;
    RunKeepsInv(run, cfg);
  }

  /** While the stream goes on, a wake-up is on its way only from when at most a
      quarter of HIGH_WATER is left. */
  lemma WokenWhenLow(s: State, a: Action, cfg: Config)
    requires Do(s, a, cfg).Some?
    ensures var s' := Do(s, a, cfg).value;
      && (s'.taker.Swapping? && !s.taker.Swapping? ==> 4 * s'.bytes <= HIGH_WATER)
      && (s'.taker.Pushing? && !s.taker.Pushing? ==> s.taker.Swapping? && s.waiting)
      && (s'.pushed > s.pushed ==> s.taker.Pushing? || s.taker.LastPush?)
  {}

  // ---- The taker alone wakes a waiting sender

  /** The taker's next step, as long as it does not leave. */
  function TakerNext(s: State, cfg: Config): Option<State> {
    if s.taker == Ready then Do(s, Take, cfg) else DoTaker(s, cfg)
  }

  function StepsLeft(s: State): nat {
    4 * |s.channel| + match s.taker
      case Received(_) => 3
      case Swapping => 2
      case LastSwap => 2
      case Pushing => 1
      case LastPush => 1
      case LastClose => 0
      case Ready => 0
      case Done => 0
  }

  function TakerRun(s: State, steps: nat, cfg: Config): Option<State>
    decreases steps
  {
    if steps == 0 then Some(s)
    else match TakerNext(s, cfg) case None => None case Some(t) => TakerRun(t, steps - 1, cfg)
  }

  lemma TakerNextIs(s: State, cfg: Config)
    requires Inv(s, cfg) && Served(s, cfg) && s.sender.Waiting? && s.events == 0
    ensures TakerNext(s, cfg).Some?
    ensures var t := TakerNext(s, cfg).value;
      Inv(t, cfg) && Served(t, cfg) && t.sender.Waiting? && (t.events > 0 || StepsLeft(t) < StepsLeft(s))
  {
    assert s.taker == Ready ==> s.channel != [];
    StepKeepsInv(s, if s.taker == Ready then Take else TakerStep, cfg);
  }

  /** From any reachable state in which Python waits, the Rust side going on
      alone, without the sender, pushes its Writable in a bounded number of steps. */
  lemma {:induction false} WaitingIsWoken(s: State, cfg: Config) returns (steps: nat)
    requires Inv(s, cfg) && Served(s, cfg) && s.sender.Waiting?
    ensures steps <= StepsLeft(s) + 1
    ensures TakerRun(s, steps, cfg).Some? && TakerRun(s, steps, cfg).value.events > 0
    decreases StepsLeft(s)
  {
    hide Inv, Served, TakerNext, StepsLeft;
    if s.events > 0 {
      steps := 0;
    } else {
      TakerNextIs(s, cfg);
      var t := TakerNext(s, cfg).value;
      if t.events > 0 {
        steps := 1;
        assert TakerRun(t, 0, cfg) == Some(t);
      } else {
        var rest := WaitingIsWoken(t, cfg);
        steps := rest + 1;
      }
    }
  }

  // ---- How much can pile up

  /** Room for one more chunk, unless the taker is about to act on an old count. */
  ghost predicate RoomForOne(s: State, cap: nat) {
    s.bytes <= HIGH_WATER || (s.bytes <= HIGH_WATER + cap && !s.taker.Swapping?)
  }

  ghost predicate Bounded(s: State, cap: nat) {
    s.bytes <= HIGH_WATER + 2 * cap && (s.taker.Swapping? ==> s.bytes <= HIGH_WATER + cap)
  }

  ghost predicate BoundInv(s: State, cap: nat) {
    s.open ==>
      if s.taker.LastPush? || s.taker.LastClose? then LateBound(s, cap)
      else
        match s.sender
        case Idle => RoomForOne(s, cap)
        case Over(_) => Bounded(s, cap)
        case Low(_) => s.bytes <= LOW_WATER
        case Sending(_, false) => s.bytes <= HIGH_WATER
        case Gone(_) => true
        case _ => if s.waiting then Bounded(s, cap) else RoomForOne(s, cap)
  }

  /** Once a body has woken for the last time: there may be one chunk more. */
  ghost predicate LateBound(s: State, cap: nat) {
    match s.sender
    case Idle => s.bytes <= HIGH_WATER + 2 * cap
    case Over(_) => s.bytes <= HIGH_WATER + 3 * cap
    case Low(_) => s.bytes <= LOW_WATER
    case Sending(_, false) => s.bytes <= HIGH_WATER
    case Gone(_) => true
    case _ => s.bytes <= HIGH_WATER + (if s.waiting then 3 else 2) * cap
  }

  lemma StepKeepsBound(s: State, a: Action, cfg: Config)
    requires Inv(s, cfg) && BoundInv(s, cfg.cap) && Do(s, a, cfg).Some?
    ensures BoundInv(Do(s, a, cfg).value, cfg.cap)
  {}

  lemma {:induction false} RunKeepsBound(run: seq<Action>, cfg: Config)
    requires Exec(START, run, cfg).Some?
    ensures BoundInv(Exec(START, run, cfg).value, cfg.cap)
  {
    hide Inv, BoundInv, Do;
    if run == [] {
      assert BoundInv(START, cfg.cap) by { StartBound(cfg.cap); }
    } else {
      RunKeepsBound(run[..|run| - 1], cfg);
      RunKeepsInv(run[..|run| - 1], cfg);
      StepKeepsBound(Exec(START, run[..|run| - 1], cfg).value, run[|run| - 1], cfg);
    }
  }

  lemma StartBound(cap: nat)
    ensures BoundInv(START, cap)
  {}

  /** With chunks of at most `cap` bytes, at most HIGH_WATER plus two of them
      pile up, in any interleaving, and three once a dropped body has woken for
      the last time. */
  lemma PileIsBounded(run: seq<Action>, cfg: Config)
    requires Exec(START, run, cfg).Some? && Exec(START, run, cfg).value.open
    ensures var s := Exec(START, run, cfg).value;
      s.bytes <= HIGH_WATER + (if s.taker.LastPush? || s.taker.LastClose? then 3 else 2) * cfg.cap
  {
    hide Exec;
    RunKeepsInv(run, cfg);
    RunKeepsBound(run, cfg);
  }

  /** A run that wakes the sender on a count taken long before. */
  function StaleRun(cap: nat): seq<Action> {
    [Add(1), SenderStep, Take, TakerStep,          // the taker: 0 bytes left, about to swap
     Add(HIGH_WATER), SenderStep,                  // SENT
     Add(cap), SenderStep, SenderStep, SenderStep, // WAIT
     TakerStep, TakerStep, Deliver,                // the old swap wakes it all the same
     Add(cap)]
  }

  /** Two chunks, not one: the bound is reached. */
  lemma BoundIsReached()
    ensures var cfg := Config(HIGH_WATER, CloseThenWake);
      Exec(START, StaleRun(cfg.cap), cfg).Some? && Exec(START, StaleRun(cfg.cap), cfg).value.bytes == HIGH_WATER + 2 * cfg.cap
  {
    StaleRunIs(Config(HIGH_WATER, CloseThenWake));
  }

  lemma StaleRunIs(cfg: Config)
    requires cfg.cap == HIGH_WATER && !cfg.exit.CloseOnly?
    ensures var n := HIGH_WATER;
      Exec(START, StaleRun(n), cfg) == Some(State(3 * n, false, [n, n], true, Over(n), Ready, 0, 1, 1))
  {
    var n := HIGH_WATER;
    var r := StaleRun(n);
    var states := [
      START,
      State(1, false, [], true, Sending(1, false), Ready, 0, 0, 0),
      State(1, false, [1], true, Idle, Ready, 0, 0, 0),
      State(1, false, [], true, Idle, Received(1), 0, 0, 0),
      State(0, false, [], true, Idle, Swapping, 0, 0, 0),
      State(n, false, [], true, Sending(n, false), Swapping, 0, 0, 0),
      State(n, false, [n], true, Idle, Swapping, 0, 0, 0),
      State(2 * n, false, [n], true, Over(n), Swapping, 0, 0, 0),
      State(2 * n, true, [n], true, Stored(n), Swapping, 0, 0, 0),
      State(2 * n, true, [n], true, Sending(n, true), Swapping, 0, 0, 1),
      State(2 * n, true, [n, n], true, Waiting, Swapping, 0, 0, 1),
      State(2 * n, false, [n, n], true, Waiting, Pushing, 0, 0, 1),
      State(2 * n, false, [n, n], true, Waiting, Ready, 1, 1, 1),
      State(2 * n, false, [n, n], true, Idle, Ready, 0, 1, 1),
      State(3 * n, false, [n, n], true, Over(n), Ready, 0, 1, 1)];
    assert [] + [1] == [1] && [1][1..] == [] && [] + [n] == [n] && [n] + [n] == [n, n];
    StepsExec(r, states, cfg);
  }

  /** The same, and then the last wake of a dropped body lets one more in. */
  function LateRun(cap: nat): seq<Action> {
    StaleRun(cap) + [SenderStep, SenderStep, SenderStep, Leave, TakerStep, TakerStep, Deliver, Add(cap)]
  }

  lemma LateBoundIsReached()
    ensures var cfg := Config(HIGH_WATER, WakeThenClose);
      && Exec(START, LateRun(cfg.cap), cfg).Some?
      && Exec(START, LateRun(cfg.cap), cfg).value.open
      && Exec(START, LateRun(cfg.cap), cfg).value.bytes == HIGH_WATER + 3 * cfg.cap
  {
    var cfg := Config(HIGH_WATER, WakeThenClose);
    var n := HIGH_WATER;
    var s := State(3 * n, false, [n, n], true, Over(n), Ready, 0, 1, 1);
    StaleRunIs(cfg);
    var states := [
      s,
      State(3 * n, true, [n, n], true, Stored(n), Ready, 0, 1, 1),
      State(3 * n, true, [n, n], true, Sending(n, true), Ready, 0, 1, 2),
      State(3 * n, true, [n, n, n], true, Waiting, Ready, 0, 1, 2),
      State(3 * n, true, [n, n, n], true, Waiting, LastSwap, 0, 1, 2),
      State(3 * n, false, [n, n, n], true, Waiting, LastPush, 0, 1, 2),
      State(3 * n, false, [n, n, n], true, Waiting, LastClose, 1, 2, 2),
      State(3 * n, false, [n, n, n], true, Idle, LastClose, 0, 2, 2),
      State(4 * n, false, [n, n, n], true, Over(n), LastClose, 0, 2, 2)];
    assert [n, n] + [n] == [n, n, n];
    var more := [SenderStep, SenderStep, SenderStep, Leave, TakerStep, TakerStep, Deliver, Add(n)];
    StepsFrom(s, more, states, cfg);
    ExecMore(StaleRun(n), more, s, cfg);
  }

  lemma {:induction false} ExecMore(run: seq<Action>, more: seq<Action>, s: State, cfg: Config)
    requires Exec(START, run, cfg) == Some(s)
    ensures Exec(START, run + more, cfg) == Exec(s, more, cfg)
    decreases |more|
  {
    hide Do;
    if more == [] {
      assert run + more == run;
    } else {
      assert (run + more)[..|run + more| - 1] == run + more[..|more| - 1];
      ExecMore(run, more[..|more| - 1], s, cfg);
    }
  }

  lemma StepsExec(run: seq<Action>, states: seq<State>, cfg: Config)
    requires |states| == |run| + 1 && states[0] == START
    requires forall i | 0 <= i < |run| :: Do(states[i], run[i], cfg) == Some(states[i + 1])
    ensures Exec(START, run, cfg) == Some(states[|run|])
  {
    StepsFrom(START, run, states, cfg);
  }

  lemma {:induction false} StepsFrom(s: State, run: seq<Action>, states: seq<State>, cfg: Config)
    requires |states| == |run| + 1 && states[0] == s
    requires forall i | 0 <= i < |run| :: Do(states[i], run[i], cfg) == Some(states[i + 1])
    ensures Exec(s, run, cfg) == Some(states[|run|])
  {
    hide Do;
    if run != [] {
      StepsFrom(s, run[..|run| - 1], states[..|run|], cfg);
    }
  }
}
