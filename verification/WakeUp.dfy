/** How the Rust threads wake the asyncio loop: a locked queue of events, a
    flag, and a socket with a byte in it (src/server.rs:158-164, 196-207, 327-344;
    korvex/_serve.py:229-250). Every atomic operation is a step of its own, in any
    interleaving of any number of producers with the one consumer. */
module WakeUp {
  import opened Wrappers

  const BUFFER := 256

  /** Where the loop is in `take`. */
  datatype Consumer = Idle | Reading | Clearing | Draining

  datatype State = State(
    queue: seq<nat>,
    woken: bool,
    bytes: nat,            // in the socket
    queued: set<nat>,      // producers past push_back, about to swap the flag
    won: set<nat>,         // producers whose swap found it clear, about to write
    consumer: Consumer,
    pushed: seq<nat>,      // every event queued so far
    taken: seq<nat>,       // every event handed to Python so far
    wins: nat,             // swaps that found the flag clear
    clears: nat)           // times the consumer cleared it

  const START := State([], false, 0, {}, {}, Idle, [], [], 0, 0)

  /** The socket holds `capacity` bytes; `clearFirst` is the order `take` must not use. */
  datatype Config = Config(capacity: nat, clearFirst: bool)

  datatype Action =
    | PushBack(producer: nat, event: nat)
    | SwapFlag(producer: nat)
    | Write(producer: nat)
    | Take   // the loop's next step; it starts once the socket is readable

  function DoTake(s: State, cfg: Config): Option<State> {
    match s.consumer
    case Idle =>
      if s.bytes == 0 then None
      else Some(s.(consumer := if cfg.clearFirst then Clearing else Reading))
    case Reading =>
      if s.bytes > 0 then Some(s.(bytes := if s.bytes > BUFFER then s.bytes - BUFFER else 0))
      else Some(s.(consumer := if cfg.clearFirst then Draining else Clearing))
    case Clearing =>
      Some(s.(woken := false, clears := s.clears + 1, consumer := if cfg.clearFirst then Reading else Draining))
    case Draining =>
      Some(s.(taken := s.taken + s.queue, queue := [], consumer := Idle))
  }

  function Do(s: State, a: Action, cfg: Config): Option<State> {
    match a
    case PushBack(p, e) =>
      if p in s.queued || p in s.won then None
      else Some(s.(queue := s.queue + [e], pushed := s.pushed + [e], queued := s.queued + {p}))
    case SwapFlag(p) =>
      if p !in s.queued then None
      else if s.woken then Some(s.(queued := s.queued - {p}))
      else Some(s.(woken := true, queued := s.queued - {p}, won := s.won + {p}, wins := s.wins + 1))
    case Write(p) =>
      if p !in s.won then None
      // A full socket takes no more, and needs no more.
      else Some(s.(bytes := if s.bytes < cfg.capacity then s.bytes + 1 else s.bytes, won := s.won - {p}))
    case Take => DoTake(s, cfg)
  }

  /** The state after a run of actions, if each was possible. */
  function Exec(s: State, run: seq<Action>, cfg: Config): Option<State> {
    if run == [] then Some(s)
    else
      match Exec(s, run[..|run| - 1], cfg)
      case None => None
      case Some(t) => Do(t, run[|run| - 1], cfg)
  }

  // ---- What every step keeps

  /** An event not taken has its flag up, or someone about to see to it. */
  ghost predicate Flagged(s: State) {
    s.queue != [] ==> s.woken || s.queued != {} || s.consumer.Draining?
  }

  /** A raised flag has a byte in the socket, or on its way, or is about to be cleared. */
  ghost predicate Signalled(s: State) {
    s.woken ==> s.bytes > 0 || s.won != {} || s.consumer.Reading? || s.consumer.Clearing?
  }

  ghost predicate Inv(s: State) {
    && Flagged(s) && Signalled(s)
    && s.pushed == s.taken + s.queue
    && s.wins <= s.clears + (if s.woken then 1 else 0)
  }

  lemma StepKeepsInv(s: State, a: Action, cfg: Config)
    requires Inv(s) && cfg.capacity > 0 && !cfg.clearFirst && Do(s, a, cfg).Some?
    ensures Inv(Do(s, a, cfg).value)
  {
    var t := Do(s, a, cfg).value;
    match a {
      case PushBack(p, e) =>
        assert s.taken + (s.queue + [e]) == s.taken + s.queue + [e];
        assert p in t.queued;
      case SwapFlag(p) => if !s.woken { assert p in t.won; }
      case Write(p) =>
      case Take =>
        assert s.taken + s.queue + [] == s.taken + s.queue;
    }
  }

  lemma {:induction false} RunKeepsInv(run: seq<Action>, cfg: Config)
    requires Exec(START, run, cfg).Some? && cfg.capacity > 0 && !cfg.clearFirst
    ensures Inv(Exec(START, run, cfg).value)
  {
    hide Do;
    if run != [] {
      RunKeepsInv(run[..|run| - 1], cfg);
      StepKeepsInv(Exec(START, run[..|run| - 1], cfg).value, run[|run| - 1], cfg);
    }
  }

  /** The socket never holds more than it can. */
  lemma {:induction false} SocketHolds(run: seq<Action>, cfg: Config)
    requires Exec(START, run, cfg).Some?
    ensures Exec(START, run, cfg).value.bytes <= cfg.capacity
  {
    if run != [] { SocketHolds(run[..|run| - 1], cfg); }
  }

  // ---- Main results

  /** In every interleaving: what was pushed is what was taken, in push order
      and once each, followed by what still waits in the queue. */
  lemma {:induction false} TakenOnceInOrder(run: seq<Action>, cfg: Config)
    requires Exec(START, run, cfg).Some? && cfg.capacity > 0 && !cfg.clearFirst
    ensures var s := Exec(START, run, cfg).value;
      s.pushed == s.taken + s.queue
  {
    hide Exec;
    RunKeepsInv(run, cfg);
  }

  /** No wake-up is lost: an event not taken yet has a byte in the socket, a
      producer still inside `push`, or the loop still before its drain. */
  lemma NoWakeUpIsLost(run: seq<Action>, cfg: Config)
    requires Exec(START, run, cfg).Some? && cfg.capacity > 0 && !cfg.clearFirst
    ensures var s := Exec(START, run, cfg).value;
      s.queue != [] ==> s.bytes > 0 || s.queued != {} || s.won != {} || s.consumer != Idle
  {
    hide Exec;
    RunKeepsInv(run, cfg);
  }

  /** A burst sends a single byte: between two clearings of the flag, one producer writes. */
  lemma OneBytePerTake(run: seq<Action>, cfg: Config)
    requires Exec(START, run, cfg).Some? && cfg.capacity > 0 && !cfg.clearFirst
    ensures var s := Exec(START, run, cfg).value;
      s.wins <= s.clears + 1
  {
    hide Exec;
    RunKeepsInv(run, cfg);
  }

  /** No thread has a step left, short of pushing something new. */
  ghost predicate Quiescent(s: State, cfg: Config) {
    forall a: Action | !a.PushBack? :: Do(s, a, cfg).None?
  }

  /** Every quiescent state has an empty queue: all that was pushed was taken. */
  lemma QuiescentIsDrained(run: seq<Action>, cfg: Config)
    requires Exec(START, run, cfg).Some? && cfg.capacity > 0 && !cfg.clearFirst
    requires Quiescent(Exec(START, run, cfg).value, cfg)
    ensures var s := Exec(START, run, cfg).value;
      s.queue == [] && s.taken == s.pushed
  {
    hide Exec;
    RunKeepsInv(run, cfg);
    var s := Exec(START, run, cfg).value;
    assert Do(s, Take, cfg).None?;
    forall p ensures p !in s.won && p !in s.queued {
      assert Do(s, Write(p), cfg).None? && Do(s, SwapFlag(p), cfg).None?;
    }
    assert s.won == {} && s.queued == {};
  }

  // ---- Every schedule gets there

  /** How far the loop is from having nothing to do. */
  function LoopWork(s: State): nat {
    match s.consumer
    case Reading => s.bytes + 4
    case Clearing => 3 + (if s.bytes > 0 then s.bytes + 6 else 0)
    case Draining => 2 + (if s.bytes > 0 then s.bytes + 6 else 0)
    case Idle => if s.bytes > 0 then s.bytes + 6 else 0
  }

  function Work(s: State): nat {
    9 * |s.queued| + 8 * |s.won| + LoopWork(s)
  }

  lemma StepWorks(s: State, a: Action, cfg: Config)
    requires !cfg.clearFirst && !a.PushBack? && Do(s, a, cfg).Some?
    ensures Work(Do(s, a, cfg).value) < Work(s)
  {
    match a {
      case SwapFlag(p) =>
        assert |s.queued - {p}| == |s.queued| - 1;
        assert |s.won + {p}| <= |s.won| + 1 by {
          if p !in s.won { assert |s.won + {p}| == |s.won| + 1; } else { assert s.won + {p} == s.won; }
        }
      case Write(p) => assert |s.won - {p}| == |s.won| - 1;
      case Take =>
    }
  }

  /** However the threads are scheduled, with nothing new pushed they all come
      to rest within `Work` steps, and `QuiescentIsDrained` says the queue is
      then empty. */
  lemma {:induction false} ComesToRest(s: State, run: seq<Action>, cfg: Config)
    requires !cfg.clearFirst && Exec(s, run, cfg).Some?
    requires forall a | a in run :: !a.PushBack?
    ensures |run| + Work(Exec(s, run, cfg).value) <= Work(s)
  {
    hide Do, Work;
    if run != [] {
      ComesToRest(s, run[..|run| - 1], cfg);
      StepWorks(Exec(s, run[..|run| - 1], cfg).value, run[|run| - 1], cfg);
    }
  }

  // ---- The order of `take` matters

  /** The loop clears the flag, then swallows a second event's byte, drains
      both, and leaves the flag up: the third event writes nothing. */
  const CLEARED_TOO_EARLY := [
    PushBack(0, 10), SwapFlag(0), Write(0), Take, Take,
    PushBack(1, 11), SwapFlag(1), Write(1), Take, Take, Take,
    PushBack(2, 12), SwapFlag(2)]

  lemma ClearingFirstLosesEvents()
    ensures var cfg := Config(100, true);
      && Exec(START, CLEARED_TOO_EARLY, cfg).Some?
      && Quiescent(Exec(START, CLEARED_TOO_EARLY, cfg).value, cfg)
      && Exec(START, CLEARED_TOO_EARLY, cfg).value.queue == [12]
  {
    var cfg := Config(100, true);
    var states := [
      START,
      State([10], false, 0, {0}, {}, Idle, [10], [], 0, 0),
      State([10], true, 0, {}, {0}, Idle, [10], [], 1, 0),
      State([10], true, 1, {}, {}, Idle, [10], [], 1, 0),
      State([10], true, 1, {}, {}, Clearing, [10], [], 1, 0),
      State([10], false, 1, {}, {}, Reading, [10], [], 1, 1),
      State([10, 11], false, 1, {1}, {}, Reading, [10, 11], [], 1, 1),
      State([10, 11], true, 1, {}, {1}, Reading, [10, 11], [], 2, 1),
      State([10, 11], true, 2, {}, {}, Reading, [10, 11], [], 2, 1),
      State([10, 11], true, 0, {}, {}, Reading, [10, 11], [], 2, 1),
      State([10, 11], true, 0, {}, {}, Draining, [10, 11], [], 2, 1),
      State([], true, 0, {}, {}, Idle, [10, 11], [10, 11], 2, 1),
      State([12], true, 0, {2}, {}, Idle, [10, 11, 12], [10, 11], 2, 1),
      State([12], true, 0, {}, {}, Idle, [10, 11, 12], [10, 11], 2, 1)];
    assert {} + {0} == {0} && {0} - {0} == {} && {} + {1} == {1} && {1} - {1} == {} && {} + {2} == {2} && {2} - {2} == {};
    assert [] + [10] == [10] && [10] + [11] == [10, 11] && [10, 11] + [12] == [10, 11, 12] && [] + [10, 11] == [10, 11] && [] + [12] == [12];
    StepsExec(CLEARED_TOO_EARLY, states, cfg);
  }

  lemma {:induction false} StepsExec(run: seq<Action>, states: seq<State>, cfg: Config)
    requires |states| == |run| + 1 && states[0] == START
    requires forall i | 0 <= i < |run| :: Do(states[i], run[i], cfg) == Some(states[i + 1])
    ensures Exec(START, run, cfg) == Some(states[|run|])
  {
    hide Do;
    if run != [] {
      StepsExec(run[..|run| - 1], states[..|run|], cfg);
    }
  }
}
