/** What becomes of a waiting Python when the Rust side leaves, in each of the
    orders it leaves in (src/server.rs:518-523; src/websocket.rs:220-224, 233-234). */
module BacklogExits {
  import opened Wrappers
  import opened Backlog

  /** A state where Python waits and no thread has a step left. */
  ghost predicate Stuck(s: State, cfg: Config) {
    s.sender.Waiting? && forall a :: Do(s, a, cfg).None?
  }

  lemma StuckIs(s: State, cfg: Config)
    ensures Stuck(s, cfg) <==> s.sender.Waiting? && s.taker.Done? && s.events == 0
  {
    assert Stuck(s, cfg) ==>
      Do(s, Deliver, cfg).None? && Do(s, Leave, cfg).None? && Do(s, TakerStep, cfg).None?;
  }

  /** Where a run stands before its step `i`. */
  function StateAt(run: seq<Action>, i: nat, cfg: Config): Option<State>
    requires i <= |run|
  {
    Exec(START, run[..i], cfg)
  }

  lemma LastStep(run: seq<Action>, cfg: Config)
    requires run != [] && Exec(START, run, cfg).Some?
    ensures var before := run[..|run| - 1];
      && Exec(START, before, cfg).Some?
      && Do(Exec(START, before, cfg).value, run[|run| - 1], cfg) == Exec(START, run, cfg)
      && StateAt(run, |run| - 1, cfg) == Exec(START, before, cfg)
      && forall i | 0 <= i <= |before| :: StateAt(run, i, cfg) == StateAt(before, i, cfg)
  {
    hide Do;
    var before := run[..|run| - 1];
    forall i | 0 <= i <= |before|
      ensures run[..i] == before[..i]
    {}
  }

  // ---- Closing first: never stuck

  lemma CloseFirstNeverSticks(run: seq<Action>, cfg: Config)
    requires Exec(START, run, cfg).Some? && cfg.exit.CloseThenWake?
    ensures !Stuck(Exec(START, run, cfg).value, cfg)
  {
    hide Exec;
    RunKeepsInv(run, cfg);
    var s := Exec(START, run, cfg).value;
    if s.sender.Waiting? && s.events == 0 {
      TakerNextIs(s, cfg);
    }
    StuckIs(s, cfg);
  }

  // ---- Waking first: stuck exactly when the flag goes up too late

  /** The stream's client leaves while Python is between counting a chunk and
      raising the flag: the last look finds nothing, then the channel closes. */
  const FORGOTTEN_RUN := [Add(HIGH_WATER + 1), Leave, TakerStep, SenderStep, SenderStep, SenderStep, TakerStep]

  lemma WakeFirstCanStick()
    ensures var cfg := Config(HIGH_WATER + 1, WakeThenClose);
      Exec(START, FORGOTTEN_RUN, cfg).Some? && Stuck(Exec(START, FORGOTTEN_RUN, cfg).value, cfg)
  {
    var cfg := Config(HIGH_WATER + 1, WakeThenClose);
    var n := HIGH_WATER + 1;
    var states := [
      START,
      State(n, false, [], true, Over(n), Ready, 0, 0, 0),
      State(n, false, [], true, Over(n), LastSwap, 0, 0, 0),
      State(n, false, [], true, Over(n), LastClose, 0, 0, 0),
      State(n, true, [], true, Stored(n), LastClose, 0, 0, 0),
      State(n, true, [], true, Sending(n, true), LastClose, 0, 0, 1),
      State(n, true, [n], true, Waiting, LastClose, 0, 0, 1),
      State(n, true, [], false, Waiting, Done, 0, 0, 1)];
    assert [] + [n] == [n];
    StepsExec(FORGOTTEN_RUN, states, cfg);
  }

  /** At `i` the taker looks at the flag for the last time. */
  ghost predicate LooksLast(run: seq<Action>, i: nat, cfg: Config) {
    i < |run| && run[i] == TakerStep && StateAt(run, i, cfg).Some? && StateAt(run, i, cfg).value.taker.LastSwap?
  }

  /** At `j` the sender, past HIGH_WATER, raises the flag: after the last look. */
  ghost predicate RaisesTooLate(run: seq<Action>, j: nat, cfg: Config) {
    && j < |run| && run[j] == SenderStep && StateAt(run, j, cfg).Some? && StateAt(run, j, cfg).value.sender.Over?
    && exists i: nat :: i < j && LooksLast(run, i, cfg)
  }

  /** At `m` the sender queues a chunk it will wait for, on a channel still open. */
  ghost predicate Queues(run: seq<Action>, m: nat, cfg: Config) {
    && m < |run| && run[m] == SenderStep && StateAt(run, m, cfg).Some?
    && var s := StateAt(run, m, cfg).value; s.open && s.sender.Sending? && s.sender.wait
  }

  /** Between `j` and `m` the sender is at the same chunk. */
  predicate SameChunk(run: seq<Action>, j: nat, m: nat) {
    forall l | j <= l < m && l < |run| :: !run[l].Add?
  }

  /** The sender raises the flag after the last look, and queues that chunk all the same. */
  ghost predicate QueuesTooLate(run: seq<Action>, cfg: Config) {
    exists j: nat, m: nat :: j < m && RaisesTooLate(run, j, cfg) && Queues(run, m, cfg) && SameChunk(run, j, m)
  }

  /** The taker has looked for the last time. */
  predicate Past(s: State) {
    s.taker.LastPush? || s.taker.LastClose? || s.taker.Done?
  }

  lemma Earlier(run: seq<Action>, i: nat, cfg: Config)
    requires run != [] && Exec(START, run, cfg).Some? && i < |run| - 1
    ensures var before := run[..|run| - 1];
      && (LooksLast(run, i, cfg) <==> LooksLast(before, i, cfg))
      && (RaisesTooLate(run, i, cfg) <==> RaisesTooLate(before, i, cfg))
      && (Queues(run, i, cfg) <==> Queues(before, i, cfg))
  {
    hide Exec, StateAt;
    LastStep(run, cfg);
    var before := run[..|run| - 1];
    forall k: nat | k <= i
      ensures LooksLast(run, k, cfg) <==> LooksLast(before, k, cfg)
    {
      assert run[k] == before[k] && StateAt(run, k, cfg) == StateAt(before, k, cfg);
    }
    assert run[i] == before[i] && StateAt(run, i, cfg) == StateAt(before, i, cfg);
  }

  /** Past the last look exactly when there was one. */
  lemma {:induction false} PastIsAfterLook(run: seq<Action>, cfg: Config)
    requires Exec(START, run, cfg).Some? && cfg.exit.WakeThenClose?
    ensures Past(Exec(START, run, cfg).value) <==> exists i: nat :: LooksLast(run, i, cfg)
  {
    if run != [] {
      var before, n := run[..|run| - 1], |run| - 1;
      LastStep(run, cfg);
      PastIsAfterLook(before, cfg);
      hide Exec, StateAt, LooksLast;
      if exists i: nat :: LooksLast(before, i, cfg) {
        var i: nat :| LooksLast(before, i, cfg);
        assert i < n;
        Earlier(run, i, cfg);
      } else {
        assert LooksLast(run, n, cfg) <==> run[n] == TakerStep && Exec(START, before, cfg).value.taker.LastSwap?;
        forall i: nat | i != n
          ensures !LooksLast(run, i, cfg)
        {
          if i < n { Earlier(run, i, cfg); }
        }
      }
    }
  }

  /** The flag is up, past the last look. */
  predicate LateFlag(s: State) {
    Past(s) && s.waiting
  }

  /** Python waits for it. */
  predicate LateWait(s: State) {
    LateFlag(s) && s.sender.Waiting?
  }

  /** Past the last look, the flag is up as long as the sender is at the chunk
      it raised it for. */
  predicate Late(s: State) {
    && Past(s) && !s.sender.Over?
    && (s.waiting <==> s.sender.Stored? || s.sender.Low? || s.sender.Waiting? ||
                       (s.sender.Sending? && s.sender.wait) || (s.sender.Gone? && s.sender.wait))
  }

  lemma StepWhenLate(s: State, a: Action, cfg: Config)
    requires Inv(s, cfg) && cfg.exit.WakeThenClose? && Do(s, a, cfg).Some?
    ensures var t := Do(s, a, cfg).value;
      && (LateFlag(t) && !LateFlag(s) ==> Past(s) && s.sender.Over? && a == SenderStep)
      && (LateFlag(s) ==> !a.Add?)
      && (Late(s) && !a.Add? ==> Late(t))
      && (Past(s) && s.sender.Over? && a == SenderStep ==> Late(t))
      && (LateWait(s) ==> LateWait(t))
      && (LateWait(t) && !LateWait(s) ==> LateFlag(s) && a == SenderStep && QueuesNext(s))
      && (Late(s) && a == SenderStep && QueuesNext(s) ==> LateWait(t))
  {
    hide Sum, Conserved;
  }

  /** The sender is about to queue a chunk it will wait for. */
  predicate QueuesNext(s: State) {
    s.open && s.sender.Sending? && s.sender.wait
  }

  lemma QueuesHere(run: seq<Action>, n: nat, cfg: Config)
    requires n < |run| && StateAt(run, n, cfg).Some?
    ensures Queues(run, n, cfg) <==> run[n] == SenderStep && QueuesNext(StateAt(run, n, cfg).value)
  {}

  lemma RaisesHere(run: seq<Action>, n: nat, cfg: Config)
    requires n < |run| && Exec(START, run, cfg).Some? && cfg.exit.WakeThenClose? && n == |run| - 1
    ensures StateAt(run, n, cfg).Some?
    ensures var s := StateAt(run, n, cfg).value;
      RaisesTooLate(run, n, cfg) <==> run[n] == SenderStep && s.sender.Over? && Past(s)
  {
    var before := run[..n];
    LastStep(run, cfg);
    PastIsAfterLook(before, cfg);
    hide Exec, StateAt, LooksLast;
    if exists i: nat :: i < n && LooksLast(run, i, cfg) {
      var i: nat :| i < n && LooksLast(run, i, cfg);
      Earlier(run, i, cfg);
    }
    if exists i: nat :: LooksLast(before, i, cfg) {
      var i: nat :| LooksLast(before, i, cfg);
      Earlier(run, i, cfg);
    }
  }

  lemma SameChunkBefore(run: seq<Action>, j: nat, m: nat)
    requires run != [] && m < |run|
    ensures SameChunk(run, j, m) <==> SameChunk(run[..|run| - 1], j, m)
    ensures SameChunk(run, j, |run|) && j < |run| ==> SameChunk(run[..|run| - 1], j, |run| - 1) && !run[|run| - 1].Add?
  {
    var before := run[..|run| - 1];
    assert forall l | 0 <= l < |before| :: run[l] == before[l];
  }

  /** A flag that is up past the last look went up after it. */
  lemma {:induction false} FlagIsLate(run: seq<Action>, cfg: Config) returns (j: nat)
    requires Exec(START, run, cfg).Some? && cfg.exit.WakeThenClose? && LateFlag(Exec(START, run, cfg).value)
    ensures j < |run| && RaisesTooLate(run, j, cfg) && SameChunk(run, j, |run|)
  {
    hide Exec, Do, Inv, StateAt, LateFlag, RaisesTooLate, QueuesNext;
    assert run != [] by { NoneIsLate(cfg); }
    var before, n := run[..|run| - 1], |run| - 1;
    LastStep(run, cfg);
    RunKeepsInv(before, cfg);
    StepWhenLate(Exec(START, before, cfg).value, run[n], cfg);
    if LateFlag(Exec(START, before, cfg).value) {
      j := FlagIsLate(before, cfg);
      Earlier(run, j, cfg);
      assert forall l | 0 <= l < n :: run[l] == before[l];
    } else {
      j := n;
      RaisesHere(run, n, cfg);
    }
  }

  /** After a flag raised too late, it stays up until the sender takes it back. */
  lemma {:induction false} LateFlagStays(run: seq<Action>, j: nat, cfg: Config)
    requires Exec(START, run, cfg).Some? && cfg.exit.WakeThenClose?
    requires j < |run| && RaisesTooLate(run, j, cfg) && SameChunk(run, j, |run|)
    ensures Late(Exec(START, run, cfg).value)
  {
    hide Exec, Do, Inv, StateAt, Late, RaisesTooLate, LateFlag, LateWait, QueuesNext;
    var before, n := run[..|run| - 1], |run| - 1;
    LastStep(run, cfg);
    RunKeepsInv(before, cfg);
    StepWhenLate(Exec(START, before, cfg).value, run[n], cfg);
    if j < n {
      Earlier(run, j, cfg);
      SameChunkBefore(run, j, n);
      LateFlagStays(before, j, cfg);
    } else {
      RaisesHere(run, n, cfg);
    }
  }

  /** Waiting for ever, seen from the run. */
  lemma {:induction false} LateIffWaiting(run: seq<Action>, cfg: Config)
    requires Exec(START, run, cfg).Some? && cfg.exit.WakeThenClose?
    ensures QueuesTooLate(run, cfg) <==> LateWait(Exec(START, run, cfg).value)
  {
    hide Exec, Do, Inv, StateAt, Late, LateFlag, LateWait, RaisesTooLate, Queues, SameChunk, QueuesNext;
    if run == [] {
      NoneIsLate(cfg);
    } else {
      var before, n := run[..|run| - 1], |run| - 1;
      LastStep(run, cfg);
      LateIffWaiting(before, cfg);
      RunKeepsInv(before, cfg);
      var s := Exec(START, before, cfg).value;
      StepWhenLate(s, run[n], cfg);
      QueuesHere(run, n, cfg);
      if QueuesTooLate(before, cfg) {
        var j: nat, m: nat :| j < m && RaisesTooLate(before, j, cfg) && Queues(before, m, cfg) && SameChunk(before, j, m);
        QueuesInside(before, m, cfg);
        Earlier(run, j, cfg);
        Earlier(run, m, cfg);
        SameChunkBefore(run, j, m);
        assert QueuesTooLate(run, cfg);
      } else if QueuesTooLate(run, cfg) {
        var j: nat, m: nat :| j < m && RaisesTooLate(run, j, cfg) && Queues(run, m, cfg) && SameChunk(run, j, m);
        QueuesInside(run, m, cfg);
        Earlier(run, j, cfg);
        SameChunkBefore(run, j, m);
        if m < n {
          Earlier(run, m, cfg);
        } else {
          LateFlagStays(before, j, cfg);
        }
      } else if LateWait(Exec(START, run, cfg).value) {
        var j := FlagIsLate(before, cfg);
        Earlier(run, j, cfg);
        SameChunkBefore(run, j, n);
      }
    }
  }

  lemma QueuesInside(run: seq<Action>, m: nat, cfg: Config)
    ensures Queues(run, m, cfg) ==> m < |run|
  {}

  lemma NoneIsLate(cfg: Config)
    ensures !QueuesTooLate([], cfg) && Exec(START, [], cfg).Some? && !LateFlag(Exec(START, [], cfg).value) && !LateWait(Exec(START, [], cfg).value)
  {}

  /** A streamed body that wakes before its channel closes leaves Python waiting
      for ever exactly when the flag goes up after the last look at it and the
      chunk is queued before the channel closes. */
  lemma WakeFirstSticksWhen(run: seq<Action>, cfg: Config)
    requires Exec(START, run, cfg).Some? && cfg.exit.WakeThenClose?
    ensures var s := Exec(START, run, cfg).value;
      Stuck(s, cfg) <==> s.taker.Done? && QueuesTooLate(run, cfg)
  {
    hide Exec, QueuesTooLate, Do, Sum;
    RunKeepsInv(run, cfg);
    LateIffWaiting(run, cfg);
    StuckIs(Exec(START, run, cfg).value, cfg);
  }

  // ---- Waking and closing at once: never stuck

  /** The drop of a body as one step: the last look, its push and the close. */
  function Dropped(s: State): State
    requires s.taker.LastSwap?
  {
    var looked := Swap(s, LastPush, LastClose);
    Close(if looked.taker.LastPush? then Push(looked, LastClose) else looked, Done)
  }

  lemma DropIsItsSteps(s: State, cfg: Config)
    requires s.taker.LastSwap? && cfg.exit.WakeThenClose?
    ensures Exec(s, if s.waiting then [TakerStep, TakerStep, TakerStep] else [TakerStep, TakerStep], cfg) == Some(Dropped(s))
  {
    var a := DoTaker(s, cfg).value;
    var b := DoTaker(a, cfg).value;
    var steps := if s.waiting then [TakerStep, TakerStep, TakerStep] else [TakerStep, TakerStep];
    StepsFrom(s, steps, if s.waiting then [s, a, b, DoTaker(b, cfg).value] else [s, a, b], cfg);
  }

  /** If nothing came between its steps, the drop would leave a Writable for
      whoever waits, and nobody would be left waiting whatever happens next. */
  lemma {:induction false} AtomicDropNeverSticks(run: seq<Action>, more: seq<Action>, cfg: Config)
    requires Exec(START, run, cfg).Some? && cfg.exit.WakeThenClose? && Exec(START, run, cfg).value.taker.LastSwap?
    requires Exec(Dropped(Exec(START, run, cfg).value), more, cfg).Some?
    ensures var t := Exec(Dropped(Exec(START, run, cfg).value), more, cfg).value;
      && !t.open && t.taker.Done?
      && (t.sender.Waiting? ==> t.events > 0)
      && !Stuck(t, cfg)
    decreases |more|
  {
    var s := Exec(START, run, cfg).value;
    if more == [] {
      RunKeepsInv(run, cfg);
      hide Exec, Sum;
    } else {
      AtomicDropNeverSticks(run, more[..|more| - 1], cfg);
    }
    StuckIs(Exec(Dropped(s), more, cfg).value, cfg);
  }

  // ---- Only closing: stuck exactly when more than HIGH_WATER was sent before

  /** Python sends past HIGH_WATER before the upgrade is known to have failed. */
  const UNTOLD_RUN := [Add(HIGH_WATER + 1), SenderStep, SenderStep, SenderStep, Leave]

  lemma FailedUpgradeCanStick()
    ensures var cfg := Config(HIGH_WATER + 1, CloseOnly);
      Exec(START, UNTOLD_RUN, cfg).Some? && Stuck(Exec(START, UNTOLD_RUN, cfg).value, cfg)
  {
    var cfg := Config(HIGH_WATER + 1, CloseOnly);
    var n := HIGH_WATER + 1;
    var states := [
      START,
      State(n, false, [], true, Over(n), Ready, 0, 0, 0),
      State(n, true, [], true, Stored(n), Ready, 0, 0, 0),
      State(n, true, [], true, Sending(n, true), Ready, 0, 0, 1),
      State(n, true, [n], true, Waiting, Ready, 0, 0, 1),
      State(n, true, [], false, Waiting, Done, 0, 0, 1)];
    assert [] + [n] == [n];
    StepsExec(UNTOLD_RUN, states, cfg);
  }

  /** What Python had sent when the handshake failed, if it has. */
  function SentBefore(run: seq<Action>, cfg: Config): Option<nat> {
    if run == [] then None
    else
      var before := run[..|run| - 1];
      if SentBefore(before, cfg).Some? then SentBefore(before, cfg)
      else if run[|run| - 1].Leave? && Exec(START, before, cfg).Some? then Some(Sum(Exec(START, before, cfg).value.channel))
      else None
  }

  /** Nothing is taken, so nothing wakes: Python waits from the chunk that goes
      past HIGH_WATER on. */
  ghost predicate Untaken(s: State) {
    && s.events == 0 && (s.taker.Ready? || s.taker.Done?)
    && (s.sender.Stored? ==> s.bytes > HIGH_WATER) && !s.sender.Low?
    && (s.sender.Over? ==> s.bytes > HIGH_WATER)
    && (s.open ==>
          && (s.sender.Waiting? <==> Sum(s.channel) > HIGH_WATER)
          && (s.sender.Sending? ==> (s.sender.wait <==> s.bytes > HIGH_WATER)))
  }

  lemma StepKeepsUntaken(s: State, a: Action, cfg: Config)
    requires Inv(s, cfg) && Untaken(s) && cfg.exit.CloseOnly? && Do(s, a, cfg).Some?
    ensures var t := Do(s, a, cfg).value;
      && Untaken(t)
      && (a.Leave? <==> s.open && !t.open) && (!s.open ==> !t.open)
      && (!t.open ==> (t.sender.Waiting? <==> s.sender.Waiting?))
  {
    if a.SenderStep? && s.sender.Sending? {
      SumAppend(s.channel, s.sender.n);
    }
  }

  lemma {:induction false} UntakenRun(run: seq<Action>, cfg: Config)
    requires Exec(START, run, cfg).Some? && cfg.exit.CloseOnly?
    ensures var s := Exec(START, run, cfg).value;
      && Untaken(s)
      && (s.open <==> SentBefore(run, cfg).None?)
      && (!s.open ==> (s.sender.Waiting? <==> SentBefore(run, cfg).value > HIGH_WATER))
  {
    if run == [] {
    } else {
      var before := run[..|run| - 1];
      LastStep(run, cfg);
      UntakenRun(before, cfg);
      RunKeepsInv(before, cfg);
      hide Exec, Inv;
      StepKeepsUntaken(Exec(START, before, cfg).value, run[|run| - 1], cfg);
    }
  }

  /** A WebSocket whose upgrade fails leaves Python waiting for ever exactly when
      Python had sent more than HIGH_WATER by then. */
  lemma FailedUpgradeSticksWhen(run: seq<Action>, cfg: Config)
    requires Exec(START, run, cfg).Some? && cfg.exit.CloseOnly?
    ensures Stuck(Exec(START, run, cfg).value, cfg)
       <==> SentBefore(run, cfg).Some? && SentBefore(run, cfg).value > HIGH_WATER
  {
    hide Exec, SentBefore, Do;
    RunKeepsInv(run, cfg);
    UntakenRun(run, cfg);
    StuckIs(Exec(START, run, cfg).value, cfg);
  }
}
