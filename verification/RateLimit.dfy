/** GCRA, one timestamp per key (korvex/middleware/_rate_limit.py:43-103): kept
    in a process's memory, with an occasional cleanup, or in Redis by a script,
    with keys that expire. Time is a real number and never goes back. */
module RateLimit {
  import opened Wrappers

  type Key = string

  datatype Limit = Limit(requests: int, per: real) {
    /** What `rate_limit` accepts. */
    predicate Ok() { requests >= 1 && per > 0.0 }
  }

  function Interval(l: Limit): real
    requires l.Ok()
  {
    l.per / l.requests as real
  }

  datatype Decision = Decision(allowed: bool, remaining: int, retryAfter: real, reset: real)

  datatype Hit = Hit(now: real, key: Key, limit: Limit)

  // ---- The rule, on a table that forgets nothing

  type Table = map<Key, real>

  /** When the key's allowance is fully back, as seen at `now`. */
  function FullBack(m: Table, key: Key, now: real): real {
    if key in m && m[key] > now then m[key] else now
  }

  function AllowedAt(m: Table, h: Hit): real
    requires h.limit.Ok()
  {
    FullBack(m, h.key, h.now) - h.limit.per + Interval(h.limit)
  }

  predicate Allows(m: Table, h: Hit)
    requires h.limit.Ok()
  {
    h.now >= AllowedAt(m, h)
  }

  /** What is left after an allowed hit that moved the key to `fullBack`. */
  function Remaining(fullBack: real, h: Hit): int
    requires h.limit.Ok()
  {
    var n := ((h.limit.per - (fullBack - h.now)) / Interval(h.limit)).Floor;
    if n < 0 then 0 else n
  }

  function Decide(m: Table, h: Hit): Decision
    requires h.limit.Ok()
  {
    var fullBack := FullBack(m, h.key, h.now);
    if !Allows(m, h) then Decision(false, 0, AllowedAt(m, h) - h.now, fullBack - h.now)
    else
      var next := fullBack + Interval(h.limit);
      Decision(true, Remaining(next, h), 0.0, next - h.now)
  }

  function After(m: Table, h: Hit): Table
    requires h.limit.Ok()
  {
    if Allows(m, h) then m[h.key := FullBack(m, h.key, h.now) + Interval(h.limit)] else m
  }

  // ---- Multiples of an interval

  function Times(n: int, x: real): real {
    n as real * x
  }

  lemma NextMultiple(n: int, x: real)
    ensures Times(n + 1, x) == Times(n, x) + x
    ensures Times(0, x) == 0.0 && Times(1, x) == x
  {}

  lemma SignOfProduct(x: real, y: real)
    requires y > 0.0
    ensures (x * y > 0.0 <==> x > 0.0) && (x * y < 0.0 <==> x < 0.0)
  {}

  lemma IntervalFits(l: Limit)
    requires l.Ok()
    ensures Interval(l) > 0.0 && Times(l.requests, Interval(l)) == l.per
    ensures Times(l.requests - 1, Interval(l)) == l.per - Interval(l) >= 0.0
  {
    var i, r := Interval(l), l.requests as real;
    assert i * r == l.per;
    SignOfProduct(i, r);
    assert (r - 1.0) * i == l.per - i;
    if r > 1.0 { SignOfProduct(r - 1.0, i); }
  }

  /** What fits: n intervals in `x` exactly when n is at most the quotient's floor. */
  lemma FloorOfQuotient(x: real, y: real, n: int)
    requires y > 0.0
    ensures Times(n, y) <= x <==> n <= (x / y).Floor
  {
    var q := x / y;
    assert q * y == x;
    SignOfProduct(n as real - q, y);
    assert (n as real - q) * y == Times(n, y) - x;
  }

  // ---- In memory

  const CLEANUP := 1000

  /** Python's `int` of a float. */
  function Truncate(x: real): int {
    if x >= 0.0 then x.Floor else -((-x).Floor)
  }

  /** Two tables that no later hit can tell apart. */
  ghost predicate Same(m: Table, n: Table, now: real) {
    forall key :: FullBack(m, key, now) == FullBack(n, key, now)
  }

  function Unexpired(m: Table, now: real): Table {
    map key | key in m && m[key] > now :: m[key]
  }

  /** The store's fields after a hit. */
  function MemoryHit(m: Table, calls: nat, h: Hit): (Table, nat)
    requires h.limit.Ok()
  {
    if !Allows(m, h) then (m, calls)
    else (if (calls + 1) % CLEANUP == 0 then Unexpired(After(m, h), h.now) else After(m, h), calls + 1)
  }

  class MemoryStore {
    var nextFree: Table
    var calls: nat

    constructor ()
      ensures nextFree == map[] && calls == 0
    {
      nextFree, calls := map[], 0;
    }

    /** Answers as the table that forgets nothing would, and goes on being
        indistinguishable from it. */
    method Hit(h: Hit) returns (d: Decision)
      requires h.limit.Ok()
      modifies this
      ensures d == Decide(old(nextFree), h)
      ensures Same(nextFree, After(old(nextFree), h), h.now)
      ensures (nextFree, calls) == MemoryHit(old(nextFree), old(calls), h)
    {
      var now, per := h.now, h.limit.per;
      var interval := per / h.limit.requests as real;
      var fullBack := if h.key in nextFree then nextFree[h.key] else now;
      if fullBack < now { fullBack := now; }
      var allowedAt := fullBack - per + interval;
      if now < allowedAt {
        return Decision(false, 0, allowedAt - now, fullBack - now);
      }
      fullBack := fullBack + interval;
      nextFree := nextFree[h.key := fullBack];
      ForgetOld(now);
      var remaining := Truncate((per - (fullBack - now)) / interval);
      d := Decision(true, if remaining > 0 then remaining else 0, 0.0, fullBack - now);
    }

    method ForgetOld(now: real)
      modifies this
      ensures calls == old(calls) + 1
      ensures nextFree == if calls % CLEANUP == 0 then Unexpired(old(nextFree), now) else old(nextFree)
      ensures Same(nextFree, old(nextFree), now)
    {
      calls := calls + 1;
      if calls % CLEANUP == 0 {
        nextFree := map key | key in nextFree && nextFree[key] > now :: nextFree[key];
      }
    }
  }

  // ---- In Redis

  /** A key's value, and when Redis drops it. */
  datatype Entry = Entry(value: real, expires: real)

  type Database = map<Key, Entry>

  function Get(db: Database, key: Key, now: real): Option<real> {
    if key in db && now <= db[key].expires then Some(db[key].value) else None
  }

  function Ceiling(x: real): int {
    -((-x).Floor)
  }

  /** The script, atomic and on Redis's own clock. */
  function Script(db: Database, h: Hit): (r: (Decision, Database))
    requires h.limit.Ok()
  {
    var interval := h.limit.per / h.limit.requests as real;
    var got := Get(db, h.key, h.now);
    var stored := if got.Some? then got.value else h.now;
    var fullBack := if stored < h.now then h.now else stored;
    var allowedAt := fullBack - h.limit.per + interval;
    if h.now < allowedAt then (Decision(false, 0, allowedAt - h.now, fullBack - h.now), db)
    else
      var next := fullBack + interval;
      var px := Ceiling((next - h.now) * 1000.0);
      var remaining := ((h.limit.per - (next - h.now)) / interval).Floor;
      (Decision(true, if remaining < 0 then 0 else remaining, 0.0, next - h.now),
       db[h.key := Entry(next, h.now + px as real / 1000.0)])
  }

  /** The values of a database, expired or not. */
  function Values(db: Database): Table {
    map key | key in db :: db[key].value
  }

  /** No key is dropped before its allowance is fully back. */
  ghost predicate KeptLongEnough(db: Database) {
    forall key :: key in db ==> db[key].value <= db[key].expires
  }

  /** The script answers by the same rule as the table that forgets nothing,
      and the time it gives Redis, at least a millisecond, outlasts the value. */
  lemma ScriptIsExact(db: Database, h: Hit)
    requires h.limit.Ok() && KeptLongEnough(db)
    ensures var (d, db') := Script(db, h);
      && d == Decide(Values(db), h)
      && Values(db') == After(Values(db), h)
      && KeptLongEnough(db')
      && (d.allowed ==> db'[h.key].expires >= h.now + 0.001)
  {
    var m := Values(db);
    assert FullBack(m, h.key, h.now) == (var got := Get(db, h.key, h.now);
      if got.Some? && got.value > h.now then got.value else h.now);
    var (d, db') := Script(db, h);
    if d.allowed {
      var left := FullBack(m, h.key, h.now) + Interval(h.limit) - h.now;
      IntervalFits(h.limit);
      assert left > 0.0;
      var px := Ceiling(left * 1000.0);
      assert px as real >= left * 1000.0 && px >= 1;
      assert db'[h.key] == Entry(h.now + left, h.now + px as real / 1000.0);
    }
  }

  // ---- Whole runs: three stores, one answer

  ghost predicate Monotone(run: seq<Hit>) {
    && (forall i | 0 <= i < |run| :: run[i].limit.Ok())
    && (forall i, j | 0 <= i < j < |run| :: run[i].now <= run[j].now)
  }

  function TableAfter(run: seq<Hit>): Table
    requires forall i | 0 <= i < |run| :: run[i].limit.Ok()
  {
    if run == [] then map[] else After(TableAfter(run[..|run| - 1]), run[|run| - 1])
  }

  /** The memory store after a run. */
  function MemoryAfter(run: seq<Hit>): (Table, nat)
    requires forall i | 0 <= i < |run| :: run[i].limit.Ok()
  {
    if run == [] then (map[], 0)
    else
      var (m, calls) := MemoryAfter(run[..|run| - 1]);
      MemoryHit(m, calls, run[|run| - 1])
  }

  function RedisAfter(run: seq<Hit>): Database
    requires forall i | 0 <= i < |run| :: run[i].limit.Ok()
  {
    if run == [] then map[] else Script(RedisAfter(run[..|run| - 1]), run[|run| - 1]).1
  }

  lemma SameLater(m: Table, n: Table, now: real, later: real)
    requires Same(m, n, now) && now <= later
    ensures Same(m, n, later)
  {
    forall key
      ensures FullBack(m, key, later) == FullBack(n, key, later)
    {
      assert FullBack(m, key, now) == FullBack(n, key, now);
    }
  }

  lemma SameAnswer(m: Table, n: Table, h: Hit)
    requires Same(m, n, h.now) && h.limit.Ok()
    ensures Decide(m, h) == Decide(n, h)
    ensures Same(After(m, h), After(n, h), h.now)
  {
    assert FullBack(m, h.key, h.now) == FullBack(n, h.key, h.now);
    forall key
      ensures FullBack(After(m, h), key, h.now) == FullBack(After(n, h), key, h.now)
    {
      assert FullBack(m, key, h.now) == FullBack(n, key, h.now);
    }
  }

  lemma {:induction false} MemoryIsSame(run: seq<Hit>, now: real)
    requires Monotone(run)
    requires run != [] ==> run[|run| - 1].now <= now
    ensures Same(MemoryAfter(run).0, TableAfter(run), now)
  {
    hide Decide, After, Same;
    if run == [] {
      assert Same(map[], map[], now) by { NoneIsSame(now); }
    } else {
      var before, h := run[..|run| - 1], run[|run| - 1];
      MemoryIsSame(before, h.now);
      var (m, calls) := MemoryAfter(before);
      SameAnswer(m, TableAfter(before), h);
      UnexpiredIsSame(After(m, h), After(TableAfter(before), h), h.now);
      SameDecides(m, h);
      SameLater(MemoryAfter(run).0, TableAfter(run), h.now, now);
    }
  }

  lemma NoneIsSame(now: real)
    ensures Same(map[], map[], now)
  {}

  lemma UnexpiredIsSame(m: Table, n: Table, now: real)
    requires Same(m, n, now)
    ensures Same(Unexpired(m, now), n, now)
  {
    forall key
      ensures FullBack(Unexpired(m, now), key, now) == FullBack(n, key, now)
    {
      assert FullBack(m, key, now) == FullBack(n, key, now);
    }
  }

  lemma SameDecides(m: Table, h: Hit)
    requires h.limit.Ok()
    ensures !Allows(m, h) ==> After(m, h) == m
  {}

  /** Cleanup and expiry change no answer: after any run of hits on any keys, a
      hit is decided alike by the memory store, by the script, and by a table
      that forgets nothing. */
  lemma StoresAgree(run: seq<Hit>, h: Hit)
    requires Monotone(run) && h.limit.Ok()
    requires run != [] ==> LastTime(run) <= h.now
    ensures Decide(MemoryAfter(run).0, h) == Decide(TableAfter(run), h)
    ensures Script(RedisAfter(run), h).0 == Decide(TableAfter(run), h)
  {
    MemoryIsSame(run, h.now);
    SameAnswer(MemoryAfter(run).0, TableAfter(run), h);
    RedisIsTable(run);
    ScriptIsExact(RedisAfter(run), h);
  }

  lemma {:induction false} RedisIsTable(run: seq<Hit>)
    requires forall i | 0 <= i < |run| :: run[i].limit.Ok()
    ensures Values(RedisAfter(run)) == TableAfter(run) && KeptLongEnough(RedisAfter(run))
  {
    if run != [] {
      RedisIsTable(run[..|run| - 1]);
      ScriptIsExact(RedisAfter(run[..|run| - 1]), run[|run| - 1]);
    }
  }

  // ---- The bound

  /** How many hits on `key` at times from `a` to `b` were allowed. */
  function AllowedIn(run: seq<Hit>, key: Key, a: real, b: real): nat
    requires forall i | 0 <= i < |run| :: run[i].limit.Ok()
  {
    if run == [] then 0
    else
      var before, h := run[..|run| - 1], run[|run| - 1];
      AllowedIn(before, key, a, b)
      + (if h.key == key && a <= h.now <= b && Decide(TableAfter(before), h).allowed then 1 else 0)
  }

  /** Every hit on `key` asks for the same limit. */
  ghost predicate Limited(run: seq<Hit>, key: Key, l: Limit) {
    l.Ok() && forall i | 0 <= i < |run| && run[i].key == key :: run[i].limit == l
  }

  function LastTime(run: seq<Hit>): real
    requires run != []
  {
    run[|run| - 1].now
  }

  /** A key is never more than `per` ahead of the clock. */
  lemma {:induction false} NeverFarAhead(run: seq<Hit>, key: Key, l: Limit)
    requires Monotone(run) && Limited(run, key, l)
    ensures var m := TableAfter(run);
      key in m ==> run != [] && m[key] <= LastTime(run) + l.per
  {
    if run != [] {
      NeverFarAhead(run[..|run| - 1], key, l);
    }
  }

  /** Each allowed hit of a window moves the key on by one interval. */
  lemma {:induction false} WindowMoves(run: seq<Hit>, key: Key, l: Limit, a: real, b: real)
    requires Monotone(run) && Limited(run, key, l) && a <= b
    ensures var n := AllowedIn(run, key, a, b); var m := TableAfter(run);
      n > 0 ==>
        && Times(n, Interval(l)) <= b - a + l.per
        && (LastTime(run) <= b ==> key in m && m[key] >= a + Times(n, Interval(l)))
  {
    if run != [] {
      var before, h := run[..|run| - 1], run[|run| - 1];
      var m := TableAfter(before);
      WindowMoves(before, key, l, a, b);
      var n := AllowedIn(before, key, a, b);
      if AllowedIn(run, key, a, b) == n + 1 {
        assert run[|run| - 1].limit == l;
        var fullBack := FullBack(m, key, h.now);
        NextMultiple(n, Interval(l));
        assert fullBack >= a + Times(n, Interval(l));
        assert fullBack + Interval(l) <= h.now + l.per;
      } else if n > 0 && h.now <= b {
        assert key in TableAfter(run) && TableAfter(run)[key] >= m[key] by {
          if h.key == key { IntervalFits(l); }
        }
      }
    }
  }

  /** One allowance, and what comes back in `time`. */
  function Bound(l: Limit, time: real): real
    requires l.Ok()
  {
    l.requests as real + time * l.requests as real / l.per
  }

  /** Whatever other keys do, no window of length `b - a` lets more than
      requests + (b - a) * requests / per hits on one key through. */
  lemma AllowedIsBounded(run: seq<Hit>, key: Key, l: Limit, a: real, b: real)
    requires Monotone(run) && Limited(run, key, l) && a <= b
    ensures AllowedIn(run, key, a, b) as real <= Bound(l, b - a)
  {
    hide Bound, Times, AllowedIn;
    var n := AllowedIn(run, key, a, b);
    WindowMoves(run, key, l, a, b);
    InWindow(n, l, b - a);
  }

  lemma InWindow(n: nat, l: Limit, time: real)
    requires l.Ok() && time >= 0.0 && (n > 0 ==> Times(n, Interval(l)) <= time + l.per)
    ensures n as real <= Bound(l, time)
  {
    var i, r := Interval(l), l.requests as real;
    var q := time * r / l.per;
    IntervalFits(l);
    assert i * r == l.per;
    SignOfProduct(q, i);
    SignOfProduct(n as real - (r + q), i);
    assert (n as real - (r + q)) * i == Times(n, i) - (i * r + q * i);
  }

  // ---- The numbers in an answer

  /** `retry_after` is exact: after a refusal, and any hits on other keys, the
      same hit is allowed from `now + retry_after` on and not before. */
  lemma RetryAfterIsExact(m: Table, m': Table, h: Hit, t: real)
    requires h.limit.Ok() && !Decide(m, h).allowed && t >= h.now
    requires FullBack(m', h.key, t) == FullBack(After(m, h), h.key, t)
    ensures Decide(m', h.(now := t)).allowed <==> t >= h.now + Decide(m, h).retryAfter
    ensures Decide(m, h).retryAfter > 0.0
  {
    IntervalFits(h.limit);
  }

  /** In any answer, `retry_after` is the least time after which the hit would have
      been allowed, none if it was, and `remaining` is less than the limit. */
  lemma RetryAfterIsLeast(m: Table, h: Hit, t: real)
    requires h.limit.Ok() && t >= h.now
    ensures var d := Decide(m, h);
      && d.retryAfter >= 0.0 && (Decide(m, h.(now := t)).allowed <==> t >= h.now + d.retryAfter)
      && (d.allowed <==> d.retryAfter == 0.0)
      && 0 <= d.remaining < h.limit.requests
  {
    IntervalFits(h.limit);
    var i, r := Interval(h.limit), h.limit.requests;
    FloorOfQuotient(h.limit.per - (FullBack(m, h.key, h.now) + i - h.now), i, r);
  }

  /** `reset` is exact: from `now + reset` on, and not before, a hit finds the
      whole allowance, and so leaves all of it but one. */
  lemma ResetIsExact(m: Table, h: Hit, t: real)
    requires h.limit.Ok() && t >= h.now
    ensures var later := Decide(After(m, h), h.(now := t));
      later.allowed && later.remaining == h.limit.requests - 1 <==> t >= h.now + Decide(m, h).reset
  {
    IntervalFits(h.limit);
    var i, r := Interval(h.limit), h.limit.requests;
    var fullBack := FullBack(After(m, h), h.key, t);
    var left := h.limit.per - (fullBack + i - t);
    FloorOfQuotient(left, i, r - 1);
    FloorOfQuotient(left, i, r);
  }

  /** `n` more hits at the same instant. */
  function Again(m: Table, h: Hit, n: nat): Table
    requires h.limit.Ok()
  {
    if n == 0 then m else After(Again(m, h, n - 1), h)
  }

  lemma {:induction false} AgainMoves(m: Table, h: Hit, n: nat)
    requires h.limit.Ok() && Decide(m, h).allowed
    requires n <= Decide(m, h).remaining
    ensures FullBack(Again(After(m, h), h, n), h.key, h.now)
         == FullBack(m, h.key, h.now) + Times(n + 1, Interval(h.limit))
    ensures n > 0 ==> Decide(Again(After(m, h), h, n - 1), h).allowed
  {
    IntervalFits(h.limit);
    var i := Interval(h.limit);
    NextMultiple(n, i);
    if n > 0 {
      AgainMoves(m, h, n - 1);
      var left := h.limit.per - (FullBack(m, h.key, h.now) + i - h.now);
      FloorOfQuotient(left, i, n);
    }
  }

  /** `remaining` is exact: after a hit, allowed or refused, at the same instant,
      the n-th next one is allowed if and only if n is at most `remaining`. */
  lemma RemainingIsExact(m: Table, h: Hit, n: nat)
    requires h.limit.Ok() && n > 0
    ensures Decide(Again(After(m, h), h, n - 1), h).allowed <==> n <= Decide(m, h).remaining
  {
    var remaining := Decide(m, h).remaining;
    if !Decide(m, h).allowed {
      StaysRefused(m, h, 0, n - 1);
    } else if n <= remaining {
      AgainMoves(m, h, n);
    } else {
      AgainMoves(m, h, remaining);
      IntervalFits(h.limit);
      var i := Interval(h.limit);
      var left := h.limit.per - (FullBack(m, h.key, h.now) + i - h.now);
      FloorOfQuotient(left, i, remaining + 1);
      FloorOfQuotient(left, i, 0);
      NextMultiple(remaining + 1, i);
      StaysRefused(After(m, h), h, remaining, n - 1);
    }
  }

  lemma {:induction false} StaysRefused(m: Table, h: Hit, n: nat, k: nat)
    requires h.limit.Ok() && n <= k && !Decide(Again(m, h, n), h).allowed
    ensures !Decide(Again(m, h, k), h).allowed
    decreases k - n
  {
    if n < k {
      StaysRefused(m, h, n + 1, k);
    }
  }

  /** A key never hit, or fully back, has a burst of exactly `requests`. */
  lemma BurstIsExact(m: Table, h: Hit, n: nat)
    requires h.limit.Ok() && FullBack(m, h.key, h.now) == h.now
    ensures Decide(Again(m, h, n), h).allowed <==> n < h.limit.requests
  {
    IntervalFits(h.limit);
    var i, r := Interval(h.limit), h.limit.requests;
    assert Allows(m, h);
    FloorOfQuotient(h.limit.per - i, i, r - 1);
    FloorOfQuotient(h.limit.per - i, i, r);
    assert Decide(m, h).remaining == r - 1;
    if n > 0 {
      AgainShift(m, h, n);
      RemainingIsExact(m, h, n);
    }
  }

  lemma {:induction false} AgainShift(m: Table, h: Hit, n: nat)
    requires h.limit.Ok() && n > 0
    ensures Again(m, h, n) == Again(After(m, h), h, n - 1)
  {
    if n > 1 {
      AgainShift(m, h, n - 1);
    }
  }

  // ---- Keys are independent

  function On(run: seq<Hit>, key: Key): seq<Hit> {
    if run == [] then []
    else
      var h := run[|run| - 1];
      On(run[..|run| - 1], key) + (if h.key == key then [h] else [])
  }

  /** What one key is answered depends on its own hits only. */
  lemma {:induction false} KeysAreIndependent(run: seq<Hit>, key: Key, h: Hit)
    requires forall i | 0 <= i < |run| :: run[i].limit.Ok()
    requires h.key == key && h.limit.Ok()
    ensures forall i | 0 <= i < |On(run, key)| :: On(run, key)[i].limit.Ok()
    ensures Decide(TableAfter(run), h) == Decide(TableAfter(On(run, key)), h)
  {
    OnlyMine(run, key);
  }

  lemma {:induction false} OnlyMine(run: seq<Hit>, key: Key)
    requires forall i | 0 <= i < |run| :: run[i].limit.Ok()
    ensures forall i | 0 <= i < |On(run, key)| :: On(run, key)[i].limit.Ok()
    ensures var m, n := TableAfter(run), TableAfter(On(run, key));
      (key in m <==> key in n) && (key in m ==> m[key] == n[key])
  {
    if run != [] {
      var before, h := run[..|run| - 1], run[|run| - 1];
      OnlyMine(before, key);
      if h.key == key {
        var mine := On(run, key);
        assert mine[..|mine| - 1] == On(before, key) && mine[|mine| - 1] == h;
      } else {
        assert On(run, key) == On(before, key);
      }
    }
  }
}
