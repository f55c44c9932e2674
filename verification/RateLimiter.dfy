/** The per-client rate limiter, against a specification that only knows the history of calls. */
module RateLimiter {
  import opened Octets

  /** The limit, the window, and whether old buckets are swept away; the daemon always sweeps. */
  datatype Config = Config(rate: int, window: int, sweeps: bool)

  datatype Slot = Slot(tokens: int, lastTime: int)

  datatype Limiter = Limiter(slots: map<string, Slot>, lastSweep: Option<int>)

  function Swept(c: Config, slots: map<string, Slot>, now: int): map<string, Slot> {
    map k | k in slots && slots[k].lastTime >= now - 2 * c.window :: slots[k]
  }

  predicate SweepDue(c: Config, l: Limiter, now: int) {
    c.sweeps && (l.lastSweep == None || now - l.lastSweep.value > c.window)
  }

  /** The state after the sweep that a call starts with, if one is due. */
  function BeforeDecision(c: Config, l: Limiter, now: int): Limiter {
    if SweepDue(c, l, now) then Limiter(Swept(c, l.slots, now), Some(now)) else l
  }

  function Decide(c: Config, slots: map<string, Slot>, key: string, now: int): (Option<Slot>, bool) {
    if key !in slots || now - slots[key].lastTime >= c.window then (Some(Slot(c.rate - 1, now)), true)
    else if slots[key].tokens <= 0 then (None, false)
    else (Some(Slot(slots[key].tokens - 1, now)), true)
  }

  /** One call of Allow at time now. */
  function Step(c: Config, l: Limiter, key: string, now: int): (Limiter, bool) {
    var m := BeforeDecision(c, l, now);
    var (slot, ok) := Decide(c, m.slots, key, now);
    (if slot.Some? then m.(slots := m.slots[key := slot.value]) else m, ok)
  }

  class Bucket {
    var tokens: int
    var lastTime: int

    constructor (tokens: int, lastTime: int)
      ensures this.tokens == tokens && this.lastTime == lastTime
    {
      this.tokens, this.lastTime := tokens, lastTime;
    }
  }

  class RateLimiter {
    var buckets: map<string, Bucket>
    const rate: int
    const window: int
    var lastSweep: Option<int>

    constructor (rate: int, window: int)
      ensures Valid() && View() == Limiter(map[], None)
      ensures this.rate == rate && this.window == window
    {
      buckets, this.rate, this.window, lastSweep := map[], rate, window, None;
    }

    ghost function Owned(): set<Bucket>
      reads this`buckets
    {
      set k | k in buckets :: buckets[k]
    }

    /** No bucket serves two clients. */
    ghost predicate Valid()
      reads this`buckets
    {
      forall j, k :: j in buckets && k in buckets && j != k ==> buckets[j] != buckets[k]
    }

    ghost function Slots(): map<string, Slot>
      reads this`buckets, Owned()
    {
      map k | k in buckets :: Slot(buckets[k].tokens, buckets[k].lastTime)
    }

    ghost function View(): Limiter
      reads this`buckets, this`lastSweep, Owned()
    {
      Limiter(Slots(), lastSweep)
    }

    ghost function Cfg(): Config {
      Config(rate, window, true)
    }

    method Allow(key: string, now: int) returns (ok: bool)
      requires Valid()
      modifies this, Owned()
      ensures Valid() && fresh(Owned() - old(Owned()))
      ensures (View(), ok) == Step(Cfg(), old(View()), key, now)
    {
      hide Swept, Decide;
      if lastSweep == None || now - lastSweep.value > window {
        Sweep(now);
        lastSweep := Some(now);
      }
      ok := TakeToken(key, now);
    }

    /** What Allow does once old buckets are gone. */
    method TakeToken(key: string, now: int) returns (ok: bool)
      requires Valid()
      modifies this`buckets, Owned()
      ensures Valid() && fresh(Owned() - old(Owned()))
      ensures var (slot, yes) := Decide(Cfg(), old(Slots()), key, now);
        && ok == yes
        && Slots() == if slot.Some? then old(Slots())[key := slot.value] else old(Slots())
    {
      if key !in buckets {
        var b := new Bucket(rate - 1, now);
        buckets := buckets[key := b];
        return true;
      }
      var b := buckets[key];
      var elapsed := now - b.lastTime;
      if elapsed >= window {
        b.tokens := rate - 1;
        b.lastTime := now;
        return true;
      }
      if b.tokens <= 0 {
        return false;
      }
      b.tokens := b.tokens - 1;
      b.lastTime := now;
      return true;
    }

    method Sweep(now: int)
      requires Valid()
      modifies this`buckets
      ensures Valid() && Owned() <= old(Owned())
      ensures Slots() == Swept(Cfg(), old(Slots()), now)
    {
      var cutoff := now + -2 * window;
      var rest := buckets.Keys;
      while rest != {}
        invariant rest <= old(buckets).Keys
        invariant Valid() && buckets.Keys <= old(buckets).Keys
        invariant forall k :: k in buckets ==> buckets[k] == old(buckets)[k]
        invariant forall k :: k in old(buckets) ==>
          (k in buckets <==> k in rest || old(buckets)[k].lastTime >= cutoff)
        decreases rest
      {
        var k :| k in rest;
        if k in buckets && buckets[k].lastTime < cutoff {
          buckets := map j | j in buckets && j != k :: buckets[j];
        }
        rest := rest - {k};
      }
      assert Slots().Keys == Swept(Cfg(), old(Slots()), now).Keys;
    }
  }

  // ---- the history of calls -----------------------------------------------------------------

  datatype Call = Call(key: string, now: int)

  function RunState(c: Config, calls: seq<Call>): Limiter {
    if calls == [] then Limiter(map[], None)
    else
      var last := calls[|calls| - 1];
      Step(c, RunState(c, calls[..|calls| - 1]), last.key, last.now).0
  }

  /** What the limiter answers to one more call. */
  predicate Answer(c: Config, calls: seq<Call>, next: Call) {
    Step(c, RunState(c, calls), next.key, next.now).1
  }

  /** The number of allowed calls that form an unbroken run up to time now: every gap shorter than the window. */
  function Burst(window: int, times: seq<int>, now: int): nat {
    if times == [] || now - times[|times| - 1] >= window then 0
    else 1 + Burst(window, times[..|times| - 1], times[|times| - 1])
  }

  /** The specification: allowed if the run is shorter than the rate, or if no run is on. */
  predicate MayPass(rate: int, window: int, times: seq<int>, now: int) {
    Burst(window, times, now) == 0 || Burst(window, times, now) < rate
  }

  /** The times of the calls by key that the specification allows. */
  function Passed(rate: int, window: int, calls: seq<Call>, key: string): seq<int> {
    if calls == [] then []
    else
      var before, last := Passed(rate, window, calls[..|calls| - 1], key), calls[|calls| - 1];
      if last.key == key && MayPass(rate, window, before, last.now) then before + [last.now] else before
  }

  ghost predicate ClockOk(calls: seq<Call>) {
    forall i, j :: 0 <= i < j < |calls| ==> calls[i].now <= calls[j].now
  }

  /** The length of the run that ends with the last allowed call. */
  function RunLength(window: int, times: seq<int>): nat
    requires times != []
  {
    1 + Burst(window, times[..|times| - 1], times[|times| - 1])
  }

  /**
    A bucket holds the rate minus the length of the current run, and the time of the last
    allowed call; a client without a bucket has no run that could still be going on.
   */
  ghost predicate Matches(c: Config, l: Limiter, key: string, times: seq<int>) {
    if key in l.slots then
      times != [] && l.slots[key] == Slot(c.rate - RunLength(c.window, times), times[|times| - 1])
    else
      times == [] || (l.lastSweep.Some? && times[|times| - 1] < l.lastSweep.value - 2 * c.window)
  }

  lemma {:induction false} MatchesAfterSweep(c: Config, l: Limiter, key: string, times: seq<int>, now: int)
    requires c.window >= 0 && Matches(c, l, key, times)
    requires l.lastSweep.Some? ==> l.lastSweep.value <= now
    ensures Matches(c, BeforeDecision(c, l, now), key, times)
  {
    hide Burst;
  }

  lemma {:induction false} DecideMatches(c: Config, l: Limiter, key: string, times: seq<int>, now: int)
    requires c.window > 0 && Matches(c, l, key, times)
    requires l.lastSweep.Some? ==> l.lastSweep.value <= now
    ensures var (slot, ok) := Decide(c, l.slots, key, now);
      && ok == MayPass(c.rate, c.window, times, now)
      && slot.Some? == ok
      && (ok ==> slot.value == Slot(c.rate - RunLength(c.window, times + [now]), now))
  {
    assert (times + [now])[..|times|] == times;
  }

  lemma {:induction false} StepMatches(c: Config, l: Limiter, call: Call, key: string, times: seq<int>)
    requires c.window > 0 && Matches(c, l, key, times)
    requires l.lastSweep.Some? ==> l.lastSweep.value <= call.now
    ensures var passes := call.key == key && MayPass(c.rate, c.window, times, call.now);
      Matches(c, Step(c, l, call.key, call.now).0, key, if passes then times + [call.now] else times)
    ensures call.key == key ==> Step(c, l, call.key, call.now).1 == MayPass(c.rate, c.window, times, call.now)
  {
    hide Decide, MayPass, BeforeDecision, Burst;
    var m := BeforeDecision(c, l, call.now);
    MatchesAfterSweep(c, l, key, times, call.now);
    SweepTime(c, l, call.now);
    if call.key == key {
      DecideMatches(c, m, key, times, call.now);
    }
  }

  lemma {:induction false} SweepTime(c: Config, l: Limiter, now: int)
    ensures var m := BeforeDecision(c, l, now); m.lastSweep == l.lastSweep || m.lastSweep == Some(now)
    ensures SweepDue(c, l, now) ==> BeforeDecision(c, l, now).lastSweep == Some(now)
  {
  }

  /** Over every history with a clock that does not go back, the state matches the specification. */
  lemma {:induction false} RunMatches(c: Config, calls: seq<Call>, key: string)
    requires c.window > 0 && ClockOk(calls)
    ensures Matches(c, RunState(c, calls), key, Passed(c.rate, c.window, calls, key))
    ensures RunState(c, calls).lastSweep.Some? ==>
      calls != [] && RunState(c, calls).lastSweep.value <= calls[|calls| - 1].now
  {
    hide Matches, BeforeDecision, Decide, MayPass;
    if calls == [] {
      MatchesEmpty(c, key);
    } else {
      var before, last := calls[..|calls| - 1], calls[|calls| - 1];
      var l := RunState(c, before);
      RunMatches(c, before, key);
      StepMatches(c, l, last, key, Passed(c.rate, c.window, before, key));
      SweepTime(c, l, last.now);
    }
  }

  lemma {:induction false} MatchesEmpty(c: Config, key: string)
    ensures Matches(c, Limiter(map[], None), key, [])
  {
  }

  /**
    Every answer is a function of the history of calls alone: allowed if and only if the
    client's unbroken run of allowed calls is shorter than the rate. Buckets, resets and
    sweeps do not show.
   */
  lemma {:induction false} AnswerIsHistory(c: Config, calls: seq<Call>, next: Call)
    requires c.window > 0 && ClockOk(calls + [next])
    ensures Answer(c, calls, next) == MayPass(c.rate, c.window, Passed(c.rate, c.window, calls, next.key), next.now)
  {
    hide Matches, Step, MayPass;
    forall i, j | 0 <= i < j < |calls|
      ensures calls[i].now <= calls[j].now
    {
      assert (calls + [next])[i] == calls[i] && (calls + [next])[j] == calls[j];
    }
    if calls != [] {
      assert (calls + [next])[|calls| - 1] == calls[|calls| - 1] && (calls + [next])[|calls|] == next;
    }
    RunMatches(c, calls, next.key);
    StepMatches(c, RunState(c, calls), next, next.key, Passed(c.rate, c.window, calls, next.key));
  }

  /** The answers to all calls of a history, in order. */
  function Answers(c: Config, calls: seq<Call>): seq<bool> {
    if calls == [] then []
    else Answers(c, calls[..|calls| - 1]) + [Answer(c, calls[..|calls| - 1], calls[|calls| - 1])]
  }

  /** The limiter that sweeps answers every history like one that never does. */
  lemma {:induction false} SweepsInvisible(c: Config, d: Config, calls: seq<Call>)
    requires c.window > 0 && ClockOk(calls)
    requires c.sweeps && d == c.(sweeps := false)
    ensures Answers(c, calls) == Answers(d, calls)
  {
    hide Answer, MayPass;
    if calls != [] {
      var init, last := calls[..|calls| - 1], calls[|calls| - 1];
      assert init + [last] == calls;
      SweepsInvisible(c, d, init);
      AnswerIsHistory(c, init, last);
      AnswerIsHistory(d, init, last);
    }
  }

  // ---- the sliding window -------------------------------------------------------------------

  predicate InOrder(times: seq<int>) {
    forall i, j :: 0 <= i < j < |times| ==> times[i] <= times[j]
  }

  lemma {:induction false} PassedInOrder(c: Config, calls: seq<Call>, key: string)
    requires ClockOk(calls)
    ensures var times := Passed(c.rate, c.window, calls, key);
      InOrder(times) && (times != [] ==> calls != [] && times[|times| - 1] <= calls[|calls| - 1].now)
  {
    hide MayPass;
    if calls != [] {
      var init, last := calls[..|calls| - 1], calls[|calls| - 1];
      PassedInOrder(c, init, key);
      if init != [] {
        assert calls[|calls| - 2].now <= last.now;
      }
    }
  }

  /** Calls that all lie within one window of now are one unbroken run. */
  lemma {:induction false} CloseCallsAreOneRun(window: int, times: seq<int>, n: nat, now: int)
    requires n <= |times| && InOrder(times)
    requires n > 0 ==> times[|times| - 1] <= now
    requires n > 0 ==> now - times[|times| - n] < window
    ensures Burst(window, times, now) >= n
    decreases n
  {
    if n > 0 {
      CloseCallsAreOneRun(window, times[..|times| - 1], n - 1, times[|times| - 1]);
    }
  }

  /** Among the allowed calls, any `rate + 1` in a row span at least a window. */
  ghost predicate Spaced(times: seq<int>, rate: nat, window: int) {
    forall i :: 0 <= i && i + rate < |times| ==> times[i + rate] - times[i] >= window
  }

  lemma {:induction false} PassedSpaced(c: Config, calls: seq<Call>, key: string)
    requires c.rate >= 1 && c.window > 0 && ClockOk(calls)
    ensures Spaced(Passed(c.rate, c.window, calls, key), c.rate, c.window)
  {
    hide Burst;
    if calls != [] {
      var init, last := calls[..|calls| - 1], calls[|calls| - 1];
      var before, times := Passed(c.rate, c.window, init, key), Passed(c.rate, c.window, calls, key);
      PassedSpaced(c, init, key);
      PassedInOrder(c, init, key);
      if |times| > |before| && |times| > c.rate && last.now - before[|before| - c.rate] < c.window {
        CloseCallsAreOneRun(c.window, before, c.rate, last.now);
      }
    }
  }

  function CountIn(times: seq<int>, lo: int, hi: int): nat {
    if times == [] then 0
    else CountIn(times[..|times| - 1], lo, hi) + if lo <= times[|times| - 1] < hi then 1 else 0
  }

  lemma {:induction false} CountSkips(times: seq<int>, lo: int, hi: int, m: nat)
    requires m <= |times| && forall i :: 0 <= i < m ==> times[i] < lo
    ensures CountIn(times, lo, hi) <= |times| - m
  {
    if |times| > m {
      CountSkips(times[..|times| - 1], lo, hi, m);
    } else if times != [] {
      CountSkips(times[..|times| - 1], lo, hi, m - 1);
    }
  }

  lemma {:induction false} SpacedCount(times: seq<int>, rate: nat, window: int, lo: int)
    requires rate >= 1 && InOrder(times) && Spaced(times, rate, window)
    ensures CountIn(times, lo, lo + window) <= rate
  {
    if times != [] {
      var n := |times| - 1;
      var init, t := times[..n], times[n];
      if lo <= t < lo + window {
        var m := if n < rate then 0 else n - rate + 1;
        if n >= rate {
          assert times[n - rate + rate] - times[n - rate] >= window;
        }
        CountSkips(init, lo, lo + window, m);
      } else {
        SpacedCount(init, rate, window, lo);
      }
    }
  }

  /** In every history, no interval as long as the window holds more than `rate` allowed calls of one client. */
  lemma {:induction false} SlidingWindow(c: Config, calls: seq<Call>, key: string, lo: int)
    requires c.rate >= 1 && c.window > 0 && ClockOk(calls)
    ensures CountIn(Passed(c.rate, c.window, calls, key), lo, lo + c.window) <= c.rate
  {
    hide *;
    PassedInOrder(c, calls, key);
    PassedSpaced(c, calls, key);
    SpacedCount(Passed(c.rate, c.window, calls, key), c.rate, c.window, lo);
  }

  /** `Passed` are exactly the calls the limiter allowed. */
  lemma {:induction false} PassedIsAllowed(c: Config, calls: seq<Call>, key: string)
    requires c.window > 0 && ClockOk(calls) && calls != []
    ensures var init, last := calls[..|calls| - 1], calls[|calls| - 1];
      Passed(c.rate, c.window, calls, key) == Passed(c.rate, c.window, init, key) + if last.key == key &&
        Answer(c, init, last) then [last.now] else []
  {
    hide MayPass, Answer;
    var init, last := calls[..|calls| - 1], calls[|calls| - 1];
    assert init + [last] == calls;
    AnswerIsHistory(c, init, last);
  }

  // ---- a steady client --------------------------------------------------------------------

  /** n calls by one client at a constant distance. */
  function Steady(key: string, gap: int, n: nat): seq<Call> {
    seq(n, i => Call(key, i * gap))
  }

  /** The limiter lets call n of a steady client pass. */
  predicate SteadyAllowed(c: Config, key: string, gap: int, n: nat) {
    Answer(c, Steady(key, gap, n), Call(key, n * gap))
  }

  lemma {:induction false} SteadyPrefix(key: string, gap: int, n: nat)
    ensures Steady(key, gap, n + 1) == Steady(key, gap, n) + [Call(key, n * gap)]
  {
  }

  lemma {:induction false} PassedSnoc(rate: int, window: int, calls: seq<Call>, call: Call)
    ensures var before := Passed(rate, window, calls, call.key);
      MayPass(rate, window, before, call.now) ==> Passed(rate, window, calls + [call], call.key) == before + [call.now]
  {
    hide MayPass;
    assert (calls + [call])[..|calls|] == calls;
  }

  lemma {:induction false} BurstSnoc(window: int, times: seq<int>, t: int, now: int)
    requires now - t < window
    ensures Burst(window, times + [t], now) == 1 + Burst(window, times, t)
  {
    assert (times + [t])[..|times|] == times;
  }

  lemma {:induction false} SteadyRun(rate: int, window: int, key: string, gap: int, n: nat)
    requires 0 <= gap < window && n <= rate
    ensures Burst(window, Passed(rate, window, Steady(key, gap, n), key), n * gap) == n
  {
    if n > 0 {
      hide Passed, Burst, Steady;
      var before, t := Steady(key, gap, n - 1), (n - 1) * gap;
      SteadyRun(rate, window, key, gap, n - 1);
      SteadyPrefix(key, gap, n - 1);
      PassedSnoc(rate, window, before, Call(key, t));
      assert n * gap - t == gap;
      BurstSnoc(window, Passed(rate, window, before, key), t, n * gap);
    }
  }

  lemma {:induction false} SteadyClock(key: string, gap: int, n: nat)
    requires gap >= 0
    ensures ClockOk(Steady(key, gap, n))
  {
    var calls := Steady(key, gap, n);
    forall i, j | 0 <= i < j < n
      ensures calls[i].now <= calls[j].now
    {
      TimesInOrder(i, j, gap);
    }
  }

  lemma {:induction false} TimesInOrder(i: nat, j: nat, gap: int)
    requires i <= j && gap >= 0
    ensures i * gap <= j * gap
  {
    assert j * gap == i * gap + (j - i) * gap;
  }

  /**
    The limit is on bursts, not on a rate: a client whose calls are any constant distance
    below the window apart is refused after `rate` calls, however few fall into one window.
   */
  lemma {:induction false} SteadyClientRefused(c: Config, key: string, gap: int)
    requires c.rate >= 1 && 0 <= gap < c.window
    ensures !SteadyAllowed(c, key, gap, c.rate)
  {
    hide Answer, Passed, Steady;
    SteadyPrefix(key, gap, c.rate);
    SteadyClock(key, gap, c.rate + 1);
    SteadyRun(c.rate, c.window, key, gap, c.rate);
    AnswerIsHistory(c, Steady(key, gap, c.rate), Call(key, c.rate * gap));
  }

  lemma {:induction false} SlowClientPasses(c: Config, key: string, gap: int, n: nat)
    requires 0 < c.window <= gap
    ensures SteadyAllowed(c, key, gap, n)
  {
    hide Answer, Passed, Steady;
    var calls := Steady(key, gap, n);
    SteadyPrefix(key, gap, n);
    SteadyClock(key, gap, n);
    SteadyClock(key, gap, n + 1);
    AnswerIsHistory(c, calls, Call(key, n * gap));
    PassedInOrder(c, calls, key);
    SteadyLast(key, gap, n);
    assert n * gap - (n - 1) * gap == gap;
  }

  lemma {:induction false} SteadyLast(key: string, gap: int, n: nat)
    ensures |Steady(key, gap, n)| == n
    ensures n > 0 ==> Steady(key, gap, n)[n - 1].now == (n - 1) * gap
  {
  }

  /** A steady client is never refused if and only if its calls are at least a window apart. */
  lemma {:induction false} SteadyNeverRefusedIff(c: Config, key: string, gap: int)
    requires c.rate >= 1 && c.window > 0 && gap >= 0
    ensures (forall n: nat :: SteadyAllowed(c, key, gap, n)) <==> gap >= c.window
  {
    hide SteadyAllowed;
    if gap >= c.window {
      forall n: nat ensures SteadyAllowed(c, key, gap, n) {
        SlowClientPasses(c, key, gap, n);
      }
    } else {
      SteadyClientRefused(c, key, gap);
      assert !SteadyAllowed(c, key, gap, c.rate);
    }
  }

  /** A call touches no other client's bucket, except that a sweep that is due drops those unused for two windows. */
  lemma {:induction false} OtherBuckets(c: Config, l: Limiter, key: string, now: int, other: string)
    requires other != key
    ensures var m := Step(c, l, key, now).0;
      var due := c.sweeps && (l.lastSweep == None || now - l.lastSweep.value > c.window);
      && m.lastSweep == (if due then Some(now) else l.lastSweep)
      && (other in m.slots <==> other in l.slots && !(due && now - l.slots[other].lastTime > 2 * c.window))
      && (other in m.slots ==> m.slots[other] == l.slots[other])
  {
    hide Decide;
  }

  // ---- memory -----------------------------------------------------------------------------------

  ghost predicate Recent(c: Config, l: Limiter) {
    && (l.slots != map[] ==> l.lastSweep.Some?)
    && forall k :: k in l.slots ==> l.slots[k].lastTime >= l.lastSweep.value - 2 * c.window
  }

  lemma {:induction false} StepRecent(c: Config, l: Limiter, key: string, now: int)
    requires c.window >= 0 && c.sweeps && Recent(c, l) && (l.lastSweep.Some? ==> l.lastSweep.value <= now)
    ensures var m := Step(c, l, key, now).0;
      Recent(c, m) && m.lastSweep.Some? && m.lastSweep.value <= now <= m.lastSweep.value + c.window
  {
  }

  lemma {:induction false} RunRecent(c: Config, calls: seq<Call>)
    requires c.window > 0 && c.sweeps && ClockOk(calls)
    ensures var l := RunState(c, calls);
      && Recent(c, l)
      && (calls != [] ==> l.lastSweep.Some?)
      && (calls != [] ==> l.lastSweep.value <= calls[|calls| - 1].now <= l.lastSweep.value + c.window)
  {
    hide Recent, Step;
    if calls == [] {
      RecentEmpty(c);
    } else {
      RunRecent(c, calls[..|calls| - 1]);
      StepRecent(c, RunState(c, calls[..|calls| - 1]), calls[|calls| - 1].key, calls[|calls| - 1].now);
    }
  }

  lemma {:induction false} RecentEmpty(c: Config)
    ensures Recent(c, Limiter(map[], None))
  {
  }

  /** After every call no bucket is left whose last allowed call is more than three windows back. */
  lemma {:induction false} BucketsExpire(c: Config, calls: seq<Call>, key: string)
    requires c.window > 0 && c.sweeps && ClockOk(calls) && key in RunState(c, calls).slots
    ensures calls != [] && RunState(c, calls).slots[key].lastTime >= calls[|calls| - 1].now - 3 * c.window
  {
    hide Step;
    RunRecent(c, calls);
  }
}
