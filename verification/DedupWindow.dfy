/** The sidecar's duplicate filter, against a specification that only knows earlier admissions. */
module DedupWindow {
  import opened Octets

  class DedupWindow {
    var seen: map<string, int>
    const ttl: int

    constructor (ttl: int)
      ensures seen == map[] && this.ttl == ttl
    {
      seen, this.ttl := map[], ttl;
    }

    /** The clock is read once for the check and once more for the entry. */
    method Allow(key: string, checked: int, stored: int) returns (ok: bool)
      modifies this
      ensures (seen, ok) == Asked(ttl, old(seen), key, checked, stored)
    {
      if key in seen && checked - seen[key] < ttl {
        return false;
      }
      seen := seen[key := stored];
      return true;
    }

    /** One tick of the cleanup loop. */
    method Cleanup(now: int)
      modifies this
      ensures seen == Cleaned(ttl, old(seen), now)
    {
      var rest := seen.Keys;
      while rest != {}
        invariant rest <= old(seen).Keys
        invariant seen == map k | k in old(seen) && (k in rest || now - old(seen)[k] <= ttl) :: old(seen)[k]
        decreases rest
      {
        var k :| k in rest;
        if now - seen[k] > ttl {
          seen := map j | j in seen && j != k :: seen[j];
        }
        rest := rest - {k};
      }
    }
  }

  function Asked(ttl: int, seen: map<string, int>, key: string, checked: int, stored: int): (map<string, int>, bool) {
    if key in seen && checked - seen[key] < ttl then (seen, false) else (seen[key := stored], true)
  }

  function Cleaned(ttl: int, seen: map<string, int>, now: int): map<string, int> {
    map k | k in seen && now - seen[k] <= ttl :: seen[k]
  }

  // ---- histories --------------------------------------------------------------------------------

  datatype Event = Ask(key: string, checked: int, stored: int) | Clean(now: int)

  function SeenAfter(ttl: int, events: seq<Event>): map<string, int> {
    if events == [] then map[]
    else
      var seen := SeenAfter(ttl, events[..|events| - 1]);
      match events[|events| - 1]
      case Ask(key, checked, stored) => Asked(ttl, seen, key, checked, stored).0
      case Clean(now) => Cleaned(ttl, seen, now)
  }

  /** What the filter answers to one more call. */
  predicate Admits(ttl: int, events: seq<Event>, key: string, checked: int) {
    Asked(ttl, SeenAfter(ttl, events), key, checked, checked).1
  }

  /** The entry times of the calls with this key that were admitted, oldest first. */
  function Admissions(ttl: int, events: seq<Event>, key: string): seq<int> {
    if events == [] then []
    else
      var init, last := events[..|events| - 1], events[|events| - 1];
      Admissions(ttl, init, key) +
        if last.Ask? && last.key == key && Admits(ttl, init, key, last.checked) then [last.stored] else []
  }

  /** The latest time the clock has shown. */
  function Clock(events: seq<Event>): Option<int> {
    if events == [] then None
    else
      match events[|events| - 1]
      case Ask(_, _, stored) => Some(stored)
      case Clean(now) => Some(now)
  }

  /** The clock never goes back, within a call or from one event to the next. */
  ghost predicate ClockOk(events: seq<Event>) {
    events != [] ==>
      var init, last := events[..|events| - 1], events[|events| - 1];
      && ClockOk(init)
      && (last.Ask? ==> last.checked <= last.stored)
      && (Clock(init).Some? ==> Clock(init).value <= if last.Ask? then last.checked else last.now)
  }

  /** The entry for key is its last admission; it is only missing when that is out of date. */
  ghost predicate Tracks(ttl: int, events: seq<Event>, key: string) {
    var seen, times := SeenAfter(ttl, events), Admissions(ttl, events, key);
    && (times != [] ==> Clock(events).Some? && times[|times| - 1] <= Clock(events).value)
    && (key in seen ==> times != [] && seen[key] == times[|times| - 1])
    && (key !in seen && times != [] ==> Clock(events).value - times[|times| - 1] > ttl)
  }

  lemma {:induction false} AlwaysTracks(ttl: int, events: seq<Event>, key: string)
    requires ttl > 0 && ClockOk(events)
    ensures Tracks(ttl, events, key)
  {
    if events != [] {
      AlwaysTracks(ttl, events[..|events| - 1], key);
    }
  }

  /** Admissions of a key are in order and at least ttl apart. */
  ghost predicate Apart(times: seq<int>, ttl: int) {
    forall i, j :: 0 <= i < j < |times| ==> times[j] - times[i] >= ttl
  }

  lemma {:induction false} AdmissionsApart(ttl: int, events: seq<Event>, key: string)
    requires ttl > 0 && ClockOk(events)
    ensures Apart(Admissions(ttl, events, key), ttl)
  {
    if events != [] {
      var init := events[..|events| - 1];
      AdmissionsApart(ttl, init, key);
      AlwaysTracks(ttl, init, key);
    }
  }

  /**
    A call is admitted if and only if no call with the same key was admitted within the last
    ttl. Rejected calls and cleanups, wherever they fall, do not matter.
   */
  lemma {:induction false} AdmitsIffQuiet(ttl: int, events: seq<Event>, key: string, checked: int)
    requires ttl > 0 && ClockOk(events)
    requires Clock(events).Some? ==> Clock(events).value <= checked
    ensures Admits(ttl, events, key, checked) <==>
      forall i :: 0 <= i < |Admissions(ttl, events, key)| ==> checked - Admissions(ttl, events, key)[i] >= ttl
  {
    AlwaysTracks(ttl, events, key);
    AdmissionsApart(ttl, events, key);
    var times := Admissions(ttl, events, key);
    LastIsNearest(times, ttl, checked);
  }

  lemma {:induction false} LastIsNearest(times: seq<int>, ttl: int, checked: int)
    requires ttl > 0 && Apart(times, ttl)
    ensures (forall i :: 0 <= i < |times| ==> checked - times[i] >= ttl) <==> (times != [] ==>
      checked - times[|times| - 1] >= ttl)
  {
  }

  function WithoutCleanups(events: seq<Event>): seq<Event> {
    if events == [] then []
    else
      var init, last := events[..|events| - 1], events[|events| - 1];
      WithoutCleanups(init) + if last.Ask? then [last] else []
  }

  lemma {:induction false} WithoutCleanupsStep(events: seq<Event>)
    requires events != []
    ensures var init, last := events[..|events| - 1], events[|events| - 1];
      var asks, more := WithoutCleanups(init), WithoutCleanups(events);
      if last.Ask? then more != [] && more[..|more| - 1] == asks && more[|more| - 1] == last else more == asks
  {
  }

  lemma {:induction false} WithoutCleanupsClock(events: seq<Event>)
    requires ClockOk(events)
    ensures var asks := WithoutCleanups(events);
      ClockOk(asks) && (Clock(asks).Some? ==> Clock(events).Some? && Clock(asks).value <= Clock(events).value)
  {
    if events != [] {
      WithoutCleanupsStep(events);
      WithoutCleanupsClock(events[..|events| - 1]);
      hide WithoutCleanups;
    }
  }

  /** Every history is answered as if no cleanup had ever run. */
  lemma {:induction false} CleanupInvisible(ttl: int, events: seq<Event>, key: string)
    requires ttl > 0 && ClockOk(events)
    ensures Admissions(ttl, events, key) == Admissions(ttl, WithoutCleanups(events), key)
  {
    hide Admits;
    if events != [] {
      var init, last := events[..|events| - 1], events[|events| - 1];
      var asks := WithoutCleanups(init);
      WithoutCleanupsStep(events);
      hide WithoutCleanups;
      CleanupInvisible(ttl, init, key);
      WithoutCleanupsClock(init);
      if last.Ask? && last.key == key {
        AdmitsIffQuiet(ttl, init, key, last.checked);
        AdmitsIffQuiet(ttl, asks, key, last.checked);
      }
    }
  }

  function CountWithin(times: seq<int>, lo: int, hi: int): nat {
    if times == [] then 0
    else CountWithin(times[..|times| - 1], lo, hi) + if lo <= times[|times| - 1] <= hi then 1 else 0
  }

  lemma {:induction false} OneMoreSpan(c: nat, ttl: int, span: int)
    requires c > 0 && (c - 1) * ttl <= span - ttl
    ensures c * ttl <= span
  {
    assert c * ttl == (c - 1) * ttl + ttl;
  }

  lemma {:induction false} ApartCount(times: seq<int>, ttl: int, lo: int, hi: int)
    requires ttl > 0 && Apart(times, ttl)
    ensures CountWithin(times, lo, hi) > 0 ==> lo <= hi && (CountWithin(times, lo, hi) - 1) * ttl <= hi - lo
    decreases |times|
  {
    if times != [] {
      var n := |times| - 1;
      var init, t := times[..n], times[n];
      ApartCount(init, ttl, lo, hi);
      if lo <= t <= hi {
        ApartCount(init, ttl, lo, t - ttl);
        NarrowCount(init, ttl, lo, hi, t - ttl);
        var c := CountWithin(init, lo, hi);
        if c > 0 {
          OneMoreSpan(c, ttl, t - lo);
        }
      }
    }
  }

  lemma {:induction false} NarrowCount(times: seq<int>, ttl: int, lo: int, hi: int, top: int)
    requires top <= hi && forall i :: 0 <= i < |times| ==> times[i] <= top
    ensures CountWithin(times, lo, hi) == CountWithin(times, lo, top)
  {
    if times != [] {
      NarrowCount(times[..|times| - 1], ttl, lo, hi, top);
    }
  }

  /** In every history, a span of length T holds at most T / ttl + 1 admissions of one key. */
  lemma {:induction false} AdmissionRate(ttl: int, events: seq<Event>, key: string, lo: int, span: nat)
    requires ttl > 0 && ClockOk(events)
    ensures CountWithin(Admissions(ttl, events, key), lo, lo + span) <= span / ttl + 1
  {
    hide *;
    AdmissionsApart(ttl, events, key);
    var c := CountWithin(Admissions(ttl, events, key), lo, lo + span);
    ApartCount(Admissions(ttl, events, key), ttl, lo, lo + span);
    if c > 0 {
      DivideBound(c - 1, ttl, span);
    }
  }

  lemma {:induction false} MulMono(a: nat, b: nat, t: nat)
    requires a <= b
    ensures a * t <= b * t
  {
  }

  lemma {:induction false} DivideBound(c: nat, ttl: int, span: nat)
    requires ttl > 0 && c * ttl <= span
    ensures c <= span / ttl
  {
    var q := span / ttl;
    assert (q + 1) * ttl == q * ttl + ttl > span;
    if c > q {
      MulMono(q + 1, c, ttl);
    }
  }

  // ---- memory ------------------------------------------------------------------------------------

  /** After a cleanup exactly the keys are stored that were last admitted no longer than the ttl ago. */
  lemma {:induction false} AfterCleanup(ttl: int, events: seq<Event>, now: int, key: string)
    requires ttl > 0 && ClockOk(events + [Clean(now)])
    ensures var times := Admissions(ttl, events, key);
      key in SeenAfter(ttl, events + [Clean(now)]) <==> times != [] && now - times[|times| - 1] <= ttl
  {
    var all := events + [Clean(now)];
    assert all[..|events|] == events;
    AlwaysTracks(ttl, events, key);
  }

  /** The time of the last cleanup. */
  function LastCleanup(events: seq<Event>): Option<int> {
    if events == [] then None
    else if events[|events| - 1].Clean? then Some(events[|events| - 1].now)
    else LastCleanup(events[..|events| - 1])
  }

  /** At any time no entry is older than the ttl was at the last cleanup. */
  lemma {:induction false} EntriesAreRecent(ttl: int, events: seq<Event>, key: string)
    requires ttl > 0 && ClockOk(events) && key in SeenAfter(ttl, events)
    ensures LastCleanup(events).Some? ==> SeenAfter(ttl, events)[key] >= LastCleanup(events).value - ttl
    ensures LastCleanup(events).Some? ==> LastCleanup(events).value <= Clock(events).value
  {
    if events != [] {
      var init, last := events[..|events| - 1], events[|events| - 1];
      CleanupBefore(init);
      if key in SeenAfter(ttl, init) {
        EntriesAreRecent(ttl, init, key);
      }
    }
  }

  lemma {:induction false} CleanupBefore(events: seq<Event>)
    requires ClockOk(events)
    ensures LastCleanup(events).Some? ==> Clock(events).Some? && LastCleanup(events).value <= Clock(events).value
  {
    if events != [] {
      CleanupBefore(events[..|events| - 1]);
    }
  }
}
