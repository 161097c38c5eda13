/** The fixed-window limiter in front of the public endpoints, and what it guarantees for
    intervals that slide. */
module RateLimit {
  import opened Text

  datatype Config = Config(windowSecs: int, perKey: nat, global: nat)

  datatype State = State(windowStart: int, total: nat, counts: map<string, nat>)

  const FRESH := State(0, 0, map[])

  function CountOf(m: map<string, nat>, key: string): nat {
    if key in m then m[key] else 0
  }

  /** The window has run out, or the clock was set back. */
  predicate RollsOver(c: Config, s: State, now: int) {
    now < s.windowStart || now - s.windowStart >= c.windowSecs
  }

  function Rolled(c: Config, s: State, now: int): State {
    if RollsOver(c, s, now) then State(now, 0, map[]) else s
  }

  /** One request: the new state and whether it is let through. */
  function Step(c: Config, s: State, key: string, now: int): (State, bool) {
    var r := Rolled(c, s, now);
    if r.total >= c.global then (r, false)
    else
      var n := CountOf(r.counts, key);
      if n >= c.perKey then (r.(counts := r.counts[key := n]), false)
      else (State(r.windowStart, r.total + 1, r.counts[key := n + 1]), true)
  }

  class Limiter {
    const windowSecs: int
    const perKey: nat
    const global: nat
    var windowStart: int
    var total: nat
    var counts: map<string, nat>

    function Settings(): Config {
      Config(windowSecs, perKey, global)
    }

    function Snapshot(): State
      reads this
    {
      State(windowStart, total, counts)
    }

    constructor (windowSecs: int, perKey: nat, global: nat)
      ensures Snapshot() == FRESH && Settings() == Config(windowSecs, perKey, global)
    {
      this.windowSecs, this.perKey, this.global := windowSecs, perKey, global;
      windowStart, total, counts := 0, 0, map[];
    }

    method Allow(key: string, now: int) returns (ok: bool)
      modifies this
      ensures (Snapshot(), ok) == Step(Settings(), old(Snapshot()), key, now)
    {
      if now < windowStart || now - windowStart >= windowSecs {
        windowStart := now;
        total := 0;
        counts := map[];
      }
      if total >= global {
        return false;
      }
      ghost var base := counts;
      var n := if key in counts then counts[key] else 0;
      counts := counts[key := n];
      if n >= perKey {
        return false;
      }
      assert counts[key := n + 1] == base[key := n + 1];
      counts := counts[key := n + 1];
      total := total + 1;
      ok := true;
    }
  }

  // ── Runs ───────────────────────────────────────────────

  datatype Call = Call(key: string, now: int)

  function After(c: Config, calls: seq<Call>): State {
    if calls == [] then FRESH else Step(c, After(c, Front(calls)), Last(calls).key, Last(calls).now).0
  }

  /** The calls that were let through, in order. */
  function Admitted(c: Config, calls: seq<Call>): seq<Call> {
    if calls == [] then []
    else Admitted(c, Front(calls))
         + if Step(c, After(c, Front(calls)), Last(calls).key, Last(calls).now).1 then [Last(calls)] else []
  }

  ghost predicate ClockForward(calls: seq<Call>) {
    forall i, j :: 0 <= i < j < |calls| ==> calls[i].now <= calls[j].now
  }

  predicate Counts(x: Call, key: Option<string>, t: int, w: int) {
    t <= x.now < t + w && (key.Some? ==> x.key == key.value)
  }

  /** How many calls fall into the half-open interval of `w` seconds from `t`; `key` None counts all. */
  function InInterval(xs: seq<Call>, key: Option<string>, t: int, w: int): nat {
    if xs == [] then 0 else InInterval(Front(xs), key, t, w) + if Counts(Last(xs), key, t, w) then 1 else 0
  }

  function OfKey(xs: seq<Call>, key: string): nat {
    if xs == [] then 0 else OfKey(Front(xs), key) + if Last(xs).key == key then 1 else 0
  }

  lemma OfKeySnoc(xs: seq<Call>, x: Call, key: string)
    ensures OfKey(xs + [x], key) == OfKey(xs, key) + if x.key == key then 1 else 0
  {
  }

  lemma {:induction false} IntervalConcat(xs: seq<Call>, ys: seq<Call>, key: Option<string>, t: int, w: int)
    ensures InInterval(xs + ys, key, t, w) == InInterval(xs, key, t, w) + InInterval(ys, key, t, w)
  {
    if ys == [] {
      assert xs + ys == xs;
    } else {
      IntervalConcat(xs, Front(ys), key, t, w);
      assert Front(xs + ys) == xs + Front(ys) && Last(xs + ys) == Last(ys);
    }
  }

  lemma {:induction false} IntervalAtMost(xs: seq<Call>, key: Option<string>, t: int, w: int)
    ensures InInterval(xs, key, t, w) <= if key.Some? then OfKey(xs, key.value) else |xs|
  {
    if xs != [] {
      IntervalAtMost(Front(xs), key, t, w);
    }
  }

  lemma {:induction false} IntervalMisses(xs: seq<Call>, key: Option<string>, t: int, w: int)
    requires w <= 0 || forall i :: 0 <= i < |xs| ==> xs[i].now < t
    ensures InInterval(xs, key, t, w) == 0
  {
    if xs != [] {
      IntervalMisses(Front(xs), key, t, w);
      assert Last(xs) == xs[|xs| - 1];
    }
  }

  function Cap(c: Config, key: Option<string>): nat {
    if key.Some? then c.perKey else c.global
  }

  /** The counters count exactly the calls of the current window. */
  ghost predicate Tally(c: Config, s: State, cur: seq<Call>) {
    && |cur| == s.total <= c.global
    && forall k :: OfKey(cur, k) == CountOf(s.counts, k) <= c.perKey
  }

  /** The log split at the start of the current window: what was admitted in closed windows
      and what the counters count now. */
  ghost predicate Split(c: Config, s: State, past: seq<Call>, cur: seq<Call>, clock: int) {
    && (s.windowStart <= clock || (past == [] && cur == []))
    && Tally(c, s, cur)
    && (forall i :: 0 <= i < |cur| ==> s.windowStart <= cur[i].now <= clock)
    && (forall i :: 0 <= i < |past| ==> past[i].now <= s.windowStart && past[i].now <= clock)
    && PastBounded(c, past, s.windowStart) && LogBounded(c, past + cur)
  }

  /** Any interval that reaches into the window that began at `start` holds few earlier calls. */
  ghost predicate PastBounded(c: Config, past: seq<Call>, start: int) {
    forall key, t :: t > start - c.windowSecs ==> InInterval(past, key, t, c.windowSecs) <= Cap(c, key)
  }

  ghost predicate LogBounded(c: Config, log: seq<Call>) {
    forall key, t :: InInterval(log, key, t, c.windowSecs) <= 2 * Cap(c, key)
  }

  lemma CurrentAtMostCap(c: Config, s: State, past: seq<Call>, cur: seq<Call>, clock: int, key: Option<string>, t: int)
    requires Split(c, s, past, cur, clock)
    ensures InInterval(cur, key, t, c.windowSecs) <= Cap(c, key)
  {
    IntervalAtMost(cur, key, t, c.windowSecs);
    if key.Some? {
      assert OfKey(cur, key.value) <= c.perKey;
    }
  }

  lemma ClosedWindow(c: Config, s: State, past: seq<Call>, cur: seq<Call>, clock: int, now: int, key: Option<string>,
                     t: int)
    requires Split(c, s, past, cur, clock) && clock <= now && RollsOver(c, s, now) && t > now - c.windowSecs
    ensures InInterval(past + cur, key, t, c.windowSecs) <= Cap(c, key)
  {
    IntervalConcat(past, cur, key, t, c.windowSecs);
    CurrentAtMostCap(c, s, past, cur, clock, key, t);
    if s.windowStart <= clock {
      IntervalMisses(past, key, t, c.windowSecs);
    }
  }

  /** A new window: whatever can share an interval with it lies in the window just closed. */
  lemma RollSplit(c: Config, s: State, past: seq<Call>, cur: seq<Call>, clock: int, now: int)
    requires Split(c, s, past, cur, clock) && clock <= now
    requires RollsOver(c, s, now)
    ensures Split(c, State(now, 0, map[]), past + cur, [], now)
  {
    forall key, t | t > now - c.windowSecs
      ensures InInterval(past + cur, key, t, c.windowSecs) <= Cap(c, key)
    {
      ClosedWindow(c, s, past, cur, clock, now, key, t);
    }
    assert (past + cur) + [] == past + cur;
  }

  lemma AdmitTally(c: Config, s: State, cur: seq<Call>, x: Call)
    requires Tally(c, s, cur) && s.total < c.global && CountOf(s.counts, x.key) < c.perKey
    ensures Tally(c, State(s.windowStart, s.total + 1, s.counts[x.key := CountOf(s.counts, x.key) + 1]), cur + [x])
  {
    var counts := s.counts[x.key := CountOf(s.counts, x.key) + 1];
    forall k
      ensures OfKey(cur + [x], k) == CountOf(counts, k) <= c.perKey
    {
      OfKeySnoc(cur, x, k);
    }
  }

  /** One interval over the longer log: it reaches back past the window's start, or it does not
      reach into the window at all. */
  lemma AdmitInterval(c: Config, s: State, past: seq<Call>, cur: seq<Call>, cur': seq<Call>, key: Option<string>,
                      t: int)
    requires PastBounded(c, past, s.windowStart) && LogBounded(c, past + cur)
    requires |cur'| <= c.global && forall k :: OfKey(cur', k) <= c.perKey
    requires forall i :: 0 <= i < |cur'| ==> s.windowStart <= cur'[i].now
    ensures InInterval(past + cur', key, t, c.windowSecs) <= 2 * Cap(c, key)
  {
    var w := c.windowSecs;
    IntervalConcat(past, cur', key, t, w);
    if t > s.windowStart - w {
      IntervalAtMost(cur', key, t, w);
    } else {
      IntervalBefore(cur', key, t, w);
      IntervalConcat(past, cur, key, t, w);
      assert InInterval(past + cur, key, t, w) <= 2 * Cap(c, key);
    }
  }

  /** An admitted call joins the current window. */
  lemma AdmitSplit(c: Config, s: State, past: seq<Call>, cur: seq<Call>, clock: int, x: Call)
    requires Split(c, s, past, cur, clock) && clock <= x.now && s.windowStart <= x.now
    requires s.total < c.global && CountOf(s.counts, x.key) < c.perKey
    ensures Split(c, State(s.windowStart, s.total + 1, s.counts[x.key := CountOf(s.counts, x.key) + 1]), past,
                  cur + [x], x.now)
  {
    AdmitTally(c, s, cur, x);
    forall key, t
      ensures InInterval(past + (cur + [x]), key, t, c.windowSecs) <= 2 * Cap(c, key)
    {
      AdmitInterval(c, s, past, cur, cur + [x], key, t);
    }
  }

  lemma {:induction false} IntervalBefore(xs: seq<Call>, key: Option<string>, t: int, w: int)
    requires forall i :: 0 <= i < |xs| ==> xs[i].now >= t + w
    ensures InInterval(xs, key, t, w) == 0
  {
    if xs != [] {
      IntervalBefore(Front(xs), key, t, w);
      assert Last(xs) == xs[|xs| - 1];
    }
  }

  /** A refused call changes no count. */
  lemma RefuseSplit(c: Config, s: State, past: seq<Call>, cur: seq<Call>, clock: int, x: Call)
    requires Split(c, s, past, cur, clock) && clock <= x.now
    ensures Split(c, s, past, cur, x.now)
    ensures Split(c, s.(counts := s.counts[x.key := CountOf(s.counts, x.key)]), past, cur, x.now)
  {
    var m := s.counts[x.key := CountOf(s.counts, x.key)];
    assert forall k :: CountOf(m, k) == CountOf(s.counts, k);
  }

  /** What the call leaves in closed windows, and in the current one. */
  function NextPast(c: Config, s: State, past: seq<Call>, cur: seq<Call>, x: Call): seq<Call> {
    if RollsOver(c, s, x.now) then past + cur else past
  }

  function NextCur(c: Config, s: State, cur: seq<Call>, x: Call): seq<Call> {
    (if RollsOver(c, s, x.now) then [] else cur) + if Step(c, s, x.key, x.now).1 then [x] else []
  }

  lemma NextLog(c: Config, s: State, past: seq<Call>, cur: seq<Call>, x: Call)
    ensures NextPast(c, s, past, cur, x) + NextCur(c, s, cur, x)
            == past + cur + if Step(c, s, x.key, x.now).1 then [x] else []
  {
  }

  lemma StepSplit(c: Config, s: State, past: seq<Call>, cur: seq<Call>, clock: int, x: Call)
    requires Split(c, s, past, cur, clock) && clock <= x.now
    ensures Split(c, Step(c, s, x.key, x.now).0, NextPast(c, s, past, cur, x), NextCur(c, s, cur, x), x.now)
  {
    if RollsOver(c, s, x.now) {
      RollSplit(c, s, past, cur, clock, x.now);
      CountSplit(c, State(x.now, 0, map[]), past + cur, [], x);
    } else {
      RefuseSplit(c, s, past, cur, clock, x);
      CountSplit(c, s, past, cur, x);
    }
  }

  /** The call within its window. */
  lemma CountSplit(c: Config, r: State, past: seq<Call>, cur: seq<Call>, x: Call)
    requires Split(c, r, past, cur, x.now) && Rolled(c, r, x.now) == r
    requires r.windowStart <= x.now
    ensures Split(c, Step(c, r, x.key, x.now).0, past, cur + (if Step(c, r, x.key, x.now).1 then [x] else []), x.now)
  {
    var (after, admitted) := Step(c, r, x.key, x.now);
    if admitted {
      AdmitSplit(c, r, past, cur, x.now, x);
    } else {
      RefuseSplit(c, r, past, cur, x.now, x);
      assert after == r || after == r.(counts := r.counts[x.key := CountOf(r.counts, x.key)]);
      assert cur + [] == cur;
    }
  }

  lemma FreshSplit(c: Config, clock: int)
    ensures Split(c, FRESH, [], [], clock)
  {
  }

  lemma {:induction false} AlwaysSplit(c: Config, calls: seq<Call>, clock: int)
      returns (past: seq<Call>, cur: seq<Call>)
    requires ClockForward(calls) && (calls != [] ==> clock == Last(calls).now)
    ensures past + cur == Admitted(c, calls)
    ensures Split(c, After(c, calls), past, cur, clock)
  {
    if calls == [] {
      FreshSplit(c, clock);
      past, cur := [], [];
    } else {
      var front := Front(calls);
      var before := if front == [] then clock else Last(front).now;
      past, cur := AlwaysSplit(c, front, before);
      var s, x := After(c, front), Last(calls);
      StepSplit(c, s, past, cur, before, x);
      NextLog(c, s, past, cur, x);
      past, cur := NextPast(c, s, past, cur, x), NextCur(c, s, cur, x);
    }
  }

  /** With a clock that never goes back, any half-open interval as long as the window admits
      at most twice the limit: per key, and in all. */
  lemma SlidingBound(c: Config, calls: seq<Call>, key: string, t: int)
    requires ClockForward(calls)
    ensures InInterval(Admitted(c, calls), Some(key), t, c.windowSecs) <= 2 * c.perKey
    ensures InInterval(Admitted(c, calls), None, t, c.windowSecs) <= 2 * c.global
  {
    var past, cur := AlwaysSplit(c, calls, if calls == [] then 0 else Last(calls).now);
    assert InInterval(past + cur, Some(key), t, c.windowSecs) <= 2 * Cap(c, Some(key));
    assert InInterval(past + cur, None, t, c.windowSecs) <= 2 * Cap(c, None);
  }

  lemma {:induction false} IntervalAll(xs: seq<Call>, key: Option<string>, t: int, w: int)
    requires forall i :: 0 <= i < |xs| ==> t <= xs[i].now < t + w
    ensures InInterval(xs, key, t, w) == if key.Some? then OfKey(xs, key.value) else |xs|
  {
    if xs != [] {
      IntervalAll(Front(xs), key, t, w);
      assert Last(xs) == xs[|xs| - 1];
    }
  }

  /** The limiter refuses only for a reason: within the last window the key, or all keys
      together, had already been admitted up to the limit. */
  lemma RefusedOnlyWhenFull(c: Config, calls: seq<Call>, key: string, now: int)
    requires ClockForward(calls) && (calls != [] ==> Last(calls).now <= now)
    requires !Step(c, After(c, calls), key, now).1
    ensures var t := now - c.windowSecs + 1;
            || InInterval(Admitted(c, calls), Some(key), t, c.windowSecs) >= c.perKey
            || InInterval(Admitted(c, calls), None, t, c.windowSecs) >= c.global
  {
    var s, w, t := After(c, calls), c.windowSecs, now - c.windowSecs + 1;
    var past, cur := AlwaysSplit(c, calls, if calls == [] then now else Last(calls).now);
    if !RollsOver(c, s, now) {
      IntervalConcat(past, cur, Some(key), t, w);
      IntervalConcat(past, cur, None, t, w);
      IntervalAll(cur, Some(key), t, w);
      IntervalAll(cur, None, t, w);
      assert OfKey(cur, key) == CountOf(s.counts, key);
    }
  }

  // ── The counters ───────────────────────────────────────

  ghost function Sum(m: map<string, nat>): nat
    decreases m.Keys
  {
    if m.Keys == {} then 0 else var k :| k in m.Keys; m[k] + Sum(m - {k})
  }

  lemma {:induction false} SumRemove(m: map<string, nat>, k: string)
    requires k in m
    ensures Sum(m) == m[k] + Sum(m - {k})
    decreases m.Keys
  {
    var j :| j in m.Keys && Sum(m) == m[j] + Sum(m - {j});
    if j != k {
      SumRemove(m - {j}, k);
      SumRemove(m - {k}, j);
      assert (m - {j}) - {k} == (m - {k}) - {j};
    }
  }

  lemma SumUpdate(m: map<string, nat>, k: string, v: nat)
    ensures Sum(m[k := v]) == Sum(m) - CountOf(m, k) + v
  {
    var m' := m[k := v];
    SumRemove(m', k);
    if k in m {
      SumRemove(m, k);
      assert m' - {k} == m - {k};
    } else {
      assert m' - {k} == m;
    }
  }

  lemma {:induction false} SizeAtMostSum(m: map<string, nat>)
    requires forall k :: k in m ==> m[k] >= 1
    ensures |m| <= Sum(m)
    decreases m.Keys
  {
    if m.Keys != {} {
      var k :| k in m.Keys;
      SumRemove(m, k);
      SizeAtMostSum(m - {k});
      assert (m - {k}).Keys == m.Keys - {k};
    }
  }

  ghost predicate Tallied(c: Config, s: State) {
    && s.total == Sum(s.counts) <= c.global
    && (c.perKey >= 1 ==> forall k :: k in s.counts ==> 1 <= s.counts[k] <= c.perKey)
  }

  lemma StepTallied(c: Config, s: State, key: string, now: int)
    requires Tallied(c, s)
    ensures Tallied(c, Step(c, s, key, now).0)
  {
    var r := Rolled(c, s, now);
    var n := CountOf(r.counts, key);
    SumUpdate(r.counts, key, n);
    SumUpdate(r.counts, key, n + 1);
  }

  /** Throughout, whatever the clock does, `total` is the sum of the per-key counts and stays
      within the global limit; every key held was admitted at least once if keys may be. */
  lemma {:induction false} TotalIsSum(c: Config, calls: seq<Call>)
    ensures Tallied(c, After(c, calls))
  {
    if calls != [] {
      TotalIsSum(c, Front(calls));
      StepTallied(c, After(c, Front(calls)), Last(calls).key, Last(calls).now);
    }
  }

  lemma {:induction false} ZeroGlobalStaysEmpty(c: Config, calls: seq<Call>)
    requires c.global == 0
    ensures After(c, calls).counts == map[]
  {
    if calls != [] {
      ZeroGlobalStaysEmpty(c, Front(calls));
    }
  }

  function Xs(n: nat): (key: string)
    ensures |key| == n
  {
    seq(n, _ => 'x')
  }

  /** `n` requests at once, each under another key. */
  function Flood(n: nat): seq<Call> {
    if n == 0 then [] else Flood(n - 1) + [Call(Xs(n), 0)]
  }

  lemma StoredWhenRefused(c: Config, s: State, key: string)
    requires c.perKey == 0 && c.global >= 1 && c.windowSecs > 0 && s.total == 0 && s.windowStart == 0
             && key !in s.counts
    ensures Step(c, s, key, 0).0 == s.(counts := s.counts[key := 0]) && |s.counts[key := 0]| == |s.counts| + 1
  {
    assert s.counts[key := 0].Keys == s.counts.Keys + {key};
  }

  lemma {:induction false} FloodFillsMap(c: Config, n: nat)
    requires c.perKey == 0 && c.global >= 1 && c.windowSecs > 0
    ensures After(c, Flood(n)).total == 0 && After(c, Flood(n)).windowStart == 0
    ensures forall k :: k in After(c, Flood(n)).counts ==> |k| <= n
    ensures |After(c, Flood(n)).counts| == n
  {
    if n > 0 {
      FloodFillsMap(c, n - 1);
      assert Front(Flood(n)) == Flood(n - 1) && Last(Flood(n)) == Call(Xs(n), 0);
      StoredWhenRefused(c, After(c, Flood(n - 1)), Xs(n));
    }
  }

  /** The map stays within `global` keys in every run exactly when a key may be admitted at
      all, or nothing may: with a per-key limit of zero every refused key is still stored. */
  lemma MapBound(c: Config)
    requires c.windowSecs > 0
    ensures (forall calls :: |After(c, calls).counts| <= c.global) <==> c.perKey >= 1 || c.global == 0
  {
    if c.perKey >= 1 || c.global == 0 {
      forall calls
        ensures |After(c, calls).counts| <= c.global
      {
        if c.global == 0 {
          ZeroGlobalStaysEmpty(c, calls);
        } else {
          TotalIsSum(c, calls);
          SizeAtMostSum(After(c, calls).counts);
        }
      }
    } else {
      FloodFillsMap(c, c.global + 1);
      assert |After(c, Flood(c.global + 1)).counts| > c.global;
    }
  }
}
