/** The rolling window of DNS queries: a capped, pruned queue per address that answers
    like the full log. */
module DnsWindow {
  import opened Text

  const MAX_PER_IP: nat := 200
  const U64: nat := 0x1_0000_0000_0000_0000

  datatype Query = Query(seqNo: nat, at: int, domain: string)

  datatype Stats = Stats(count: nat, lastAt: Option<int>)

  type Queues = map<string, seq<Query>>

  function QueueOf(m: Queues, ip: string): seq<Query> {
    if ip in m then m[ip] else []
  }

  /** The newest `MAX_PER_IP` entries. */
  function Capped(q: seq<Query>): (r: seq<Query>)
    ensures |r| <= MAX_PER_IP
  {
    if |q| > MAX_PER_IP then q[|q| - MAX_PER_IP..] else q
  }

  lemma CappedTail(q: seq<Query>)
    requires |q| > MAX_PER_IP
    ensures Capped(q[1..]) == Capped(q)
  {
  }

  /** Without the old entries at the front. */
  function DropOld(q: seq<Query>, cutoff: int): seq<Query> {
    if q != [] && q[0].at < cutoff then DropOld(q[1..], cutoff) else q
  }

  lemma {:induction false} DropOldMeans(q: seq<Query>, cutoff: int)
    ensures var r := DropOld(q, cutoff);
            && |r| <= |q| && r == q[|q| - |r|..]
            && (r != [] ==> r[0].at >= cutoff)
            && forall i :: 0 <= i < |q| - |r| ==> q[i].at < cutoff
  {
    if q != [] && q[0].at < cutoff {
      DropOldMeans(q[1..], cutoff);
      var r := DropOld(q, cutoff);
      assert forall i :: 1 <= i < |q| ==> q[i] == q[1..][i - 1];
      assert q[|q| - |r|..] == q[1..][|q| - 1 - |r|..];
    }
  }

  function Pruned(m: Queues, cutoff: int): Queues {
    map ip | ip in m && DropOld(m[ip], cutoff) != [] :: DropOld(m[ip], cutoff)
  }

  /** The entries at or after `cutoff`, newest first. */
  function NewestFirst(q: seq<Query>, cutoff: int): seq<Query> {
    if q == [] then []
    else (if Last(q).at >= cutoff then [Last(q)] else []) + NewestFirst(Front(q), cutoff)
  }

  lemma NewestFirstSnoc(q: seq<Query>, x: Query, cutoff: int)
    ensures NewestFirst(q + [x], cutoff) == if x.at >= cutoff then [x] + NewestFirst(q, cutoff)
            else NewestFirst(q, cutoff)
  {
  }

  function Take<T>(s: seq<T>, n: nat): seq<T> {
    if n < |s| then s[..n] else s
  }

  function Later(a: Option<int>, t: int): Option<int> {
    if a.None? || t > a.value then Some(t) else a
  }

  /** The latest time in a list of entries. */
  function Latest(q: seq<Query>): Option<int> {
    if q == [] then None else Later(Latest(q[1..]), q[0].at)
  }

  lemma {:induction false} LatestMeans(q: seq<Query>)
    ensures match Latest(q)
            case None => q == []
            case Some(t) => (exists i :: 0 <= i < |q| && q[i].at == t) && forall i :: 0 <= i < |q| ==> q[i].at <= t
  {
    if q != [] {
      LatestMeans(q[1..]);
      var rest := q[1..];
      assert forall i :: 1 <= i < |q| ==> q[i] == rest[i - 1];
      if Latest(rest).Some? && q[0].at <= Latest(rest).value {
        var i :| 0 <= i < |rest| && rest[i].at == Latest(rest).value;
        assert q[i + 1].at == Latest(rest).value;
      } else {
        assert q[0].at == Latest(q).value;
      }
    }
  }

  function StatsOf(q: seq<Query>, cutoff: int): Stats {
    Stats(|NewestFirst(q, cutoff)|, Latest(NewestFirst(q, cutoff)))
  }

  /** The state and what one call does to it. */
  datatype State = State(queues: Queues, next: nat)

  datatype Event = Record(ip: string, domain: string, at: int) | Prune(at: int)

  function Apply(s: State, e: Event, keepSecs: int): State {
    match e
    case Record(ip, domain, at) =>
      State(s.queues[ip := Capped(QueueOf(s.queues, ip) + [Query(s.next, at, domain)])], (s.next + 1) % U64)
    case Prune(now) => s.(queues := Pruned(s.queues, now - keepSecs))
  }

  class Window {
    const keepSecs: int
    var inner: Queues
    var next: nat

    function Snapshot(): State
      reads this
    {
      State(inner, next)
    }

    constructor (keepSecs: int)
      ensures Snapshot() == State(map[], 0) && this.keepSecs == keepSecs
    {
      this.keepSecs := keepSecs;
      inner, next := map[], 0;
    }

    method RecordQuery(ip: string, domain: string, at: int)
      modifies this
      ensures Snapshot() == Apply(old(Snapshot()), Record(ip, domain, at), keepSecs)
    {
      var q := if ip in inner then inner[ip] else [];
      var seqNo := next;
      next := (next + 1) % U64;
      q := q + [Query(seqNo, at, domain)];
      ghost var pushed := q;
      while |q| > MAX_PER_IP
        invariant Capped(q) == Capped(pushed)
        invariant inner == old(inner) && next == (old(next) + 1) % U64
      {
        CappedTail(q);
        q := q[1..];
      }
      assert q == Capped(pushed);
      inner := inner[ip := q];
    }

    method PruneOld(now: int)
      modifies this`inner
      ensures Snapshot() == Apply(old(Snapshot()), Prune(now), keepSecs)
    {
      var cutoff := now - keepSecs;
      var before := inner;
      var todo := inner.Keys;
      while todo != {}
        invariant todo <= before.Keys && inner.Keys <= before.Keys
        invariant forall ip :: ip in todo ==> ip in inner && inner[ip] == before[ip]
        invariant forall ip :: ip in before && ip !in todo ==>
                    (ip in inner <==> DropOld(before[ip], cutoff) != [])
                    && (ip in inner ==> inner[ip] == DropOld(before[ip], cutoff))
        decreases todo
      {
        var ip :| ip in todo;
        var q := inner[ip];
        while q != [] && q[0].at < cutoff
          invariant DropOld(q, cutoff) == DropOld(before[ip], cutoff)
          decreases |q|
        {
          q := q[1..];
        }
        if q == [] {
          inner := inner - {ip};
        } else {
          inner := inner[ip := q];
        }
        todo := todo - {ip};
      }
    }

    method Stat(ip: string, withinSecs: int, now: int) returns (s: Stats)
      ensures s == StatsOf(QueueOf(inner, ip), now - withinSecs)
    {
      if ip !in inner {
        return Stats(0, None);
      }
      var q, cutoff := inner[ip], now - withinSecs;
      var count, last: Option<int> := 0, None;
      for i := 0 to |q|
        invariant Stats(count, last) == StatsOf(q[..i], cutoff)
      {
        assert q[..i + 1] == q[..i] + [q[i]];
        NewestFirstSnoc(q[..i], q[i], cutoff);
        if q[i].at >= cutoff {
          assert ([q[i]] + NewestFirst(q[..i], cutoff))[1..] == NewestFirst(q[..i], cutoff);
          count := count + 1;
          last := Later(last, q[i].at);
        }
      }
      assert q[..|q|] == q;
      s := Stats(count, last);
    }

    method Recent(ip: string, limit: nat, now: int, withinSecs: int) returns (out: seq<Query>)
      ensures out == Take(NewestFirst(QueueOf(inner, ip), now - withinSecs), limit)
    {
      out := [];
      if ip !in inner {
        return;
      }
      var q, cutoff := inner[ip], now - withinSecs;
      var i := |q|;
      assert q[..|q|] == q;
      while i > 0 && |out| < limit
        invariant 0 <= i <= |q| && |out| <= limit
        invariant out + NewestFirst(q[..i], cutoff) == NewestFirst(q, cutoff)
      {
        i := i - 1;
        NextBack(q, i, cutoff, out);
        if q[i].at >= cutoff {
          out := out + [q[i]];
        }
      }
      TakePrefix(out, NewestFirst(q[..i], cutoff), limit);
    }
  }

  /** Reading backwards, one entry moves from what is left to what was put out. */
  lemma NextBack(q: seq<Query>, i: nat, cutoff: int, out: seq<Query>)
    requires i < |q|
    ensures out + NewestFirst(q[..i + 1], cutoff)
            == (if q[i].at >= cutoff then out + [q[i]] else out) + NewestFirst(q[..i], cutoff)
  {
    assert q[..i + 1] == q[..i] + [q[i]];
    NewestFirstSnoc(q[..i], q[i], cutoff);
    Assoc3(out, [q[i]], NewestFirst(q[..i], cutoff));
  }

  lemma TakePrefix<T>(out: seq<T>, rest: seq<T>, limit: nat)
    requires |out| <= limit && (|out| < limit ==> rest == [])
    ensures Take(out + rest, limit) == out
  {
  }

  // ── The full log ───────────────────────────────────────

  function After(es: seq<Event>, keepSecs: int): State {
    if es == [] then State(map[], 0) else Apply(After(Front(es), keepSecs), Last(es), keepSecs)
  }

  function Records(es: seq<Event>): nat {
    if es == [] then 0 else Records(Front(es)) + if Last(es).Record? then 1 else 0
  }

  /** Everything ever recorded for an address, oldest first. */
  function Log(es: seq<Event>, ip: string): seq<Query> {
    if es == [] then []
    else
      var l := Log(Front(es), ip);
      match Last(es)
      case Record(i, domain, at) => if i == ip then l + [Query(Records(Front(es)) % U64, at, domain)] else l
      case Prune(_) => l
  }

  /** The clock never goes back and has reached `now` at most. */
  ghost predicate TimesUpTo(es: seq<Event>, now: int) {
    && (forall i, j :: 0 <= i < j < |es| ==> es[i].at <= es[j].at)
    && (forall i :: 0 <= i < |es| ==> es[i].at <= now)
  }

  ghost predicate Sorted(q: seq<Query>) {
    forall i, j :: 0 <= i < j < |q| ==> q[i].at <= q[j].at
  }

  /** The queue is the end of the log; what it lacks was dropped because it is full or because
      it is older than the retention. */
  ghost predicate Faithful(q: seq<Query>, log: seq<Query>, keepSecs: int, clock: int) {
    && |q| <= MAX_PER_IP && |q| <= |log| && q == log[|log| - |q|..]
    && Sorted(log) && (forall i :: 0 <= i < |log| ==> log[i].at <= clock)
    && (|q| == MAX_PER_IP || forall i :: 0 <= i < |log| - |q| ==> log[i].at < clock - keepSecs)
  }

  lemma FaithfulPush(q: seq<Query>, log: seq<Query>, x: Query, keepSecs: int, clock: int)
    requires Faithful(q, log, keepSecs, clock) && x.at >= clock
    ensures Faithful(Capped(q + [x]), log + [x], keepSecs, x.at)
  {
  }

  lemma FaithfulDrop(q: seq<Query>, log: seq<Query>, keepSecs: int, clock: int, now: int)
    requires Faithful(q, log, keepSecs, clock) && now >= clock
    ensures Faithful(DropOld(q, now - keepSecs), log, keepSecs, now)
  {
    var r := DropOld(q, now - keepSecs);
    DropOldMeans(q, now - keepSecs);
    if |r| < |q| {
      assert log[|log| - |r| - 1] == q[|q| - |r| - 1];
    }
  }

  lemma FaithfulLater(q: seq<Query>, log: seq<Query>, keepSecs: int, clock: int, now: int)
    requires Faithful(q, log, keepSecs, clock) && now >= clock
    ensures Faithful(q, log, keepSecs, now)
  {
  }

  lemma {:induction false} NextIsCount(es: seq<Event>, keepSecs: int)
    ensures After(es, keepSecs).next == Records(es) % U64
  {
    if es != [] {
      NextIsCount(Front(es), keepSecs);
      NextNumber(Records(Front(es)));
    }
  }

  lemma StepFaithful(s: State, e: Event, ip: string, log: seq<Query>, log': seq<Query>, keepSecs: int)
    requires Faithful(QueueOf(s.queues, ip), log, keepSecs, e.at)
    requires log' == if e.Record? && e.ip == ip then log + [Query(s.next, e.at, e.domain)] else log
    ensures Faithful(QueueOf(Apply(s, e, keepSecs).queues, ip), log', keepSecs, e.at)
  {
    match e
    case Record(i, domain, at) =>
      if i == ip {
        FaithfulPush(QueueOf(s.queues, ip), log, Query(s.next, at, domain), keepSecs, at);
      }
    case Prune(t) =>
      FaithfulDrop(QueueOf(s.queues, ip), log, keepSecs, t, t);
  }

  lemma {:induction false} AlwaysFaithful(es: seq<Event>, keepSecs: int, now: int, ip: string)
    requires TimesUpTo(es, now)
    ensures Faithful(QueueOf(After(es, keepSecs).queues, ip), Log(es, ip), keepSecs, now)
  {
    if es != [] {
      var e, front := Last(es), Front(es);
      AlwaysFaithful(front, keepSecs, e.at, ip);
      NextIsCount(front, keepSecs);
      StepFaithful(After(front, keepSecs), e, ip, Log(front, ip), Log(es, ip), keepSecs);
      FaithfulLater(QueueOf(After(es, keepSecs).queues, ip), Log(es, ip), keepSecs, e.at, now);
    }
  }

  lemma NextNumber(n: nat)
    ensures (n % U64 + 1) % U64 == (n + 1) % U64
  {
  }

  lemma {:induction false} NewestFirstConcat(a: seq<Query>, b: seq<Query>, cutoff: int)
    ensures NewestFirst(a + b, cutoff) == NewestFirst(b, cutoff) + NewestFirst(a, cutoff)
  {
    if b == [] {
      assert a + b == a;
    } else {
      var f, x := Front(b), Last(b);
      NewestFirstConcat(a, f, cutoff);
      assert a + b == (a + f) + [x] && b == f + [x];
      NewestFirstSnoc(a + f, x, cutoff);
      NewestFirstSnoc(f, x, cutoff);
      Assoc3([x], NewestFirst(f, cutoff), NewestFirst(a, cutoff));
    }
  }

  lemma {:induction false} NewestFirstNone(q: seq<Query>, cutoff: int)
    requires forall i :: 0 <= i < |q| ==> q[i].at < cutoff
    ensures NewestFirst(q, cutoff) == []
  {
    if q != [] {
      NewestFirstNone(Front(q), cutoff);
    }
  }

  lemma {:induction false} NewestFirstSize(q: seq<Query>, cutoff: int)
    ensures |NewestFirst(q, cutoff)| <= |q|
    ensures (forall i :: 0 <= i < |q| ==> q[i].at >= cutoff) ==> |NewestFirst(q, cutoff)| == |q|
  {
    if q != [] {
      NewestFirstSize(Front(q), cutoff);
    }
  }

  /** What is gone is too old to be shown. */
  lemma ShowsWhenGoneIsOld(gone: seq<Query>, q: seq<Query>, cutoff: int)
    requires |q| <= MAX_PER_IP && forall i :: 0 <= i < |gone| ==> gone[i].at < cutoff
    ensures NewestFirst(q, cutoff) == Take(NewestFirst(gone + q, cutoff), MAX_PER_IP)
  {
    NewestFirstConcat(gone, q, cutoff);
    NewestFirstNone(gone, cutoff);
    NewestFirstSize(q, cutoff);
    assert NewestFirst(q, cutoff) + [] == NewestFirst(q, cutoff);
  }

  /** A full queue of entries that are all to be shown is what the limit leaves of the log. */
  lemma ShowsWhenFull(gone: seq<Query>, q: seq<Query>, cutoff: int)
    requires |q| == MAX_PER_IP && forall i :: 0 <= i < |q| ==> q[i].at >= cutoff
    ensures NewestFirst(q, cutoff) == Take(NewestFirst(gone + q, cutoff), MAX_PER_IP)
  {
    NewestFirstConcat(gone, q, cutoff);
    NewestFirstSize(q, cutoff);
    var n, g := NewestFirst(q, cutoff), NewestFirst(gone, cutoff);
    assert (n + g)[..|n|] == n;
  }

  /** Looking no further back than the retention, the queue shows the newest 200 of the log. */
  lemma QueueShowsLog(q: seq<Query>, log: seq<Query>, keepSecs: int, clock: int, cutoff: int)
    requires Faithful(q, log, keepSecs, clock) && cutoff >= clock - keepSecs
    ensures NewestFirst(q, cutoff) == Take(NewestFirst(log, cutoff), MAX_PER_IP)
  {
    var gone := log[..|log| - |q|];
    assert log == gone + q;
    if forall i :: 0 <= i < |gone| ==> gone[i].at < cutoff {
      ShowsWhenGoneIsOld(gone, q, cutoff);
    } else {
      var k :| 0 <= k < |gone| && gone[k].at >= cutoff;
      GoneIsOlder(q, log, k);
      ShowsWhenFull(gone, q, cutoff);
    }
  }

  lemma GoneIsOlder(q: seq<Query>, log: seq<Query>, k: nat)
    requires |q| <= |log| && q == log[|log| - |q|..] && Sorted(log) && k < |log| - |q|
    ensures forall i :: 0 <= i < |q| ==> log[k].at <= q[i].at
  {
    assert forall i :: 0 <= i < |q| ==> q[i] == log[|log| - |q| + i];
  }

  lemma {:induction false} NewestFirstBelow(q: seq<Query>, cutoff: int, t: int)
    requires forall i :: 0 <= i < |q| ==> q[i].at <= t
    ensures forall i :: 0 <= i < |NewestFirst(q, cutoff)| ==> NewestFirst(q, cutoff)[i].at <= t
  {
    if q != [] {
      NewestFirstBelow(Front(q), cutoff, t);
    }
  }

  /** Newest first means latest first. */
  lemma {:induction false} LatestIsFirst(q: seq<Query>, cutoff: int)
    requires Sorted(q)
    ensures var r := NewestFirst(q, cutoff);
            r != [] ==> forall i :: 0 <= i < |r| ==> r[i].at <= r[0].at
  {
    if q != [] {
      assert q == Front(q) + [Last(q)];
      NewestFirstSnoc(Front(q), Last(q), cutoff);
      if Last(q).at >= cutoff {
        NewestFirstBelow(Front(q), cutoff, Last(q).at);
      } else {
        LatestIsFirst(Front(q), cutoff);
      }
    }
  }

  lemma LatestWhenFirst(r: seq<Query>)
    requires r != [] && forall i :: 0 <= i < |r| ==> r[i].at <= r[0].at
    ensures Latest(r) == Some(r[0].at)
  {
    LatestMeans(r);
  }

  /** A prefix that keeps the latest entry, which comes first, has the same latest time. */
  lemma LatestOfPrefix(r: seq<Query>, n: nat)
    requires n > 0 && (r != [] ==> forall i :: 0 <= i < |r| ==> r[i].at <= r[0].at)
    ensures Latest(Take(r, n)) == Latest(r)
  {
    if r != [] {
      LatestWhenFirst(r);
      LatestWhenFirst(Take(r, n));
    }
  }

  /** The figures of a full log for an interval. */
  function FullStats(log: seq<Query>, cutoff: int): Stats {
    var r := NewestFirst(log, cutoff);
    Stats(if |r| < 200 then |r| else 200, Latest(r))
  }

  function LogStats(es: seq<Event>, ip: string, cutoff: int): Stats {
    FullStats(Log(es, ip), cutoff)
  }

  lemma StatsShowLog(q: seq<Query>, log: seq<Query>, keepSecs: int, clock: int, cutoff: int)
    requires Faithful(q, log, keepSecs, clock) && cutoff >= clock - keepSecs
    ensures StatsOf(q, cutoff) == FullStats(log, cutoff)
  {
    QueueShowsLog(q, log, keepSecs, clock, cutoff);
    LatestIsFirst(log, cutoff);
    LatestOfPrefix(NewestFirst(log, cutoff), MAX_PER_IP);
  }

  /** Whatever the interleaving of recording and pruning, `stats` counts the true queries of
      the interval up to 200 and gives the true latest time. */
  lemma StatsMatchLog(es: seq<Event>, keepSecs: int, ip: string, withinSecs: int, now: int)
    requires TimesUpTo(es, now) && withinSecs <= keepSecs
    ensures StatsOf(QueueOf(After(es, keepSecs).queues, ip), now - withinSecs) == LogStats(es, ip, now - withinSecs)
  {
    AlwaysFaithful(es, keepSecs, now, ip);
    StatsShowLog(QueueOf(After(es, keepSecs).queues, ip), Log(es, ip), keepSecs, now, now - withinSecs);
  }

  lemma TakeTwice<T>(s: seq<T>, m: nat, n: nat)
    ensures Take(Take(s, m), n) == Take(s, if n < m then n else m)
  {
  }

  /** `recent` is a prefix of the log read backwards. */
  lemma RecentMatchesLog(es: seq<Event>, keepSecs: int, ip: string, limit: nat, withinSecs: int, now: int)
    requires TimesUpTo(es, now) && withinSecs <= keepSecs
    ensures Take(NewestFirst(QueueOf(After(es, keepSecs).queues, ip), now - withinSecs), limit)
            == Take(NewestFirst(Log(es, ip), now - withinSecs), if limit < 200 then limit else 200)
  {
    AlwaysFaithful(es, keepSecs, now, ip);
    QueueShowsLog(QueueOf(After(es, keepSecs).queues, ip), Log(es, ip), keepSecs, now, now - withinSecs);
    TakeTwice(NewestFirst(Log(es, ip), now - withinSecs), MAX_PER_IP, limit);
  }

  ghost predicate QueriedSince(log: seq<Query>, cutoff: int) {
    exists i :: 0 <= i < |log| && log[i].at >= cutoff
  }

  lemma {:induction false} NewestFirstFinds(q: seq<Query>, cutoff: int)
    ensures |NewestFirst(q, cutoff)| > 0 <==> QueriedSince(q, cutoff)
  {
    if q != [] {
      NewestFirstFinds(Front(q), cutoff);
      assert forall i :: 0 <= i < |q| - 1 ==> q[i] == Front(q)[i];
    }
  }

  lemma {:induction false} LogStatsPositive(es: seq<Event>, ip: string, cutoff: int)
    ensures LogStats(es, ip, cutoff).count > 0 <==> QueriedSince(Log(es, ip), cutoff)
  {
    NewestFirstFinds(Log(es, ip), cutoff);
  }

  /** An address shows activity in the interval exactly when the log has a query there. */
  lemma ActivityMeansQuery(es: seq<Event>, keepSecs: int, ip: string, withinSecs: int, now: int)
    requires TimesUpTo(es, now) && withinSecs <= keepSecs
    ensures StatsOf(QueueOf(After(es, keepSecs).queues, ip), now - withinSecs).count > 0
            <==> QueriedSince(Log(es, ip), now - withinSecs)
  {
    StatsMatchLog(es, keepSecs, ip, withinSecs, now);
    LogStatsPositive(es, ip, now - withinSecs);
  }

  // ── Memory ─────────────────────────────────────────────

  lemma AfterPrune(es: seq<Event>, keepSecs: int, now: int)
    ensures After(es + [Prune(now)], keepSecs).queues == Pruned(After(es, keepSecs).queues, now - keepSecs)
  {
    assert Front(es + [Prune(now)]) == es && Last(es + [Prune(now)]) == Prune(now);
  }

  lemma QueueSorted(q: seq<Query>, log: seq<Query>, keepSecs: int, clock: int)
    requires Faithful(q, log, keepSecs, clock)
    ensures Sorted(q)
  {
    TailSorted(log, |log| - |q|);
  }

  /** The end of the queue from the cutoff on: nothing older, and everything younger. */
  ghost predicate YoungEnd(q: seq<Query>, r: seq<Query>, cutoff: int) {
    && |r| <= |q| && r == q[|q| - |r|..]
    && (forall i :: 0 <= i < |r| ==> r[i].at >= cutoff)
    && forall x :: x in q && x.at >= cutoff ==> x in r
  }

  lemma DropLeaves(q: seq<Query>, cutoff: int)
    requires Sorted(q)
    ensures YoungEnd(q, DropOld(q, cutoff), cutoff)
  {
    DropOldMeans(q, cutoff);
    DropKeepsYoung(q, cutoff);
  }

  lemma PrunedLeaves(before: Queues, after: Queues, cutoff: int, ip: string)
    requires after == Pruned(before, cutoff) && Sorted(QueueOf(before, ip))
    ensures YoungEnd(QueueOf(before, ip), QueueOf(after, ip), cutoff)
    ensures ip in after ==> after[ip] != []
  {
    DropLeaves(QueueOf(before, ip), cutoff);
    assert QueueOf(after, ip) == DropOld(QueueOf(before, ip), cutoff);
  }

  lemma QueuesSorted(es: seq<Event>, keepSecs: int, now: int, ip: string)
    requires TimesUpTo(es, now)
    ensures Sorted(QueueOf(After(es, keepSecs).queues, ip))
  {
    AlwaysFaithful(es, keepSecs, now, ip);
    QueueSorted(QueueOf(After(es, keepSecs).queues, ip), Log(es, ip), keepSecs, now);
  }

  /** A prune leaves no entry older than the retention, no empty queue, and everything younger. */
  lemma PruneLeaves(es: seq<Event>, keepSecs: int, now: int, ip: string)
    requires TimesUpTo(es, now)
    ensures var before, after := After(es, keepSecs).queues, After(es + [Prune(now)], keepSecs).queues;
            && YoungEnd(QueueOf(before, ip), QueueOf(after, ip), now - keepSecs)
            && (ip in after ==> after[ip] != [])
  {
    var before, after := After(es, keepSecs).queues, After(es + [Prune(now)], keepSecs).queues;
    AfterPrune(es, keepSecs, now);
    QueuesSorted(es, keepSecs, now, ip);
    PrunedLeaves(before, after, now - keepSecs, ip);
  }

  lemma TailSorted(log: seq<Query>, n: nat)
    requires Sorted(log) && n <= |log|
    ensures Sorted(log[n..])
  {
  }

  lemma DropKeepsYoung(q: seq<Query>, cutoff: int)
    requires Sorted(q)
    ensures forall i :: 0 <= i < |DropOld(q, cutoff)| ==> DropOld(q, cutoff)[i].at >= cutoff
    ensures forall x :: x in q && x.at >= cutoff ==> x in DropOld(q, cutoff)
  {
    var r := DropOld(q, cutoff);
    DropOldMeans(q, cutoff);
    var n := |q| - |r|;
    assert forall i :: 0 <= i < |r| ==> r[i] == q[n + i];
    forall x | x in q && x.at >= cutoff
      ensures x in r
    {
      var i :| 0 <= i < |q| && q[i] == x;
      assert r[i - n] == x;
    }
  }

  // ── Sequence numbers ───────────────────────────────────

  lemma {:induction false} NumbersBelow(es: seq<Event>, ip: string)
    requires Records(es) <= U64
    ensures forall i :: 0 <= i < |Log(es, ip)| ==> Log(es, ip)[i].seqNo < Records(es)
    ensures forall i, j :: 0 <= i < j < |Log(es, ip)| ==> Log(es, ip)[i].seqNo < Log(es, ip)[j].seqNo
  {
    if es != [] {
      NumbersBelow(Front(es), ip);
    }
  }

  /** Until the 64-bit counter wraps, no number is given twice, not even to two addresses, and
      within one address numbers grow. */
  lemma {:induction false} NumbersAreDistinct(es: seq<Event>, ip: string, ip': string, i: nat, j: nat)
    requires Records(es) <= U64 && i < |Log(es, ip)| && j < |Log(es, ip')|
    ensures Log(es, ip)[i].seqNo == Log(es, ip')[j].seqNo <==> ip == ip' && i == j
    ensures ip == ip' && i < j ==> Log(es, ip)[i].seqNo < Log(es, ip')[j].seqNo
    decreases |es|
  {
    NumbersBelow(es, ip);
    if es != [] && ip != ip' {
      var front := Front(es);
      NumbersBelow(front, ip);
      NumbersBelow(front, ip');
      if i < |Log(front, ip)| && j < |Log(front, ip')| {
        NumbersAreDistinct(front, ip, ip', i, j);
      }
    }
  }
}
