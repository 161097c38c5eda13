/** The bounded session store: a capped map that sweeps expired records and, when still
    full, drops the record that would expire soonest. */
module SessionStore {
  import opened Sets
  import opened Text

  /** A 128-bit random number. */
  datatype Id = Id(bits: nat)

  datatype Record = Record(id: Id, data: string, expiry: int)

  type Table = map<Id, Record>

  predicate IsActive(r: Record, now: int) {
    r.expiry > now
  }

  function Active(m: Table, now: int): Table {
    map k | k in m && IsActive(m[k], now) :: m[k]
  }

  /** Every record sits under its own id. */
  ghost predicate OwnIds(m: Table) {
    forall k :: k in m ==> m[k].id == k
  }

  /** `v` is a record that expires no later than any other. */
  ghost predicate Soonest(m: Table, v: Id) {
    v in m && forall k :: k in m ==> m[v].expiry <= m[k].expiry
  }

  lemma {:induction false} SoonestExists(m: Table)
    requires m.Keys != {}
    ensures exists v :: Soonest(m, v)
    decreases m.Keys
  {
    var k :| k in m.Keys;
    var rest := m - {k};
    assert m.Keys == rest.Keys + {k};
    if rest.Keys == {} {
      assert Soonest(m, k);
    } else {
      SoonestExists(rest);
      var v :| Soonest(rest, v);
      if m[v].expiry <= m[k].expiry {
        assert Soonest(m, v);
      } else {
        assert Soonest(m, k);
      }
    }
  }

  lemma RemoveOne(m: Table, k: Id)
    requires k in m
    ensures |m - {k}| == |m| - 1
  {
  }

  // ── One step of the store ──────────────────────────────

  datatype Op = Put(record: Record) | Load(id: Id, answer: Option<Record>) | Delete(id: Id) | Sweep

  /** A call and the clock it read. */
  datatype Event = Event(now: int, op: Op)

  /** The table after the expired records were swept, which happens only when it is full. */
  function Swept(m: Table, max: nat, now: int): Table {
    if |m| >= max then Active(m, now) else m
  }

  /** A new id is inserted; a still full table first loses one soonest record. */
  ghost predicate Inserted(m: Table, m': Table, max: nat, r: Record, now: int) {
    var base := Swept(m, max, now);
    if |base| >= max then
      exists v :: Soonest(base, v) && m' == (base - {v})[r.id := r]
    else
      m' == base[r.id := r]
  }

  ghost predicate Next(m: Table, e: Event, m': Table, max: nat) {
    match e.op
    case Put(r) => if r.id in m then m' == m[r.id := r] else Inserted(m, m', max, r, e.now)
    case Load(id, answer) =>
      if id in m && IsActive(m[id], e.now) then answer == Some(m[id]) && m' == m
      else answer == None && m' == m - {id}
    case Delete(id) => m' == m - {id}
    case Sweep => m' == Active(m, e.now)
  }

  /** The warning is printed at most once a minute. */
  const EVICT_WARN_EVERY: int := 60

  /** The evictions not yet reported, the time of the last warning, and what the step printed. */
  datatype Tally = Tally(count: nat, last: Option<int>, warned: Option<nat>)

  /** Counting evictions: a warning reports all since the one before and restarts the counter. */
  function Noted(count: nat, last: Option<int>, evicted: nat, now: int): Tally {
    if last.None? || now - last.value >= EVICT_WARN_EVERY then Tally(0, Some(now), Some(count + evicted))
    else Tally(count + evicted, last, None)
  }

  class BoundedMemoryStore {
    const max: nat
    var table: Table
    var evictedSinceWarn: nat
    var lastWarn: Option<int>

    ghost predicate Valid()
      reads this
    {
      1 <= max && |table| <= max && OwnIds(table)
    }

    constructor (limit: nat)
      ensures Valid() && table == map[] && evictedSinceWarn == 0 && lastWarn == None
      ensures max == if limit == 0 then 1 else limit
    {
      max := if limit == 0 then 1 else limit;
      table := map[];
      evictedSinceWarn, lastWarn := 0, None;
    }

    method SweepExpired(now: int) returns (gone: nat)
      requires Valid()
      modifies this`table
      ensures Valid() && Next(old(table), Event(now, Sweep), table, max)
      ensures gone == |old(table)| - |table|
    {
      var before := |table|;
      assert Active(table, now).Keys <= table.Keys;
      SubsetSize(Active(table, now).Keys, table.Keys);
      table := Active(table, now);
      gone := before - |table|;
    }

    /** Puts in an id the table does not hold, making room first. */
    method InsertNew(record: Record, now: int, warnNow: int) returns (warned: Option<nat>)
      requires Valid() && record.id !in table
      modifies this
      ensures Valid() && Inserted(old(table), table, max, record, now)
      ensures Tally(evictedSinceWarn, lastWarn, warned)
              == if |Swept(old(table), max, now)| >= max
                 then Noted(old(evictedSinceWarn), old(lastWarn), 1, warnNow)
                 else Tally(old(evictedSinceWarn), old(lastWarn), None)
    {
      warned := None;
      if |table| >= max {
        SubsetSize(Active(table, now).Keys, table.Keys);
        table := Active(table, now);
      }
      ghost var base := table;
      assert base == Swept(old(table), max, now);
      var evicted := 0;
      ghost var gone := Id(0);
      while |table| >= max
        invariant OwnIds(table) && |table| <= max && record.id !in table
        invariant evicted == 0 ==> table == base
        invariant evicted != 0 ==> evicted == 1 && Soonest(base, gone) && table == base - {gone} && |table| < max
        invariant evicted != 0 ==> |base| >= max
        invariant lastWarn == old(lastWarn) && evictedSinceWarn == old(evictedSinceWarn)
        decreases |table|
      {
        SoonestExists(table);
        var slot :| slot in table && forall k :: k in table ==> table[slot].expiry <= table[k].expiry;
        // The record names the slot to clear; only because it sits under its own id does
        // the table shrink.
        var victim := table[slot].id;
        RemoveOne(table, victim);
        gone := victim;
        table := table - {victim};
        evicted := evicted + 1;
      }
      if evicted > 0 {
        warned := NoteEviction(evicted, warnNow);
      }
      InsertSize(table, record);
      table := table[record.id := record];
    }

    method NoteEviction(evicted: nat, now: int) returns (warned: Option<nat>)
      modifies this`evictedSinceWarn, this`lastWarn
      ensures Tally(evictedSinceWarn, lastWarn, warned)
              == Noted(old(evictedSinceWarn), old(lastWarn), evicted, now)
    {
      evictedSinceWarn := evictedSinceWarn + evicted;
      warned := None;
      if lastWarn.None? || now - lastWarn.value >= EVICT_WARN_EVERY {
        warned := Some(evictedSinceWarn);
        evictedSinceWarn := 0;
        lastWarn := Some(now);
      }
    }

    /** `create`: a colliding id is redrawn until it is free; `draws` are the random ids. */
    method Create(record: Record, draws: seq<Id>, now: int, warnNow: int) returns (stored: Record)
      requires Valid()
      requires exists i :: 0 <= i < |draws| && draws[i] !in table
      modifies this
      ensures Valid() && Next(old(table), Event(now, Put(stored)), table, max)
      ensures stored == record.(id := stored.id) && stored.id !in old(table)
      ensures record.id !in old(table) ==> stored == record
    {
      stored := record;
      var i := 0;
      while stored.id in table
        invariant 0 <= i <= |draws| && stored == record.(id := stored.id)
        invariant i == 0 ==> stored == record
        invariant i > 0 ==> record.id in table && stored.id == draws[i - 1]
        invariant forall j :: 0 <= j < i - 1 ==> draws[j] in table
        decreases |draws| - i
      {
        assert i > 0 ==> draws[i - 1] in table;
        stored := stored.(id := draws[i]);
        i := i + 1;
      }
      var _ := InsertNew(stored, now, warnNow);
    }

    method Save(record: Record, now: int, warnNow: int)
      requires Valid()
      modifies this
      ensures Valid() && Next(old(table), Event(now, Put(record)), table, max)
    {
      if record.id in table {
        assert table[record.id := record].Keys == table.Keys;
        table := table[record.id := record];
      } else {
        var _ := InsertNew(record, now, warnNow);
      }
    }

    method LoadRecord(id: Id, now: int) returns (found: Option<Record>)
      requires Valid()
      modifies this`table
      ensures Valid() && Next(old(table), Event(now, Load(id, found)), table, max)
    {
      found := None;
      if id in table {
        if IsActive(table[id], now) {
          found := Some(table[id]);
        } else {
          RemoveOne(table, id);
          table := table - {id};
        }
      } else {
        assert table - {id} == table;
      }
    }

    method DeleteRecord(id: Id)
      requires Valid()
      modifies this`table
      ensures Valid() && forall now :: Next(old(table), Event(now, Delete(id)), table, max)
    {
      if id in table {
        RemoveOne(table, id);
      } else {
        assert table - {id} == table;
      }
      table := table - {id};
    }
  }

  lemma InsertSize(m: Table, r: Record)
    ensures |m[r.id := r]| <= |m| + 1
  {
  }

  // ── Every run ──────────────────────────────────────────

  /** A run from the empty store: the table before and after each call. */
  ghost predicate Run(ms: seq<Table>, es: seq<Event>, max: nat) {
    && |ms| == |es| + 1 && ms[0] == map[]
    && forall i :: 0 <= i < |es| ==> Next(ms[i], es[i], ms[i + 1], max)
  }

  /** The reference: an unbounded map that only remembers the last write under each id. */
  function LastWrite(es: seq<Event>): Table {
    if es == [] then map[]
    else
      var w := LastWrite(Front(es));
      match Last(es).op
      case Put(r) => w[r.id := r]
      case Delete(id) => w - {id}
      case _ => w
  }

  lemma InsertedKeepsBounds(m: Table, m': Table, max: nat, r: Record, now: int)
    requires 1 <= max && |m| <= max && OwnIds(m) && r.id !in m && Inserted(m, m', max, r, now)
    ensures |m'| <= max && OwnIds(m')
  {
    var base := Swept(m, max, now);
    SubsetSize(base.Keys, m.Keys);
    if |base| >= max {
      var v :| Soonest(base, v) && m' == (base - {v})[r.id := r];
      RemoveOne(base, v);
      InsertSize(base - {v}, r);
    } else {
      InsertSize(base, r);
    }
  }

  lemma NextKeepsBounds(m: Table, e: Event, m': Table, max: nat)
    requires 1 <= max && |m| <= max && OwnIds(m) && Next(m, e, m', max)
    ensures |m'| <= max && OwnIds(m')
  {
    match e.op
    case Put(r) =>
      if r.id in m {
        assert m'.Keys == m.Keys;
      } else {
        InsertedKeepsBounds(m, m', max, r, e.now);
      }
    case Load(id, _) => SubsetSize(m'.Keys, m.Keys);
    case Delete(id) => SubsetSize(m'.Keys, m.Keys);
    case Sweep => SubsetSize(m'.Keys, m.Keys);
  }

  /** In every reachable state the size is at most `max` and records sit under their own ids. */
  lemma {:induction false} AlwaysBounded(ms: seq<Table>, es: seq<Event>, max: nat, i: nat)
    requires Run(ms, es, max) && 1 <= max && i < |ms|
    ensures |ms[i]| <= max && OwnIds(ms[i])
  {
    if i > 0 {
      AlwaysBounded(ms, es, max, i - 1);
      NextKeepsBounds(ms[i - 1], es[i - 1], ms[i], max);
    }
  }

  /** Only what was last written under an id is ever resident under it. */
  ghost predicate Sound(m: Table, w: Table) {
    forall k :: k in m ==> k in w && m[k] == w[k]
  }

  lemma {:induction false} ResidentIsLastWritten(ms: seq<Table>, es: seq<Event>, max: nat, i: nat)
    requires Run(ms, es, max) && i < |ms|
    ensures Sound(ms[i], LastWrite(es[..i]))
  {
    if i > 0 {
      ResidentIsLastWritten(ms, es, max, i - 1);
      assert Front(es[..i]) == es[..i - 1] && Last(es[..i]) == es[i - 1];
      assert Next(ms[i - 1], es[i - 1], ms[i], max);
    }
  }

  /** `load` returns only the last record written under that id, and only unexpired. */
  lemma LoadIsSound(ms: seq<Table>, es: seq<Event>, max: nat, i: nat)
    requires Run(ms, es, max) && i < |es| && es[i].op.Load? && es[i].op.answer.Some?
    ensures var w := LastWrite(es[..i]);
            && es[i].op.id in w && es[i].op.answer == Some(w[es[i].op.id])
            && es[i].op.answer.value.expiry > es[i].now
  {
    ResidentIsLastWritten(ms, es, max, i);
    assert Next(ms[i], es[i], ms[i + 1], max);
  }

  /** The records that have not expired. */
  ghost predicate Unexpired(m: Table, live: Table, now: int) {
    forall k :: (k in live <==> k in m && m[k].expiry > now) && (k in live ==> live[k] == m[k])
  }

  /** What inserting a new id leaves: with room, everything else; in a full table the unexpired
      records, and if those alone fill it, all of them but one with the least expiry. */
  lemma InsertLeaves(m: Table, m': Table, max: nat, r: Record, now: int) returns (live: Table)
    requires |m| <= max && r.id !in m && Inserted(m, m', max, r, now)
    ensures Unexpired(m, live, now) && |live| <= max
    ensures |m| < max ==> m' == m[r.id := r]
    ensures |m| == max && |live| < max ==> m' == live[r.id := r]
    ensures |m| == max && |live| == max ==>
              exists v :: v in live && (forall k :: k in live ==> live[v].expiry <= live[k].expiry)
                          && m' == (live - {v})[r.id := r]
  {
    live := Active(m, now);
    SubsetSize(live.Keys, m.Keys);
    if |m| == max && |live| == max {
      var v :| Soonest(live, v) && m' == (live - {v})[r.id := r];
      assert forall k :: k in live ==> live[v].expiry <= live[k].expiry;
    }
  }

  /** One insertion drops at most one unexpired record, one with the least expiry among the
      unexpired, and only when `max` unexpired records are resident. */
  lemma EvictsOnlyOneSoonest(m: Table, m': Table, max: nat, r: Record, now: int)
    requires |m| <= max && r.id !in m && Inserted(m, m', max, r, now)
    ensures m' == Swept(m, max, now)[r.id := r]
            || exists v :: Soonest(Active(m, now), v) && |Active(m, now)| == max
                           && m' == (Active(m, now) - {v})[r.id := r]
  {
    var live := InsertLeaves(m, m', max, r, now);
    assert live == Active(m, now);
    if |m| == max && |live| == max {
      var v :| v in live && (forall k :: k in live ==> live[v].expiry <= live[k].expiry)
               && m' == (live - {v})[r.id := r];
      assert Soonest(live, v);
    }
  }

  /** Sweeping keeps exactly the unexpired records, and loading an expired one removes it. */
  lemma ExpiredRecordsGo(m: Table, e: Event, m': Table, max: nat)
    requires Next(m, e, m', max)
    ensures e.op.Sweep? ==> Unexpired(m, m', e.now)
    ensures e.op.Load? ==> (forall k :: k in m' <==> k in m && (k == e.op.id ==> m[k].expiry > e.now))
                           && (forall k :: k in m' ==> m'[k] == m[k])
    ensures e.op.Load? ==> (e.op.answer.Some? <==> e.op.id in m && m[e.op.id].expiry > e.now)
  {
  }

  // ── Warnings ───────────────────────────────────────────

  /** Evictions in order, with the times they were noted. */
  function TallyOf(xs: seq<(nat, int)>): Tally {
    if xs == [] then Tally(0, None, None)
    else
      var t := TallyOf(Front(xs));
      Noted(t.count, t.last, Last(xs).0, Last(xs).1)
  }

  /** How many evictions the warnings have reported. */
  function Reported(xs: seq<(nat, int)>): nat {
    if xs == [] then 0
    else Reported(Front(xs)) + if TallyOf(xs).warned.Some? then TallyOf(xs).warned.value else 0
  }

  function Evictions(xs: seq<(nat, int)>): nat {
    if xs == [] then 0 else Evictions(Front(xs)) + Last(xs).0
  }

  /** Every eviction is reported once or still counted. */
  lemma {:induction false} NoEvictionIsForgotten(xs: seq<(nat, int)>)
    ensures Reported(xs) + TallyOf(xs).count == Evictions(xs)
  {
    if xs != [] {
      NoEvictionIsForgotten(Front(xs));
    }
  }

  /** Eviction `i` printed a warning. */
  predicate Warns(xs: seq<(nat, int)>, i: nat)
    requires i < |xs|
  {
    TallyOf(xs[..i + 1]).warned.Some?
  }

  /** The last warning is the one on record. */
  lemma {:induction false} LastWarning(xs: seq<(nat, int)>, n: nat)
    requires n <= |xs|
    ensures match TallyOf(xs[..n]).last
            case None => n == 0
            case Some(t) => exists i: nat :: i < n && Warns(xs, i) && xs[i].1 == t
                                             && forall j :: i < j < n ==> !Warns(xs, j)
  {
    if n > 0 {
      LastWarning(xs, n - 1);
      assert Front(xs[..n]) == xs[..n - 1] && Last(xs[..n]) == xs[n - 1];
      if Warns(xs, n - 1) {
        assert TallyOf(xs[..n]).last == Some(xs[n - 1].1);
      } else {
        var i: nat :| i < n - 1 && Warns(xs, i) && xs[i].1 == TallyOf(xs[..n - 1]).last.value
                      && forall j :: i < j < n - 1 ==> !Warns(xs, j);
        assert forall j :: i < j < n ==> !Warns(xs, j);
      }
    }
  }

  /** The first eviction is warned of; a later one exactly if the last warning before it is at
      least 60 seconds old. */
  lemma WarningsAreRare(xs: seq<(nat, int)>, i: nat)
    requires i < |xs|
    ensures if i == 0 then Warns(xs, i)
            else exists j: nat :: j < i && Warns(xs, j) && (forall k :: j < k < i ==> !Warns(xs, k))
                                  && (Warns(xs, i) <==> xs[i].1 - xs[j].1 >= 60)
  {
    assert Front(xs[..i + 1]) == xs[..i] && Last(xs[..i + 1]) == xs[i];
    LastWarning(xs, i);
    if i > 0 {
      var j: nat :| j < i && Warns(xs, j) && xs[j].1 == TallyOf(xs[..i]).last.value
                    && forall k :: j < k < i ==> !Warns(xs, k);
    }
  }

  // ── Headroom ───────────────────────────────────────────

  /** The resident records that expire at or after `t`. */
  function LongLived(m: Table, t: int): set<Id> {
    set k | k in m && m[k].expiry >= t
  }

  /** At every insertion of a new id fewer than `max` records expire at or after `t`. */
  ghost predicate Headroom(ms: seq<Table>, es: seq<Event>, max: nat, t: int)
    requires |ms| == |es| + 1
  {
    forall i :: 0 <= i < |es| && es[i].op.Put? && es[i].op.record.id !in ms[i] ==> |LongLived(ms[i], t)| < max
  }

  ghost predicate ClockForward(es: seq<Event>) {
    forall i, j :: 0 <= i < j < |es| ==> es[i].now <= es[j].now
  }

  /** Such an insertion never drops an unexpired record that expires at or after `t`. */
  lemma InsertKeepsLongLived(m: Table, m': Table, max: nat, r: Record, now: int, t: int, k: Id)
    requires r.id !in m && Inserted(m, m', max, r, now) && |LongLived(m, t)| < max
    requires k in m && m[k].expiry >= t && IsActive(m[k], now)
    ensures k in m' && m'[k] == m[k]
  {
    var base := Swept(m, max, now);
    if |base| >= max {
      var v :| Soonest(base, v) && m' == (base - {v})[r.id := r];
      if v == k {
        forall j | j in base
          ensures j in LongLived(m, t)
        {
        }
        SubsetSize(base.Keys, LongLived(m, t));
      }
    }
  }

  /** Every unexpired last write that expires at or after `t` is resident. */
  ghost predicate Complete(m: Table, w: Table, t: int, now: int) {
    forall k :: k in w && w[k].expiry >= t && IsActive(w[k], now) ==> k in m
  }

  lemma NextKeepsComplete(m: Table, e: Event, m': Table, max: nat, w: Table, w': Table, t: int, clock: int)
    requires Next(m, e, m', max) && Sound(m, w) && Complete(m, w, t, clock) && clock <= e.now
    requires w' == match e.op { case Put(r) => w[r.id := r] case Delete(id) => w - {id} case _ => w }
    requires e.op.Put? && e.op.record.id !in m ==> |LongLived(m, t)| < max
    ensures Complete(m', w', t, e.now)
  {
    forall k | k in w' && w'[k].expiry >= t && IsActive(w'[k], e.now)
      ensures k in m'
    {
      match e.op
      case Put(r) =>
        if k != r.id {
          assert k in m && m[k] == w[k];
          if r.id !in m {
            InsertKeepsLongLived(m, m', max, r, e.now, t, k);
          }
        }
      case _ =>
        assert k in m && m[k] == w[k];
    }
  }

  function ClockAt(es: seq<Event>, i: nat): int
    requires 0 < i <= |es|
  {
    es[i - 1].now
  }

  lemma {:induction false} AlwaysComplete(ms: seq<Table>, es: seq<Event>, max: nat, t: int, i: nat)
    requires Run(ms, es, max) && Headroom(ms, es, max, t) && ClockForward(es) && 0 < i < |ms|
    ensures Complete(ms[i], LastWrite(es[..i]), t, ClockAt(es, i))
  {
    assert Front(es[..i]) == es[..i - 1] && Last(es[..i]) == es[i - 1];
    var w := LastWrite(es[..i - 1]);
    var clock := if i == 1 then es[0].now else ClockAt(es, i - 1);
    if i > 1 {
      AlwaysComplete(ms, es, max, t, i - 1);
    }
    ResidentIsLastWritten(ms, es, max, i - 1);
    assert Next(ms[i - 1], es[i - 1], ms[i], max);
    NextKeepsComplete(ms[i - 1], es[i - 1], ms[i], max, w, LastWrite(es[..i]), t, clock);
  }

  /** What the unbounded map would answer. */
  ghost function Answer(w: Table, id: Id, now: int): Option<Record> {
    if id in w && w[id].expiry > now then Some(w[id]) else None
  }

  /** With headroom above `t` the store answers like the unbounded map for every record that
      expires at or after `t`, and never answers with anything else. */
  lemma LoadRefinesUnbounded(ms: seq<Table>, es: seq<Event>, max: nat, t: int, i: nat)
    requires Run(ms, es, max) && Headroom(ms, es, max, t) && ClockForward(es)
    requires i < |es| && es[i].op.Load?
    ensures var w := LastWrite(es[..i]);
            var id := es[i].op.id;
            || es[i].op.answer == Answer(w, id, es[i].now)
            || (es[i].op.answer == None && id in w && w[id].expiry < t)
  {
    ResidentIsLastWritten(ms, es, max, i);
    if i > 0 {
      AlwaysComplete(ms, es, max, t, i);
    }
    assert Next(ms[i], es[i], ms[i + 1], max);
    assert i > 0 ==> ClockAt(es, i) <= es[i].now;
  }
}
