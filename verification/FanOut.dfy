/** Sending one notification to many subscriptions at once: the loop that feeds a pool of
    tasks, the tasks themselves, and a deadline that may strike at any moment. */
module FanOut {
  import opened Sets
  import opened Text

  /** Tasks that may exist at the same time. */
  const CONCURRENCY: nat := 8

  /** A subscription as it was read before the sends. */
  datatype Sub = Sub(id: int, endpoint: string)

  /** A row of the subscription table. */
  datatype Row = Row(endpoint: string, fails: int)

  type Table = map<int, Row>

  /** What a send comes back with: the endpoint is gone, took the message, or failed. */
  datatype Outcome = Gone | Delivered | Failed

  datatype Action = Delete(endpoint: string) | MarkOk(id: int) | BumpFail(id: int)

  datatype Phase = Sending | Acting(outcome: Outcome) | Ended

  /** Where the feeding loop stands. `Waiting` is inside the one reap a full pool asks for. */
  datatype Loop = Deciding | Waiting | Spawning | Draining | Finished | TimedOut

  /** `next` subscriptions have been taken; `tasks` is the pool, by position in the list.
      `attempts`, `returned`, `crashed` and `applied` record what has happened. */
  datatype State = State(
    loop: Loop,
    next: nat,
    tasks: map<nat, Phase>,
    table: Table,
    attempts: seq<nat>,
    returned: map<nat, Outcome>,
    crashed: set<nat>,
    applied: seq<(nat, Action)>
  )

  /** One step of the scheduler. A task that has its answer runs to its end without waiting
      again, so the deadline can no longer stop it; one still sending is aborted. */
  datatype Event =
    | Advance
    | Reap(task: nat)
    | Return(task: nat, outcome: Outcome)
    | Crash(task: nat)
    | Act(task: nat)
    | Deadline

  // ── The table ──────────────────────────────────────────

  function ActionOf(sub: Sub, o: Outcome): Action {
    match o
    case Gone => Delete(sub.endpoint)
    case Delivered => MarkOk(sub.id)
    case Failed => BumpFail(sub.id)
  }

  function Perform(t: Table, a: Action): Table {
    match a
    case Delete(endpoint) => map id | id in t && t[id].endpoint != endpoint :: t[id]
    case MarkOk(id) => if id in t then t[id := t[id].(fails := 0)] else t
    case BumpFail(id) => if id in t then t[id := t[id].(fails := t[id].fails + 1)] else t
  }

  // ── Steps ──────────────────────────────────────────────

  predicate Running(s: State) {
    s.loop != Finished && s.loop != TimedOut
  }

  predicate Enabled(subs: seq<Sub>, s: State, e: Event) {
    match e
    case Advance =>
      || s.loop == Deciding
      || (s.loop == Spawning && s.next < |subs|)
      || (s.loop == Draining && s.tasks == map[])
    case Reap(i) => (s.loop == Waiting || s.loop == Draining) && i in s.tasks && s.tasks[i] == Ended
    case Return(i, o) => i in s.tasks && s.tasks[i] == Sending
    case Crash(i) => i in s.tasks && s.tasks[i] == Sending
    case Act(i) => i in s.tasks && s.tasks[i].Acting? && i < |subs|
    case Deadline => Running(s)
  }

  function Next(subs: seq<Sub>, s: State, e: Event): State
    requires Enabled(subs, s, e)
  {
    match e
    case Advance =>
      if s.loop == Deciding then
        s.(loop := if s.next >= |subs| then Draining else if |s.tasks| >= CONCURRENCY then Waiting else Spawning)
      else if s.loop == Spawning then
        s.(loop := Deciding, next := s.next + 1, tasks := s.tasks[s.next := Sending], attempts := s.attempts + [s.next])
      else
        s.(loop := Finished)
    case Reap(i) =>
      s.(loop := if s.loop == Waiting then Spawning else s.loop, tasks := s.tasks - {i})
    case Return(i, o) =>
      s.(tasks := s.tasks[i := Acting(o)], returned := s.returned[i := o])
    case Crash(i) =>
      s.(tasks := s.tasks[i := Ended], crashed := s.crashed + {i})
    case Act(i) =>
      var a := ActionOf(subs[i], s.tasks[i].outcome);
      s.(tasks := s.tasks[i := Ended], table := Perform(s.table, a), applied := s.applied + [(i, a)])
    case Deadline =>
      s.(loop := TimedOut, tasks := map i | i in s.tasks && s.tasks[i].Acting? :: s.tasks[i])
  }

  function Start(t: Table): State {
    State(Deciding, 0, map[], t, [], map[], {}, [])
  }

  /** Any interleaving: events that cannot happen at their turn are skipped. */
  function Run(subs: seq<Sub>, t: Table, es: seq<Event>): State {
    if es == [] then Start(t)
    else
      var s := Run(subs, t, Front(es));
      if Enabled(subs, s, Last(es)) then Next(subs, s, Last(es)) else s
  }

  // ── What every step keeps ──────────────────────────────

  ghost predicate PoolInv(subs: seq<Sub>, s: State) {
    && s.next <= |subs|
    && |s.tasks| <= CONCURRENCY
    && (s.loop == Spawning ==> s.next < |subs| && |s.tasks| < CONCURRENCY)
    && (s.loop == Waiting ==> s.next < |subs|)
    && (s.loop == Draining ==> s.next == |subs|)
    && (s.loop == Finished ==> s.next == |subs| && s.tasks == map[])
    && (s.loop == TimedOut ==> forall i :: i in s.tasks ==> s.tasks[i] != Sending)
    && (forall i :: i in s.tasks ==> i < s.next)
    && |s.attempts| == s.next && (forall k :: 0 <= k < s.next ==> s.attempts[k] == k)
  }

  ghost predicate HasActed(s: State, i: nat) {
    exists k :: 0 <= k < |s.applied| && s.applied[k].0 == i
  }

  /** A task is about to act exactly while its answer has not been acted on. */
  ghost predicate PhaseInv(s: State) {
    && (forall i :: i in s.returned ==> i < s.next)
    && (forall i :: i in s.tasks && s.tasks[i] == Sending ==> i !in s.returned)
    && (forall i :: i in s.tasks && s.tasks[i].Acting? ==>
          i in s.returned && s.returned[i] == s.tasks[i].outcome && !HasActed(s, i))
    && (forall i :: i in s.returned && !HasActed(s, i) ==> i in s.tasks && s.tasks[i].Acting?)
  }

  /** The log of actions has one entry per task, the one its answer calls for. */
  ghost predicate LogInv(subs: seq<Sub>, s: State) {
    && (forall k :: 0 <= k < |s.applied| ==>
          s.applied[k].0 in s.returned && s.applied[k].0 < |subs|
          && s.applied[k].1 == ActionOf(subs[s.applied[k].0], s.returned[s.applied[k].0]))
    && (forall j, k :: 0 <= j < k < |s.applied| ==> s.applied[j].0 != s.applied[k].0)
  }

  ghost predicate ActionInv(subs: seq<Sub>, s: State) {
    PhaseInv(s) && LogInv(subs, s)
  }

  lemma AdvanceKeepsPool(subs: seq<Sub>, s: State)
    requires PoolInv(subs, s) && Enabled(subs, s, Advance)
    ensures PoolInv(subs, Next(subs, s, Advance))
  {
  }

  /** Every other step only drops tasks from the pool or moves them on. */
  lemma TaskStepShape(subs: seq<Sub>, s: State, e: Event)
    requires PoolInv(subs, s) && Enabled(subs, s, e) && !e.Advance?
    ensures var s' := Next(subs, s, e);
            && s'.tasks.Keys
                == (if e.Reap? then s.tasks.Keys - {e.task} else if e.Deadline? then s'.tasks.Keys else s.tasks.Keys)
            && s'.tasks.Keys <= s.tasks.Keys
            && |s'.tasks| <= |s.tasks| && (e.Reap? ==> |s'.tasks| < |s.tasks|)
  {
    var s' := Next(subs, s, e);
    KeysSize(s'.tasks);
    KeysSize(s.tasks);
    SubsetSize(s'.tasks.Keys, s.tasks.Keys);
  }

  lemma StepKeepsPool(subs: seq<Sub>, s: State, e: Event)
    requires PoolInv(subs, s) && Enabled(subs, s, e)
    ensures PoolInv(subs, Next(subs, s, e))
  {
    if e.Advance? {
      AdvanceKeepsPool(subs, s);
    } else {
      TaskStepShape(subs, s, e);
    }
  }

  lemma ActKeepsPhases(s: State, s': State, i: nat, a: Action)
    requires PhaseInv(s) && i in s.tasks && s.tasks[i].Acting?
    requires s'.next == s.next && s'.returned == s.returned && s'.tasks == s.tasks[i := Ended]
             && s'.applied == s.applied + [(i, a)]
    ensures PhaseInv(s')
  {
    ActedSnoc(s, s', (i, a));
  }

  lemma ActKeepsLog(subs: seq<Sub>, s: State, s': State, i: nat)
    requires LogInv(subs, s) && i in s.returned && i < |subs| && !HasActed(s, i)
    requires s'.returned == s.returned && s'.applied == s.applied + [(i, ActionOf(subs[i], s.returned[i]))]
    ensures LogInv(subs, s')
  {
  }

  lemma ActKeepsActions(subs: seq<Sub>, s: State, i: nat)
    requires ActionInv(subs, s) && Enabled(subs, s, Act(i))
    ensures ActionInv(subs, Next(subs, s, Act(i)))
  {
    ActKeepsPhases(s, Next(subs, s, Act(i)), i, ActionOf(subs[i], s.tasks[i].outcome));
    ActKeepsLog(subs, s, Next(subs, s, Act(i)), i);
  }

  lemma ActedSnoc(s: State, s': State, a: (nat, Action))
    requires s'.applied == s.applied + [a]
    ensures forall i :: HasActed(s', i) <==> HasActed(s, i) || i == a.0
  {
    assert s'.applied[|s.applied|] == a;
    forall i | HasActed(s, i)
      ensures HasActed(s', i)
    {
      var k :| 0 <= k < |s.applied| && s.applied[k].0 == i;
      assert s'.applied[k].0 == i;
    }
  }

  lemma ReturnKeepsActions(subs: seq<Sub>, s: State, e: Event)
    requires PoolInv(subs, s) && ActionInv(subs, s) && Enabled(subs, s, e) && e.Return?
    ensures ActionInv(subs, Next(subs, s, e))
  {
    var s' := Next(subs, s, e);
    assert forall i :: HasActed(s', i) <==> HasActed(s, i);
  }

  lemma ReapKeepsActions(subs: seq<Sub>, s: State, i: nat)
    requires ActionInv(subs, s) && Enabled(subs, s, Reap(i))
    ensures ActionInv(subs, Next(subs, s, Reap(i)))
  {
  }

  lemma StepKeepsActions(subs: seq<Sub>, s: State, e: Event)
    requires PoolInv(subs, s) && ActionInv(subs, s) && Enabled(subs, s, e)
    ensures ActionInv(subs, Next(subs, s, e))
  {
    if e.Act? {
      ActKeepsActions(subs, s, e.task);
    } else if e.Return? {
      ReturnKeepsActions(subs, s, e);
    } else if e.Reap? {
      ReapKeepsActions(subs, s, e.task);
    } else {
      assert forall i :: HasActed(Next(subs, s, e), i) <==> HasActed(s, i);
    }
  }

  lemma {:induction false} Always(subs: seq<Sub>, t: Table, es: seq<Event>)
    ensures PoolInv(subs, Run(subs, t, es)) && ActionInv(subs, Run(subs, t, es))
  {
    if es != [] {
      var s, e := Run(subs, t, Front(es)), Last(es);
      Always(subs, t, Front(es));
      if Enabled(subs, s, e) {
        StepKeepsPool(subs, s, e);
        StepKeepsActions(subs, s, e);
      }
    }
  }

  // ── Main results ───────────────────────────────────────

  /** The sends under way at this moment. */
  ghost function InFlight(s: State): set<nat> {
    set i | i in s.tasks && s.tasks[i] == Sending
  }

  /** Never more than eight sends at once, and none left once the deadline has passed. */
  lemma AtMostEightInFlight(subs: seq<Sub>, t: Table, es: seq<Event>)
    ensures var s := Run(subs, t, es);
            |InFlight(s)| <= |s.tasks| <= 8 && (s.loop == TimedOut ==> InFlight(s) == {})
  {
    Always(subs, t, es);
    var s := Run(subs, t, es);
    SubsetSize(InFlight(s), s.tasks.Keys);
    KeysSize(s.tasks);
  }

  /** Subscriptions are attempted in list order, each at most once; when the loop comes to its
      own end, all of them have been. */
  lemma EachAttemptedOnce(subs: seq<Sub>, t: Table, es: seq<Event>)
    ensures var s := Run(subs, t, es);
            && |s.attempts| <= |subs| && (forall k :: 0 <= k < |s.attempts| ==> s.attempts[k] == k)
            && (s.loop == Finished ==> |s.attempts| == |subs|)
  {
    Always(subs, t, es);
  }

  /** How often the action of task `i` has been carried out. */
  ghost function Times(applied: seq<(nat, Action)>, i: nat): nat {
    if applied == [] then 0 else Times(Front(applied), i) + if Last(applied).0 == i then 1 else 0
  }

  lemma {:induction false} TimesOne(applied: seq<(nat, Action)>, i: nat)
    requires forall j, k :: 0 <= j < k < |applied| ==> applied[j].0 != applied[k].0
    ensures Times(applied, i) == if exists k :: 0 <= k < |applied| && applied[k].0 == i then 1 else 0
  {
    if applied != [] {
      TimesOne(Front(applied), i);
      if Last(applied).0 == i {
        assert forall k :: 0 <= k < |applied| - 1 ==> applied[k].0 != applied[|applied| - 1].0;
      } else if exists k :: 0 <= k < |applied| && applied[k].0 == i {
        var k :| 0 <= k < |applied| && applied[k].0 == i;
        assert Front(applied)[k].0 == i;
      }
    }
  }

  /** A send that came back leads to its one action and no other, and nothing else does: at any
      time the action is done or about to be, and once the pool is empty it is done. */
  lemma OneActionPerReturn(subs: seq<Sub>, t: Table, es: seq<Event>, i: nat)
    ensures var s := Run(subs, t, es);
            && Times(s.applied, i) <= 1
            && (i !in s.returned ==> Times(s.applied, i) == 0)
            && (i in s.returned ==> Times(s.applied, i) == if i in s.tasks && s.tasks[i].Acting? then 0 else 1)
            && (forall k :: 0 <= k < |s.applied| && s.applied[k].0 == i ==>
                  i in s.returned && i < |subs| && s.applied[k].1 == ActionOf(subs[i], s.returned[i]))
  {
    Always(subs, t, es);
    TimesOne(Run(subs, t, es).applied, i);
  }

  // ── The order does not matter ──────────────────────────

  /** Ids and endpoints name rows uniquely, and the list was read from the table. */
  ghost predicate WellFormed(subs: seq<Sub>, t: Table) {
    && (forall i, j :: 0 <= i < j < |subs| ==> subs[i].id != subs[j].id)
    && (forall x, y :: x in t && y in t && x != y ==> t[x].endpoint != t[y].endpoint)
    && (forall i :: 0 <= i < |subs| ==> subs[i].id in t && t[subs[i].id].endpoint == subs[i].endpoint)
  }

  /** What an answered send makes of its own row. */
  function After(row: Row, o: Outcome): Option<Row> {
    match o
    case Gone => None
    case Delivered => Some(row.(fails := 0))
    case Failed => Some(row.(fails := row.fails + 1))
  }

  function Lookup(t: Table, id: int): Option<Row> {
    if id in t then Some(t[id]) else None
  }

  ghost predicate RowInv(subs: seq<Sub>, t: Table, s: State) {
    && (forall i :: 0 <= i < |subs| ==> subs[i].id in t)
    && (forall id :: id in s.table ==> id in t && s.table[id].endpoint == t[id].endpoint)
    && (forall i :: 0 <= i < |subs| ==> Lookup(s.table, subs[i].id) == Expected(t, s, subs[i].id, i))
    && (forall id :: id in t && (forall i :: 0 <= i < |subs| ==> subs[i].id != id) ==>
          id in s.table && s.table[id] == t[id])
  }

  ghost function Expected(t: Table, s: State, id: int, i: nat): Option<Row>
    requires id in t
  {
    if HasActed(s, i) && i in s.returned then After(t[id], s.returned[i]) else Some(t[id])
  }

  lemma PerformTouchesOne(t: Table, u: Table, sub: Sub, o: Outcome)
    requires forall x, y :: x in t && y in t && x != y ==> t[x].endpoint != t[y].endpoint
    requires forall id :: id in u ==> id in t && u[id].endpoint == t[id].endpoint
    requires sub.id in u && u[sub.id].endpoint == sub.endpoint
    ensures var v := Perform(u, ActionOf(sub, o));
            && Lookup(v, sub.id) == After(u[sub.id], o)
            && (forall id :: id != sub.id ==> Lookup(v, id) == Lookup(u, id))
            && (forall id :: id in v ==> id in t && v[id].endpoint == t[id].endpoint)
  {
  }

  lemma ActKeepsRows(subs: seq<Sub>, t: Table, s: State, i: nat)
    requires WellFormed(subs, t) && PoolInv(subs, s) && ActionInv(subs, s) && RowInv(subs, t, s)
    requires Enabled(subs, s, Act(i))
    ensures RowInv(subs, t, Next(subs, s, Act(i)))
  {
    var s' := Next(subs, s, Act(i));
    var o := s.tasks[i].outcome;
    assert Lookup(s.table, subs[i].id) == Some(t[subs[i].id]);
    PerformTouchesOne(t, s.table, subs[i], o);
    ActedSnoc(s, s', (i, ActionOf(subs[i], o)));
    forall j | 0 <= j < |subs| && j != i
      ensures Lookup(s'.table, subs[j].id) == Lookup(s.table, subs[j].id)
    {
    }
    forall id | id in t && forall j :: 0 <= j < |subs| ==> subs[j].id != id
      ensures id in s'.table && s'.table[id] == t[id]
    {
      assert Lookup(s'.table, id) == Lookup(s.table, id);
    }
  }

  lemma SameRows(subs: seq<Sub>, t: Table, s: State, s': State)
    requires RowInv(subs, t, s) && s'.table == s.table && s'.applied == s.applied
    requires forall i :: HasActed(s, i) ==> i in s.returned && i in s'.returned && s'.returned[i] == s.returned[i]
    ensures RowInv(subs, t, s')
  {
  }

  lemma OtherStepsKeepRows(subs: seq<Sub>, t: Table, s: State, e: Event)
    requires PoolInv(subs, s) && ActionInv(subs, s) && RowInv(subs, t, s)
    requires Enabled(subs, s, e) && !e.Act?
    ensures RowInv(subs, t, Next(subs, s, e))
  {
    SameRows(subs, t, s, Next(subs, s, e));
  }

  /** Whatever the interleaving, a row's final value depends on its own send alone: unanswered
      sends and rows outside the list leave no trace. */
  lemma {:induction false} RowsDependOnOwnOutcome(subs: seq<Sub>, t: Table, es: seq<Event>)
    requires WellFormed(subs, t)
    ensures RowInv(subs, t, Run(subs, t, es))
  {
    if es != [] {
      var s, e := Run(subs, t, Front(es)), Last(es);
      RowsDependOnOwnOutcome(subs, t, Front(es));
      Always(subs, t, Front(es));
      if Enabled(subs, s, e) {
        if e.Act? {
          ActKeepsRows(subs, t, s, e.task);
        } else {
          OtherStepsKeepRows(subs, t, s, e);
        }
      }
    }
  }

  /** Two runs that finish with the same answers leave the same table, however they were
      scheduled. */
  lemma SchedulingDoesNotMatter(subs: seq<Sub>, t: Table, es1: seq<Event>, es2: seq<Event>)
    requires WellFormed(subs, t)
    requires Run(subs, t, es1).loop == Finished && Run(subs, t, es2).loop == Finished
    requires Run(subs, t, es1).returned == Run(subs, t, es2).returned
    ensures Run(subs, t, es1).table == Run(subs, t, es2).table
  {
    var s1, s2 := Run(subs, t, es1), Run(subs, t, es2);
    Always(subs, t, es1);
    Always(subs, t, es2);
    RowsDependOnOwnOutcome(subs, t, es1);
    RowsDependOnOwnOutcome(subs, t, es2);
    forall id
      ensures Lookup(s1.table, id) == Lookup(s2.table, id)
    {
      if i :| 0 <= i < |subs| && subs[i].id == id {
        FinishedMeansActed(subs, s1, i);
        FinishedMeansActed(subs, s2, i);
      }
    }
    SameLookups(s1.table, s2.table);
  }

  lemma FinishedMeansActed(subs: seq<Sub>, s: State, i: nat)
    requires PoolInv(subs, s) && ActionInv(subs, s) && s.loop == Finished
    ensures i in s.returned <==> HasActed(s, i)
  {
  }

  /** In the end a subscription that is gone has no row, one that took the message has no failures,
      one that failed has one more, and one without an answer is as it was. */
  lemma RowsInTheEnd(subs: seq<Sub>, t: Table, es: seq<Event>, i: nat)
    requires WellFormed(subs, t) && Run(subs, t, es).loop == Finished && i < |subs|
    ensures var s, id := Run(subs, t, es), subs[i].id;
            if i !in s.returned then id in s.table && s.table[id] == t[id]
            else match s.returned[i]
                 case Gone => id !in s.table
                 case Delivered => id in s.table && s.table[id] == Row(subs[i].endpoint, 0)
                 case Failed => id in s.table && s.table[id] == Row(subs[i].endpoint, t[id].fails + 1)
  {
    Always(subs, t, es);
    RowsDependOnOwnOutcome(subs, t, es);
    FinishedMeansActed(subs, Run(subs, t, es), i);
    assert Lookup(Run(subs, t, es).table, subs[i].id) == Expected(t, Run(subs, t, es), subs[i].id, i);
  }

  lemma SameLookups(t: Table, u: Table)
    requires forall id :: Lookup(t, id) == Lookup(u, id)
    ensures t == u
  {
    forall id
      ensures id in t <==> id in u
      ensures id in t && id in u ==> t[id] == u[id]
    {
      assert Lookup(t, id) == Lookup(u, id);
    }
  }

  /** Nothing hangs but on an unanswered send: while the loop runs, some task is still sending
      or acting, or the loop itself can move. */
  lemma NeverStuck(subs: seq<Sub>, t: Table, es: seq<Event>)
    requires Running(Run(subs, t, es))
    requires forall i :: i in Run(subs, t, es).tasks ==> Run(subs, t, es).tasks[i] == Ended
    ensures exists e :: (e == Advance || e.Reap?) && Enabled(subs, Run(subs, t, es), e)
  {
    Always(subs, t, es);
    var s := Run(subs, t, es);
    if s.tasks == map[] {
      if s.loop == Waiting {
        WaitingIsFull(subs, t, es);
        assert false;
      }
      assert Enabled(subs, s, Advance);
    } else {
      var i :| i in s.tasks;
      if s.loop == Waiting || s.loop == Draining {
        assert Enabled(subs, s, Reap(i));
      } else {
        assert Enabled(subs, s, Advance);
      }
    }
  }

  /** The loop waits for a task only while the pool is full. */
  lemma {:induction false} WaitingIsFull(subs: seq<Sub>, t: Table, es: seq<Event>)
    ensures Run(subs, t, es).loop == Waiting ==> |Run(subs, t, es).tasks| == CONCURRENCY
  {
    if es != [] {
      var s, e := Run(subs, t, Front(es)), Last(es);
      WaitingIsFull(subs, t, Front(es));
      Always(subs, t, Front(es));
      if Enabled(subs, s, e) && (e.Return? || e.Crash? || e.Act?) {
        var s' := Next(subs, s, e);
        assert s'.tasks.Keys == s.tasks.Keys;
        KeysSize(s'.tasks);
        KeysSize(s.tasks);
      }
    }
  }

  // ── Every send is made, and the loop comes to an end ───

  /** Each subscription taken is being sent to, or its send came back or crashed, never both;
      only the deadline leaves some without an answer. */
  ghost predicate AnswerInv(s: State) {
    && (forall i :: i in s.crashed ==> i < s.next && i !in s.returned)
    && (forall i :: i in s.tasks && s.tasks[i] == Sending ==> i !in s.crashed && i !in s.returned)
    && (s.loop != TimedOut ==>
          forall i :: 0 <= i < s.next ==> i in s.returned || i in s.crashed || (i in s.tasks && s.tasks[i] == Sending))
  }

  lemma StepKeepsAnswers(subs: seq<Sub>, s: State, e: Event)
    requires PoolInv(subs, s) && ActionInv(subs, s) && AnswerInv(s) && Enabled(subs, s, e)
    ensures AnswerInv(Next(subs, s, e))
  {
  }

  lemma {:induction false} AlwaysAnswers(subs: seq<Sub>, t: Table, es: seq<Event>)
    ensures AnswerInv(Run(subs, t, es))
  {
    if es != [] {
      AlwaysAnswers(subs, t, Front(es));
      Always(subs, t, Front(es));
      if Enabled(subs, Run(subs, t, Front(es)), Last(es)) {
        StepKeepsAnswers(subs, Run(subs, t, Front(es)), Last(es));
      }
    }
  }

  /** When the loop comes to its own end, every subscription has been sent to: its send came back
      or crashed, and exactly those that came back have had their one action. */
  lemma EverySendIsAnswered(subs: seq<Sub>, t: Table, es: seq<Event>, i: nat)
    requires Run(subs, t, es).loop == Finished && i < |subs|
    ensures var s := Run(subs, t, es);
            && (i in s.returned <==> i !in s.crashed)
            && Times(s.applied, i) == if i in s.returned then 1 else 0
  {
    Always(subs, t, es);
    AlwaysAnswers(subs, t, es);
    OneActionPerReturn(subs, t, es, i);
  }

  function PhaseWeight(tasks: map<nat, Phase>, i: nat): nat {
    if i !in tasks then 0
    else match tasks[i]
      case Sending => 3
      case Acting(_) => 2
      case Ended => 1
  }

  function Work(tasks: map<nat, Phase>, n: nat): nat {
    if n == 0 then 0 else Work(tasks, n - 1) + PhaseWeight(tasks, n - 1)
  }

  function LoopWeight(l: Loop): nat {
    match l
    case Deciding => 3
    case Waiting => 2
    case Spawning => 1
    case Draining => 1
    case Finished => 0
    case TimedOut => 0
  }

  /** What is left to do. */
  function Left(subs: seq<Sub>, s: State): nat
    requires s.next <= |subs|
  {
    8 * (|subs| - s.next) + LoopWeight(s.loop) + Work(s.tasks, s.next)
  }

  lemma {:induction false} WorkOfOne(a: map<nat, Phase>, b: map<nat, Phase>, i: nat, n: nat)
    requires forall j :: j != i ==> PhaseWeight(a, j) == PhaseWeight(b, j)
    ensures Work(b, n) == Work(a, n) + if i < n then PhaseWeight(b, i) - PhaseWeight(a, i) else 0
  {
    if n > 0 {
      WorkOfOne(a, b, i, n - 1);
    }
  }

  lemma {:induction false} LessWork(a: map<nat, Phase>, b: map<nat, Phase>, n: nat)
    requires forall j :: PhaseWeight(b, j) <= PhaseWeight(a, j)
    ensures Work(b, n) <= Work(a, n)
  {
    if n > 0 {
      LessWork(a, b, n - 1);
    }
  }

  /** Every step, whichever it is, leaves less to do: no run of steps goes on for ever. */
  lemma EveryStepGetsCloser(subs: seq<Sub>, s: State, e: Event)
    requires PoolInv(subs, s) && Enabled(subs, s, e)
    ensures Next(subs, s, e).next <= |subs| && Left(subs, Next(subs, s, e)) < Left(subs, s)
  {
    var s' := Next(subs, s, e);
    match e
    case Advance =>
      if s.loop == Spawning {
        WorkOfOne(s.tasks, s'.tasks, s.next, s.next);
        assert PhaseWeight(s'.tasks, s.next) == 3;
      }
    case Reap(i) => WorkOfOne(s.tasks, s'.tasks, i, s.next);
    case Return(i, _) => WorkOfOne(s.tasks, s'.tasks, i, s.next);
    case Crash(i) => WorkOfOne(s.tasks, s'.tasks, i, s.next);
    case Act(i) => WorkOfOne(s.tasks, s'.tasks, i, s.next);
    case Deadline => LessWork(s.tasks, s'.tasks, s.next);
  }

  lemma OneMoreEvent(subs: seq<Sub>, t: Table, es: seq<Event>, e: Event)
    requires Enabled(subs, Run(subs, t, es), e)
    ensures Run(subs, t, es + [e]) == Next(subs, Run(subs, t, es), e)
  {
    assert Front(es + [e]) == es && Last(es + [e]) == e;
  }

  /** Some step other than a crash or the deadline is always possible; `f` is what the sends still
      under way will answer. */
  lemma SomeStep(subs: seq<Sub>, t: Table, es: seq<Event>, f: nat -> Outcome) returns (e: Event)
    requires Running(Run(subs, t, es))
    ensures Enabled(subs, Run(subs, t, es), e) && !e.Crash? && !e.Deadline? && (e.Return? ==> e.outcome == f(e.task))
  {
    var s := Run(subs, t, es);
    Always(subs, t, es);
    if i :| i in s.tasks && s.tasks[i] == Sending {
      e := Return(i, f(i));
    } else if i :| i in s.tasks && s.tasks[i].Acting? {
      e := Act(i);
    } else {
      NeverStuck(subs, t, es);
      e :| (e == Advance || e.Reap?) && Enabled(subs, s, e);
    }
  }

  /** From `s` to `s'` nothing has crashed, answers stand, and new answers are those of `f`. */
  ghost predicate Continues(s: State, s': State, f: nat -> Outcome) {
    && s'.crashed == s.crashed
    && (forall i :: i in s.returned ==> i in s'.returned && s'.returned[i] == s.returned[i])
    && (forall i :: i in s'.returned && i !in s.returned ==> s'.returned[i] == f(i))
  }

  lemma StepContinues(subs: seq<Sub>, s: State, e: Event, f: nat -> Outcome)
    requires ActionInv(subs, s) && Enabled(subs, s, e)
    requires !e.Crash? && !e.Deadline? && (e.Return? ==> e.outcome == f(e.task))
    ensures Continues(s, Next(subs, s, e), f)
    ensures Running(Next(subs, s, e)) || Next(subs, s, e).loop == Finished || !Running(s)
  {
  }

  lemma ContinuesOn(a: State, b: State, c: State, f: nat -> Outcome)
    requires Continues(a, b, f) && Continues(b, c, f)
    ensures Continues(a, c, f)
  {
  }

  ghost function LeftAfter(subs: seq<Sub>, t: Table, es: seq<Event>): nat {
    if Run(subs, t, es).next <= |subs| then Left(subs, Run(subs, t, es)) else 0
  }

  lemma StepOn(subs: seq<Sub>, t: Table, es: seq<Event>, f: nat -> Outcome) returns (e: Event)
    requires Running(Run(subs, t, es))
    ensures LeftAfter(subs, t, es + [e]) < LeftAfter(subs, t, es)
    ensures Continues(Run(subs, t, es), Run(subs, t, es + [e]), f)
    ensures Running(Run(subs, t, es + [e])) || Run(subs, t, es + [e]).loop == Finished
  {
    Always(subs, t, es);
    e := SomeStep(subs, t, es, f);
    EveryStepGetsCloser(subs, Run(subs, t, es), e);
    StepContinues(subs, Run(subs, t, es), e, f);
    OneMoreEvent(subs, t, es, e);
  }

  /** From every point of every run the loop can still come to its end, with the sends under way
      and those to come answering as they like. */
  lemma {:induction false} CanFinish(subs: seq<Sub>, t: Table, es: seq<Event>, f: nat -> Outcome)
    returns (longer: seq<Event>)
    requires Running(Run(subs, t, es))
    ensures es <= longer && Ends(subs, t, es, longer, f)
    decreases LeftAfter(subs, t, es)
  {
    var e := StepOn(subs, t, es, f);
    var next := es + [e];
    if Run(subs, t, next).loop == Finished {
      longer := next;
    } else {
      longer := CanFinish(subs, t, next, f);
      ContinuesOn(Run(subs, t, es), Run(subs, t, next), Run(subs, t, longer), f);
    }
  }

  ghost predicate Ends(subs: seq<Sub>, t: Table, es: seq<Event>, longer: seq<Event>, f: nat -> Outcome) {
    Run(subs, t, longer).loop == Finished && Continues(Run(subs, t, es), Run(subs, t, longer), f)
  }
}
