/** The accounts of the registration protocol are the accounts of the allowlist: what the
    allowlist assumes of new and removed accounts is what registration guarantees. */
module Ownership {
  import opened Text
  import Allowlist
  import opened Registration
  import opened RegistrationSafety

  /** The accounts as the allowlist sees them. */
  function UsersOf(users: map<string, Account>): Allowlist.Users {
    map u | u in users :: Allowlist.User(users[u].username, users[u].email)
  }

  function UserOf(a: Account): Allowlist.User {
    Allowlist.User(a.username, a.email)
  }

  /** In every reachable state no two accounts have the same label. */
  lemma LabelsAreUnique(ws: seq<World>, es: seq<Event>, token: string, i: nat)
    requires Run(ws, es, token) && i < |ws|
    ensures Allowlist.LabelsUnique(UsersOf(ws[i].st.db.users))
  {
    AlwaysOk(ws, es, token, i);
  }

  /** A new account is one the allowlist accepts, whatever rows there are: its id and its label
      are unused. */
  lemma NewAccountIsProper(ws: seq<World>, es: seq<Event>, token: string, i: nat, uid: string, allow: Allowlist.Entries)
    requires Run(ws, es, token) && i < |es| && Created(ws[i].st.db, ws[i + 1].st.db, uid)
    ensures var before, after := ws[i].st.db.users, ws[i + 1].st.db.users;
            && Allowlist.Proper(Allowlist.Db(UsersOf(before), allow), Allowlist.Create(uid, UserOf(after[uid])))
            && UsersOf(after) == UsersOf(before)[uid := UserOf(after[uid])]
  {
    AlwaysOk(ws, es, token, i);
    AlwaysOk(ws, es, token, i + 1);
    CreationIsFinish(ws[i], es[i], uid);
    FinishEffect(ws[i].st, es[i].op.sid, es[i].op.verified, es[i].op.cred);
    var before, after := ws[i].st.db.users, ws[i + 1].st.db.users;
    assert ws[i + 1] == Apply(ws[i], es[i]);
    forall v | v in before
      ensures UsersOf(before)[v].Label() != UserOf(after[uid]).Label()
    {
      assert v in after && after[v] == before[v];
    }
  }

  lemma RoleChangeIsUnseen(st: State, sid: string, uid: string, role: Role)
    ensures UsersOf(SetRole(st, sid, uid, role).db.users) == UsersOf(st.db.users)
  {
  }

  lemma DeletionIsSeen(st: State, sid: string, uid: string)
    ensures var after := UsersOf(DeleteMember(st, sid, uid).db.users);
            after == UsersOf(st.db.users) || after == UsersOf(st.db.users) - {uid}
  {
  }

  /** Every other step keeps the accounts as the allowlist sees them, or removes exactly one. */
  lemma OtherStepsOnlyRemove(w: World, x: Event)
    requires !x.op.RegisterFinishOp?
    ensures var before, after := UsersOf(w.st.db.users), UsersOf(Apply(w, x).st.db.users);
            after == before || (x.op.DeleteOp? && after == before - {x.op.uid})
  {
    if x.op.SetRoleOp? {
      RoleChangeIsUnseen(w.st, x.op.sid, x.op.uid, x.op.role);
    } else if x.op.DeleteOp? {
      DeletionIsSeen(w.st, x.op.sid, x.op.uid);
    } else {
      assert Apply(w, x).st.db.users == w.st.db.users;
    }
  }

  // ── One run for both ───────────────────────────────────

  /** A step of the registration protocol, or a call on the rows of the allowlist. */
  datatype Step = AccountStep(e: Event) | RowStep(r: Allowlist.Event)

  datatype Both = Both(w: World, a: Allowlist.World)

  /** The account a step creates or removes, as the allowlist is told. */
  function Told(w: World, e: Event): seq<Allowlist.Event> {
    var before, after := w.st.db.users, Apply(w, e).st.db.users;
    if e.op.DeleteOp? && e.op.uid in before && e.op.uid !in after then
      [Allowlist.Event(e.now, Allowlist.Delete(e.op.uid, UserOf(before[e.op.uid]).Label()))]
    else if e.op.RegisterFinishOp? && Sess(w.st.sessions, e.op.sid).reg.Some? then
      var uid := Sess(w.st.sessions, e.op.sid).reg.value.userId;
      if uid !in before && uid in after then [Allowlist.Event(e.now, Allowlist.Create(uid, UserOf(after[uid])))] else []
    else []
  }

  function Next(b: Both, s: Step, maxPerUser: int): Both {
    match s
    case AccountStep(e) =>
      var t := Told(b.w, e);
      Both(Apply(b.w, e), if t == [] then b.a else Allowlist.Apply(b.a, t[0], maxPerUser))
    case RowStep(r) => b.(a := Allowlist.Apply(b.a, r, maxPerUser))
  }

  /** Account ids are new; calls on rows leave the accounts alone, and pass the label of the
      caller's account. */
  ghost predicate ProperStep(b: Both, s: Step) {
    match s
    case AccountStep(e) => Proper(b.w, e.op)
    case RowStep(r) =>
      && !r.op.Create? && !r.op.Delete?
      && (r.op.Add? && r.op.uid in b.w.st.db.users ==> r.op.owner == UserOf(b.w.st.db.users[r.op.uid]).Label())
  }

  function After(token: string, hs: seq<Step>, maxPerUser: int): Both {
    if hs == [] then Both(Start(token), Allowlist.World(Allowlist.Db(map[], map[]), map[]))
    else Next(After(token, Front(hs), maxPerUser), Last(hs), maxPerUser)
  }

  ghost predicate ProperRun(token: string, hs: seq<Step>, maxPerUser: int) {
    hs == [] || (ProperRun(token, Front(hs), maxPerUser) && ProperStep(After(token, Front(hs), maxPerUser), Last(hs)))
  }

  lemma NewAccountMadeBy(db: Db, p: Pending)
    ensures var after := NewAccount(db, p).0.users;
            after == db.users
                || (p.userId !in db.users && after == db.users[p.userId := Account(p.username, p.email, p.role)])
  {
  }

  lemma FinishMakesOne(st: State, sid: string, verified: bool, cred: string)
    ensures var before, after, reg := st.db.users, RegisterFinish(st, sid, verified, cred).0.db.users,
            Sess(st.sessions, sid).reg;
            after == before || (reg.Some? && reg.value.userId !in before && reg.value.userId in after)
  {
    var reg := Sess(st.sessions, sid).reg;
    if reg.Some? {
      NewAccountMadeBy(st.db, reg.value);
    }
  }

  /** What the allowlist is told keeps its accounts those of the registration protocol. */
  lemma ToldKeepsAccounts(ws: seq<World>, es: seq<Event>, token: string, i: nat, a: Allowlist.World, maxPerUser: int)
    requires Run(ws, es, token) && i < |es| && a.db.users == UsersOf(ws[i].st.db.users)
    ensures var t, after := Told(ws[i], es[i]), UsersOf(ws[i + 1].st.db.users);
            && |t| <= 1
            && (t == [] ==> after == a.db.users)
            && (t != [] ==> Allowlist.Proper(a.db, t[0].op) && Allowlist.Apply(a, t[0], maxPerUser).db.users == after)
  {
    var w, e := ws[i], es[i];
    if e.op.RegisterFinishOp? {
      FinishMakesOne(w.st, e.op.sid, e.op.verified, e.op.cred);
      if Told(w, e) != [] {
        NewAccountIsProper(ws, es, token, i, Sess(w.st.sessions, e.op.sid).reg.value.userId, a.db.allow);
      }
    } else {
      OtherStepsOnlyRemove(w, e);
      ToldOfOthers(w, e);
    }
  }

  lemma ToldOfOthers(w: World, e: Event)
    requires !e.op.RegisterFinishOp?
    ensures var before, after := w.st.db.users, Apply(w, e).st.db.users;
            if Told(w, e) == [] then UsersOf(after) == UsersOf(before)
            else
              && e.op.DeleteOp? && e.op.uid in before && UsersOf(after) == UsersOf(before) - {e.op.uid}
              && Told(w, e) == [Allowlist.Event(e.now, Allowlist.Delete(e.op.uid, UsersOf(before)[e.op.uid].Label()))]
  {
    var before, after := UsersOf(w.st.db.users), UsersOf(Apply(w, e).st.db.users);
    OtherStepsOnlyRemove(w, e);
    assert before.Keys == w.st.db.users.Keys && after.Keys == Apply(w, e).st.db.users.Keys;
    if e.op.DeleteOp? && e.op.uid !in before {
      assert before - {e.op.uid} == before;
    }
  }

  lemma LongerRows(bs: seq<Allowlist.World>, fs: seq<Allowlist.Event>, maxPerUser: int, f: Allowlist.Event)
    requires Allowlist.Run(bs, fs, maxPerUser) && Allowlist.Proper(Last(bs).db, f.op)
    ensures Allowlist.Run(bs + [Allowlist.Apply(Last(bs), f, maxPerUser)], fs + [f], maxPerUser)
  {
    var bs', fs' := bs + [Allowlist.Apply(Last(bs), f, maxPerUser)], fs + [f];
    forall i | 0 <= i < |fs'|
      ensures Allowlist.Proper(bs'[i].db, fs'[i].op) && bs'[i + 1] == Allowlist.Apply(bs'[i], fs'[i], maxPerUser)
    {
      assert i < |fs| ==> bs'[i] == bs[i] && bs'[i + 1] == bs[i + 1] && fs'[i] == fs[i];
    }
  }

  /** However registration steps and calls on the rows interleave, each side sees a run of its
      own, and both see the same accounts. */
  lemma {:induction false} BothAreRuns(token: string, hs: seq<Step>, maxPerUser: int)
    returns (ws: seq<World>, es: seq<Event>, bs: seq<Allowlist.World>, fs: seq<Allowlist.Event>)
    requires ProperRun(token, hs, maxPerUser)
    ensures Run(ws, es, token) && Allowlist.Run(bs, fs, maxPerUser)
    ensures var b := After(token, hs, maxPerUser);
            Last(ws) == b.w && Last(bs) == b.a && b.a.db.users == UsersOf(b.w.st.db.users)
  {
    if hs == [] {
      ws, es, bs, fs := [Start(token)], [], [Allowlist.World(Allowlist.Db(map[], map[]), map[])], [];
    } else {
      ws, es, bs, fs := BothAreRuns(token, Front(hs), maxPerUser);
      match Last(hs)
      case AccountStep(e) =>
        var t := Told(Last(ws), e);
        LongerRun(ws, es, token, e);
        ws, es := ws + [Apply(Last(ws), e)], es + [e];
        ToldKeepsAccounts(ws, es, token, |es| - 1, Last(bs), maxPerUser);
        if t != [] {
          LongerRows(bs, fs, maxPerUser, t[0]);
          bs, fs := bs + [Allowlist.Apply(Last(bs), t[0], maxPerUser)], fs + [t[0]];
        }
      case RowStep(r) =>
        LongerRows(bs, fs, maxPerUser, r);
        bs, fs := bs + [Allowlist.Apply(Last(bs), r, maxPerUser)], fs + [r];
    }
  }

  /** In every state that both reach together, every owned row belongs to an account of the
      registration protocol. */
  lemma RowsBelongToAccounts(token: string, hs: seq<Step>, maxPerUser: int, ip: string)
    requires ProperRun(token, hs, maxPerUser) && ip in After(token, hs, maxPerUser).a.db.allow
    requires After(token, hs, maxPerUser).a.db.allow[ip].addedBy.Some?
    ensures var b := After(token, hs, maxPerUser);
            exists u :: u in b.w.st.db.users && b.w.st.db.users[u].email == b.a.db.allow[ip].addedBy
  {
    var ws, es, bs, fs := BothAreRuns(token, hs, maxPerUser);
    var b := After(token, hs, maxPerUser);
    Allowlist.OwnersAlwaysExist(bs, fs, maxPerUser, |fs|);
    AlwaysOk(ws, es, token, |es|);
    var u :| u in b.a.db.users && b.a.db.users[u].Label() == b.a.db.allow[ip].addedBy.value;
    assert u in b.w.st.db.users && b.w.st.db.users[u].email == Some(b.w.st.db.users[u].username);
  }

  /** How often `owner` took over a row without owner. */
  function Adopted(token: string, hs: seq<Step>, maxPerUser: int, owner: string): nat {
    if hs == [] then 0
    else
      Adopted(token, Front(hs), maxPerUser, owner)
      + if Last(hs).RowStep? && Allowlist.Adopts(After(token, Front(hs), maxPerUser).a.db, Last(hs).r, owner) then 1
          else 0
  }

  /** And an owner holds at most the quota plus what it adopted. */
  lemma {:induction false} QuotaHoldsForBoth(token: string, hs: seq<Step>, maxPerUser: int, owner: string)
    requires ProperRun(token, hs, maxPerUser)
    ensures |Allowlist.OwnedBy(After(token, hs, maxPerUser).a.db.allow, owner)|
            <= (if maxPerUser < 0 then 0 else maxPerUser) + Adopted(token, hs, maxPerUser, owner)
  {
    if hs != [] {
      QuotaHoldsForBoth(token, Front(hs), maxPerUser, owner);
      var b := After(token, Front(hs), maxPerUser);
      match Last(hs)
      case AccountStep(e) =>
        if Told(b.w, e) != [] {
          Allowlist.StepOwned(b.a, Told(b.w, e)[0], maxPerUser, owner);
        }
      case RowStep(r) =>
        Allowlist.StepOwned(b.a, r, maxPerUser, owner);
    }
  }
}
