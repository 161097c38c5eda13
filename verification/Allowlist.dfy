/** The allowlist table: who may write a row, what a deletion takes along, and how rows are
    renewed, purged and projected to the kernel set. */
module Allowlist {
  import opened Sets
  import opened Text

  const DAY: int := 86400
  /** A row is renewed only when less than this is left. */
  const RENEW_WHEN_LEFT_SECS: int := 86400

  datatype User = User(username: string, email: Option<string>) {
    function Label(): string {
      if email.Some? then email.value else username
    }
  }

  datatype Entry = Entry(name: Option<string>, addedBy: Option<string>, addedAt: int, expiresAt: int,
                         ttlDays: int, renewedAt: Option<int>, notifiedAt: Option<int>)

  type Users = map<string, User>
  type Entries = map<string, Entry>

  datatype Db = Db(users: Users, allow: Entries)

  datatype AddResult = Added | QuotaFull(mine: int, max: int) | NotOwner | UserGone

  function OwnedBy(allow: Entries, owner: string): set<string> {
    set ip | ip in allow && allow[ip].addedBy == Some(owner)
  }

  function Coalesce<T>(a: Option<T>, b: Option<T>): Option<T> {
    if a.Some? then a else b
  }

  // ── What each statement does ───────────────────────────

  datatype Grant = Grant(ip: string, name: Option<string>, expiresAt: int, ttlDays: int)

  /** `INSERT … ON CONFLICT DO UPDATE … WHERE`: refused for a row of somebody else. */
  function UpsertOwned(allow: Entries, g: Grant, owner: string, isAdmin: bool, now: int): (Entries, bool) {
    if g.ip !in allow then
      (allow[g.ip := Entry(g.name, Some(owner), now, g.expiresAt, g.ttlDays, None, None)], true)
    else
      var e := allow[g.ip];
      if e.addedBy == Some(owner) || isAdmin then
        (allow[g.ip := e.(name := Coalesce(g.name, e.name), expiresAt := g.expiresAt, ttlDays := g.ttlDays,
                          addedBy := Coalesce(e.addedBy, Some(owner)), notifiedAt := None)], true)
      else (allow, false)
  }

  /** Account still there, quota for a new address, write: one transaction. */
  function AddAtomic(db: Db, uid: string, g: Grant, owner: string, isAdmin: bool, maxPerUser: int,
                     now: int): (Db, AddResult) {
    if uid !in db.users then (db, UserGone)
    else if g.ip !in db.allow && |OwnedBy(db.allow, owner)| >= maxPerUser then
      (db, QuotaFull(|OwnedBy(db.allow, owner)|, maxPerUser))
    else
      var (allow, done) := UpsertOwned(db.allow, g, owner, isAdmin, now);
      if done then (db.(allow := allow), Added) else (db, NotOwner)
  }

  /** The import at first start writes rows without an owner and never takes one over. */
  function Import(allow: Entries, g: Grant, now: int): Entries {
    if g.ip in allow then
      var e := allow[g.ip];
      allow[g.ip := e.(name := Coalesce(g.name, e.name), expiresAt := g.expiresAt, ttlDays := g.ttlDays,
                       notifiedAt := None)]
    else allow[g.ip := Entry(g.name, None, now, g.expiresAt, g.ttlDays, None, None)]
  }

  function Renewed(e: Entry, now: int): Entry {
    e.(expiresAt := now + e.ttlDays * DAY, renewedAt := Some(now), notifiedAt := None)
  }

  function Purged(allow: Entries, now: int): Entries {
    map ip | ip in allow && allow[ip].expiresAt > now :: allow[ip]
  }

  /** Deleting an account takes the rows under its label along. */
  function DeleteUser(db: Db, uid: string, tag: string): Db {
    Db(db.users - {uid}, db.allow - OwnedBy(db.allow, tag))
  }

  predicate HasAccount(users: Users, owner: string) {
    exists uid :: uid in users && users[uid].email == Some(owner)
  }

  /** What the renewal loop does to one row, given whether its address had queries. */
  function Ticked(users: Users, e: Entry, active: bool, now: int): Entry {
    if e.expiresAt - now > RENEW_WHEN_LEFT_SECS then e
    else if active then Renewed(e, now)
    else if e.addedBy.Some? && HasAccount(users, e.addedBy.value) && e.notifiedAt.None? then e.(notifiedAt := Some(now))
    else e
  }

  function TickAll(db: Db, active: set<string>, now: int): Entries {
    map ip | ip in db.allow :: Ticked(db.users, db.allow[ip], ip in active, now)
  }

  /** The kernel set after a sync: each address with the time its element times out. */
  function KernelOf(allow: Entries, now: int): map<string, int> {
    map ip | ip in allow && allow[ip].expiresAt - now > 0 :: allow[ip].expiresAt
  }

  // ── The database, updated in place ─────────────────────

  class AllowDb {
    var users: Users
    var allow: Entries
    var kernel: map<string, int>

    function Rows(): Db
      reads this
    {
      Db(users, allow)
    }

    constructor ()
      ensures Rows() == Db(map[], map[]) && kernel == map[]
    {
      users, allow, kernel := map[], map[], map[];
    }

    method UpsertOwnedOn(g: Grant, owner: string, isAdmin: bool, now: int) returns (done: bool)
      modifies this`allow
      ensures (allow, done) == UpsertOwned(old(allow), g, owner, isAdmin, now)
    {
      done := true;
      if g.ip in allow {
        var e := allow[g.ip];
        if !(e.addedBy == Some(owner) || isAdmin) {
          return false;
        }
        allow := allow[g.ip := Entry(Coalesce(g.name, e.name), Coalesce(e.addedBy, Some(owner)), e.addedAt,
                                     g.expiresAt, g.ttlDays, e.renewedAt, None)];
      } else {
        allow := allow[g.ip := Entry(g.name, Some(owner), now, g.expiresAt, g.ttlDays, None, None)];
      }
    }

    method AllowAddAtomic(uid: string, g: Grant, owner: string, isAdmin: bool, maxPerUser: int, now: int)
        returns (r: AddResult)
      modifies this`allow
      ensures (Rows(), r) == AddAtomic(old(Rows()), uid, g, owner, isAdmin, maxPerUser, now)
    {
      if uid !in users {
        return UserGone;
      }
      if g.ip !in allow {
        var mine := |OwnedBy(allow, owner)|;
        if mine >= maxPerUser {
          return QuotaFull(mine, maxPerUser);
        }
      }
      var done := UpsertOwnedOn(g, owner, isAdmin, now);
      r := if done then Added else NotOwner;
    }

    method RenewAllow(ip: string, now: int) returns (expiresAt: Option<int>)
      modifies this`allow
      ensures allow == if ip in old(allow) then old(allow)[ip := Renewed(old(allow)[ip], now)] else old(allow)
      ensures expiresAt == if ip in allow then Some(allow[ip].expiresAt) else None
    {
      if ip !in allow {
        return None;
      }
      var e := allow[ip];
      allow := allow[ip := e.(expiresAt := now + e.ttlDays * DAY, renewedAt := Some(now), notifiedAt := None)];
      expiresAt := Some(allow[ip].expiresAt);
    }

    method ClaimExpiryNotice(ip: string, now: int) returns (yours: bool)
      modifies this`allow
      ensures yours <==> ip in old(allow) && old(allow)[ip].notifiedAt.None?
      ensures allow == if yours then old(allow)[ip := old(allow)[ip].(notifiedAt := Some(now))] else old(allow)
    {
      yours := ip in allow && allow[ip].notifiedAt.None?;
      if yours {
        allow := allow[ip := allow[ip].(notifiedAt := Some(now))];
      }
    }

    method PurgeExpired(now: int)
      modifies this`allow
      ensures allow == Purged(old(allow), now)
    {
      allow := map ip | ip in allow && !(allow[ip].expiresAt <= now) :: allow[ip];
    }

    method RemoveUser(uid: string, tag: string)
      modifies this`users, this`allow
      ensures Rows() == DeleteUser(old(Rows()), uid, tag)
    {
      allow := map ip | ip in allow && allow[ip].addedBy != Some(tag) :: allow[ip];
      users := users - {uid};
    }

    method ListAllow() returns (entries: seq<string>)
      ensures forall ip :: ip in entries <==> ip in allow
      ensures forall i, j :: 0 <= i < j < |entries| ==> entries[i] != entries[j]
    {
      entries := [];
      var todo := allow.Keys;
      while todo != {}
        invariant todo <= allow.Keys
        invariant forall ip :: ip in entries <==> ip in allow && ip !in todo
        invariant forall i, j :: 0 <= i < j < |entries| ==> entries[i] != entries[j]
        decreases todo
      {
        var ip :| ip in todo;
        entries := entries + [ip];
        todo := todo - {ip};
      }
    }

    /** One turn of `renew_active`: a snapshot of the list, then row by row. */
    method RenewActive(active: set<string>, now: int)
      modifies this`allow
      ensures allow == TickAll(old(Rows()), active, now)
    {
      var snapshot := allow;
      var entries := ListAllow();
      for i := 0 to |entries|
        invariant allow.Keys == snapshot.Keys
        invariant forall j :: 0 <= j < i ==>
                    allow[entries[j]] == Ticked(users, snapshot[entries[j]], entries[j] in active, now)
        invariant forall j :: i <= j < |entries| ==> allow[entries[j]] == snapshot[entries[j]]
      {
        var ip := entries[i];
        var e := snapshot[ip];
        if e.expiresAt - now > RENEW_WHEN_LEFT_SECS {
          continue;
        }
        if ip !in active {
          if e.addedBy.Some? && HasAccount(users, e.addedBy.value) {
            var _ := ClaimExpiryNotice(ip, now);
          }
          continue;
        }
        var _ := RenewAllow(ip, now);
      }
      forall ip | ip in allow
        ensures allow[ip] == TickAll(old(Rows()), active, now)[ip]
      {
        var j :| 0 <= j < |entries| && entries[j] == ip;
      }
    }

    /** `nft::sync`: purge, then rebuild the whole kernel set with the remaining seconds. */
    method Sync(now: int) returns (live: nat)
      modifies this`allow, this`kernel
      ensures allow == Purged(old(allow), now) && kernel == KernelOf(allow, now) && live == |kernel|
    {
      PurgeExpired(now);
      var entries := ListAllow();
      kernel := map[];
      for i := 0 to |entries|
        invariant allow == Purged(old(allow), now)
        invariant forall ip :: ip in kernel <==> ip in entries[..i] && allow[ip].expiresAt - now > 0
        invariant forall ip :: ip in kernel ==> ip in allow && kernel[ip] == allow[ip].expiresAt
      {
        var ttl := allow[entries[i]].expiresAt - now;
        if ttl <= 0 {
          continue;
        }
        kernel := kernel[entries[i] := now + ttl];
      }
      assert entries[..|entries|] == entries;
      live := |kernel|;
    }
  }

  // ── Histories ──────────────────────────────────────────

  datatype Op = Add(uid: string, grant: Grant, owner: string, isAdmin: bool)
              | ImportRow(grant: Grant)
              | Rename(ip: string, name: Option<string>)
              | Purge
              | Remove(ip: string)
              | Delete(uid: string, tag: string)
              | Create(uid: string, user: User)
              | RenewTick(active: set<string>)
              | SyncTick

  datatype Event = Event(now: int, op: Op)

  datatype World = World(db: Db, kernel: map<string, int>)

  function Apply(w: World, x: Event, maxPerUser: int): World {
    var db := w.db;
    match x.op
    case Add(uid, g, owner, isAdmin) => w.(db := AddAtomic(db, uid, g, owner, isAdmin, maxPerUser, x.now).0)
    case ImportRow(g) => w.(db := db.(allow := Import(db.allow, g, x.now)))
    case Rename(ip, name) => if ip in db.allow then w.(db := db.(allow := db.allow[ip := db.allow[ip].(name := name)]))
        else w
    case Purge => w.(db := db.(allow := Purged(db.allow, x.now)))
    case Remove(ip) => w.(db := db.(allow := db.allow - {ip}))
    case Delete(uid, tag) => w.(db := DeleteUser(db, uid, tag))
    case Create(uid, user) => w.(db := db.(users := db.users[uid := user]))
    case RenewTick(active) => w.(db := db.(allow := TickAll(db, active, x.now)))
    case SyncTick => World(db.(allow := Purged(db.allow, x.now)), KernelOf(Purged(db.allow, x.now), x.now))
  }

  /** Callers pass the label of their own account; a new account brings an unused id and label. */
  ghost predicate Proper(db: Db, op: Op) {
    match op
    case Add(uid, _, owner, _) => uid in db.users ==> owner == db.users[uid].Label()
    case Delete(uid, tag) => uid in db.users ==> tag == db.users[uid].Label()
    case Create(uid, user) => uid !in db.users && forall v :: v in db.users ==> db.users[v].Label() != user.Label()
    case _ => true
  }

  /** A run from an empty database. */
  ghost predicate Run(ws: seq<World>, es: seq<Event>, maxPerUser: int) {
    && |ws| == |es| + 1 && ws[0] == World(Db(map[], map[]), map[])
    && forall i :: 0 <= i < |es| ==> Proper(ws[i].db, es[i].op) && ws[i + 1] == Apply(ws[i], es[i], maxPerUser)
  }

  // ── Ownership ──────────────────────────────────────────

  ghost predicate LabelsUnique(users: Users) {
    forall u, v :: u in users && v in users && users[u].Label() == users[v].Label() ==> u == v
  }

  ghost predicate SomeoneIs(users: Users, tag: string) {
    exists uid :: uid in users && users[uid].Label() == tag
  }

  /** Every owned row belongs to an existing account. */
  ghost predicate OwnersExist(db: Db) {
    forall ip :: ip in db.allow && db.allow[ip].addedBy.Some? ==> SomeoneIs(db.users, db.allow[ip].addedBy.value)
  }

  lemma DeleteKeepsOwners(db: Db, uid: string, tag: string)
    requires OwnersExist(db) && (uid in db.users ==> tag == db.users[uid].Label())
    ensures OwnersExist(DeleteUser(db, uid, tag))
  {
    var db' := DeleteUser(db, uid, tag);
    forall ip | ip in db'.allow && db'.allow[ip].addedBy.Some?
      ensures SomeoneIs(db'.users, db'.allow[ip].addedBy.value)
    {
      var u :| u in db.users && db.users[u].Label() == db.allow[ip].addedBy.value;
      assert ip !in OwnedBy(db.allow, tag);
      assert u in db'.users;
    }
  }

  lemma CreateKeepsOwners(db: Db, uid: string, user: User)
    requires OwnersExist(db) && uid !in db.users
    ensures OwnersExist(db.(users := db.users[uid := user]))
  {
    var users' := db.users[uid := user];
    forall ip | ip in db.allow && db.allow[ip].addedBy.Some?
      ensures SomeoneIs(users', db.allow[ip].addedBy.value)
    {
      var u :| u in db.users && db.users[u].Label() == db.allow[ip].addedBy.value;
      assert u in users' && users'[u] == db.users[u];
    }
  }

  lemma AddKeepsOwners(db: Db, uid: string, g: Grant, owner: string, isAdmin: bool, maxPerUser: int, now: int)
    requires OwnersExist(db) && (uid in db.users ==> owner == db.users[uid].Label())
    ensures OwnersExist(AddAtomic(db, uid, g, owner, isAdmin, maxPerUser, now).0)
  {
  }

  lemma StepKeepsOwners(w: World, x: Event, maxPerUser: int)
    requires LabelsUnique(w.db.users) && OwnersExist(w.db) && Proper(w.db, x.op)
    ensures LabelsUnique(Apply(w, x, maxPerUser).db.users) && OwnersExist(Apply(w, x, maxPerUser).db)
  {
    match x.op
    case Add(uid, g, owner, isAdmin) => AddKeepsOwners(w.db, uid, g, owner, isAdmin, maxPerUser, x.now);
    case Delete(uid, tag) => DeleteKeepsOwners(w.db, uid, tag);
    case Create(uid, user) => CreateKeepsOwners(w.db, uid, user);
    case _ =>
  }

  /** In every reachable state labels are unique and every owned row has its account, however
      deletions and additions interleave. */
  lemma {:induction false} OwnersAlwaysExist(ws: seq<World>, es: seq<Event>, maxPerUser: int, i: nat)
    requires Run(ws, es, maxPerUser) && i < |ws|
    ensures LabelsUnique(ws[i].db.users) && OwnersExist(ws[i].db)
  {
    if i > 0 {
      OwnersAlwaysExist(ws, es, maxPerUser, i - 1);
      StepKeepsOwners(ws[i - 1], es[i - 1], maxPerUser);
    }
  }

  lemma StepKeepsOwner(w: World, x: Event, maxPerUser: int, ip: string)
    requires ip in w.db.allow && w.db.allow[ip].addedBy.Some?
    requires ip in Apply(w, x, maxPerUser).db.allow
    ensures Apply(w, x, maxPerUser).db.allow[ip].addedBy == w.db.allow[ip].addedBy
  {
  }

  /** As long as a row stays it keeps its owner, whoever calls what, admins included. */
  lemma {:induction false} OwnerNeverChanges(ws: seq<World>, es: seq<Event>, maxPerUser: int, ip: string, i: nat,
                                             j: nat)
    requires Run(ws, es, maxPerUser) && i <= j < |ws|
    requires forall k :: i <= k <= j ==> ip in ws[k].db.allow
    requires ws[i].db.allow[ip].addedBy.Some?
    ensures ws[j].db.allow[ip].addedBy == ws[i].db.allow[ip].addedBy
    decreases j
  {
    if i < j {
      OwnerNeverChanges(ws, es, maxPerUser, ip, i, j - 1);
      assert ws[(j - 1) + 1] == Apply(ws[j - 1], es[j - 1], maxPerUser);
      StepKeepsOwner(ws[j - 1], es[j - 1], maxPerUser, ip);
    }
  }

  /** A caller without admin powers changes no row but its own and new ones. */
  lemma OthersRowsAreSafe(db: Db, uid: string, g: Grant, owner: string, maxPerUser: int, now: int, ip: string)
    requires ip in db.allow && db.allow[ip].addedBy != Some(owner)
    ensures var (db', r) := AddAtomic(db, uid, g, owner, false, maxPerUser, now);
            && ip in db'.allow && db'.allow[ip] == db.allow[ip]
            && (g.ip == ip && uid in db.users ==> r == NotOwner)
  {
  }

  /** The row is somebody else's, or nobody's. */
  predicate Foreign(allow: Entries, ip: string, owner: string) {
    ip in allow && allow[ip].addedBy != Some(owner)
  }

  /** What an addition answers, for every database and caller. */
  lemma AddAnswers(db: Db, uid: string, g: Grant, owner: string, isAdmin: bool, maxPerUser: int, now: int)
    ensures var r := AddAtomic(db, uid, g, owner, isAdmin, maxPerUser, now).1;
            var full := g.ip !in db.allow && |OwnedBy(db.allow, owner)| >= maxPerUser;
            && (r == UserGone <==> uid !in db.users)
            && (forall n, m :: r == QuotaFull(n, m)
                               <==> uid in db.users && full && n == |OwnedBy(db.allow, owner)| && m == maxPerUser)
            && (r == NotOwner <==> uid in db.users && Foreign(db.allow, g.ip, owner) && !isAdmin)
            && (r == Added <==> uid in db.users && !full && (Foreign(db.allow, g.ip, owner) ==> isAdmin))
  {
  }

  /** What an addition leaves: nothing new unless it succeeded; then the row has the expiry and
      the days granted, an open notice, the name given or else the one it had, and its owner; and
      every other row is as it was. */
  lemma AddLeaves(db: Db, uid: string, g: Grant, owner: string, isAdmin: bool, maxPerUser: int, now: int)
    ensures var (db', r) := AddAtomic(db, uid, g, owner, isAdmin, maxPerUser, now);
            && db'.users == db.users && (r != Added ==> db' == db)
            && (r == Added ==>
                  && g.ip in db'.allow && OtherRowsSame(db.allow, db'.allow, g.ip)
                  && Granted(db.allow, db'.allow[g.ip], g, Some(owner), now))
  {
  }

  predicate OtherRowsSame(before: Entries, after: Entries, ip: string) {
    before - {ip} == after - {ip}
  }

  /** The row a grant leaves, for a new address or one that had a row; `owner` is set only where
      there was none. */
  predicate Granted(before: Entries, e: Entry, g: Grant, owner: Option<string>, now: int) {
    && e.expiresAt == g.expiresAt && e.ttlDays == g.ttlDays && e.notifiedAt == None
    && if g.ip in before then
         var old_ := before[g.ip];
         && e.name == (if g.name.Some? then g.name else old_.name) && e.addedAt == old_.addedAt
         && e.renewedAt == old_.renewedAt && e.addedBy == if old_.addedBy.Some? then old_.addedBy else owner
       else e.name == g.name && e.addedAt == now && e.renewedAt == None && e.addedBy == owner
  }

  /** An import never takes a row over and never gives one an owner. */
  lemma ImportLeaves(allow: Entries, g: Grant, now: int)
    ensures var after := Import(allow, g, now);
            g.ip in after && OtherRowsSame(allow, after, g.ip) && Granted(allow, after[g.ip], g, None, now)
  {
  }

  // ── Quota ──────────────────────────────────────────────

  /** The event hands a row that had no owner to `owner`. */
  predicate Adopts(db: Db, x: Event, owner: string) {
    x.op.Add? && x.op.owner == owner && x.op.uid in db.users && x.op.isAdmin
    && x.op.grant.ip in db.allow && db.allow[x.op.grant.ip].addedBy.None?
  }

  function Adoptions(ws: seq<World>, es: seq<Event>, owner: string, i: nat): nat
    requires i <= |es| < |ws|
  {
    if i == 0 then 0 else Adoptions(ws, es, owner, i - 1) + if Adopts(ws[i - 1].db, es[i - 1], owner) then 1 else 0
  }

  /** Owned rows grow by at most one per event: by a new address within the quota, or by adoption. */
  ghost predicate GrowsFairly(before: Entries, after: Entries, owner: string, maxPerUser: int, adopts: bool) {
    var b, a := |OwnedBy(before, owner)|, |OwnedBy(after, owner)|;
    a <= b || (a == b + 1 && (adopts || a <= maxPerUser))
  }

  lemma AddOwned(w: World, x: Event, maxPerUser: int, owner: string)
    requires x.op.Add?
    ensures GrowsFairly(w.db.allow, Apply(w, x, maxPerUser).db.allow, owner, maxPerUser, Adopts(w.db, x, owner))
  {
    var before, after := OwnedBy(w.db.allow, owner), OwnedBy(Apply(w, x, maxPerUser).db.allow, owner);
    if after <= before {
      SubsetSize(after, before);
    } else {
      assert after == before + {x.op.grant.ip};
    }
  }

  lemma StepOwned(w: World, x: Event, maxPerUser: int, owner: string)
    ensures GrowsFairly(w.db.allow, Apply(w, x, maxPerUser).db.allow, owner, maxPerUser, Adopts(w.db, x, owner))
  {
    if x.op.Add? {
      AddOwned(w, x, maxPerUser, owner);
    } else {
      SubsetSize(OwnedBy(Apply(w, x, maxPerUser).db.allow, owner), OwnedBy(w.db.allow, owner));
    }
  }

  /** An owner holds at most `maxPerUser` rows plus those it adopted: exactly `maxPerUser` at
      most if it never adopted one. */
  lemma {:induction false} QuotaHolds(ws: seq<World>, es: seq<Event>, maxPerUser: int, owner: string, i: nat)
    requires Run(ws, es, maxPerUser) && i <= |es|
    ensures |OwnedBy(ws[i].db.allow, owner)| <= (if maxPerUser < 0 then 0 else maxPerUser) + Adoptions(ws, es, owner, i)
  {
    if i > 0 {
      QuotaHolds(ws, es, maxPerUser, owner, i - 1);
      StepOwned(ws[i - 1], es[i - 1], maxPerUser, owner);
    }
  }
}
