/** The two periodic loops against the clock: an address in use never drops out, an idle one
    is never kept. */
module Renewal {
  import opened Text
  import opened Allowlist
  import DnsWindow

  /** How long queries are remembered, and how far back the renewal loop looks. */
  const DNS_WINDOW_SECS: int := 1800

  /** The addresses the renewal loop takes for active at a tick. */
  function ActiveSet(queues: DnsWindow.Queues, now: int): set<string> {
    set ip | ip in queues && DnsWindow.StatsOf(queues[ip], now - DNS_WINDOW_SECS).count > 0
  }

  /** A tick takes an address for active exactly when it was queried in the last half hour. */
  lemma TickSeesQueries(es: seq<DnsWindow.Event>, ip: string, now: int)
    requires DnsWindow.TimesUpTo(es, now)
    ensures ip in ActiveSet(DnsWindow.After(es, DNS_WINDOW_SECS).queues, now)
            <==> DnsWindow.QueriedSince(DnsWindow.Log(es, ip), now - 1800)
  {
    DnsWindow.ActivityMeansQuery(es, DNS_WINDOW_SECS, ip, DNS_WINDOW_SECS, now);
  }

  /** One run with everything that happens, from any starting state. */
  ghost predicate Steps(ws: seq<World>, es: seq<Event>, maxPerUser: int) {
    && |ws| == |es| + 1
    && (forall i :: 0 <= i < |es| ==> ws[i + 1] == Apply(ws[i], es[i], maxPerUser))
    && (forall i, j :: 0 <= i < j < |es| ==> es[i].now <= es[j].now)
  }

  /** Time of the last renewal tick before event `i`, given the one before the run. */
  function LastTick(es: seq<Event>, i: nat, before: int): int
    requires i <= |es|
  {
    if i == 0 then before else if es[i - 1].op.RenewTick? then es[i - 1].now else LastTick(es, i - 1, before)
  }

  /** Time of the last sync before event `i`, None while there was none in the run. */
  function LastSync(es: seq<Event>, i: nat): Option<int>
    requires i <= |es|
  {
    if i == 0 then None else if es[i - 1].op.SyncTick? then Some(es[i - 1].now) else LastSync(es, i - 1)
  }

  /** Nobody removes the address by hand, nor its owner, and no import touches it. */
  predicate LeavesAlone(allow: Entries, op: Op, ip: string) {
    match op
    case Remove(a) => a != ip
    case Delete(_, tag) => ip in allow ==> allow[ip].addedBy != Some(tag)
    case ImportRow(g) => g.ip != ip
    case _ => true
  }

  /** A grant as `allow_add` makes it: from now on, for at least a day. */
  predicate FreshGrant(g: Grant, now: int) {
    g.ttlDays >= 1 && g.expiresAt == now + g.ttlDays * DAY
  }

  /** The address is granted only by `allow_add` and otherwise left alone. */
  ghost predicate OnlyGranted(ws: seq<World>, es: seq<Event>, ip: string)
    requires |ws| == |es| + 1
  {
    forall i :: 0 <= i < |es| ==>
      && LeavesAlone(ws[i].db.allow, es[i].op, ip)
      && (es[i].op.Add? && es[i].op.grant.ip == ip ==> FreshGrant(es[i].op.grant, es[i].now))
  }

  ghost predicate ActiveAtTicks(es: seq<Event>, ip: string) {
    forall i :: 0 <= i < |es| && es[i].op.RenewTick? ==> ip in es[i].op.active
  }

  /** What the run must look like for the address: granted only by `allow_add`, left alone,
      and with a query seen at every renewal tick. */
  ghost predicate KeptInUse(ws: seq<World>, es: seq<Event>, ip: string)
    requires |ws| == |es| + 1
  {
    OnlyGranted(ws, es, ip) && ActiveAtTicks(es, ip)
  }

  /** No event comes later than `renewGap` after the last tick or `syncGap` after the last sync. */
  ghost predicate Regular(es: seq<Event>, renewGap: int, syncGap: int, before: int) {
    forall i :: 0 <= i < |es| ==>
      && LastTick(es, i, before) <= es[i].now <= LastTick(es, i, before) + renewGap
      && (LastSync(es, i).Some? ==> LastSync(es, i).value <= es[i].now <= LastSync(es, i).value + syncGap)
  }

  /** The row outlives the last tick by a day; what the kernel got at the last sync outlives
      that sync by a day less one renewal gap. */
  ghost predicate Alive(w: World, ip: string, tick: int, sync: Option<int>, renewGap: int) {
    && ip in w.db.allow && w.db.allow[ip].ttlDays >= 1
    && w.db.allow[ip].expiresAt >= tick + DAY
    && (sync.Some? ==> ip in w.kernel && w.kernel[ip] >= sync.value - renewGap + DAY)
  }

  lemma StepAlive(w: World, x: Event, maxPerUser: int, ip: string, tick: int, sync: Option<int>, renewGap: int)
    requires Alive(w, ip, tick, sync, renewGap) && tick <= x.now <= tick + renewGap && renewGap < DAY
    requires LeavesAlone(w.db.allow, x.op, ip)
    requires x.op.Add? && x.op.grant.ip == ip ==> FreshGrant(x.op.grant, x.now)
    requires x.op.RenewTick? ==> ip in x.op.active
    ensures Alive(Apply(w, x, maxPerUser), ip, if x.op.RenewTick? then x.now else tick,
                  if x.op.SyncTick? then Some(x.now) else sync, renewGap)
  {
  }

  lemma {:induction false} AlwaysAlive(ws: seq<World>, es: seq<Event>, maxPerUser: int, ip: string,
                                       renewGap: int, syncGap: int, before: int, i: nat)
    requires Steps(ws, es, maxPerUser) && KeptInUse(ws, es, ip) && Regular(es, renewGap, syncGap, before)
    requires 0 <= renewGap < DAY
    requires Alive(ws[0], ip, before, None, renewGap)
    requires i < |ws|
    ensures Alive(ws[i], ip, LastTick(es, i, before), LastSync(es, i), renewGap)
  {
    if i > 0 {
      AlwaysAlive(ws, es, maxPerUser, ip, renewGap, syncGap, before, i - 1);
      StepAlive(ws[i - 1], es[i - 1], maxPerUser, ip, LastTick(es, i - 1, before), LastSync(es, i - 1), renewGap);
    }
  }

  /** Right after `allow_add` the row outlives the last tick by a day. */
  lemma GrantIsAlive(w: World, x: Event, maxPerUser: int, tick: int, renewGap: int)
    requires x.op.Add? && FreshGrant(x.op.grant, x.now) && tick <= x.now
    requires AddAtomic(w.db, x.op.uid, x.op.grant, x.op.owner, x.op.isAdmin, maxPerUser, x.now).1 == Added
    ensures Alive(Apply(w, x, maxPerUser), x.op.grant.ip, tick, None, renewGap)
  {
  }

  /** Not expired, and after a sync not timed out in the kernel set either. */
  predicate Held(w: World, ip: string, now: int, synced: bool) {
    && ip in w.db.allow && w.db.allow[ip].expiresAt > now
    && (synced ==> ip in w.kernel && w.kernel[ip] > now)
  }

  /** If the gap between renewal ticks plus the gap between syncs stays below a day, a granted
      address that is left alone and queried at every tick has not expired when any later
      event comes, before it and after it; and from the first sync on the kernel's own
      timeout for it has never run out either. */
  lemma InUseNeverDropsOut(ws: seq<World>, es: seq<Event>, maxPerUser: int, renewGap: int, syncGap: int, before: int,
                           i: nat)
    requires Steps(ws, es, maxPerUser) && es != [] && es[0].op.Add?
    requires FreshGrant(es[0].op.grant, es[0].now)
    requires AddAtomic(ws[0].db, es[0].op.uid, es[0].op.grant, es[0].op.owner, es[0].op.isAdmin, maxPerUser,
                       es[0].now).1 == Added
    requires before <= es[0].now
    requires KeptInUse(ws[1..], es[1..], es[0].op.grant.ip) && Regular(es[1..], renewGap, syncGap, before)
    requires 0 <= renewGap && 0 <= syncGap && renewGap + syncGap < DAY
    requires 0 < i < |es|
    ensures var ip, now := es[0].op.grant.ip, es[i].now;
            var synced := LastSync(es[1..], i - 1).Some?;
            Held(ws[i], ip, now, synced) && Held(ws[i + 1], ip, now, synced)
  {
    var ws', es', ip := ws[1..], es[1..], es[0].op.grant.ip;
    GrantIsAlive(ws[0], es[0], maxPerUser, before, renewGap);
    assert ws'[0] == ws[1] && ws'[i - 1] == ws[i] && ws'[i] == ws[i + 1] && es'[i - 1] == es[i];
    AlwaysAlive(ws', es', maxPerUser, ip, renewGap, syncGap, before, i - 1);
    AlwaysAlive(ws', es', maxPerUser, ip, renewGap, syncGap, before, i);
  }

  // ── What a renewal gives ───────────────────────────────

  /** The grant `allow_add` makes of a request: the days asked for, or else the configured ones,
      between 1 and 30. */
  function RequestedGrant(ip: string, name: Option<string>, days: Option<int>, defaultDays: int, now: int): Grant {
    var asked := if days.Some? then days.value else defaultDays;
    var ttlDays := if asked < 1 then 1 else if asked > 30 then 30 else asked;
    Grant(ip, name, now + ttlDays * DAY, ttlDays)
  }

  lemma RequestedGrantMeans(ip: string, name: Option<string>, days: Option<int>, defaultDays: int, now: int)
    ensures var g := RequestedGrant(ip, name, days, defaultDays, now);
            && FreshGrant(g, now) && g.ip == ip && g.name == name && 1 <= g.ttlDays <= 30
            && g.expiresAt == now + g.ttlDays * 86400
            && (days.Some? && 1 <= days.value <= 30 ==> g.ttlDays == days.value)
            && (days.None? && 1 <= defaultDays <= 30 ==> g.ttlDays == defaultDays)
            && (days.Some? && days.value > 30 ==> g.ttlDays == 30) && (days.Some? && days.value < 1 ==> g.ttlDays == 1)
  {
  }

  /** A tick renews exactly the rows in use with at most a day left: by their own number of days
      from the tick on, noting the time and reopening the notice. An idle owned row is noted as
      told once; every other row stays as it is. */
  lemma TickMeans(w: World, x: Event, maxPerUser: int, ip: string)
    requires x.op.RenewTick? && ip in w.db.allow
    ensures ip in Apply(w, x, maxPerUser).db.allow
    ensures var e, e' := w.db.allow[ip], Apply(w, x, maxPerUser).db.allow[ip];
            var close := e.expiresAt <= x.now + 86400;
            && (close && ip in x.op.active ==>
                  e' == e.(expiresAt := x.now + e.ttlDays * 86400, renewedAt := Some(x.now), notifiedAt := None))
            && (close && ip !in x.op.active && e.notifiedAt.None? && OwnerHasAccount(w.db.users, e) ==>
                  e' == e.(notifiedAt := Some(x.now)))
            && (!close || (ip !in x.op.active && (e.notifiedAt.Some? || !OwnerHasAccount(w.db.users, e))) ==> e' == e)
  {
  }

  ghost predicate OwnerHasAccount(users: Users, e: Entry) {
    e.addedBy.Some? && exists uid :: uid in users && users[uid].email == e.addedBy
  }

  lemma TickKeepsKeys(w: World, x: Event, maxPerUser: int)
    requires x.op.RenewTick?
    ensures Apply(w, x, maxPerUser).db.allow.Keys == w.db.allow.Keys && Apply(w, x, maxPerUser).kernel == w.kernel
  {
  }

  /** The event grants the address: an import, or an addition that succeeds. */
  ghost predicate Grants(w: World, x: Event, maxPerUser: int, ip: string) {
    match x.op
    case ImportRow(g) => g.ip == ip
    case Add(uid, g, owner, isAdmin) =>
      && g.ip == ip && uid in w.db.users && (Foreign(w.db.allow, ip, owner) ==> isAdmin)
      && (ip !in w.db.allow ==> |OwnedBy(w.db.allow, owner)| < maxPerUser)
    case _ => false
  }

  ghost predicate GrantedAt(ws: seq<World>, es: seq<Event>, maxPerUser: int, j: nat, i: nat, ip: string)
    requires j < i < |ws| == |es| + 1
  {
    && Grants(ws[j], es[j], maxPerUser, ip)
    && forall k :: j < k < i ==> !Grants(ws[k], es[k], maxPerUser, ip) && ip in ws[k].db.allow
  }

  lemma StepDays(w: World, x: Event, maxPerUser: int, ip: string)
    requires ip in Apply(w, x, maxPerUser).db.allow
    ensures Grants(w, x, maxPerUser, ip) ==> Apply(w, x, maxPerUser).db.allow[ip].ttlDays == x.op.grant.ttlDays
    ensures !Grants(w, x, maxPerUser, ip) ==>
              ip in w.db.allow && Apply(w, x, maxPerUser).db.allow[ip].ttlDays == w.db.allow[ip].ttlDays
  {
    if x.op.Add? {
      AddAnswers(w.db, x.op.uid, x.op.grant, x.op.owner, x.op.isAdmin, maxPerUser, x.now);
      AddLeaves(w.db, x.op.uid, x.op.grant, x.op.owner, x.op.isAdmin, maxPerUser, x.now);
      OtherRow(w.db.allow, Apply(w, x, maxPerUser).db.allow, x.op.grant.ip, ip);
    } else if x.op.ImportRow? {
      ImportLeaves(w.db.allow, x.op.grant, x.now);
      OtherRow(w.db.allow, Apply(w, x, maxPerUser).db.allow, x.op.grant.ip, ip);
    } else if x.op.RenewTick? && ip in w.db.allow {
      TickMeans(w, x, maxPerUser, ip);
    }
  }

  lemma OtherRow(before: Entries, after: Entries, changed: string, ip: string)
    ensures OtherRowsSame(before, after, changed) && ip != changed ==>
              (ip in before <==> ip in after) && (ip in before ==> after[ip] == before[ip])
  {
    if OtherRowsSame(before, after, changed) && ip != changed {
      assert ip in before <==> ip in before - {changed};
      assert ip in after <==> ip in after - {changed};
      assert ip in before ==> (before - {changed})[ip] == before[ip];
    }
  }

  /** In every run a row's number of days is that of its last grant or import. */
  lemma {:induction false} DaysOfLastGrant(ws: seq<World>, es: seq<Event>, maxPerUser: int, i: nat, ip: string)
    requires Run(ws, es, maxPerUser) && i < |ws| && ip in ws[i].db.allow
    ensures exists j: nat :: j < i && GrantedAt(ws, es, maxPerUser, j, i, ip)
                             && ws[i].db.allow[ip].ttlDays == es[j].op.grant.ttlDays
  {
    assert i > 0;
    assert ws[(i - 1) + 1] == Apply(ws[i - 1], es[i - 1], maxPerUser);
    StepDays(ws[i - 1], es[i - 1], maxPerUser, ip);
    if Grants(ws[i - 1], es[i - 1], maxPerUser, ip) {
      assert GrantedAt(ws, es, maxPerUser, i - 1, i, ip);
    } else {
      DaysOfLastGrant(ws, es, maxPerUser, i - 1, ip);
      var j: nat :| j < i - 1 && GrantedAt(ws, es, maxPerUser, j, i - 1, ip)
                    && ws[i - 1].db.allow[ip].ttlDays == es[j].op.grant.ttlDays;
      assert GrantedAt(ws, es, maxPerUser, j, i, ip);
    }
  }

  /** In every run, after a tick at `t` a row in use that had at most a day left expires exactly
      the days of its last grant or import after `t`. */
  lemma RenewedForItsDays(ws: seq<World>, es: seq<Event>, maxPerUser: int, i: nat, ip: string) returns (j: nat)
    requires Run(ws, es, maxPerUser) && i < |es| && es[i].op.RenewTick? && ip in es[i].op.active
    requires ip in ws[i].db.allow && ws[i].db.allow[ip].expiresAt <= es[i].now + 86400
    ensures ip in ws[i + 1].db.allow && j < i && GrantedAt(ws, es, maxPerUser, j, i, ip)
    ensures ws[i + 1].db.allow[ip].expiresAt == es[i].now + es[j].op.grant.ttlDays * 86400
    ensures ws[i + 1].db.allow[ip].renewedAt == Some(es[i].now) && ws[i + 1].db.allow[ip].notifiedAt == None
  {
    DaysOfLastGrant(ws, es, maxPerUser, i, ip);
    j :| j < i && GrantedAt(ws, es, maxPerUser, j, i, ip) && ws[i].db.allow[ip].ttlDays == es[j].op.grant.ttlDays;
    assert ws[i + 1] == Apply(ws[i], es[i], maxPerUser);
    TickMeans(ws[i], es[i], maxPerUser, ip);
  }

  /** From event `i` on nobody removes or grants the address again, before `until`. */
  ghost predicate Untouched(ws: seq<World>, es: seq<Event>, ip: string, until: int)
    requires |ws| == |es| + 1
  {
    forall k :: 0 <= k < |es| ==>
      && LeavesAlone(ws[k].db.allow, es[k].op, ip) && es[k].now < until
      && (es[k].op.Add? ==> es[k].op.grant.ip != ip)
  }

  ghost predicate Lasts(w: World, ip: string, until: int, synced: bool) {
    && ip in w.db.allow && w.db.allow[ip].ttlDays >= 1 && w.db.allow[ip].expiresAt >= until
    && (synced ==> ip in w.kernel && w.kernel[ip] >= until)
  }

  lemma StepLasts(w: World, x: Event, maxPerUser: int, ip: string, until: int, synced: bool)
    requires Lasts(w, ip, until, synced) && x.now < until
    requires LeavesAlone(w.db.allow, x.op, ip) && (x.op.Add? ==> x.op.grant.ip != ip)
    ensures Lasts(Apply(w, x, maxPerUser), ip, until, synced || x.op.SyncTick?)
  {
    if x.op.Add? {
      AddLeaves(w.db, x.op.uid, x.op.grant, x.op.owner, x.op.isAdmin, maxPerUser, x.now);
      OtherRow(w.db.allow, Apply(w, x, maxPerUser).db.allow, x.op.grant.ip, ip);
    } else if x.op.RenewTick? {
      TickMeans(w, x, maxPerUser, ip);
    }
  }

  /** A row that holds until some time, left alone and not granted anew, is in the table until
      then, queried or not, and from the first sync on in the kernel set. */
  lemma {:induction false} StaysUntilExpiry(ws: seq<World>, es: seq<Event>, maxPerUser: int, ip: string, until: int,
                                            i: nat)
    requires Steps(ws, es, maxPerUser) && Untouched(ws, es, ip, until) && i < |ws|
    requires Lasts(ws[0], ip, until, false)
    ensures Lasts(ws[i], ip, until, LastSync(es, i).Some?)
  {
    if i > 0 {
      StaysUntilExpiry(ws, es, maxPerUser, ip, until, i - 1);
      assert ws[(i - 1) + 1] == Apply(ws[i - 1], es[i - 1], maxPerUser);
      StepLasts(ws[i - 1], es[i - 1], maxPerUser, ip, until, LastSync(es, i - 1).Some?);
    }
  }

  /** So an address that `allow_add` has granted stays for the whole of the days granted. */
  lemma GrantLasts(ws: seq<World>, es: seq<Event>, maxPerUser: int, i: nat)
    requires Steps(ws, es, maxPerUser) && es != [] && es[0].op.Add? && FreshGrant(es[0].op.grant, es[0].now)
    requires Grants(ws[0], es[0], maxPerUser, es[0].op.grant.ip)
    requires Untouched(ws[1..], es[1..], es[0].op.grant.ip, es[0].now + es[0].op.grant.ttlDays * 86400)
    requires 0 < i < |ws|
    ensures Lasts(ws[i], es[0].op.grant.ip, es[0].now + es[0].op.grant.ttlDays * 86400, LastSync(es[1..], i - 1).Some?)
  {
    var g := es[0].op.grant;
    AddAnswers(ws[0].db, es[0].op.uid, g, es[0].op.owner, es[0].op.isAdmin, maxPerUser, es[0].now);
    AddLeaves(ws[0].db, es[0].op.uid, g, es[0].op.owner, es[0].op.isAdmin, maxPerUser, es[0].now);
    assert ws[0 + 1] == Apply(ws[0], es[0], maxPerUser);
    TailSteps(ws, es, maxPerUser);
    StaysUntilExpiry(ws[1..], es[1..], maxPerUser, g.ip, es[0].now + g.ttlDays * 86400, i - 1);
  }

  lemma TailSteps(ws: seq<World>, es: seq<Event>, maxPerUser: int)
    requires Steps(ws, es, maxPerUser) && es != []
    ensures Steps(ws[1..], es[1..], maxPerUser)
  {
    forall i | 0 <= i < |es[1..]|
      ensures ws[1..][i + 1] == Apply(ws[1..][i], es[1..][i], maxPerUser)
    {
      assert ws[(i + 1) + 1] == Apply(ws[i + 1], es[i + 1], maxPerUser);
    }
  }

  /** And one that a tick has renewed stays for its number of days from the tick on. */
  lemma RenewalLasts(ws: seq<World>, es: seq<Event>, maxPerUser: int, ip: string, i: nat)
    requires Steps(ws, es, maxPerUser) && es != [] && es[0].op.RenewTick? && ip in es[0].op.active
    requires ip in ws[0].db.allow && ws[0].db.allow[ip].expiresAt <= es[0].now + 86400
    requires ws[0].db.allow[ip].ttlDays >= 1
    requires Untouched(ws[1..], es[1..], ip, es[0].now + ws[0].db.allow[ip].ttlDays * 86400) && 0 < i < |ws|
    ensures Lasts(ws[i], ip, es[0].now + ws[0].db.allow[ip].ttlDays * 86400, LastSync(es[1..], i - 1).Some?)
  {
    assert ws[0 + 1] == Apply(ws[0], es[0], maxPerUser);
    TickMeans(ws[0], es[0], maxPerUser, ip);
    TailSteps(ws, es, maxPerUser);
    StaysUntilExpiry(ws[1..], es[1..], maxPerUser, ip, es[0].now + ws[0].db.allow[ip].ttlDays * 86400, i - 1);
  }

  // ── What the other steps do ────────────────────────────

  /** The step takes the row out: by hand, with its owner's account, or because it has expired. */
  ghost predicate TakesOut(e: Entry, x: Event, ip: string) {
    match x.op
    case Remove(a) => a == ip
    case Delete(_, tag) => e.addedBy == Some(tag)
    case Purge => e.expiresAt <= x.now
    case SyncTick => e.expiresAt <= x.now
    case _ => false
  }

  /** Besides grants and ticks nothing changes a row but its removal and its name; and only a sync
      changes the kernel set, to exactly the rows that are left, each with its expiry. */
  lemma OtherStepsMean(w: World, x: Event, maxPerUser: int, ip: string)
    requires !x.op.Add? && !x.op.ImportRow? && !x.op.RenewTick?
    ensures var before, after := w.db.allow, Apply(w, x, maxPerUser).db.allow;
            && (ip in after <==> ip in before && !TakesOut(before[ip], x, ip))
            && (ip in after ==>
                  after[ip] == if x.op.Rename? && x.op.ip == ip then before[ip].(name := x.op.name) else before[ip])
    ensures var before, after := w.kernel, Apply(w, x, maxPerUser);
            if x.op.SyncTick? then
              && (ip in after.kernel <==> ip in after.db.allow)
              && (ip in after.kernel ==> after.kernel[ip] == w.db.allow[ip].expiresAt)
            else after.kernel == before
  {
  }

  lemma StepStaysOut(w: World, x: Event, maxPerUser: int, ip: string, synced: bool)
    requires ip !in w.db.allow && (synced ==> ip !in w.kernel) && !Grants(w, x, maxPerUser, ip)
    ensures var w' := Apply(w, x, maxPerUser);
            ip !in w'.db.allow && (synced || x.op.SyncTick? ==> ip !in w'.kernel)
  {
    if ip in Apply(w, x, maxPerUser).db.allow {
      StepDays(w, x, maxPerUser, ip);
    } else if !x.op.Add? && !x.op.ImportRow? && !x.op.RenewTick? {
      OtherStepsMean(w, x, maxPerUser, ip);
    }
  }

  /** An address removed by hand stays out of the table until it is granted again, and out of the
      kernel set from the first sync on. */
  lemma {:induction false} RemovedIsGone(ws: seq<World>, es: seq<Event>, maxPerUser: int, ip: string, i: nat)
    requires Steps(ws, es, maxPerUser) && es != [] && es[0].op == Remove(ip) && 0 < i < |ws|
    requires forall k :: 0 < k < i ==> !Grants(ws[k], es[k], maxPerUser, ip)
    ensures ip !in ws[i].db.allow
    ensures (exists s :: 0 < s < i && es[s].op.SyncTick?) ==> ip !in ws[i].kernel
    decreases i
  {
    assert ws[i] == Apply(ws[i - 1], es[i - 1], maxPerUser);
    if i == 1 {
      OtherStepsMean(ws[0], es[0], maxPerUser, ip);
    } else {
      RemovedIsGone(ws, es, maxPerUser, ip, i - 1);
      StepStaysOut(ws[i - 1], es[i - 1], maxPerUser, ip, exists s :: 0 < s < i - 1 && es[s].op.SyncTick?);
    }
  }

  // ── Idle addresses ─────────────────────────────────────

  /** No renewal tick sees a query for the address and nobody grants or imports it. */
  ghost predicate Idle(es: seq<Event>, ip: string) {
    forall i :: 0 <= i < |es| ==>
      && (es[i].op.RenewTick? ==> ip !in es[i].op.active)
      && (es[i].op.Add? || es[i].op.ImportRow? ==> es[i].op.grant.ip != ip)
  }

  /** The address is gone, or still has the expiry it had; the kernel never waits longer. */
  ghost predicate NotExtended(w: World, ip: string, expiry: int) {
    && (ip in w.db.allow ==> w.db.allow[ip].expiresAt == expiry)
    && (ip in w.kernel ==> w.kernel[ip] <= expiry)
  }

  ghost predicate Gone(w: World, ip: string) {
    ip !in w.db.allow && ip !in w.kernel
  }

  lemma {:induction false} IdleIsNeverExtended(ws: seq<World>, es: seq<Event>, maxPerUser: int, ip: string, expiry: int,
                                               i: nat)
    requires Steps(ws, es, maxPerUser) && Idle(es, ip) && NotExtended(ws[0], ip, expiry) && i < |ws|
    ensures NotExtended(ws[i], ip, expiry)
  {
    if i > 0 {
      IdleIsNeverExtended(ws, es, maxPerUser, ip, expiry, i - 1);
      assert ws[i] == Apply(ws[i - 1], es[i - 1], maxPerUser);
    }
  }

  /** An idle address keeps the expiry it had, and from the first sync at or past it on it is
      gone from the table and from the kernel set. */
  lemma {:induction false} IdleIsGoneAfterExpiry(ws: seq<World>, es: seq<Event>, maxPerUser: int, ip: string,
                                                 expiry: int, s: nat, i: nat)
    requires Steps(ws, es, maxPerUser) && Idle(es, ip) && NotExtended(ws[0], ip, expiry)
    requires s < i < |ws| && es[s].op.SyncTick? && es[s].now >= expiry
    ensures Gone(ws[i], ip)
    decreases i
  {
    IdleIsNeverExtended(ws, es, maxPerUser, ip, expiry, s);
    if i > s + 1 {
      IdleIsGoneAfterExpiry(ws, es, maxPerUser, ip, expiry, s, i - 1);
    }
    assert ws[i] == Apply(ws[i - 1], es[i - 1], maxPerUser);
  }

  // ── With the query window in the same run ──────────────

  /** One thing that happens: a step on the allowlist, or one on the query window. */
  datatype Happening = Change(e: Event) | Query(q: DnsWindow.Event)

  function At(h: Happening): int {
    match h
    case Change(e) => e.now
    case Query(q) => q.at
  }

  function Changes(hs: seq<Happening>): seq<Event> {
    if hs == [] then []
    else Changes(Front(hs)) + if Last(hs).Change? then [Last(hs).e] else []
  }

  function Queries(hs: seq<Happening>): seq<DnsWindow.Event> {
    if hs == [] then []
    else Queries(Front(hs)) + if Last(hs).Query? then [Last(hs).q] else []
  }

  /** Everything the window has been told before happening `i`; `past` is what it was told before
      the run. */
  function Told(past: seq<DnsWindow.Event>, hs: seq<Happening>, i: nat): seq<DnsWindow.Event>
    requires i <= |hs|
  {
    past + Queries(hs[..i])
  }

  /** One clock for all, which never goes back. */
  ghost predicate OneClock(past: seq<DnsWindow.Event>, hs: seq<Happening>) {
    && (forall i, j :: 0 <= i < j < |hs| ==> At(hs[i]) <= At(hs[j]))
    && (forall i :: 0 <= i < |hs| ==> DnsWindow.TimesUpTo(past, At(hs[i])))
  }

  predicate IsTick(h: Happening) {
    h.Change? && h.e.op.RenewTick?
  }

  /** Each renewal tick asks the window for the active addresses. */
  ghost predicate TicksAsk(past: seq<DnsWindow.Event>, hs: seq<Happening>) {
    forall i :: 0 <= i < |hs| && IsTick(hs[i]) ==>
      hs[i].e.op.active == ActiveSet(DnsWindow.After(Told(past, hs, i), DNS_WINDOW_SECS).queues, hs[i].e.now)
  }

  /** The address was queried in the half hour before happening `i`, by the full log. */
  ghost predicate QueriedBefore(past: seq<DnsWindow.Event>, hs: seq<Happening>, i: nat, ip: string)
    requires i < |hs|
  {
    DnsWindow.QueriedSince(DnsWindow.Log(Told(past, hs, i), ip), At(hs[i]) - 1800)
  }

  lemma OneMoreInTime(es: seq<DnsWindow.Event>, q: DnsWindow.Event, now: int)
    requires DnsWindow.TimesUpTo(es, q.at) && q.at <= now
    ensures DnsWindow.TimesUpTo(es + [q], now)
  {
  }

  lemma {:induction false} ToldInTime(past: seq<DnsWindow.Event>, hs: seq<Happening>, now: int)
    requires OneClock(past, hs) && DnsWindow.TimesUpTo(past, now) && forall i :: 0 <= i < |hs| ==> At(hs[i]) <= now
    ensures DnsWindow.TimesUpTo(past + Queries(hs), now)
  {
    if hs == [] {
      assert past + [] == past;
    } else {
      var front, h := Front(hs), Last(hs);
      assert forall i :: 0 <= i < |front| ==> front[i] == hs[i];
      assert h == hs[|hs| - 1] && At(h) <= now;
      ToldInTime(past, front, At(h));
      if h.Query? {
        OneMoreInTime(past + Queries(front), h.q, now);
        assert past + Queries(hs) == (past + Queries(front)) + [h.q];
      } else {
        assert Queries(hs) == Queries(front);
      }
    }
  }

  lemma TickSees(past: seq<DnsWindow.Event>, hs: seq<Happening>, i: nat, ip: string)
    requires OneClock(past, hs) && TicksAsk(past, hs) && i < |hs| && IsTick(hs[i])
    ensures ip in hs[i].e.op.active <==> QueriedBefore(past, hs, i, ip)
  {
    ToldInTime(past, hs[..i], At(hs[i]));
    TickSeesQueries(Told(past, hs, i), ip, hs[i].e.now);
  }

  lemma {:induction false} ChangeHappens(hs: seq<Happening>, j: nat)
    requires j < |Changes(hs)|
    ensures exists i :: 0 <= i < |hs| && hs[i] == Change(Changes(hs)[j])
  {
    if j < |Changes(Front(hs))| {
      ChangeHappens(Front(hs), j);
      var i :| 0 <= i < |Front(hs)| && Front(hs)[i] == Change(Changes(Front(hs))[j]);
      assert hs[i] == Change(Changes(hs)[j]);
    } else {
      assert hs[|hs| - 1] == Change(Changes(hs)[j]);
    }
  }

  /** At every tick the address had been queried in the last half hour. */
  ghost predicate QueriedAtTicks(past: seq<DnsWindow.Event>, hs: seq<Happening>, ip: string) {
    forall i :: 0 <= i < |hs| && IsTick(hs[i]) ==> QueriedBefore(past, hs, i, ip)
  }

  ghost predicate SilentAtTicks(past: seq<DnsWindow.Event>, hs: seq<Happening>, ip: string) {
    forall i :: 0 <= i < |hs| && IsTick(hs[i]) ==> !QueriedBefore(past, hs, i, ip)
  }

  lemma QueriedMeansActive(past: seq<DnsWindow.Event>, hs: seq<Happening>, ip: string, j: nat)
    requires OneClock(past, hs) && TicksAsk(past, hs) && j < |Changes(hs)| && Changes(hs)[j].op.RenewTick?
    ensures QueriedAtTicks(past, hs, ip) ==> ip in Changes(hs)[j].op.active
    ensures SilentAtTicks(past, hs, ip) ==> ip !in Changes(hs)[j].op.active
  {
    ChangeHappens(hs, j);
    var i: nat :| i < |hs| && hs[i] == Change(Changes(hs)[j]);
    assert IsTick(hs[i]);
    TickSees(past, hs, i, ip);
  }

  lemma ActiveIfQueried(past: seq<DnsWindow.Event>, hs: seq<Happening>, es: seq<Event>, ip: string)
    requires OneClock(past, hs) && TicksAsk(past, hs) && es == Changes(hs) && QueriedAtTicks(past, hs, ip)
    ensures ActiveAtTicks(es, ip)
  {
    forall j | 0 <= j < |es| && es[j].op.RenewTick?
      ensures ip in es[j].op.active
    {
      QueriedMeansActive(past, hs, ip, j);
    }
  }

  lemma LaterActive(es: seq<Event>, ip: string)
    requires es != [] && ActiveAtTicks(es, ip)
    ensures ActiveAtTicks(es[1..], ip)
  {
  }

  /** The same as above with the queries in the run: an address granted by `allow_add`, left
      alone, and queried in the last half hour at every tick never expires and, from the first
      sync on, is never missing from the kernel set. */
  lemma QueriedNeverDropsOut(ws: seq<World>, past: seq<DnsWindow.Event>, hs: seq<Happening>, es: seq<Event>,
                             maxPerUser: int,
                             renewGap: int, syncGap: int, before: int, i: nat)
    requires OneClock(past, hs) && TicksAsk(past, hs) && es == Changes(hs)
    requires Steps(ws, es, maxPerUser) && es != [] && es[0].op.Add?
    requires FreshGrant(es[0].op.grant, es[0].now)
    requires AddAtomic(ws[0].db, es[0].op.uid, es[0].op.grant, es[0].op.owner, es[0].op.isAdmin, maxPerUser,
                       es[0].now).1 == Added
    requires before <= es[0].now
    requires OnlyGranted(ws[1..], es[1..], es[0].op.grant.ip) && Regular(es[1..], renewGap, syncGap, before)
    requires QueriedAtTicks(past, hs, es[0].op.grant.ip)
    requires 0 <= renewGap && 0 <= syncGap && renewGap + syncGap < DAY
    requires 0 < i < |es|
    ensures var ip, now := es[0].op.grant.ip, es[i].now;
            var synced := LastSync(es[1..], i - 1).Some?;
            Held(ws[i], ip, now, synced) && Held(ws[i + 1], ip, now, synced)
  {
    ActiveIfQueried(past, hs, es, es[0].op.grant.ip);
    LaterActive(es, es[0].op.grant.ip);
    InUseNeverDropsOut(ws, es, maxPerUser, renewGap, syncGap, before, i);
  }

  /** An address that nobody grants or imports and that was not queried in the last half hour at
      any tick is gone from the first sync at or past its expiry on. */
  lemma SilentIsGone(ws: seq<World>, past: seq<DnsWindow.Event>, hs: seq<Happening>, es: seq<Event>, maxPerUser: int,
                     ip: string, expiry: int, s: nat, i: nat)
    requires OneClock(past, hs) && TicksAsk(past, hs) && es == Changes(hs) && SilentAtTicks(past, hs, ip)
    requires forall j :: 0 <= j < |es| && (es[j].op.Add? || es[j].op.ImportRow?) ==> es[j].op.grant.ip != ip
    requires Steps(ws, es, maxPerUser) && NotExtended(ws[0], ip, expiry)
    requires s < i < |ws| && es[s].op.SyncTick? && es[s].now >= expiry
    ensures Gone(ws[i], ip)
  {
    forall j | 0 <= j < |es| && es[j].op.RenewTick?
      ensures ip !in es[j].op.active
    {
      QueriedMeansActive(past, hs, ip, j);
    }
    IdleIsGoneAfterExpiry(ws, es, maxPerUser, ip, expiry, s, i);
  }
}
