/** What each call does to the tables and to its session: when it is admitted, what it then
    changes, and that a refused one changes nothing. Conditions are read off the tables, with
    the limits written out. */
module RegistrationEffects {
  import opened Text
  import Otp
  import opened Registration
  import opened RegistrationSafety

  /** `uid` is an admin account and logged in on that session by passkey. */
  ghost predicate AdminOn(st: State, sid: string, uid: string) {
    && uid in st.db.users && st.db.users[uid].role == Admin
    && sid in st.sessions && ByPasskey(st.sessions[sid], uid)
  }

  ghost predicate AdminSession(st: State, sid: string) {
    exists uid :: AdminOn(st, sid, uid)
  }

  /** Somebody else than `uid` is an admin. */
  ghost predicate AnotherAdmin(users: map<string, Account>, uid: string) {
    exists v :: v in users && v != uid && users[v].role == Admin
  }

  ghost predicate AnotherPasskey(creds: map<string, string>, cred: string, uid: string) {
    exists d :: d in creds && d != cred && creds[d] == uid
  }

  ghost predicate HasAccount(users: map<string, Account>, email: string) {
    exists u :: u in users && users[u].email == Some(email)
  }

  /** A registered address nobody has joined with. */
  ghost predicate OpenInvite(invites: map<string, Invite>, email: string) {
    email in invites && invites[email].usedBy == None && !invites[email].revoked
  }

  /** An address the panel accepts: with an at sign, without white space, at most 254 bytes. */
  ghost predicate Address(s: string) {
    |Utf8Text(s)| <= 254 && '@' in s && forall c :: c in s ==> !IsWhitespace(c)
  }

  lemma AddressMeans(s: string)
    ensures ValidEmail(s) <==> Address(s)
  {
    OffsetMeans(s, |s|);
    assert s[..|s|] == s;
  }

  lemma AdminMeans(st: State, sid: string)
    ensures RequireAdmin(st, sid) <==> AdminSession(st, sid)
  {
    if RequireAdmin(st, sid) {
      assert AdminOn(st, sid, Sess(st.sessions, sid).user.value);
    }
  }

  /** A set that holds `x` counts at most one exactly when it holds nothing else. */
  lemma CountsOne<T>(s: set<T>, x: T)
    requires x in s
    ensures |s| <= 1 <==> forall y :: y in s ==> y == x
  {
    assert s == {x} + (s - {x});
    if |s| > 1 {
      var y :| y in s - {x};
    }
  }

  lemma OnlyAdmin(users: map<string, Account>, uid: string)
    requires uid in users && users[uid].role == Admin
    ensures |Admins(users)| <= 1 <==> !AnotherAdmin(users, uid)
  {
    CountsOne(Admins(users), uid);
    if v :| v in users && v != uid && users[v].role == Admin {
      assert v in Admins(users);
    }
  }

  lemma OnlyPasskey(creds: map<string, string>, cred: string, uid: string)
    requires cred in creds && creds[cred] == uid
    ensures |CredsOf(creds, uid)| <= 1 <==> !AnotherPasskey(creds, cred, uid)
  {
    CountsOne(CredsOf(creds, uid), cred);
    if d :| d in creds && d != cred && creds[d] == uid {
      assert d in CredsOf(creds, uid);
    }
  }

  // ── Administration ─────────────────────────────────────

  /** An admin gives exactly the requested role to exactly that account; the one request refused
      would leave nobody an admin: demoting himself as the only one. */
  lemma SetRoleMeans(w: World, now: int, sid: string, uid: string, role: Role)
    ensures var st, st' := w.st, Apply(w, Event(now, SetRoleOp(sid, uid, role))).st;
            var db := st.db;
            if AdminSession(st, sid) && uid in db.users && (role == Admin || AnotherAdmin(db.users, uid)) then
              && uid in st'.db.users && st'.db.users[uid] == db.users[uid].(role := role)
              && st' == st.(db := db.(users := db.users[uid := st'.db.users[uid]]))
            else st' == st
  {
    var st := w.st;
    AdminMeans(st, sid);
    var users := st.db.users;
    if RequireAdmin(st, sid) && uid in users {
      if users[uid].role == Admin {
        OnlyAdmin(users, uid);
      } else {
        assert AnotherAdmin(users, uid) by {
          var v :| AdminOn(st, sid, v);
        }
      }
    }
  }

  /** An admin deletes any account but his own; that it might be the last admin's never stops
      him, since he is one himself. With it go exactly its passkeys and the invitation it used. */
  lemma DeleteMeans(w: World, now: int, sid: string, uid: string)
    ensures var st, st' := w.st, Apply(w, Event(now, DeleteOp(sid, uid))).st;
            var db := st.db;
            if AdminSession(st, sid) && uid in db.users && Sess(st.sessions, sid).user != Some(uid) then
              && st'.sessions == st.sessions && st'.db.otp == db.otp && st'.db.tokens == db.tokens
              && st'.db.users == db.users - {uid}
              && (forall c :: c in st'.db.creds <==> c in db.creds && db.creds[c] != uid)
              && (forall c :: c in st'.db.creds ==> st'.db.creds[c] == db.creds[c])
              && (forall e :: e in st'.db.invites <==> e in db.invites && db.invites[e].usedBy != Some(uid))
              && (forall e :: e in st'.db.invites ==> st'.db.invites[e] == db.invites[e])
            else st' == st
  {
    var st := w.st;
    AdminMeans(st, sid);
    var users := st.db.users;
    if RequireAdmin(st, sid) && uid in users && Sess(st.sessions, sid).user != Some(uid) && users[uid].role == Admin {
      OnlyAdmin(users, uid);
      assert Sess(st.sessions, sid).user.value in Admins(users);
    }
  }

  /** An admin registers any address that reads as one and has no account: the invitation is
      open with that link, or stays used and without link if it was used before. */
  lemma InviteMeans(w: World, now: int, sid: string, email: string, tokenHash: string)
    ensures var st, st' := w.st, Apply(w, Event(now, InviteOp(sid, email, tokenHash))).st;
            var db := st.db;
            if AdminSession(st, sid) && '@' in email && !HasAccount(db.users, email) then
              && email in st'.db.invites
              && st' == st.(db := db.(invites := db.invites[email := st'.db.invites[email]]))
              && !st'.db.invites[email].revoked
              && (if email in db.invites && db.invites[email].usedBy.Some? then
                    st'.db.invites[email].usedBy == db.invites[email].usedBy && st'.db.invites[email].tokenHash == None
                  else st'.db.invites[email].usedBy == None && st'.db.invites[email].tokenHash == Some(tokenHash))
            else st' == st
  {
    AdminMeans(w.st, sid);
  }

  /** An admin closes any invitation nobody has used, and its link with it. */
  lemma RevokeMeans(w: World, now: int, sid: string, email: string)
    ensures var st, st' := w.st, Apply(w, Event(now, RevokeOp(sid, email))).st;
            var db := st.db;
            if AdminSession(st, sid) && email in db.invites && db.invites[email].usedBy == None then
              st' == st.(db := db.(invites := db.invites[email := Invite(None, true, None)]))
            else st' == st
  {
    AdminMeans(w.st, sid);
  }

  /** Whoever is logged in removes a passkey of his own, as long as he has another. */
  lemma PasskeyDeleteMeans(w: World, now: int, sid: string, cred: string)
    ensures var st, st' := w.st, Apply(w, Event(now, PasskeyDeleteOp(sid, cred))).st;
            var db := st.db;
            if && sid in st.sessions && st.sessions[sid].user.Some? && st.sessions[sid].user.value in db.users
               && cred in db.creds && db.creds[cred] == st.sessions[sid].user.value
               && AnotherPasskey(db.creds, cred, db.creds[cred])
            then st' == st.(db := db.(creds := db.creds - {cred}))
            else st' == st
  {
    var s, creds := Sess(w.st.sessions, sid), w.st.db.creds;
    if s.user.Some? && cred in creds && creds[cred] == s.user.value {
      OnlyPasskey(creds, cred, s.user.value);
    }
  }

  // ── Codes ──────────────────────────────────────────────

  /** A code for joining goes to an open invitation without account, one for logging in to an
      address with an account. */
  ghost predicate Due(db: Db, email: string, purpose: Otp.Purpose) {
    if purpose == Otp.Join then OpenInvite(db.invites, email) && !HasAccount(db.users, email)
    else HasAccount(db.users, email)
  }

  /** A code goes out exactly to an address it is due for and that got none within a minute: a
      fresh row of that hash and purpose, good for ten minutes. */
  lemma SendMeans(w: World, email: string, purpose: Otp.Purpose, codeHash: string, now: int)
    ensures var st, st' := w.st, Apply(w, Event(now, SendOp(email, purpose, codeHash))).st;
            var db := st.db;
            if Address(email) && Due(db, email, purpose) && (email in db.otp ==> now - db.otp[email].sentAt >= 60) then
              st' == st.(db := db.(otp := db.otp[email := Otp.Row(codeHash, now + 600, 0, now, None, purpose)]))
            else st' == st
  {
    AddressMeans(email);
  }

  /** There is a code of that purpose that can still be tried. */
  ghost predicate Live(t: Otp.Table, email: string, purpose: Otp.Purpose, now: int) {
    email in t && t[email].purpose == purpose && now < t[email].expiresAt && t[email].attempts < 5
  }

  /** A try marks the row if it was right, costs an attempt if it was wrong, and does nothing
      where there is no live code. */
  ghost predicate Tried(t: Otp.Table, t': Otp.Table, email: string, purpose: Otp.Purpose, h: string, now: int) {
    if Live(t, email, purpose, now) then
      t' == t[email := if t[email].codeHash == h then t[email].(verifiedAt := Some(now))
                       else t[email].(attempts := t[email].attempts + 1)]
    else t' == t
  }

  /** A join code lets the session prove the address exactly when it is live and right. */
  lemma JoinVerifyMeans(w: World, sid: string, email: string, h: string, now: int)
    ensures var st, ok := w.st, JoinVerify(w.st, sid, email, h, now).1;
            var db, st' := st.db, Apply(w, Event(now, JoinVerifyOp(sid, email, h))).st;
            && (ok <==> Live(db.otp, email, Otp.Join, now) && db.otp[email].codeHash == h)
            && Tried(db.otp, st'.db.otp, email, Otp.Join, h, now) && st'.db == db.(otp := st'.db.otp)
            && st'.sessions == if ok then st.sessions[sid := Sess(st.sessions, sid).(proof := Some(email))]
                               else st.sessions
  {
  }

  /** A link does so exactly when it is that of an open invitation without account; the row is
      then marked, and no code can be tried on it. */
  lemma JoinInviteMeans(w: World, sid: string, email: string, h: string, now: int)
    ensures var st, ok := w.st, JoinInvite(w.st, sid, email, h, now).1;
            var db, st' := st.db, Apply(w, Event(now, JoinInviteOp(sid, email, h))).st;
            && (ok <==> OpenInvite(db.invites, email) && db.invites[email].tokenHash == Some(h)
                        && !HasAccount(db.users, email))
            && (!ok ==> st' == st)
            && (ok ==>
                  && email in st'.db.otp && st'.db.otp[email].verifiedAt == Some(now)
                  && st'.db.otp[email].purpose == Otp.Join
                  && (now >= 0 ==> !Live(st'.db.otp, email, Otp.Join, now))
                  && st'.db == db.(otp := db.otp[email := st'.db.otp[email]])
                  && st'.sessions == st.sessions[sid := Sess(st.sessions, sid).(proof := Some(email))])
  {
  }

  /** A login code logs the session in exactly when it is live, right, and the account is that
      of the address; it is then used up, and unfinished flows of the session are dropped. */
  lemma LoginCodeMeans(w: World, sid: string, email: string, uid: string, h: string, now: int)
    ensures var st, ok := w.st, LoginCodeVerify(w.st, sid, email, uid, h, now).1;
            var db, st' := st.db, Apply(w, Event(now, LoginCodeOp(sid, email, uid, h))).st;
            && (ok <==> Live(db.otp, email, Otp.Login, now) && db.otp[email].codeHash == h
                        && uid in db.users && db.users[uid].email == Some(email))
            && st'.db == db.(otp := st'.db.otp)
            && (if ok then
                  && st'.db.otp == db.otp - {email}
                  && st'.sessions
                     == st.sessions[sid := Session(Some(uid), Some(ViaCode), Sess(st.sessions, sid).proof, None, false)]
                else Tried(db.otp, st'.db.otp, email, Otp.Login, h, now) && st'.sessions == st.sessions)
  {
  }

  // ── Passkey logins ─────────────────────────────────────

  /** Starting one drops a registration under way; the session stays who it was. */
  lemma LoginStartMeans(w: World, now: int, sid: string)
    ensures var st, s, st' := w.st, Sess(w.st.sessions, sid), Apply(w, Event(now, LoginAnyStartOp(sid))).st;
            st' == st.(sessions := st.sessions[sid := Session(s.user, s.via, s.proof, None, true)])
  {
  }

  /** Finishing one works once, for the account that holds the verified passkey. */
  lemma LoginFinishMeans(w: World, token: string, now: int, sid: string, uid: string, cred: string, verified: bool)
    requires WorldOk(w, token)
    ensures var st, s := w.st, Sess(w.st.sessions, sid);
            var ok := LoginAnyFinish(st, sid, uid, cred, verified).1;
            var st' := Apply(w, Event(now, LoginAnyFinishOp(sid, uid, verified, cred))).st;
            && (ok <==> verified && s.disc && cred in st.db.creds && st.db.creds[cred] == uid)
            && st'.db == st.db
            && st'.sessions
               == if ok then st.sessions[sid := Session(Some(uid), Some(ViaPasskey), s.proof, s.reg, false)]
                  else st.sessions
  {
  }

  /** `sid` was given a challenge in step `j`, and it has stood in every state up to `i`. */
  ghost predicate ChallengeStands(ws: seq<World>, es: seq<Event>, j: nat, i: nat, sid: string)
    requires j < i < |ws| == |es| + 1
  {
    es[j].op == LoginAnyStartOp(sid) && forall k :: j < k <= i ==> Sess(ws[k].st.sessions, sid).disc
  }

  lemma StepChallenge(w: World, x: Event, sid: string)
    requires Sess(Apply(w, x).st.sessions, sid).disc
    ensures x.op == LoginAnyStartOp(sid) || Sess(w.st.sessions, sid).disc
  {
    if x.op.RegisterFinishOp? {
      FinishKeepsChallenge(w.st, x.op.sid, x.op.verified, x.op.cred);
    }
  }

  lemma FinishKeepsChallenge(st: State, sid: string, verified: bool, cred: string)
    ensures forall i :: Sess(RegisterFinish(st, sid, verified, cred).0.sessions, i).disc == Sess(st.sessions, i).disc
  {
  }

  lemma {:induction false} ChallengeMeans(ws: seq<World>, es: seq<Event>, token: string, i: nat, sid: string)
      returns (j: nat)
    requires Run(ws, es, token) && i < |ws| && Sess(ws[i].st.sessions, sid).disc
    ensures j < i && ChallengeStands(ws, es, j, i, sid)
  {
    assert i > 0;
    assert ws[i] == Apply(ws[i - 1], es[i - 1]);
    if es[i - 1].op == LoginAnyStartOp(sid) {
      return i - 1;
    }
    StepChallenge(ws[i - 1], es[i - 1], sid);
    j := ChallengeMeans(ws, es, token, i - 1, sid);
  }

  /** In this step `sid` answers its challenge with a passkey of `uid`. */
  ghost predicate Answers(w: World, x: Event, sid: string, uid: string) {
    x.op.LoginAnyFinishOp? && LogsInByPasskey(w, x, sid, uid)
  }

  lemma AnswerUsesUp(ws: seq<World>, es: seq<Event>, token: string, k: nat, sid: string, uid: string)
    requires Run(ws, es, token) && k < |es|
    ensures Answers(ws[k], es[k], sid, uid) ==> !Sess(ws[k + 1].st.sessions, sid).disc
  {
    AlwaysOk(ws, es, token, k);
    assert ws[k + 1] == Apply(ws[k], es[k]);
  }

  /** A challenge is good for one login: before each there is a start of that session, and
      between two of them another one. */
  lemma OneLoginPerChallenge(ws: seq<World>, es: seq<Event>, token: string, i: nat, sid: string, uid: string)
      returns (j: nat)
    requires Run(ws, es, token) && i < |es| && Answers(ws[i], es[i], sid, uid)
    ensures j < i && es[j].op == LoginAnyStartOp(sid)
    ensures forall k, v :: j <= k < i ==> !Answers(ws[k], es[k], sid, v)
  {
    j := ChallengeMeans(ws, es, token, i, sid);
    forall k, v | j <= k < i
      ensures !Answers(ws[k], es[k], sid, v)
    {
      AnswerUsesUp(ws, es, token, k, sid, v);
    }
  }

  /** Logging out, or the store letting the session go, leaves an unknown session and everything
      else as it was; an unknown session is nobody's and in the middle of nothing. */
  lemma ForgetMeans(w: World, now: int, sid: string)
    ensures var st, st' := w.st, Apply(w, Event(now, ForgetOp(sid))).st;
            st'.db == st.db && st'.sessions == st.sessions - {sid}
    ensures sid !in w.st.sessions ==> Sess(w.st.sessions, sid) == Session(None, None, None, None, false)
  {
  }

  // ── Registering ────────────────────────────────────────

  /** The account may get one more passkey from this session: it has fewer than ten, and an
      admin's session came by passkey. */
  ghost predicate MayAddPasskey(db: Db, s: Session, uid: string) {
    && s.user == Some(uid) && uid in db.users && |CredsOf(db.creds, uid)| < 10
    && (db.users[uid].role == Admin ==> s.via == Some(ViaPasskey))
  }

  /** An anonymous session may become the first account with the token printed at first start. */
  ghost predicate MayBootstrap(db: Db, s: Session, email: Option<string>, token: Option<string>) {
    && s.user == None && email.Some? && Address(email.value) && db.users == map[]
    && token.Some? && token.value in db.tokens && !db.tokens[token.value]
  }

  /** It may become a member with its own proof of an invited address, marked at most a quarter
      of an hour ago. */
  ghost predicate MayBecomeMember(db: Db, s: Session, email: Option<string>, now: int) {
    && s.user == None && email.Some? && Address(email.value) && db.users != map[]
    && OpenInvite(db.invites, email.value) && !HasAccount(db.users, email.value) && s.proof == email
    && exists at :: Marked(db, email.value, at) && now - at <= 900
  }

  lemma StartOnTables(db: Db, s: Session, email: Option<string>, token: Option<string>, newId: string, now: int)
    requires email.Some? ==> (ValidEmail(email.value) <==> Address(email.value))
    ensures s.user.Some? ==>
              Pend(db, s, email, token, newId, now)
              == if MayAddPasskey(db, s, s.user.value) then
                   var a := db.users[s.user.value];
                   Some(Pending(s.user.value, a.username, a.email, false, a.role, None))
                 else None
    ensures s.user.None? ==>
              Pend(db, s, email, token, newId, now)
              == if MayBootstrap(db, s, email, token) then Some(Pending(newId, email.value, email, true, Admin, token))
                 else if MayBecomeMember(db, s, email, now) then
                   Some(Pending(newId, email.value, email, true, Member, None))
                 else None
  {
    assert |db.users| == 0 <==> db.users == map[];
    if s.user.None? && email.Some? {
      assert HasAccount(db.users, email.value) <==> EmailTaken(db.users, email.value);
      assert (exists at :: Marked(db, email.value, at) && now - at <= 900)
             <==> Otp.RecentlyVerified(db.otp, email.value, Otp.Join, 900, now) by {
        if Otp.RecentlyVerified(db.otp, email.value, Otp.Join, 900, now) {
          assert Marked(db, email.value, db.otp[email.value].verifiedAt.value);
        }
      }
    }
  }

  /** What a start leaves pending: a passkey for the account logged in, the first account, a
      member account, and in every other case nothing. */
  lemma StartMeans(w: World, sid: string, email: Option<string>, token: Option<string>, newId: string, now: int)
    ensures var st, db, s := w.st, w.st.db, Sess(w.st.sessions, sid);
            var ok := RegisterStart(st, sid, email, token, newId, now).1;
            var st' := Apply(w, Event(now, RegisterStartOp(sid, email, token, newId))).st;
            var reg := Sess(st'.sessions, sid).reg;
            && st' == st.(sessions := st.sessions[sid := Session(s.user, s.via, s.proof, reg, false)])
            && (ok <==> reg.Some?)
            && (if s.user.Some? && MayAddPasskey(db, s, s.user.value) then
                  var a := db.users[s.user.value];
                  reg == Some(Pending(s.user.value, a.username, a.email, false, a.role, None))
                else if MayBootstrap(db, s, email, token) then
                  reg == Some(Pending(newId, email.value, email, true, Admin, token))
                else if MayBecomeMember(db, s, email, now) then
                  reg == Some(Pending(newId, email.value, email, true, Member, None))
                else reg == None)
  {
    if email.Some? {
      AddressMeans(email.value);
    }
    StartOnTables(w.st.db, Sess(w.st.sessions, sid), email, token, newId, now);
  }

  /** The session has a new account pending whose token or invitation is still open. */
  ghost predicate MayJoinNow(db: Db, s: Session) {
    && s.user == None && s.reg.Some? && s.reg.value.isNew
    && match s.reg.value.token
       case Some(t) => t in db.tokens && !db.tokens[t]
       case None => s.reg.value.email.Some? && OpenInvite(db.invites, s.reg.value.email.value)
  }

  /** The tables after `p` has joined: its account, its token or invitation used up, its code gone. */
  ghost predicate HasJoined(db: Db, db': Db, p: Pending) {
    && db'.users == db.users[p.userId := Account(p.username, p.email, p.role)]
    && p.email.Some? && db'.otp == db.otp - {p.email.value}
    && match p.token
       case Some(t) => db'.tokens == db.tokens[t := true] && db'.invites == db.invites
       case None =>
         var e := p.email.value;
         && db'.tokens == db.tokens && e in db.invites
         && db'.invites == db.invites[e := db.invites[e].(usedBy := Some(p.userId))]
  }

  ghost predicate MayAddNow(db: Db, s: Session) {
    s.reg.Some? && !s.reg.value.isNew && MayAddPasskey(db, s, s.reg.value.userId)
  }

  lemma NewAccountIsMade(w: World, token: string, sid: string)
    requires WorldOk(w, token) && MayJoinNow(w.st.db, Sess(w.st.sessions, sid))
    ensures var p := Sess(w.st.sessions, sid).reg.value;
            && NewAccount(w.st.db, p).1 && HasJoined(w.st.db, NewAccount(w.st.db, p).0, p)
            && NewAccount(w.st.db, p).0.creds == w.st.db.creds && CredsOf(w.st.db.creds, p.userId) == {}
  {
    var p := Sess(w.st.sessions, sid).reg.value;
    assert sid in w.st.sessions && PendingOk(p, w.st.db.users, w.issued);
    ConsumedMeansCreated(w.st.db, p, token, w.issued);
  }

  /** Finishing works exactly with a verified new passkey, for a new account whose token or
      invitation is open or for the account logged in. A known passkey is refused only after the
      account has been made; every other refusal changes nothing. */
  lemma FinishMeans(w: World, token: string, now: int, sid: string, verified: bool, cred: string)
    requires WorldOk(w, token)
    ensures var db, s := w.st.db, Sess(w.st.sessions, sid);
            var ok := RegisterFinish(w.st, sid, verified, cred).1;
            var st' := Apply(w, Event(now, RegisterFinishOp(sid, verified, cred))).st;
            && (ok <==> verified && cred !in db.creds && (MayJoinNow(db, s) || MayAddNow(db, s)))
            && (!ok ==> st'.sessions == w.st.sessions && st'.db.creds == db.creds)
            && (!ok && !(verified && MayJoinNow(db, s)) ==> st'.db == db)
  {
    if MayJoinNow(w.st.db, Sess(w.st.sessions, sid)) {
      NewAccountIsMade(w, token, sid);
    }
  }

  /** What it then leaves: the account, the passkey, and the session logged in with it; for an
      account that was there, the passkey alone. */
  lemma FinishLeaves(w: World, token: string, now: int, sid: string, cred: string)
    requires WorldOk(w, token)
    ensures var db, s := w.st.db, Sess(w.st.sessions, sid);
            var st' := Apply(w, Event(now, RegisterFinishOp(sid, true, cred))).st;
            && (MayJoinNow(db, s) ==> HasJoined(db, st'.db, s.reg.value))
            && (MayJoinNow(db, s) && cred !in db.creds ==>
                  && st'.db.creds == db.creds[cred := s.reg.value.userId]
                  && st'.sessions
                     == w.st.sessions[sid := Session(Some(s.reg.value.userId), Some(ViaPasskey), None, None, s.disc)])
            && (MayAddNow(db, s) && cred !in db.creds ==>
                  && st'.db == db.(creds := db.creds[cred := s.reg.value.userId])
                  && st'.sessions == w.st.sessions[sid := Session(s.user, s.via, None, None, s.disc)])
  {
    if MayJoinNow(w.st.db, Sess(w.st.sessions, sid)) {
      NewAccountIsMade(w, token, sid);
    }
  }
}
