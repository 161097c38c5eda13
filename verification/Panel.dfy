/** The handlers as the server runs them: tables and sessions updated in place, returning early
    on the first refusal. The server keeps its own history, and every call is proved to extend
    it by one step of a run, so what holds in every run holds of every server. */
module Panel {
  import opened Text
  import Otp
  import opened Registration
  import opened RegistrationSafety

  class Server {
    var users: map<string, Account>
    var creds: map<string, string>
    var invites: map<string, Invite>
    var otp: Otp.Table
    var tokens: map<string, bool>
    var sessions: Sessions

    /** All states so far, the calls between them, and the token printed at first start. */
    ghost var history: seq<World>
    ghost var calls: seq<Event>
    ghost const token: string

    function Snapshot(): State
      reads this
    {
      State(Db(users, creds, invites, otp, tokens), sessions)
    }

    /** The calls so far are a run, and it led here. */
    ghost predicate Valid()
      reads this
    {
      Run(history, calls, token) && Last(history).st == Snapshot()
    }

    /** First start: one bootstrap token is printed to the log. */
    constructor (token: string)
      ensures Valid() && Snapshot() == Start(token).st && calls == []
    {
      users, creds, invites, otp, tokens, sessions := map[], map[], map[], map[], map[token := false], map[];
      this.token, history, calls := token, [Start(token)], [];
    }

    /** Notes a call before it is carried out. */
    ghost method Begin(e: Event)
      requires Valid() && Proper(Last(history), e.op)
      modifies this`history, this`calls
      ensures Run(history, calls, token) && Snapshot() == Last(old(history)).st
      ensures history == old(history) + [Apply(Last(old(history)), e)] && calls == old(calls) + [e]
    {
      LongerRun(history, calls, token, e);
      history, calls := history + [Apply(Last(history), e)], calls + [e];
    }

    // ── Database calls, one lock each ────────────────────

    method ConsumeBootstrap(token: string) returns (done: bool)
      modifies this`tokens
      ensures done <==> TokenOpen(old(tokens), token)
      ensures tokens == if done then old(tokens)[token := true] else old(tokens)
    {
      done := token in tokens && !tokens[token];
      if done {
        tokens := tokens[token := true];
      }
    }

    method ConsumeInvitedEmail(email: string, uid: string) returns (done: bool)
      modifies this`invites
      ensures done <==> IsInvited(old(invites), email)
      ensures invites == if done then old(invites)[email := old(invites)[email].(usedBy := Some(uid))] else old(invites)
    {
      done := email in invites && !invites[email].revoked && invites[email].usedBy.None?;
      if done {
        invites := invites[email := invites[email].(usedBy := Some(uid))];
      }
    }

    method CreateAccount(p: Pending) returns (done: bool)
      modifies this`users
      ensures done <==> CreateUser(old(Snapshot()).db, p).Some?
      ensures done ==> Snapshot().db == CreateUser(old(Snapshot()).db, p).value
      ensures !done ==> users == old(users)
    {
      if p.userId in users || UsernameTaken(users, p.username) {
        return false;
      }
      if p.email.Some? && EmailTaken(users, p.email.value) {
        return false;
      }
      users := users[p.userId := Account(p.username, p.email, p.role)];
      done := true;
    }

    method StoreCredential(cred: string, uid: string) returns (done: bool)
      modifies this`creds
      ensures done <==> AddCredential(old(Snapshot()).db, cred, uid).Some?
      ensures done ==> Snapshot().db == AddCredential(old(Snapshot()).db, cred, uid).value
      ensures !done ==> creds == old(creds)
    {
      if cred in creds || uid !in users || |CredsOf(creds, uid)| >= MAX_PASSKEYS_PER_USER {
        return false;
      }
      creds := creds[cred := uid];
      done := true;
    }

    method InviteEmail(email: string)
      modifies this`invites
      ensures email in invites && !invites[email].revoked && invites[email].tokenHash.None?
      ensures invites == old(invites)[email := invites[email]]
      ensures invites[email].usedBy == if email in old(invites) then old(invites)[email].usedBy else None
    {
      if email in invites {
        invites := invites[email := invites[email].(revoked := false, tokenHash := None)];
      } else {
        invites := invites[email := Invite(None, false, None)];
      }
    }

    method SetInviteToken(email: string, tokenHash: string) returns (done: bool)
      modifies this`invites
      ensures done <==> IsInvited(old(invites), email)
      ensures invites == if done then old(invites)[email := old(invites)[email].(tokenHash := Some(tokenHash))]
              else old(invites)
    {
      done := email in invites && !invites[email].revoked && invites[email].usedBy.None?;
      if done {
        invites := invites[email := invites[email].(tokenHash := Some(tokenHash))];
      }
    }

    method RevokeInvitedEmail(email: string) returns (n: nat)
      modifies this`invites
      ensures n == if email in old(invites) && old(invites)[email].usedBy.None? then 1 else 0
      ensures invites == if n == 1 then old(invites)[email := Invite(None, true, None)] else old(invites)
    {
      if email !in invites || invites[email].usedBy.Some? {
        return 0;
      }
      invites := invites[email := invites[email].(revoked := true, tokenHash := None)];
      n := 1;
    }

    // ── Joining ──────────────────────────────────────────

    /** `join_start` and `login_otp_start`: silent about whether a code went out. */
    method HandleSendCode(email: string, purpose: Otp.Purpose, codeHash: string, now: int)
      requires Valid()
      modifies this`otp, this`history, this`calls
      ensures Valid() && calls == old(calls) + [Event(now, SendOp(email, purpose, codeHash))]
      ensures forall e :: e in otp && otp[e].verifiedAt.Some? ==> e in old(otp) && otp[e] == old(otp)[e]
    {
      Begin(Event(now, SendOp(email, purpose, codeHash)));
      if !ValidEmail(email) {
        return;
      }
      match purpose {
        case Join =>
          if EmailTaken(users, email) || !IsInvited(invites, email) {
            return;
          }
        case Login =>
          if !EmailTaken(users, email) {
            return;
          }
      }
      if Otp.Cooldown(otp, email, RESEND_COOLDOWN_SECS, now) > 0 {
        return;
      }
      otp := Otp.Put(otp, email, purpose, codeHash, TTL_SECS, now);
    }

    method HandleJoinVerify(sid: string, email: string, codeHash: string, now: int) returns (ok: bool)
      requires Valid()
      modifies this`otp, this`sessions, this`history, this`calls
      ensures Valid() && calls == old(calls) + [Event(now, JoinVerifyOp(sid, email, codeHash))]
      ensures ok <==> Redeems(Last(old(history)), Last(calls), sid, email)
      ensures ok ==> Sess(sessions, sid).proof == Some(email)
    {
      Begin(Event(now, JoinVerifyOp(sid, email, codeHash)));
      var checked := Otp.CheckCode(otp, email, Otp.Join, codeHash, MAX_ATTEMPTS, now);
      otp := checked.0;
      if checked.1 != Otp.Passed {
        return false;
      }
      sessions := sessions[sid := Sess(sessions, sid).(proof := Some(email))];
      ok := true;
    }

    method HandleJoinInvite(sid: string, email: string, tokenHash: string, now: int) returns (ok: bool)
      requires Valid()
      modifies this`otp, this`sessions, this`history, this`calls
      ensures Valid() && calls == old(calls) + [Event(now, JoinInviteOp(sid, email, tokenHash))]
      ensures ok <==> Redeems(Last(old(history)), Last(calls), sid, email)
      ensures ok ==> Sess(sessions, sid).proof == Some(email)
    {
      Begin(Event(now, JoinInviteOp(sid, email, tokenHash)));
      if !IsInvited(invites, email) || invites[email].tokenHash != Some(tokenHash) {
        return false;
      }
      if EmailTaken(users, email) {
        return false;
      }
      otp := Otp.Mark(otp, email, Otp.Join, now);
      sessions := sessions[sid := Sess(sessions, sid).(proof := Some(email))];
      ok := true;
    }

    // ── Registering ──────────────────────────────────────

    /** What `register_start` decides, with its refusals in order. */
    method Decide(s: Session, email: Option<string>, token: Option<string>, newId: string, now: int)
        returns (p: Option<Pending>)
      ensures p == Pend(Snapshot().db, s, email, token, newId, now)
    {
      if s.user.Some? {
        var uid := s.user.value;
        if uid !in users {
          return None;
        }
        var a := users[uid];
        if a.role == Admin && s.via != Some(ViaPasskey) {
          return None;
        }
        if |CredsOf(creds, uid)| >= MAX_PASSKEYS_PER_USER {
          return None;
        }
        return Some(Pending(uid, a.username, a.email, false, a.role, None));
      }
      if email.None? || !ValidEmail(email.value) {
        return None;
      }
      var e := email.value;
      if EmailTaken(users, e) {
        return None;
      }
      if |users| == 0 {
        if token.None? || !TokenOpen(tokens, token.value) {
          return None;
        }
        return Some(Pending(newId, e, Some(e), true, Admin, token));
      }
      if !IsInvited(invites, e) {
        return None;
      }
      if s.proof != Some(e) || !Otp.RecentlyVerified(otp, e, Otp.Join, VERIFIED_WINDOW_SECS, now) {
        return None;
      }
      p := Some(Pending(newId, e, Some(e), true, Member, None));
    }

    method HandleRegisterStart(sid: string, email: Option<string>, token: Option<string>, newId: string, now: int)
        returns (ok: bool)
      requires Valid() && newId !in Last(history).issued
      modifies this`sessions, this`history, this`calls
      ensures Valid() && calls == old(calls) + [Event(now, RegisterStartOp(sid, email, token, newId))]
      ensures ok <==> Sess(sessions, sid).reg.Some?
    {
      Begin(Event(now, RegisterStartOp(sid, email, token, newId)));
      var s := Sess(sessions, sid);
      sessions := sessions[sid := s.(reg := None, disc := false)];
      var p := Decide(s, email, token, newId, now);
      if p.Some? {
        sessions := sessions[sid := s.(reg := p, disc := false)];
      }
      assert sessions == old(sessions)[sid := s.(reg := p, disc := false)];
      assert Snapshot() == RegisterStart(old(Snapshot()), sid, email, token, newId, now).0;
      ok := p.Some?;
    }

    /** Uses up the token or the invitation, then makes the account, then drops the code. */
    method MakeAccount(p: Pending) returns (done: bool)
      modifies this`users, this`invites, this`tokens, this`otp
      ensures (Snapshot().db, done) == NewAccount(old(Snapshot()).db, p)
    {
      done := true;
      if p.token.Some? {
        done := ConsumeBootstrap(p.token.value);
      } else if p.email.Some? {
        done := ConsumeInvitedEmail(p.email.value, p.userId);
      }
      if !done {
        return;
      }
      assert Consume(old(Snapshot()).db, p) == Some(Snapshot().db);
      done := CreateAccount(p);
      if done && p.email.Some? {
        otp := Otp.Clear(otp, p.email.value);
      }
    }

    /** Success means one passkey more, for the account this session is then logged in to. */
    method HandleRegisterFinish(sid: string, verified: bool, cred: string, ghost now: int) returns (ok: bool)
      requires Valid()
      modifies this
      ensures Valid() && calls == old(calls) + [Event(now, RegisterFinishOp(sid, verified, cred))]
      ensures ok ==> verified && cred !in old(creds) && Sess(sessions, sid).user.Some? && Sess(sessions, sid).reg.None?
                     && creds == old(creds)[cred := Sess(sessions, sid).user.value]
      ensures !ok ==> creds == old(creds) && sessions == old(sessions)
    {
      Begin(Event(now, RegisterFinishOp(sid, verified, cred)));
      var s := Sess(sessions, sid);
      if s.reg.None? {
        return false;
      }
      var p := s.reg.value;
      if !RegistrationOwnerOk(s.user, p) {
        return false;
      }
      if !p.isNew {
        if p.userId !in users {
          return false;
        }
        if users[p.userId].role == Admin && s.via != Some(ViaPasskey) {
          return false;
        }
      }
      if !verified {
        return false;
      }
      if p.isNew {
        var made := MakeAccount(p);
        if !made {
          return false;
        }
      }
      var stored := StoreCredential(cred, p.userId);
      if !stored {
        return false;
      }
      s := s.(reg := None, proof := None);
      if p.isNew {
        s := s.(user := Some(p.userId), via := Some(ViaPasskey));
      }
      sessions := sessions[sid := s];
      ok := true;
    }

    // ── Logging in ───────────────────────────────────────

    method HandleLoginAnyStart(sid: string, ghost now: int)
      requires Valid()
      modifies this`sessions, this`history, this`calls
      ensures Valid() && calls == old(calls) + [Event(now, LoginAnyStartOp(sid))]
    {
      Begin(Event(now, LoginAnyStartOp(sid)));
      sessions := sessions[sid := Sess(sessions, sid).(reg := None, disc := false)];
      sessions := sessions[sid := sessions[sid].(disc := true)];
    }

    method HandleLoginAnyFinish(sid: string, uid: string, cred: string, verified: bool, ghost now: int)
        returns (ok: bool)
      requires Valid()
      modifies this`sessions, this`history, this`calls
      ensures Valid() && calls == old(calls) + [Event(now, LoginAnyFinishOp(sid, uid, verified, cred))]
      ensures ok <==> LogsInByPasskey(Last(old(history)), Last(calls), sid, uid)
      ensures ok ==> ByPasskey(Sess(sessions, sid), uid)
    {
      Begin(Event(now, LoginAnyFinishOp(sid, uid, verified, cred)));
      HoldersExist(Last(old(history)), old(history), old(calls), token);
      var s := Sess(sessions, sid);
      if !s.disc || uid !in users {
        return false;
      }
      if !verified || cred !in creds || creds[cred] != uid {
        return false;
      }
      s := s.(disc := false);
      s := s.(user := Some(uid));
      s := s.(via := Some(ViaPasskey));
      sessions := sessions[sid := s];
      ok := true;
    }

    /** A code is worth a weak login only. */
    method HandleLoginCodeVerify(sid: string, email: string, uid: string, codeHash: string, now: int) returns (ok: bool)
      requires Valid()
      modifies this`otp, this`sessions, this`history, this`calls
      ensures Valid() && calls == old(calls) + [Event(now, LoginCodeOp(sid, email, uid, codeHash))]
      ensures ok <==> LogsInByCode(Last(old(history)), Last(calls), sid, uid)
      ensures ok ==> ByCode(Sess(sessions, sid), uid) && email !in otp
      ensures !ok ==> sessions == old(sessions)
    {
      Begin(Event(now, LoginCodeOp(sid, email, uid, codeHash)));
      var checked := Otp.CheckCode(otp, email, Otp.Login, codeHash, MAX_ATTEMPTS, now);
      otp := checked.0;
      if checked.1 != Otp.Passed {
        return false;
      }
      if uid !in users || users[uid].email != Some(email) {
        return false;
      }
      otp := Otp.Clear(otp, email);
      var s := Sess(sessions, sid).(reg := None, disc := false);
      s := s.(user := Some(uid), via := Some(ViaCode));
      sessions := sessions[sid := s];
      ok := true;
    }

    method HandleLogout(sid: string, ghost now: int)
      requires Valid()
      modifies this`sessions, this`history, this`calls
      ensures Valid() && calls == old(calls) + [Event(now, ForgetOp(sid))] && Sess(sessions, sid) == ANONYMOUS
    {
      Begin(Event(now, ForgetOp(sid)));
      sessions := sessions - {sid};
    }

    // ── Administration ───────────────────────────────────

    method HandleInviteCreate(sid: string, email: string, tokenHash: string, ghost now: int) returns (linked: bool)
      requires Valid()
      modifies this`invites, this`history, this`calls
      ensures Valid() && calls == old(calls) + [Event(now, InviteOp(sid, email, tokenHash))]
      ensures linked <==> email in invites && invites[email] == Invite(Some(tokenHash), false, None)
                          && RequireAdmin(old(Snapshot()), sid) && '@' in email && !EmailTaken(users, email)
    {
      Begin(Event(now, InviteOp(sid, email, tokenHash)));
      if !RequireAdmin(Snapshot(), sid) || '@' !in email {
        return false;
      }
      if EmailTaken(users, email) {
        return false;
      }
      InviteEmail(email);
      linked := SetInviteToken(email, tokenHash);
    }

    method HandleInviteRevoke(sid: string, email: string, ghost now: int)
      requires Valid()
      modifies this`invites, this`history, this`calls
      ensures Valid() && calls == old(calls) + [Event(now, RevokeOp(sid, email))]
      ensures RequireAdmin(old(Snapshot()), sid) ==> !IsInvited(invites, email)
    {
      Begin(Event(now, RevokeOp(sid, email)));
      if !RequireAdmin(Snapshot(), sid) {
        return;
      }
      var _ := RevokeInvitedEmail(email);
    }

    /** The last admin is never demoted. */
    method HandleSetRole(sid: string, uid: string, role: Role, ghost now: int)
      requires Valid()
      modifies this`users, this`history, this`calls
      ensures Valid() && calls == old(calls) + [Event(now, SetRoleOp(sid, uid, role))]
      ensures users.Keys == old(users).Keys && (users != old(users) ==> RequireAdmin(old(Snapshot()), sid))
      ensures Admins(old(users)) != {} ==> Admins(users) != {}
    {
      Begin(Event(now, SetRoleOp(sid, uid, role)));
      if !RequireAdmin(Snapshot(), sid) || uid !in users {
        return;
      }
      if users[uid].role == Admin && role == Member && |Admins(users)| <= 1 {
        return;
      }
      RoleChangeLeavesAdmin(users, uid, role);
      users := users[uid := users[uid].(role := role)];
    }

    /** Nobody's last passkey is removed, and no passkey of another account. */
    method HandlePasskeyDelete(sid: string, cred: string, ghost now: int)
      requires Valid()
      modifies this`creds, this`history, this`calls
      ensures Valid() && calls == old(calls) + [Event(now, PasskeyDeleteOp(sid, cred))]
      ensures forall uid :: HasPasskey(old(creds), uid) ==> HasPasskey(creds, uid)
      ensures forall c :: c in old(creds) && Some(old(creds)[c]) != Sess(sessions, sid).user ==>
                c in creds && creds[c] == old(creds)[c]
    {
      Begin(Event(now, PasskeyDeleteOp(sid, cred)));
      forall uid | HasPasskey(creds, uid)
        ensures HasPasskey(PasskeyDelete(Snapshot(), sid, cred).db.creds, uid)
      {
        DeletingOneLeavesOne(Snapshot(), sid, cred, uid);
      }
      var s := Sess(sessions, sid);
      if s.user.None? || s.user.value !in users {
        return;
      }
      if |CredsOf(creds, s.user.value)| <= 1 {
        return;
      }
      if cred in creds && creds[cred] == s.user.value {
        creds := creds - {cred};
      }
    }

    /** The account goes with all its passkeys; the last admin and the caller stay. */
    method HandleMemberDelete(sid: string, uid: string, ghost now: int)
      requires Valid()
      modifies this`users, this`creds, this`invites, this`history, this`calls
      ensures Valid() && calls == old(calls) + [Event(now, DeleteOp(sid, uid))]
      ensures uid !in users ==> !HasPasskey(creds, uid)
      ensures Admins(old(users)) != {} ==> Admins(users) != {}
      ensures forall u :: u in old(users) && (u != uid || Sess(sessions, sid).user == Some(u)) ==> u in users
    {
      Begin(Event(now, DeleteOp(sid, uid)));
      HoldersExist(Last(old(history)), old(history), old(calls), token);
      if !RequireAdmin(Snapshot(), sid) || Sess(sessions, sid).user == Some(uid) || uid !in users {
        return;
      }
      if users[uid].role == Admin && |Admins(users)| <= 1 {
        return;
      }
      invites := map e | e in invites && invites[e].usedBy != Some(uid) :: invites[e];
      users := users - {uid};
      creds := map c | c in creds && creds[c] != uid :: creds[c];
      assert Sess(sessions, sid).user.value in Admins(users);
    }
  }

  lemma HoldersExist(w: World, ws: seq<World>, es: seq<Event>, token: string)
    requires Run(ws, es, token) && w == Last(ws)
    ensures forall c :: c in w.st.db.creds ==> w.st.db.creds[c] in w.st.db.users
  {
    AlwaysOk(ws, es, token, |es|);
  }

  lemma RoleChangeLeavesAdmin(users: map<string, Account>, uid: string, role: Role)
    requires uid in users && !(users[uid].role == Admin && role == Member && |Admins(users)| <= 1)
    ensures Admins(users) != {} ==> Admins(users[uid := users[uid].(role := role)]) != {}
  {
    var users' := users[uid := users[uid].(role := role)];
    if uid in Admins(users) && role == Member {
      OneOfOne(Admins(users), uid);
      assert Admins(users') == Admins(users) - {uid};
    } else {
      assert Admins(users) <= Admins(users');
    }
  }

  /** Whatever calls a server has served: an address has at most one account, every passkey
      belongs to an account, an account means there is an admin, no used invitation is without
      its account, and whoever is logged in on a session showed a passkey or a code there. */
  lemma EveryServerIsSafe(s: Server)
    requires s.Valid()
    ensures AccountsOk(s.users) && InvitesOk(s.Snapshot().db)
    ensures forall c :: c in s.creds ==> s.creds[c] in s.users
    ensures s.users != map[] ==> Admins(s.users) != {}
    ensures forall sid :: Sess(s.sessions, sid).user.Some? ==>
              var uid := Sess(s.sessions, sid).user.value;
              || (ByPasskey(Sess(s.sessions, sid), uid) && LoggedInByPasskey(s.history, s.calls, |s.calls|, sid, uid))
              || (ByCode(Sess(s.sessions, sid), uid) && LoggedInByCode(s.history, s.calls, |s.calls|, sid, uid))
  {
    AlwaysOk(s.history, s.calls, s.token, |s.calls|);
    forall sid | Sess(s.sessions, sid).user.Some?
      ensures var uid := Sess(s.sessions, sid).user.value;
              || (ByPasskey(Sess(s.sessions, sid), uid) && LoggedInByPasskey(s.history, s.calls, |s.calls|, sid, uid))
              || (ByCode(Sess(s.sessions, sid), uid) && LoggedInByCode(s.history, s.calls, |s.calls|, sid, uid))
    {
      CodeMeans(s.history, s.calls, s.token, |s.calls|, sid);
      match Sess(s.sessions, sid).via.value
      case ViaPasskey => ViaMeans(s.history, s.calls, s.token, |s.calls|, sid);
      case ViaCode =>
    }
  }
}
