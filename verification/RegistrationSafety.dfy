/** What holds in every run of the registration and login protocol. */
module RegistrationSafety {
  import opened Text
  import Otp
  import opened Registration

  lemma LongerRun(ws: seq<World>, es: seq<Event>, token: string, e: Event)
    requires Run(ws, es, token) && Proper(Last(ws), e.op)
    ensures Run(ws + [Apply(Last(ws), e)], es + [e], token)
  {
    var ws', es' := ws + [Apply(Last(ws), e)], es + [e];
    forall i | 0 <= i < |es'|
      ensures Proper(ws'[i], es'[i].op) && ws'[i + 1] == Apply(ws'[i], es'[i])
    {
      assert i < |es| ==> ws'[i] == ws[i] && ws'[i + 1] == ws[i + 1] && es'[i] == es[i];
    }
  }

  // ── What a session carries comes from its own earlier steps ──

  /** In this step `sid` shows the secret that was mailed to the address: an unexpired join code
      with attempts left, or the link of an open invitation nobody has used. */
  ghost predicate Redeems(w: World, x: Event, sid: string, email: string) {
    var db := w.st.db;
    match x.op
    case JoinVerifyOp(s, e, h) =>
      && s == sid && e == email && e in db.otp && db.otp[e].purpose == Otp.Join && db.otp[e].codeHash == h
      && x.now < db.otp[e].expiresAt && db.otp[e].attempts < MAX_ATTEMPTS
    case JoinInviteOp(s, e, h) =>
      s == sid && e == email && IsInvited(db.invites, e) && db.invites[e].tokenHash == Some(h)
          && !EmailTaken(db.users, e)
    case _ => false
  }

  /** In this step `sid` logs in as `uid` by passkey: one the account holds is verified, or the
      one the account is being created with. Adding a further passkey is not a login. */
  ghost predicate LogsInByPasskey(w: World, x: Event, sid: string, uid: string) {
    var s := Sess(w.st.sessions, sid);
    match x.op
    case LoginAnyFinishOp(i, u, verified, cred) =>
      i == sid && u == uid && verified && s.disc && cred in w.st.db.creds && w.st.db.creds[cred] == uid
    case RegisterFinishOp(i, verified, cred) =>
      i == sid && verified && s.reg.Some? && s.reg.value.isNew && s.reg.value.userId == uid && cred !in w.st.db.creds
    case _ => false
  }

  predicate ByPasskey(s: Session, uid: string) {
    s.user == Some(uid) && s.via == Some(ViaPasskey)
  }

  /** `sid` logged in as `uid` by passkey in step `j` and has stayed so in every state up to `i`. */
  ghost predicate LoggedInAt(ws: seq<World>, es: seq<Event>, j: nat, i: nat, sid: string, uid: string)
    requires j < i < |ws| == |es| + 1
  {
    LogsInByPasskey(ws[j], es[j], sid, uid) && forall k :: j < k <= i ==> ByPasskey(Sess(ws[k].st.sessions, sid), uid)
  }

  ghost predicate LoggedInByPasskey(ws: seq<World>, es: seq<Event>, i: nat, sid: string, uid: string)
    requires i < |ws| == |es| + 1
  {
    exists j: nat :: j < i && LoggedInAt(ws, es, j, i, sid, uid)
  }

  lemma FinishVia(st: State, sid: string, verified: bool, cred: string)
    ensures var s, s' := Sess(st.sessions, sid), Sess(RegisterFinish(st, sid, verified, cred).0.sessions, sid);
            || (s'.user == s.user && s'.via == s.via && (s'.proof == s.proof || s'.proof == None)
                && (s'.reg == s.reg || s'.reg == None))
            || (verified && s.reg.Some? && s.reg.value.isNew && cred !in st.db.creds
                && s'.user == Some(s.reg.value.userId)
                && s'.proof == None && s'.reg == None)
    ensures forall other :: other != sid ==>
              Sess(RegisterFinish(st, sid, verified, cred).0.sessions, other) == Sess(st.sessions, other)
  {
  }

  lemma StepVia(w: World, x: Event, sid: string)
    requires var s := Sess(w.st.sessions, sid); s.via == Some(ViaPasskey) ==> s.user.Some?
    ensures var s, s' := Sess(w.st.sessions, sid), Sess(Apply(w, x).st.sessions, sid);
            s'.via == Some(ViaPasskey) ==>
              s'.user.Some? && (LogsInByPasskey(w, x, sid, s'.user.value) || ByPasskey(s, s'.user.value))
  {
    if x.op.RegisterFinishOp? {
      FinishVia(w.st, x.op.sid, x.op.verified, x.op.cred);
    }
  }

  /** A session marked as logged in by passkey is so because of a passkey login of its own as
      that very account, and nothing has logged it in otherwise since. */
  lemma {:induction false} ViaMeans(ws: seq<World>, es: seq<Event>, token: string, i: nat, sid: string)
    requires Run(ws, es, token) && i < |ws| && Sess(ws[i].st.sessions, sid).via == Some(ViaPasskey)
    ensures Sess(ws[i].st.sessions, sid).user.Some?
    ensures LoggedInByPasskey(ws, es, i, sid, Sess(ws[i].st.sessions, sid).user.value)
  {
    assert i > 0;
    var before := Sess(ws[i - 1].st.sessions, sid);
    if before.via == Some(ViaPasskey) {
      ViaMeans(ws, es, token, i - 1, sid);
    }
    assert ws[i] == Apply(ws[i - 1], es[i - 1]);
    StepVia(ws[i - 1], es[i - 1], sid);
    var uid := Sess(ws[i].st.sessions, sid).user.value;
    if LogsInByPasskey(ws[i - 1], es[i - 1], sid, uid) {
      assert LoggedInAt(ws, es, i - 1, i, sid, uid);
    } else {
      var j: nat :| j < i - 1 && LoggedInAt(ws, es, j, i - 1, sid, uid);
      assert LoggedInAt(ws, es, j, i, sid, uid);
    }
  }

  // ── Logging in by code ─────────────────────────────────

  /** In this step `sid` shows the unexpired login code, with attempts left, that was mailed to the
      address of the account `uid`. */
  ghost predicate LogsInByCode(w: World, x: Event, sid: string, uid: string) {
    var db := w.st.db;
    match x.op
    case LoginCodeOp(s, email, u, h) =>
      && s == sid && u == uid && email in db.otp && db.otp[email].purpose == Otp.Login && db.otp[email].codeHash == h
      && x.now < db.otp[email].expiresAt && db.otp[email].attempts < MAX_ATTEMPTS
      && uid in db.users && db.users[uid].email == Some(email)
    case _ => false
  }

  predicate ByCode(s: Session, uid: string) {
    s.user == Some(uid) && s.via == Some(ViaCode)
  }

  /** `sid` logged in as `uid` by code in step `j` and has stayed so in every state up to `i`. */
  ghost predicate CodeLoginAt(ws: seq<World>, es: seq<Event>, j: nat, i: nat, sid: string, uid: string)
    requires j < i < |ws| == |es| + 1
  {
    LogsInByCode(ws[j], es[j], sid, uid) && forall k :: j < k <= i ==> ByCode(Sess(ws[k].st.sessions, sid), uid)
  }

  ghost predicate LoggedInByCode(ws: seq<World>, es: seq<Event>, i: nat, sid: string, uid: string)
    requires i < |ws| == |es| + 1
  {
    exists j: nat :: j < i && CodeLoginAt(ws, es, j, i, sid, uid)
  }

  lemma StepCode(w: World, x: Event, sid: string)
    requires var s := Sess(w.st.sessions, sid); s.via.Some? <==> s.user.Some?
    ensures var s, s' := Sess(w.st.sessions, sid), Sess(Apply(w, x).st.sessions, sid);
            && (s'.via.Some? <==> s'.user.Some?)
            && (s'.via == Some(ViaCode) ==> LogsInByCode(w, x, sid, s'.user.value) || ByCode(s, s'.user.value))
  {
    if x.op.RegisterFinishOp? {
      FinishLogin(w.st, x.op.sid, x.op.verified, x.op.cred);
    }
  }

  lemma FinishLogin(st: State, sid: string, verified: bool, cred: string)
    ensures var s, s' := Sess(st.sessions, sid), Sess(RegisterFinish(st, sid, verified, cred).0.sessions, sid);
            (s'.user == s.user && s'.via == s.via) || (s'.user.Some? && s'.via == Some(ViaPasskey))
    ensures forall other :: other != sid ==>
              Sess(RegisterFinish(st, sid, verified, cred).0.sessions, other) == Sess(st.sessions, other)
  {
  }

  /** A session marked as logged in by code is so because it showed the code mailed to that very
      account in an earlier step, and nothing has logged it in otherwise since. */
  lemma {:induction false} CodeMeans(ws: seq<World>, es: seq<Event>, token: string, i: nat, sid: string)
    requires Run(ws, es, token) && i < |ws|
    ensures var s := Sess(ws[i].st.sessions, sid);
            && (s.via.Some? <==> s.user.Some?)
            && (s.via == Some(ViaCode) ==> LoggedInByCode(ws, es, i, sid, s.user.value))
  {
    if i > 0 {
      CodeMeans(ws, es, token, i - 1, sid);
      assert ws[i] == Apply(ws[i - 1], es[i - 1]);
      StepCode(ws[i - 1], es[i - 1], sid);
      var s := Sess(ws[i].st.sessions, sid);
      if s.via == Some(ViaCode) {
        if LogsInByCode(ws[i - 1], es[i - 1], sid, s.user.value) {
          assert CodeLoginAt(ws, es, i - 1, i, sid, s.user.value);
        } else {
          var j: nat :| j < i - 1 && CodeLoginAt(ws, es, j, i - 1, sid, s.user.value);
          assert CodeLoginAt(ws, es, j, i, sid, s.user.value);
        }
      }
    }
  }

  /** Whoever is logged in on a session proved it there, by passkey or by code. */
  lemma LoggedInMeans(ws: seq<World>, es: seq<Event>, token: string, i: nat, sid: string)
    requires Run(ws, es, token) && i < |ws| && Sess(ws[i].st.sessions, sid).user.Some?
    ensures var uid := Sess(ws[i].st.sessions, sid).user.value;
            LoggedInByPasskey(ws, es, i, sid, uid) || LoggedInByCode(ws, es, i, sid, uid)
  {
    CodeMeans(ws, es, token, i, sid);
    match Sess(ws[i].st.sessions, sid).via.value
    case ViaPasskey => ViaMeans(ws, es, token, i, sid);
    case ViaCode =>
  }

  // ── Proof of an address ────────────────────────────────

  ghost predicate RedeemedAt(ws: seq<World>, es: seq<Event>, j: nat, i: nat, sid: string, email: string)
    requires j < i < |ws| == |es| + 1
  {
    Redeems(ws[j], es[j], sid, email) && forall k :: j < k < i ==> es[k].op != ForgetOp(sid)
  }

  /** `sid` redeemed a code or a link for the address in an earlier step and has not been
      forgotten since. */
  ghost predicate Redeemed(ws: seq<World>, es: seq<Event>, i: nat, sid: string, email: string)
    requires i < |ws| == |es| + 1
  {
    exists j: nat :: j < i && RedeemedAt(ws, es, j, i, sid, email)
  }

  lemma StepProof(w: World, x: Event, sid: string)
    ensures var s, s' := Sess(w.st.sessions, sid), Sess(Apply(w, x).st.sessions, sid);
            s'.proof.Some? ==> Redeems(w, x, sid, s'.proof.value) || (s.proof == s'.proof && x.op != ForgetOp(sid))
  {
    if x.op.RegisterFinishOp? {
      FinishVia(w.st, x.op.sid, x.op.verified, x.op.cred);
    }
  }

  lemma {:induction false} ProofMeans(ws: seq<World>, es: seq<Event>, token: string, i: nat, sid: string)
    requires Run(ws, es, token) && i < |ws| && Sess(ws[i].st.sessions, sid).proof.Some?
    ensures Redeemed(ws, es, i, sid, Sess(ws[i].st.sessions, sid).proof.value)
  {
    assert i > 0;
    var email := Sess(ws[i].st.sessions, sid).proof.value;
    assert ws[i] == Apply(ws[i - 1], es[i - 1]);
    StepProof(ws[i - 1], es[i - 1], sid);
    if Redeems(ws[i - 1], es[i - 1], sid, email) {
      assert RedeemedAt(ws, es, i - 1, i, sid, email);
    } else {
      ProofMeans(ws, es, token, i - 1, sid);
      var j: nat :| j < i - 1 && RedeemedAt(ws, es, j, i - 1, sid, email);
      assert RedeemedAt(ws, es, j, i, sid, email);
    }
  }

  /** The address carries the mark of a join check or link that succeeded at `at`. */
  predicate Marked(db: Db, email: string, at: int) {
    email in db.otp && db.otp[email].purpose == Otp.Join && db.otp[email].verifiedAt == Some(at)
  }

  /** In this step some session redeems a code or a link for the address. */
  ghost predicate RedeemsAny(w: World, x: Event, email: string) {
    (x.op.JoinVerifyOp? || x.op.JoinInviteOp?) && Redeems(w, x, x.op.sid, email)
  }

  lemma NewAccountKeepsMark(db: Db, p: Pending, email: string, at: int)
    requires Marked(NewAccount(db, p).0, email, at)
    ensures Marked(db, email, at)
  {
  }

  lemma FinishKeepsMark(st: State, sid: string, verified: bool, cred: string, email: string, at: int)
    requires Marked(RegisterFinish(st, sid, verified, cred).0.db, email, at)
    ensures Marked(st.db, email, at)
  {
    var r := Sess(st.sessions, sid).reg;
    if r.Some? && r.value.isNew && Marked(NewAccount(st.db, r.value).0, email, at) {
      NewAccountKeepsMark(st.db, r.value, email, at);
    }
  }

  lemma StepMark(w: World, x: Event, email: string, at: int)
    requires Marked(Apply(w, x).st.db, email, at)
    ensures (at == x.now && RedeemsAny(w, x, email)) || Marked(w.st.db, email, at)
  {
    if x.op.RegisterFinishOp? {
      FinishKeepsMark(w.st, x.op.sid, x.op.verified, x.op.cred, email, at);
    }
  }

  /** Step `j` redeemed for the address, and its mark has stood in every state up to `i`: no
      new code, no clearing and no later proof has replaced it. */
  ghost predicate MarkStands(ws: seq<World>, es: seq<Event>, j: nat, i: nat, email: string)
    requires j < i < |ws| == |es| + 1
  {
    RedeemsAny(ws[j], es[j], email) && forall k :: j < k <= i ==> Marked(ws[k].st.db, email, es[j].now)
  }

  lemma {:induction false} MarkMeans(ws: seq<World>, es: seq<Event>, token: string, i: nat, email: string, at: int)
    requires Run(ws, es, token) && i < |ws| && Marked(ws[i].st.db, email, at)
    ensures exists j: nat :: j < i && MarkStands(ws, es, j, i, email) && es[j].now == at
  {
    assert i > 0;
    assert ws[i] == Apply(ws[i - 1], es[i - 1]);
    StepMark(ws[i - 1], es[i - 1], email, at);
    if at == es[i - 1].now && RedeemsAny(ws[i - 1], es[i - 1], email) {
      assert MarkStands(ws, es, i - 1, i, email);
    } else {
      MarkMeans(ws, es, token, i - 1, email, at);
      var j: nat :| j < i - 1 && MarkStands(ws, es, j, i - 1, email) && es[j].now == at;
      assert MarkStands(ws, es, j, i, email);
    }
  }

  // ── Pending registrations ──────────────────────────────

  /** In this step `sid`, not logged in and itself holding a proof of the address, starts a
      member registration while the address is marked within the window. */
  ghost predicate StartsMember(w: World, x: Event, sid: string, p: Pending) {
    var s := Sess(w.st.sessions, sid);
    && x.op.RegisterStartOp? && x.op.sid == sid && p.email.Some? && x.op.address == p.email
    && s.user.None? && s.proof == p.email
    && Otp.RecentlyVerified(w.st.db.otp, p.email.value, Otp.Join, VERIFIED_WINDOW_SECS, x.now)
  }

  predicate PendsMember(s: Session, p: Pending) {
    s.reg == Some(p) && p.isNew && p.role == Member
  }

  lemma StepPending(w: World, x: Event, sid: string, p: Pending)
    requires PendsMember(Sess(Apply(w, x).st.sessions, sid), p)
    ensures StartsMember(w, x, sid, p) || PendsMember(Sess(w.st.sessions, sid), p)
  {
    if x.op.RegisterFinishOp? {
      FinishVia(w.st, x.op.sid, x.op.verified, x.op.cred);
    }
  }

  /** The registration pending in state `i` was started in step `s` and has been pending since. */
  ghost predicate PendingSince(ws: seq<World>, es: seq<Event>, s: nat, i: nat, sid: string, p: Pending)
    requires s < i < |ws| == |es| + 1
  {
    StartsMember(ws[s], es[s], sid, p) && forall k :: s < k <= i ==> PendsMember(Sess(ws[k].st.sessions, sid), p)
  }

  lemma {:induction false} PendingMeans(ws: seq<World>, es: seq<Event>, token: string, i: nat, sid: string, p: Pending)
    requires Run(ws, es, token) && i < |ws| && PendsMember(Sess(ws[i].st.sessions, sid), p)
    ensures exists s: nat :: s < i && PendingSince(ws, es, s, i, sid, p)
  {
    assert i > 0;
    assert ws[i] == Apply(ws[i - 1], es[i - 1]);
    StepPending(ws[i - 1], es[i - 1], sid, p);
    if StartsMember(ws[i - 1], es[i - 1], sid, p) {
      assert PendingSince(ws, es, i - 1, i, sid, p);
    } else {
      PendingMeans(ws, es, token, i - 1, sid, p);
      var s: nat :| s < i - 1 && PendingSince(ws, es, s, i - 1, sid, p);
      assert PendingSince(ws, es, s, i, sid, p);
    }
  }

  // ── Who gets an account, who gets a credential ─────────

  /** Nothing is added: accounts and credentials only go, and no credential moves. */
  ghost predicate OnlyGoes(db: Db, db': Db) {
    db'.users.Keys <= db.users.Keys && forall c :: c in db'.creds ==> c in db.creds && db'.creds[c] == db.creds[c]
  }

  lemma DeleteOnlyGoes(st: State, sid: string, uid: string)
    ensures OnlyGoes(st.db, DeleteMember(st, sid, uid).db)
  {
  }

  lemma PasskeyDeleteOnlyGoes(st: State, sid: string, cred: string)
    ensures OnlyGoes(st.db, PasskeyDelete(st, sid, cred).db)
  {
  }

  lemma SetRoleOnlyGoes(st: State, sid: string, uid: string, role: Role)
    ensures OnlyGoes(st.db, SetRole(st, sid, uid, role).db)
  {
  }

  lemma OthersOnlyGo(w: World, x: Event)
    requires !x.op.RegisterFinishOp?
    ensures OnlyGoes(w.st.db, Apply(w, x).st.db)
  {
    match x.op
    case DeleteOp(sid, uid) => DeleteOnlyGoes(w.st, sid, uid);
    case PasskeyDeleteOp(sid, cred) => PasskeyDeleteOnlyGoes(w.st, sid, cred);
    case SetRoleOp(sid, uid, role) => SetRoleOnlyGoes(w.st, sid, uid, role);
    case _ =>
  }

  /** All that finishing a registration can do to accounts and credentials. */
  lemma FinishEffect(st: State, sid: string, verified: bool, cred: string)
    ensures var s, db, db' := Sess(st.sessions, sid), st.db, RegisterFinish(st, sid, verified, cred).0.db;
            if OnlyGoes(db, db') then true
            else
              && verified && s.reg.Some? && RegistrationOwnerOk(s.user, s.reg.value)
              && var p := s.reg.value;
                 && (if p.isNew then
                       && Consume(db, p).Some? && p.userId !in db.users
                       && db'.users == db.users[p.userId := Account(p.username, p.email, p.role)]
                     else
                       && db'.users == db.users && p.userId in db.users
                       && (db.users[p.userId].role == Admin ==> AdminPowers(s, db.users[p.userId])))
                 && (db'.creds == db.creds || (cred !in db.creds && db'.creds == db.creds[cred := p.userId]))
  {
    var s := Sess(st.sessions, sid);
    if s.reg.Some? && RegistrationOwnerOk(s.user, s.reg.value) {
      if s.reg.value.isNew {
        FinishEffectOnNew(st, sid, verified, cred);
      } else {
        assert st.db.users == RegisterFinish(st, sid, verified, cred).0.db.users;
      }
    }
  }

  lemma FinishEffectOnNew(st: State, sid: string, verified: bool, cred: string)
    requires var s := Sess(st.sessions, sid);
             s.reg.Some? && s.reg.value.isNew && RegistrationOwnerOk(s.user, s.reg.value)
    ensures var db, db', p := st.db, RegisterFinish(st, sid, verified, cred).0.db, Sess(st.sessions, sid).reg.value;
            if !verified || Consume(db, p).None? || p.userId in db.users
                then db'.users == db.users && db'.creds == db.creds
            else
              && (db'.users == db.users || db'.users == db.users[p.userId := Account(p.username, p.email, p.role)])
              && (db'.creds == db.creds
                  || (cred !in db.creds && p.userId in db'.users && db'.creds == db.creds[cred := p.userId]))
  {
  }

  /** The account `uid` comes into being between these states. */
  predicate Created(db: Db, db': Db, uid: string) {
    uid !in db.users && uid in db'.users
  }

  /** Only finishing a registration creates an account, with the pending data of that session. */
  lemma CreationIsFinish(w: World, x: Event, uid: string)
    requires Created(w.st.db, Apply(w, x).st.db, uid)
    ensures x.op.RegisterFinishOp? && x.op.verified
    ensures var s := Sess(w.st.sessions, x.op.sid);
            && s.user.None? && s.reg.Some? && s.reg.value.isNew && s.reg.value.userId == uid
            && Apply(w, x).st.db.users[uid] == Account(s.reg.value.username, s.reg.value.email, s.reg.value.role)
            && Consume(w.st.db, s.reg.value).Some?
  {
    if x.op.RegisterFinishOp? {
      FinishEffect(w.st, x.op.sid, x.op.verified, x.op.cred);
    } else {
      OthersOnlyGo(w, x);
    }
  }

  /** A join check or a link for the address succeeded at most the window before step `s`, and
      its mark stood until then. */
  ghost predicate MarkedInWindow(ws: seq<World>, es: seq<Event>, s: nat, email: string)
    requires s < |es| && |ws| == |es| + 1
  {
    exists t: nat :: t < s && MarkStands(ws, es, t, s, email) && es[s].now - es[t].now <= VERIFIED_WINDOW_SECS
  }

  /** A member account is created only by a session that started the registration for that very
      address in an earlier step `s`; that session had itself redeemed a join code or an
      invitation link for the address, and the last such redemption of the address was at most
      900 seconds before the start. */
  lemma MemberNeedsProof(ws: seq<World>, es: seq<Event>, token: string, i: nat, uid: string)
      returns (s: nat, p: Pending)
    requires Run(ws, es, token) && i < |es| && Created(ws[i].st.db, ws[i + 1].st.db, uid)
    requires ws[i + 1].st.db.users[uid].role == Member
    ensures es[i].op.RegisterFinishOp? && es[i].op.verified && p.userId == uid && p.email.Some?
    ensures ws[i + 1].st.db.users[uid] == Account(p.username, p.email, Member)
    ensures s < i && PendingSince(ws, es, s, i, es[i].op.sid, p)
    ensures Redeemed(ws, es, s, es[i].op.sid, p.email.value)
    ensures MarkedInWindow(ws, es, s, p.email.value)
  {
    CreationIsFinish(ws[i], es[i], uid);
    var sid := es[i].op.sid;
    p := Sess(ws[i].st.sessions, sid).reg.value;
    PendingMeans(ws, es, token, i, sid, p);
    s :| s < i && PendingSince(ws, es, s, i, sid, p);
    ProofMeans(ws, es, token, s, sid);
    MarkMeans(ws, es, token, s, p.email.value, ws[s].st.db.otp[p.email.value].verifiedAt.value);
  }

  /** The credential is new and goes to an account that was there before. */
  predicate PasskeyAdded(db: Db, db': Db, cred: string) {
    cred !in db.creds && cred in db'.creds && db'.creds[cred] in db.users
  }

  lemma AddingIsFinish(w: World, x: Event, cred: string)
    requires PasskeyAdded(w.st.db, Apply(w, x).st.db, cred)
    ensures var uid := Apply(w, x).st.db.creds[cred];
            && x.op.RegisterFinishOp? && x.op.verified && x.op.cred == cred
            && var s := Sess(w.st.sessions, x.op.sid);
               && s.user == Some(uid) && (w.st.db.users[uid].role == Admin ==> s.via == Some(ViaPasskey))
  {
    if x.op.RegisterFinishOp? {
      FinishEffect(w.st, x.op.sid, x.op.verified, x.op.cred);
    } else {
      OthersOnlyGo(w, x);
    }
  }

  /** A passkey added to an existing account goes to the account logged in on that session; and
      to an existing admin account only while that session is logged in by passkey, through a
      passkey login of its own that has stood ever since. */
  lemma PasskeyGoesToOwner(ws: seq<World>, es: seq<Event>, token: string, i: nat, cred: string)
    requires Run(ws, es, token) && i < |es| && PasskeyAdded(ws[i].st.db, ws[i + 1].st.db, cred)
    ensures var uid := ws[i + 1].st.db.creds[cred];
            && es[i].op.RegisterFinishOp? && es[i].op.verified && es[i].op.cred == cred
            && var sid := es[i].op.sid;
               && Sess(ws[i].st.sessions, sid).user == Some(uid)
               && (ws[i].st.db.users[uid].role == Admin ==>
                     ByPasskey(Sess(ws[i].st.sessions, sid), uid) && LoggedInByPasskey(ws, es, i, sid, uid))
  {
    AddingIsFinish(ws[i], es[i], cred);
    if Sess(ws[i].st.sessions, es[i].op.sid).via == Some(ViaPasskey) {
      ViaMeans(ws, es, token, i, es[i].op.sid);
    }
  }

  /** Acting on other accounts or on invitations. */
  predicate AdminOp(op: Op) {
    op.SetRoleOp? || op.DeleteOp? || op.InviteOp? || op.RevokeOp?
  }

  /** Such a step changes nothing unless the session belongs to an admin who logged in on it by
      passkey and has stayed logged in so. */
  lemma AdminActsNeedAPasskey(ws: seq<World>, es: seq<Event>, token: string, i: nat)
    requires Run(ws, es, token) && i < |es| && AdminOp(es[i].op) && ws[i + 1] != ws[i]
    ensures var s := Sess(ws[i].st.sessions, es[i].op.sid);
            && s.user.Some? && s.user.value in Admins(ws[i].st.db.users)
            && LoggedInByPasskey(ws, es, i, es[i].op.sid, s.user.value)
  {
    assert RequireAdmin(ws[i].st, es[i].op.sid);
    ViaMeans(ws, es, token, i, es[i].op.sid);
  }

  /** A credential never moves to another account. */
  lemma CredentialKeepsOwner(w: World, x: Event, cred: string)
    requires cred in w.st.db.creds && cred in Apply(w, x).st.db.creds
    ensures Apply(w, x).st.db.creds[cred] == w.st.db.creds[cred]
  {
    if x.op.RegisterFinishOp? {
      FinishEffect(w.st, x.op.sid, x.op.verified, x.op.cred);
    } else {
      OthersOnlyGo(w, x);
    }
  }

  // ── Accounts and invitations ───────────────────────────

  ghost predicate AccountsOk(users: map<string, Account>) {
    && (forall u :: u in users ==> users[u].email == Some(users[u].username))
    && (forall u, v :: u in users && v in users && users[u].email == users[v].email ==> u == v)
  }

  /** A used invitation is used by the account of its address; an unused one has no account. */
  ghost predicate InvitesOk(db: Db) {
    forall e :: e in db.invites ==>
      match db.invites[e].usedBy
      case Some(u) => u in db.users && db.users[u].email == Some(e)
      case None => !EmailTaken(db.users, e)
  }

  /** Either the bootstrap token is open and there is nothing yet, or there is an admin. */
  ghost predicate BootstrapOk(db: Db, token: string) {
    && db.tokens.Keys == {token}
    && if TokenOpen(db.tokens, token) then db.users == map[] && db.invites == map[] && db.creds == map[]
       else Admins(db.users) != {}
  }

  ghost predicate DbOk(db: Db, token: string) {
    && AccountsOk(db.users) && InvitesOk(db) && BootstrapOk(db, token)
    && forall c :: c in db.creds ==> db.creds[c] in db.users
  }

  /** Pending new accounts: their own id, the address as username, admin only by token; an id
      already in the table belongs to the same address. */
  ghost predicate PendingOk(p: Pending, users: map<string, Account>, issued: set<string>) {
    p.isNew ==>
      && p.userId in issued && p.email == Some(p.username)
      && (p.token.Some? <==> p.role == Admin)
      && (p.userId in users ==> users[p.userId].email == p.email)
  }

  /** The id pending for a new account on a session. */
  function NewIdOn(sessions: Sessions, sid: string): Option<string> {
    var r := Sess(sessions, sid).reg;
    if r.Some? && r.value.isNew then Some(r.value.userId) else None
  }

  ghost predicate SessionsOk(sessions: Sessions, users: map<string, Account>, issued: set<string>) {
    && users.Keys <= issued
    && (forall sid :: sid in sessions && sessions[sid].reg.Some? ==> PendingOk(sessions[sid].reg.value, users, issued))
    && (forall a, b :: NewIdOn(sessions, a).Some? && NewIdOn(sessions, a) == NewIdOn(sessions, b) ==> a == b)
  }

  ghost predicate WorldOk(w: World, token: string) {
    DbOk(w.st.db, token) && SessionsOk(w.st.sessions, w.st.db.users, w.issued)
  }

  lemma StartIsOk(token: string)
    ensures WorldOk(Start(token), token)
  {
  }

  /** Once the invitation or the token could be used up, the account can be made. */
  lemma ConsumedMeansCreated(db: Db, p: Pending, token: string, issued: set<string>)
    requires DbOk(db, token) && p.isNew && PendingOk(p, db.users, issued) && Consume(db, p).Some?
    ensures CreateUser(Consume(db, p).value, p).Some?
    ensures DbOk(CreateUser(Consume(db, p).value, p).value, token)
    ensures !TokenOpen(CreateUser(Consume(db, p).value, p).value.tokens, token)
    ensures p.userId !in db.users
  {
    var db1 := Consume(db, p).value;
    var e := p.username;
    if p.token.None? {
      assert IsInvited(db.invites, e) && !EmailTaken(db.users, e);
    } else {
      assert db.users == map[];
    }
    assert db1.users == db.users;
    assert p.userId !in db.users;
    assert !UsernameTaken(db.users, e);
    assert !EmailTaken(db.users, e);
    var db2 := CreateUser(db1, p).value;
    assert p.userId in db2.users && db2.users[p.userId].email == Some(e);
    forall f | f in db2.invites && db2.invites[f].usedBy.None?
      ensures !EmailTaken(db2.users, f)
    {
      assert f in db.invites && !EmailTaken(db.users, f) && f != e;
    }
    if p.token.Some? {
      assert p.userId in Admins(db2.users);
    } else {
      assert Admins(db.users) <= Admins(db2.users);
    }
  }

  /** The session map changes at one id only, and what is pending there is fine. */
  lemma PutSession(sessions: Sessions, sid: string, s: Session, users: map<string, Account>, issued: set<string>)
    requires SessionsOk(sessions, users, issued)
    requires s.reg.Some? ==> PendingOk(s.reg.value, users, issued)
    requires s.reg.None? || !s.reg.value.isNew
             || forall b :: b != sid ==> NewIdOn(sessions, b) != Some(s.reg.value.userId)
    ensures SessionsOk(sessions[sid := s], users, issued)
  {
    var after := sessions[sid := s];
    assert forall b :: b != sid ==> NewIdOn(after, b) == NewIdOn(sessions, b);
  }

  /** New accounts and new ids keep what is pending elsewhere fine. */
  lemma GrowUsers(sessions: Sessions, users: map<string, Account>, users': map<string, Account>, issued: set<string>,
                  p: Pending, sid: string)
    requires SessionsOk(sessions, users, issued) && NewIdOn(sessions, sid) == Some(p.userId)
             && Sess(sessions, sid).reg == Some(p)
    requires users' == users[p.userId := Account(p.username, p.email, p.role)]
    ensures SessionsOk(sessions, users', issued)
  {
    assert sid in sessions && PendingOk(p, users, issued);
    forall a | a in sessions && sessions[a].reg.Some?
      ensures PendingOk(sessions[a].reg.value, users', issued)
    {
      var q := sessions[a].reg.value;
      assert PendingOk(q, users, issued);
      if q.isNew && q.userId == p.userId {
        assert NewIdOn(sessions, a) == NewIdOn(sessions, sid);
      }
    }
  }

  lemma FewerUsers(sessions: Sessions, users: map<string, Account>, users': map<string, Account>, issued: set<string>)
    requires SessionsOk(sessions, users, issued)
    requires users'.Keys <= users.Keys && forall u :: u in users' ==> users'[u].email == users[u].email
    ensures SessionsOk(sessions, users', issued)
  {
  }

  /** The account is made; only the credential may still be refused, and then the session keeps
      its pending registration. */
  lemma FinishNewResult(st: State, sid: string, cred: string, db2: Db)
    requires var s := Sess(st.sessions, sid);
             && s.user.None? && s.reg.Some? && s.reg.value.isNew && Consume(st.db, s.reg.value).Some?
             && CreateUser(Consume(st.db, s.reg.value).value, s.reg.value) == Some(db2)
    ensures var s, st' := Sess(st.sessions, sid), RegisterFinish(st, sid, true, cred).0;
            var p := s.reg.value;
            && (st'.db == db2.(otp := st'.db.otp)
                || st'.db == db2.(otp := st'.db.otp, creds := db2.creds[cred := p.userId]))
            && (st'.sessions == st.sessions
                || st'.sessions
                    == st.sessions[sid := s.(reg := None, proof := None, user := Some(p.userId),
                                             via := Some(ViaPasskey))])
  {
  }

  lemma FinishNewOk(st: State, issued: set<string>, sid: string, cred: string, token: string)
    requires DbOk(st.db, token) && SessionsOk(st.sessions, st.db.users, issued)
    requires var s := Sess(st.sessions, sid);
             s.user.None? && s.reg.Some? && s.reg.value.isNew && Consume(st.db, s.reg.value).Some?
    ensures var st' := RegisterFinish(st, sid, true, cred).0;
            DbOk(st'.db, token) && SessionsOk(st'.sessions, st'.db.users, issued)
    ensures Sess(st.sessions, sid).reg.value.userId in RegisterFinish(st, sid, true, cred).0.db.users
  {
    var s := Sess(st.sessions, sid);
    var p := s.reg.value;
    assert sid in st.sessions && PendingOk(p, st.db.users, issued);
    ConsumedMeansCreated(st.db, p, token, issued);
    var db2 := CreateUser(Consume(st.db, p).value, p).value;
    assert Consume(st.db, p).value.users == st.db.users;
    FinishNewResult(st, sid, cred, db2);
    GrowUsers(st.sessions, st.db.users, db2.users, issued, p, sid);
    PutSession(st.sessions, sid, s.(reg := None, proof := None, user := Some(p.userId), via := Some(ViaPasskey)),
               db2.users, issued);
    CredsDoNotMatter(db2, RegisterFinish(st, sid, true, cred).0.db, token);
  }

  lemma CredsDoNotMatter(db: Db, db': Db, token: string)
    requires DbOk(db, token) && db'.users == db.users && db'.invites == db.invites && db'.tokens == db.tokens
    requires !TokenOpen(db.tokens, token)
    requires forall c :: c in db'.creds ==> c in db.creds || db'.creds[c] in db.users
    requires forall c :: c in db'.creds && c in db.creds ==> db'.creds[c] == db.creds[c] || db'.creds[c] in db.users
    ensures DbOk(db', token)
  {
  }

  lemma FinishOldOk(st: State, issued: set<string>, sid: string, cred: string, token: string)
    requires DbOk(st.db, token) && SessionsOk(st.sessions, st.db.users, issued)
    requires var s := Sess(st.sessions, sid); s.reg.Some? && !s.reg.value.isNew
    ensures var st' := RegisterFinish(st, sid, true, cred).0;
            DbOk(st'.db, token) && SessionsOk(st'.sessions, st'.db.users, issued)
  {
    var s := Sess(st.sessions, sid);
    PutSession(st.sessions, sid, s.(reg := None, proof := None), st.db.users, issued);
  }

  lemma FinishOk(st: State, issued: set<string>, sid: string, verified: bool, cred: string, token: string)
    requires DbOk(st.db, token) && SessionsOk(st.sessions, st.db.users, issued)
    ensures var st' := RegisterFinish(st, sid, verified, cred).0;
            DbOk(st'.db, token) && SessionsOk(st'.sessions, st'.db.users, issued)
  {
    var s := Sess(st.sessions, sid);
    if verified && s.reg.Some? && RegistrationOwnerOk(s.user, s.reg.value) {
      if !s.reg.value.isNew {
        FinishOldOk(st, issued, sid, cred, token);
      } else if Consume(st.db, s.reg.value).Some? {
        FinishNewOk(st, issued, sid, cred, token);
      }
    }
  }

  lemma StartOk(st: State, issued: set<string>, sid: string, email: Option<string>, tok: Option<string>, newId: string,
                now: int)
    requires SessionsOk(st.sessions, st.db.users, issued) && newId !in issued
    ensures SessionsOk(RegisterStart(st, sid, email, tok, newId, now).0.sessions, st.db.users, issued + {newId})
  {
    var s := Sess(st.sessions, sid);
    forall b
      ensures NewIdOn(st.sessions, b) != Some(newId)
    {
      assert b in st.sessions && st.sessions[b].reg.Some? ==> PendingOk(st.sessions[b].reg.value, st.db.users, issued);
    }
    assert SessionsOk(st.sessions, st.db.users, issued + {newId}) by {
      forall a | a in st.sessions && st.sessions[a].reg.Some?
        ensures PendingOk(st.sessions[a].reg.value, st.db.users, issued + {newId})
      {
        assert PendingOk(st.sessions[a].reg.value, st.db.users, issued);
      }
    }
    PutSession(st.sessions, sid, s.(reg := Pend(st.db, s, email, tok, newId, now), disc := false), st.db.users,
               issued + {newId});
  }

  lemma PlainSession(st: State, issued: set<string>, sid: string, s: Session)
    requires SessionsOk(st.sessions, st.db.users, issued)
    requires s.reg == None || s.reg == Sess(st.sessions, sid).reg
    ensures SessionsOk(st.sessions[sid := s], st.db.users, issued)
  {
    if s.reg.Some? {
      assert sid in st.sessions && PendingOk(s.reg.value, st.db.users, issued);
    }
    forall b | b != sid && s.reg.Some? && s.reg.value.isNew
      ensures NewIdOn(st.sessions, b) != Some(s.reg.value.userId)
    {
      assert NewIdOn(st.sessions, sid) == Some(s.reg.value.userId);
    }
    PutSession(st.sessions, sid, s, st.db.users, issued);
  }

  lemma ForgetOk(sessions: Sessions, users: map<string, Account>, issued: set<string>, sid: string)
    requires SessionsOk(sessions, users, issued)
    ensures SessionsOk(sessions - {sid}, users, issued)
  {
    assert forall b :: b != sid ==> NewIdOn(sessions - {sid}, b) == NewIdOn(sessions, b);
    assert NewIdOn(sessions - {sid}, sid) == None;
  }

  // ── Administration ─────────────────────────────────────

  lemma AdminSession(st: State, sid: string, token: string)
    requires DbOk(st.db, token) && RequireAdmin(st, sid)
    ensures !TokenOpen(st.db.tokens, token) && Sess(st.sessions, sid).user.value in Admins(st.db.users)
  {
  }

  lemma {:induction false} OneOfOne<T>(s: set<T>, x: T)
    requires x in s && |s| > 1
    ensures s - {x} != {}
  {
    assert |s - {x}| == |s| - 1;
  }

  lemma SetRoleOk(st: State, issued: set<string>, sid: string, uid: string, role: Role, token: string)
    requires DbOk(st.db, token) && SessionsOk(st.sessions, st.db.users, issued)
    ensures var st' := SetRole(st, sid, uid, role);
            DbOk(st'.db, token) && SessionsOk(st'.sessions, st'.db.users, issued)
  {
    var users, users' := st.db.users, SetRole(st, sid, uid, role).db.users;
    if users' != users {
      AdminSession(st, sid, token);
      assert users'.Keys == users.Keys;
      assert forall u :: u in users ==> users'[u].email == users[u].email && users'[u].username == users[u].username;
      assert forall e :: EmailTaken(users', e) ==> EmailTaken(users, e);
      FewerUsers(st.sessions, users, users', issued);
      if uid in Admins(users) && role == Member {
        OneOfOne(Admins(users), uid);
        assert Admins(users') == Admins(users) - {uid};
      } else {
        assert Admins(users) <= Admins(users');
      }
    }
  }

  lemma DeleteOk(st: State, issued: set<string>, sid: string, uid: string, token: string)
    requires DbOk(st.db, token) && SessionsOk(st.sessions, st.db.users, issued)
    ensures var st' := DeleteMember(st, sid, uid);
            DbOk(st'.db, token) && SessionsOk(st'.sessions, st'.db.users, issued)
  {
    var users, users' := st.db.users, DeleteMember(st, sid, uid).db.users;
    if uid !in users' && uid in users {
      AdminSession(st, sid, token);
      FewerUsers(st.sessions, users, users', issued);
      assert Sess(st.sessions, sid).user.value in Admins(users');
      assert forall e :: EmailTaken(users', e) ==> EmailTaken(users, e);
    }
  }

  lemma InviteOk(st: State, sid: string, email: string, h: string, token: string)
    requires DbOk(st.db, token)
    ensures DbOk(InviteCreate(st, sid, email, h).db, token)
    ensures InviteCreate(st, sid, email, h).sessions == st.sessions
            && InviteCreate(st, sid, email, h).db.users == st.db.users
  {
  }

  lemma RevokeOk(st: State, sid: string, email: string, token: string)
    requires DbOk(st.db, token)
    ensures DbOk(InviteRevoke(st, sid, email).db, token)
    ensures InviteRevoke(st, sid, email).sessions == st.sessions && InviteRevoke(st, sid, email).db.users == st.db.users
  {
  }

  lemma PasskeyDeleteOk(st: State, sid: string, cred: string, token: string)
    requires DbOk(st.db, token)
    ensures DbOk(PasskeyDelete(st, sid, cred).db, token)
    ensures PasskeyDelete(st, sid, cred).sessions == st.sessions && PasskeyDelete(st, sid, cred).db.users == st.db.users
  {
  }

  lemma CodeLoginOk(st: State, issued: set<string>, sid: string, email: string, uid: string, h: string, now: int,
                    token: string)
    requires DbOk(st.db, token) && SessionsOk(st.sessions, st.db.users, issued)
    ensures var st' := LoginCodeVerify(st, sid, email, uid, h, now).0;
            DbOk(st'.db, token) && SessionsOk(st'.sessions, st'.db.users, issued)
  {
    PlainSession(st, issued, sid,
                 Sess(st.sessions, sid).(reg := None, disc := false, user := Some(uid), via := Some(ViaCode)));
  }

  lemma JoinOk(st: State, issued: set<string>, sid: string, email: string, h: string, now: int, token: string)
    requires DbOk(st.db, token) && SessionsOk(st.sessions, st.db.users, issued)
    ensures var st' := JoinVerify(st, sid, email, h, now).0;
            DbOk(st'.db, token) && SessionsOk(st'.sessions, st'.db.users, issued)
    ensures var st' := JoinInvite(st, sid, email, h, now).0;
            DbOk(st'.db, token) && SessionsOk(st'.sessions, st'.db.users, issued)
  {
    PlainSession(st, issued, sid, Sess(st.sessions, sid).(proof := Some(email)));
  }

  lemma LoginOk(st: State, issued: set<string>, sid: string, uid: string, cred: string, verified: bool)
    requires SessionsOk(st.sessions, st.db.users, issued)
    ensures SessionsOk(LoginAnyStart(st, sid).sessions, st.db.users, issued)
    ensures SessionsOk(LoginAnyFinish(st, sid, uid, cred, verified).0.sessions, st.db.users, issued)
  {
    PlainSession(st, issued, sid, Sess(st.sessions, sid).(reg := None, disc := true));
    PlainSession(st, issued, sid, Sess(st.sessions, sid).(disc := false, user := Some(uid), via := Some(ViaPasskey)));
  }

  lemma SendOk(st: State, email: string, purpose: Otp.Purpose, h: string, now: int, token: string)
    requires DbOk(st.db, token)
    ensures DbOk(SendCode(st, email, purpose, h, now).db, token)
    ensures SendCode(st, email, purpose, h, now).sessions == st.sessions
    ensures SendCode(st, email, purpose, h, now).db.users == st.db.users
  {
  }

  lemma AdminStepOk(w: World, x: Event, token: string)
    requires WorldOk(w, token)
    requires x.op.SetRoleOp? || x.op.DeleteOp? || x.op.InviteOp? || x.op.RevokeOp? || x.op.PasskeyDeleteOp?
             || x.op.SendOp?
    ensures WorldOk(Apply(w, x), token)
  {
    var op, st := x.op, w.st;
    if op.SetRoleOp? {
      SetRoleOk(st, w.issued, op.sid, op.uid, op.role, token);
    } else if op.DeleteOp? {
      DeleteOk(st, w.issued, op.sid, op.uid, token);
    } else if op.InviteOp? {
      InviteOk(st, op.sid, op.email, op.tokenHash, token);
    } else if op.RevokeOp? {
      RevokeOk(st, op.sid, op.email, token);
    } else if op.PasskeyDeleteOp? {
      PasskeyDeleteOk(st, op.sid, op.cred, token);
    } else {
      SendOk(st, op.email, op.purpose, op.codeHash, x.now, token);
    }
  }

  lemma LoginStepOk(w: World, x: Event, token: string)
    requires WorldOk(w, token)
    requires x.op.LoginAnyStartOp? || x.op.LoginAnyFinishOp? || x.op.LoginCodeOp? || x.op.ForgetOp?
    ensures WorldOk(Apply(w, x), token)
  {
    var op, st := x.op, w.st;
    if op.LoginAnyStartOp? {
      LoginOk(st, w.issued, op.sid, "", "", false);
    } else if op.LoginAnyFinishOp? {
      LoginOk(st, w.issued, op.sid, op.uid, op.cred, op.verified);
    } else if op.LoginCodeOp? {
      CodeLoginOk(st, w.issued, op.sid, op.email, op.uid, op.codeHash, x.now, token);
    } else {
      ForgetOk(st.sessions, st.db.users, w.issued, op.sid);
    }
  }

  lemma JoinStepOk(w: World, x: Event, token: string)
    requires WorldOk(w, token) && Proper(w, x.op)
    requires x.op.JoinVerifyOp? || x.op.JoinInviteOp? || x.op.RegisterStartOp? || x.op.RegisterFinishOp?
    ensures WorldOk(Apply(w, x), token)
  {
    var op, st := x.op, w.st;
    if op.JoinVerifyOp? {
      JoinOk(st, w.issued, op.sid, op.email, op.codeHash, x.now, token);
    } else if op.JoinInviteOp? {
      JoinOk(st, w.issued, op.sid, op.email, op.tokenHash, x.now, token);
    } else if op.RegisterStartOp? {
      StartOk(st, w.issued, op.sid, op.address, op.token, op.newId, x.now);
    } else {
      FinishOk(st, w.issued, op.sid, op.verified, op.cred, token);
    }
  }

  lemma StepOk(w: World, x: Event, token: string)
    requires WorldOk(w, token) && Proper(w, x.op)
    ensures WorldOk(Apply(w, x), token)
  {
    if x.op.JoinVerifyOp? || x.op.JoinInviteOp? || x.op.RegisterStartOp? || x.op.RegisterFinishOp? {
      JoinStepOk(w, x, token);
    } else if x.op.LoginAnyStartOp? || x.op.LoginAnyFinishOp? || x.op.LoginCodeOp? || x.op.ForgetOp? {
      LoginStepOk(w, x, token);
    } else {
      AdminStepOk(w, x, token);
    }
  }

  lemma {:induction false} AlwaysOk(ws: seq<World>, es: seq<Event>, token: string, i: nat)
    requires Run(ws, es, token) && i < |ws|
    ensures WorldOk(ws[i], token)
  {
    if i == 0 {
      StartIsOk(token);
    } else {
      AlwaysOk(ws, es, token, i - 1);
      StepOk(ws[i - 1], es[i - 1], token);
    }
  }

  /** At any time an address has at most one account. */
  lemma OneAccountPerAddress(ws: seq<World>, es: seq<Event>, token: string, i: nat, u: string, v: string)
    requires Run(ws, es, token) && i < |ws| && u in ws[i].st.db.users && v in ws[i].st.db.users
    requires ws[i].st.db.users[u].email == ws[i].st.db.users[v].email
    ensures u == v
  {
    AlwaysOk(ws, es, token, i);
  }

  /** An invitation is never burnt: in every reachable state a used one belongs to the account
      of its address, and an address with an unused one has no account. */
  lemma InvitationNeverBurnt(ws: seq<World>, es: seq<Event>, token: string, i: nat, e: string)
    requires Run(ws, es, token) && i < |ws| && e in ws[i].st.db.invites
    ensures match ws[i].st.db.invites[e].usedBy
            case Some(u) => u in ws[i].st.db.users && ws[i].st.db.users[u].email == Some(e)
            case None => !EmailTaken(ws[i].st.db.users, e)
  {
    AlwaysOk(ws, es, token, i);
  }

  /** Only the very first account is created as admin; and once there is an account there is
      always an admin. */
  lemma AdminsComeFromBootstrap(ws: seq<World>, es: seq<Event>, token: string, i: nat, uid: string)
    requires Run(ws, es, token) && i < |es|
    ensures Created(ws[i].st.db, ws[i + 1].st.db, uid) && ws[i + 1].st.db.users[uid].role == Admin
            ==> ws[i].st.db.users == map[]
    ensures ws[i].st.db.users != map[] ==> Admins(ws[i].st.db.users) != {}
  {
    AlwaysOk(ws, es, token, i);
    if Created(ws[i].st.db, ws[i + 1].st.db, uid) {
      CreationIsFinish(ws[i], es[i], uid);
      var sid := es[i].op.sid;
      assert sid in ws[i].st.sessions && PendingOk(ws[i].st.sessions[sid].reg.value, ws[i].st.db.users, ws[i].issued);
    }
  }

  // ── Passkeys ───────────────────────────────────────────

  ghost predicate HasPasskey(creds: map<string, string>, uid: string) {
    exists c :: c in creds && creds[c] == uid
  }

  lemma DeletingOneLeavesOne(st: State, sid: string, cred: string, uid: string)
    requires HasPasskey(st.db.creds, uid)
    ensures HasPasskey(PasskeyDelete(st, sid, cred).db.creds, uid)
  {
    var creds, creds' := st.db.creds, PasskeyDelete(st, sid, cred).db.creds;
    var c :| c in creds && creds[c] == uid;
    if c == cred && creds' != creds {
      OneOfOne(CredsOf(creds, uid), c);
      var d :| d in CredsOf(creds, uid) - {c};
      assert d in creds' && creds'[d] == uid;
    } else {
      assert c in creds' && creds'[c] == uid;
    }
  }

  lemma MemberDeleteLeavesOthers(st: State, sid: string, gone: string, uid: string)
    requires HasPasskey(st.db.creds, uid) && uid in st.db.users && uid in DeleteMember(st, sid, gone).db.users
    ensures HasPasskey(DeleteMember(st, sid, gone).db.creds, uid)
  {
    var c :| c in st.db.creds && st.db.creds[c] == uid;
    assert c in DeleteMember(st, sid, gone).db.creds;
  }

  lemma FinishLeavesPasskeys(st: State, sid: string, verified: bool, cred: string, uid: string)
    requires HasPasskey(st.db.creds, uid)
    ensures HasPasskey(RegisterFinish(st, sid, verified, cred).0.db.creds, uid)
  {
    var c :| c in st.db.creds && st.db.creds[c] == uid;
    FinishEffect(st, sid, verified, cred);
    FinishNeverDeletes(st, sid, verified, cred);
    assert c in RegisterFinish(st, sid, verified, cred).0.db.creds;
  }

  lemma FinishNeverDeletes(st: State, sid: string, verified: bool, cred: string)
    ensures st.db.creds.Keys <= RegisterFinish(st, sid, verified, cred).0.db.creds.Keys
  {
  }

  lemma StepKeepsAPasskey(w: World, x: Event, uid: string)
    requires uid in w.st.db.users && uid in Apply(w, x).st.db.users && HasPasskey(w.st.db.creds, uid)
    ensures HasPasskey(Apply(w, x).st.db.creds, uid)
  {
    if x.op.RegisterFinishOp? {
      FinishLeavesPasskeys(w.st, x.op.sid, x.op.verified, x.op.cred, uid);
    } else if x.op.PasskeyDeleteOp? {
      DeletingOneLeavesOne(w.st, x.op.sid, x.op.cred, uid);
    } else if x.op.DeleteOp? {
      MemberDeleteLeavesOthers(w.st, x.op.sid, x.op.uid, uid);
    } else {
      assert Apply(w, x).st.db.creds == w.st.db.creds;
    }
  }

  lemma NextKeepsAPasskey(ws: seq<World>, es: seq<Event>, token: string, uid: string, k: nat)
    requires Run(ws, es, token) && k < |es| && HasPasskey(ws[k].st.db.creds, uid)
    requires uid in ws[k].st.db.users && uid in ws[k + 1].st.db.users
    ensures HasPasskey(ws[k + 1].st.db.creds, uid)
  {
    assert ws[k + 1] == Apply(ws[k], es[k]);
    StepKeepsAPasskey(ws[k], es[k], uid);
  }

  /** An account that has a passkey keeps at least one for as long as it exists. */
  lemma {:induction false} KeepsAPasskey(ws: seq<World>, es: seq<Event>, token: string, uid: string, i: nat, j: nat)
    requires Run(ws, es, token) && i <= j < |ws| && HasPasskey(ws[i].st.db.creds, uid)
    requires forall k :: i <= k <= j ==> uid in ws[k].st.db.users
    ensures HasPasskey(ws[j].st.db.creds, uid)
    decreases j
  {
    if i < j {
      KeepsAPasskey(ws, es, token, uid, i, j - 1);
      NextKeepsAPasskey(ws, es, token, uid, j - 1);
    }
  }

  lemma NewAccountAddsNoPasskey(db: Db, p: Pending)
    ensures NewAccount(db, p).0.creds == db.creds
    ensures p.userId !in db.users ==> (p.userId in NewAccount(db, p).0.users <==> NewAccount(db, p).1)
  {
  }

  lemma FirstPasskey(db: Db, cred: string, uid: string)
    requires uid in db.users && CredsOf(db.creds, uid) == {}
    ensures AddCredential(db, cred, uid)
            == if cred in db.creds then None else Some(db.(creds := db.creds[cred := uid]))
  {
    assert |CredsOf(db.creds, uid)| == 0;
  }

  lemma FinishDb(st: State, sid: string, cred: string)
    requires var s := Sess(st.sessions, sid);
             s.reg.Some? && s.reg.value.isNew && RegistrationOwnerOk(s.user, s.reg.value)
    ensures var p := Sess(st.sessions, sid).reg.value;
            var (db1, made) := NewAccount(st.db, p);
            var stored := AddCredential(db1, cred, p.userId);
            made ==> RegisterFinish(st, sid, true, cred).0.db == if stored.Some? then stored.value else db1
  {
  }

  lemma AccountGetsPasskey(st: State, sid: string, cred: string, uid: string)
    requires var s := Sess(st.sessions, sid);
             s.reg.Some? && s.reg.value.isNew && s.reg.value.userId == uid && RegistrationOwnerOk(s.user, s.reg.value)
    requires uid in RegisterFinish(st, sid, true, cred).0.db.users && uid !in st.db.users
    requires CredsOf(st.db.creds, uid) == {}
    ensures cred !in st.db.creds ==> RegisterFinish(st, sid, true, cred).0.db.creds == st.db.creds[cred := uid]
    ensures cred in st.db.creds ==> RegisterFinish(st, sid, true, cred).0.db.creds == st.db.creds
  {
    var p := Sess(st.sessions, sid).reg.value;
    var (db1, made) := NewAccount(st.db, p);
    NewAccountAddsNoPasskey(st.db, p);
    FirstPasskey(db1, cred, uid);
    FinishDb(st, sid, cred);
    assert made && db1.creds == st.db.creds;
  }

  /** An account just created has a passkey if and only if the credential was new: a known one is
      refused after the account has been made, and the account stays without. */
  lemma NewAccountHasPasskey(ws: seq<World>, es: seq<Event>, token: string, i: nat, uid: string)
    requires Run(ws, es, token) && i < |es| && Created(ws[i].st.db, ws[i + 1].st.db, uid)
    ensures es[i].op.RegisterFinishOp?
    ensures HasPasskey(ws[i + 1].st.db.creds, uid) <==> es[i].op.cred !in ws[i].st.db.creds
  {
    AlwaysOk(ws, es, token, i);
    CreationIsFinish(ws[i], es[i], uid);
    NoCredentialsYet(ws[i].st.db, uid, token);
    AccountGetsPasskey(ws[i].st, es[i].op.sid, es[i].op.cred, uid);
    OneHolder(ws[i].st.db.creds, ws[i + 1].st.db.creds, es[i].op.cred, uid);
  }

  lemma OneHolder(creds: map<string, string>, creds': map<string, string>, cred: string, uid: string)
    requires CredsOf(creds, uid) == {} && creds' == if cred in creds then creds else creds[cred := uid]
    ensures HasPasskey(creds', uid) <==> cred !in creds
  {
    if cred !in creds {
      assert cred in creds' && creds'[cred] == uid;
    }
    assert forall c :: c in creds && creds[c] == uid ==> c in CredsOf(creds, uid);
  }

  // ── Flows ──────────────────────────────────────────────

  predicate OneFlow(s: Session) {
    s.reg.None? || !s.disc
  }

  /** A session is in the middle of a registration or of a passkey login, never of both: what
      one flow left behind cannot be finished by the other. */
  lemma {:induction false} OneFlowAtATime(ws: seq<World>, es: seq<Event>, token: string, i: nat, sid: string)
    requires Run(ws, es, token) && i < |ws|
    ensures OneFlow(Sess(ws[i].st.sessions, sid))
  {
    if i > 0 {
      OneFlowAtATime(ws, es, token, i - 1, sid);
      FlowStep(ws[i - 1], es[i - 1], sid);
    }
  }

  lemma FlowStep(w: World, x: Event, sid: string)
    requires OneFlow(Sess(w.st.sessions, sid))
    ensures OneFlow(Sess(Apply(w, x).st.sessions, sid))
  {
    if x.op.RegisterFinishOp? {
      FinishKeepsFlow(w.st, x.op.sid, x.op.verified, x.op.cred, sid);
    } else if x.op.SendOp? || x.op.SetRoleOp? || x.op.DeleteOp? || x.op.InviteOp? || x.op.RevokeOp?
        || x.op.PasskeyDeleteOp? {
      assert Apply(w, x).st.sessions == w.st.sessions;
    }
  }

  lemma FinishKeepsFlow(st: State, sid: string, verified: bool, cred: string, other: string)
    requires OneFlow(Sess(st.sessions, other))
    ensures OneFlow(Sess(RegisterFinish(st, sid, verified, cred).0.sessions, other))
  {
  }

  // ── The gate opens for those it is meant for ───────────

  /** `sid` has no login, the address is registered and open, and its join code is right. */
  ghost predicate MayJoin(w: World, sid: string, email: string, h: string, now: int) {
    && w.st.db.users != map[] && ValidEmail(email) && IsInvited(w.st.db.invites, email)
    && Sess(w.st.sessions, sid).user.None?
    && Redeems(w, Event(now, JoinVerifyOp(sid, email, h)), sid, email)
  }

  /** Right code, start within the window, verified new passkey: the person is in, logged in on
      that session with that passkey, and the code is used up. */
  lemma JoinFlowSucceeds(w: World, token: string, sid: string, email: string, h: string, newId: string, cred: string,
                         t1: int, t2: int)
    requires WorldOk(w, token) && MayJoin(w, sid, email, h, t1)
    requires newId !in w.issued && cred !in w.st.db.creds && t1 <= t2 <= t1 + VERIFIED_WINDOW_SECS
    ensures var st1 := JoinVerify(w.st, sid, email, h, t1).0;
            var st2 := RegisterStart(st1, sid, Some(email), None, newId, t2).0;
            var st3 := RegisterFinish(st2, sid, true, cred).0;
            Joined(w.st, st3, sid, email, newId, cred)
  {
    var st1 := JoinVerify(w.st, sid, email, h, t1).0;
    assert !EmailTaken(w.st.db.users, email);
    VerifyProves(w, sid, email, h, t1);
    PendGivesMember(st1.db, Sess(st1.sessions, sid), email, newId, t2);
    var st2 := RegisterStart(st1, sid, Some(email), None, newId, t2).0;
    NoCredentialsYet(w.st.db, newId, token);
    NoAccountYet(w.st.db, email, token);
    FinishesMember(st2, sid, cred, Pending(newId, email, Some(email), true, Member, None));
  }

  /** `email` has become the member account `uid`, with the one passkey `cred`. */
  ghost predicate Joined(st: State, st': State, sid: string, email: string, uid: string, cred: string) {
    && st'.db.users == st.db.users[uid := Account(email, Some(email), Member)]
    && st'.db.creds == st.db.creds[cred := uid]
    && email in st'.db.invites && st'.db.invites[email].usedBy == Some(uid) && email !in st'.db.otp
    && Sess(st'.sessions, sid) == Session(Some(uid), Some(ViaPasskey), None, None, false)
  }

  lemma VerifyProves(w: World, sid: string, email: string, h: string, now: int)
    requires MayJoin(w, sid, email, h, now)
    ensures var db, db1 := w.st.db, JoinVerify(w.st, sid, email, h, now).0.db;
            && db1.users == db.users && db1.creds == db.creds && db1.invites == db.invites
            && email in db1.otp && db1.otp[email].purpose == Otp.Join && db1.otp[email].verifiedAt == Some(now)
    ensures Sess(JoinVerify(w.st, sid, email, h, now).0.sessions, sid)
            == Sess(w.st.sessions, sid).(proof := Some(email))
  {
  }

  lemma NoAccountYet(db: Db, email: string, token: string)
    requires DbOk(db, token) && !EmailTaken(db.users, email)
    ensures !UsernameTaken(db.users, email)
  {
  }

  lemma PendGivesMember(db: Db, s: Session, email: string, newId: string, now: int)
    requires s.user.None? && s.proof == Some(email) && ValidEmail(email) && !EmailTaken(db.users, email)
    requires db.users != map[] && IsInvited(db.invites, email)
    requires Otp.RecentlyVerified(db.otp, email, Otp.Join, VERIFIED_WINDOW_SECS, now)
    ensures Pend(db, s, Some(email), None, newId, now) == Some(Pending(newId, email, Some(email), true, Member, None))
  {
  }

  lemma NoCredentialsYet(db: Db, uid: string, token: string)
    requires DbOk(db, token) && uid !in db.users
    ensures CredsOf(db.creds, uid) == {}
  {
  }

  lemma FinishesMember(st: State, sid: string, cred: string, p: Pending)
    requires p.isNew && p.token.None? && p.email == Some(p.username) && IsInvited(st.db.invites, p.username)
    requires Sess(st.sessions, sid).user.None? && Sess(st.sessions, sid).reg == Some(p) && !Sess(st.sessions, sid).disc
    requires p.userId !in st.db.users && !UsernameTaken(st.db.users, p.username) && !EmailTaken(st.db.users, p.username)
    requires cred !in st.db.creds && CredsOf(st.db.creds, p.userId) == {}
    requires p.role == Member
    ensures Joined(st, RegisterFinish(st, sid, true, cred).0, sid, p.username, p.userId, cred)
  {
  }
}
