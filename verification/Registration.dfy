/** Joining, registering passkeys and logging in: what one session may turn into an account,
    a credential or a login. Addresses are normalised before they get here. */
module Registration {
  import opened Text
  import opened Otp

  datatype Role = Admin | Member

  datatype Via = ViaPasskey | ViaCode

  datatype Account = Account(username: string, email: Option<string>, role: Role)

  /** A registered address: `usedBy` is the account made from it. */
  datatype Invite = Invite(tokenHash: Option<string>, revoked: bool, usedBy: Option<string>)

  /** What `register_start` leaves for `register_finish`. */
  datatype Pending = Pending(userId: string, username: string, email: Option<string>, isNew: bool, role: Role,
                             token: Option<string>)

  datatype Session = Session(user: Option<string>, via: Option<Via>, proof: Option<string>, reg: Option<Pending>,
                             disc: bool)

  const ANONYMOUS := Session(None, None, None, None, false)

  datatype Db = Db(users: map<string, Account>, creds: map<string, string>, invites: map<string, Invite>,
                   otp: Table, tokens: map<string, bool>)

  type Sessions = map<string, Session>

  datatype State = State(db: Db, sessions: Sessions)

  const MAX_PASSKEYS_PER_USER: nat := 10
  const MAX_ATTEMPTS: int := 5
  const TTL_SECS: int := 600
  const RESEND_COOLDOWN_SECS: int := 60
  const VERIFIED_WINDOW_SECS: int := 900
  /** In bytes. */
  const MAX_EMAIL_LEN: nat := 254

  // ── Reading the database ───────────────────────────────

  predicate EmailTaken(users: map<string, Account>, email: string) {
    exists u :: u in users && users[u].email == Some(email)
  }

  predicate UsernameTaken(users: map<string, Account>, username: string) {
    exists u :: u in users && users[u].username == username
  }

  predicate IsInvited(invites: map<string, Invite>, email: string) {
    email in invites && !invites[email].revoked && invites[email].usedBy.None?
  }

  predicate TokenOpen(tokens: map<string, bool>, token: string) {
    token in tokens && !tokens[token]
  }

  function CredsOf(creds: map<string, string>, uid: string): set<string> {
    set c | c in creds && creds[c] == uid
  }

  function Admins(users: map<string, Account>): set<string> {
    set u | u in users && users[u].role == Admin
  }

  function Sess(sessions: Sessions, sid: string): Session {
    if sid in sessions then sessions[sid] else ANONYMOUS
  }

  predicate ValidEmail(s: string) {
    Offset(s, |s|) <= MAX_EMAIL_LEN && '@' in s && forall i :: 0 <= i < |s| ==> !IsWhitespace(s[i])
  }

  /** Admin powers need the role and a passkey login. */
  predicate AdminPowers(s: Session, a: Account) {
    a.role == Admin && s.via == Some(ViaPasskey)
  }

  predicate RequireAdmin(st: State, sid: string) {
    var s := Sess(st.sessions, sid);
    s.user.Some? && s.user.value in st.db.users && AdminPowers(s, st.db.users[s.user.value])
  }

  /** The last invariant before registration completes. */
  predicate RegistrationOwnerOk(loggedIn: Option<string>, p: Pending) {
    match loggedIn
    case Some(uid) => !p.isNew && uid == p.userId
    case None => p.isNew
  }

  // ── Writing the database ───────────────────────────────

  /** The insert fails on a known id, username or address. */
  function CreateUser(db: Db, p: Pending): Option<Db> {
    if p.userId in db.users || UsernameTaken(db.users, p.username)
        || (p.email.Some? && EmailTaken(db.users, p.email.value)) then None
    else Some(db.(users := db.users[p.userId := Account(p.username, p.email, p.role)]))
  }

  function AddCredential(db: Db, cred: string, uid: string): Option<Db> {
    if cred in db.creds || uid !in db.users || |CredsOf(db.creds, uid)| >= MAX_PASSKEYS_PER_USER then None
    else Some(db.(creds := db.creds[cred := uid]))
  }

  /** What must be used up before the account is made: the bootstrap token or the invitation. */
  function Consume(db: Db, p: Pending): Option<Db> {
    match p.token
    case Some(t) => if TokenOpen(db.tokens, t) then Some(db.(tokens := db.tokens[t := true])) else None
    case None =>
      match p.email
      case None => Some(db)
      case Some(e) =>
        if IsInvited(db.invites, e) then Some(db.(invites := db.invites[e := db.invites[e].(usedBy := Some(p.userId))]))
            else None
  }

  /** The account of a pending registration: token or invitation used up, row inserted, code
      dropped; what was used up stays so if the insert fails. */
  function NewAccount(db: Db, p: Pending): (Db, bool) {
    match Consume(db, p)
    case None => (db, false)
    case Some(db1) =>
      match CreateUser(db1, p)
      case None => (db1, false)
      case Some(db2) => (if p.email.Some? then db2.(otp := Clear(db2.otp, p.email.value)) else db2, true)
  }

  // ── Handlers ───────────────────────────────────────────

  function SendCode(st: State, email: string, purpose: Purpose, codeHash: string, now: int): State {
    var due := match purpose
      case Join => !EmailTaken(st.db.users, email) && IsInvited(st.db.invites, email)
      case Login => EmailTaken(st.db.users, email);
    if ValidEmail(email) && due && Cooldown(st.db.otp, email, RESEND_COOLDOWN_SECS, now) <= 0
    then st.(db := st.db.(otp := Put(st.db.otp, email, purpose, codeHash, TTL_SECS, now)))
    else st
  }

  function JoinVerify(st: State, sid: string, email: string, codeHash: string, now: int): (State, bool) {
    var (otp, r) := CheckCode(st.db.otp, email, Join, codeHash, MAX_ATTEMPTS, now);
    var st' := st.(db := st.db.(otp := otp));
    if r == Passed then (st'.(sessions := st.sessions[sid := Sess(st.sessions, sid).(proof := Some(email))]), true)
    else (st', false)
  }

  /** `email` is the row the token's hash leads to. */
  function JoinInvite(st: State, sid: string, email: string, tokenHash: string, now: int): (State, bool) {
    if !IsInvited(st.db.invites, email) || st.db.invites[email].tokenHash != Some(tokenHash) then (st, false)
    else if EmailTaken(st.db.users, email) then (st, false)
    else (State(st.db.(otp := Mark(st.db.otp, email, Join, now)),
                st.sessions[sid := Sess(st.sessions, sid).(proof := Some(email))]), true)
  }

  /** The pending registration a session may start, if any; `newId` is the new account's id. */
  function Pend(db: Db, s: Session, email: Option<string>, token: Option<string>, newId: string,
                now: int): Option<Pending> {
    match s.user
    case Some(uid) =>
      if uid !in db.users then None
      else
        var a := db.users[uid];
        if a.role == Admin && !AdminPowers(s, a) then None
        else if |CredsOf(db.creds, uid)| >= MAX_PASSKEYS_PER_USER then None
        else Some(Pending(uid, a.username, a.email, false, a.role, None))
    case None =>
      if email.None? || !ValidEmail(email.value) || EmailTaken(db.users, email.value) then None
      else
        var e := email.value;
        if |db.users| == 0 then
          if token.None? || !TokenOpen(db.tokens, token.value) then None
          else Some(Pending(newId, e, Some(e), true, Admin, token))
        else if !IsInvited(db.invites, e) then None
        else if s.proof != Some(e) || !RecentlyVerified(db.otp, e, Join, VERIFIED_WINDOW_SECS, now) then None
        else Some(Pending(newId, e, Some(e), true, Member, None))
  }

  /** Leftovers of other flows are cleared even when the start is refused. */
  function RegisterStart(st: State, sid: string, email: Option<string>, token: Option<string>, newId: string,
                         now: int): (State, bool) {
    var s := Sess(st.sessions, sid);
    var p := Pend(st.db, s, email, token, newId, now);
    (st.(sessions := st.sessions[sid := s.(reg := p, disc := false)]), p.Some?)
  }

  function RegisterFinish(st: State, sid: string, verified: bool, cred: string): (State, bool) {
    var s, db := Sess(st.sessions, sid), st.db;
    if s.reg.None? || !RegistrationOwnerOk(s.user, s.reg.value) then (st, false)
    else
      var p := s.reg.value;
      if !p.isNew && (p.userId !in db.users
                      || (db.users[p.userId].role == Admin && !AdminPowers(s, db.users[p.userId]))) then (st, false)
      else if !verified then (st, false)
      else
        var (db1, made) := if p.isNew then NewAccount(db, p) else (db, true);
        if !made then (st.(db := db1), false)
        else
          match AddCredential(db1, cred, p.userId)
          case None => (st.(db := db1), false)
          case Some(db2) =>
            var s' := s.(reg := None, proof := None);
            (State(db2, st.sessions[sid := if p.isNew then s'.(user := Some(p.userId), via := Some(ViaPasskey))
                                    else s']), true)
  }

  function LoginAnyStart(st: State, sid: string): State {
    st.(sessions := st.sessions[sid := Sess(st.sessions, sid).(reg := None, disc := true)])
  }

  /** `uid` is the user handle in the response, `cred` the credential that verified. */
  function LoginAnyFinish(st: State, sid: string, uid: string, cred: string, verified: bool): (State, bool) {
    var s := Sess(st.sessions, sid);
    if !s.disc || uid !in st.db.users || !verified || cred !in st.db.creds || st.db.creds[cred] != uid then (st, false)
    else (st.(sessions := st.sessions[sid := s.(disc := false, user := Some(uid), via := Some(ViaPasskey))]), true)
  }

  /** `uid` is the account the address leads to. */
  function LoginCodeVerify(st: State, sid: string, email: string, uid: string, codeHash: string,
                           now: int): (State, bool) {
    var (otp, r) := CheckCode(st.db.otp, email, Login, codeHash, MAX_ATTEMPTS, now);
    if r != Passed || uid !in st.db.users || st.db.users[uid].email != Some(email)
        then (st.(db := st.db.(otp := otp)), false)
    else (State(st.db.(otp := Clear(otp, email)),
                st.sessions[sid := Sess(st.sessions, sid).(reg := None, disc := false, user := Some(uid),
                                                           via := Some(ViaCode))]), true)
  }

  function SetRole(st: State, sid: string, uid: string, role: Role): State {
    var users := st.db.users;
    if !RequireAdmin(st, sid) || uid !in users then st
    else if users[uid].role == Admin && role == Member && |Admins(users)| <= 1 then st
    else st.(db := st.db.(users := users[uid := users[uid].(role := role)]))
  }

  /** Takes the account's credentials and its invitation along. */
  function DeleteMember(st: State, sid: string, uid: string): State {
    var db := st.db;
    if !RequireAdmin(st, sid) || Sess(st.sessions, sid).user == Some(uid) || uid !in db.users then st
    else if db.users[uid].role == Admin && |Admins(db.users)| <= 1 then st
    else st.(db := db.(users := db.users - {uid}, creds := db.creds - CredsOf(db.creds, uid),
                       invites := map e | e in db.invites && db.invites[e].usedBy != Some(uid) :: db.invites[e]))
  }

  /** Registers an address; a used one stays used and gets no new link. */
  function InviteCreate(st: State, sid: string, email: string, tokenHash: string): State {
    var db := st.db;
    if !RequireAdmin(st, sid) || '@' !in email || EmailTaken(db.users, email) then st
    else
      var usedBy := if email in db.invites then db.invites[email].usedBy else None;
      st.(db := db.(invites := db.invites[email := Invite(if usedBy.None? then Some(tokenHash)
                                                          else None, false, usedBy)]))
  }

  function InviteRevoke(st: State, sid: string, email: string): State {
    var db := st.db;
    if !RequireAdmin(st, sid) || email !in db.invites || db.invites[email].usedBy.Some? then st
    else st.(db := db.(invites := db.invites[email := db.invites[email].(revoked := true, tokenHash := None)]))
  }

  function PasskeyDelete(st: State, sid: string, cred: string): State {
    var s := Sess(st.sessions, sid);
    if s.user.None? || s.user.value !in st.db.users || |CredsOf(st.db.creds, s.user.value)| <= 1 then st
    else if cred !in CredsOf(st.db.creds, s.user.value) then st
    else st.(db := st.db.(creds := st.db.creds - {cred}))
  }

  /** Logging out, and any session the store lets go. */
  function Forget(st: State, sid: string): State {
    st.(sessions := st.sessions - {sid})
  }

  // ── Histories ──────────────────────────────────────────

  datatype Op = SendOp(email: string, purpose: Purpose, codeHash: string)
              | JoinVerifyOp(sid: string, email: string, codeHash: string)
              | JoinInviteOp(sid: string, email: string, tokenHash: string)
              | RegisterStartOp(sid: string, address: Option<string>, token: Option<string>, newId: string)
              | RegisterFinishOp(sid: string, verified: bool, cred: string)
              | LoginAnyStartOp(sid: string)
              | LoginAnyFinishOp(sid: string, uid: string, verified: bool, cred: string)
              | LoginCodeOp(sid: string, email: string, uid: string, codeHash: string)
              | ForgetOp(sid: string)
              | SetRoleOp(sid: string, uid: string, role: Role)
              | DeleteOp(sid: string, uid: string)
              | InviteOp(sid: string, email: string, tokenHash: string)
              | RevokeOp(sid: string, email: string)
              | PasskeyDeleteOp(sid: string, cred: string)

  datatype Event = Event(now: int, op: Op)

  /** The state, and every account id handed out so far. */
  datatype World = World(st: State, issued: set<string>)

  function Apply(w: World, x: Event): World {
    var st := w.st;
    match x.op
    case SendOp(email, purpose, h) => w.(st := SendCode(st, email, purpose, h, x.now))
    case JoinVerifyOp(sid, email, h) => w.(st := JoinVerify(st, sid, email, h, x.now).0)
    case JoinInviteOp(sid, email, h) => w.(st := JoinInvite(st, sid, email, h, x.now).0)
    case RegisterStartOp(sid, email, token, newId) =>
      World(RegisterStart(st, sid, email, token, newId, x.now).0, w.issued + {newId})
    case RegisterFinishOp(sid, verified, cred) => w.(st := RegisterFinish(st, sid, verified, cred).0)
    case LoginAnyStartOp(sid) => w.(st := LoginAnyStart(st, sid))
    case LoginAnyFinishOp(sid, uid, verified, cred) => w.(st := LoginAnyFinish(st, sid, uid, cred, verified).0)
    case LoginCodeOp(sid, email, uid, h) => w.(st := LoginCodeVerify(st, sid, email, uid, h, x.now).0)
    case ForgetOp(sid) => w.(st := Forget(st, sid))
    case SetRoleOp(sid, uid, role) => w.(st := SetRole(st, sid, uid, role))
    case DeleteOp(sid, uid) => w.(st := DeleteMember(st, sid, uid))
    case InviteOp(sid, email, h) => w.(st := InviteCreate(st, sid, email, h))
    case RevokeOp(sid, email) => w.(st := InviteRevoke(st, sid, email))
    case PasskeyDeleteOp(sid, cred) => w.(st := PasskeyDelete(st, sid, cred))
  }

  /** Account ids are random and never repeat. */
  predicate Proper(w: World, op: Op) {
    op.RegisterStartOp? ==> op.newId !in w.issued
  }

  /** First start: no account, one bootstrap token in the log. */
  function Start(token: string): World {
    World(State(Db(map[], map[], map[], map[], map[token := false]), map[]), {})
  }

  ghost predicate Run(ws: seq<World>, es: seq<Event>, token: string) {
    && |ws| == |es| + 1 && ws[0] == Start(token)
    && forall i :: 0 <= i < |es| ==> Proper(ws[i], es[i].op) && ws[i + 1] == Apply(ws[i], es[i])
  }
}
