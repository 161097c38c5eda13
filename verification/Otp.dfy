/** One-time codes sent by mail: the `email_otp` table and what its attempt counter and its
    verification mark guarantee over any history of calls. */
module Otp {
  import opened Text

  datatype Purpose = Join | Login

  datatype Row = Row(codeHash: string, expiresAt: int, attempts: int, sentAt: int, verifiedAt: Option<int>,
                     purpose: Purpose)

  /** Keyed by normalised address. */
  type Table = map<string, Row>

  datatype Check = Passed | Wrong | Expired | TooManyAttempts

  /** Addresses are stored trimmed and in lower case. */
  function Norm(s: string): string {
    Lower(Trim(s))
  }

  /** An address is stored in lower case, without the white space around it. */
  lemma NormMeans(w: string, address: string, v: string)
    requires White(w) && White(v) && address != "" && !IsWhitespace(address[0]) && !IsWhitespace(Last(address))
    ensures Norm(w + (address + v)) == Lower(address)
  {
    assert (address + v)[0] == address[0];
    TrimStartMeans(w, address + v);
    TrimEndMeans(address, v);
  }

  // The functions below take addresses already normalised.

  function Put(t: Table, e: string, purpose: Purpose, codeHash: string, ttl: int, now: int): Table {
    t[e := Row(codeHash, now + ttl, 0, now, None, purpose)]
  }

  /** Expiry is judged before the attempt limit; a row of the other purpose counts as none. */
  function CheckCode(t: Table, e: string, purpose: Purpose, codeHash: string, maxAttempts: int,
                     now: int): (Table, Check) {
    if e !in t || t[e].purpose != purpose then (t, Expired)
    else if t[e].expiresAt <= now then (t, Expired)
    else if t[e].attempts >= maxAttempts then (t, TooManyAttempts)
    else if t[e].codeHash != codeHash then (t[e := t[e].(attempts := t[e].attempts + 1)], Wrong)
    else (t[e := t[e].(verifiedAt := Some(now))], Passed)
  }

  /** Marked by an invitation link: no code can match and the row counts as expired; the
      cooldown basis of an existing row stays. */
  function Mark(t: Table, e: string, purpose: Purpose, now: int): Table {
    t[e := Row("-", 0, 0, if e in t then t[e].sentAt else 0, Some(now), purpose)]
  }

  function Clear(t: Table, e: string): Table {
    t - {e}
  }

  predicate RecentlyVerified(t: Table, e: string, purpose: Purpose, windowSecs: int, now: int) {
    e in t && t[e].purpose == purpose && t[e].verifiedAt.Some? && now - t[e].verifiedAt.value <= windowSecs
  }

  /** Seconds until a code may be sent again. */
  function Cooldown(t: Table, e: string, cooldownSecs: int, now: int): int {
    if e in t && t[e].sentAt + cooldownSecs - now > 0 then t[e].sentAt + cooldownSecs - now else 0
  }

  class OtpTable {
    var rows: Table

    constructor ()
      ensures rows == map[]
    {
      rows := map[];
    }

    method PutOtp(email: string, purpose: Purpose, codeHash: string, ttl: int, now: int)
      modifies this
      ensures rows == Put(old(rows), Norm(email), purpose, codeHash, ttl, now)
    {
      rows := rows[Norm(email) := Row(codeHash, now + ttl, 0, now, None, purpose)];
    }

    method CheckOtp(email: string, purpose: Purpose, codeHash: string, maxAttempts: int, now: int) returns (r: Check)
      modifies this
      ensures (rows, r) == CheckCode(old(rows), Norm(email), purpose, codeHash, maxAttempts, now)
    {
      var e := Norm(email);
      if e !in rows || rows[e].purpose != purpose {
        return Expired;
      }
      var row := rows[e];
      if row.expiresAt <= now {
        return Expired;
      }
      if row.attempts >= maxAttempts {
        return TooManyAttempts;
      }
      if row.codeHash != codeHash {
        rows := rows[e := row.(attempts := row.attempts + 1)];
        return Wrong;
      }
      rows := rows[e := row.(verifiedAt := Some(now))];
      r := Passed;
    }

    method MarkEmailVerified(email: string, purpose: Purpose, now: int)
      modifies this
      ensures rows == Mark(old(rows), Norm(email), purpose, now)
    {
      var e := Norm(email);
      if e in rows {
        rows := rows[e := rows[e].(codeHash := "-", expiresAt := 0, attempts := 0, verifiedAt := Some(now),
                                   purpose := purpose)];
      } else {
        rows := rows[e := Row("-", 0, 0, 0, Some(now), purpose)];
      }
    }

    method ClearOtp(email: string)
      modifies this
      ensures rows == Clear(old(rows), Norm(email))
    {
      rows := rows - {Norm(email)};
    }
  }

  // ── Every run ──────────────────────────────────────────

  datatype Op = PutOp(purpose: Purpose, codeHash: string, ttl: int)
              | CheckOp(purpose: Purpose, codeHash: string, answer: Check)
              | MarkOp(purpose: Purpose)
              | ClearOp

  /** A call on a normalised address, with the clock it read. */
  datatype Event = Event(email: string, now: int, op: Op)

  ghost predicate Next(t: Table, x: Event, t': Table, maxAttempts: int) {
    match x.op
    case PutOp(p, h, ttl) => t' == Put(t, x.email, p, h, ttl, x.now)
    case CheckOp(p, h, answer) => (t', answer) == CheckCode(t, x.email, p, h, maxAttempts, x.now)
    case MarkOp(p) => t' == Mark(t, x.email, p, x.now)
    case ClearOp => t' == Clear(t, x.email)
  }

  /** A run from the empty table; the clock counts seconds since 1970. */
  ghost predicate Run(ts: seq<Table>, es: seq<Event>, maxAttempts: int) {
    && |ts| == |es| + 1 && ts[0] == map[]
    && forall i :: 0 <= i < |es| ==> es[i].now >= 0 && Next(ts[i], es[i], ts[i + 1], maxAttempts)
  }

  /** Wrong answers for `email` since the last code was put for it. */
  function WrongSincePut(es: seq<Event>, email: string): nat {
    if es == [] then 0
    else
      var x, n := Last(es), WrongSincePut(Front(es), email);
      if x.email != email then n
      else if x.op.PutOp? then 0
      else if x.op.CheckOp? && x.op.answer == Wrong then n + 1
      else n
  }

  /** A code that can still be tried has been tried wrongly exactly as often as its row says. */
  ghost predicate Counted(t: Table, email: string, wrongs: nat, maxAttempts: int) {
    && (email in t && t[email].expiresAt > 0 ==> t[email].attempts == wrongs)
    && wrongs <= if maxAttempts < 0 then 0 else maxAttempts
  }

  lemma {:induction false} AlwaysCounted(ts: seq<Table>, es: seq<Event>, maxAttempts: int, email: string, i: nat)
    requires Run(ts, es, maxAttempts) && i <= |es|
    ensures Counted(ts[i], email, WrongSincePut(es[..i], email), maxAttempts)
  {
    if i > 0 {
      AlwaysCounted(ts, es, maxAttempts, email, i - 1);
      assert Front(es[..i]) == es[..i - 1] && Last(es[..i]) == es[i - 1];
      assert Next(ts[i - 1], es[i - 1], ts[i], maxAttempts);
    }
  }

  /** Between two puts for an address at most `maxAttempts` checks answer Wrong; and once
      that many have, no check answers Passed, whatever the code. */
  lemma GuessesAreBounded(ts: seq<Table>, es: seq<Event>, maxAttempts: int, i: nat)
    requires Run(ts, es, maxAttempts) && i < |es| && es[i].op.CheckOp?
    ensures var n := WrongSincePut(es[..i], es[i].email);
            && n <= (if maxAttempts < 0 then 0 else maxAttempts)
            && (n >= maxAttempts ==> es[i].op.answer != Passed && es[i].op.answer != Wrong)
  {
    AlwaysCounted(ts, es, maxAttempts, es[i].email, i);
    assert Next(ts[i], es[i], ts[i + 1], maxAttempts);
  }

  /** Event `j` put a code, and before event `i` nothing but checks touched that address. */
  ghost predicate CodeStands(es: seq<Event>, j: nat, i: nat)
    requires j < i <= |es|
  {
    es[j].op.PutOp? && forall k :: j < k < i && es[k].email == es[j].email ==> es[k].op.CheckOp?
  }

  lemma {:induction false} RowSincePut(ts: seq<Table>, es: seq<Event>, maxAttempts: int, j: nat, i: nat)
    requires Run(ts, es, maxAttempts) && j < i <= |es| && CodeStands(es, j, i)
    ensures var e, op := es[j].email, es[j].op;
            && e in ts[i] && ts[i][e].codeHash == op.codeHash && ts[i][e].purpose == op.purpose
            && ts[i][e].expiresAt == es[j].now + op.ttl
  {
    if i > j + 1 {
      RowSincePut(ts, es, maxAttempts, j, i - 1);
    }
    assert Next(ts[i - 1], es[i - 1], ts[i], maxAttempts);
  }

  /** A code stands for the address before event `i`. */
  ghost predicate SomeCodeStands(es: seq<Event>, i: nat, email: string)
    requires i <= |es|
  {
    exists j: nat :: j < i && es[j].email == email && CodeStands(es, j, i)
  }

  lemma {:induction false} NoCodeNoRow(ts: seq<Table>, es: seq<Event>, maxAttempts: int, i: nat, email: string)
    requires Run(ts, es, maxAttempts) && i <= |es| && !SomeCodeStands(es, i, email)
    ensures email !in ts[i] || ts[i][email].expiresAt <= 0
  {
    if i > 0 {
      assert Next(ts[i - 1], es[i - 1], ts[i], maxAttempts);
      if es[i - 1].email == email && es[i - 1].op.PutOp? {
        assert CodeStands(es, i - 1, i);
      } else if es[i - 1].email != email || es[i - 1].op.CheckOp? {
        forall j: nat | j < i - 1 && es[j].email == email
          ensures !CodeStands(es, j, i - 1)
        {
          assert !CodeStands(es, j, i);
        }
        NoCodeNoRow(ts, es, maxAttempts, i - 1, email);
      }
    }
  }

  /** Where no code stands, because none was put, or it was cleared or replaced by the mark of a
      link, every check answers Expired, whatever the code. */
  lemma NoCodeNeverPasses(ts: seq<Table>, es: seq<Event>, maxAttempts: int, i: nat)
    requires Run(ts, es, maxAttempts) && i < |es| && es[i].op.CheckOp? && !SomeCodeStands(es, i, es[i].email)
    ensures es[i].op.answer == Expired
  {
    NoCodeNoRow(ts, es, maxAttempts, i, es[i].email);
    assert Next(ts[i], es[i], ts[i + 1], maxAttempts);
  }

  /** While a code stands, a check passes exactly with that code, for its purpose, before its
      expiry, and with fewer than `maxAttempts` wrong answers since. Otherwise it says why not:
      Expired for the wrong purpose or too late, then TooManyAttempts, then Wrong. */
  lemma RightCodePasses(ts: seq<Table>, es: seq<Event>, maxAttempts: int, j: nat, i: nat)
    requires Run(ts, es, maxAttempts) && j < i < |es| && CodeStands(es, j, i)
    requires es[i].op.CheckOp? && es[i].email == es[j].email
    ensures var put, check := es[j].op, es[i].op;
            var expired := check.purpose != put.purpose || es[i].now >= es[j].now + put.ttl;
            var spent := WrongSincePut(es[..i], es[i].email) >= maxAttempts;
            && (check.answer == Passed <==> !expired && !spent && check.codeHash == put.codeHash)
            && (check.answer == Wrong <==> !expired && !spent && check.codeHash != put.codeHash)
            && (check.answer == TooManyAttempts <==> !expired && spent)
  {
    RowSincePut(ts, es, maxAttempts, j, i);
    AlwaysCounted(ts, es, maxAttempts, es[i].email, i);
    assert Next(ts[i], es[i], ts[i + 1], maxAttempts);
  }

  // ── Sending again ──────────────────────────────────────

  /** Event `j` put the last code for the address, and nothing has cleared it since. */
  ghost predicate LastSend(es: seq<Event>, j: nat, email: string)
    requires j < |es|
  {
    es[j].email == email && es[j].op.PutOp?
        && forall k :: j < k < |es| && es[k].email == email ==> es[k].op.CheckOp? || es[k].op.MarkOp?
  }

  lemma {:induction false} SentAtMeans(ts: seq<Table>, es: seq<Event>, maxAttempts: int, email: string)
      returns (j: nat)
    requires Run(ts, es, maxAttempts)
    ensures j < |es| ==> LastSend(es, j, email) && email in Last(ts) && Last(ts)[email].sentAt == es[j].now
    ensures j >= |es| ==> (forall k: nat :: k < |es| ==> !LastSend(es, k, email))
                          && (email in Last(ts) ==> Last(ts)[email].sentAt == 0)
  {
    if es == [] {
      return 0;
    }
    var n := |es| - 1;
    assert Run(ts[..n + 1], es[..n], maxAttempts);
    j := SentAtMeans(ts[..n + 1], es[..n], maxAttempts, email);
    assert Next(ts[n], es[n], ts[n + 1], maxAttempts);
    if es[n].email == email && es[n].op.PutOp? {
      return n;
    }
    forall k: nat | k < n
      ensures LastSend(es, k, email)
              <==> LastSend(es[..n], k, email) && !(es[n].email == email && es[n].op.ClearOp?)
    {
      assert es[..n][k] == es[k];
    }
    if j == n || (es[n].email == email && es[n].op.ClearOp?) {
      return |es|;
    }
  }

  /** The wait before the next code is what is left of `cooldownSecs` since the last one was put;
      no wait if there was none or it was cleared. A link's mark neither starts nor ends it. */
  lemma CooldownMeans(ts: seq<Table>, es: seq<Event>, maxAttempts: int, email: string, cooldownSecs: int, now: int)
    requires Run(ts, es, maxAttempts) && cooldownSecs <= now
    ensures var wait := Cooldown(Last(ts), email, cooldownSecs, now);
            && ((forall j: nat :: j < |es| ==> !LastSend(es, j, email)) ==> wait == 0)
            && forall j: nat :: j < |es| && LastSend(es, j, email) ==>
                 var left := es[j].now + cooldownSecs - now;
                 wait == if left > 0 then left else 0
  {
    var j := SentAtMeans(ts, es, maxAttempts, email);
    forall k: nat | k < |es| && LastSend(es, k, email)
      ensures j == k
    {
      OneLastSend(es, j, k, email);
    }
  }

  lemma OneLastSend(es: seq<Event>, j: nat, k: nat, email: string)
    requires k < |es| && LastSend(es, k, email)
    ensures j < |es| && LastSend(es, j, email) ==> j == k
  {
  }

  // ── Recently verified ──────────────────────────────────

  /** The event proves the address for `p`: a check passed or a link marked it. */
  predicate Proves(x: Event, email: string, p: Purpose) {
    x.email == email
        && ((x.op.CheckOp? && x.op.purpose == p && x.op.answer == Passed) || (x.op.MarkOp? && x.op.purpose == p))
  }

  /** The event puts, clears or proves the address. */
  predicate Touches(x: Event, email: string) {
    x.email == email && (x.op.PutOp? || x.op.ClearOp? || Proves(x, email, Join) || Proves(x, email, Login))
  }

  /** Event `i` proved `p` and is the last that touched the proof of `email`. */
  ghost predicate Stands(es: seq<Event>, i: nat, email: string, p: Purpose)
    requires i < |es|
  {
    Proves(es[i], email, p) && forall j :: i < j < |es| ==> !Touches(es[j], email)
  }

  /** The mark in the table is the standing proof. */
  ghost predicate MarkIs(es: seq<Event>, t: Table, email: string, p: Purpose) {
    if email in t && t[email].verifiedAt.Some? && t[email].purpose == p then
      exists i :: 0 <= i < |es| && Stands(es, i, email, p) && es[i].now == t[email].verifiedAt.value
    else
      forall i :: 0 <= i < |es| ==> !Stands(es, i, email, p)
  }

  lemma StandsLonger(es: seq<Event>, x: Event, email: string, p: Purpose)
    ensures forall i :: 0 <= i < |es| ==>
              (Stands(es + [x], i, email, p) <==> Stands(es, i, email, p) && !Touches(x, email))
    ensures Stands(es + [x], |es|, email, p) <==> Proves(x, email, p)
  {
    var fs := es + [x];
    assert forall i :: 0 <= i < |es| ==> fs[i] == es[i];
    forall i | 0 <= i < |es|
      ensures Stands(fs, i, email, p) <==> Stands(es, i, email, p) && !Touches(x, email)
    {
      if Stands(fs, i, email, p) {
        assert fs[|es|] == x;
      }
    }
  }

  lemma NextMark(t: Table, x: Event, t': Table, maxAttempts: int, es: seq<Event>, email: string, p: Purpose)
    requires Next(t, x, t', maxAttempts) && MarkIs(es, t, email, p)
    ensures MarkIs(es + [x], t', email, p)
  {
    var fs := es + [x];
    StandsLonger(es, x, email, p);
    if Proves(x, email, p) {
      assert Stands(fs, |es|, email, p) && fs[|es|].now == t'[email].verifiedAt.value;
    } else if !Touches(x, email) && email in t && t[email].verifiedAt.Some? && t[email].purpose == p {
      var i :| 0 <= i < |es| && Stands(es, i, email, p) && es[i].now == t[email].verifiedAt.value;
      assert Stands(fs, i, email, p) && fs[i] == es[i];
    }
  }

  lemma {:induction false} AlwaysMark(ts: seq<Table>, es: seq<Event>, maxAttempts: int, email: string, p: Purpose,
                                      i: nat)
    requires Run(ts, es, maxAttempts) && i <= |es|
    ensures MarkIs(es[..i], ts[i], email, p)
  {
    if i > 0 {
      AlwaysMark(ts, es, maxAttempts, email, p, i - 1);
      NextMark(ts[i - 1], es[i - 1], ts[i], maxAttempts, es[..i - 1], email, p);
      assert es[..i] == es[..i - 1] + [es[i - 1]];
    }
  }

  /** `otp_recently_verified(p)` holds exactly when a check for `p` passed or a link marked `p`
      within the window, and nothing put, cleared or proved that address again since. */
  lemma RecentlyVerifiedMeans(ts: seq<Table>, es: seq<Event>, maxAttempts: int, email: string, p: Purpose,
                              windowSecs: int, now: int)
    requires Run(ts, es, maxAttempts)
    ensures RecentlyVerified(Last(ts), email, p, windowSecs, now)
            <==> exists i :: 0 <= i < |es| && Stands(es, i, email, p) && now - es[i].now <= windowSecs
  {
    AlwaysMark(ts, es, maxAttempts, email, p, |es|);
    assert es[..|es|] == es;
    forall i, j | 0 <= i < j < |es| && Stands(es, i, email, p)
      ensures !Stands(es, j, email, p)
    {
      assert !Touches(es[j], email);
    }
  }
}
