/** Reading an `Authentication-Results` header: normalising away comments and the
    structure inside quoted strings, then collecting the passing domains. */
module AuthResults {
  import opened Text

  // ── strip_cfws: a three-variable character transducer ──

  datatype Scan = Scan(depth: nat, quoted: bool, esc: bool)

  const START := Scan(0, false, false)
  const IN_QUOTES := Scan(0, true, false)

  /** The characters that could open a segment or a token inside a quoted string. */
  predicate IsStructure(c: char) {
    c == ';' || c == ' ' || c == '\t' || c == '\r' || c == '\n'
  }

  /** One character: the next state and what is written. */
  function Step(s: Scan, c: char): (Scan, string) {
    if s.esc then (s.(esc := false), if s.depth == 0 then "_" else "")
    else if c == '\\' && s.quoted then (s.(esc := true), "")
    else if c == '"' && s.depth == 0 then (s.(quoted := !s.quoted), "\"")
    else if c == '(' && !s.quoted then (s.(depth := s.depth + 1), if s.depth == 0 then " " else "")
    else if c == ')' && !s.quoted then (s.(depth := if s.depth == 0 then 0 else s.depth - 1), "")
    else if IsStructure(c) && s.quoted && s.depth == 0 then (s, "")
    else if s.depth == 0 then (s, [c])
    else (s, "")
  }

  function Run(s: Scan, t: string): Scan
    decreases t
  {
    if t == "" then s else Run(Step(s, t[0]).0, t[1..])
  }

  function Emit(s: Scan, t: string): string
    decreases t
  {
    if t == "" then "" else Step(s, t[0]).1 + Emit(Step(s, t[0]).0, t[1..])
  }

  function Strip(raw: string): string {
    Emit(START, raw)
  }

  lemma {:induction false} RunConcat(s: Scan, a: string, b: string)
    ensures Run(s, a + b) == Run(Run(s, a), b)
    ensures Emit(s, a + b) == Emit(s, a) + Emit(Run(s, a), b)
    decreases a
  {
    if a == "" {
      assert a + b == b;
    } else {
      var s', e := Step(s, a[0]).0, Step(s, a[0]).1;
      RunConcat(s', a[1..], b);
      assert (a + b)[1..] == a[1..] + b && (a + b)[0] == a[0];
      Assoc3(e, Emit(s', a[1..]), Emit(Run(s', a[1..]), b));
    }
  }

  lemma RunCons(s: Scan, c: char, t: string)
    ensures Run(s, [c] + t) == Run(Step(s, c).0, t)
    ensures Emit(s, [c] + t) == Step(s, c).1 + Emit(Step(s, c).0, t)
  {
  }

  /** `strip_cfws` as the source writes it: one pass, three variables and a buffer. */
  method StripCfws(raw: string) returns (out: string)
    ensures out == Strip(raw)
  {
    out := "";
    var depth: nat, quoted, esc := 0, false, false;
    for i := 0 to |raw|
      invariant Run(START, raw[..i]) == Scan(depth, quoted, esc)
      invariant Emit(START, raw[..i]) == out
    {
      var c := raw[i];
      RunConcat(START, raw[..i], [c]);
      assert raw[..i + 1] == raw[..i] + [c];
      if esc {
        esc := false;
        if depth == 0 { out := out + "_"; }
        continue;
      }
      if c == '\\' && quoted {
        esc := true;
      } else if c == '"' && depth == 0 {
        quoted := !quoted;
        out := out + "\"";
      } else if c == '(' && !quoted {
        if depth == 0 { out := out + " "; }
        depth := depth + 1;
      } else if c == ')' && !quoted {
        depth := if depth == 0 then 0 else depth - 1;
      } else if (c == ';' || c == ' ' || c == '\t' || c == '\r' || c == '\n') && quoted && depth == 0 {
      } else if depth == 0 {
        out := out + [c];
      }
    }
    assert raw[..|raw|] == raw;
  }

  /** Quotes open only outside comments, escapes only inside quotes. */
  predicate WellFormed(s: Scan) {
    (s.quoted ==> s.depth == 0) && (s.esc ==> s.quoted)
  }

  lemma {:induction false} RunWellFormed(s: Scan, t: string)
    requires WellFormed(s)
    ensures WellFormed(Run(s, t))
    decreases t
  {
    if t != "" {
      RunWellFormed(Step(s, t[0]).0, t[1..]);
    }
  }

  lemma StepAgain(s: Scan, c: char)
    requires WellFormed(s)
    ensures var again, e := Scan(0, s.quoted, false), Step(s, c).1;
            Run(again, e) == Scan(0, Step(s, c).0.quoted, false) && Emit(again, e) == e
  {
    var e := Step(s, c).1;
    if e != "" {
      assert e[1..] == "";
    }
  }

  /** A second pass agrees with the first about what is quoted and changes nothing. */
  lemma {:induction false} SecondPass(s: Scan, t: string)
    requires WellFormed(s)
    ensures Emit(Scan(0, s.quoted, false), Emit(s, t)) == Emit(s, t)
    decreases t
  {
    if t != "" {
      SecondPass(Step(s, t[0]).0, t[1..]);
      StepAgain(s, t[0]);
      RunConcat(Scan(0, s.quoted, false), Step(s, t[0]).1, Emit(Step(s, t[0]).0, t[1..]));
    }
  }

  lemma StripIdempotent(raw: string)
    ensures Strip(Strip(raw)) == Strip(raw)
  {
    SecondPass(START, raw);
  }

  // ── Reading the verdicts ───────────────────────────────

  datatype Verdicts = Verdicts(dkim: seq<string>, dmarc: Option<string>)

  const NOTHING := Verdicts([], None)
  const DKIM_KEY := "header.d="
  const DMARC_KEY := "header.from="

  /** `method [ "/" version ] "=" result`, and the result is exactly `pass`. */
  predicate IsPass(token: string, mechanism: string) {
    var eq := Find(token, '=');
    eq < |token| && token[..eq][..Find(token[..eq], '/')] == mechanism && token[eq + 1..] == "pass"
  }

  predicate IsQuoteMark(c: char) {
    c == '"' || c == '\''
  }

  predicate IsDomainChar(c: char) {
    IsAsciiAlphanumeric(c) || c == '.' || c == '-'
  }

  function SkipQuoteMarks(s: string): string {
    if s != "" && IsQuoteMark(s[0]) then SkipQuoteMarks(s[1..]) else s
  }

  function TakeDomain(s: string): (r: string)
    ensures r <= s
    ensures forall c :: c in r ==> IsDomainChar(c)
    ensures r == s || !IsDomainChar(s[|r|])
  {
    if s != "" && IsDomainChar(s[0]) then [s[0]] + TakeDomain(s[1..]) else ""
  }

  function TrimDots(s: string): (r: string)
    ensures r <= s
    ensures r != "" ==> Last(r) != '.'
    ensures forall i :: |r| <= i < |s| ==> s[i] == '.'
  {
    if s != "" && Last(s) == '.' then TrimDots(Front(s)) else s
  }

  /** The domain a property value names; trailing dots are dropped, nothing left means no domain. */
  function DomainValue(raw: string): (r: Option<string>)
    ensures r.Some? ==> r.value != "" && Last(r.value) != '.' && forall c :: c in r.value ==> IsDomainChar(c)
  {
    var v := TrimDots(TakeDomain(SkipQuoteMarks(raw)));
    if v == "" then None else Some(v)
  }

  ghost predicate QuoteMark(c: char) {
    c in "\"'"
  }

  ghost predicate InDomain(c: char) {
    'a' <= c <= 'z' || 'A' <= c <= 'Z' || '0' <= c <= '9' || c in ".-"
  }

  /** A value cut into its leading quotation marks, the longest run of domain characters after
      them with its trailing dots apart, and the rest. */
  ghost predicate DomainCut(raw: string, marks: string, domain: string, dots: string, rest: string) {
    && raw == marks + ((domain + dots) + rest)
    && (forall c :: c in marks ==> QuoteMark(c))
    && (domain + dots + rest != "" ==> !QuoteMark((domain + dots + rest)[0]))
    && (forall c :: c in domain + dots ==> InDomain(c)) && (rest != "" ==> !InDomain(rest[0]))
    && (domain != "" ==> Last(domain) != '.') && forall c :: c in dots ==> c == '.'
  }

  lemma MarksAndLetters(c: char)
    ensures IsQuoteMark(c) <==> QuoteMark(c)
    ensures IsDomainChar(c) <==> InDomain(c)
  {
  }

  lemma {:induction false} SkipMeans(marks: string, rest: string)
    requires (forall c :: c in marks ==> IsQuoteMark(c)) && (rest != "" ==> !IsQuoteMark(rest[0]))
    ensures SkipQuoteMarks(marks + rest) == rest
  {
    if marks == "" {
      assert marks + rest == rest;
    } else {
      SkipMeans(marks[1..], rest);
      assert (marks + rest)[1..] == marks[1..] + rest && marks[0] in marks;
    }
  }

  lemma {:induction false} TakeMeans(run: string, rest: string)
    requires (forall c :: c in run ==> IsDomainChar(c)) && (rest != "" ==> !IsDomainChar(rest[0]))
    ensures TakeDomain(run + rest) == run
  {
    if run == "" {
      assert run + rest == rest;
    } else {
      TakeMeans(run[1..], rest);
      assert (run + rest)[1..] == run[1..] + rest && run[0] in run;
    }
  }

  lemma {:induction false} TrimMeans(domain: string, dots: string)
    requires (forall c :: c in dots ==> c == '.') && (domain != "" ==> Last(domain) != '.')
    ensures TrimDots(domain + dots) == domain
  {
    if dots == "" {
      assert domain + dots == domain;
    } else {
      assert forall c :: c in Front(dots) ==> c in dots;
      TrimMeans(domain, Front(dots));
      assert Front(domain + dots) == domain + Front(dots) && Last(dots) in dots;
    }
  }

  /** The domain is what stands between the leading quotation marks and the trailing dots of the
      run; nothing there means no domain. */
  lemma DomainValueMeans(raw: string, marks: string, domain: string, dots: string, rest: string)
    requires DomainCut(raw, marks, domain, dots, rest)
    ensures DomainValue(raw) == if domain == "" then None else Some(domain)
  {
    forall c {
      MarksAndLetters(c);
    }
    SkipMeans(marks, (domain + dots) + rest);
    TakeMeans(domain + dots, rest);
    TrimMeans(domain, dots);
  }

  lemma MarksExist(raw: string) returns (marks: string, rest: string)
    ensures raw == marks + rest && (forall c :: c in marks ==> IsQuoteMark(c)) && (rest != "" ==> !IsQuoteMark(rest[0]))
  {
    if raw == "" || !IsQuoteMark(raw[0]) {
      marks, rest := "", raw;
    } else {
      marks, rest := MarksExist(raw[1..]);
      marks := [raw[0]] + marks;
    }
  }

  lemma CutHolds(raw: string, marks: string, tail: string, run: string)
    requires raw == marks + tail && (forall c :: c in marks ==> IsQuoteMark(c))
             && (tail != "" ==> !IsQuoteMark(tail[0]))
    requires run == TakeDomain(tail)
    ensures DomainCut(raw, marks, TrimDots(run), run[|TrimDots(run)|..], tail[|run|..])
  {
    var domain, dots, rest := TrimDots(run), run[|TrimDots(run)|..], tail[|run|..];
    forall c {
      MarksAndLetters(c);
    }
    assert domain + dots == run && run + rest == tail;
  }

  /** Every value has such a cut. */
  lemma DomainCutExists(raw: string) returns (marks: string, domain: string, dots: string, rest: string)
    ensures DomainCut(raw, marks, domain, dots, rest)
  {
    var tail: string;
    marks, tail := MarksExist(raw);
    var run := TakeDomain(tail);
    CutHolds(raw, marks, tail, run);
    domain, dots, rest := TrimDots(run), run[|TrimDots(run)|..], tail[|run|..];
  }

  /** The first token that begins with `key`, without the key. */
  function FindProperty(tokens: seq<string>, key: string): Option<string> {
    if tokens == [] then None
    else if StartsWith(tokens[0], key) then Some(tokens[0][|key|..])
    else FindProperty(tokens[1..], key)
  }

  function PropertyDomain(tokens: seq<string>, key: string): Option<string> {
    match FindProperty(tokens, key)
    case None => None
    case Some(v) => DomainValue(v)
  }

  /** What one segment says about `mechanism`: its first token must be the verdict. */
  function VerdictOf(tokens: seq<string>, mechanism: string, key: string): Option<string> {
    if tokens != [] && IsPass(tokens[0], mechanism) then PropertyDomain(tokens, key) else None
  }

  function DkimOf(seg: string): Option<string> {
    VerdictOf(Tokens(seg), "dkim", DKIM_KEY)
  }

  function DmarcOf(seg: string): Option<string> {
    VerdictOf(Tokens(seg), "dmarc", DMARC_KEY)
  }

  function AddSegment(acc: Verdicts, seg: string): Verdicts {
    var d := DkimOf(seg);
    Verdicts(if d.Some? && d.value !in acc.dkim then acc.dkim + [d.value] else acc.dkim,
             if acc.dmarc.None? then DmarcOf(seg) else acc.dmarc)
  }

  function Collect(segs: seq<string>): Verdicts {
    if segs == [] then NOTHING else AddSegment(Collect(Front(segs)), Last(segs))
  }

  function Segments(normalised: string): seq<string> {
    Fields(normalised, IsSemicolon)
  }

  /** What `parse_auth_results` reads out of a header value. */
  function Parse(raw: string): Verdicts {
    Collect(Segments(Lower(Strip(raw))))
  }

  /** `parse_auth_results` as the source writes it. */
  method ParseAuthResults(raw: string) returns (dkim: seq<string>, dmarc: Option<string>)
    ensures Verdicts(dkim, dmarc) == Parse(raw)
  {
    var stripped := StripCfws(raw);
    var segs := Segments(Lower(stripped));
    dkim, dmarc := [], None;
    for i := 0 to |segs|
      invariant Verdicts(dkim, dmarc) == Collect(segs[..i])
    {
      assert Front(segs[..i + 1]) == segs[..i];
      var tokens := Tokens(segs[i]);
      if tokens == [] {
        continue;
      }
      if IsPass(tokens[0], "dkim") {
        var d := PropertyDomain(tokens, DKIM_KEY);
        if d.Some? && d.value !in dkim {
          dkim := dkim + [d.value];
        }
      }
      if IsPass(tokens[0], "dmarc") && dmarc.None? {
        dmarc := PropertyDomain(tokens, DMARC_KEY);
      }
    }
    assert segs[..|segs|] == segs;
  }

  // ── What the verdicts mean ─────────────────────────────

  ghost predicate Distinct<T>(s: seq<T>) {
    forall i, j :: 0 <= i < j < |s| ==> s[i] != s[j]
  }

  function DkimsOf(segs: seq<string>): seq<Option<string>> {
    seq(|segs|, i requires 0 <= i < |segs| => DkimOf(segs[i]))
  }

  function DmarcsOf(segs: seq<string>): seq<Option<string>> {
    seq(|segs|, i requires 0 <= i < |segs| => DmarcOf(segs[i]))
  }

  /** Declaratively: the domains listed are exactly those some segment passes, once each. */
  lemma {:induction false} DkimMeans(segs: seq<string>)
    ensures Distinct(Collect(segs).dkim)
    ensures forall d :: d in Collect(segs).dkim <==> Some(d) in DkimsOf(segs)
  {
    if segs != [] {
      DkimMeans(Front(segs));
      assert DkimsOf(segs) == DkimsOf(Front(segs)) + [DkimOf(Last(segs))];
    }
  }

  /** `d` is the first domain in the list, or the list has none. */
  ghost predicate FirstOf(ds: seq<Option<string>>, d: Option<string>) {
    match d
    case None => forall i :: 0 <= i < |ds| ==> ds[i] == None
    case Some(_) => exists i :: 0 <= i < |ds| && ds[i] == d && forall j :: 0 <= j < i ==> ds[j] == None
  }

  lemma FirstOfLonger(ds: seq<Option<string>>, last: Option<string>, d: Option<string>)
    requires FirstOf(ds, d)
    ensures FirstOf(ds + [last], if d.Some? then d else last)
  {
    var es := ds + [last];
    if d.Some? {
      var i :| 0 <= i < |ds| && ds[i] == d && forall j :: 0 <= j < i ==> ds[j] == None;
      assert es[i] == d;
    } else {
      assert es[|ds|] == last;
    }
  }

  /** The DMARC domain is the one of the first segment that has one, and absent iff none has. */
  lemma {:induction false} DmarcMeans(segs: seq<string>)
    ensures FirstOf(DmarcsOf(segs), Collect(segs).dmarc)
  {
    if segs != [] {
      DmarcMeans(Front(segs));
      FirstOfLonger(DmarcsOf(Front(segs)), DmarcOf(Last(segs)), Collect(Front(segs)).dmarc);
      assert DmarcsOf(segs) == DmarcsOf(Front(segs)) + [DmarcOf(Last(segs))];
    }
  }

  // ── What a verdict is, in the words of the standard ────

  /** The token says `mechanism=pass`, with a version or without. */
  ghost predicate SaysPass(token: string, mechanism: string) {
    token == mechanism + "=pass" || exists v: string :: '=' !in v && token == mechanism + ("/" + (v + "=pass"))
  }

  lemma PassMeans(token: string, mechanism: string)
    requires '/' !in mechanism && '=' !in mechanism
    ensures IsPass(token, mechanism) <==> SaysPass(token, mechanism)
  {
    if IsPass(token, mechanism) {
      PassSays(token, mechanism);
    }
    if token == mechanism + "=pass" {
      PlainPass(token, mechanism);
    } else if v: string :| '=' !in v && token == mechanism + ("/" + (v + "=pass")) {
      VersionedPass(token, mechanism, v);
    }
  }

  lemma PassSays(token: string, mechanism: string)
    requires IsPass(token, mechanism)
    ensures SaysPass(token, mechanism)
  {
    var m := token[..Find(token, '=')];
    assert token == m + "=pass";
    if '/' in m {
      var v := m[Find(m, '/') + 1..];
      assert m == mechanism + ("/" + v);
      assert token == mechanism + ("/" + (v + "=pass"));
    } else {
      assert m[..Find(m, '/')] == m;
    }
  }

  lemma PlainPass(token: string, mechanism: string)
    requires '/' !in mechanism && '=' !in mechanism && token == mechanism + "=pass"
    ensures IsPass(token, mechanism)
  {
    assert token == mechanism + (['='] + "pass");
    FindAt(mechanism, '=', "pass");
    assert token[..|mechanism|] == mechanism && token[|mechanism| + 1..] == "pass";
    assert Find(mechanism, '/') == |mechanism| && mechanism[..|mechanism|] == mechanism;
  }

  lemma VersionedPass(token: string, mechanism: string, v: string)
    requires '/' !in mechanism && '=' !in mechanism && '=' !in v && token == mechanism + ("/" + (v + "=pass"))
    ensures IsPass(token, mechanism)
  {
    var m := mechanism + ("/" + v);
    assert token == m + (['='] + "pass");
    FindAt(m, '=', "pass");
    FindAt(mechanism, '/', v);
    assert token[..|m|] == m && token[|m| + 1..] == "pass" && m[..|mechanism|] == mechanism;
  }

  /** Token `i` is the first that begins with `key`. */
  predicate FirstWith(ts: seq<string>, key: string, i: nat) {
    i < |ts| && StartsWith(ts[i], key) && forall j :: 0 <= j < i ==> !StartsWith(ts[j], key)
  }

  lemma {:induction false} FindFirst(ts: seq<string>, key: string) returns (i: nat)
    ensures FindProperty(ts, key).None? ==> forall j :: 0 <= j < |ts| ==> !StartsWith(ts[j], key)
    ensures FindProperty(ts, key).Some? ==> FirstWith(ts, key, i) && FindProperty(ts, key).value == ts[i][|key|..]
  {
    i := 0;
    if ts != [] && !StartsWith(ts[0], key) {
      i := FindFirst(ts[1..], key);
      assert forall j :: 1 <= j < |ts| ==> ts[j] == ts[1..][j - 1];
      i := i + 1;
    }
  }

  /** The domain a value names. */
  ghost predicate Names(value: string, domain: string) {
    domain != "" && exists marks, dots, rest :: DomainCut(value, marks, domain, dots, rest)
  }

  lemma NamesMeans(value: string, domain: string)
    ensures DomainValue(value) == Some(domain) <==> Names(value, domain)
  {
    var marks, d, dots, rest := DomainCutExists(value);
    DomainValueMeans(value, marks, d, dots, rest);
    if Names(value, domain) {
      var marks', dots', rest' :| DomainCut(value, marks', domain, dots', rest');
      DomainValueMeans(value, marks', domain, dots', rest');
    }
  }

  /** The segment opens with a passing verdict of `mechanism`, and its first property of that
      name is `domain`. */
  ghost predicate Vouches(seg: string, mechanism: string, key: string, domain: string) {
    var ts := Tokens(seg);
    && ts != [] && SaysPass(ts[0], mechanism)
    && exists i: nat :: FirstWith(ts, key, i) && Names(ts[i][|key|..], domain)
  }

  lemma VouchesMeans(seg: string, mechanism: string, key: string, domain: string)
    requires '/' !in mechanism && '=' !in mechanism
    ensures VerdictOf(Tokens(seg), mechanism, key) == Some(domain) <==> Vouches(seg, mechanism, key, domain)
  {
    var ts := Tokens(seg);
    if ts != [] {
      PassMeans(ts[0], mechanism);
      var i := FindFirst(ts, key);
      if FindProperty(ts, key).Some? {
        NamesMeans(FindProperty(ts, key).value, domain);
      }
      forall j: nat | FirstWith(ts, key, j)
        ensures FindProperty(ts, key).Some? && i == j
      {
      }
    }
  }

  /** The segments of a header once it is normalised and in lower case. */
  function SegmentsOf(raw: string): seq<string> {
    Segments(Lower(Strip(raw)))
  }

  ghost predicate ListsDkim(raw: string, domain: string) {
    exists k :: 0 <= k < |SegmentsOf(raw)| && Vouches(SegmentsOf(raw)[k], "dkim", "header.d=", domain)
  }

  /** A domain is listed exactly if some segment is a passing DKIM verdict that names it. */
  lemma ListedMeans(raw: string, domain: string)
    ensures domain in Parse(raw).dkim <==> ListsDkim(raw, domain)
  {
    var segs := SegmentsOf(raw);
    DkimMeans(segs);
    forall k | 0 <= k < |segs|
      ensures DkimOf(segs[k]) == Some(domain) <==> Vouches(segs[k], "dkim", "header.d=", domain)
    {
      VouchesMeans(segs[k], "dkim", "header.d=", domain);
    }
    assert forall k :: 0 <= k < |segs| ==> DkimsOf(segs)[k] == DkimOf(segs[k]);
  }

  ghost predicate FirstDmarc(raw: string, domain: string) {
    exists k :: 0 <= k < |SegmentsOf(raw)| && FirstDmarcAt(SegmentsOf(raw), k, domain)
  }

  ghost predicate FirstDmarcAt(segs: seq<string>, k: int, domain: string)
    requires 0 <= k < |segs|
  {
    Vouches(segs[k], "dmarc", "header.from=", domain) && forall j :: 0 <= j < k ==> NoDmarc(segs[j])
  }

  ghost predicate NoDmarc(seg: string) {
    forall e :: !Vouches(seg, "dmarc", "header.from=", e)
  }

  lemma DmarcOfMeans(seg: string)
    ensures DmarcOf(seg).None? <==> NoDmarc(seg)
    ensures forall e :: DmarcOf(seg) == Some(e) <==> Vouches(seg, "dmarc", "header.from=", e)
  {
    forall e
      ensures DmarcOf(seg) == Some(e) <==> Vouches(seg, "dmarc", "header.from=", e)
    {
      VouchesMeans(seg, "dmarc", "header.from=", e);
    }
    if DmarcOf(seg).Some? {
      assert Vouches(seg, "dmarc", "header.from=", DmarcOf(seg).value);
    }
  }

  lemma FirstAtMeans(segs: seq<string>, k: int, domain: string)
    requires 0 <= k < |segs|
    ensures FirstAt(DmarcsOf(segs), k, domain) <==> FirstDmarcAt(segs, k, domain)
  {
    var ds := DmarcsOf(segs);
    DmarcOfMeans(segs[k]);
    forall j | 0 <= j < k
      ensures ds[j] == None <==> NoDmarc(segs[j])
    {
      DmarcOfMeans(segs[j]);
    }
  }

  lemma SegmentsSay(segs: seq<string>, domain: string)
    ensures Collect(segs).dmarc == Some(domain) <==> exists k :: 0 <= k < |segs| && FirstDmarcAt(segs, k, domain)
  {
    DmarcMeans(segs);
    FirstIs(DmarcsOf(segs), domain, Collect(segs).dmarc);
    forall k | 0 <= k < |segs|
      ensures FirstAt(DmarcsOf(segs), k, domain) <==> FirstDmarcAt(segs, k, domain)
    {
      FirstAtMeans(segs, k, domain);
    }
  }

  /** The DMARC domain is the one the first passing DMARC verdict with a domain names. */
  lemma DmarcReadMeans(raw: string, domain: string)
    ensures Parse(raw).dmarc == Some(domain) <==> FirstDmarc(raw, domain)
  {
    SegmentsSay(SegmentsOf(raw), domain);
  }

  ghost predicate FirstAt(ds: seq<Option<string>>, k: int, domain: string)
    requires 0 <= k < |ds|
  {
    ds[k] == Some(domain) && forall j :: 0 <= j < k ==> ds[j] == None
  }

  lemma FirstIs(ds: seq<Option<string>>, domain: string, d: Option<string>)
    requires FirstOf(ds, d)
    ensures d == Some(domain) <==> exists k :: 0 <= k < |ds| && FirstAt(ds, k, domain)
  {
    if d == Some(domain) {
      var k :| 0 <= k < |ds| && ds[k] == d && forall j :: 0 <= j < k ==> ds[j] == None;
      assert FirstAt(ds, k, domain);
    }
  }

  // ── Composition ────────────────────────────────────────

  /** The elements of `xs` not in `seen`, in order. */
  function NewIn(xs: seq<string>, seen: seq<string>): (r: seq<string>)
    ensures forall x :: x in r <==> x in xs && x !in seen
  {
    if xs == [] then []
    else
      assert xs == Front(xs) + [Last(xs)];
      NewIn(Front(xs), seen) + if Last(xs) in seen then [] else [Last(xs)]
  }

  function Merge(a: Verdicts, b: Verdicts): Verdicts {
    Verdicts(a.dkim + NewIn(b.dkim, a.dkim), if a.dmarc.Some? then a.dmarc else b.dmarc)
  }

  lemma MergeAddSegment(a: Verdicts, b: Verdicts, seg: string)
    ensures Merge(a, AddSegment(b, seg)) == AddSegment(Merge(a, b), seg)
  {
    var d := DkimOf(seg);
    if d.Some? && d.value !in b.dkim {
      assert Front(b.dkim + [d.value]) == b.dkim;
      if d.value in a.dkim {
        assert NewIn(b.dkim, a.dkim) + [] == NewIn(b.dkim, a.dkim);
      } else {
        assert a.dkim + (NewIn(b.dkim, a.dkim) + [d.value]) == (a.dkim + NewIn(b.dkim, a.dkim)) + [d.value];
      }
    }
  }

  lemma {:induction false} CollectConcat(xs: seq<string>, ys: seq<string>)
    ensures Collect(xs + ys) == Merge(Collect(xs), Collect(ys))
  {
    if ys == [] {
      assert xs + ys == xs;
      assert NewIn([], Collect(xs).dkim) == [];
      assert Collect(xs).dkim + [] == Collect(xs).dkim;
    } else {
      CollectConcat(xs, Front(ys));
      assert Front(xs + ys) == xs + Front(ys) && Last(xs + ys) == Last(ys);
      MergeAddSegment(Collect(xs), Collect(Front(ys)), Last(ys));
    }
  }

  /** A header cut at a semicolon outside quotes and comments reads as its two halves, merged. */
  lemma ParseComposes(a: string, b: string)
    requires Run(START, a) == START
    ensures Parse(a + ";" + b) == Merge(Parse(a), Parse(b))
  {
    assert a + ";" + b == a + (";" + b);
    RunConcat(START, a, ";" + b);
    assert (";" + b)[1..] == b;
    assert Strip(a + ";" + b) == Strip(a) + (";" + Strip(b));
    LowerConcat(Strip(a), ";" + Strip(b));
    LowerConcat(";", Strip(b));
    assert Lower(";") == ";";
    var la, lb := Lower(Strip(a)), Lower(Strip(b));
    FieldsSeparated(la, ';', lb, IsSemicolon);
    CollectConcat(Segments(la), Segments(lb));
  }

  /** The authserv-id: the first token before the first semicolon, compared without case. */
  predicate AuthservMatches(value: string, expected: string) {
    var tokens := Tokens(Segments(value)[0]);
    tokens != [] && Lower(tokens[0]) == Lower(expected)
  }

  /** What `parse` takes from the first header of that name: nothing unless our own receiver
      signed it, and the value is normalised before it is looked at. */
  function FromFirstHeader(first: Option<string>, authservId: string): Verdicts {
    match first
    case None => Parse("")
    case Some(h) =>
      var v := Strip(h);
      Parse(if AuthservMatches(v, authservId) then v else "")
  }

  /** The value begins with the receiver's name, up to case and white space before it; behind it
      stands nothing, white space, or a semicolon. */
  ghost predicate SignedBy(value: string, id: string) {
    exists w, t, r :: SignedAt(value, id, w, t, r)
  }

  ghost predicate SignedAt(value: string, id: string, w: string, t: string, r: string) {
    && value == w + (t + r) && White(w) && IsToken(t) && ';' !in t && Lower(t) == Lower(id)
    && (r == "" || IsWhitespace(r[0]) || r[0] == ';')
  }

  lemma AuthservMeans(value: string, id: string)
    ensures AuthservMatches(value, id) <==> SignedBy(value, id)
  {
    if AuthservMatches(value, id) {
      var seg := Segments(value)[0];
      var rest := FirstPiece(value, IsSemicolon);
      FirstPieceClean(value, IsSemicolon);
      var w, r := FindFirstToken(seg);
      var t := Tokens(seg)[0];
      assert value == w + (t + (r + rest));
      NoSemicolonInside(w, t, r, seg);
      assert SignedAt(value, id, w, t, r + rest);
    }
    if w, t, r :| SignedAt(value, id, w, t, r) {
      SignatureIsRead(value, id, w, t, r);
    }
  }

  lemma NoSemicolonInside(w: string, t: string, r: string, seg: string)
    requires seg == w + (t + r) && forall i :: 0 <= i < |seg| ==> !IsSemicolon(seg[i])
    ensures ';' !in t
  {
    assert forall i :: 0 <= i < |t| ==> t[i] == seg[|w| + i];
  }

  lemma SignatureIsRead(value: string, id: string, w: string, t: string, r: string)
    requires SignedAt(value, id, w, t, r)
    ensures AuthservMatches(value, id)
  {
    var wt := w + t;
    FieldsWhole(wt, IsSemicolon);
    FieldsConcat(wt, r, IsSemicolon);
    Assoc3(w, t, r);
    var r0 := Fields(r, IsSemicolon)[0];
    assert Segments(value)[0] == wt + r0;
    Assoc3(w, t, r0);
    assert r0 == "" || IsWhitespace(r0[0]);
    TokensBehindWhite(w, t + r0);
    WordComesFirst(t, r0);
  }

  /** Normalising before choosing is invisible: if the normalised value begins with our receiver's
      name, what is read is what the raw value says; otherwise nothing is. */
  lemma EarlyNormalisationIsInvisible(h: string, id: string)
    ensures FromFirstHeader(Some(h), id) == if SignedBy(Strip(h), id) then Parse(h) else NOTHING
    ensures FromFirstHeader(None, id) == NOTHING
  {
    StripIdempotent(h);
    AuthservMeans(Strip(h), id);
    assert Segments("") == [""] && Front([""]) == [] && Tokens("") == [];
  }
}
