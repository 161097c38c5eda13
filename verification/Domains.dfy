/** The three places that accept a domain and its subdomains, and what their shared
    string test means. */
module Domains {
  import opened Text
  import opened AuthResults

  /** The string test the source repeats: equal, or ends with a dot and `x`. */
  predicate Within(d: string, x: string) {
    d == x || EndsWith(d, "." + x)
  }

  /** Dot-separated labels. */
  function Labels(d: string): seq<string> {
    Fields(d, IsDot)
  }

  function Join(labels: seq<string>): string
    requires labels != []
  {
    if |labels| == 1 then labels[0] else labels[0] + "." + Join(labels[1..])
  }

  lemma {:induction false} JoinFields(s: string)
    ensures Join(Labels(s)) == s
  {
    if s != "" {
      JoinFields(s[1..]);
      var r := Labels(s[1..]);
      if IsDot(s[0]) {
        assert Labels(s)[1..] == r;
        assert s == "" + "." + s[1..];
      } else {
        assert Labels(s)[1..] == r[1..];
        assert s == [s[0]] + s[1..];
        if |r| > 1 {
          assert [s[0]] + (r[0] + "." + Join(r[1..])) == ([s[0]] + r[0]) + "." + Join(r[1..]);
        }
      }
    }
  }

  lemma {:induction false} JoinConcat(a: seq<string>, b: seq<string>)
    requires a != [] && b != []
    ensures Join(a + b) == Join(a) + ("." + Join(b))
  {
    if |a| == 1 {
      assert (a + b)[1..] == b;
    } else {
      JoinConcat(a[1..], b);
      assert (a + b)[1..] == a[1..] + b;
      assert a[0] + "." + (Join(a[1..]) + ("." + Join(b))) == (a[0] + "." + Join(a[1..])) + ("." + Join(b));
    }
  }

  ghost predicate IsSuffix<T(!new)>(x: seq<T>, d: seq<T>) {
    |x| <= |d| && d[|d| - |x|..] == x
  }

  /** The string test holds exactly when the labels of `x` end the labels of `d`. */
  lemma WithinIsLabelSuffix(d: string, x: string)
    ensures Within(d, x) <==> IsSuffix(Labels(x), Labels(d))
  {
    JoinFields(d);
    JoinFields(x);
    if Within(d, x) && d != x {
      var y := d[..|d| - |x| - 1];
      assert d == y + (['.'] + x);
      FieldsSeparated(y, '.', x, IsDot);
    }
    if IsSuffix(Labels(x), Labels(d)) {
      var pre := Labels(d)[..|Labels(d)| - |Labels(x)|];
      assert Labels(d) == pre + Labels(x);
      if pre != [] {
        JoinConcat(pre, Labels(x));
        assert d == Join(pre) + ("." + x);
      } else {
        assert Labels(d) == Labels(x);
      }
    }
  }

  // ── SenderAuth::is_trusted ─────────────────────────────

  predicate Hit(d: string, allowed: seq<string>) {
    exists i :: 0 <= i < |allowed| && Within(d, allowed[i])
  }

  predicate IsTrusted(v: Verdicts, allowed: seq<string>) {
    || (exists i :: 0 <= i < |v.dkim| && Hit(v.dkim[i], allowed))
    || (v.dmarc.Some? && Hit(v.dmarc.value, allowed))
  }

  /** A domain the header vouches for: a passing signature, or the first passing DMARC domain. */
  ghost predicate Vouched(raw: string, d: string) {
    ListsDkim(raw, d) || FirstDmarc(raw, d)
  }

  lemma HitMeans(d: string, allowed: seq<string>)
    ensures Hit(d, allowed) <==> exists x :: x in allowed && IsSuffix(Labels(x), Labels(d))
  {
    if i :| 0 <= i < |allowed| && Within(d, allowed[i]) {
      WithinIsLabelSuffix(d, allowed[i]);
      assert allowed[i] in allowed;
    }
    if x :| x in allowed && IsSuffix(Labels(x), Labels(d)) {
      WithinIsLabelSuffix(d, x);
    }
  }

  lemma VouchedMeans(raw: string, d: string)
    ensures Vouched(raw, d) <==> d in Parse(raw).dkim || Parse(raw).dmarc == Some(d)
  {
    ListedMeans(raw, d);
    DmarcReadMeans(raw, d);
  }

  /** A sender is trusted exactly when the header vouches for a domain whose labels end in
      the labels of an allowed domain. */
  lemma TrustMeans(raw: string, allowed: seq<string>)
    ensures IsTrusted(Parse(raw), allowed)
            <==> exists d, x :: Vouched(raw, d) && x in allowed && IsSuffix(Labels(x), Labels(d))
  {
    var v := Parse(raw);
    if d, x :| Vouched(raw, d) && x in allowed && IsSuffix(Labels(x), Labels(d)) {
      VouchedMeans(raw, d);
      HitMeans(d, allowed);
    }
    if IsTrusted(v, allowed) {
      var d :| (d in v.dkim || v.dmarc == Some(d)) && Hit(d, allowed);
      VouchedMeans(raw, d);
      HitMeans(d, allowed);
      var x :| x in allowed && IsSuffix(Labels(x), Labels(d));
    }
  }

  // ── platforms::of_sender ───────────────────────────────

  predicate IsAt(c: char) {
    c == '@'
  }

  predicate PatternMatches(addr: string, domain: string, pattern: string) {
    var pat := Lower(Trim(pattern));
    if pat == "" then false
    else if '@' in pat then addr == pat
    else Within(domain, pat)
  }

  datatype Rule = Rule(code: string, patterns: seq<string>)

  function FindRule(addr: string, domain: string, rules: seq<Rule>): Option<string> {
    if rules == [] then None
    else if exists i :: 0 <= i < |rules[0].patterns| && PatternMatches(addr, domain, rules[0].patterns[i])
        then Some(rules[0].code)
    else FindRule(addr, domain, rules[1..])
  }

  /** The platform of a sender; `rules` is the configured map in key order. */
  function OfSender(sender: string, rules: seq<Rule>): Option<string> {
    var addr := Lower(Trim(sender));
    var parts := Fields(addr, IsAt);
    if |parts| < 2 then None else FindRule(addr, parts[1], rules)
  }

  /** The domain of an address: what stands behind its first at-sign, up to the next one. */
  ghost predicate DomainIs(addr: string, domain: string) {
    exists l, r :: addr == l + ("@" + (domain + r)) && '@' !in l && '@' !in domain && (r == "" || r[0] == '@')
  }

  lemma DomainIsRead(l: string, d: string, r: string)
    requires '@' !in l && '@' !in d && (r == "" || r[0] == '@')
    ensures var parts := Fields(l + ("@" + (d + r)), IsAt); |parts| >= 2 && parts[1] == d
  {
    FieldsWhole(l, IsAt);
    FieldsSeparated(l, '@', d + r, IsAt);
    FieldsWhole(d, IsAt);
    FieldsConcat(d, r, IsAt);
    assert Front([d]) == [] && d + "" == d;
  }

  lemma AddressCut(addr: string) returns (l: string, rest: string)
    requires |Fields(addr, IsAt)| >= 2
    ensures addr == l + ("@" + rest) && '@' !in l && Fields(addr, IsAt) == [l] + Fields(rest, IsAt)
  {
    var tail := FirstPiece(addr, IsAt);
    FirstPieceClean(addr, IsAt);
    l := Fields(addr, IsAt)[0];
    FieldsWhole(l, IsAt);
    assert tail != "" by {
      assert l + "" == l;
    }
    rest := tail[1..];
    assert tail == "@" + rest;
    FieldsSeparated(l, '@', rest, IsAt);
  }

  lemma DomainIsSecond(addr: string, domain: string)
    ensures DomainIs(addr, domain) <==> |Fields(addr, IsAt)| >= 2 && Fields(addr, IsAt)[1] == domain
  {
    if l, r :| addr == l + ("@" + (domain + r)) && '@' !in l && '@' !in domain && (r == "" || r[0] == '@') {
      DomainIsRead(l, domain, r);
    }
    if |Fields(addr, IsAt)| >= 2 {
      var l, rest := AddressCut(addr);
      var r := FirstPiece(rest, IsAt);
      FirstPieceClean(rest, IsAt);
      assert addr == l + ("@" + (Fields(rest, IsAt)[0] + r));
    }
  }

  /** A pattern accepts a sender: the whole address, or a domain whose labels end its labels. */
  ghost predicate Accepts(addr: string, pattern: string) {
    var pat := Lower(Trim(pattern));
    && pat != "" && '@' in addr
    && if '@' in pat then addr == pat else exists d :: DomainIs(addr, d) && IsSuffix(Labels(pat), Labels(d))
  }

  ghost predicate RuleAccepts(addr: string, r: Rule) {
    exists i :: 0 <= i < |r.patterns| && Accepts(addr, r.patterns[i])
  }

  lemma RuleMeans(addr: string, r: Rule, good: Rule -> bool)
    requires good == Accepting(addr)
    ensures |Fields(addr, IsAt)| < 2 ==> !good(r)
    ensures |Fields(addr, IsAt)| >= 2 ==>
              (good(r) <==> exists i :: 0 <= i < |r.patterns| &&
                              PatternMatches(addr, Fields(addr, IsAt)[1], r.patterns[i]))
  {
    AtMeans(addr);
    if |Fields(addr, IsAt)| >= 2 {
      var domain := Fields(addr, IsAt)[1];
      forall d
        ensures DomainIs(addr, d) <==> d == domain
      {
        DomainIsSecond(addr, d);
      }
      forall i | 0 <= i < |r.patterns|
        ensures PatternMatches(addr, domain, r.patterns[i]) <==> Accepts(addr, r.patterns[i])
      {
        WithinIsLabelSuffix(domain, Lower(Trim(r.patterns[i])));
      }
    }
  }

  lemma AtMeans(addr: string)
    ensures |Fields(addr, IsAt)| >= 2 <==> '@' in addr
  {
    if '@' in addr {
      var i :| 0 <= i < |addr| && addr[i] == '@';
      assert addr == addr[..i] + (['@'] + addr[i + 1..]);
      FieldsSeparated(addr[..i], '@', addr[i + 1..], IsAt);
    } else {
      FieldsWhole(addr, IsAt);
    }
  }

  ghost function Accepting(addr: string): Rule -> bool {
    r => RuleAccepts(addr, r)
  }

  /** `code` belongs to the first good rule in the list; none iff no rule is good. */
  ghost predicate FirstGood(rules: seq<Rule>, code: Option<string>, good: Rule -> bool) {
    match code
    case None => forall i :: 0 <= i < |rules| ==> !good(rules[i])
    case Some(c) => exists i :: 0 <= i < |rules| && rules[i].code == c && good(rules[i])
                                && forall j :: 0 <= j < i ==> !good(rules[j])
  }

  lemma FirstGoodTail(rules: seq<Rule>, code: Option<string>, good: Rule -> bool)
    requires rules != [] && !good(rules[0]) && FirstGood(rules[1..], code, good)
    ensures FirstGood(rules, code, good)
  {
  }

  lemma {:induction false} FindRuleMeans(addr: string, domain: string, rules: seq<Rule>, good: Rule -> bool)
    requires forall r :: r in rules ==>
               (good(r) <==> exists i :: 0 <= i < |r.patterns| && PatternMatches(addr, domain, r.patterns[i]))
    ensures FirstGood(rules, FindRule(addr, domain, rules), good)
  {
    if rules != [] {
      assert rules[0] in rules && forall r :: r in rules[1..] ==> r in rules;
      if !good(rules[0]) {
        FindRuleMeans(addr, domain, rules[1..], good);
        FirstGoodTail(rules, FindRule(addr, domain, rules[1..]), good);
      }
    }
  }

  /** `of_sender` names the first rule in key order that accepts the address, and none iff none does. */
  lemma OfSenderMeans(sender: string, rules: seq<Rule>)
    ensures FirstGood(rules, OfSender(sender, rules), Accepting(Lower(Trim(sender))))
  {
    FromAddressMeans(Lower(Trim(sender)), rules);
  }

  lemma FromAddressMeans(addr: string, rules: seq<Rule>)
    ensures var parts := Fields(addr, IsAt);
            FirstGood(rules, if |parts| < 2 then None else FindRule(addr, parts[1], rules), Accepting(addr))
  {
    var good := Accepting(addr);
    var parts := Fields(addr, IsAt);
    forall r
      ensures |parts| < 2 ==> !good(r)
      ensures |parts| >= 2
              ==> (good(r) <==> exists i :: 0 <= i < |r.patterns| && PatternMatches(addr, parts[1], r.patterns[i]))
    {
      RuleMeans(addr, r, good);
    }
    if |parts| >= 2 {
      FindRuleMeans(addr, parts[1], rules, good);
    }
  }

  // ── brand_link_allowed ─────────────────────────────────

  /** The parts of a parsed URL the check looks at. */
  datatype Url = Url(scheme: string, username: string, hasPassword: bool, host: Option<string>)

  predicate BrandLinkAllowed(verified: Option<bool>, link: Option<Url>, domains: seq<string>) {
    && verified == Some(true)
    && link.Some?
    && link.value.scheme == "https" && link.value.username == "" && !link.value.hasPassword
    && link.value.host.Some?
    && var host := link.value.host.value;
       && !StartsWith(host, ".") && !EndsWith(host, ".")
       && Hit(host, domains)
  }

  /** No leading and no trailing dot, said by labels. */
  predicate NoEmptyEnds(labels: seq<string>) {
    |labels| == 1 || (labels != [] && labels[0] != "" && Last(labels) != "")
  }

  /** For every verdict, link and list: a link is branded exactly if the mail is verified and the
      link parses as https without credentials, has a host whose first and last labels are not
      empty, and that host lies in one of the platform's domains label by label. */
  lemma BrandLinkMeans(verified: Option<bool>, link: Option<Url>, domains: seq<string>)
    ensures BrandLinkAllowed(verified, link, domains)
            <==> && verified == Some(true) && link.Some?
                 && link.value.scheme == "https" && link.value.username == "" && !link.value.hasPassword
                 && link.value.host.Some? && NoEmptyEnds(Labels(link.value.host.value))
                 && exists x :: x in domains && IsSuffix(Labels(x), Labels(link.value.host.value))
  {
    if link.Some? && link.value.host.Some? {
      var host := link.value.host.value;
      HitMeans(host, domains);
      if host != "" {
        EdgeDots(host);
        JoinFields(host);
      }
    }
  }

  lemma EdgeDots(host: string)
    requires host != ""
    ensures StartsWith(host, ".") <==> Labels(host)[0] == ""
    ensures EndsWith(host, ".") <==> Last(Labels(host)) == ""
  {
    assert StartsWith(host, ".") <==> host[0] == '.';
    assert EndsWith(host, ".") <==> Last(host) == '.';
    var f := Front(host);
    assert host == f + [Last(host)];
    FieldsConcat(f, [Last(host)], IsDot);
    assert [Last(host)][1..] == "";
    assert [Last(host)] + "" == [Last(host)];
    if Last(host) != '.' {
      assert Fields([Last(host)], IsDot) == [[Last(host)]];
    } else {
      assert Fields([Last(host)], IsDot) == ["", ""];
    }
  }
}
