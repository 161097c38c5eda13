/** What the text of a comment in an `Authentication-Results` header can and cannot change:
    exactly the texts that leave nothing behind, and exactly those that change no verdict. */
module Comments {
  import opened Text
  import opened AuthResults
  import opened QuotedStrings

  /** A comment with text `c` between two parts of a header. */
  function Commented(p: string, c: string, q: string): string {
    p + "(" + c + ")" + q
  }

  /** Outside quotes, inside `n` parentheses. */
  function Inside(n: nat): Scan {
    Scan(n, false, false)
  }

  /** What the text and the parenthesis that should close it write, from inside `n` parentheses. */
  function Leaked(n: nat, c: string): string {
    Emit(Inside(n), c + ")")
  }

  function EndOf(n: nat, c: string): Scan {
    Run(Inside(n), c + ")")
  }

  lemma UnquotedIsInside(p: string)
    requires !Run(START, p).quoted
    ensures Run(START, p) == Inside(Run(START, p).depth)
  {
    RunWellFormed(START, p);
  }

  lemma Around(p: string, c: string, q: string, n: nat)
    requires Run(START, p) == Inside(n)
    ensures Strip(Commented(p, c, q))
            == Strip(p) + (Step(Inside(n), '(').1 + (Leaked(n + 1, c) + Emit(EndOf(n + 1, c), q)))
    ensures Run(START, Commented(p, c, "")) == EndOf(n + 1, c)
  {
    Assoc(p, ['('], c, [')'], q);
    assert c + (")" + q) == (c + ")") + q;
    RunConcat(START, p, ['('] + ((c + ")") + q));
    RunCons(Inside(n), '(', (c + ")") + q);
    RunConcat(Inside(n + 1), c + ")", q);
    Assoc(p, ['('], c, [')'], "");
    assert c + (")" + "") == c + ")";
    RunConcat(START, p, ['('] + (c + ")"));
    RunCons(Inside(n), '(', c + ")");
  }

  lemma TextCons(c: string, n: nat)
    requires c != ""
    ensures Leaked(n, c) == Step(Inside(n), c[0]).1 + Emit(Step(Inside(n), c[0]).0, c[1..] + ")")
    ensures EndOf(n, c) == Run(Step(Inside(n), c[0]).0, c[1..] + ")")
  {
    assert c + ")" == [c[0]] + (c[1..] + ")");
    RunCons(Inside(n), c[0], c[1..] + ")");
  }

  lemma NoText(n: nat)
    ensures Leaked(n, "") == "" && EndOf(n, "") == Inside(if n == 0 then 0 else n - 1)
  {
    assert "" + ")" == ")" && ")"[1..] == "";
  }

  // ── Texts that leave nothing behind ────────────────────

  /** Read with `m` parentheses open, the text writes nothing, and the parenthesis behind it
      leaves `n` open: one closing parenthesis too many may be followed by further ones only. */
  predicate Swallowed(c: string, m: nat, n: nat) {
    if c == "" then (if m == 0 then 0 else m - 1) == n
    else if c[0] == '(' then m > 0 && Swallowed(c[1..], m + 1, n)
    else if c[0] == ')' then Swallowed(c[1..], if m == 0 then 0 else m - 1, n)
    else m > 0 && Swallowed(c[1..], m, n)
  }

  lemma {:induction false} SwallowedMeans(c: string, m: nat, n: nat)
    ensures Swallowed(c, m, n) <==> EndOf(m, c) == Inside(n) && Leaked(m, c) == ""
  {
    if c == "" {
      NoText(m);
    } else {
      TextCons(c, m);
      if c[0] == '(' {
        SwallowedMeans(c[1..], m + 1, n);
      } else if c[0] == ')' {
        SwallowedMeans(c[1..], if m == 0 then 0 else m - 1, n);
      } else if m > 0 {
        SwallowedMeans(c[1..], m, n);
      }
    }
  }

  /** Outside quotes, a comment with such a text reads as one blank. */
  lemma CommentReadsAsBlank(p: string, c: string, q: string)
    requires Run(START, p) == START && Swallowed(c, 1, 0)
    ensures Strip(Commented(p, c, q)) == Strip(p) + (" " + Strip(q))
  {
    Around(p, c, q, 0);
    SwallowedMeans(c, 1, 0);
    assert "" + Strip(q) == Strip(q);
  }

  /** Replacing such a text by another, at any nesting depth, changes neither the normalised
      header nor the verdicts. */
  lemma CommentTextIsInvisible(p: string, c: string, c': string, q: string)
    requires var s := Run(START, p);
             !s.quoted && Swallowed(c, s.depth + 1, s.depth) && Swallowed(c', s.depth + 1, s.depth)
    ensures Strip(Commented(p, c, q)) == Strip(Commented(p, c', q))
    ensures Parse(Commented(p, c, q)) == Parse(Commented(p, c', q))
  {
    var n := Run(START, p).depth;
    UnquotedIsInside(p);
    Around(p, c, q, n);
    Around(p, c', q, n);
    SwallowedMeans(c, n + 1, n);
    SwallowedMeans(c', n + 1, n);
  }

  function Opens(n: nat): string {
    if n == 0 then "" else "(" + Opens(n - 1)
  }

  function Closers(n: nat): string {
    if n == 0 then "" else ")" + Closers(n - 1)
  }

  lemma {:induction false} OpensRun(m: nat, n: nat)
    ensures Run(Inside(m), Opens(n)) == Inside(m + n)
    decreases n
  {
    if n > 0 {
      RunCons(Inside(m), '(', Opens(n - 1));
      OpensRun(m + 1, n - 1);
    }
  }

  /** Enough closing parentheses make the next letter visible. */
  lemma {:induction false} ClosersShow(m: nat, k: nat)
    ensures Emit(Inside(m), Closers(k) + "a") == if m <= k then "a" else ""
    decreases k
  {
    if k == 0 {
      assert "" + "a" == "a" && "a"[1..] == "";
    } else {
      ClosersShow(if m == 0 then 0 else m - 1, k - 1);
      assert Closers(k) + "a" == [')'] + (Closers(k - 1) + "a");
      RunCons(Inside(m), ')', Closers(k - 1) + "a");
    }
  }

  /** Whoever writes nothing has not opened a quoted string. */
  lemma {:induction false} SilentIsUnquoted(m: nat, t: string)
    requires Emit(Inside(m), t) == ""
    ensures Run(Inside(m), t) == Inside(Run(Inside(m), t).depth)
    decreases t
  {
    if t != "" {
      SilentIsUnquoted(Step(Inside(m), t[0]).0.depth, t[1..]);
    }
  }

  lemma OtherTextShows(c: string, n: nat) returns (p: string, q: string)
    requires !Swallowed(c, n + 1, n)
    ensures Run(START, p) == Inside(n) && Strip(Commented(p, c, q)) != Strip(Commented(p, "", q))
  {
    p, q := Opens(n), "";
    OpensRun(0, n);
    SwallowedMeans(c, n + 1, n);
    NoText(n + 1);
    if Leaked(n + 1, c) == "" {
      SilentIsUnquoted(n + 1, c + ")");
      var k := EndOf(n + 1, c).depth;
      q := Closers(if k < n then k else n) + "a";
      ClosersShow(k, if k < n then k else n);
      ClosersShow(n, if k < n then k else n);
    }
    Around(p, c, q, n);
    Around(p, "", q, n);
  }

  /** At every nesting depth, exactly these texts can stand for the empty one in every header. */
  lemma SwallowedExactly(c: string, n: nat)
    ensures Swallowed(c, n + 1, n)
            <==> forall p, q :: Run(START, p) == Inside(n) ==> Strip(Commented(p, c, q)) == Strip(Commented(p, "", q))
  {
    if Swallowed(c, n + 1, n) {
      forall p, q | Run(START, p) == Inside(n)
        ensures Strip(Commented(p, c, q)) == Strip(Commented(p, "", q))
      {
        CommentTextIsInvisible(p, c, "", q);
      }
    } else {
      var p, q := OtherTextShows(c, n);
    }
  }

  // ── What the standard calls the text of a comment ──────

  /** Parentheses balance: with `d` open, `c` closes exactly those and never one more; everything
      else is free. */
  predicate Closes(c: string, d: nat) {
    if c == "" then d == 0
    else if c[0] == '(' then Closes(c[1..], d + 1)
    else if c[0] == ')' then d > 0 && Closes(c[1..], d - 1)
    else Closes(c[1..], d)
  }

  lemma {:induction false} BalancedIsSwallowed(c: string, d: nat, n: nat)
    requires Closes(c, d)
    ensures Swallowed(c, n + 1 + d, n)
  {
    if c != "" {
      BalancedIsSwallowed(c[1..], if c[0] == '(' then d + 1 else if c[0] == ')' then d - 1 else d, n);
    }
  }

  /** The text of a comment by section 3.2.2 of RFC 5322, any character taken as comment text:
      parentheses balance, and a backslash takes the next character as it is. */
  predicate CommentText(c: string, d: nat) {
    if c == "" then d == 0
    else if c[0] == '\\' then |c| >= 2 && CommentText(c[2..], d)
    else if c[0] == '(' then CommentText(c[1..], d + 1)
    else if c[0] == ')' then d > 0 && CommentText(c[1..], d - 1)
    else CommentText(c[1..], d)
  }

  /** No backslash stands before a parenthesis. */
  predicate NoEscapedParenthesis(c: string) {
    if c == "" then true
    else if c[0] == '\\' && |c| >= 2 then c[1] != '(' && c[1] != ')' && NoEscapedParenthesis(c[2..])
    else NoEscapedParenthesis(c[1..])
  }

  /** Comment text is balanced, and hence invisible, as long as it escapes no parenthesis. */
  lemma {:induction false} CommentTextIsBalanced(c: string, d: nat)
    requires CommentText(c, d) && NoEscapedParenthesis(c)
    ensures Closes(c, d)
  {
    if c != "" {
      if c[0] == '\\' {
        CommentTextIsBalanced(c[2..], d);
        assert c[1..][1..] == c[2..];
        if c[1] == '\\' {
          assert Closes(c[1..], d);
        }
      } else {
        CommentTextIsBalanced(c[1..], if c[0] == '(' then d + 1 else if c[0] == ')' then d - 1 else d);
      }
    }
  }

  // ── Texts that change no verdict ───────────────────────

  /** Read with `n` parentheses open, the text leaves none open behind its end, and what stands
      outside all parentheses is white space. */
  predicate Quiet(c: string, n: nat) {
    if c == "" then n <= 1
    else if c[0] == '(' then Quiet(c[1..], n + 1)
    else if c[0] == ')' then Quiet(c[1..], if n == 0 then 0 else n - 1)
    else (n > 0 || IsWhitespace(c[0])) && Quiet(c[1..], n)
  }

  lemma {:induction false} QuietMeans(c: string, n: nat)
    ensures Quiet(c, n) <==> EndOf(n, c) == START && White(Leaked(n, c))
  {
    if c == "" {
      NoText(n);
    } else {
      TextCons(c, n);
      var (s, e) := Step(Inside(n), c[0]);
      WhiteConcat(e, Emit(s, c[1..] + ")"));
      if c[0] == '(' {
        QuietMeans(c[1..], n + 1);
      } else if c[0] == ')' {
        QuietMeans(c[1..], if n == 0 then 0 else n - 1);
      } else if n > 0 || IsWhitespace(c[0]) {
        QuietMeans(c[1..], n);
      } else {
        assert e[0] == c[0];
      }
    }
  }

  lemma SwallowedIsQuiet(c: string)
    requires Swallowed(c, 1, 0)
    ensures Quiet(c, 1)
  {
    SwallowedMeans(c, 1, 0);
    QuietMeans(c, 1);
  }

  /** White space between two strings keeps their tokens, however much it is. */
  lemma TokensApart(l: string, w: string, r: string)
    requires White(w)
    ensures Tokens(l + (" " + (w + r))) == Tokens(l) + Tokens(r)
  {
    FieldsSeparated(l, ' ', w + r, IsWhitespace);
    NonEmptyConcat(Fields(l, IsWhitespace), Fields(w + r, IsWhitespace));
    TokensBehindWhite(w, r);
  }

  lemma LowerGap(a: string, w: string, b: string)
    ensures Lower(a + (" " + (w + b))) == Lower(a) + (" " + (Lower(w) + Lower(b)))
  {
  }

  lemma WhiteLower(w: string)
    requires White(w)
    ensures White(Lower(w)) && ';' !in w && ';' !in Lower(w)
  {
  }

  lemma SegmentsOver(n: string, w: string, r: string)
    requires ';' !in w
    ensures Segments(n + (" " + (w + r)))
            == Front(Segments(n)) + [Last(Segments(n)) + (" " + (w + Segments(r)[0]))] + Segments(r)[1..]
  {
    var x := " " + w;
    assert " " + (w + r) == x + r;
    FieldsAround(n, x, r, IsSemicolon);
    assert x + Segments(r)[0] == " " + (w + Segments(r)[0]);
  }

  /** How much white space a comment leaves does not matter. */
  lemma WhiteGap(n: string, w: string, r: string)
    requires White(w) && ';' !in w
    ensures Collect(Segments(n + (" " + (w + r)))) == Collect(Segments(n + (" " + ("" + r))))
  {
    var l, r0 := Last(Segments(n)), Segments(r)[0];
    SegmentsOver(n, w, r);
    SegmentsOver(n, "", r);
    TokensApart(l, w, r0);
    TokensApart(l, "", r0);
    var s, t := l + (" " + (w + r0)), l + (" " + ("" + r0));
    CollectSameAround(Front(Segments(n)), s, t, Segments(r)[1..]);
  }

  lemma Normalised(p: string, c: string, q: string)
    requires Run(START, p) == START && EndOf(1, c) == START
    ensures Lower(Strip(Commented(p, c, q))) == Lower(Strip(p)) + (" " + (Lower(Leaked(1, c)) + Lower(Strip(q))))
  {
    Around(p, c, q, 0);
    LowerGap(Strip(p), Leaked(1, c), Strip(q));
  }

  lemma QuietReadsAsBlank(p: string, c: string, q: string)
    requires Run(START, p) == START && Quiet(c, 1)
    ensures Parse(Commented(p, c, q)) == Collect(Segments(Lower(Strip(p)) + (" " + ("" + Lower(Strip(q))))))
  {
    QuietMeans(c, 1);
    Normalised(p, c, q);
    WhiteLower(Leaked(1, c));
    WhiteGap(Lower(Strip(p)), Lower(Leaked(1, c)), Lower(Strip(q)));
  }

  /** Replacing the text of a comment by another, when both are quiet, never changes the verdicts. */
  lemma CommentTextNeverChangesTheVerdicts(p: string, c: string, c': string, q: string)
    requires Run(START, p) == START && Quiet(c, 1) && Quiet(c', 1)
    ensures Parse(Commented(p, c, q)) == Parse(Commented(p, c', q))
  {
    QuietReadsAsBlank(p, c, q);
    QuietReadsAsBlank(p, c', q);
  }

  // Other text changes a verdict somewhere

  /** A whole verdict behind a blank, and a property alone behind a blank. */
  function Whole(mechanism: string, key: string, domain: string): string {
    " " + ((mechanism + "=pass") + (" " + (key + domain)))
  }

  lemma WholeTokens(mechanism: string, key: string, domain: string)
    requires Pair(mechanism, key) && (domain == "a" || domain == "b")
    ensures var t := (mechanism + "=pass") + (" " + (key + domain));
            Plain(t) && Tokens(t) == [mechanism + "=pass", key + domain] && Plain(Whole(mechanism, key, domain))
  {
    OpeningWords(mechanism, key);
    TwoWords(mechanism + "=pass", key + domain);
    NoneEmpty(mechanism + "=pass", key + domain);
  }

  lemma OneNonEmpty(a: string)
    requires a != ""
    ensures NonEmpty([a]) == [a]
  {
    assert [a][1..] == [];
  }

  lemma NoneEmpty(a: string, b: string)
    requires a != "" && b != ""
    ensures NonEmpty([a, b]) == [a, b]
  {
    OneNonEmpty(b);
    assert [a, b][1..] == [b];
  }

  lemma WholeVerdict(mechanism: string, key: string, domain: string)
    requires Pair(mechanism, key) && (domain == "a" || domain == "b")
    ensures VerdictOf([mechanism + "=pass", key + domain], mechanism, key) == Some(domain)
  {
    PassToken(mechanism);
    DomainLetter(domain);
    SecondIsFound(mechanism, key, domain);
  }

  lemma SecondIsFound(mechanism: string, key: string, domain: string)
    requires Pair(mechanism, key)
    ensures FindProperty([mechanism + "=pass", key + domain], key) == Some(domain)
  {
    OpeningWords(mechanism, key);
    var first, second := mechanism + "=pass", key + domain;
    assert [first, second][1..] == [second];
    assert second[..|key|] == key && second[|key|..] == domain;
  }

  /** Verdicts do not depend on a last segment that gives none. */
  lemma NoVerdictInLast(xs: seq<string>, s: string, mechanism: string, key: string)
    requires Pair(mechanism, key) && VerdictOf(Tokens(s), mechanism, key) == None
    ensures Verdict(Collect(xs + [s]), mechanism) == Verdict(Collect(xs), mechanism)
  {
    assert Front(xs + [s]) == xs && Last(xs + [s]) == s;
  }

  /** Plain text behind a string goes on with its last segment. */
  lemma PlainBehind(n: string, q: string)
    requires Plain(q)
    ensures Segments(n + q) == Front(Segments(n)) + [Last(Segments(n)) + q]
  {
    PlainSegment(q);
    FieldsConcat(n, q, IsSemicolon);
  }

  lemma BlankBehind(l: string, t: string)
    ensures Tokens(l + (" " + t)) == Tokens(l) + Tokens(t)
  {
    FieldsSeparated(l, ' ', t, IsWhitespace);
    NonEmptyConcat(Fields(l, IsWhitespace), Fields(t, IsWhitespace));
  }

  /** What a header says that ends in a plain text behind a blank. */
  lemma VerdictAtEnd(n: string, t: string, mechanism: string, key: string)
    requires Pair(mechanism, key) && Plain(" " + t)
    requires VerdictOf(Tokens(Last(Segments(n))) + Tokens(t), mechanism, key) == None
    ensures Verdict(Collect(Segments(n + (" " + t))), mechanism) == Verdict(Collect(Front(Segments(n))), mechanism)
  {
    PlainBehind(n, " " + t);
    BlankBehind(Last(Segments(n)), t);
    NoVerdictInLast(Front(Segments(n)), Last(Segments(n)) + (" " + t), mechanism, key);
  }

  lemma VerdictAlone(n: string, t: string, mechanism: string, key: string)
    requires Pair(mechanism, key) && Plain(" " + t) && Segments(n) == [n]
    ensures Verdict(Collect(Segments(n + (" " + t))), mechanism) == VerdictOf(Tokens(n) + Tokens(t), mechanism, key)
  {
    PlainBehind(n, " " + t);
    BlankBehind(n, t);
    assert Front([n]) == [] && [] + [n + (" " + t)] == [n + (" " + t)];
    VerdictOfSegment(n + (" " + t), mechanism, key);
  }

  lemma NormalisedPlain(p: string, c: string, t: string)
    requires Plain(p) && Plain(" " + t) && EndOf(1, c) == START
    ensures Lower(Strip(Commented(p, c, " " + t))) == (p + (" " + Lower(Leaked(1, c)))) + (" " + t)
  {
    PlainPasses(p);
    PlainPasses(" " + t);
    PlainSegment(p);
    PlainSegment(" " + t);
    Normalised(p, c, " " + t);
    assert p + (" " + (Lower(Leaked(1, c)) + (" " + t))) == (p + (" " + Lower(Leaked(1, c)))) + (" " + t);
  }

  lemma BlankAfter(p: string)
    requires Plain(p)
    ensures Plain(p + " ") && Segments(p + " ") == [p + " "] && Tokens(p + " ") == Tokens(p)
  {
    PlainSegment(p + " ");
    BlankBehind(p, "");
    NoTokens();
    assert " " + "" == " " && Tokens(p) + [] == Tokens(p);
  }

  /** With nothing in the comment the verdict at the end, or the one around it, is read. */
  lemma EmptyComment(p: string, t: string, mechanism: string, key: string)
    requires Pair(mechanism, key) && Plain(p) && Plain(" " + t)
    ensures Verdict(Parse(Commented(p, "", " " + t)), mechanism) == VerdictOf(Tokens(p) + Tokens(t), mechanism, key)
  {
    NoText(1);
    NormalisedPlain(p, "", t);
    BlankAfter(p);
    assert p + (" " + Lower("")) == p + " ";
    VerdictAlone(p + " ", t, mechanism, key);
  }

  /** A domain that is not the one of the verdict. */
  function Other(v: Option<string>): string {
    if v == Some("a") then "b" else "a"
  }

  lemma FirstDecides(t: string, ts: seq<string>, mechanism: string, key: string)
    requires !IsPass(t, mechanism)
    ensures VerdictOf([t] + ts, mechanism, key) == None
  {
  }

  lemma OnePassOnly(t: string)
    ensures !IsPass(t, "dkim") || !IsPass(t, "dmarc")
  {
  }

  lemma KeyIsNoVerdict(mechanism: string, key: string, domain: string)
    requires Pair(mechanism, key)
    ensures !IsPass(key + domain, mechanism)
  {
    var token := key + domain;
    var eq := Find(token, '=');
    var m := token[..eq][..Find(token[..eq], '/')];
    assert token[0] == 'h';
    assert m != "" ==> m[0] == token[0];
  }

  /** A header that is nothing but a comment and a whole verdict. */
  lemma WholeBehindEmpty(mechanism: string, key: string, domain: string)
    requires Pair(mechanism, key) && (domain == "a" || domain == "b")
    ensures Verdict(Parse(Commented("", "", Whole(mechanism, key, domain))), mechanism) == Some(domain)
  {
    var text := (mechanism + "=pass") + (" " + (key + domain));
    WholeTokens(mechanism, key, domain);
    EmptyComment("", text, mechanism, key);
    NoTokens();
    assert [] + Tokens(text) == Tokens(text);
    WholeVerdict(mechanism, key, domain);
  }

  /** A whole verdict behind text whose last segment says something already, of another kind. */
  lemma WholeBehindToken(c: string, t: string, ts: seq<string>, mechanism: string, key: string, domain: string)
    requires Pair(mechanism, key) && (domain == "a" || domain == "b") && !IsPass(t, mechanism)
    requires EndOf(1, c) == START && Tokens(Last(Segments(Outside(c)))) == [t] + ts
    ensures Verdict(Parse(Commented("", c, Whole(mechanism, key, domain))), mechanism)
            == Verdict(Collect(Front(Segments(Outside(c)))), mechanism)
  {
    var text := (mechanism + "=pass") + (" " + (key + domain));
    WholeTokens(mechanism, key, domain);
    FirstDecides(t, ts + Tokens(text), mechanism, key);
    Assoc3([t], ts, Tokens(text));
    NormalisedPlain("", c, text);
    assert "" + (" " + Lower(Leaked(1, c))) == Outside(c);
    VerdictAtEnd(Outside(c), text, mechanism, key);
  }

  /** A comment at the start of a header, normalised. */
  function Outside(c: string): string {
    " " + Lower(Leaked(1, c))
  }

  /** The last segment of the text outside the parentheses says something: a whole verdict of
      another kind comes too late behind it. */
  lemma TokenShows(c: string, t: string, ts: seq<string>) returns (p: string, q: string)
    requires EndOf(1, c) == START && Tokens(Last(Segments(Outside(c)))) == [t] + ts
    ensures Run(START, p) == START && Parse(Commented(p, c, q)) != Parse(Commented(p, "", q))
  {
    OnePassOnly(t);
    var mechanism := if IsPass(t, "dkim") then "dmarc" else "dkim";
    var key := if mechanism == "dkim" then DKIM_KEY else DMARC_KEY;
    var domain := Other(Verdict(Collect(Front(Segments(Outside(c)))), mechanism));
    p, q := "", Whole(mechanism, key, domain);
    WholeBehindToken(c, t, ts, mechanism, key, domain);
    WholeBehindEmpty(mechanism, key, domain);
  }

  /** The last segment of the text outside is blank: a property behind it has lost its verdict. */
  lemma CutShows(c: string) returns (p: string, q: string)
    requires EndOf(1, c) == START && |Segments(Lower(Leaked(1, c)))| >= 2
    requires Tokens(Last(Segments(Lower(Leaked(1, c))))) == []
    ensures Run(START, p) == START && Parse(Commented(p, c, q)) != Parse(Commented(p, "", q))
  {
    var l := Lower(Leaked(1, c));
    p := "dkim" + "=pass";
    var n := p + (" " + l);
    var v := Verdict(Collect(Front(Segments(n))), "dkim");
    var domain := Other(v);
    var text := DKIM_KEY + domain;
    q := " " + text;
    WholeTokens("dkim", DKIM_KEY, domain);
    OpeningWords("dkim", DKIM_KEY);
    PropertyToken(domain);
    LastOfLonger(p + " ", l);
    assert n == (p + " ") + l;
    KeyIsNoVerdict("dkim", DKIM_KEY, domain);
    FirstDecides(text, [], "dkim", DKIM_KEY);
    assert [] + [text] == [text] && [text] + [] == [text];
    NormalisedPlain(p, c, text);
    VerdictAtEnd(n, text, "dkim", DKIM_KEY);
    EmptyComment(p, text, "dkim", DKIM_KEY);
    PlainPasses(p);
    WholeVerdict("dkim", DKIM_KEY, domain);
    assert Tokens(p) + Tokens(text) == ["dkim" + "=pass", DKIM_KEY + domain];
  }

  lemma PropertyToken(domain: string)
    requires domain == "a" || domain == "b"
    ensures Plain(" " + (DKIM_KEY + domain)) && Tokens(DKIM_KEY + domain) == [DKIM_KEY + domain]
    ensures Tokens("dkim" + "=pass") == ["dkim" + "=pass"]
  {
    OpeningWords("dkim", DKIM_KEY);
    FieldsWhole(DKIM_KEY + domain, IsWhitespace);
    FieldsWhole("dkim" + "=pass", IsWhitespace);
    OneNonEmpty(DKIM_KEY + domain);
    OneNonEmpty("dkim" + "=pass");
  }

  lemma LastOfLonger(a: string, b: string)
    requires |Segments(b)| >= 2
    ensures Last(Segments(a + b)) == Last(Segments(b))
  {
    FieldsConcat(a, b, IsSemicolon);
  }

  lemma HiddenBehind(c: string, q: string)
    requires !EndOf(1, c).quoted && EndOf(1, c).depth > 0 && Plain(q)
    ensures Strip(Commented("", c, q)) == Strip(Commented("", c, ""))
  {
    RunWellFormed(Inside(1), c + ")");
    PlainIsHidden(EndOf(1, c).depth, q);
    Around("", c, q, 0);
    Around("", c, "", 0);
  }

  /** Text that leaves parentheses open hides everything behind it. */
  lemma OpenShows(c: string) returns (p: string, q: string)
    requires !EndOf(1, c).quoted && EndOf(1, c).depth > 0
    ensures Run(START, p) == START && Parse(Commented(p, c, q)) != Parse(Commented(p, "", q))
  {
    var domain := Other(Verdict(Parse(Commented("", c, "")), "dkim"));
    p, q := "", Whole("dkim", DKIM_KEY, domain);
    WholeTokens("dkim", DKIM_KEY, domain);
    HiddenBehind(c, q);
    WholeBehindEmpty("dkim", DKIM_KEY, domain);
  }

  lemma {:induction false} PlainIsHidden(k: nat, t: string)
    requires k > 0 && Plain(t)
    ensures Emit(Inside(k), t) == ""
  {
    if t != "" {
      PlainIsHidden(k, t[1..]);
      assert forall i :: 0 <= i < |t[1..]| ==> t[1..][i] == t[i + 1];
    }
  }

  lemma FirstTokenBegins(s: string)
    requires s != "" && !IsWhitespace(s[0])
    ensures Tokens(s) != [] && Tokens(s)[0] != "" && Tokens(s)[0][0] == s[0]
  {
    assert Fields(s, IsWhitespace)[0][0] == s[0];
  }

  lemma MarkIsNoVerdict(token: string, mechanism: string)
    requires token != "" && (token[0] == '"' || token[0] == '_') && (mechanism == "dkim" || mechanism == "dmarc")
    ensures !IsPass(token, mechanism)
  {
    var eq := Find(token, '=');
    var m := token[..eq][..Find(token[..eq], '/')];
    assert m != "" ==> m[0] == token[0];
  }

  /** What closes a quoted string that the text has left open, after `x` has completed an escape. */
  function Closing(x: string): string {
    x + "\""
  }

  lemma OpenQuotes(x: string, t: string)
    requires (x == "" || x == "_") && QuotedBody(t)
    ensures Strip(Closing(x) + t) == x + ("\"" + Emit(IN_QUOTES, t)) && ';' !in x + ("\"" + Emit(IN_QUOTES, t))
  {
    PlainPasses(x);
    Assoc3(x, "\"", t);
    RunConcat(START, x, "\"" + t);
    RunCons(START, '"', t);
    QuotedPasses(t);
  }

  /** A comment without text, and then a quoted string that is never closed: no verdict. */
  lemma NothingInOpenQuotes(x: string, t: string)
    requires (x == "" || x == "_") && QuotedBody(t)
    ensures Parse(Commented("", "", Closing(x) + t)).dkim == []
  {
    var y := x + ("\"" + Emit(IN_QUOTES, t));
    NoText(1);
    Normalised("", "", Closing(x) + t);
    OpenQuotes(x, t);
    NoSemicolon(y);
    assert Lower("") + (" " + ("" + Lower(y))) == " " + Lower(y);
    assert y[0] == if x == "" then '"' else '_';
    SegmentOfMark(Lower(y));
  }

  lemma SegmentOfMark(r: string)
    requires r != "" && (r[0] == '"' || r[0] == '_') && ';' !in r
    ensures Collect(Segments(" " + r)).dkim == []
  {
    FieldsWhole(" " + r, IsSemicolon);
    TokensBehindWhite(" ", r);
    FirstTokenBegins(r);
    MarkIsNoVerdict(Tokens(r)[0], "dkim");
    VerdictOfSegment(" " + r, "dkim", DKIM_KEY);
  }

  const FORGED := "dkim" + "=pass" + (" " + (DKIM_KEY + "a"))

  lemma ForgedVerdict()
    ensures Parse(FORGED).dkim == ["a"] && QuotedBody(";" + FORGED)
  {
    WholeTokens("dkim", DKIM_KEY, "a");
    WholeVerdict("dkim", DKIM_KEY, "a");
    PlainPasses(FORGED);
    PlainSegment(FORGED);
    VerdictOfSegment(FORGED, "dkim", DKIM_KEY);
    assert Front([FORGED]) == [] && Last([FORGED]) == FORGED;
    PlainIsBody(FORGED);
    assert (";" + FORGED)[1..] == FORGED;
  }

  lemma {:induction false} PlainIsBody(t: string)
    requires Plain(t)
    ensures QuotedBody(t)
  {
    if t != "" {
      PlainIsBody(t[1..]);
    }
  }

  /** Text that leaves a quoted string open turns what is quoted behind it into verdicts. */
  lemma QuoteShows(c: string) returns (p: string, q: string)
    requires EndOf(1, c).quoted
    ensures Run(START, p) == START && Parse(Commented(p, c, q)) != Parse(Commented(p, "", q))
  {
    var x := if EndOf(1, c).esc then "_" else "";
    p, q := "", Closing(x) + (";" + FORGED);
    ForgedVerdict();
    NothingInOpenQuotes(x, ";" + FORGED);
    ForgedBehindQuote(c, x);
  }

  lemma ForgedBehindQuote(c: string, x: string)
    requires EndOf(1, c).quoted && x == if EndOf(1, c).esc then "_" else ""
    ensures Parse(Commented("", c, Closing(x) + (";" + FORGED))).dkim != []
  {
    ForgedVerdict();
    QuoteCloses(c, x);
    LongerClosing(c, Closing(x), ";" + FORGED);
    ComposesBehind(Commented("", c, Closing(x)), Commented("", c, Closing(x) + (";" + FORGED)));
  }

  lemma LongerClosing(c: string, q: string, r: string)
    ensures Commented("", c, q + r) == Commented("", c, q) + r
  {
  }

  lemma QuoteCloses(c: string, x: string)
    requires EndOf(1, c).quoted && x == if EndOf(1, c).esc then "_" else ""
    ensures Run(START, Commented("", c, Closing(x))) == START
  {
    RunWellFormed(Inside(1), c + ")");
    Around("", c, "", 0);
    var s := EndOf(1, c);
    assert Commented("", c, Closing(x)) == Commented("", c, "") + Closing(x);
    RunConcat(START, Commented("", c, ""), Closing(x));
    RunConcat(s, x, "\"");
    assert "_"[1..] == "" && "\""[1..] == "";
  }

  lemma ComposesBehind(a: string, whole: string)
    requires Run(START, a) == START && whole == a + (";" + FORGED) && Parse(FORGED).dkim == ["a"]
    ensures Parse(whole).dkim != []
  {
    assert whole == a + ";" + FORGED;
    ParseComposes(a, FORGED);
    assert "a" in Parse(FORGED).dkim;
  }

  /** White text has no tokens, other text without a semicolon has some. */
  lemma {:induction false} TokensOfOther(s: string)
    ensures White(s) <==> Tokens(s) == []
  {
    if s == "" {
      NoTokens();
    } else if IsWhitespace(s[0]) {
      TokensOfOther(s[1..]);
      assert s == [s[0]] + s[1..];
      WhiteConcat([s[0]], s[1..]);
      TokensBehindWhite([s[0]], s[1..]);
    } else {
      FirstTokenBegins(s);
    }
  }

  lemma NotWhiteShows(c: string) returns (p: string, q: string)
    requires EndOf(1, c) == START && !White(Leaked(1, c))
    ensures Run(START, p) == START && Parse(Commented(p, c, q)) != Parse(Commented(p, "", q))
  {
    var l := Lower(Leaked(1, c));
    var ts := Tokens(Last(Segments(Outside(c))));
    if ts != [] {
      assert ts == [ts[0]] + ts[1..];
      p, q := TokenShows(c, ts[0], ts[1..]);
    } else {
      LeakIsCut(l, Leaked(1, c));
      p, q := CutShows(c);
    }
  }

  lemma LeakIsCut(l: string, leaked: string)
    requires l == Lower(leaked) && !White(leaked) && Tokens(Last(Segments(" " + l))) == []
    ensures |Segments(l)| >= 2 && Tokens(Last(Segments(l))) == []
  {
    FieldsConcat(" ", l, IsSemicolon);
    PlainSegment(" ");
    WhiteFromLower(leaked);
    if |Segments(l)| >= 2 {
      LastOfLonger(" ", l);
    } else {
      OneSegment(l);
      TokensOfOther(" " + l);
      WhiteConcat(" ", l);
    }
  }

  lemma WhiteFromLower(s: string)
    ensures White(Lower(s)) ==> White(s)
  {
    forall i | White(Lower(s)) && 0 <= i < |s|
      ensures IsWhitespace(s[i])
    {
      assert IsWhitespace(Lower(s)[i]);
    }
  }

  lemma {:induction false} OneSegment(l: string)
    requires |Segments(l)| == 1
    ensures Segments(l) == [l]
  {
    if l != "" {
      assert !IsSemicolon(l[0]);
      OneSegment(l[1..]);
      assert l == [l[0]] + l[1..];
    }
  }

  /** Exactly quiet text can stand for the empty text of a comment in every header. */
  lemma QuietExactly(c: string)
    ensures Quiet(c, 1)
            <==> forall p, q :: Run(START, p) == START ==> Parse(Commented(p, c, q)) == Parse(Commented(p, "", q))
  {
    QuietMeans(c, 1);
    RunWellFormed(Inside(1), c + ")");
    if Quiet(c, 1) {
      forall p, q | Run(START, p) == START
        ensures Parse(Commented(p, c, q)) == Parse(Commented(p, "", q))
      {
        CommentTextNeverChangesTheVerdicts(p, c, "", q);
      }
    } else if EndOf(1, c).quoted {
      var p, q := QuoteShows(c);
    } else if EndOf(1, c).depth > 0 {
      var p, q := OpenShows(c);
    } else {
      var p, q := NotWhiteShows(c);
    }
  }

  lemma {:induction false} PlainIsCommentText(t: string)
    requires Plain(t)
    ensures CommentText(t, 0)
  {
    if t != "" {
      PlainIsCommentText(t[1..]);
    }
  }

  lemma OneTokenIsNothing(p: string, t: string)
    requires Plain(p) && Tokens(p) == [t] && !IsPass(t, "dkim") && !IsPass(t, "dmarc")
    ensures Collect(Segments(p + " ")) == NOTHING
  {
    BlankAfter(p);
    FirstDecides(t, [], "dkim", DKIM_KEY);
    FirstDecides(t, [], "dmarc", DMARC_KEY);
    assert [t] + [] == [t];
    assert Front([p + " "]) == [] && Last([p + " "]) == p + " ";
  }

  lemma FailingWord()
    ensures Word("dkim=fail")
  {
  }

  lemma FailingToken()
    ensures Plain("dkim=fail") && Tokens("dkim=fail") == ["dkim=fail"]
  {
    FailingWord();
    WordIsToken("dkim=fail");
  }

  lemma WordIsToken(t: string)
    requires Word(t) && t != ""
    ensures Tokens(t) == [t]
  {
    FieldsWhole(t, IsWhitespace);
    OneNonEmpty(t);
  }

  lemma FailHasNoPass()
    ensures !IsPass("dkim=fail", "dkim") && !IsPass("dkim=fail", "dmarc")
  {
    FindAt("dkim", '=', "fail");
    assert "dkim=fail" == "dkim" + (['='] + "fail");
    assert "dkim=fail"[|"dkim"| + 1..] == "fail";
  }

  lemma EscapeCloses(p: string)
    requires Plain(p)
    ensures Run(START, p) == START && Run(START, p + "(\\)") == START
    ensures Strip(p + "(\\)") == p + " " && Strip(p + "()") == p + " "
  {
    PlainPasses(p);
    RunConcat(START, p, "(\\)");
    RunConcat(START, p, "()");
    assert "(\\)"[1..] == "\\)" && "\\)"[1..] == ")" && ")"[1..] == "" && "()"[1..] == ")";
  }

  lemma EscapeParts(p: string, t: string)
    ensures Commented(p, "\\);" + t, "") == (p + "(\\)") + ";" + (t + ")")
    ensures Commented(p, "", "") == p + "()"
  {
  }

  lemma EscapeReads(p: string, t: string)
    requires Plain(p)
    ensures Parse(Commented(p, "\\);" + t, "")) == Merge(Parse(p + "(\\)"), Parse(t + ")"))
    ensures Parse(Commented(p, "", "")) == Parse(p + "(\\)")
  {
    EscapeParts(p, t);
    EscapeCloses(p);
    ParseComposes(p + "(\\)", t + ")");
  }

  lemma EscapeIsBlank(p: string)
    requires Plain(p)
    ensures Parse(p + "(\\)") == Collect(Segments(p + " "))
  {
    EscapeCloses(p);
    PlainSegment(p + " ");
  }

  lemma EscapeForges(p: string, t: string)
    requires Plain(p) && Collect(Segments(p + " ")) == NOTHING && Parse(t + ")").dkim == ["a"]
    ensures Parse(Commented(p, "\\);" + t, "")).dkim == ["a"] && Parse(Commented(p, "", "")).dkim == []
  {
    EscapeReads(p, t);
    EscapeIsBlank(p);
    OneNew("a");
  }

  /** An escaped parenthesis closes the comment, and the comment text behind it is read: the
      header that says its check failed passes with a domain of the comment's choosing. */
  lemma EscapedParenthesisEndsTheComment()
    ensures var p, c := "dkim=fail", "\\);" + FORGED;
            && Run(START, p) == START && CommentText(c, 0) && !Quiet(c, 1)
            && Parse(Commented(p, c, "")).dkim == ["a"] && Parse(Commented(p, "", "")).dkim == []
  {
    FailingToken();
    FailHasNoPass();
    OneTokenIsNothing("dkim=fail", "dkim=fail");
    PlainPasses("dkim=fail");
    EscapedText("\\);" + FORGED);
    ForgedBehind();
    EscapeForges("dkim=fail", FORGED);
  }

  lemma OneNew(d: string)
    ensures [] + NewIn([d], []) == [d]
  {
    assert Front([d]) == [] && Last([d]) == d;
  }

  lemma ForgedBehind()
    ensures Parse(FORGED + ")").dkim == ["a"]
  {
    ForgedVerdict();
    WholeTokens("dkim", DKIM_KEY, "a");
    PlainPasses(FORGED);
    RunConcat(START, FORGED, ")");
    assert ")"[1..] == "" && FORGED + "" == FORGED;
  }

  lemma EscapedText(c: string)
    requires c == "\\);" + FORGED
    ensures CommentText(c, 0) && !Quiet(c, 1)
  {
    WholeTokens("dkim", DKIM_KEY, "a");
    PlainIsCommentText(FORGED);
    assert c[2..] == ";" + FORGED && c[1..] == ")" + (";" + FORGED);
    assert (";" + FORGED)[1..] == FORGED && (")" + (";" + FORGED))[1..] == ";" + FORGED;
    assert CommentText(";" + FORGED, 0) && !Quiet(";" + FORGED, 0);
    assert !Quiet(")" + (";" + FORGED), 1);
  }
}
