/** What the text inside a quoted string of an `Authentication-Results` header can and cannot
    change: exactly the texts that make no difference anywhere, and why. */
module QuotedStrings {
  import opened Text
  import opened AuthResults

  // ── Quoted text ────────────────────────────────────────

  /** The inside of a quoted string: escapes are complete and no quote is bare. */
  predicate QuotedBody(v: string) {
    if v == "" then true
    else if v[0] == '\\' then |v| >= 2 && QuotedBody(v[2..])
    else v[0] != '"' && QuotedBody(v[1..])
  }

  /** Outside escapes, the only white space is what `strip_cfws` removes. */
  predicate NoForeignSpace(v: string) {
    if v == "" then true
    else if v[0] == '\\' then |v| >= 2 && NoForeignSpace(v[2..])
    else (IsWhitespace(v[0]) ==> IsStructure(v[0])) && NoForeignSpace(v[1..])
  }

  predicate QuotedText(v: string) {
    QuotedBody(v) && NoForeignSpace(v)
  }

  /** A string that no cut ever falls into. */
  predicate Solid(s: string) {
    forall i :: 0 <= i < |s| ==> !IsWhitespace(s[i]) && !IsSemicolon(s[i])
  }

  /** Inside quotes no segment or token separator is left, exactly when no white space
      other than the four characters `strip_cfws` knows stands unescaped. */
  lemma {:induction false} QuotedTextIsSolid(v: string)
    requires QuotedBody(v)
    ensures Run(IN_QUOTES, v) == IN_QUOTES
    ensures Solid(Emit(IN_QUOTES, v)) <==> NoForeignSpace(v)
  {
    if v != "" {
      if v[0] == '\\' {
        QuotedTextIsSolid(v[2..]);
        assert v == [v[0]] + ([v[1]] + v[2..]);
        RunCons(IN_QUOTES, v[0], [v[1]] + v[2..]);
        RunCons(IN_QUOTES.(esc := true), v[1], v[2..]);
        assert "" + ("_" + Emit(IN_QUOTES, v[2..])) == "_" + Emit(IN_QUOTES, v[2..]);
        SolidCons('_', Emit(IN_QUOTES, v[2..]));
      } else {
        QuotedTextIsSolid(v[1..]);
        if IsStructure(v[0]) {
          assert "" + Emit(IN_QUOTES, v[1..]) == Emit(IN_QUOTES, v[1..]);
        } else {
          SolidCons(v[0], Emit(IN_QUOTES, v[1..]));
        }
      }
    }
  }

  lemma SolidCons(c: char, s: string)
    ensures Solid([c] + s) <==> !IsWhitespace(c) && !IsSemicolon(c) && Solid(s)
  {
    var t := [c] + s;
    assert t[0] == c;
    assert forall i :: 0 <= i < |s| ==> t[i + 1] == s[i];
  }

  // ── Which quoted text is harmless ──────────────────────

  /** A quoted string with text `v` between two parts of a header. */
  function Quoted(p: string, v: string, q: string): string {
    p + "\"" + v + "\"" + q
  }

  lemma {:induction false} QuotedPasses(v: string)
    requires QuotedBody(v)
    ensures Run(IN_QUOTES, v) == IN_QUOTES && ';' !in Emit(IN_QUOTES, v)
  {
    if v != "" {
      if v[0] == '\\' {
        QuotedPasses(v[2..]);
        assert v == [v[0]] + ([v[1]] + v[2..]);
        RunCons(IN_QUOTES, v[0], [v[1]] + v[2..]);
        RunCons(IN_QUOTES.(esc := true), v[1], v[2..]);
      } else {
        QuotedPasses(v[1..]);
      }
    }
  }

  /** The quoted text as it reaches the tokens, cut where they are cut. */
  function Pieces(v: string): seq<string> {
    Fields(Lower(Emit(IN_QUOTES, v)), IsWhitespace)
  }

  predicate NotAProperty(token: string) {
    !StartsWith(token, DKIM_KEY) && !StartsWith(token, DMARC_KEY)
  }

  /** No piece but perhaps the first begins with `key`. */
  predicate LaterClear(fs: seq<string>, key: string) {
    forall i :: 1 <= i < |fs| ==> !StartsWith(fs[i], key)
  }

  predicate NoPropertyAfterFirst(fs: seq<string>) {
    LaterClear(fs, DKIM_KEY) && LaterClear(fs, DMARC_KEY)
  }

  /** No white space that survives inside the quotes is followed by a property. */
  predicate Harmless(v: string) {
    NoPropertyAfterFirst(Pieces(v))
  }

  /** Text that stays in one piece is harmless. */
  lemma SolidIsHarmless(v: string)
    requires QuotedText(v)
    ensures Harmless(v)
  {
    QuotedTextIsSolid(v);
    FieldsWhole(Lower(Emit(IN_QUOTES, v)), IsWhitespace);
  }

  /** The segment that is still open at the end of a normalised prefix. */
  function OpenSegment(n: string): string {
    Last(Segments(n))
  }

  /** The token that is still open at the end of a normalised prefix (may be empty). */
  function OpenToken(n: string): string {
    Last(Fields(OpenSegment(n), IsWhitespace))
  }

  /** The open segment already holds a complete token, so the open one is not its verdict. */
  predicate AfterVerdict(n: string) {
    NonEmpty(Front(Fields(OpenSegment(n), IsWhitespace))) != []
  }

  /** A quoted string may follow `p`: outside quotes and comments, on a token that is neither the
      verdict nor a property the reader looks for. */
  predicate Fits(p: string) {
    && Run(START, p) == START
    && AfterVerdict(Lower(Strip(p))) && NotAProperty(OpenToken(Lower(Strip(p))))
  }

  // What the tokens around a quoted string are

  /** The pieces that contain text put between two strings, given the pieces of all three. */
  function Inserted(fl: seq<string>, fy: seq<string>, fr: seq<string>): seq<string>
    requires fl != [] && fy != [] && fr != []
  {
    if |fy| == 1 then [Last(fl) + (fy[0] + fr[0])] else [Last(fl) + fy[0]] + fy[1..|fy| - 1] + [Last(fy) + fr[0]]
  }

  lemma InsertedShape(fl: seq<string>, fy: seq<string>, fr: seq<string>)
    requires fl != [] && fy != [] && fr != []
    ensures var fyr := Front(fy) + [Last(fy) + fr[0]] + fr[1..];
            [Last(fl) + fyr[0]] + fyr[1..] == Inserted(fl, fy, fr) + fr[1..]
    ensures |Inserted(fl, fy, fr)| == |fy|
    ensures |fy| > 1 ==> Inserted(fl, fy, fr)[0] == Last(fl) + fy[0] && Last(Inserted(fl, fy, fr)) == Last(fy) + fr[0]
    ensures forall i :: 1 <= i < |fy| - 1 ==> Inserted(fl, fy, fr)[i] == fy[i]
  {
    var fyr := Front(fy) + [Last(fy) + fr[0]] + fr[1..];
    if |fy| > 1 {
      assert fyr[0] == fy[0];
      assert fyr[1..] == fy[1..|fy| - 1] + [Last(fy) + fr[0]] + fr[1..];
    }
  }

  lemma InsertedFields(l: string, y: string, r: string, sep: char -> bool)
    ensures Fields(l + (y + r), sep)
            == Front(Fields(l, sep)) + (Inserted(Fields(l, sep), Fields(y, sep), Fields(r, sep)) + Fields(r, sep)[1..])
  {
    FieldsConcat(l, y + r, sep);
    FieldsConcat(y, r, sep);
    InsertedShape(Fields(l, sep), Fields(y, sep), Fields(r, sep));
    Assoc3(Front(Fields(l, sep)), [Last(Fields(l, sep)) + Fields(y + r, sep)[0]], Fields(y + r, sep)[1..]);
  }

  lemma {:induction false} FindNonEmpty(fs: seq<string>, key: string)
    requires key != ""
    ensures FindProperty(NonEmpty(fs), key) == FindProperty(fs, key)
  {
    if fs != [] {
      FindNonEmpty(fs[1..], key);
      if fs[0] != "" {
        assert NonEmpty(fs)[1..] == NonEmpty(fs[1..]);
      }
    }
  }

  lemma {:induction false} FindConcat(a: seq<string>, b: seq<string>, key: string)
    ensures FindProperty(a + b, key) == if FindProperty(a, key).Some? then FindProperty(a, key)
            else FindProperty(b, key)
  {
    if a == [] {
      assert a + b == b;
    } else {
      FindConcat(a[1..], b, key);
      assert (a + b)[1..] == a[1..] + b;
    }
  }

  lemma {:induction false} FindMeans(fs: seq<string>, key: string)
    ensures FindProperty(fs, key).None? <==> forall i :: 0 <= i < |fs| ==> !StartsWith(fs[i], key)
  {
    if fs != [] {
      FindMeans(fs[1..], key);
      assert forall i :: 1 <= i < |fs| ==> fs[i] == fs[1..][i - 1];
    }
  }

  lemma KeyStopsAtAQuote(token: string, rest: string, key: string)
    requires !StartsWith(token, key) && '"' !in key && rest != "" && rest[0] == '"'
    ensures !StartsWith(token + rest, key)
  {
    if |key| <= |token| {
      assert (token + rest)[..|key|] == token[..|key|];
    } else if |key| <= |token + rest| {
      assert (token + rest)[..|key|][|token|] == '"';
    }
  }

  /** The pieces of a string that goes on with a quotation mark, and of one that begins with it. */
  lemma QuoteEnds(l: string, r: string)
    ensures var fl, fr := Fields(l, IsWhitespace), Fields(r, IsWhitespace);
            && Fields(l + "\"", IsWhitespace) == Front(fl) + [Last(fl) + "\""]
            && Fields("\"" + r, IsWhitespace) == ["\"" + fr[0]] + fr[1..]
  {
    FieldsWhole("\"", IsWhitespace);
    FieldsConcat(l, "\"", IsWhitespace);
    FieldsConcat("\"", r, IsWhitespace);
  }

  /** The tokens of a segment with a quoted string in it. */
  function QuotedPieces(l: string, y: string, r: string): seq<string> {
    Inserted([Last(Fields(l, IsWhitespace)) + "\""], Fields(y, IsWhitespace), ["\"" + Fields(r, IsWhitespace)[0]])
  }

  lemma SamePieces(fl: seq<string>, fl': seq<string>, fy: seq<string>, fr: seq<string>, fr': seq<string>)
    requires fl != [] && fy != [] && fr != []
    requires fl' == Front(fl) + [Last(fl) + "\""] && fr' == ["\"" + fr[0]] + fr[1..]
    ensures Front(fl') + (Inserted(fl', fy, fr') + fr'[1..])
            == Front(fl) + (Inserted([Last(fl) + "\""], fy, ["\"" + fr[0]]) + fr[1..])
  {
    assert Front(fl') == Front(fl) && Last(fl') == Last(fl) + "\"";
    assert fr'[1..] == fr[1..] && fr'[0] == "\"" + fr[0];
  }

  lemma FieldsAroundQuotes(l: string, y: string, r: string)
    ensures Fields(l + ("\"" + (y + ("\"" + r))), IsWhitespace)
            == Front(Fields(l, IsWhitespace)) + (QuotedPieces(l, y, r) + Fields(r, IsWhitespace)[1..])
  {
    var l', r' := l + "\"", "\"" + r;
    Assoc3(l, "\"", y + r');
    InsertedFields(l', y, r', IsWhitespace);
    QuoteEnds(l, r);
    SamePieces(Fields(l, IsWhitespace), Fields(l', IsWhitespace), Fields(y, IsWhitespace), Fields(r, IsWhitespace),
               Fields(r', IsWhitespace));
  }

  lemma FindAround(l: string, y: string, r: string, key: string)
    requires key != ""
    ensures var a, m := FindProperty(Front(Fields(l, IsWhitespace)), key), FindProperty(QuotedPieces(l, y, r), key);
            FindProperty(Tokens(l + ("\"" + (y + ("\"" + r)))), key)
            == if a.Some? then a else if m.Some? then m else FindProperty(Fields(r, IsWhitespace)[1..], key)
  {
    var a, m, b := Front(Fields(l, IsWhitespace)), QuotedPieces(l, y, r), Fields(r, IsWhitespace)[1..];
    FieldsAroundQuotes(l, y, r);
    FindNonEmpty(a + (m + b), key);
    FindConcat(a, m + b, key);
    FindConcat(m, b, key);
  }

  /** A property is found inside the quotes exactly if a later piece of the text is one. */
  lemma FindInQuotes(l: string, y: string, r: string, key: string)
    requires '"' !in key && !StartsWith(Last(Fields(l, IsWhitespace)), key)
    ensures FindProperty(QuotedPieces(l, y, r), key).None?
            <==> LaterClear(Fields(y, IsWhitespace), key)
  {
    FindInPieces(Last(Fields(l, IsWhitespace)), Fields(y, IsWhitespace), "\"" + Fields(r, IsWhitespace)[0], key);
  }

  lemma FindInPieces(open: string, fy: seq<string>, rest: string, key: string)
    requires '"' !in key && !StartsWith(open, key) && fy != [] && rest != "" && rest[0] == '"'
    ensures FindProperty(Inserted([open + "\""], fy, [rest]), key).None?
            <==> LaterClear(fy, key)
  {
    var ms := Inserted([open + "\""], fy, [rest]);
    InsertedShape([open + "\""], fy, [rest]);
    FindMeans(ms, key);
    OpenPiece(open, fy[0], rest, key);
    if |fy| > 1 {
      LastPiece(Last(fy), rest, key);
      assert ms[|fy| - 1] == Last(fy) + rest;
    }
  }

  lemma OpenPiece(open: string, y: string, rest: string, key: string)
    requires '"' !in key && !StartsWith(open, key)
    ensures !StartsWith((open + "\"") + y, key) && !StartsWith((open + "\"") + (y + rest), key)
  {
    Assoc3(open, "\"", y);
    Assoc3(open, "\"", y + rest);
    KeyStopsAtAQuote(open, "\"" + y, key);
    KeyStopsAtAQuote(open, "\"" + (y + rest), key);
  }

  lemma LastPiece(token: string, rest: string, key: string)
    requires '"' !in key && rest != "" && rest[0] == '"'
    ensures StartsWith(token + rest, key) <==> StartsWith(token, key)
  {
    if !StartsWith(token, key) {
      KeyStopsAtAQuote(token, rest, key);
    } else {
      assert (token + rest)[..|key|] == token[..|key|];
    }
  }

  lemma Keys()
    ensures '"' !in DKIM_KEY && '"' !in DMARC_KEY
  {
  }

  // Harmless text makes no difference

  lemma PropertyIgnoresQuotes(l: string, y: string, r: string, key: string)
    requires key != "" && '"' !in key && !StartsWith(Last(Fields(l, IsWhitespace)), key)
    requires LaterClear(Fields(y, IsWhitespace), key)
    ensures FindProperty(Tokens(l + ("\"" + (y + ("\"" + r)))), key)
            == var a := FindProperty(Front(Fields(l, IsWhitespace)), key);
               if a.Some? then a else FindProperty(Fields(r, IsWhitespace)[1..], key)
  {
    FindAround(l, y, r, key);
    FindInQuotes(l, y, r, key);
  }

  lemma VerdictComesFirst(l: string, y: string, r: string)
    requires NonEmpty(Front(Fields(l, IsWhitespace))) != []
    ensures var ts := Tokens(l + ("\"" + (y + ("\"" + r))));
            ts != [] && ts[0] == NonEmpty(Front(Fields(l, IsWhitespace)))[0]
  {
    FieldsAroundQuotes(l, y, r);
    NonEmptyConcat(Front(Fields(l, IsWhitespace)), QuotedPieces(l, y, r) + Fields(r, IsWhitespace)[1..]);
  }

  lemma SegmentIgnoresQuotes(l: string, y: string, z: string, r: string)
    requires NonEmpty(Front(Fields(l, IsWhitespace))) != [] && NotAProperty(Last(Fields(l, IsWhitespace)))
    requires NoPropertyAfterFirst(Fields(y, IsWhitespace))
    requires NoPropertyAfterFirst(Fields(z, IsWhitespace))
    ensures var s, t := l + ("\"" + (y + ("\"" + r))), l + ("\"" + (z + ("\"" + r)));
            DkimOf(s) == DkimOf(t) && DmarcOf(s) == DmarcOf(t)
  {
    Keys();
    VerdictComesFirst(l, y, r);
    VerdictComesFirst(l, z, r);
    PropertyIgnoresQuotes(l, y, r, DKIM_KEY);
    PropertyIgnoresQuotes(l, z, r, DKIM_KEY);
    PropertyIgnoresQuotes(l, y, r, DMARC_KEY);
    PropertyIgnoresQuotes(l, z, r, DMARC_KEY);
  }

  lemma CollectSameAround(pre: seq<string>, s: string, t: string, post: seq<string>)
    requires DkimOf(s) == DkimOf(t) && DmarcOf(s) == DmarcOf(t)
    ensures Collect(pre + [s] + post) == Collect(pre + [t] + post)
  {
    CollectConcat(pre + [s], post);
    CollectConcat(pre + [t], post);
    assert Front(pre + [s]) == pre && Front(pre + [t]) == pre;
  }

  /** Where a normalised header with a quoted string in it is cut into segments. */
  lemma SegmentsAround(n: string, y: string, r: string)
    requires ';' !in y
    ensures Segments(n + ("\"" + (y + ("\"" + r))))
            == Front(Segments(n)) + [OpenSegment(n) + ("\"" + (y + ("\"" + Segments(r)[0])))] + Segments(r)[1..]
  {
    var x := "\"" + (y + "\"");
    assert "\"" + (y + ("\"" + r)) == x + r;
    FieldsAround(n, x, r, IsSemicolon);
    assert x + Segments(r)[0] == "\"" + (y + ("\"" + Segments(r)[0]));
  }

  lemma NormalisedIgnoresQuotes(n: string, y: string, z: string, r: string)
    requires AfterVerdict(n) && NotAProperty(OpenToken(n)) && ';' !in y && ';' !in z
    requires NoPropertyAfterFirst(Fields(y, IsWhitespace))
    requires NoPropertyAfterFirst(Fields(z, IsWhitespace))
    ensures Collect(Segments(n + ("\"" + (y + ("\"" + r))))) == Collect(Segments(n + ("\"" + (z + ("\"" + r)))))
  {
    var l, r0 := OpenSegment(n), Segments(r)[0];
    SegmentsAround(n, y, r);
    SegmentsAround(n, z, r);
    SegmentIgnoresQuotes(l, y, z, r0);
    CollectSameAround(Front(Segments(n)), l + ("\"" + (y + ("\"" + r0))), l + ("\"" + (z + ("\"" + r0))),
                      Segments(r)[1..]);
  }

  /** What a header with a quoted string at a known place normalises to. */
  lemma StripQuoted(p: string, v: string, q: string)
    requires Run(START, p) == START && QuotedBody(v)
    ensures Lower(Strip(Quoted(p, v, q)))
            == Lower(Strip(p)) + ("\"" + (Lower(Emit(IN_QUOTES, v)) + ("\"" + Lower(Strip(q)))))
    ensures ';' !in Lower(Emit(IN_QUOTES, v))
  {
    Assoc(p, ['"'], v, ['"'], q);
    RunConcat(START, p, ['"'] + (v + (['"'] + q)));
    RunCons(START, '"', v + (['"'] + q));
    QuotedPasses(v);
    RunConcat(IN_QUOTES, v, ['"'] + q);
    RunCons(IN_QUOTES, '"', q);
    LowerAround(Strip(p), Emit(IN_QUOTES, v), Strip(q));
    NoSemicolon(Emit(IN_QUOTES, v));
  }

  lemma LowerAround(a: string, e: string, b: string)
    ensures Lower(a + ("\"" + (e + ("\"" + b)))) == Lower(a) + ("\"" + (Lower(e) + ("\"" + Lower(b))))
  {
  }

  lemma NoSemicolon(s: string)
    requires ';' !in s
    ensures ';' !in Lower(s)
  {
    assert forall i :: 0 <= i < |s| ==> s[i] in s;
  }

  /** Harmless text inside a quoted string, on a token that is neither the verdict nor a property
      the reader looks for, never changes the result. */
  lemma QuotedTextNeverChangesTheVerdicts(p: string, v: string, w: string, q: string)
    requires Fits(p) && QuotedBody(v) && QuotedBody(w) && Harmless(v) && Harmless(w)
    ensures Parse(Quoted(p, v, q)) == Parse(Quoted(p, w, q))
  {
    StripQuoted(p, v, q);
    StripQuoted(p, w, q);
    NormalisedIgnoresQuotes(Lower(Strip(p)), Lower(Emit(IN_QUOTES, v)), Lower(Emit(IN_QUOTES, w)), Lower(Strip(q)));
  }

  // Other text makes a difference somewhere

  /** Characters that mean nothing to the scanner and have no upper case. */
  predicate PlainChar(c: char) {
    c != '"' && c != '(' && c != ')' && c != '\\' && c != ';' && !('A' <= c <= 'Z')
  }

  predicate Plain(t: string) {
    forall i :: 0 <= i < |t| ==> PlainChar(t[i])
  }

  lemma {:induction false} PlainPasses(t: string)
    requires Plain(t)
    ensures Run(START, t) == START && Strip(t) == t
  {
    if t != "" {
      PlainPasses(t[1..]);
      assert t == [t[0]] + t[1..];
    }
  }

  lemma PlainSegment(t: string)
    requires Plain(t)
    ensures Lower(t) == t && Segments(t) == [t]
  {
    FieldsWhole(t, IsSemicolon);
  }

  /** A verdict and the start of some other property; a property after the quoted string. */
  function Opening(mechanism: string): string {
    (mechanism + "=pass") + (" " + "x=")
  }

  function Closing(key: string, domain: string): string {
    "" + (" " + (key + domain))
  }

  predicate Pair(mechanism: string, key: string) {
    (mechanism == "dkim" && key == DKIM_KEY) || (mechanism == "dmarc" && key == DMARC_KEY)
  }

  /** Plain text without white space. */
  predicate Word(t: string) {
    Plain(t) && forall i :: 0 <= i < |t| ==> !IsWhitespace(t[i])
  }

  lemma NotAPrefix(token: string, key: string)
    requires token != "" && key != "" && token[0] != key[0]
    ensures !StartsWith(token, key)
  {
    if |key| <= |token| {
      assert token[..|key|][0] == token[0];
    }
  }

  lemma MechanismWord(mechanism: string)
    requires mechanism == "dkim" || mechanism == "dmarc"
    ensures Word(mechanism + "=pass") && (mechanism + "=pass")[0] == 'd'
  {
  }

  lemma KeyWord(key: string)
    requires key == DKIM_KEY || key == DMARC_KEY
    ensures Word(key) && |key| > 2 && key[0] == 'h' && '"' !in key
  {
  }

  lemma OpeningWords(mechanism: string, key: string)
    requires Pair(mechanism, key)
    ensures Word(mechanism + "=pass") && Word("x=") && Word(key)
    ensures !StartsWith(mechanism + "=pass", key) && NotAProperty("x=") && '"' !in key && key != "" && mechanism != ""
  {
    MechanismWord(mechanism);
    KeyWord(key);
    NotAPrefix(mechanism + "=pass", key);
  }

  lemma TwoWords(a: string, b: string)
    requires Word(b) && (a == "" || Word(a))
    ensures Plain(a + (" " + b)) && Fields(a + (" " + b), IsWhitespace) == [a, b]
  {
    FieldsWhole(a, IsWhitespace);
    FieldsWhole(b, IsWhitespace);
    FieldsSeparated(a, ' ', b, IsWhitespace);
  }

  lemma PlainFits(p: string, first: string, open: string)
    requires Plain(p) && Fields(p, IsWhitespace) == [first, open] && first != "" && NotAProperty(open)
    ensures Fits(p) && Lower(Strip(p)) == p && OpenSegment(p) == p
    ensures NonEmpty(Front(Fields(p, IsWhitespace))) == [first]
  {
    PlainPasses(p);
    PlainSegment(p);
    assert Front([first, open]) == [first];
    assert [first][1..] == [];
  }

  lemma OpeningFits(mechanism: string, key: string)
    requires Pair(mechanism, key)
    ensures Fits(Opening(mechanism)) && Plain(Opening(mechanism))
            && Lower(Strip(Opening(mechanism))) == Opening(mechanism)
    ensures Fields(Opening(mechanism), IsWhitespace) == [mechanism + "=pass", "x="]
    ensures NonEmpty(Front(Fields(Opening(mechanism), IsWhitespace))) == [mechanism + "=pass"]
  {
    OpeningWords(mechanism, key);
    TwoWords(mechanism + "=pass", "x=");
    PlainFits(Opening(mechanism), mechanism + "=pass", "x=");
  }

  lemma PassToken(mechanism: string)
    requires mechanism == "dkim" || mechanism == "dmarc"
    ensures IsPass(mechanism + "=pass", mechanism)
  {
    var token := mechanism + "=pass";
    FindAt(mechanism, '=', "pass");
    assert token == mechanism + (['='] + "pass");
    assert token[..|mechanism|] == mechanism && token[|mechanism| + 1..] == "pass";
  }

  lemma ClosingFields(mechanism: string, key: string, domain: string)
    requires Pair(mechanism, key) && (domain == "a" || domain == "b")
    ensures Plain(Closing(key, domain)) && Fields(Closing(key, domain), IsWhitespace) == ["", key + domain]
  {
    OpeningWords(mechanism, key);
    TwoWords("", key + domain);
  }

  lemma DomainLetter(domain: string)
    requires domain == "a" || domain == "b"
    ensures DomainValue(domain) == Some(domain)
  {
    assert domain[1..] == "";
    assert TakeDomain(domain) == domain;
  }

  /** The verdict on one property of a header that is a single segment. */
  function Verdict(v: Verdicts, mechanism: string): Option<string> {
    if mechanism == "dkim" then (if v.dkim == [] then None else Some(v.dkim[0])) else v.dmarc
  }

  lemma VerdictOfSegment(seg: string, mechanism: string, key: string)
    requires Pair(mechanism, key)
    ensures Verdict(Collect([seg]), mechanism) == VerdictOf(Tokens(seg), mechanism, key)
  {
    assert Front([seg]) == [] && Last([seg]) == seg;
  }

  /** The property a header made of an opening, a quoted string and some plain text has. */
  function Found(mechanism: string, key: string, v: string, q: string): Option<string> {
    var m := FindProperty(QuotedPieces(Opening(mechanism), Lower(Emit(IN_QUOTES, v)), q), key);
    if m.Some? then m else FindProperty(Fields(q, IsWhitespace)[1..], key)
  }

  lemma VerdictBehind(mechanism: string, key: string, v: string, q: string)
    requires Pair(mechanism, key) && QuotedBody(v) && Plain(q)
    ensures var f := Found(mechanism, key, v, q);
            Verdict(Parse(Quoted(Opening(mechanism), v, q)), mechanism) == if f.Some? then DomainValue(f.value)
                else None
  {
    var p, y := Opening(mechanism), Lower(Emit(IN_QUOTES, v));
    OpeningFits(mechanism, key);
    PlainPasses(q);
    PlainSegment(q);
    PlainSegment(p);
    StripQuoted(p, v, q);
    SegmentsAround(p, y, q);
    var seg := p + ("\"" + (y + ("\"" + q)));
    assert Segments(seg) == [seg];
    VerdictOfSegment(seg, mechanism, key);
    VerdictComesFirst(p, y, q);
    PassToken(mechanism);
    OpeningProperty(mechanism, key);
    FindAround(p, y, q, key);
  }

  lemma OpeningProperty(mechanism: string, key: string)
    requires Pair(mechanism, key)
    ensures key != "" && FindProperty(Front(Fields(Opening(mechanism), IsWhitespace)), key) == None
  {
    OpeningWords(mechanism, key);
    OpeningFits(mechanism, key);
    var first := [mechanism + "=pass"];
    assert Front([mechanism + "=pass", "x="]) == first;
    FindMeans(first, key);
  }

  lemma ClosingProperty(mechanism: string, key: string, domain: string)
    requires Pair(mechanism, key) && (domain == "a" || domain == "b")
    ensures FindProperty(Fields(Closing(key, domain), IsWhitespace)[1..], key) == Some(domain)
  {
    ClosingFields(mechanism, key, domain);
    assert ["", key + domain][1..] == [key + domain];
    assert (key + domain)[..|key|] == key && (key + domain)[|key|..] == domain;
  }

  lemma InQuotes(mechanism: string, key: string, v: string, q: string)
    requires Pair(mechanism, key)
    ensures FindProperty(QuotedPieces(Opening(mechanism), Lower(Emit(IN_QUOTES, v)), q), key).None?
            <==> LaterClear(Pieces(v), key)
  {
    OpeningWords(mechanism, key);
    OpeningFits(mechanism, key);
    FindInQuotes(Opening(mechanism), Lower(Emit(IN_QUOTES, v)), q, key);
  }

  lemma NothingQuoted()
    ensures Pieces("") == [""]
  {
    assert Lower(Emit(IN_QUOTES, "")) == "";
  }

  lemma HarmfulShows(v: string, mechanism: string, key: string) returns (p: string, q: string)
    requires QuotedBody(v) && Pair(mechanism, key)
    requires !LaterClear(Pieces(v), key)
    ensures Fits(p) && Parse(Quoted(p, v, q)) != Parse(Quoted(p, "", q))
  {
    p := Opening(mechanism);
    OpeningFits(mechanism, key);
    InQuotes(mechanism, key, v, Closing(key, "a"));
    var m := Found(mechanism, key, v, Closing(key, "a"));
    var domain := if DomainValue(m.value) == Some("a") then "b" else "a";
    q := Closing(key, domain);
    ClosingFields(mechanism, key, "a");
    ClosingFields(mechanism, key, "b");
    assert Found(mechanism, key, v, q) == m;
    InQuotes(mechanism, key, "", q);
    NothingQuoted();
    ClosingProperty(mechanism, key, domain);
    DomainLetter(domain);
    VerdictBehind(mechanism, key, v, q);
    VerdictBehind(mechanism, key, "", q);
  }

  /** Exactly harmless text can stand for the empty string wherever a quoted string may stand. */
  lemma HarmlessMeans(v: string)
    requires QuotedBody(v)
    ensures Harmless(v) <==> forall p, q :: Fits(p) ==> Parse(Quoted(p, v, q)) == Parse(Quoted(p, "", q))
  {
    if Harmless(v) {
      NothingQuoted();
      forall p, q | Fits(p)
        ensures Parse(Quoted(p, v, q)) == Parse(Quoted(p, "", q))
      {
        QuotedTextNeverChangesTheVerdicts(p, v, "", q);
      }
    } else {
      if !LaterClear(Pieces(v), DKIM_KEY) {
        var p, q := HarmfulShows(v, "dkim", DKIM_KEY);
      } else {
        var p, q := HarmfulShows(v, "dmarc", DMARC_KEY);
      }
    }
  }

  const HIDDEN := DKIM_KEY + "n.tw"

  /** The four characters the scanner removes are not all: a vertical tab stays, and a property
      behind it is read as one although it stands in quotes. The header meets every condition
      for a quoted string to be without effect, except that its white space is not one of the four. */
  lemma VerticalTabSurvivesQuotes()
    ensures var p, v := Opening("dkim"), "\U{B}" + HIDDEN;
            && Fits(p) && QuotedBody(v) && QuotedText("") && !NoForeignSpace(v) && !Harmless(v)
            && Verdict(Parse(Quoted(p, v, "")), "dkim") == Some("n.tw")
                && Verdict(Parse(Quoted(p, "", "")), "dkim") == None
            && Parse(Quoted(p, v, "")) != Parse(Quoted(p, "", ""))
  {
    OpeningFits("dkim", DKIM_KEY);
    HiddenPieces();
    HiddenFound();
    VerdictBehind("dkim", DKIM_KEY, "\U{B}" + HIDDEN, "");
    NothingBehind();
  }

  lemma NothingBehind()
    ensures Verdict(Parse(Quoted(Opening("dkim"), "", "")), "dkim") == None
  {
    VerdictBehind("dkim", DKIM_KEY, "", "");
    InQuotes("dkim", DKIM_KEY, "", "");
    NothingQuoted();
  }

  lemma {:induction false} UnescapedPasses(v: string)
    requires forall i :: 0 <= i < |v| ==> v[i] != '\\' && v[i] != '"' && !IsStructure(v[i])
    ensures QuotedBody(v) && Emit(IN_QUOTES, v) == v
  {
    if v != "" {
      UnescapedPasses(v[1..]);
      assert v == [v[0]] + v[1..];
    }
  }

  lemma HiddenWord()
    ensures Word(HIDDEN) && forall i :: 0 <= i < |HIDDEN| ==>
                              HIDDEN[i] != '\\' && HIDDEN[i] != '"' && !IsStructure(HIDDEN[i])
  {
    OpeningWords("dkim", DKIM_KEY);
  }

  lemma HiddenPieces()
    ensures var v := "\U{B}" + HIDDEN;
            QuotedBody(v) && Pieces(v) == ["", HIDDEN] && !NoForeignSpace(v)
  {
    var v := "\U{B}" + HIDDEN;
    HiddenWord();
    UnescapedPasses(v);
    PlainSegment(v);
    FieldsWhole(HIDDEN, IsWhitespace);
    FieldsSeparated("", '\U{B}', HIDDEN, IsWhitespace);
    assert "" + v == v;
  }

  lemma HiddenFound()
    ensures StartsWith(HIDDEN, DKIM_KEY)
    ensures Found("dkim", DKIM_KEY, "\U{B}" + HIDDEN, "") == Some("n.tw\"")
    ensures DomainValue("n.tw\"") == Some("n.tw")
  {
    HiddenPieces();
    OpeningFits("dkim", DKIM_KEY);
    HiddenProperty("x=", ["", HIDDEN]);
    assert "\"" + "" == "\"";
    HiddenDomain();
  }

  lemma HiddenDomain()
    ensures StartsWith(HIDDEN, DKIM_KEY) && DomainValue("n.tw\"") == Some("n.tw")
  {
    assert HIDDEN[..|DKIM_KEY|] == DKIM_KEY;
    assert "n.tw\"" == "" + (("n.tw" + "") + "\"");
    DomainValueMeans("n.tw\"", "", "n.tw", "", "\"");
  }

  lemma HiddenProperty(open: string, fy: seq<string>)
    requires open == "x=" && fy == ["", HIDDEN]
    ensures FindProperty(Inserted([open + "\""], fy, ["\""]), DKIM_KEY) == Some("n.tw\"")
  {
    var first, token := (open + "\"") + "", HIDDEN + "\"";
    InsertedShape([open + "\""], fy, ["\""]);
    assert Inserted([open + "\""], fy, ["\""]) == [first, token];
    assert token[..|DKIM_KEY|] == DKIM_KEY && token[|DKIM_KEY|..] == "n.tw\"";
    assert first[0] == 'x';
    assert [first, token][1..] == [token];
  }
}
