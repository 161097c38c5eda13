/** Strings as the control plane reads them: Rust's `char::is_whitespace`, ASCII
    classes, and cutting a string at separator characters. A `char` is a Unicode
    scalar value, as in Rust. */
module Text {

  datatype Option<+T> = None | Some(value: T)

  /** The Unicode White_Space property, which is what Rust's `char::is_whitespace` tests. */
  predicate IsWhitespace(c: char) {
    var n := c as int;
    || 0x09 <= n <= 0x0D || n == 0x20 || n == 0x85 || n == 0xA0 || n == 0x1680
    || 0x2000 <= n <= 0x200A || n == 0x2028 || n == 0x2029 || n == 0x202F || n == 0x205F || n == 0x3000
  }

  /** The twenty-five characters that have it. */
  lemma WhiteMeans(c: char)
    ensures IsWhitespace(c)
            <==> c in "\t\n\U{0B}\U{0C}\r \U{85}\U{A0}\U{1680}\U{2000}\U{2001}\U{2002}\U{2003}\U{2004}\U{2005}"
                 || c in "\U{2006}\U{2007}\U{2008}\U{2009}\U{200A}\U{2028}\U{2029}\U{202F}\U{205F}\U{3000}"
  {
  }

  predicate IsDigit(c: char) {
    '0' <= c <= '9'
  }

  predicate IsAsciiAlphanumeric(c: char) {
    IsDigit(c) || 'a' <= c <= 'z' || 'A' <= c <= 'Z'
  }

  predicate IsSemicolon(c: char) {
    c == ';'
  }

  predicate IsDot(c: char) {
    c == '.'
  }

  predicate IsNewline(c: char) {
    c == '\n'
  }

  function LowerChar(c: char): char {
    if 'A' <= c <= 'Z' then (c as int + 32) as char else c
  }

  /** ASCII lower-casing. */
  function Lower(s: string): (r: string)
    ensures |r| == |s|
    ensures forall i :: 0 <= i < |s| ==> r[i] == LowerChar(s[i])
  {
    seq(|s|, i requires 0 <= i < |s| => LowerChar(s[i]))
  }

  /** Lower-casing takes each letter of the ASCII alphabet to its small form and nothing else. */
  lemma LowerMeans(k: nat)
    requires k < 26
    ensures LowerChar("ABCDEFGHIJKLMNOPQRSTUVWXYZ"[k]) == "abcdefghijklmnopqrstuvwxyz"[k]
    ensures forall c :: c !in "ABCDEFGHIJKLMNOPQRSTUVWXYZ" ==> LowerChar(c) == c
  {
  }

  lemma LowerConcat(a: string, b: string)
    ensures Lower(a + b) == Lower(a) + Lower(b)
  {
  }

  /** Bytes of a character in UTF-8. */
  function Width(c: char): nat {
    var n := c as int;
    if n < 0x80 then 1 else if n < 0x800 then 2 else if n < 0x10000 then 3 else 4
  }

  /** The bytes of a character in UTF-8 (section 3 of RFC 3629). */
  ghost function Utf8(c: char): seq<int> {
    var n := c as int;
    if n <= 0x7F then [n]
    else if n <= 0x7FF then [0xC0 + n / 64, 0x80 + n % 64]
    else if n <= 0xFFFF then [0xE0 + n / 4096, 0x80 + n / 64 % 64, 0x80 + n % 64]
    else [0xF0 + n / 262144, 0x80 + n / 4096 % 64, 0x80 + n / 64 % 64, 0x80 + n % 64]
  }

  ghost function Utf8Text(s: string): seq<int> {
    if s == "" then [] else Utf8Text(s[..|s| - 1]) + Utf8(s[|s| - 1])
  }

  /** Bytes before position `i`. */
  function Offset(s: string, i: nat): nat
    requires i <= |s|
  {
    if i == 0 then 0 else Offset(s, i - 1) + Width(s[i - 1])
  }

  lemma {:induction false} OffsetMeans(s: string, i: nat)
    requires i <= |s|
    ensures Offset(s, i) == |Utf8Text(s[..i])|
  {
    if i > 0 {
      OffsetMeans(s, i - 1);
      assert s[..i][..i - 1] == s[..i - 1] && s[..i][i - 1] == s[i - 1];
    }
  }

  predicate StartsWith(s: string, p: string) {
    |p| <= |s| && s[..|p|] == p
  }

  predicate EndsWith(s: string, p: string) {
    |p| <= |s| && s[|s| - |p|..] == p
  }

  lemma StartsMeans(s: string, p: string)
    ensures StartsWith(s, p) <==> exists r :: s == p + r
  {
    if StartsWith(s, p) {
      assert s == p + s[|p|..];
    }
  }

  lemma EndsMeans(s: string, p: string)
    ensures EndsWith(s, p) <==> exists r :: s == r + p
  {
    if EndsWith(s, p) {
      assert s == s[..|s| - |p|] + p;
    }
  }

  lemma Assoc3<T>(a: seq<T>, b: seq<T>, c: seq<T>)
    ensures a + (b + c) == (a + b) + c
  {
  }

  lemma Assoc(a: string, b: string, c: string, d: string, e: string)
    ensures a + b + c + d + e == a + (b + (c + (d + e)))
  {
  }

  // ── Cutting at separators ──────────────────────────────

  /** Every piece between separators, empty ones included: Rust's `split(pred)`. */
  function Fields(s: string, sep: char -> bool): (r: seq<string>)
    ensures |r| >= 1
  {
    if s == "" then [""]
    else if sep(s[0]) then [""] + Fields(s[1..], sep)
    else
      var r := Fields(s[1..], sep);
      [[s[0]] + r[0]] + r[1..]
  }

  function Last<T>(s: seq<T>): T
    requires |s| >= 1
  {
    s[|s| - 1]
  }

  function Front<T>(s: seq<T>): seq<T>
    requires |s| >= 1
  {
    s[..|s| - 1]
  }

  /** Cutting a concatenation: only the two pieces that touch are merged. */
  lemma {:induction false} FieldsConcat(a: string, b: string, sep: char -> bool)
    ensures Fields(a + b, sep)
            == Front(Fields(a, sep)) + [Last(Fields(a, sep)) + Fields(b, sep)[0]] + Fields(b, sep)[1..]
  {
    if a == "" {
      assert a + b == b;
      var fb := Fields(b, sep);
      assert "" + fb[0] == fb[0];
      assert Front(Fields(a, sep)) + ["" + fb[0]] + fb[1..] == fb;
    } else {
      FieldsConcat(a[1..], b, sep);
      assert (a + b)[1..] == a[1..] + b;
      PrependToFirst(Fields(a[1..], sep), Fields(b, sep), a[0]);
    }
  }

  /** The two ways `Fields` extends its first piece commute with merging further right. */
  lemma PrependToFirst(fa: seq<string>, fb: seq<string>, c: char)
    requires |fa| >= 1 && |fb| >= 1
    ensures var m := Front(fa) + [Last(fa) + fb[0]] + fb[1..];
            var ext := [[c] + fa[0]] + fa[1..];
            var sp := [""] + fa;
            && |m| >= 1
            && [[c] + m[0]] + m[1..] == Front(ext) + [Last(ext) + fb[0]] + fb[1..]
            && [""] + m == Front(sp) + [Last(sp) + fb[0]] + fb[1..]
  {
    var m := Front(fa) + [Last(fa) + fb[0]] + fb[1..];
    var ext := [[c] + fa[0]] + fa[1..];
    var sp := [""] + fa;
    assert Front(sp) == [""] + Front(fa);
    assert [""] + m == Front(sp) + [Last(sp) + fb[0]] + fb[1..];
    if |fa| == 1 {
      assert [c] + (fa[0] + fb[0]) == ([c] + fa[0]) + fb[0];
      assert m[1..] == fb[1..];
    } else {
      assert Front(ext) == [[c] + fa[0]] + Front(fa)[1..];
      assert m[1..] == Front(fa)[1..] + [Last(fa) + fb[0]] + fb[1..];
    }
  }

  lemma MergeEmpty(fa: seq<string>, fb: seq<string>)
    requires |fa| >= 1
    ensures Front(fa) + [Last(fa) + ([""] + fb)[0]] + ([""] + fb)[1..] == fa + fb
  {
    assert ([""] + fb)[1..] == fb;
    assert Last(fa) + "" == Last(fa);
    assert Front(fa) + [Last(fa)] == fa;
  }

  /** A separator between two strings keeps their pieces apart. */
  lemma FieldsSeparated(a: string, c: char, b: string, sep: char -> bool)
    requires sep(c)
    ensures Fields(a + ([c] + b), sep) == Fields(a, sep) + Fields(b, sep)
  {
    FieldsConcat(a, [c] + b, sep);
    assert Fields([c] + b, sep) == [""] + Fields(b, sep) by {
      assert ([c] + b)[1..] == b;
    }
    MergeEmpty(Fields(a, sep), Fields(b, sep));
  }

  /** The first piece ends at the first separator. */
  lemma {:induction false} FirstCut(s: string, sep: char -> bool)
    requires |Fields(s, sep)| >= 2
    ensures |Fields(s, sep)[0]| < |s| && sep(s[|Fields(s, sep)[0]|])
    ensures s[..|Fields(s, sep)[0]|] == Fields(s, sep)[0]
  {
    if !sep(s[0]) {
      FirstCut(s[1..], sep);
      var r := Fields(s[1..], sep);
      assert s[..|r[0]| + 1] == [s[0]] + s[1..][..|r[0]|];
    }
  }

  /** No separator, one piece. */
  lemma {:induction false} FieldsWhole(s: string, sep: char -> bool)
    requires forall i :: 0 <= i < |s| ==> !sep(s[i])
    ensures Fields(s, sep) == [s]
  {
    if s != "" {
      FieldsWhole(s[1..], sep);
      assert s == [s[0]] + s[1..];
    }
  }

  /** Around a string without separators, exactly two pieces are glued to it. */
  lemma FieldsAround(l: string, x: string, r: string, sep: char -> bool)
    requires forall i :: 0 <= i < |x| ==> !sep(x[i])
    ensures Fields(l + (x + r), sep)
            == Front(Fields(l, sep)) + [Last(Fields(l, sep)) + (x + Fields(r, sep)[0])] + Fields(r, sep)[1..]
  {
    FieldsWhole(x, sep);
    FieldsConcat(x, r, sep);
    assert Front([x]) == [];
    FieldsConcat(l, x + r, sep);
    assert Fields(x + r, sep)[1..] == Fields(r, sep)[1..];
  }

  // ── Tokens ─────────────────────────────────────────────

  function NonEmpty(fs: seq<string>): (r: seq<string>)
    ensures "" !in r
    ensures forall f :: f in r ==> f in fs
  {
    if fs == [] then []
    else if fs[0] == "" then NonEmpty(fs[1..])
    else [fs[0]] + NonEmpty(fs[1..])
  }

  lemma {:induction false} NonEmptyConcat(a: seq<string>, b: seq<string>)
    ensures NonEmpty(a + b) == NonEmpty(a) + NonEmpty(b)
  {
    if a == [] {
      assert a + b == b;
    } else {
      NonEmptyConcat(a[1..], b);
      assert (a + b)[1..] == a[1..] + b && (a + b)[0] == a[0];
      assert [a[0]] + (NonEmpty(a[1..]) + NonEmpty(b)) == ([a[0]] + NonEmpty(a[1..])) + NonEmpty(b);
    }
  }

  /** Rust's `split_whitespace`. */
  function Tokens(s: string): seq<string> {
    NonEmpty(Fields(s, IsWhitespace))
  }

  predicate White(s: string) {
    forall i :: 0 <= i < |s| ==> IsWhitespace(s[i])
  }

  lemma WhiteConcat(a: string, b: string)
    ensures White(a + b) <==> White(a) && White(b)
  {
    var s := a + b;
    assert forall i :: 0 <= i < |a| ==> s[i] == a[i];
    assert forall i :: 0 <= i < |b| ==> s[|a| + i] == b[i];
  }

  lemma {:induction false} TokensBehindWhite(w: string, r: string)
    requires White(w)
    ensures Tokens(w + r) == Tokens(r)
  {
    if w == "" {
      assert w + r == r;
    } else {
      TokensBehindWhite(w[1..], r);
      assert (w + r)[0] == w[0] && (w + r)[1..] == w[1..] + r;
      assert ([""] + Fields(w[1..] + r, IsWhitespace))[1..] == Fields(w[1..] + r, IsWhitespace);
    }
  }

  lemma NoTokens()
    ensures Tokens("") == []
  {
    assert [""][1..] == [];
  }

  /** The first piece, and what follows it. */
  lemma {:induction false} FirstPiece(s: string, sep: char -> bool) returns (rest: string)
    ensures s == Fields(s, sep)[0] + rest && (rest != "" ==> sep(rest[0]))
  {
    if s == "" || sep(s[0]) {
      rest := s;
    } else {
      rest := FirstPiece(s[1..], sep);
      assert s == [s[0]] + (Fields(s[1..], sep)[0] + rest);
    }
  }

  lemma {:induction false} FirstPieceClean(s: string, sep: char -> bool)
    ensures forall i :: 0 <= i < |Fields(s, sep)[0]| ==> !sep(Fields(s, sep)[0][i])
  {
    if s != "" && !sep(s[0]) {
      FirstPieceClean(s[1..], sep);
      var tail := Fields(s[1..], sep)[0];
      assert Fields(s, sep)[0] == [s[0]] + tail;
    }
  }

  /** A word: it is not empty and has no white space. */
  predicate IsToken(t: string) {
    t != "" && forall i :: 0 <= i < |t| ==> !IsWhitespace(t[i])
  }

  /** A word with white space or nothing behind it is the first token. */
  lemma WordComesFirst(t: string, r: string)
    requires IsToken(t) && (r == "" || IsWhitespace(r[0]))
    ensures Tokens(t + r) != [] && Tokens(t + r)[0] == t
  {
    FieldsWhole(t, IsWhitespace);
    FieldsConcat(t, r, IsWhitespace);
    assert Front([t]) == [] && t + "" == t;
    assert Fields(t + r, IsWhitespace)[0] == t;
  }

  /** Where the first token stands. */
  lemma {:induction false} FindFirstToken(s: string) returns (w: string, r: string)
    requires Tokens(s) != []
    ensures s == w + (Tokens(s)[0] + r) && White(w) && IsToken(Tokens(s)[0]) && (r == "" || IsWhitespace(r[0]))
  {
    NoTokens();
    if IsWhitespace(s[0]) {
      assert s == [s[0]] + s[1..];
      TokensBehindWhite([s[0]], s[1..]);
      w, r := FindFirstToken(s[1..]);
      w := [s[0]] + w;
    } else {
      w := "";
      r := FirstPiece(s, IsWhitespace);
      FirstPieceClean(s, IsWhitespace);
    }
  }

  // ── Trimming ───────────────────────────────────────────

  function TrimStart(s: string): (r: string)
    ensures r != "" ==> !IsWhitespace(r[0])
  {
    if s != "" && IsWhitespace(s[0]) then TrimStart(s[1..]) else s
  }

  function TrimEnd(s: string): (r: string)
    ensures r <= s
    ensures r != "" ==> !IsWhitespace(Last(r))
  {
    if s != "" && IsWhitespace(Last(s)) then TrimEnd(Front(s)) else s
  }

  function Trim(s: string): string {
    TrimEnd(TrimStart(s))
  }

  /** Trimming at the start removes exactly the white space there. */
  lemma {:induction false} TrimStartMeans(w: string, r: string)
    requires White(w) && (r != "" ==> !IsWhitespace(r[0]))
    ensures TrimStart(w + r) == r
  {
    if w == "" {
      assert w + r == r;
    } else {
      TrimStartMeans(w[1..], r);
      assert (w + r)[0] == w[0] && (w + r)[1..] == w[1..] + r;
    }
  }

  lemma {:induction false} TrimEndMeans(r: string, w: string)
    requires White(w) && (r != "" ==> !IsWhitespace(Last(r)))
    ensures TrimEnd(r + w) == r
  {
    if w == "" {
      assert r + w == r;
    } else {
      TrimEndMeans(r, Front(w));
      assert Last(r + w) == Last(w) && Front(r + w) == r + Front(w);
    }
  }

  // ── Searching ──────────────────────────────────────────

  /** Index of the first `c` in `s`, or `|s|`. */
  function Find(s: string, c: char): (i: nat)
    ensures i <= |s| && c !in s[..i]
    ensures i < |s| ==> s[i] == c
  {
    if s == "" || s[0] == c then 0
    else
      var i := Find(s[1..], c) + 1;
      assert s[..i] == [s[0]] + s[1..][..i - 1];
      i
  }

  lemma {:induction false} FindAt(a: string, c: char, b: string)
    requires c !in a
    ensures Find(a + ([c] + b), c) == |a|
  {
    if a != "" {
      FindAt(a[1..], c, b);
      assert (a + ([c] + b))[1..] == a[1..] + ([c] + b);
    }
  }

  predicate OccursAt(s: string, p: string, i: nat) {
    i + |p| <= |s| && s[i..i + |p|] == p
  }

  lemma OccursMeans(s: string, p: string, i: nat)
    ensures OccursAt(s, p, i) <==> exists a, b :: |a| == i && s == a + (p + b)
  {
    if OccursAt(s, p, i) {
      assert s == s[..i] + (p + s[i + |p|..]);
    }
  }

  predicate Contains(s: string, p: string) {
    exists i: nat :: i <= |s| && OccursAt(s, p, i)
  }
}
