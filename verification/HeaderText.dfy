/** What a header is made of and what normalising makes of it: an independent reading of
    `strip_cfws`, by the parts of a header instead of by its characters. */
module HeaderText {
  import opened Text
  import opened AuthResults
  import opened Comments

  /** Quoted text: a character, or a backslash and the character it escapes. */
  datatype Piece = Plain(c: char) | Escape(c: char)

  /** A character outside quotes and comments, a closing parenthesis without an opening one, a
      comment, or a quoted string. */
  datatype Item = Single(c: char) | Stray | Remark(text: string) | Quoted(pieces: seq<Piece>)

  /** What never ends: a comment, or a quoted string, with or without a backslash at its end. */
  datatype Tail = Nothing | OpenRemark(text: string) | OpenQuotes(pieces: seq<Piece>, backslash: bool)

  /** A text that never closes more parentheses than it opened, with `d` open before. */
  predicate Unclosed(c: string, d: nat) {
    if c == "" then true
    else if c[0] == '(' then Unclosed(c[1..], d + 1)
    else if c[0] == ')' then d > 0 && Unclosed(c[1..], d - 1)
    else Unclosed(c[1..], d)
  }

  predicate FitsQuotes(ps: seq<Piece>) {
    forall p :: p in ps && p.Plain? ==> p.c != '"' && p.c != '\\'
  }

  predicate ItemOk(i: Item) {
    match i
    case Single(c) => c != '"' && c != '(' && c != ')'
    case Stray => true
    case Remark(text) => Closes(text, 0)
    case Quoted(ps) => FitsQuotes(ps)
  }

  predicate TailOk(t: Tail) {
    match t
    case Nothing => true
    case OpenRemark(text) => Unclosed(text, 0)
    case OpenQuotes(ps, _) => FitsQuotes(ps)
  }

  // ── The header as it is written ────────────────────────

  function PieceText(p: Piece): string {
    match p
    case Plain(c) => [c]
    case Escape(c) => ['\\', c]
  }

  function Written(ps: seq<Piece>): string {
    if ps == [] then "" else PieceText(ps[0]) + Written(ps[1..])
  }

  function TailText(t: Tail): string {
    match t
    case Nothing => ""
    case OpenRemark(text) => "(" + text
    case OpenQuotes(ps, backslash) => "\"" + (Written(ps) + if backslash then "\\" else "")
  }

  function Header(items: seq<Item>, t: Tail): string {
    if items == [] then TailText(t)
    else
      var rest := Header(items[1..], t);
      match items[0]
      case Single(c) => [c] + rest
      case Stray => ")" + rest
      case Remark(text) => "(" + (text + (")" + rest))
      case Quoted(ps) => "\"" + (Written(ps) + ("\"" + rest))
  }

  // ── What is left of it ─────────────────────────────────

  /** Of quoted text stays everything but semicolons and four white-space characters; whatever
      is escaped becomes an underscore. */
  function PieceLeft(p: Piece): string {
    match p
    case Plain(c) => if c in {';', ' ', '\t', '\r', '\n'} then "" else [c]
    case Escape(_) => "_"
  }

  function Kept(ps: seq<Piece>): string {
    if ps == [] then "" else PieceLeft(ps[0]) + Kept(ps[1..])
  }

  function TailLeft(t: Tail): string {
    match t
    case Nothing => ""
    case OpenRemark(_) => " "
    case OpenQuotes(ps, _) => "\"" + Kept(ps)
  }

  /** A comment becomes a blank, quotes stay, a stray parenthesis goes. */
  function Left(items: seq<Item>, t: Tail): string {
    if items == [] then TailLeft(t)
    else
      var rest := Left(items[1..], t);
      match items[0]
      case Single(c) => [c] + rest
      case Stray => rest
      case Remark(_) => " " + rest
      case Quoted(ps) => "\"" + (Kept(ps) + ("\"" + rest))
  }

  lemma {:induction false} RemarkIsRead(c: string, d: nat, r: string)
    requires Closes(c, d)
    ensures Emit(Inside(d + 1), c + (")" + r)) == Emit(START, r)
    decreases c
  {
    if c == "" {
      assert c + (")" + r) == [')'] + r;
      RunCons(Inside(d + 1), ')', r);
    } else {
      assert c + (")" + r) == [c[0]] + (c[1..] + (")" + r));
      RunCons(Inside(d + 1), c[0], c[1..] + (")" + r));
      RemarkIsRead(c[1..], if c[0] == '(' then d + 1 else if c[0] == ')' then d - 1 else d, r);
    }
  }

  lemma {:induction false} OpenRemarkIsRead(c: string, d: nat)
    requires Unclosed(c, d)
    ensures Emit(Inside(d + 1), c) == ""
    decreases c
  {
    if c != "" {
      OpenRemarkIsRead(c[1..], if c[0] == '(' then d + 1 else if c[0] == ')' then d - 1 else d);
    }
  }

  lemma PieceIsRead(p: Piece, r: string)
    requires p.Plain? ==> p.c != '"' && p.c != '\\'
    ensures Emit(IN_QUOTES, PieceText(p) + r) == PieceLeft(p) + Emit(IN_QUOTES, r)
  {
    match p
    case Plain(c) => RunCons(IN_QUOTES, c, r);
    case Escape(c) =>
      assert PieceText(p) + r == ['\\'] + ([c] + r);
      RunCons(IN_QUOTES, '\\', [c] + r);
      RunCons(Scan(0, true, true), c, r);
  }

  lemma {:induction false} QuotedIsRead(ps: seq<Piece>, r: string)
    requires FitsQuotes(ps)
    ensures Emit(IN_QUOTES, Written(ps) + r) == Kept(ps) + Emit(IN_QUOTES, r)
  {
    if ps == [] {
      assert Written(ps) + r == r;
    } else {
      QuotedIsRead(ps[1..], r);
      assert ps[0] in ps;
      PieceIsRead(ps[0], Written(ps[1..]) + r);
      Assoc3(PieceText(ps[0]), Written(ps[1..]), r);
      Assoc3(PieceLeft(ps[0]), Kept(ps[1..]), Emit(IN_QUOTES, r));
    }
  }

  lemma TailIsRead(t: Tail)
    requires TailOk(t)
    ensures Emit(START, TailText(t)) == TailLeft(t)
  {
    match t
    case Nothing =>
    case OpenRemark(text) =>
      RunCons(START, '(', text);
      OpenRemarkIsRead(text, 0);
    case OpenQuotes(ps, backslash) =>
      var end := if backslash then "\\" else "";
      RunCons(START, '"', Written(ps) + end);
      QuotedIsRead(ps, end);
      assert backslash ==> end[1..] == "";
  }

  /** Normalising reads a header part by part. */
  lemma {:induction false} StripMeans(items: seq<Item>, t: Tail)
    requires TailOk(t) && forall i :: i in items ==> ItemOk(i)
    ensures Strip(Header(items, t)) == Left(items, t)
  {
    if items == [] {
      TailIsRead(t);
    } else {
      var rest := Header(items[1..], t);
      StripMeans(items[1..], t);
      assert ItemOk(items[0]);
      match items[0]
      case Single(c) => RunCons(START, c, rest);
      case Stray => RunCons(START, ')', rest);
      case Remark(text) =>
        RunCons(START, '(', text + (")" + rest));
        RemarkIsRead(text, 0, rest);
      case Quoted(ps) =>
        RunCons(START, '"', Written(ps) + ("\"" + rest));
        QuotedIsRead(ps, "\"" + rest);
        RunCons(IN_QUOTES, '"', rest);
    }
  }

  // ── Every text is such a header ────────────────────────

  lemma {:induction false} SplitRemark(s: string, d: nat) returns (c: string, rest: string, closed: bool)
    ensures closed ==> s == c + (")" + rest) && Closes(c, d)
    ensures !closed ==> Unclosed(s, d)
    decreases s
  {
    if s == "" {
      c, rest, closed := "", "", false;
    } else if s[0] == ')' && d == 0 {
      c, rest, closed := "", s[1..], true;
      assert s == "" + (")" + rest);
    } else {
      var e := if s[0] == '(' then d + 1 else if s[0] == ')' then d - 1 else d;
      c, rest, closed := SplitRemark(s[1..], e);
      if closed {
        assert s == [s[0]] + (c + (")" + rest)) == ([s[0]] + c) + (")" + rest);
        assert ([s[0]] + c)[1..] == c;
        c := [s[0]] + c;
      }
    }
  }

  lemma {:induction false} SplitQuotes(s: string) returns (ps: seq<Piece>, rest: string, closed: bool, backslash: bool)
    ensures FitsQuotes(ps)
    ensures s == Written(ps) + if closed then "\"" + rest else if backslash then "\\" else ""
  {
    if s == "" || s == "\\" || s[0] == '"' {
      ps, closed, backslash := [], s != "" && s[0] == '"', s == "\\";
      rest := if closed then s[1..] else "";
    } else {
      var p := if s[0] == '\\' then Escape(s[1]) else Plain(s[0]);
      var used := if s[0] == '\\' then 2 else 1;
      ps, rest, closed, backslash := SplitQuotes(s[used..]);
      var end := if closed then "\"" + rest else if backslash then "\\" else "";
      assert s == s[..used] + (Written(ps) + end) == (s[..used] + Written(ps)) + end;
      assert ([p] + ps)[1..] == ps;
      ps := [p] + ps;
    }
  }

  /** Every text splits into such parts, so `StripMeans` says what normalising makes of any. */
  lemma {:induction false} HeaderSplits(raw: string) returns (items: seq<Item>, t: Tail)
    ensures TailOk(t) && forall i :: i in items ==> ItemOk(i)
    ensures raw == Header(items, t)
    decreases |raw|
  {
    if raw == "" {
      return [], Nothing;
    }
    var first, behind := Single(raw[0]), raw[1..];
    if raw[0] == '(' {
      var c, rest, closed := SplitRemark(raw[1..], 0);
      if !closed {
        return [], OpenRemark(raw[1..]);
      }
      first, behind := Remark(c), rest;
    } else if raw[0] == '"' {
      var ps, rest, closed, backslash := SplitQuotes(raw[1..]);
      if !closed {
        return [], OpenQuotes(ps, backslash);
      }
      first, behind := Quoted(ps), rest;
    } else if raw[0] == ')' {
      first := Stray;
    }
    items, t := HeaderSplits(behind);
    assert ([first] + items)[1..] == items;
    items := [first] + items;
  }
}
