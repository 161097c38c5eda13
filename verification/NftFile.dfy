/** The boot-time file of the kernel set: written from the table, read back by the first
    import. */
module NftFile {
  import opened Text
  import opened Decimal
  import opened Allowlist

  /** One element of the set: an address and its remaining seconds. */
  datatype Elem = Elem(ip: string, ttl: int)

  const SET_V4 := "add element inet nfhh clients_v4 "
  const SET_V6 := "add element inet nfhh clients_v6 "

  /** The comment block at the top and the blank line after it. */
  const H1 := Comment("⚠️ 自動產生 —— 由控制平面依 SQLite 內容重寫，手動修改會被覆蓋。")
  // One line of the file; joined from two literals because the solver does not look far enough
  // into one of that length.
  const H2 := Comment("開機時由 nfhh-firewall.service 載入，" + "用途是補上「重開機後、控制平面啟動前」")
  const H3 := Comment("這段空窗期的白名單，否則各樓層會被擋在外面。")
  const H4 := Comment("真實來源是控制平面的 SQLite；這裡的 timeout 以寫檔當下重算。")
  const HEADER: seq<string> := [H1, H2, H3, H4, ""]

  function Comment(text: string): string {
    "# " + text
  }

  // ── Writing ────────────────────────────────────────────

  /** A signed integer as Rust prints it. */
  function Signed(n: int): string {
    if n < 0 then "-" + Dec(-n) else Dec(n)
  }

  function Duration(ttl: int): string {
    Signed(ttl) + "s"
  }

  /** What stands between the braces. */
  function Inner(e: Elem): string {
    InnerText(e.ip, Duration(e.ttl))
  }

  function LineText(set_: string, e: Elem): string {
    set_ + ("{" + (Inner(e) + "}"))
  }

  function Texts(set_: string, es: seq<Elem>): (ls: seq<string>)
    ensures |ls| == |es|
  {
    seq(|es|, i requires 0 <= i < |es| => LineText(set_, es[i]))
  }

  /** Lines, each ended by a newline. */
  function Written(ls: seq<string>): string {
    if ls == [] then "" else ls[0] + ("\n" + Written(ls[1..]))
  }

  function Lines(header: seq<string>, set4: string, v4: seq<Elem>, set6: string, v6: seq<Elem>): seq<string> {
    header + Texts(set4, v4) + Texts(set6, v6)
  }

  function FileText(v4: seq<Elem>, v6: seq<Elem>): string {
    Written(Lines(HEADER, SET_V4, v4, SET_V6, v6))
  }

  lemma {:induction false} WrittenConcat(xs: seq<string>, ys: seq<string>)
    ensures Written(xs + ys) == Written(xs) + Written(ys)
  {
    if xs == [] {
      assert xs + ys == ys;
      assert "" + Written(ys) == Written(ys);
    } else {
      WrittenConcat(xs[1..], ys);
      assert (xs + ys)[1..] == xs[1..] + ys;
      Assoc3("\n", Written(xs[1..]), Written(ys));
      Assoc3(xs[0], "\n" + Written(xs[1..]), Written(ys));
    }
  }

  lemma WrittenOne(l: string)
    ensures Written([l]) == l + "\n"
  {
  }

  method PushLines(s0: string, set_: string, es: seq<Elem>) returns (s: string)
    ensures s == s0 + Written(Texts(set_, es))
  {
    s := s0;
    ghost var ls := Texts(set_, es);
    for i := 0 to |es|
      invariant s == s0 + Written(ls[..i])
    {
      var line := LineText(set_, es[i]);
      AppendLine(s0, ls, i);
      s := s + (line + "\n");
    }
    assert ls[..|es|] == ls;
  }

  lemma AppendLine(s0: string, ls: seq<string>, i: nat)
    requires i < |ls|
    ensures s0 + Written(ls[..i + 1]) == (s0 + Written(ls[..i])) + (ls[i] + "\n")
  {
    assert ls[..i + 1] == ls[..i] + [ls[i]];
    WrittenConcat(ls[..i], [ls[i]]);
    WrittenOne(ls[i]);
    Assoc3(s0, Written(ls[..i]), ls[i] + "\n");
  }

  method WritePersist(v4: seq<Elem>, v6: seq<Elem>) returns (s: string)
    ensures s == FileText(v4, v6)
  {
    s := Written(HEADER);
    s := PushLines(s, SET_V4, v4);
    s := PushLines(s, SET_V6, v6);
    WrittenConcat(HEADER, Texts(SET_V4, v4));
    WrittenConcat(HEADER + Texts(SET_V4, v4), Texts(SET_V6, v6));
  }

  // ── Reading ────────────────────────────────────────────

  function DigitsPrefix(s: string): (n: nat)
    ensures n <= |s| && AllDigits(s[..n])
    ensures n < |s| ==> !IsDigit(s[n])
  {
    if s == "" || !IsDigit(s[0]) then 0
    else
      var n := DigitsPrefix(s[1..]) + 1;
      assert s[..n] == [s[0]] + s[1..][..n - 1];
      n
  }

  function ParseDuration(s: string): Option<int> {
    var n := DigitsPrefix(s);
    if n == |s| then None
    else
      match ParseI64(s[..n])
      case None => None
      case Some(v) =>
        if s[n..] == "s" then Some(v)
        else if s[n..] == "m" then Some(v * 60)
        else if s[n..] == "h" then Some(v * 3600)
        else if s[n..] == "d" then Some(v * DAY)
        else None
  }

  /** The text between the first brace and the next closing one. */
  function Braced(l: string): Option<string> {
    var a := Find(l, '{');
    if a == |l| then None
    else
      var r := l[a + 1..];
      var b := Find(r, '}');
      if b == |r| then None else Some(r[..b])
  }

  /** What stands between the braces; `isIp` is the address parser. */
  function ReadInner(inner: string, isIp: string -> bool, ttlDays: int): Option<Elem> {
    var parts := Tokens(inner);
    if parts == [] || !isIp(parts[0]) then None
    else
      var d := if |parts| > 2 then ParseDuration(parts[2]) else None;
      Some(Elem(parts[0], if d.Some? then d.value else ttlDays * DAY))
  }

  function ReadTrimmed(l: string, isIp: string -> bool, ttlDays: int): Option<Elem> {
    if StartsWith(l, "#") || !Contains(l, "add element") then None
    else
      match Braced(l)
      case None => None
      case Some(inner) => ReadInner(inner, isIp, ttlDays)
  }

  /** What one line of the file contributes. */
  function ReadLine(l: string, isIp: string -> bool, ttlDays: int): Option<Elem> {
    ReadTrimmed(Trim(l), isIp, ttlDays)
  }

  function LineReader(isIp: string -> bool, ttlDays: int): string -> Option<Elem> {
    l => ReadLine(l, isIp, ttlDays)
  }

  function FilterMap<A, B>(xs: seq<A>, f: A -> Option<B>): seq<B> {
    if xs == [] then []
    else
      match f(Last(xs))
      case None => FilterMap(Front(xs), f)
      case Some(y) => FilterMap(Front(xs), f) + [y]
  }

  function ReadFile(content: string, isIp: string -> bool, ttlDays: int): seq<Elem> {
    FilterMap(Fields(content, IsNewline), LineReader(isIp, ttlDays))
  }

  /** The label of imported rows. */
  const IMPORTED := "由 clients.nft 匯入"

  function ImportOne(allow: Entries, e: Elem, ttlDays: int, now: int): Entries {
    Allowlist.Import(allow, Grant(e.ip, Some(IMPORTED), now + e.ttl, ttlDays), now)
  }

  function ImportAll(allow: Entries, es: seq<Elem>, ttlDays: int, now: int): Entries {
    if es == [] then allow else ImportOne(ImportAll(allow, Front(es), ttlDays, now), Last(es), ttlDays, now)
  }

  /** `import_legacy`: only into an empty table, and only if the file can be read. */
  method ImportLegacy(allow: Entries, content: Option<string>, isIp: string -> bool, ttlDays: int, now: int)
    returns (allow': Entries, n: nat)
    ensures if allow != map[] || content.None? then allow' == allow && n == 0
            else var es := ReadFile(content.value, isIp, ttlDays);
                allow' == ImportAll(map[], es, ttlDays, now) && n == |es|
  {
    allow', n := allow, 0;
    if allow != map[] || content.None? {
      return;
    }
    allow', n := ImportLines(Fields(content.value, IsNewline), LineReader(isIp, ttlDays), ttlDays, now);
  }

  method ImportLines(lines: seq<string>, read: string -> Option<Elem>, ttlDays: int, now: int)
    returns (allow: Entries, n: nat)
    ensures allow == ImportAll(map[], FilterMap(lines, read), ttlDays, now) && n == |FilterMap(lines, read)|
  {
    allow, n := map[], 0;
    for i := 0 to |lines|
      invariant allow == ImportAll(map[], FilterMap(lines[..i], read), ttlDays, now)
      invariant n == |FilterMap(lines[..i], read)|
    {
      FilterMapSnoc(lines[..i], lines[i], read);
      assert lines[..i + 1] == lines[..i] + [lines[i]];
      var r := read(lines[i]);
      if r.Some? {
        ImportSnoc(map[], FilterMap(lines[..i], read), r.value, ttlDays, now);
        allow := ImportOne(allow, r.value, ttlDays, now);
        n := n + 1;
      }
    }
    assert lines[..|lines|] == lines;
  }

  lemma FilterMapSnoc<A, B>(xs: seq<A>, x: A, f: A -> Option<B>)
    ensures FilterMap(xs + [x], f) == FilterMap(xs, f) + if f(x).Some? then [f(x).value] else []
  {
  }

  lemma ImportSnoc(allow: Entries, es: seq<Elem>, e: Elem, ttlDays: int, now: int)
    ensures ImportAll(allow, es + [e], ttlDays, now)
            == ImportOne(ImportAll(allow, es, ttlDays, now), e, ttlDays, now)
  {
  }

  // ── Round trip ─────────────────────────────────────────

  /** The alphabet of printed addresses. */
  predicate IpChar(c: char) {
    IsDigit(c) || 'a' <= c <= 'f' || 'A' <= c <= 'F' || c == '.' || c == ':'
  }

  /** An element the table can hold: a parsable address and seconds that fit. */
  ghost predicate GoodElem(e: Elem, isIp: string -> bool) {
    && isIp(e.ip) && e.ip != "" && (forall i :: 0 <= i < |e.ip| ==> IpChar(e.ip[i]))
    && 0 < e.ttl <= I64_MAX
  }

  lemma ReadDuration(ttl: nat)
    requires ttl <= I64_MAX
    ensures ParseDuration(Duration(ttl)) == Some(ttl)
  {
    ReadAnyUnit(ttl, "s");
  }

  /** Seconds of one unit: seconds, minutes, hours or days. */
  function UnitSeconds(unit: string): Option<int> {
    if unit == "s" then Some(1)
    else if unit == "m" then Some(60)
    else if unit == "h" then Some(3600)
    else if unit == "d" then Some(86400)
    else None
  }

  lemma {:induction false} DigitsPrefixMeans(digits: string, unit: string)
    requires AllDigits(digits) && (unit != "" ==> !IsDigit(unit[0]))
    ensures DigitsPrefix(digits + unit) == |digits|
  {
    if digits == "" {
      assert digits + unit == unit;
    } else {
      DigitsPrefixMeans(digits[1..], unit);
      assert (digits + unit)[1..] == digits[1..] + unit;
    }
  }

  /** Digits and what follows them: a number that fits and one of the four units, or nothing. */
  lemma DurationMeans(digits: string, unit: string)
    requires AllDigits(digits) && (unit != "" ==> !IsDigit(unit[0]))
    ensures ParseDuration(digits + unit)
            == if digits != "" && Value(digits) <= I64_MAX && UnitSeconds(unit).Some?
               then Some(Value(digits) * UnitSeconds(unit).value) else None
  {
    var s := digits + unit;
    DigitsPrefixMeans(digits, unit);
    assert s[..|digits|] == digits && s[|digits|..] == unit;
    if digits != "" {
      ParseDigits(digits);
    }
  }

  /** Every text is digits and a rest that does not begin with one. */
  lemma DurationCutExists(s: string) returns (digits: string, unit: string)
    ensures s == digits + unit && AllDigits(digits) && (unit != "" ==> !IsDigit(unit[0]))
  {
    digits, unit := s[..DigitsPrefix(s)], s[DigitsPrefix(s)..];
  }

  /** A printed number with any of the units. */
  lemma ReadAnyUnit(n: nat, unit: string)
    requires n <= I64_MAX && UnitSeconds(unit).Some?
    ensures ParseDuration(Dec(n) + unit) == Some(n * UnitSeconds(unit).value)
  {
    ValueDec(n);
    DurationMeans(Dec(n), unit);
  }

  ghost predicate NoBlank(s: string) {
    forall i :: 0 <= i < |s| ==> !IsWhitespace(s[i])
  }

  /** One more blank-separated piece in front. */
  lemma PieceInFront(x: string, r: string)
    requires NoBlank(x)
    ensures Fields(x + (" " + r), IsWhitespace) == [x] + Fields(r, IsWhitespace)
  {
    FieldsWhole(x, IsWhitespace);
    FieldsSeparated(x, ' ', r, IsWhitespace);
  }

  /** What stands between the braces of a line with this address and this duration. */
  function InnerText(ip: string, d: string): string {
    " " + (ip + (" " + ("timeout" + (" " + (d + " ")))))
  }

  lemma InnerFields(ip: string, d: string)
    requires NoBlank(ip) && NoBlank(d)
    ensures Fields(InnerText(ip, d), IsWhitespace) == ["", ip, "timeout", d, ""]
  {
    PieceInFront(d, "");
    assert d + (" " + "") == d + " ";
    PieceInFront("timeout", d + " ");
    var r := "timeout" + (" " + (d + " "));
    PieceInFront(ip, r);
    PieceInFront("", ip + (" " + r));
    assert "" + InnerText(ip, d) == InnerText(ip, d);
  }

  lemma NonEmptyCons(f: string, fs: seq<string>)
    ensures NonEmpty([f] + fs) == (if f == "" then [] else [f]) + NonEmpty(fs)
  {
  }

  lemma FiveFields(a: string, b: string, c: string)
    requires a != "" && b != "" && c != ""
    ensures NonEmpty(["", a, b, c, ""]) == [a, b, c]
  {
    NonEmptyCons("", []);
    NonEmptyCons(c, [""]);
    NonEmptyCons(b, [c] + [""]);
    NonEmptyCons(a, [b] + ([c] + [""]));
    NonEmptyCons("", [a] + ([b] + ([c] + [""])));
    assert ["", a, b, c, ""] == [""] + ([a] + ([b] + ([c] + [""])));
  }

  /** How the lines for a set begin. */
  ghost predicate SetPrefix(s: string) {
    '{' !in s && '\n' !in s && |s| > 11 && s[0..11] == "add element"
  }

  lemma NameV4()
    ensures SetPrefix(SET_V4)
  {
  }

  lemma NameV6()
    ensures SetPrefix(SET_V6)
  {
  }

  lemma GoodChars(e: Elem, isIp: string -> bool)
    requires GoodElem(e, isIp)
    ensures NoBlank(e.ip) && '}' !in e.ip && '\n' !in e.ip
    ensures NoBlank(Duration(e.ttl)) && '}' !in Duration(e.ttl) && '\n' !in Duration(e.ttl)
  {
  }

  lemma InnerChars(e: Elem, c: char)
    requires c !in e.ip && c !in Duration(e.ttl) && c !in "timeout" && c != ' '
    ensures c !in Inner(e)
  {
  }

  lemma BracedLine(s: string, inner: string)
    requires '{' !in s && '}' !in inner
    ensures Braced(s + ("{" + (inner + "}"))) == Some(inner)
  {
    var l := s + ("{" + (inner + "}"));
    FindAt(s, '{', inner + "}");
    assert l[|s| + 1..] == inner + "}";
    FindAt(inner, '}', "");
    assert inner + ("}" + "") == inner + "}";
    assert (inner + "}")[..|inner|] == inner;
  }

  lemma ReadInnerText(ip: string, d: string, isIp: string -> bool, ttlDays: int)
    requires NoBlank(ip) && NoBlank(d) && ip != "" && d != "" && isIp(ip)
    ensures var ttl := ParseDuration(d);
            ReadInner(InnerText(ip, d), isIp, ttlDays)
            == Some(Elem(ip, if ttl.Some? then ttl.value else ttlDays * 86400))
  {
    InnerFields(ip, d);
    FiveFields(ip, "timeout", d);
  }

  /** A text is a duration of `n` seconds: digits whose number fits 64 bits, and one of the units. */
  ghost predicate IsDuration(s: string, n: int) {
    exists digits, unit :: DurationParts(s, digits, unit) && digits != "" && Value(digits) <= I64_MAX
                           && UnitSeconds(unit).Some? && n == Value(digits) * UnitSeconds(unit).value
  }

  ghost predicate DurationParts(s: string, digits: string, unit: string) {
    s == digits + unit && AllDigits(digits) && (unit != "" ==> !IsDigit(unit[0]))
  }

  lemma ParseDurationMeans(s: string, n: int)
    ensures ParseDuration(s) == Some(n) <==> IsDuration(s, n)
  {
    var digits, unit := DurationCutExists(s);
    DurationMeans(digits, unit);
    assert DurationParts(s, digits, unit);
    forall d, u | DurationParts(s, d, u)
      ensures ParseDuration(s) == if d != "" && Value(d) <= I64_MAX && UnitSeconds(u).Some?
                                  then Some(Value(d) * UnitSeconds(u).value) else None
    {
      DurationMeans(d, u);
    }
  }

  /** `inner` stands between the first opening brace and the next closing one. */
  ghost predicate BracedText(l: string, inner: string) {
    exists a, r :: BracedAt(l, a, inner, r)
  }

  ghost predicate BracedAt(l: string, a: string, inner: string, r: string) {
    l == a + ("{" + (inner + ("}" + r))) && '{' !in a && '}' !in inner
  }

  lemma BracedMeans(l: string, inner: string)
    ensures Braced(l) == Some(inner) <==> BracedText(l, inner)
  {
    if Braced(l) == Some(inner) {
      BracesAround(l, inner);
    }
    if a, r :| BracedAt(l, a, inner, r) {
      BracedRead(a, inner, r);
    }
  }

  lemma BracesAround(l: string, inner: string)
    requires Braced(l) == Some(inner)
    ensures BracedText(l, inner)
  {
    var a, rest := CutAtFirst(l, '{');
    var inside, r := CutAtFirst(rest, '}');
    assert BracedAt(l, a, inside, r);
  }

  lemma CutAtFirst(s: string, c: char) returns (before: string, behind: string)
    requires Find(s, c) < |s|
    ensures before == s[..Find(s, c)] && behind == s[Find(s, c) + 1..]
    ensures c !in before && s == before + ([c] + behind)
  {
    before, behind := s[..Find(s, c)], s[Find(s, c) + 1..];
  }

  lemma BracedRead(a: string, inner: string, r: string)
    requires '{' !in a && '}' !in inner
    ensures Braced(a + ("{" + (inner + ("}" + r)))) == Some(inner)
  {
    var l := a + ("{" + (inner + ("}" + r)));
    FindAt(a, '{', inner + ("}" + r));
    assert l[|a| + 1..] == inner + ("}" + r);
    FindAt(inner, '}', r);
    assert (inner + ("}" + r))[..|inner|] == inner;
  }

  /** The words between the braces: an address, a word, and a duration, if it can be read. */
  ghost predicate InnerSays(inner: string, e: Elem, isIp: string -> bool, ttlDays: int) {
    var ts := Tokens(inner);
    && ts != [] && isIp(ts[0]) && e.ip == ts[0]
    && if |ts| >= 3 && (exists n :: IsDuration(ts[2], n)) then IsDuration(ts[2], e.ttl) else e.ttl == ttlDays * 86400
  }

  lemma InnerMeans(inner: string, e: Elem, isIp: string -> bool, ttlDays: int)
    ensures ReadInner(inner, isIp, ttlDays) == Some(e) <==> InnerSays(inner, e, isIp, ttlDays)
  {
    var ts := Tokens(inner);
    if |ts| >= 3 {
      forall n
        ensures ParseDuration(ts[2]) == Some(n) <==> IsDuration(ts[2], n)
      {
        ParseDurationMeans(ts[2], n);
      }
      if ParseDuration(ts[2]).Some? {
        assert IsDuration(ts[2], ParseDuration(ts[2]).value);
      }
    }
  }

  /** The words a line must hold to be read at all; a comment is not one. */
  ghost predicate AddsElement(l: string) {
    (exists a, b :: l == a + ("add element" + b)) && !exists r :: l == "#" + r
  }

  /** Exactly what a line without white space around it gives, and when it gives nothing. */
  lemma LineMeans(l: string, e: Elem, isIp: string -> bool, ttlDays: int)
    ensures ReadTrimmed(l, isIp, ttlDays) == Some(e)
            <==> AddsElement(l) && exists inner :: BracedText(l, inner) && InnerSays(inner, e, isIp, ttlDays)
  {
    StartsMeans(l, "#");
    AddsMeans(l);
    forall inner
      ensures Braced(l) == Some(inner) <==> BracedText(l, inner)
      ensures ReadInner(inner, isIp, ttlDays) == Some(e) <==> InnerSays(inner, e, isIp, ttlDays)
    {
      BracedMeans(l, inner);
      InnerMeans(inner, e, isIp, ttlDays);
    }
    if Braced(l).Some? {
      assert BracedText(l, Braced(l).value);
    }
  }

  lemma AddsMeans(l: string)
    ensures Contains(l, "add element") <==> exists a, b :: l == a + ("add element" + b)
  {
    if Contains(l, "add element") {
      var i: nat :| i <= |l| && OccursAt(l, "add element", i);
      OccursMeans(l, "add element", i);
    }
    if a, b :| l == a + ("add element" + b) {
      OccursMeans(l, "add element", |a|);
    }
  }

  /** The text of a line of either set, letter by letter. */
  lemma LineLetters(ip: string, n: nat)
    ensures LineText(SET_V4, Elem(ip, n))
            == "add element inet nfhh clients_v4 { " + (ip + (" timeout " + (Dec(n) + "s }")))
    ensures LineText(SET_V6, Elem(ip, n))
            == "add element inet nfhh clients_v6 { " + (ip + (" timeout " + (Dec(n) + "s }")))
  {
    TailLetters(ip, Dec(n));
    assert "add element inet nfhh clients_v4 { " == SET_V4 + "{ ";
    assert "add element inet nfhh clients_v6 { " == SET_V6 + "{ ";
    var tail := ip + (" timeout " + (Dec(n) + "s }"));
    Assoc3(SET_V4, "{ ", tail);
    Assoc3(SET_V6, "{ ", tail);
  }

  lemma TailLetters(ip: string, d: string)
    ensures "{" + (InnerText(ip, d + "s") + "}") == "{ " + (ip + (" timeout " + (d + "s }")))
  {
    assert " timeout " == " " + ("timeout" + " ");
    assert "{ " == "{" + " ";
    assert "s }" == "s" + (" " + "}");
  }

  /** A line in the written shape with any duration that has no brace reads as its address with
      that duration, or with the configured days if the duration cannot be read. */
  lemma ReadAnyLine(s: string, ip: string, digits: string, unit: string, isIp: string -> bool, ttlDays: int)
    requires SetPrefix(s) && NoBlank(ip) && ip != "" && '}' !in ip && isIp(ip)
    requires AllDigits(digits) && (unit != "" ==> !IsDigit(unit[0])) && digits + unit != ""
    requires NoBlank(unit) && '}' !in unit
    ensures ReadLine(s + ("{" + (InnerText(ip, digits + unit) + "}")), isIp, ttlDays)
            == Some(Elem(ip, if digits != "" && Value(digits) <= I64_MAX && UnitSeconds(unit).Some?
                             then Value(digits) * UnitSeconds(unit).value else ttlDays * 86400))
  {
    var d := digits + unit;
    assert NoBlank(d) && '}' !in d by {
      assert forall i :: 0 <= i < |digits| ==> d[i] == digits[i] && IsDigit(digits[i]);
      assert forall i :: 0 <= i < |unit| ==> d[|digits| + i] == unit[i];
    }
    NoBraceInside(ip, d);
    ReadBracedLine(s, InnerText(ip, d), isIp, ttlDays);
    ReadInnerText(ip, d, isIp, ttlDays);
    DurationMeans(digits, unit);
  }

  lemma NoBraceInside(ip: string, d: string)
    requires '}' !in ip && '}' !in d
    ensures '}' !in InnerText(ip, d)
  {
    assert '}' !in "timeout";
  }

  /** A line without a duration reads with the configured days. */
  lemma ReadBareLine(s: string, ip: string, isIp: string -> bool, ttlDays: int)
    requires SetPrefix(s) && NoBlank(ip) && ip != "" && '}' !in ip && isIp(ip)
    ensures ReadLine(s + ("{" + ((" " + (ip + " ")) + "}")), isIp, ttlDays) == Some(Elem(ip, ttlDays * 86400))
  {
    var t := " " + (ip + " ");
    PieceInFront(ip, "");
    assert ip + (" " + "") == ip + " ";
    PieceInFront("", ip + " ");
    assert "" + t == t;
    NonEmptyCons("", []);
    NonEmptyCons(ip, [""]);
    NonEmptyCons("", [ip] + [""]);
    assert ["", ip, ""] == [""] + ([ip] + [""]);
    ReadBracedLine(s, t, isIp, ttlDays);
  }

  lemma ReadInnerOf(e: Elem, isIp: string -> bool, ttlDays: int)
    requires GoodElem(e, isIp)
    ensures ReadInner(Inner(e), isIp, ttlDays) == Some(e)
  {
    GoodChars(e, isIp);
    ReadInnerText(e.ip, Duration(e.ttl), isIp, ttlDays);
    ReadDuration(e.ttl);
  }

  lemma TextIsTrimmed(s: string, t: string)
    requires SetPrefix(s)
    ensures Trim(s + ("{" + (t + "}"))) == s + ("{" + (t + "}"))
  {
  }

  lemma FindsAddElement(s: string, t: string)
    requires SetPrefix(s)
    ensures Contains(s + t, "add element") && !StartsWith(s + t, "#")
  {
    assert (s + t)[0..11] == s[0..11];
    assert OccursAt(s + t, "add element", 0);
    assert (s + t)[..1][0] == s[0..11][0];
  }

  lemma ReadBracedLine(s: string, t: string, isIp: string -> bool, ttlDays: int)
    requires SetPrefix(s) && '}' !in t
    ensures ReadLine(s + ("{" + (t + "}")), isIp, ttlDays) == ReadInner(t, isIp, ttlDays)
  {
    TextIsTrimmed(s, t);
    FindsAddElement(s, "{" + (t + "}"));
    BracedLine(s, t);
  }

  /** A written line reads back as the element it was written for. */
  lemma ReadWrittenLine(s: string, e: Elem, isIp: string -> bool, ttlDays: int)
    requires SetPrefix(s) && GoodElem(e, isIp)
    ensures ReadLine(LineText(s, e), isIp, ttlDays) == Some(e)
  {
    GoodChars(e, isIp);
    InnerChars(e, '}');
    ReadBracedLine(s, Inner(e), isIp, ttlDays);
    ReadInnerOf(e, isIp, ttlDays);
  }

  lemma OneLine(s: string, e: Elem, isIp: string -> bool)
    requires SetPrefix(s) && GoodElem(e, isIp)
    ensures '\n' !in LineText(s, e)
  {
    GoodChars(e, isIp);
    InnerChars(e, '\n');
    AroundBraces(s, Inner(e));
  }

  lemma AroundBraces(s: string, t: string)
    requires '\n' !in s && '\n' !in t
    ensures '\n' !in s + ("{" + (t + "}"))
  {
  }

  lemma CommentIsSkipped(l: string, isIp: string -> bool, ttlDays: int)
    requires l != "" && l[0] == '#'
    ensures ReadLine(l, isIp, ttlDays) == None
  {
  }

  ghost predicate CommentOrBlank(l: string) {
    (l == "" || l[0] == '#') && '\n' !in l
  }

  lemma HeaderShape()
    ensures forall i :: 0 <= i < |HEADER| ==> CommentOrBlank(HEADER[i])
  {
    FirstLine();
    SecondLine();
    ThirdLine();
    FourthLine();
  }

  lemma FirstLine()
    ensures CommentOrBlank(H1)
  {
  }

  lemma SecondLine()
    ensures CommentOrBlank(H2)
  {
  }

  lemma ThirdLine()
    ensures CommentOrBlank(H3)
  {
  }

  lemma FourthLine()
    ensures CommentOrBlank(H4)
  {
  }

  lemma {:induction false} FieldsOfWritten(ls: seq<string>)
    requires forall i :: 0 <= i < |ls| ==> '\n' !in ls[i]
    ensures Fields(Written(ls), IsNewline) == ls + [""]
  {
    if ls != [] {
      FieldsOfWritten(ls[1..]);
      FieldsWhole(ls[0], IsNewline);
      FieldsSeparated(ls[0], '\n', Written(ls[1..]), IsNewline);
      assert [ls[0]] + (ls[1..] + [""]) == ls + [""];
    }
  }

  lemma {:induction false} FilterMapConcat<A, B>(xs: seq<A>, ys: seq<A>, f: A -> Option<B>)
    ensures FilterMap(xs + ys, f) == FilterMap(xs, f) + FilterMap(ys, f)
  {
    if ys == [] {
      assert xs + ys == xs;
    } else {
      FilterMapConcat(xs, Front(ys), f);
      assert Front(xs + ys) == xs + Front(ys) && Last(xs + ys) == Last(ys);
    }
  }

  lemma {:induction false} FilterMapNone<A, B>(xs: seq<A>, f: A -> Option<B>)
    requires forall i :: 0 <= i < |xs| ==> f(xs[i]) == None
    ensures FilterMap(xs, f) == []
  {
    if xs != [] {
      FilterMapNone(Front(xs), f);
    }
  }

  lemma {:induction false} FilterMapSome<A, B>(xs: seq<A>, ys: seq<B>, f: A -> Option<B>)
    requires |xs| == |ys| && forall i :: 0 <= i < |xs| ==> f(xs[i]) == Some(ys[i])
    ensures FilterMap(xs, f) == ys
  {
    if xs != [] {
      FilterMapSome(Front(xs), Front(ys), f);
      assert ys == Front(ys) + [Last(ys)];
    }
  }

  lemma ReadTexts(s: string, es: seq<Elem>, isIp: string -> bool, ttlDays: int)
    requires SetPrefix(s) && forall i :: 0 <= i < |es| ==> GoodElem(es[i], isIp)
    ensures FilterMap(Texts(s, es), LineReader(isIp, ttlDays)) == es
    ensures forall i :: 0 <= i < |es| ==> '\n' !in Texts(s, es)[i]
  {
    var read := LineReader(isIp, ttlDays);
    forall i | 0 <= i < |es|
      ensures '\n' !in Texts(s, es)[i] && read(Texts(s, es)[i]) == Some(es[i])
    {
      ReadWrittenLine(s, es[i], isIp, ttlDays);
      OneLine(s, es[i], isIp);
    }
    FilterMapSome(Texts(s, es), es, read);
  }

  lemma ReadComments(ls: seq<string>, isIp: string -> bool, ttlDays: int)
    requires forall i :: 0 <= i < |ls| ==> CommentOrBlank(ls[i])
    ensures FilterMap(ls, LineReader(isIp, ttlDays)) == []
  {
    var read := LineReader(isIp, ttlDays);
    forall i | 0 <= i < |ls|
      ensures read(ls[i]) == None
    {
      if ls[i] != "" {
        CommentIsSkipped(ls[i], isIp, ttlDays);
      } else {
        assert Trim("") == "";
      }
    }
    FilterMapNone(ls, read);
  }

  lemma LinesRoundTrip(h: seq<string>, s4: string, v4: seq<Elem>, s6: string, v6: seq<Elem>, isIp: string -> bool,
                       ttlDays: int)
    requires (forall i :: 0 <= i < |h| ==> CommentOrBlank(h[i])) && SetPrefix(s4) && SetPrefix(s6)
    requires forall i :: 0 <= i < |v4| ==> GoodElem(v4[i], isIp)
    requires forall i :: 0 <= i < |v6| ==> GoodElem(v6[i], isIp)
    ensures ReadFile(Written(Lines(h, s4, v4, s6, v6)), isIp, ttlDays) == v4 + v6
  {
    var t4, t6 := Texts(s4, v4), Texts(s6, v6);
    var read := LineReader(isIp, ttlDays);
    ReadTexts(s4, v4, isIp, ttlDays);
    ReadTexts(s6, v6, isIp, ttlDays);
    ReadComments(h, isIp, ttlDays);
    ReadComments([""], isIp, ttlDays);
    FieldsOfWritten(h + t4 + t6);
    FilterMapParts(h, t4, t6, [""], read);
  }

  lemma FilterMapParts<A, B>(h: seq<A>, x: seq<A>, y: seq<A>, z: seq<A>, f: A -> Option<B>)
    requires FilterMap(h, f) == [] && FilterMap(z, f) == []
    ensures FilterMap(h + x + y + z, f) == FilterMap(x, f) + FilterMap(y, f)
  {
    FilterMapConcat(h, x, f);
    FilterMapConcat(h + x, y, f);
    FilterMapConcat(h + x + y, z, f);
  }

  /** Reading the written file gives back exactly the elements, in order. */
  lemma FileRoundTrip(v4: seq<Elem>, v6: seq<Elem>, isIp: string -> bool, ttlDays: int)
    requires forall i :: 0 <= i < |v4| ==> GoodElem(v4[i], isIp)
    requires forall i :: 0 <= i < |v6| ==> GoodElem(v6[i], isIp)
    ensures ReadFile(FileText(v4, v6), isIp, ttlDays) == v4 + v6
  {
    NameV4();
    NameV6();
    HeaderShape();
    LinesRoundTrip(HEADER, SET_V4, v4, SET_V6, v6, isIp, ttlDays);
  }

  // ── From the table to the file and back ────────────────

  /** The elements `sync` writes for rows listed in this order: those not yet expired. */
  function LiveElems(ips: seq<string>, allow: Entries, now: int): seq<Elem>
    requires forall i :: 0 <= i < |ips| ==> ips[i] in allow
  {
    if ips == [] then []
    else
      var before := LiveElems(Front(ips), allow, now);
      var ttl := allow[Last(ips)].expiresAt - now;
      if ttl <= 0 then before else before + [Elem(Last(ips), ttl)]
  }

  predicate IsV6(ip: string) {
    ':' in ip
  }

  function Only(es: seq<Elem>, v6: bool): seq<Elem> {
    if es == [] then [] else Only(Front(es), v6) + if IsV6(Last(es).ip) == v6 then [Last(es)] else []
  }

  /** The loop of `sync` that sorts live rows into the two sets. */
  method SplitLive(ips: seq<string>, allow: Entries, now: int) returns (v4: seq<Elem>, v6: seq<Elem>)
    requires forall i :: 0 <= i < |ips| ==> ips[i] in allow
    ensures v4 == Only(LiveElems(ips, allow, now), false) && v6 == Only(LiveElems(ips, allow, now), true)
  {
    v4, v6 := [], [];
    for i := 0 to |ips|
      invariant v4 == Only(LiveElems(ips[..i], allow, now), false)
      invariant v6 == Only(LiveElems(ips[..i], allow, now), true)
    {
      ghost var before := LiveElems(ips[..i], allow, now);
      assert Front(ips[..i + 1]) == ips[..i];
      var ttl := allow[ips[i]].expiresAt - now;
      if ttl <= 0 {
        continue;
      }
      var e := Elem(ips[i], ttl);
      assert Front(before + [e]) == before;
      if ':' in ips[i] {
        v6 := v6 + [e];
      } else {
        v4 := v4 + [e];
      }
    }
    assert ips[..|ips|] == ips;
  }

  /** The table holds exactly these addresses, each with its seconds from `now` on. */
  ghost predicate TableOf(allow: Entries, es: seq<Elem>, now: int) {
    && (forall ip :: ip in allow <==> exists i :: 0 <= i < |es| && es[i].ip == ip)
    && (forall i :: 0 <= i < |es| ==>
          es[i].ip in allow && allow[es[i].ip].expiresAt == now + es[i].ttl && allow[es[i].ip].addedBy == None
            && allow[es[i].ip].name == Some("由 clients.nft 匯入"))
  }

  ghost predicate DistinctIps(es: seq<Elem>) {
    forall i, j :: 0 <= i < j < |es| ==> es[i].ip != es[j].ip
  }

  lemma ImportOneMeans(allow: Entries, e: Elem, ttlDays: int, now: int)
    requires e.ip !in allow
    ensures var allow' := ImportOne(allow, e, ttlDays, now);
            && (forall ip :: ip in allow' <==> ip in allow || ip == e.ip)
            && (forall ip :: ip in allow ==> allow'[ip] == allow[ip])
            && allow'[e.ip].expiresAt == now + e.ttl && allow'[e.ip].addedBy == None
            && allow'[e.ip].name == Some("由 clients.nft 匯入")
  {
  }

  lemma TableOfSnoc(before: Entries, after: Entries, es: seq<Elem>, e: Elem, now: int)
    requires TableOf(before, es, now) && e.ip !in before
    requires (forall ip :: ip in after <==> ip in before || ip == e.ip)
             && forall ip :: ip in before ==> after[ip] == before[ip]
    requires after[e.ip].expiresAt == now + e.ttl && after[e.ip].addedBy == None
    requires after[e.ip].name == Some("由 clients.nft 匯入")
    ensures TableOf(after, es + [e], now)
  {
    var es' := es + [e];
    forall ip
      ensures ip in after <==> exists i :: 0 <= i < |es'| && es'[i].ip == ip
    {
      if ip in before {
        var i :| 0 <= i < |es| && es[i].ip == ip;
        assert es'[i].ip == ip;
      }
      assert es'[|es|] == e;
    }
  }

  lemma {:induction false} ImportMakesTable(es: seq<Elem>, ttlDays: int, now: int)
    requires DistinctIps(es)
    ensures TableOf(ImportAll(map[], es, ttlDays, now), es, now)
  {
    if es != [] {
      var front, e := Front(es), Last(es);
      ImportMakesTable(front, ttlDays, now);
      var before := ImportAll(map[], front, ttlDays, now);
      assert es == front + [e];
      ImportOneMeans(before, e, ttlDays, now);
      TableOfSnoc(before, ImportOne(before, e, ttlDays, now), front, e, now);
    }
  }

  predicate IsLive(e: Elem, allow: Entries, now: int) {
    e.ip in allow && allow[e.ip].expiresAt > now && e.ttl == allow[e.ip].expiresAt - now
  }

  lemma {:induction false} LiveContents(ips: seq<string>, allow: Entries, now: int)
    requires forall i :: 0 <= i < |ips| ==> ips[i] in allow
    ensures forall e :: e in LiveElems(ips, allow, now) <==> e.ip in ips && IsLive(e, allow, now)
  {
    if ips != [] {
      LiveContents(Front(ips), allow, now);
      assert ips == Front(ips) + [Last(ips)];
    }
  }

  lemma {:induction false} LiveMeans(ips: seq<string>, allow: Entries, now: int)
    requires forall i :: 0 <= i < |ips| ==> ips[i] in allow
    requires forall i, j :: 0 <= i < j < |ips| ==> ips[i] != ips[j]
    ensures DistinctIps(LiveElems(ips, allow, now))
    ensures forall e :: e in LiveElems(ips, allow, now) <==> e.ip in ips && IsLive(e, allow, now)
  {
    LiveContents(ips, allow, now);
    if ips != [] {
      var front := LiveElems(Front(ips), allow, now);
      LiveMeans(Front(ips), allow, now);
      assert forall i :: 0 <= i < |front| ==> front[i] in front;
    }
  }

  lemma {:induction false} OnlyMeans(es: seq<Elem>, v6: bool)
    requires DistinctIps(es)
    ensures DistinctIps(Only(es, v6))
    ensures forall e :: e in Only(es, v6) <==> e in es && (v6 <==> ':' in e.ip)
  {
    if es != [] {
      OnlyMeans(Front(es), v6);
      assert es == Front(es) + [Last(es)];
      assert forall e :: e in Front(es) ==> e.ip != Last(es).ip;
    }
  }

  /** What the table becomes when the file written at `t0` is imported at `t1`. */
  function Restored(ips: seq<string>, allow: Entries, t0: int, t1: int, isIp: string -> bool, ttlDays: int): Entries
    requires forall i :: 0 <= i < |ips| ==> ips[i] in allow
  {
    var live := LiveElems(ips, allow, t0);
    ImportAll(map[], ReadFile(FileText(Only(live, false), Only(live, true)), isIp, ttlDays), ttlDays, t1)
  }

  /** Persist at `t0`, import at `t1`: exactly the rows that were live come back, each with the
      seconds it had left when the file was written. */
  lemma PersistThenImport(ips: seq<string>, allow: Entries, t0: int, t1: int, isIp: string -> bool, ttlDays: int)
    requires forall ip :: ip in ips <==> ip in allow
    requires forall i, j :: 0 <= i < j < |ips| ==> ips[i] != ips[j]
    requires forall ip :: ip in allow && allow[ip].expiresAt > t0 ==> GoodElem(Elem(ip, allow[ip].expiresAt - t0), isIp)
    ensures var back := Restored(ips, allow, t0, t1, isIp, ttlDays);
            && (forall ip :: ip in back <==> ip in allow && allow[ip].expiresAt > t0)
            && (forall ip :: ip in back ==>
                  back[ip].expiresAt - t1 == allow[ip].expiresAt - t0 && back[ip].addedBy == None)
  {
    var live := LiveElems(ips, allow, t0);
    var es := Only(live, false) + Only(live, true);
    LiveMeans(ips, allow, t0);
    ReadBack(live, isIp, ttlDays);
    ImportMakesTable(es, ttlDays, t1);
    TableTells(Restored(ips, allow, t0, t1, isIp, ttlDays), es, allow, t0, t1);
  }

  /** Sorting live elements into two sets, writing both and reading the file keeps every element. */
  lemma ReadBack(live: seq<Elem>, isIp: string -> bool, ttlDays: int)
    requires DistinctIps(live) && forall e :: e in live ==> GoodElem(e, isIp)
    ensures var es := Only(live, false) + Only(live, true);
            && ReadFile(FileText(Only(live, false), Only(live, true)), isIp, ttlDays) == es
            && DistinctIps(es) && forall e :: e in es <==> e in live
  {
    var v4, v6 := Only(live, false), Only(live, true);
    OnlyMeans(live, false);
    OnlyMeans(live, true);
    assert forall i :: 0 <= i < |v4| ==> v4[i] in v4;
    assert forall i :: 0 <= i < |v6| ==> v6[i] in v6;
    FileRoundTrip(v4, v6, isIp, ttlDays);
    BothSets(live, v4, v6, v4 + v6);
  }

  lemma TableTells(back: Entries, es: seq<Elem>, allow: Entries, t0: int, t1: int)
    requires TableOf(back, es, t1)
    requires forall e :: e in es <==> e.ip in allow && allow[e.ip].expiresAt > t0 && e.ttl == allow[e.ip].expiresAt - t0
    ensures forall ip :: ip in back <==> ip in allow && allow[ip].expiresAt > t0
    ensures forall ip :: ip in back ==> back[ip].expiresAt - t1 == allow[ip].expiresAt - t0 && back[ip].addedBy == None
  {
    forall ip
      ensures ip in back <==> ip in allow && allow[ip].expiresAt > t0
      ensures ip in back ==> back[ip].expiresAt - t1 == allow[ip].expiresAt - t0 && back[ip].addedBy == None
    {
      if ip in back {
        var i :| 0 <= i < |es| && es[i].ip == ip;
        assert es[i] in es;
      }
      if ip in allow && allow[ip].expiresAt > t0 {
        assert Elem(ip, allow[ip].expiresAt - t0) in es;
      }
    }
  }

  lemma BothSets(live: seq<Elem>, v4: seq<Elem>, v6: seq<Elem>, es: seq<Elem>)
    requires es == v4 + v6 && DistinctIps(v4) && DistinctIps(v6)
    requires forall e :: e in v4 <==> e in live && ':' !in e.ip
    requires forall e :: e in v6 <==> e in live && ':' in e.ip
    ensures DistinctIps(es) && forall e :: e in es <==> e in live
  {
  }
}
