/** Picking the verification code out of a mail: one pass over the digit runs with a
    running best, which equals a declarative "closest qualifying run". */
module CodeExtractor {
  import opened Decimal
  import opened Text

  /** Words that announce a code. */
  const HINTS: seq<string> := [
    "code", "passcode", "otp", "verification", "verify", "one-time", "temporary",
    "驗證碼", "驗證", "代碼", "密碼", "一次性", "臨時", "认证", "验证码"
  ]

  /** A number followed by one of these is a quantity or a date. */
  const UNITS: seq<string> := ["年", "月", "日", "%", "元", "px", "分", "秒", "小時"]

  const BAD_PREV: string := "-_&#=/+.%"
  const BAD_NEXT: string := "-_&;=/+%"

  // ── Byte distances ─────────────────────────────────────

  /** Distances in the source are byte distances. */
  function Distance(s: string, p: nat, q: nat): nat
    requires p <= |s| && q <= |s|
  {
    var a, b := Offset(s, p), Offset(s, q);
    if a <= b then b - a else a - b
  }

  // ── Hint occurrences ───────────────────────────────────

  /** The words that announce a code, one by one. */
  ghost predicate HintWord(h: string) {
    || h == "code" || h == "passcode" || h == "otp" || h == "verification" || h == "verify" || h == "one-time"
    || h == "temporary" || h == "驗證碼" || h == "驗證" || h == "代碼" || h == "密碼" || h == "一次性" || h == "臨時"
    || h == "认证" || h == "验证码"
  }

  /** A hint word stands at position `p`. */
  ghost predicate HintAt(s: string, p: nat) {
    p <= |s| && exists h: string :: HintWord(h) && OccursAt(s, h, p)
  }

  lemma HintsAreTheWords()
    ensures forall k :: 0 <= k < |HINTS| ==> HintWord(HINTS[k])
    ensures forall h :: HintWord(h) ==> exists k :: 0 <= k < |HINTS| && HINTS[k] == h
  {
    assert HINTS[0] == "code" && HINTS[1] == "passcode" && HINTS[2] == "otp" && HINTS[3] == "verification";
    assert HINTS[4] == "verify" && HINTS[5] == "one-time" && HINTS[6] == "temporary" && HINTS[7] == "驗證碼";
    assert HINTS[8] == "驗證" && HINTS[9] == "代碼" && HINTS[10] == "密碼" && HINTS[11] == "一次性";
    assert HINTS[12] == "臨時" && HINTS[13] == "认证" && HINTS[14] == "验证码";
  }

  /** No proper suffix of `h` is also a prefix of it. */
  ghost predicate NoSelfOverlap(h: string) {
    h != "" && forall k :: 0 < k < |h| ==> h[k..] != h[..|h| - k]
  }

  lemma FirstCharUnique(h: string)
    requires h != "" && forall k :: 0 < k < |h| ==> h[k] != h[0]
    ensures NoSelfOverlap(h)
  {
    forall k | 0 < k < |h|
      ensures h[k..] != h[..|h| - k]
    {
      assert h[k..][0] == h[k];
      assert h[..|h| - k][0] == h[0];
    }
  }

  lemma HintsDoNotOverlap(k: nat)
    requires k < |HINTS|
    ensures NoSelfOverlap(HINTS[k])
  {
    FirstCharUnique(HINTS[k]);
  }

  /** Overlapping occurrences make a suffix of the word a prefix of it. */
  lemma OverlapRepeats(s: string, h: string, p: nat, q: nat)
    requires OccursAt(s, h, p) && OccursAt(s, h, q) && p < q < p + |h|
    ensures h[q - p..] == h[..|h| - (q - p)]
  {
  }

  /** Two occurrences of a word that does not overlap itself are at least its length apart. */
  lemma OccurrencesApart(s: string, h: string, p: nat, q: nat)
    requires NoSelfOverlap(h) && OccursAt(s, h, p) && OccursAt(s, h, q)
    ensures p < q ==> p + |h| <= q
  {
    if p < q < p + |h| {
      OverlapRepeats(s, h, p, q);
    }
  }

  /** Rust's `s[from..].find(h)`, as an index into `s`. */
  function FindFrom(s: string, h: string, from: nat): (r: Option<nat>)
    requires from <= |s|
    ensures r.Some? ==> from <= r.value && OccursAt(s, h, r.value)
    ensures r.Some? ==> forall q: nat :: from <= q < r.value ==> !OccursAt(s, h, q)
    ensures r.None? ==> forall q: nat :: from <= q ==> !OccursAt(s, h, q)
    decreases |s| - from
  {
    if OccursAt(s, h, from) then Some(from)
    else if from == |s| then None
    else FindFrom(s, h, from + 1)
  }

  /** All places where a hint word stands. Jumping past each match misses none. */
  method ScanHints(s: string) returns (hints: seq<nat>)
    ensures forall p: nat :: p in hints <==> HintAt(s, p)
  {
    hints := [];
    HintsAreTheWords();
    for k := 0 to |HINTS|
      invariant forall p: nat :: p in hints ==> HintAt(s, p)
      invariant forall j, p: nat :: 0 <= j < k && OccursAt(s, HINTS[j], p) ==> p in hints
    {
      var h := HINTS[k];
      HintsDoNotOverlap(k);
      var from := 0;
      while FindFrom(s, h, from).Some?
        invariant from <= |s|
        invariant forall p: nat :: p in hints ==> HintAt(s, p)
        invariant forall j, p: nat :: 0 <= j < k && OccursAt(s, HINTS[j], p) ==> p in hints
        invariant forall p: nat :: p < from && OccursAt(s, h, p) ==> p in hints
        decreases |s| - from
      {
        var p := FindFrom(s, h, from).value;
        assert HintAt(s, p);
        hints := hints + [p];
        forall q: nat | q < p + |h| && OccursAt(s, h, q)
          ensures q in hints
        {
          OccurrencesApart(s, h, p, q);
        }
        from := p + |h|;
      }
    }
  }

  // ── What qualifies ─────────────────────────────────────

  /** `s[a..b]` is a maximal run of digits. */
  ghost predicate MaximalRun(s: string, a: nat, b: nat) {
    && a < b <= |s|
    && (forall i :: a <= i < b ==> IsDigit(s[i]))
    && (a > 0 ==> !IsDigit(s[a - 1]))
    && (b < |s| ==> !IsDigit(s[b]))
  }

  /** A character in front of the digits that makes them part of something longer. */
  ghost predicate JoinsBefore(c: char) {
    c == '-' || c == '_' || c == '&' || c == '#' || c == '=' || c == '/' || c == '+' || c == '.' || c == '%'
  }

  ghost predicate JoinsAfter(c: char) {
    c == '-' || c == '_' || c == '&' || c == ';' || c == '=' || c == '/' || c == '+' || c == '%'
  }

  /** What follows makes the number a quantity or a date. */
  ghost predicate UnitBehind(s: string) {
    || StartsWith(s, "年") || StartsWith(s, "月") || StartsWith(s, "日") || StartsWith(s, "%") || StartsWith(s, "元")
    || StartsWith(s, "px") || StartsWith(s, "分") || StartsWith(s, "秒") || StartsWith(s, "小時")
  }

  /** Right length, no neighbour that makes it part of something longer, not a quantity,
      not a copyright year. */
  ghost predicate Standalone(s: string, a: nat, b: nat)
    requires a < b <= |s|
  {
    && 4 <= b - a <= 8
    && (a > 0 ==> !IsAsciiAlphanumeric(s[a - 1]) && !JoinsBefore(s[a - 1]))
    && (b < |s| ==> !IsAsciiAlphanumeric(s[b]) && !JoinsAfter(s[b]))
    && !UnitBehind(TrimStart(s[b..]))
    && !EndsWith(TrimEnd(s[..a]), "©") && !EndsWith(TrimEnd(s[..a]), "(c)")
  }

  lemma ListedChars(c: char)
    ensures c in BAD_PREV <==> JoinsBefore(c)
    ensures c in BAD_NEXT <==> JoinsAfter(c)
  {
  }

  lemma UnitsMean(s: string)
    ensures (exists k :: 0 <= k < |UNITS| && StartsWith(s, UNITS[k])) <==> UnitBehind(s)
  {
    assert UNITS[0] == "年" && UNITS[1] == "月" && UNITS[2] == "日" && UNITS[3] == "%" && UNITS[4] == "元";
    assert UNITS[5] == "px" && UNITS[6] == "分" && UNITS[7] == "秒" && UNITS[8] == "小時";
  }

  /** Four digits that look like a year must stand closer to a hint. */
  ghost function Limit(s: string, a: nat, b: nat): nat
    requires a < b <= |s| && AllDigits(s[a..b])
  {
    if b - a == 4 && 1900 <= Value(s[a..b]) <= 2100 then 40 else 120
  }

  /** `d` is the distance in bytes from `a` to the nearest hint, before or behind it. */
  ghost predicate Nearest(s: string, a: nat, d: nat) {
    && a <= |s|
    && (exists p: nat :: HintAt(s, p) && (Offset(s, p) == Offset(s, a) + d || Offset(s, a) == Offset(s, p) + d))
    && (forall p: nat :: HintAt(s, p) ==> Offset(s, p) >= Offset(s, a) + d || Offset(s, a) >= Offset(s, p) + d)
  }

  /** The run `s[a..b]` may be the code, at distance `d` from its nearest hint. */
  ghost predicate Candidate(s: string, a: nat, b: nat, d: nat) {
    MaximalRun(s, a, b) && Standalone(s, a, b) && Nearest(s, a, d) && d <= Limit(s, a, b)
  }

  /** No candidate is nearer, and none equally near stands further left. */
  ghost predicate Best(s: string, a: nat, b: nat, d: nat) {
    && Candidate(s, a, b, d)
    && forall a': nat, b': nat, d': nat :: Candidate(s, a', b', d') ==> d < d' || (d == d' && a <= a')
  }

  lemma BestIsUnique(s: string, a: nat, b: nat, d: nat, a': nat, b': nat, d': nat)
    requires Best(s, a, b, d) && Best(s, a', b', d')
    ensures a == a' && b == b' && d == d'
  {
  }

  lemma RunsDoNotOverlap(s: string, a: nat, b: nat, a': nat, b': nat)
    requires MaximalRun(s, a, b) && MaximalRun(s, a', b')
    ensures b < a' || b' < a || (a == a' && b == b')
  {
  }

  // ── The scan ───────────────────────────────────────────

  lemma SmallestIsNearest(s: string, hints: seq<nat>, a: nat, best: nat)
    requires a <= |s| && best < |hints| && forall p: nat :: p in hints <==> HintAt(s, p)
    requires hints[best] <= |s|
    requires forall j :: 0 <= j < |hints| ==>
               hints[j] <= |s| && Distance(s, hints[best], a) <= Distance(s, hints[j], a)
    ensures Nearest(s, a, Distance(s, hints[best], a))
  {
    assert HintAt(s, hints[best]);
    forall p: nat | HintAt(s, p)
      ensures p <= |s| && Distance(s, hints[best], a) <= Distance(s, p, a)
    {
      var j :| 0 <= j < |hints| && hints[j] == p;
    }
  }

  /** The nearest hint, by a pass over all of them. */
  method NearestHint(s: string, hints: seq<nat>, a: nat) returns (d: nat)
    requires hints != [] && a <= |s| && forall p: nat :: p in hints <==> HintAt(s, p)
    ensures Nearest(s, a, d)
  {
    assert HintAt(s, hints[0]);
    d := Distance(s, hints[0], a);
    ghost var best := 0;
    for k := 1 to |hints|
      invariant 0 <= best < k && hints[best] <= |s| && d == Distance(s, hints[best], a)
      invariant forall j :: 0 <= j < k ==> hints[j] <= |s| && d <= Distance(s, hints[j], a)
    {
      assert HintAt(s, hints[k]);
      if Distance(s, hints[k], a) < d {
        d, best := Distance(s, hints[k], a), k;
      }
    }
    SmallestIsNearest(s, hints, a, best);
  }

  /** `best` is the best candidate among the runs that end by `i`. */
  ghost predicate BestSoFar(s: string, i: nat, best: Option<(nat, string)>, a: nat, b: nat) {
    match best
    case None => forall a': nat, b': nat, d': nat :: Candidate(s, a', b', d') ==> b' > i
    case Some(r) =>
      && b <= i && Candidate(s, a, b, r.0) && s[a..b] == r.1
      && forall a': nat, b': nat, d': nat :: Candidate(s, a', b', d') && b' <= i ==> r.0 < d' || (r.0 == d' && a <= a')
  }

  /** No run crosses position `i`. */
  ghost predicate BetweenRuns(s: string, i: nat) {
    forall a: nat, b: nat :: MaximalRun(s, a, b) ==> b <= i || i <= a
  }

  /** Going past a run that is no candidate keeps the best. */
  lemma SkipRun(s: string, start: nat, end: nat, best: Option<(nat, string)>, a: nat, b: nat)
    requires BetweenRuns(s, start) && MaximalRun(s, start, end) && BestSoFar(s, start, best, a, b)
    requires forall d: nat :: !Candidate(s, start, end, d)
    ensures BestSoFar(s, end, best, a, b)
  {
    forall a': nat, b': nat, d': nat | Candidate(s, a', b', d') && b' <= end
      ensures b' <= start
    {
      RunsDoNotOverlap(s, start, end, a', b');
    }
  }

  /** Going past a candidate replaces the best only if it is strictly nearer. */
  lemma TakeRun(s: string, start: nat, end: nat, d: nat, best: Option<(nat, string)>, a: nat, b: nat)
    requires BetweenRuns(s, start) && Candidate(s, start, end, d) && BestSoFar(s, start, best, a, b)
    ensures best.None? || d < best.value.0 ==> BestSoFar(s, end, Some((d, s[start..end])), start, end)
    ensures best.Some? && best.value.0 <= d ==> BestSoFar(s, end, best, a, b)
  {
    forall a': nat, b': nat, d': nat | Candidate(s, a', b', d') && b' <= end
      ensures b' <= start || (a' == start && b' == end && d' == d)
    {
      RunsDoNotOverlap(s, start, end, a', b');
    }
  }

  lemma PastRun(s: string, start: nat, end: nat)
    requires BetweenRuns(s, start) && MaximalRun(s, start, end)
    ensures BetweenRuns(s, end)
  {
  }

  /** The filters on one run of digits, in the order of the source. */
  method Fits(lower: string, start: nat, end: nat) returns (fits: bool)
    requires start < end <= |lower|
    ensures fits <==> Standalone(lower, start, end)
  {
    if !(4 <= end - start <= 8) {
      return false;
    }
    if start > 0 {
      ListedChars(lower[start - 1]);
      if IsAsciiAlphanumeric(lower[start - 1]) || lower[start - 1] in BAD_PREV {
        return false;
      }
    }
    if end < |lower| {
      ListedChars(lower[end]);
      if IsAsciiAlphanumeric(lower[end]) || lower[end] in BAD_NEXT {
        return false;
      }
    }
    var after := TrimStart(lower[end..]);
    UnitsMean(after);
    if exists k :: 0 <= k < |UNITS| && StartsWith(after, UNITS[k]) {
      return false;
    }
    var before := TrimEnd(lower[..start]);
    fits := !EndsWith(before, "©") && !EndsWith(before, "(c)");
  }

  /** `extract_code` on the lower-cased text. */
  method ExtractLower(lower: string) returns (code: Option<string>)
    ensures code.None? <==> forall a: nat, b: nat, d: nat :: !Candidate(lower, a, b, d)
    ensures code.Some? ==> exists a: nat, b: nat, d: nat :: Best(lower, a, b, d) && code.value == lower[a..b]
  {
    var hints := ScanHints(lower);
    if hints == [] {
      return None;
    }
    var best: Option<(nat, string)> := None;
    ghost var bestA, bestB := 0, 0;
    var i := 0;
    while i < |lower|
      invariant i <= |lower|
      invariant BetweenRuns(lower, i)
      invariant BestSoFar(lower, i, best, bestA, bestB)
      decreases |lower| - i
    {
      if !IsDigit(lower[i]) {
        i := i + 1;
        continue;
      }
      var start := i;
      while i < |lower| && IsDigit(lower[i])
        invariant start <= i <= |lower|
        invariant forall j :: start <= j < i ==> IsDigit(lower[j])
      {
        i := i + 1;
      }
      RunAtStart(lower, start, i);
      PastRun(lower, start, i);
      var end, len := i, i - start;
      var fits := Fits(lower, start, end);
      if !fits {
        SkipRun(lower, start, end, best, bestA, bestB);
        continue;
      }
      var dist := NearestHint(lower, hints, start);
      var limit := if len == 4 && 1900 <= Value(lower[start..end]) <= 2100 then 40 else 120;
      NearestUnique(lower, start, dist);
      if dist > limit {
        SkipRun(lower, start, end, best, bestA, bestB);
        continue;
      }
      TakeRun(lower, start, end, dist, best, bestA, bestB);
      if best.None? || dist < best.value.0 {
        best := Some((dist, lower[start..end]));
        bestA, bestB := start, end;
      }
    }
    BestAtEnd(lower, best, bestA, bestB);
    code := if best.Some? then Some(best.value.1) else None;
  }

  lemma BestAtEnd(s: string, best: Option<(nat, string)>, a: nat, b: nat)
    requires BestSoFar(s, |s|, best, a, b)
    ensures best.None? ==> forall a': nat, b': nat, d': nat :: !Candidate(s, a', b', d')
    ensures best.Some? ==> Best(s, a, b, best.value.0) && best.value.1 == s[a..b]
  {
  }

  /** The digits around `start` that reach up to `i`. */
  lemma RunBackwards(s: string, start: nat, i: nat) returns (a: nat)
    requires start < i <= |s| && forall j :: start <= j < i ==> IsDigit(s[j])
    requires i < |s| ==> !IsDigit(s[i])
    ensures a <= start && MaximalRun(s, a, i)
  {
    a := start;
    while a > 0 && IsDigit(s[a - 1])
      invariant a <= start && forall j :: a <= j < i ==> IsDigit(s[j])
    {
      a := a - 1;
    }
  }

  lemma RunAtStart(s: string, start: nat, i: nat)
    requires BetweenRuns(s, start) && start < i <= |s|
    requires forall j :: start <= j < i ==> IsDigit(s[j])
    requires i < |s| ==> !IsDigit(s[i])
    ensures MaximalRun(s, start, i)
  {
    var a := RunBackwards(s, start, i);
  }

  lemma NearestUnique(s: string, a: nat, d: nat)
    requires Nearest(s, a, d)
    ensures forall d': nat :: Nearest(s, a, d') ==> d' == d
  {
  }

  /** `extract_code`. */
  method ExtractCode(text: string) returns (code: Option<string>)
    ensures code.None? <==> forall a: nat, b: nat, d: nat :: !Candidate(Lower(text), a, b, d)
    ensures code.Some?
            ==> exists a: nat, b: nat, d: nat :: Best(Lower(text), a, b, d) && code.value == Lower(text)[a..b]
  {
    code := ExtractLower(Lower(text));
  }
}
