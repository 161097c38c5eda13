/** Following the audit file: an offset that only moves past complete lines, and what happens
    when a line is not text. */
module AuditTail {
  import opened Text
  import opened DnsWindow

  type Byte = b: int | 0 <= b < 256
  type Bytes = seq<Byte>

  const NEWLINE: Byte := 10

  // ── Lines ──────────────────────────────────────────────

  /** Ends with its only newline. */
  ghost predicate CompleteLine(l: Bytes) {
    l != [] && Last(l) == 10 && 10 !in Front(l)
  }

  function Concat(ls: seq<Bytes>): Bytes {
    if ls == [] then [] else ls[0] + Concat(ls[1..])
  }

  /** Just past the next newline at or after `from`, or None when the rest has none. */
  function LineEnd(c: Bytes, from: nat): (r: Option<nat>)
    ensures r.Some? ==> from < r.value <= |c| && CompleteLine(c[from..r.value])
    ensures r.None? && from <= |c| ==> NEWLINE !in c[from..]
    decreases |c| - from
  {
    if from >= |c| then None
    else if c[from] == NEWLINE then
      assert c[from..from + 1] == [NEWLINE];
      Some(from + 1)
    else
      var r := LineEnd(c, from + 1);
      assert c[from..] == [c[from]] + c[from + 1..];
      assert r.Some? ==> c[from..r.value] == [c[from]] + c[from + 1..r.value]
                         && Front(c[from..r.value]) == [c[from]] + Front(c[from + 1..r.value]);
      r
  }

  /** What one reading hands over, where it stops, and whether it stopped at the end or on bytes
      that are no text. */
  datatype Batch = Batch(lines: seq<Bytes>, pos: nat, ok: bool)

  /** What `read_new` reads: the complete lines from `from` on, up to the end or to the first line
      that is not text. The unfinished last line is decoded too before it is put off. */
  function ReadNew(c: Bytes, from: nat, isText: Bytes -> bool): Batch
    decreases |c| - from
  {
    match LineEnd(c, from)
    case None => Batch([], from, from >= |c| || isText(c[from..]))
    case Some(end) =>
      if !isText(c[from..end]) then Batch([], from, false)
      else
        var rest := ReadNew(c, end, isText);
        Batch([c[from..end]] + rest.lines, rest.pos, rest.ok)
  }

  /** `c[a..b]` is a line of the stretch from `from` on, finished or not. */
  ghost predicate LineAt(c: Bytes, from: nat, a: nat, b: nat) {
    && from <= a < b <= |c| && (a == from || c[a - 1] == NEWLINE)
    && NEWLINE !in c[a..b - 1] && (c[b - 1] == NEWLINE || b == |c|)
  }

  ghost predicate Readable(c: Bytes, from: nat, isText: Bytes -> bool) {
    forall a: nat, b: nat :: LineAt(c, from, a, b) ==> isText(c[a..b])
  }

  /** The first line ends at `end`; the others are the lines from there on. */
  lemma LinesSplit(c: Bytes, from: nat, end: nat, a: nat, b: nat)
    requires from < end <= |c| && CompleteLine(c[from..end])
    ensures LineAt(c, from, a, b) <==> (a == from && b == end) || LineAt(c, end, a, b)
  {
    assert c[from..end - 1] == Front(c[from..end]) && c[end - 1] == NEWLINE;
    assert forall i :: from <= i < end - 1 ==> c[i] == c[from..end - 1][i - from];
    if LineAt(c, from, a, b) {
      assert forall i :: a <= i < b - 1 ==> c[i] == c[a..b - 1][i - a];
    }
  }

  lemma OnlyLine(c: Bytes, from: nat, a: nat, b: nat)
    requires from <= |c| && NEWLINE !in c[from..]
    ensures LineAt(c, from, a, b) <==> a == from && b == |c| && from < |c|
  {
    assert forall i :: from <= i < |c| ==> c[i] == c[from..][i - from];
  }

  lemma {:induction false} ReadNewMeans(c: Bytes, from: nat, isText: Bytes -> bool)
    requires from <= |c|
    ensures var b := ReadNew(c, from, isText);
            && from <= b.pos <= |c|
            && Concat(b.lines) == c[from..b.pos]
            && (forall i :: 0 <= i < |b.lines| ==> CompleteLine(b.lines[i]))
            && (b.pos == from || c[b.pos - 1] == NEWLINE)
            && (b.ok ==> NEWLINE !in c[b.pos..])
    decreases |c| - from
  {
    match LineEnd(c, from)
    case None =>
    case Some(end) =>
      if isText(c[from..end]) {
        ReadNewMeans(c, end, isText);
        var rest := ReadNew(c, end, isText);
        var b := ReadNew(c, from, isText);
        assert b.lines[1..] == rest.lines;
        assert c[from..b.pos] == c[from..end] + c[end..b.pos];
      }
  }

  /** A reading gets to the end exactly if every line, the unfinished one included, is text. */
  lemma {:induction false} ReadsToEnd(c: Bytes, from: nat, isText: Bytes -> bool)
    requires from <= |c|
    ensures ReadNew(c, from, isText).ok <==> Readable(c, from, isText)
    decreases |c| - from
  {
    match LineEnd(c, from)
    case None =>
      forall a: nat, b: nat
        ensures LineAt(c, from, a, b) <==> a == from && b == |c| && from < |c|
      {
        OnlyLine(c, from, a, b);
      }
      assert from < |c| ==> LineAt(c, from, from, |c|) && c[from..|c|] == c[from..];
    case Some(end) =>
      ReadsToEnd(c, end, isText);
      forall a: nat, b: nat
        ensures LineAt(c, from, a, b) <==> (a == from && b == end) || LineAt(c, end, a, b)
      {
        LinesSplit(c, from, end, a, b);
      }
      assert LineAt(c, from, from, end);
  }

  /** The next line, finished or not, if there is one. */
  function NextLine(c: Bytes, from: nat): Bytes
    requires from <= |c|
  {
    match LineEnd(c, from)
    case None => c[from..]
    case Some(end) => c[from..end]
  }

  /** A reading is without loss or repetition exactly if it gets to the end or already fails on
      its first line. */
  predicate Smooth(b: Batch) {
    b.ok || b.lines == []
  }

  lemma SmoothMeans(c: Bytes, from: nat, isText: Bytes -> bool)
    requires from < |c|
    ensures Smooth(ReadNew(c, from, isText))
            <==> Readable(c, from, isText) || LineEnd(c, from).None? || !isText(NextLine(c, from))
  {
    ReadsToEnd(c, from, isText);
  }

  lemma {:induction false} SameLineEnd(c: Bytes, c': Bytes, from: nat)
    requires |c| <= |c'| && c == c'[..|c|] && LineEnd(c, from).Some?
    ensures LineEnd(c', from) == LineEnd(c, from)
    decreases |c| - from
  {
    assert c[from] == c'[from];
    if c[from] != NEWLINE {
      SameLineEnd(c, c', from + 1);
    }
  }

  /** When the file has grown, a reading from the same place hands over the same lines again. */
  lemma {:induction false} ReadsSameLines(c: Bytes, c': Bytes, from: nat, isText: Bytes -> bool)
    requires |c| <= |c'| && c == c'[..|c|]
    ensures ReadNew(c, from, isText).lines <= ReadNew(c', from, isText).lines
    decreases |c| - from
  {
    if LineEnd(c, from).Some? {
      var end := LineEnd(c, from).value;
      SameLineEnd(c, c', from);
      assert c[from..end] == c'[from..end];
      ReadsSameLines(c, c', end, isText);
    }
  }

  /** A stretch of the file has only one reading as complete lines. */
  lemma {:induction false} OneReading(xs: seq<Bytes>, ys: seq<Bytes>)
    requires forall i :: 0 <= i < |xs| ==> CompleteLine(xs[i])
    requires forall i :: 0 <= i < |ys| ==> CompleteLine(ys[i])
    requires Concat(xs) == Concat(ys)
    ensures xs == ys
  {
    NothingRead(xs);
    NothingRead(ys);
    if xs != [] {
      SameFirstLine(xs[0], Concat(xs[1..]), ys[0], Concat(ys[1..]));
      OneReading(xs[1..], ys[1..]);
      assert xs == [xs[0]] + xs[1..] && ys == [ys[0]] + ys[1..];
    }
  }

  lemma NothingRead(xs: seq<Bytes>)
    requires forall i :: 0 <= i < |xs| ==> CompleteLine(xs[i])
    ensures Concat(xs) == [] <==> xs == []
  {
  }

  lemma SameFirstLine(a: Bytes, r: Bytes, b: Bytes, s: Bytes)
    requires CompleteLine(a) && CompleteLine(b) && a + r == b + s
    ensures a == b && r == s
  {
    var t := a + r;
    assert forall i :: 0 <= i < |a| - 1 ==> t[i] == Front(a)[i];
    assert forall i :: 0 <= i < |b| - 1 ==> t[i] == Front(b)[i];
    assert t[|a| - 1] == NEWLINE && (b + s)[|b| - 1] == NEWLINE;
    assert |a| == |b|;
    assert a == t[..|a|] && b == t[..|a|];
    assert r == t[|a|..] && s == t[|a|..];
  }

  lemma {:induction false} ConcatAppend(xs: seq<Bytes>, ys: seq<Bytes>)
    ensures Concat(xs + ys) == Concat(xs) + Concat(ys)
  {
    if xs == [] {
      assert xs + ys == ys;
    } else {
      ConcatAppend(xs[1..], ys);
      assert (xs + ys)[1..] == xs[1..] + ys;
      Assoc3(xs[0], Concat(xs[1..]), Concat(ys));
    }
  }

  // ── One poll ───────────────────────────────────────────

  /** What one poll sees: the file's identity and length, and its content when it is read. */
  datatype Sight = Sight(ino: nat, len: nat, content: Bytes)

  datatype Cursor = Cursor(ino: Option<nat>, pos: nat)

  /** Where this poll starts reading: the end on first sight, the beginning after a rotation. */
  function Positioned(k: Cursor, s: Sight): Cursor {
    if k.ino.None? then Cursor(Some(s.ino), s.len)
    else if k.ino.value != s.ino || s.len < k.pos then Cursor(Some(s.ino), 0)
    else k
  }

  function PollBatch(k: Cursor, s: Sight, isText: Bytes -> bool): Batch {
    var p := Positioned(k, s);
    if s.len > p.pos then ReadNew(s.content, p.pos, isText) else Batch([], p.pos, true)
  }

  /** After a failed reading the offset stays where the poll began, although lines before the
      failure have been handed over. */
  function PollCursor(k: Cursor, s: Sight, isText: Bytes -> bool): Cursor {
    var b := PollBatch(k, s, isText);
    if b.ok then Cursor(Positioned(k, s).ino, b.pos) else Positioned(k, s)
  }

  /** Feeding lines to the window; `parse` reads a line, None when it is no query. */
  function Feed(st: State, lines: seq<Bytes>, parse: Bytes -> Option<(string, string)>, now: int,
                keepSecs: int): State {
    if lines == [] then st
    else
      var before := Feed(st, Front(lines), parse, now, keepSecs);
      match parse(Last(lines))
      case None => before
      case Some(q) => Apply(before, Record(q.0, q.1, now), keepSecs)
  }

  /** The queries of the lines, as the window will be told. */
  function Recorded(lines: seq<Bytes>, parse: Bytes -> Option<(string, string)>, now: int): seq<DnsWindow.Event> {
    if lines == [] then []
    else
      Recorded(Front(lines), parse, now)
      + match parse(Last(lines))
        case None => []
        case Some(q) => [Record(q.0, q.1, now)]
  }

  lemma RecordedOne(l: Bytes, parse: Bytes -> Option<(string, string)>, now: int)
    ensures Recorded([l], parse, now)
            == if parse(l).Some? then [Record(parse(l).value.0, parse(l).value.1, now)] else []
  {
    assert Front([l]) == [] && Last([l]) == l;
  }

  /** One record for each line that is a query, in order. */
  lemma {:induction false} RecordedConcat(xs: seq<Bytes>, ys: seq<Bytes>,
                                          parse: Bytes -> Option<(string, string)>, now: int)
    ensures Recorded(xs + ys, parse, now) == Recorded(xs, parse, now) + Recorded(ys, parse, now)
  {
    if ys == [] {
      assert xs + ys == xs;
    } else {
      RecordedConcat(xs, Front(ys), parse, now);
      assert Front(xs + ys) == xs + Front(ys) && Last(xs + ys) == Last(ys);
    }
  }

  /** Handing lines to the window records exactly their queries. */
  lemma {:induction false} FeedRecords(es: seq<DnsWindow.Event>, lines: seq<Bytes>,
                                       parse: Bytes -> Option<(string, string)>, now: int, keepSecs: int)
    ensures Feed(DnsWindow.After(es, keepSecs), lines, parse, now, keepSecs)
            == DnsWindow.After(es + Recorded(lines, parse, now), keepSecs)
  {
    if lines == [] {
      assert es + [] == es;
    } else {
      FeedRecords(es, Front(lines), parse, now, keepSecs);
      match parse(Last(lines))
      case None =>
        assert Recorded(lines, parse, now) == Recorded(Front(lines), parse, now);
      case Some(q) =>
        var longer := es + Recorded(Front(lines), parse, now);
        assert es + Recorded(lines, parse, now) == longer + [Record(q.0, q.1, now)];
        assert Front(longer + [Record(q.0, q.1, now)]) == longer;
    }
  }

  class Tail {
    const window: Window
    const parse: Bytes -> Option<(string, string)>
    /** Whether the bytes are valid UTF-8. */
    const isText: Bytes -> bool
    var ino: Option<nat>
    var pos: nat

    function Place(): Cursor
      reads this
    {
      Cursor(ino, pos)
    }

    constructor (window: Window, parse: Bytes -> Option<(string, string)>, isText: Bytes -> bool)
      ensures Place() == Cursor(None, 0) && this.window == window && this.parse == parse && this.isText == isText
    {
      this.window, this.parse, this.isText := window, parse, isText;
      ino, pos := None, 0;
    }

    /** `read_new`: line by line, stopping before a line that is not finished; None is the error
        for a line that is not text. */
    method ReadLines(content: Bytes, from: nat, now: int) returns (next: Option<nat>, ghost lines: seq<Bytes>)
      modifies window
      ensures var b := ReadNew(content, from, isText);
              lines == b.lines && next == if b.ok then Some(b.pos) else None
      ensures window.Snapshot() == Feed(old(window.Snapshot()), lines, parse, now, window.keepSecs)
    {
      var at := from;
      lines := [];
      while LineEnd(content, at).Some?
        invariant var rest := ReadNew(content, at, isText);
                  ReadNew(content, from, isText) == Batch(lines + rest.lines, rest.pos, rest.ok)
        invariant window.Snapshot() == Feed(old(window.Snapshot()), lines, parse, now, window.keepSecs)
        decreases |content| - at
      {
        var end := LineEnd(content, at).value;
        var line := content[at..end];
        if !isText(line) {
          return None, lines;
        }
        Assoc3(lines, [line], ReadNew(content, end, isText).lines);
        assert Front(lines + [line]) == lines;
        lines := lines + [line];
        at := end;
        match parse(line)
        case Some(q) => window.RecordQuery(q.0, q.1, now);
        case None =>
      }
      if at < |content| && !isText(content[at..]) {
        return None, lines;
      }
      next := Some(at);
    }

    /** One turn of the polling loop; `sight` is None while the file is missing. */
    method Poll(sight: Option<Sight>, now: int) returns (ghost lines: seq<Bytes>)
      modifies this, window
      ensures sight.None? ==> lines == [] && Place() == old(Place()) && window.Snapshot() == old(window.Snapshot())
      ensures sight.Some? ==>
                && lines == PollBatch(old(Place()), sight.value, isText).lines
                && Place() == PollCursor(old(Place()), sight.value, isText)
                && window.Snapshot()
                   == Apply(Feed(old(window.Snapshot()), lines, parse, now, window.keepSecs), Prune(now),
                            window.keepSecs)
    {
      lines := [];
      match sight
      case None =>
      case Some(s) =>
        if ino.None? {
          pos := s.len;
          ino := Some(s.ino);
        } else if ino.value != s.ino || s.len < pos {
          pos := 0;
          ino := Some(s.ino);
        }
        if s.len > pos {
          var next: Option<nat>;
          next, lines := ReadLines(s.content, pos, now);
          if next.Some? {
            pos := next.value;
          }
        }
        window.PruneOld(now);
    }
  }

  // ── A stretch in which the file only grows ─────────────

  /** Later polls see the same file, longer; a poll reads at least what its metadata promised. */
  ghost predicate Grows(ss: seq<Sight>) {
    && (forall i :: 0 <= i < |ss| ==> ss[i].ino == ss[0].ino && ss[i].len <= |ss[i].content|)
    && (forall i, j :: 0 <= i < j < |ss| ==>
          |ss[i].content| <= ss[j].len && ss[i].content == ss[j].content[..|ss[i].content|])
  }

  function After(ss: seq<Sight>, isText: Bytes -> bool): Cursor {
    if ss == [] then Cursor(None, 0) else PollCursor(After(Front(ss), isText), Last(ss), isText)
  }

  /** What the poll after `ss` reads. */
  function Reading(ss: seq<Sight>, s: Sight, isText: Bytes -> bool): Batch {
    PollBatch(After(ss, isText), s, isText)
  }

  /** All lines handed over so far. */
  function Handed(ss: seq<Sight>, isText: Bytes -> bool): seq<Bytes> {
    if ss == [] then [] else Handed(Front(ss), isText) + Reading(Front(ss), Last(ss), isText).lines
  }

  /** No poll hands over lines and then fails. */
  predicate AllSmooth(ss: seq<Sight>, isText: Bytes -> bool) {
    ss == [] || (AllSmooth(Front(ss), isText) && Smooth(Reading(Front(ss), Last(ss), isText)))
  }

  lemma PollGrown(k: Cursor, s: Sight, isText: Bytes -> bool)
    requires k.ino == Some(s.ino) && k.pos <= s.len <= |s.content|
    ensures var b, k' := PollBatch(k, s, isText), PollCursor(k, s, isText);
            && k.pos <= b.pos <= |s.content| && k'.ino == k.ino && k'.pos == (if b.ok then b.pos else k.pos)
            && Concat(b.lines) == s.content[k.pos..b.pos]
            && (forall i :: 0 <= i < |b.lines| ==> CompleteLine(b.lines[i]))
            && (b.ok && b.pos < s.len ==> NEWLINE !in s.content[b.pos..])
            && (b.lines == [] <==> b.pos == k.pos) && (b.pos == k.pos || s.content[b.pos - 1] == NEWLINE)
  {
    assert Positioned(k, s) == k;
    ReadNewMeans(s.content, k.pos, isText);
    NothingRead(PollBatch(k, s, isText).lines);
  }

  /** The offset has not moved, or stands behind a newline. */
  predicate Placed(c: Bytes, start: nat, pos: nat) {
    start <= pos <= |c| && (pos == start || c[pos - 1] == NEWLINE)
  }

  lemma PollPlaced(start: nat, k: Cursor, c0: Bytes, s: Sight, isText: Bytes -> bool)
    requires k.ino == Some(s.ino) && Placed(c0, start, k.pos)
    requires |c0| <= s.len <= |s.content| && c0 == s.content[..|c0|]
    ensures PollCursor(k, s, isText).ino == k.ino && Placed(s.content, start, PollCursor(k, s, isText).pos)
  {
    PollGrown(k, s, isText);
  }

  lemma {:induction false} AlwaysPlaced(ss: seq<Sight>, isText: Bytes -> bool)
    requires ss != [] && Grows(ss)
    ensures After(ss, isText).ino == Some(ss[0].ino) && Placed(Last(ss).content, ss[0].len, After(ss, isText).pos)
  {
    var front, s := Front(ss), Last(ss);
    if front == [] {
      assert After(ss, isText) == Cursor(Some(s.ino), s.len);
    } else {
      AlwaysPlaced(front, isText);
      PollPlaced(ss[0].len, After(front, isText), Last(front).content, s, isText);
    }
  }

  /** What one more poll adds to the lines handed over, against what it adds to the offset. */
  lemma PollCounts(k: Cursor, s: Sight, handed: seq<Bytes>, isText: Bytes -> bool)
    requires k.ino == Some(s.ino) && k.pos <= s.len <= |s.content|
    requires forall i :: 0 <= i < |handed| ==> CompleteLine(handed[i])
    ensures var b, k' := PollBatch(k, s, isText), PollCursor(k, s, isText);
            && |Concat(handed + b.lines)| - |Concat(handed)| >= k'.pos - k.pos
            && (|Concat(handed + b.lines)| - |Concat(handed)| == k'.pos - k.pos <==> Smooth(b))
            && forall i :: 0 <= i < |handed + b.lines| ==> CompleteLine((handed + b.lines)[i])
  {
    PollGrown(k, s, isText);
    ConcatAppend(handed, PollBatch(k, s, isText).lines);
  }

  /** At least the stretch up to the offset was handed over, in complete lines; more exactly if
      some poll failed after handing over a line. */
  lemma {:induction false} HandedCounts(ss: seq<Sight>, isText: Bytes -> bool)
    requires ss != [] && Grows(ss)
    ensures var n, handed := After(ss, isText).pos - ss[0].len, Handed(ss, isText);
            && |Concat(handed)| >= n && (|Concat(handed)| == n <==> AllSmooth(ss, isText))
            && forall i :: 0 <= i < |handed| ==> CompleteLine(handed[i])
  {
    var front, s := Front(ss), Last(ss);
    if front == [] {
      assert After(ss, isText) == Cursor(Some(s.ino), s.len);
      assert Handed(ss, isText) == [];
      assert AllSmooth(front, isText);
    } else {
      HandedCounts(front, isText);
      AlwaysPlaced(front, isText);
      PollCounts(After(front, isText), s, Handed(front, isText), isText);
    }
  }

  /** While no poll fails after handing over lines, what was handed over is the stretch read. */
  lemma {:induction false} HandedIsStretch(ss: seq<Sight>, isText: Bytes -> bool)
    requires ss != [] && Grows(ss) && AllSmooth(ss, isText)
    ensures ss[0].len <= After(ss, isText).pos <= |Last(ss).content|
    ensures Concat(Handed(ss, isText)) == Last(ss).content[ss[0].len..After(ss, isText).pos]
  {
    var front, s := Front(ss), Last(ss);
    AlwaysPlaced(ss, isText);
    if front == [] {
      assert After(ss, isText) == Cursor(Some(s.ino), s.len);
      assert Handed(ss, isText) == [];
    } else {
      AlwaysPlaced(front, isText);
      HandedIsStretch(front, isText);
      var k, b := After(front, isText), Reading(front, s, isText);
      PollGrown(k, s, isText);
      ConcatAppend(Handed(front, isText), b.lines);
      Glue(s.content, Last(front).content, ss[0].len, k.pos, b.pos);
    }
  }

  lemma Glue(c: Bytes, c0: Bytes, a: nat, m: nat, b: nat)
    requires a <= m <= |c0| <= |c| && m <= b <= |c| && c0 == c[..|c0|]
    ensures c0[a..m] + c[m..b] == c[a..b]
  {
  }

  /** After a rotation or a truncation reading starts over at the beginning of the file there is
      now: its complete lines from there are handed over, and the cursor follows it. */
  lemma RotationStartsOver(k: Cursor, s: Sight, isText: Bytes -> bool)
    requires k.ino.Some? && (k.ino.value != s.ino || s.len < k.pos) && 0 < s.len <= |s.content|
    ensures var b, k' := PollBatch(k, s, isText), PollCursor(k, s, isText);
            && b.pos <= |s.content| && Concat(b.lines) == s.content[0..b.pos]
            && (forall i :: 0 <= i < |b.lines| ==> CompleteLine(b.lines[i]))
            && (b.ok ==> NEWLINE !in s.content[b.pos..]) && (b.ok <==> Readable(s.content, 0, isText))
            && k'.ino == Some(s.ino) && k'.pos == if b.ok then b.pos else 0
  {
    ReadNewMeans(s.content, 0, isText);
    ReadsToEnd(s.content, 0, isText);
  }

  /** The first sight of a file hands nothing over and starts at its end. */
  lemma FirstSightSkips(k: Cursor, s: Sight, isText: Bytes -> bool)
    requires k.ino.None?
    ensures PollBatch(k, s, isText).lines == [] && PollCursor(k, s, isText) == Cursor(Some(s.ino), s.len)
  {
  }

  /** After any number of polls of a growing file, the lines handed over are exactly the complete
      lines between the first offset and the current one, each once and in order, if and only if
      no poll failed after handing over a line. */
  lemma HandsOverCompleteLines(ss: seq<Sight>, isText: Bytes -> bool)
    requires ss != [] && Grows(ss)
    ensures var start, pos, c, handed := ss[0].len, After(ss, isText).pos, Last(ss).content, Handed(ss, isText);
            && start <= pos <= |c| && (forall i :: 0 <= i < |handed| ==> CompleteLine(handed[i]))
            && (Concat(handed) == c[start..pos] <==> AllSmooth(ss, isText))
            && (Reading(Front(ss), Last(ss), isText).ok && pos < Last(ss).len ==> NEWLINE !in c[pos..])
  {
    AlwaysPlaced(ss, isText);
    HandedCounts(ss, isText);
    if AllSmooth(ss, isText) {
      HandedIsStretch(ss, isText);
    }
    if |ss| > 1 {
      AlwaysPlaced(Front(ss), isText);
      PollGrown(After(Front(ss), isText), Last(ss), isText);
    }
  }

  lemma ReadableBehind(c: Bytes, start: nat, pos: nat, isText: Bytes -> bool)
    requires Placed(c, start, pos) && Readable(c, start, isText)
    ensures Readable(c, pos, isText)
  {
    assert forall a: nat, b: nat :: LineAt(c, pos, a, b) ==> LineAt(c, start, a, b);
  }

  /** Text is enough: if every line a poll finds behind the first offset, the unfinished one
      included, is text, then none fails. */
  lemma {:induction false} TextIsSmooth(ss: seq<Sight>, isText: Bytes -> bool)
    requires ss != [] && Grows(ss)
    requires forall i :: 0 <= i < |ss| ==> Readable(ss[i].content, ss[0].len, isText)
    ensures AllSmooth(ss, isText)
  {
    var front, s := Front(ss), Last(ss);
    if front == [] {
      assert After(ss, isText) == Cursor(Some(s.ino), s.len);
      assert AllSmooth(front, isText);
    } else {
      TextIsSmooth(front, isText);
      AlwaysPlaced(front, isText);
      var k, c0 := After(front, isText), Last(front).content;
      assert c0 == s.content[..|c0|] && s == ss[|ss| - 1];
      ReadableBehind(s.content, ss[0].len, k.pos, isText);
      ReadsToEnd(s.content, k.pos, isText);
    }
  }

  /** A poll that fails hands its lines over again at the next one, whatever was appended. */
  lemma FailedPollRepeats(k: Cursor, s: Sight, s': Sight, isText: Bytes -> bool)
    requires k.ino == Some(s.ino) && s'.ino == s.ino && k.pos <= s.len <= |s.content| <= s'.len
    requires |s.content| <= |s'.content| && s.content == s'.content[..|s.content|]
    requires !PollBatch(k, s, isText).ok
    ensures PollBatch(k, s, isText).lines <= PollBatch(PollCursor(k, s, isText), s', isText).lines
  {
    ReadsSameLines(s.content, s'.content, k.pos, isText);
  }

  /** Without such failures the lines do not depend on when the polls happened, only on where
      they ended. */
  lemma PollingTimesDoNotMatter(ss: seq<Sight>, ts: seq<Sight>, isText: Bytes -> bool)
    requires ss != [] && ts != [] && Grows(ss) && Grows(ts) && AllSmooth(ss, isText) && AllSmooth(ts, isText)
    requires ss[0].len == ts[0].len && Last(ss).content == Last(ts).content
             && After(ss, isText).pos == After(ts, isText).pos
    ensures Handed(ss, isText) == Handed(ts, isText)
  {
    HandsOverCompleteLines(ss, isText);
    HandsOverCompleteLines(ts, isText);
    OneReading(Handed(ss, isText), Handed(ts, isText));
  }
}
