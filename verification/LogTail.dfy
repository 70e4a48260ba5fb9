/** tailFile's offset and complete-line logic: what is emitted must not depend on when the file is
    polled. Stretches of text are named by their bounds, as the code does with its offset. */
module LogTail {

  const MAX_PARTIAL_LINE: nat := 0x10_0000

  // ----- Lines -----

  predicate NoNewline(s: string, a: nat, b: nat)
    requires a <= b <= |s|
    decreases |s| - a
  {
    a == b || (s[a] != '\n' && NoNewline(s, a + 1, b))
  }

  /** Only carriage returns. */
  predicate Blank(s: string, a: nat, b: nat)
    requires a <= b <= |s|
    decreases |s| - a
  {
    a == b || (s[a] == '\r' && Blank(s, a + 1, b))
  }

  lemma {:induction false} NoNewlineSplit(s: string, a: nat, b: nat, c: nat)
    requires a <= b <= c <= |s|
    ensures NoNewline(s, a, c) <==> NoNewline(s, a, b) && NoNewline(s, b, c)
    decreases |s| - a
  {
    if a < b { NoNewlineSplit(s, a + 1, b, c); }
  }

  lemma {:induction false} BlankSplit(s: string, a: nat, b: nat, c: nat)
    requires a <= b <= c <= |s|
    ensures Blank(s, a, c) <==> Blank(s, a, b) && Blank(s, b, c)
    decreases |s| - a
  {
    if a < b { BlankSplit(s, a + 1, b, c); }
  }

  /** The first newline in s[i..to], or `to` when there is none. */
  function NewlineFrom(s: string, i: nat, to: nat): (n: nat)
    requires i <= to <= |s|
    ensures i <= n <= to && NoNewline(s, i, n) && (n < to ==> s[n] == '\n')
    decreases |s| - i
  {
    if i == to || s[i] == '\n' then i else NewlineFrom(s, i + 1, to)
  }

  lemma {:induction false} NewlineFromIs(s: string, i: nat, to: nat, n: nat)
    requires i <= n <= to <= |s| && NoNewline(s, i, n) && (n < to ==> s[n] == '\n')
    ensures NewlineFrom(s, i, to) == n
    decreases |s| - i
  {
    if i < n { NewlineFromIs(s, i + 1, to, n); }
  }

  /** A newline is not before the first one. */
  lemma {:induction false} NewlineAtOrBefore(s: string, i: nat, to: nat, k: nat)
    requires i <= k < to <= |s| && s[k] == '\n'
    ensures NewlineFrom(s, i, to) <= k
    decreases |s| - i
  {
    if s[i] != '\n' { NewlineAtOrBefore(s, i + 1, to, k); }
  }

  /** strings.TrimRight(s[a..b], "\r"), by where it ends. */
  function TrimCR(s: string, a: nat, b: nat): (e: nat)
    requires a <= b <= |s|
    ensures a <= e <= b
  {
    if a < b && s[b - 1] == '\r' then TrimCR(s, a, b - 1) else b
  }

  lemma {:induction false} TrimmedAway(s: string, a: nat, b: nat)
    requires a <= b <= |s|
    ensures TrimCR(s, a, b) == a <==> Blank(s, a, b)
  {
    if a < b {
      BlankSplit(s, a, b - 1, b);
      TrimmedAway(s, a, b - 1);
    }
  }

  /** One line as emitted: nothing when only carriage returns are left of it. */
  function Line(s: string, a: nat, b: nat): seq<string>
    requires a <= b <= |s|
  {
    if TrimCR(s, a, b) == a then [] else [s[a..TrimCR(s, a, b)]]
  }

  /** The non-empty lines ended between two positions, without their line ends: what a reader of that
      stretch emits. */
  function Emitted(s: string, from: nat, to: nat): seq<string>
    requires from <= to <= |s|
    decreases |s| - from
  {
    var i := NewlineFrom(s, from, to);
    if i == to then [] else Line(s, from, i) + Emitted(s, i + 1, to)
  }

  /** A line as written: its text and the carriage returns before its newline. */
  datatype Written = Written(text: string, crs: nat)

  predicate IsText(text: string) {
    '\n' !in text && (text == "" || text[|text| - 1] != '\r')
  }

  function Returns(n: nat): (s: string)
    ensures |s| == n && forall i :: 0 <= i < n ==> s[i] == '\r'
  {
    if n == 0 then "" else "\r" + Returns(n - 1)
  }

  function WrittenOut(ls: seq<Written>): string {
    if ls == [] then "" else ls[0].text + Returns(ls[0].crs) + "\n" + WrittenOut(ls[1..])
  }

  function NonEmpty(ls: seq<Written>): seq<string> {
    if ls == [] then [] else (if ls[0].text == "" then [] else [ls[0].text]) + NonEmpty(ls[1..])
  }

  lemma {:induction false} NoNewlineIn(s: string, a: nat, b: nat)
    requires a <= b <= |s| && forall i :: a <= i < b ==> s[i] != '\n'
    ensures NoNewline(s, a, b)
    decreases b - a
  {
    if a < b { NoNewlineIn(s, a + 1, b); }
  }

  lemma {:induction false} TrimsReturns(s: string, a: nat, e: nat, b: nat)
    requires a <= e <= b <= |s| && (e == a || s[e - 1] != '\r') && forall i :: e <= i < b ==> s[i] == '\r'
    ensures TrimCR(s, a, b) == e
    decreases b - e
  {
    if e < b { TrimsReturns(s, a, e, b - 1); }
  }

  /** The bytes of one written line in a file. */
  lemma OneWritten(s: string, from: nat, l: Written, rest: string)
    requires from <= |s| && s[from..] == l.text + Returns(l.crs) + "\n" + rest && IsText(l.text)
    ensures var e := from + |l.text|;
            var i := e + l.crs;
            && i < |s| && s[i] == '\n' && NoNewline(s, from, i) && TrimCR(s, from, i) == e
            && s[from..e] == l.text && s[i + 1..] == rest
  {
    var e := from + |l.text|;
    var i := e + l.crs;
    var t := l.text + Returns(l.crs) + "\n" + rest;
    assert t[..|l.text|] == l.text && t[|l.text|..|l.text| + l.crs] == Returns(l.crs);
    assert t[|l.text| + l.crs] == '\n' && t[|l.text| + l.crs + 1..] == rest;
    forall j | from <= j < |s| ensures s[j] == t[j - from] { assert s[from..][j - from] == s[j]; }
    assert s[from..e] == t[..|l.text|];
    assert s[i + 1..] == t[|l.text| + l.crs + 1..];
    forall j | e <= j < i ensures s[j] == '\r' { assert s[j] == t[|l.text|..|l.text| + l.crs][j - e]; }
    NoNewlineIn(s, from, i);
    TrimsReturns(s, from, e, i);
  }

  ghost predicate AreTexts(ls: seq<Written>) {
    forall i :: 0 <= i < |ls| ==> IsText(ls[i].text)
  }

  /** A reader of a file emits the texts of its non-empty lines, in order. */
  lemma {:induction false} EmitsTheTexts(s: string, from: nat, ls: seq<Written>)
    requires from <= |s| && s[from..] == WrittenOut(ls) && AreTexts(ls)
    ensures Emitted(s, from, |s|) == NonEmpty(ls)
    decreases |ls|
  {
    if ls == [] {
      NothingEmitted(s, from, |s|);
    } else {
      var next := AfterFirst(s, from, ls);
      EmitsTheTexts(s, next, ls[1..]);
    }
  }

  lemma AfterFirst(s: string, from: nat, ls: seq<Written>) returns (next: nat)
    requires from <= |s| && ls != [] && s[from..] == WrittenOut(ls) && AreTexts(ls)
    ensures next <= |s| && s[next..] == WrittenOut(ls[1..]) && AreTexts(ls[1..])
    ensures Emitted(s, from, |s|) == (if ls[0].text == "" then [] else [ls[0].text]) + Emitted(s, next, |s|)
  {
    var l := ls[0];
    next := from + |l.text| + l.crs + 1;
    OneWritten(s, from, l, WrittenOut(ls[1..]));
    EmitsOne(s, from, next - 1, l.text);
  }

  lemma EmitsOne(s: string, from: nat, i: nat, text: string)
    requires from <= i < |s| && s[i] == '\n' && NoNewline(s, from, i)
    requires TrimCR(s, from, i) == from + |text| && s[from..from + |text|] == text
    ensures Emitted(s, from, |s|) == (if text == "" then [] else [text]) + Emitted(s, i + 1, |s|)
  {
    NewlineFromIs(s, from, |s|, i);
  }

  /** What is emitted of a stretch up to a position, and what is left of it. */
  ghost predicate EmittedSoFar(out: seq<string>, s: string, from: nat, pos: nat, to: nat)
    requires from <= pos <= to <= |s|
  {
    out + Emitted(s, pos, to) == Emitted(s, from, to) && EndsLine(s, from, pos)
  }

  lemma NextEmitted(out: seq<string>, s: string, from: nat, pos: nat, to: nat)
    requires from <= pos <= to <= |s| && NewlineFrom(s, pos, to) < to && EmittedSoFar(out, s, from, pos, to)
    ensures var nl := NewlineFrom(s, pos, to);
            EmittedSoFar(out + Line(s, pos, nl), s, from, nl + 1, to)
  {
    var nl := NewlineFrom(s, pos, to);
    Regroup(out, Line(s, pos, nl), Emitted(s, nl + 1, to));
  }

  lemma NothingBefore<T>(a: seq<T>)
    ensures [] + a == a
  {
  }

  lemma Regroup<T>(a: seq<T>, b: seq<T>, c: seq<T>)
    ensures (a + b) + c == a + (b + c)
  {
  }

  predicate EndsLine(s: string, from: nat, to: nat)
    requires from <= to <= |s|
  {
    from == to || s[to - 1] == '\n'
  }

  lemma FirstLine(s: string, a: nat, to: nat, i: nat)
    requires a <= i < to <= |s| && NoNewline(s, a, i) && s[i] == '\n'
    ensures Emitted(s, a, to) == Line(s, a, i) + Emitted(s, i + 1, to)
  {
    NewlineFromIs(s, a, to, i);
  }

  lemma LineFirst(s: string, a: nat, b: nat, c: nat, i: nat)
    requires a <= i < b <= c <= |s| && NoNewline(s, a, i) && s[i] == '\n'
    requires Emitted(s, i + 1, c) == Emitted(s, i + 1, b) + Emitted(s, b, c)
    ensures Emitted(s, a, c) == Emitted(s, a, b) + Emitted(s, b, c)
  {
    FirstLine(s, a, b, i);
    FirstLine(s, a, c, i);
    Regroup(Line(s, a, i), Emitted(s, i + 1, b), Emitted(s, b, c));
  }

  lemma NoLine(s: string, a: nat, c: nat)
    requires a <= c <= |s|
    ensures Emitted(s, a, c) == Emitted(s, a, a) + Emitted(s, a, c)
  {
    assert Emitted(s, a, a) == [];
  }

  /** A stretch that ends a line can be emitted first, and the rest after it. */
  lemma {:induction false} EmittedSplit(s: string, a: nat, b: nat, c: nat)
    requires a <= b <= c <= |s| && EndsLine(s, a, b)
    ensures Emitted(s, a, c) == Emitted(s, a, b) + Emitted(s, b, c)
    decreases |s| - a
  {
    if a == b {
      NoLine(s, a, c);
    } else {
      NewlineAtOrBefore(s, a, b, b - 1);
      var i := NewlineFrom(s, a, b);
      EmittedSplit(s, i + 1, b, c);
      LineFirst(s, a, b, c, i);
    }
  }

  /** A stretch without newline emits nothing. */
  lemma NothingEmitted(s: string, a: nat, b: nat)
    requires a <= b <= |s| && NoNewline(s, a, b)
    ensures Emitted(s, a, b) == []
  {
    NewlineFromIs(s, a, b, b);
  }

  // ----- One poll -----

  /** The end of the last line ended in s[from..n], or `from`. */
  function LineEnd(s: string, from: nat, n: nat): (m: nat)
    requires from <= n <= |s|
    ensures from <= m <= n && EndsLine(s, from, m)
  {
    if n == from || s[n - 1] == '\n' then n else LineEnd(s, from, n - 1)
  }

  lemma {:induction false} AfterLineEnd(s: string, from: nat, n: nat)
    requires from <= n <= |s|
    ensures NoNewline(s, LineEnd(s, from, n), n)
  {
    if n > from && s[n - 1] != '\n' {
      AfterLineEnd(s, from, n - 1);
      NoNewlineSplit(s, LineEnd(s, from, n), n - 1, n);
    }
  }

  /** How far a poll that can see s[..visible] reads: past the complete lines, or past a runaway line
      without any newline, which is dropped. */
  function ConsumedTo(s: string, from: nat, visible: nat): (m: nat)
    requires from <= visible <= |s|
    ensures from <= m <= visible
  {
    var m := LineEnd(s, from, visible);
    if m > from || visible - from < MAX_PARTIAL_LINE then m else visible
  }

  datatype Tail = Tail(offset: int, lines: seq<string>)

  /** Where a poll starts to read: the end on the first one, the beginning after a truncation. */
  function ReadFrom(offset: int, size: nat): nat {
    if offset < 0 then size else if size < offset then 0 else offset
  }

  /** One poll: stat gave `size`, and the read after it saw file[..visible]. */
  function Step(t: Tail, size: nat, file: string, visible: nat): Tail
    requires size <= visible <= |file|
  {
    var from := ReadFrom(t.offset, size);
    if size <= from then Tail(from, t.lines)
    else
      var m := ConsumedTo(file, from, visible);
      Tail(m, t.lines + Emitted(file, from, m))
  }

  class LogWatcher {
    var offset: int
    var lines: seq<string>

    constructor ()
      ensures offset == -1 && lines == []
    {
      offset, lines := -1, [];
    }

    /** The line loop: the complete lines of the stretch, empty ones skipped, up to the one at which the
        service turns out to be disabled, which ends the tailer. */
    method EmitLines(s: string, from: nat, to: nat) returns (out: seq<string>, stopped: bool, ghost at: nat)
      requires from <= to <= |s|
      ensures from <= at <= to && out + Emitted(s, at, to) == Emitted(s, from, to)
      ensures !stopped ==> out == Emitted(s, from, to)
      ensures stopped ==> NewlineFrom(s, at, to) < to && EndsLine(s, from, at)
    {
      out, stopped := [], false;
      var pos := from;
      NothingBefore(Emitted(s, from, to));
      while NewlineFrom(s, pos, to) < to
        invariant from <= pos <= to && EmittedSoFar(out, s, from, pos, to)
        decreases |s| - pos
      {
        var nl := NewlineFrom(s, pos, to);
        var enabled: bool := *;
        if !enabled { return out, true, pos; }
        NextEmitted(out, s, from, pos, to);
        var line := TrimmedLine(s, pos, nl);
        out, pos := out + line, nl + 1;
      }
      at := pos;
    }

    /** A line without its carriage returns; an empty one is nothing to parse. */
    method TrimmedLine(s: string, from: nat, nl: nat) returns (line: seq<string>)
      requires from <= nl <= |s|
      ensures line == Line(s, from, nl)
    {
      var end := TrimCR(s, from, nl);
      line := if end == from then [] else [s[from..end]];
    }

    /** bytes.LastIndexByte, one past. */
    method LastLineEnd(s: string, from: nat, to: nat) returns (n: nat)
      requires from <= to <= |s|
      ensures n == LineEnd(s, from, to)
    {
      n := to;
      while n > from && s[n - 1] != '\n'
        invariant from <= n <= to && LineEnd(s, from, to) == LineEnd(s, from, n)
      {
        n := n - 1;
      }
    }

    /** One iteration of tailFile. Ended by the service being disabled between two lines, it has read as
        far as otherwise but emitted only the lines before. */
    method PollOnce(size: nat, file: string, visible: nat) returns (stopped: bool)
      requires size <= visible <= |file|
      modifies this
      ensures var t := Step(Tail(old(offset), old(lines)), size, file, visible);
              && offset == t.offset && old(lines) <= lines <= t.lines && (!stopped ==> lines == t.lines)
    {
      stopped := false;
      if offset < 0 {
        offset := size;
      } else if size < offset {
        offset := 0;
      }
      if size > offset {
        var from := offset;
        var n := LastLineEnd(file, from, visible);
        if n == from && visible - from >= MAX_PARTIAL_LINE { n := visible; }
        var out;
        ghost var at;
        out, stopped, at := EmitLines(file, from, n);
        offset := n;
        Regroup(lines, out, Emitted(file, at, n));
        lines := lines + out;
      }
    }
  }

  // ----- Schedules -----

  /** One poll of an append-only file: the size stat gave, and how much was there when it was read. */
  datatype Poll = Poll(size: nat, visible: nat)

  /** Each poll sees at least what the one before saw. */
  ghost predicate Schedule(ps: seq<Poll>, file: string) {
    && (forall i :: 0 <= i < |ps| ==> ps[i].size <= ps[i].visible <= |file|)
    && (forall i :: 0 < i < |ps| ==> ps[i - 1].visible <= ps[i].size)
  }

  /** A schedule that starts at `start` and ends with a poll that sees the whole file. */
  ghost predicate FullSchedule(ps: seq<Poll>, file: string, start: nat) {
    |ps| > 1 && Schedule(ps, file) && ps[0].size == start && ps[|ps| - 1].size == |file|
  }

  function Run(ps: seq<Poll>, file: string): Tail
    requires forall i :: 0 <= i < |ps| ==> ps[i].size <= ps[i].visible <= |file|
  {
    if ps == [] then Tail(-1, [])
    else
      var p := ps[|ps| - 1];
      Step(Run(ps[..|ps| - 1], file), p.size, file, p.visible)
  }

  /** Every complete line from a position on is shorter than the bound, unless nothing of it is emitted
      anyway. */
  predicate ShortLines(s: string, from: nat)
    requires from <= |s|
    decreases |s| - from
  {
    var i := NewlineFrom(s, from, |s|);
    i == |s| || ((i - from < MAX_PARTIAL_LINE || Blank(s, from, i)) && ShortLines(s, i + 1))
  }

  lemma {:induction false} ShortAfterLines(s: string, a: nat, b: nat)
    requires a <= b <= |s| && EndsLine(s, a, b) && ShortLines(s, a)
    ensures ShortLines(s, b)
    decreases |s| - a
  {
    if a < b {
      NewlineAtOrBefore(s, a, |s|, b - 1);
      ShortAfterLines(s, NewlineFrom(s, a, |s|) + 1, b);
    }
  }

  /** Dropping the start of a line that is long, and so emits nothing, changes nothing. */
  lemma DropRunaway(s: string, a: nat, b: nat)
    requires a <= b <= |s| && b - a >= MAX_PARTIAL_LINE && ShortLines(s, a) && NoNewline(s, a, b)
    ensures Emitted(s, b, |s|) == Emitted(s, a, |s|) && ShortLines(s, b)
  {
    var i := NewlineFrom(s, b, |s|);
    NoNewlineSplit(s, a, b, i);
    NewlineFromIs(s, a, |s|, i);
    if i < |s| {
      BlankSplit(s, a, b, i);
      TrimmedAway(s, a, i);
      TrimmedAway(s, b, i);
    }
  }

  /** Reading s[a..visible] keeps the promise: what is emitted and what stays unread make up what was
      unread. */
  lemma ReadKeeps(s: string, a: nat, visible: nat)
    requires a <= visible <= |s| && ShortLines(s, a)
    ensures var m := ConsumedTo(s, a, visible);
            && ShortLines(s, m) && Emitted(s, a, m) + Emitted(s, m, |s|) == Emitted(s, a, |s|)
            && (visible == |s| ==> Emitted(s, m, |s|) == [])
  {
    var e, m := LineEnd(s, a, visible), ConsumedTo(s, a, visible);
    AfterLineEnd(s, a, visible);
    if m == e {
      EmittedSplit(s, a, m, |s|);
      ShortAfterLines(s, a, m);
    } else {
      DropRunaway(s, a, m);
      NothingEmitted(s, a, m);
    }
    if visible == |s| { NothingEmitted(s, m, |s|); }
  }

  lemma StepAdvances(t: Tail, p: Poll, file: string)
    requires 0 <= t.offset <= p.size <= p.visible <= |file|
    ensures t.offset <= Step(t, p.size, file, p.visible).offset <= p.visible
  {
  }

  /** Whatever the lines are, no poll of an append-only file moves the offset back: no byte below it is
      read again. */
  lemma {:induction false} OffsetsAdvance(ps: seq<Poll>, file: string)
    requires ps != [] && Schedule(ps, file)
    ensures ps[0].size <= Run(ps, file).offset <= ps[|ps| - 1].visible
    ensures |ps| > 1 ==> Run(ps[..|ps| - 1], file).offset <= Run(ps, file).offset
    decreases |ps|
  {
    var front, p := ps[..|ps| - 1], ps[|ps| - 1];
    if front == [] {
      assert Run([], file) == Tail(-1, []);
    } else {
      assert front[0] == ps[0] && forall i :: 0 <= i < |front| ==> front[i] == ps[i];
      OffsetsAdvance(front, file);
      StepAdvances(Run(front, file), p, file);
    }
  }

  /** One poll keeps the promise. */
  lemma StepKeeps(t: Tail, p: Poll, file: string)
    requires 0 <= t.offset <= p.size <= p.visible <= |file| && ShortLines(file, t.offset)
    ensures var t' := Step(t, p.size, file, p.visible);
            && t.offset <= t'.offset <= p.visible && ShortLines(file, t'.offset)
            && t'.lines + Emitted(file, t'.offset, |file|) == t.lines + Emitted(file, t.offset, |file|)
            && (p.size == |file| ==> Emitted(file, t'.offset, |file|) == [])
  {
    if p.size > t.offset {
      var m := ConsumedTo(file, t.offset, p.visible);
      ReadKeeps(file, t.offset, p.visible);
      Regroup(t.lines, Emitted(file, t.offset, m), Emitted(file, m, |file|));
    }
  }

  lemma {:induction false} RunKeeps(ps: seq<Poll>, file: string)
    requires ps != [] && Schedule(ps, file) && ShortLines(file, ps[0].size)
    ensures var t, start := Run(ps, file), ps[0].size;
            && start <= t.offset <= ps[|ps| - 1].visible && ShortLines(file, t.offset)
            && t.lines + Emitted(file, t.offset, |file|) == Emitted(file, start, |file|)
            && (|ps| > 1 && ps[|ps| - 1].size == |file| ==> Emitted(file, t.offset, |file|) == [])
    decreases |ps|
  {
    var front, p := ps[..|ps| - 1], ps[|ps| - 1];
    if front == [] {
      assert Run([], file) == Tail(-1, []);
    } else {
      assert front[0] == ps[0] && forall i :: 0 <= i < |front| ==> front[i] == ps[i];
      RunKeeps(front, file);
      StepKeeps(Run(front, file), p, file);
    }
  }

  /** The polls of a file from any state on. */
  function RunFrom(t: Tail, ps: seq<Poll>, file: string): Tail
    requires forall i :: 0 <= i < |ps| ==> ps[i].size <= ps[i].visible <= |file|
  {
    if ps == [] then t
    else
      var p := ps[|ps| - 1];
      Step(RunFrom(t, ps[..|ps| - 1], file), p.size, file, p.visible)
  }

  /** After a rotation or truncation, told from a size below the offset, the polls of the new file read it
      from its beginning: they emit all its complete lines, in order, after what was emitted before. */
  lemma {:induction false} RotationRestarts(t: Tail, ps: seq<Poll>, file: string)
    requires ps != [] && Schedule(ps, file) && ps[0].size < t.offset && ShortLines(file, 0)
    ensures var r := RunFrom(t, ps, file);
            && 0 <= r.offset <= ps[|ps| - 1].visible && ShortLines(file, r.offset)
            && r.lines + Emitted(file, r.offset, |file|) == t.lines + Emitted(file, 0, |file|)
            && (ps[|ps| - 1].size == |file| ==> Emitted(file, r.offset, |file|) == [])
    decreases |ps|
  {
    var front, p := ps[..|ps| - 1], ps[|ps| - 1];
    if front == [] {
      assert RunFrom(t, front, file) == t;
      StepKeeps(Tail(0, t.lines), p, file);
      if p.size == 0 && |file| == 0 { NothingEmitted(file, 0, 0); }
    } else {
      assert front[0] == ps[0] && forall i :: 0 <= i < |front| ==> front[i] == ps[i];
      RotationRestarts(t, front, file);
      StepKeeps(RunFrom(t, front, file), p, file);
    }
  }

  /** The first line from a position on that is long and not blank. */
  lemma {:induction false} FirstLongLine(s: string, from: nat) returns (p: nat, i: nat)
    requires from <= |s| && !ShortLines(s, from)
    ensures from <= p && p + MAX_PARTIAL_LINE <= i < |s| && EndsLine(s, from, p)
    ensures NewlineFrom(s, p, |s|) == i && !Blank(s, p, i)
    decreases |s| - from
  {
    p, i := from, NewlineFrom(s, from, |s|);
    if i - p < MAX_PARTIAL_LINE || Blank(s, p, i) {
      p, i := FirstLongLine(s, i + 1);
    }
  }

  lemma AtNewline(s: string, i: nat)
    requires i < |s| && s[i] == '\n'
    ensures Emitted(s, i, |s|) == Emitted(s, i + 1, |s|)
  {
    FirstLine(s, i, |s|, i);
    assert Line(s, i, i) == [] && [] + Emitted(s, i + 1, |s|) == Emitted(s, i + 1, |s|);
  }

  /** What dropping a line up to its newline loses: the line itself, and nothing else. */
  lemma LineLost(s: string, from: nat, p: nat, i: nat)
    requires from <= p <= i < |s| && EndsLine(s, from, p)
    requires NoNewline(s, p, i) && s[i] == '\n' && !Blank(s, p, i)
    ensures Emitted(s, from, |s|) == Emitted(s, from, p) + [s[p..TrimCR(s, p, i)]] + Emitted(s, i, |s|)
  {
    var line, rest := [s[p..TrimCR(s, p, i)]], Emitted(s, i, |s|);
    assert Emitted(s, p, |s|) == line + rest by {
      FirstLine(s, p, |s|, i);
      AtNewline(s, i);
      TrimmedAway(s, p, i);
    }
    EmittedSplit(s, from, p, |s|);
    Regroup(Emitted(s, from, p), line, rest);
  }

  /** A poll that sees whole lines only reads all of them. */
  lemma PollLines(t: Tail, p: nat, file: string)
    requires 0 <= t.offset <= p <= |file| && EndsLine(file, t.offset, p)
    ensures Step(t, p, file, p) == Tail(p, t.lines + Emitted(file, t.offset, p))
  {
  }

  lemma PollRunaway(t: Tail, i: nat, file: string)
    requires 0 <= t.offset && t.offset + MAX_PARTIAL_LINE <= i <= |file| && NoNewline(file, t.offset, i)
    ensures Step(t, i, file, i) == Tail(i, t.lines)
  {
    var e := LineEnd(file, t.offset, i);
    NoNewlineSplit(file, t.offset, e, i);
    if e > t.offset { NoNewlineSplit(file, t.offset, e - 1, e); }
    NothingEmitted(file, t.offset, i);
  }

  /** The last poll of a file emits all complete lines left, when there is one. */
  lemma PollRest(t: Tail, file: string)
    requires 0 <= t.offset < |file| && file[t.offset] == '\n'
    ensures Step(t, |file|, file, |file|).lines == t.lines + Emitted(file, t.offset, |file|)
  {
    var e := LineEnd(file, t.offset, |file|);
    AfterLineEnd(file, t.offset, |file|);
    EmittedSplit(file, t.offset, e, |file|);
    NothingEmitted(file, e, |file|);
  }

  lemma RunAppend(ps: seq<Poll>, p: Poll, file: string)
    requires forall i :: 0 <= i < |ps| ==> ps[i].size <= ps[i].visible <= |file|
    requires p.size <= p.visible <= |file|
    ensures Run(ps + [p], file) == Step(Run(ps, file), p.size, file, p.visible)
  {
    assert (ps + [p])[..|ps|] == ps;
  }

  /** A first poll at `start`, a second that sees whole lines, a third that falls inside a long line. */
  lemma PollsUpToRunaway(file: string, start: nat, p: nat, i: nat)
    requires start <= p && p + MAX_PARTIAL_LINE <= i <= |file|
    requires EndsLine(file, start, p) && NoNewline(file, p, i)
    ensures Run([Poll(start, start), Poll(p, p), Poll(i, i)], file) == Tail(i, Emitted(file, start, p))
  {
    var two := [Poll(start, start), Poll(p, p)];
    PollsUpToLines(file, start, p);
    PollRunaway(Tail(p, Emitted(file, start, p)), i, file);
    RunAppend(two, Poll(i, i), file);
    assert two + [Poll(i, i)] == [Poll(start, start), Poll(p, p), Poll(i, i)];
  }

  lemma PollsUpToLines(file: string, start: nat, p: nat)
    requires start <= p <= |file| && EndsLine(file, start, p)
    ensures Run([Poll(start, start), Poll(p, p)], file) == Tail(p, Emitted(file, start, p))
  {
    RunAppend([], Poll(start, start), file);
    NothingBefore([Poll(start, start)]);
    RunAppend([Poll(start, start)], Poll(p, p), file);
    PollLines(Tail(start, []), p, file);
    NothingBefore(Emitted(file, start, p));
  }

  lemma FourPolls(file: string, start: nat, p: nat, i: nat, ps: seq<Poll>)
    requires start <= p <= i <= |file|
    requires ps == [Poll(start, start), Poll(p, p), Poll(i, i)] + [Poll(|file|, |file|)]
    ensures FullSchedule(ps, file, start)
  {
  }

  lemma PollsToTheEnd(file: string, start: nat, p: nat, i: nat, front: seq<Poll>)
    requires start <= p && p + MAX_PARTIAL_LINE <= i < |file| && file[i] == '\n'
    requires EndsLine(file, start, p) && NoNewline(file, p, i)
    requires front == [Poll(start, start), Poll(p, p), Poll(i, i)]
    ensures FullSchedule(front + [Poll(|file|, |file|)], file, start)
    ensures Run(front + [Poll(|file|, |file|)], file).lines == Emitted(file, start, p) + Emitted(file, i, |file|)
  {
    FourPolls(file, start, p, i, front + [Poll(|file|, |file|)]);
    PollsUpToRunaway(file, start, p, i);
    RunAppend(front, Poll(|file|, |file|), file);
    PollRest(Tail(i, Emitted(file, start, p)), file);
  }

  lemma WithoutOne<T>(a: seq<T>, x: T, b: seq<T>)
    ensures var whole := a + [x] + b; whole[|a|] == x && whole[..|a|] + whole[|a| + 1..] == a + b && whole != a + b
  {
  }

  /** A schedule that loses a long line: one poll falls just before its newline, and what is emitted is
      all of the complete lines except that one. */
  lemma LongLineIsLost(file: string, start: nat) returns (ps: seq<Poll>, p: nat, i: nat, k: nat)
    requires start <= |file| && !ShortLines(file, start)
    ensures FullSchedule(ps, file, start)
    ensures start <= p && p + MAX_PARTIAL_LINE <= i < |file| && NoNewline(file, p, i) && file[i] == '\n'
    ensures var all := Emitted(file, start, |file|);
            && k < |all| && all[k] == file[p..TrimCR(file, p, i)]
            && Run(ps, file).lines == all[..k] + all[k + 1..] != all
  {
    p, i := FirstLongLine(file, start);
    var front := [Poll(start, start), Poll(p, p), Poll(i, i)];
    ps := front + [Poll(|file|, |file|)];
    PollsToTheEnd(file, start, p, i, front);
    LineLost(file, start, p, i);
    k := |Emitted(file, start, p)|;
    WithoutOne(Emitted(file, start, p), file[p..TrimCR(file, p, i)], Emitted(file, i, |file|));
  }

  /** Tailing an append-only file does not depend on when it is polled if and only if every complete
      line after the start is shorter than the bound (or blank): every schedule then emits exactly the
      complete non-empty lines, each once and in order. */
  lemma PollScheduleIndependence(file: string, start: nat)
    requires start <= |file|
    ensures (forall ps :: FullSchedule(ps, file, start) ==> Run(ps, file).lines == Emitted(file, start, |file|))
            <==> ShortLines(file, start)
  {
    if ShortLines(file, start) {
      forall ps | FullSchedule(ps, file, start) ensures Run(ps, file).lines == Emitted(file, start, |file|) {
        RunKeeps(ps, file);
      }
    } else {
      var ps, p, i, k := LongLineIsLost(file, start);
    }
  }
}
