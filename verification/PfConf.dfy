/** Patching pf.conf: the agent adds two lines that hook its anchor into the operator's ruleset, and takes
    them out again. The code works on text; here the text's meaning is given on lists of lines. */
module PfConf {

  const ANCHOR_LINE := "anchor \"obliguard\""
  const ANCHOR_LINE_BARE := "anchor obliguard"
  const LOAD_PREFIX := "load anchor \"obliguard\" from "
  const LOAD_PREFIX_BARE := "load anchor obliguard from "
  const MARKER_START := "# Obliguard IPS: ban anchor "
  const MARKER_END := "removed on uninstall)"
  const MARKER_MIDDLE := "(managed by obliguard-agent, "
  const MARKER := MARKER_START + MARKER_MIDDLE + MARKER_END
  const LEGACY_START := "# Obliguard IPS \U{2014} "
  const LEGACY_COMMENT := LEGACY_START + "managed automatically, do not edit"
  const LEGACY_TABLE := "table <obliguard_blocklist> persist"
  const LEGACY_IN := "block in quick from <obliguard_blocklist>"
  const LEGACY_OUT := "block out quick to <obliguard_blocklist>"

  // ----- Text and lines -----

  /** unicode.IsSpace. */
  predicate IsSpace(c: char) {
    || '\t' <= c <= '\r' || c == ' ' || c == '\U{85}' || c == '\U{A0}' || c == '\U{1680}'
    || '\U{2000}' <= c <= '\U{200A}' || c == '\U{2028}' || c == '\U{2029}' || c == '\U{202F}'
    || c == '\U{205F}' || c == '\U{3000}'
  }

  function TrimEnd(s: string): string {
    if s == "" || !IsSpace(s[|s| - 1]) then s else TrimEnd(s[..|s| - 1])
  }

  function TrimStart(s: string): string {
    if s == "" || !IsSpace(s[0]) then s else TrimStart(s[1..])
  }

  /** strings.TrimSpace. */
  function TrimSpace(s: string): string {
    TrimStart(TrimEnd(s))
  }

  /** strings.TrimRight(s, "\n \t"). */
  function TrimRight(s: string): (t: string)
    ensures t == "" || t[|t| - 1] !in "\n \t"
    ensures |t| <= |s| && t == s[..|t|]
  {
    if s == "" || s[|s| - 1] !in "\n \t" then s else TrimRight(s[..|s| - 1])
  }

  function DropCR(s: string): (t: string)
    ensures '\r' !in t
    ensures '\r' !in s ==> t == s
  {
    if s == "" then "" else (if s[0] == '\r' then "" else [s[0]]) + DropCR(s[1..])
  }

  /** strings.Split(s, "\n"). */
  function Split(s: string): (ls: seq<string>)
    ensures ls != []
  {
    if s == "" then [""]
    else
      var rest := Split(s[1..]);
      if s[0] == '\n' then [""] + rest else [[s[0]] + rest[0]] + rest[1..]
  }

  /** strings.Join(ls, "\n"). */
  function Join(ls: seq<string>): string {
    if ls == [] then "" else if |ls| == 1 then ls[0] else ls[0] + "\n" + Join(ls[1..])
  }

  /** A line can stand in a list of lines when it holds no line end. */
  predicate IsLine(l: string) { '\n' !in l && '\r' !in l }

  predicate AreLines(ls: seq<string>) { forall l :: l in ls ==> IsLine(l) }

  lemma {:induction false} JoinSplit(s: string)
    ensures Join(Split(s)) == s
  {
    if s != "" {
      JoinSplit(s[1..]);
      var rest := Split(s[1..]);
      if s[0] == '\n' {
        assert Split(s)[1..] == rest;
      } else {
        assert Split(s)[1..] == rest[1..];
        if |rest| > 1 {
      assert [s[0]] + (rest[0] + "\n" + Join(rest[1..])) == ([s[0]] + rest[0]) + "\n" + Join(rest[1..]);
    }
      }
      assert [s[0]] + s[1..] == s;
    }
  }

  lemma {:induction false} SplitLine(l: string)
    requires '\n' !in l
    ensures Split(l) == [l]
  {
    if l != "" {
      assert forall c :: c in l[1..] ==> c in l;
      SplitLine(l[1..]);
      assert [l[0]] + l[1..] == l;
    }
  }

  /** Splitting what starts with one whole line. */
  lemma {:induction false} SplitFirst(l: string, s: string)
    requires '\n' !in l
    ensures Split(l + "\n" + s) == [l] + Split(s)
  {
    var t := l + "\n" + s;
    if l == "" {
      assert t[1..] == s;
    } else {
      assert forall c :: c in l[1..] ==> c in l;
      SplitFirst(l[1..], s);
      assert t[1..] == l[1..] + "\n" + s;
      assert [l[0]] + l[1..] == l;
    }
  }

  lemma {:induction false} SplitJoin(ls: seq<string>)
    requires ls != [] && AreLines(ls)
    ensures Split(Join(ls)) == ls
  {
    assert IsLine(ls[0]);
    if |ls| == 1 {
      SplitLine(ls[0]);
    } else {
      SplitJoin(ls[1..]);
      SplitFirst(ls[0], Join(ls[1..]));
    }
  }

  lemma {:induction false} SplitGivesLines(s: string)
    requires '\r' !in s
    ensures AreLines(Split(s))
  {
    if s != "" {
      assert forall c :: c in s[1..] ==> c in s;
      SplitGivesLines(s[1..]);
      var rest := Split(s[1..]);
      assert IsLine(rest[0]);
      assert s[0] in s;
    }
  }

  lemma {:induction false} JoinAppend(a: seq<string>, b: seq<string>)
    requires a != [] && b != []
    ensures Join(a + b) == Join(a) + "\n" + Join(b)
  {
    assert (a + b)[1..] == a[1..] + b;
    if |a| == 1 {
      assert a[1..] + b == b;
    } else {
      JoinAppend(a[1..], b);
      assert a[0] + "\n" + (Join(a[1..]) + "\n" + Join(b)) == (a[0] + "\n" + Join(a[1..])) + "\n" + Join(b);
    }
  }

  lemma {:induction false} JoinHasNoCR(ls: seq<string>)
    requires AreLines(ls)
    ensures '\r' !in Join(ls)
  {
    assert ls != [] ==> IsLine(ls[0]);
    if |ls| > 1 { JoinHasNoCR(ls[1..]); }
  }

  /** pfConfLines. */
  function Lines(conf: string): (ls: seq<string>) {
    if DropCR(conf) == "" then [] else Split(DropCR(conf))
  }

  lemma LinesAreLines(conf: string)
    ensures AreLines(Lines(conf))
  {
    SplitGivesLines(DropCR(conf));
  }

  /** The text of a list of lines, each with its line end. */
  function Text(ls: seq<string>): string {
    if ls == [] then "" else Join(ls + [""])
  }

  /** What Lines gives for such a text: the lines, and the empty piece after the last line end. */
  function Ended(ls: seq<string>): seq<string> {
    if ls == [] then [] else ls + [""]
  }

  lemma LinesOfText(ls: seq<string>)
    requires AreLines(ls)
    ensures Lines(Text(ls)) == Ended(ls) && DropCR(Text(ls)) == Text(ls)
  {
    if ls != [] {
      JoinHasNoCR(ls + [""]);
      JoinAppend(ls, [""]);
      SplitJoin(ls + [""]);
    }
  }

  // ----- Trailing blanks -----

  lemma {:induction false} TrimRightAppend(a: string, b: string)
    ensures TrimRight(a + b) == if TrimRight(b) == "" then TrimRight(a) else a + TrimRight(b)
  {
    if b == "" {
      assert a + b == a;
    } else {
      assert (a + b)[|a + b| - 1] == b[|b| - 1];
      if b[|b| - 1] in "\n \t" {
        TrimRightAppend(a, b[..|b| - 1]);
        assert (a + b)[..|a + b| - 1] == a + b[..|b| - 1];
      }
    }
  }

  /** Blank lines at the end, and blanks at the end of the last other line, taken away. */
  function Tidy(ls: seq<string>): (r: seq<string>)
    ensures r == [] || (TrimRight(r[|r| - 1]) == r[|r| - 1] && r[|r| - 1] != "")
  {
    if ls == [] then []
    else
      var n := |ls| - 1;
      if TrimRight(ls[n]) == "" then Tidy(ls[..n])
      else TrimRightTwice(ls[n]); ls[..n] + [TrimRight(ls[n])]
  }

  lemma TrimRightTwice(s: string)
    ensures TrimRight(TrimRight(s)) == TrimRight(s)
  {
  }

  lemma {:induction false} JoinIsBlank(ls: seq<string>)
    ensures Tidy(ls) == [] ==> TrimRight(Join(ls)) == ""
    ensures Tidy(ls) != [] ==> TrimRight(Join(ls)) == Join(Tidy(ls)) && Join(Tidy(ls)) != ""
    decreases |ls|
  {
    if ls != [] {
      var n := |ls| - 1;
      var front, last := ls[..n], ls[n];
      assert ls == front + [last];
      JoinIsBlank(front);
      if front == [] {
        assert ls == [last];
        if TrimRight(last) != "" { assert Tidy(ls) == [TrimRight(last)]; }
      } else {
        JoinAppend(front, [last]);
        TrimRightAppend(Join(front) + "\n", last);
        if TrimRight(last) == "" {
          TrimRightAppend(Join(front), "\n");
          assert "\n"[..0] == "";
        } else {
          JoinAppend(front, [TrimRight(last)]);
        }
      }
    }
  }

  /** pfConfJoin, on lines: it is the text of the tidied lines. */
  function ConfJoin(ls: seq<string>): string {
    var s := TrimRight(Join(ls));
    if s == "" then "" else s + "\n"
  }

  lemma ConfJoinIsText(ls: seq<string>)
    ensures ConfJoin(ls) == Text(Tidy(ls))
  {
    JoinIsBlank(ls);
    if Tidy(ls) != [] { JoinAppend(Tidy(ls), [""]); }
  }

  lemma TidyKeepsLines(ls: seq<string>)
    requires AreLines(ls)
    ensures AreLines(Tidy(ls))
    decreases |ls|
  {
    if ls != [] {
      var n := |ls| - 1;
      assert AreLines(ls[..n]);
      TidyKeepsLines(ls[..n]);
      assert IsLine(ls[n]) && IsLine(TrimRight(ls[n]));
    }
  }

  lemma TidyEnded(ls: seq<string>)
    ensures Tidy(ls + [""]) == Tidy(ls)
    ensures Tidy(ls) == ls ==> Tidy(Ended(ls)) == ls
  {
    assert (ls + [""])[..|ls|] == ls;
  }

  // ----- The agent's own lines -----

  predicate IsLegacyLine(l: string) {
    TrimSpace(l) in {LEGACY_COMMENT, LEGACY_TABLE, LEGACY_IN, LEGACY_OUT}
  }

  predicate IsAnchorLine(l: string) {
    TrimSpace(l) == ANCHOR_LINE || TrimSpace(l) == ANCHOR_LINE_BARE
  }

  predicate IsLoadLine(l: string) {
    LOAD_PREFIX <= TrimSpace(l) || LOAD_PREFIX_BARE <= TrimSpace(l)
  }

  predicate IsOurs(l: string) {
    TrimSpace(l) == MARKER || IsLegacyLine(l) || IsAnchorLine(l) || IsLoadLine(l)
  }

  /** strings.TrimSpace takes away space on both sides, and all of it. */
  lemma TrimSpaceIs(l: string) returns (left: string, right: string)
    ensures l == left + TrimSpace(l) + right
    ensures forall c :: c in left || c in right ==> IsSpace(c)
    ensures var t := TrimSpace(l); t != "" ==> !IsSpace(t[0]) && !IsSpace(t[|t| - 1])
  {
    right := TrimEndIs(l);
    left := TrimStartIs(TrimEnd(l));
  }

  lemma {:induction false} TrimEndIs(l: string) returns (right: string)
    ensures l == TrimEnd(l) + right && forall c :: c in right ==> IsSpace(c)
    ensures var t := TrimEnd(l); t != "" ==> !IsSpace(t[|t| - 1])
  {
    right := "";
    if l != "" && IsSpace(l[|l| - 1]) {
      var r := TrimEndIs(l[..|l| - 1]);
      right := r + [l[|l| - 1]];
      RestThenLast(l, TrimEnd(l[..|l| - 1]), r);
    }
  }

  lemma {:induction false} TrimStartIs(l: string) returns (left: string)
    ensures l == left + TrimStart(l) && forall c :: c in left ==> IsSpace(c)
    ensures var t := TrimStart(l); t != "" ==> !IsSpace(t[0]) && t[|t| - 1] == l[|l| - 1]
  {
    left := "";
    if l != "" && IsSpace(l[0]) {
      var r := TrimStartIs(l[1..]);
      left := [l[0]] + r;
      FirstThenRest(l, r, TrimStart(l[1..]));
    }
  }

  lemma FirstThenRest(l: string, a: string, b: string)
    requires l != "" && l[1..] == a + b
    ensures l == [l[0]] + a + b
  {
    assert l == [l[0]] + l[1..];
  }

  lemma RestThenLast(l: string, a: string, b: string)
    requires l != "" && l[..|l| - 1] == a + b
    ensures l == a + (b + [l[|l| - 1]])
  {
    assert l == l[..|l| - 1] + [l[|l| - 1]];
  }

  /** The lines that are the agent's, and those of an older agent, by their text without the space around
      it. */
  lemma AgentLines(l: string)
    ensures var t, old_ := TrimSpace(l), "# Obliguard IPS \U{2014} " + "managed automatically, do not edit";
            && (IsLegacyLine(l) <==>
                  || t == old_ || t == "table <obliguard_blocklist> persist"
                  || t == "block in quick from <obliguard_blocklist>"
                  || t == "block out quick to <obliguard_blocklist>")
            && (IsAnchorLine(l) <==> t == "anchor \"obliguard\"" || t == "anchor obliguard")
            && (IsLoadLine(l) <==> "load anchor \"obliguard\" from " <= t || "load anchor obliguard from " <= t)
    ensures var marker := "# Obliguard IPS: ban anchor " + "(managed by obliguard-agent, " + "removed on uninstall)";
            IsOurs(l) <==> IsLegacyLine(l) || IsAnchorLine(l) || IsLoadLine(l) || TrimSpace(l) == marker
  {
  }

  /** The lines without those that `drop` names, in order. */
  function Without(ls: seq<string>, drop: string -> bool): seq<string> {
    if ls == [] then []
    else Without(ls[..|ls| - 1], drop) + if drop(ls[|ls| - 1]) then [] else [ls[|ls| - 1]]
  }

  function Kept(ls: seq<string>): seq<string> { Without(ls, IsLegacyLine) }

  /** The operator's lines. */
  function Foreign(ls: seq<string>): seq<string> { Without(ls, IsOurs) }

  predicate HasAnchor(ls: seq<string>) { exists l :: l in ls && IsAnchorLine(l) }

  predicate HasLoad(ls: seq<string>) { exists l :: l in ls && IsLoadLine(l) }

  predicate HasLegacy(ls: seq<string>) { exists l :: l in ls && IsLegacyLine(l) }

  predicate HasOurs(ls: seq<string>) { exists l :: l in ls && IsOurs(l) }

  function LoadLine(anchorFile: string): string { LOAD_PREFIX + "\"" + anchorFile + "\"" }

  function Adds(marker: string, anchor: string, load: string, hasAnchor: bool, hasLoad: bool): seq<string> {
    if hasAnchor && hasLoad then []
    else [marker] + (if hasAnchor then [] else [anchor]) + if hasLoad then [] else [load]
  }

  /** What is appended to a file whose kept lines are `ls`. */
  function Added(ls: seq<string>, anchorFile: string): seq<string> {
    Adds(MARKER, ANCHOR_LINE, LoadLine(anchorFile), HasAnchor(ls), HasLoad(ls))
  }

  /** The lines of the patched file: the kept ones, tidied, and after a blank line the added ones. */
  function Patched(kept: seq<string>, anchorFile: string): seq<string> {
    var add, own := Added(kept, anchorFile), Tidy(kept);
    own + (if own == [] || add == [] then [] else [""]) + add
  }

  lemma {:induction false} WithoutAppend(a: seq<string>, b: seq<string>, drop: string -> bool)
    ensures Without(a + b, drop) == Without(a, drop) + Without(b, drop)
    decreases |b|
  {
    if b == [] {
      assert a + b == a;
    } else {
      var n := |b| - 1;
      WithoutAppend(a, b[..n], drop);
      assert (a + b)[..|a + b| - 1] == a + b[..n];
    }
  }

  lemma {:induction false} WithoutIs(ls: seq<string>, drop: string -> bool)
    ensures forall l :: l in Without(ls, drop) <==> l in ls && !drop(l)
    ensures (forall l :: l in ls ==> !drop(l)) <==> Without(ls, drop) == ls
    ensures |Without(ls, drop)| <= |ls|
    decreases |ls|
  {
    if ls != [] {
      var n := |ls| - 1;
      WithoutIs(ls[..n], drop);
      assert ls == ls[..n] + [ls[n]];
      if !drop(ls[n]) && Without(ls, drop) == ls {
        assert Without(ls, drop)[..n] == Without(ls[..n], drop);
      }
    }
  }

  /** Dropping more is dropping in two steps. */
  lemma {:induction false} ForeignOfKept(ls: seq<string>)
    ensures Foreign(Kept(ls)) == Foreign(ls)
    decreases |ls|
  {
    if ls != [] {
      var front, last := ls[..|ls| - 1], ls[|ls| - 1];
      ForeignOfKept(front);
      if IsLegacyLine(last) {
        assert Kept(ls) == Kept(front);
      } else {
        assert Kept(ls)[..|Kept(ls)| - 1] == Kept(front);
      }
    }
  }

  lemma {:induction false} TrimEndSeesThrough(l: string)
    ensures TrimEnd(TrimRight(l)) == TrimEnd(l)
  {
    if l != "" && l[|l| - 1] in "\n \t" { TrimEndSeesThrough(l[..|l| - 1]); }
  }

  /** Blanks at its end change nothing in what a line is. */
  lemma TrimmedLineIsTheSame(l: string)
    ensures IsLegacyLine(TrimRight(l)) == IsLegacyLine(l) && IsAnchorLine(TrimRight(l)) == IsAnchorLine(l)
    ensures IsLoadLine(TrimRight(l)) == IsLoadLine(l) && IsOurs(TrimRight(l)) == IsOurs(l)
    ensures TrimRight(l) == "" ==> !IsOurs(l)
  {
    TrimEndSeesThrough(l);
  }

  /** So tidying adds and hides no kind of line. */
  lemma {:induction false} TidyIsTheSame(ls: seq<string>)
    ensures HasAnchor(Tidy(ls)) == HasAnchor(ls) && HasLoad(Tidy(ls)) == HasLoad(ls)
    ensures HasLegacy(Tidy(ls)) == HasLegacy(ls) && HasOurs(Tidy(ls)) == HasOurs(ls)
    decreases |ls|
  {
    if ls != [] {
      var front, last := ls[..|ls| - 1], ls[|ls| - 1];
      assert ls == front + [last];
      TrimmedLineIsTheSame(last);
      if TrimRight(last) == "" { TidyIsTheSame(front); }
    }
  }

  lemma {:induction false} TidyForeign(ls: seq<string>)
    ensures Tidy(Foreign(Tidy(ls))) == Tidy(Foreign(ls))
    decreases |ls|
  {
    if ls != [] {
      var front, last := ls[..|ls| - 1], ls[|ls| - 1];
      TrimmedLineIsTheSame(last);
      var f := Foreign(front);
      if TrimRight(last) == "" {
        TidyForeign(front);
        assert (f + [last])[..|f|] == f;
      } else {
        var t := TrimRight(last);
        assert (front + [t])[..|front|] == front;
        assert (f + [t])[..|f|] == f && (f + [last])[..|f|] == f;
      }
    }
  }

  /** A line that neither starts nor ends with a blank. */
  predicate Solid(l: string) { l != "" && !IsSpace(l[0]) && !IsSpace(l[|l| - 1]) }

  lemma SolidIsTrimmed(l: string)
    requires Solid(l)
    ensures TrimSpace(l) == l && TrimRight(l) == l
  {
  }

  /** The legacy lines start with a '#', a 't' or a 'b', and the one with the '#' goes on differently. */
  lemma NotLegacy(l: string)
    requires Solid(l) && |l| > 15 && (l[0] == 'a' || l[0] == 'l' || (l[0] == '#' && l[15] == ':'))
    ensures !IsLegacyLine(l)
  {
    SolidIsTrimmed(l);
    assert LEGACY_START[15] == ' ' && LEGACY_COMMENT[15] == ' ';
    assert LEGACY_TABLE[0] == 't' && LEGACY_IN[0] == 'b' && LEGACY_OUT[0] == 'b';
  }

  lemma Parts(a: string, b: string, c: string)
    requires |a| > 15 && c != "" && !IsSpace(a[0]) && !IsSpace(c[|c| - 1]) && AreLines([a, b, c])
    ensures var l := a + b + c; Solid(l) && |l| > 15 && l[0] == a[0] && l[15] == a[15] && IsLine(l)
  {
    assert IsLine(a) && IsLine(b) && IsLine(c);
  }

  lemma MarkerStart()
    ensures |MARKER_START| > 15 && MARKER_START[0] == '#' && MARKER_START[15] == ':' && IsLine(MARKER_START)
  {
  }

  lemma MarkerMiddle()
    ensures IsLine(MARKER_MIDDLE)
  {
  }

  lemma MarkerEnd()
    ensures MARKER_END != "" && MARKER_END[|MARKER_END| - 1] == ')' && IsLine(MARKER_END)
  {
  }

  lemma MarkerLine()
    ensures Solid(MARKER) && |MARKER| > 15 && MARKER[0] == '#' && MARKER[15] == ':' && IsLine(MARKER)
  {
    MarkerStart();
    MarkerMiddle();
    MarkerEnd();
    Parts(MARKER_START, MARKER_MIDDLE, MARKER_END);
  }

  lemma AnchorLine()
    ensures Solid(ANCHOR_LINE) && |ANCHOR_LINE| > 15 && ANCHOR_LINE[0] == 'a' && IsLine(ANCHOR_LINE)
  {
  }

  lemma LoadLineIs(anchorFile: string)
    requires IsLine(anchorFile)
    ensures var l := LoadLine(anchorFile);
            Solid(l) && |l| > 15 && l[0] == 'l' && IsLine(l) && LOAD_PREFIX <= l
  {
    assert IsLine(LOAD_PREFIX);
  }

  predicate IsOwnLine(l: string) { IsLine(l) && Solid(l) && IsOurs(l) && !IsLegacyLine(l) }

  lemma OwnLines(anchorFile: string)
    requires IsLine(anchorFile)
    ensures IsOwnLine(MARKER)
    ensures IsOwnLine(ANCHOR_LINE) && IsAnchorLine(ANCHOR_LINE)
    ensures IsOwnLine(LoadLine(anchorFile)) && IsLoadLine(LoadLine(anchorFile))
  {
    MarkerLine();
    AnchorLine();
    LoadLineIs(anchorFile);
    forall l | l in [MARKER, ANCHOR_LINE, LoadLine(anchorFile)] ensures TrimSpace(l) == l && !IsLegacyLine(l) {
      SolidIsTrimmed(l);
      NotLegacy(l);
    }
  }

  predicate AreOwnLines(ls: seq<string>) { forall l :: l in ls ==> IsOwnLine(l) }

  lemma AddsLines(marker: string, anchor: string, load: string, hasAnchor: bool, hasLoad: bool)
    requires AreOwnLines([marker, anchor, load]) && IsAnchorLine(anchor) && IsLoadLine(load)
    ensures var add := Adds(marker, anchor, load, hasAnchor, hasLoad);
            AreOwnLines(add) && (hasAnchor || HasAnchor(add)) && (hasLoad || HasLoad(add))
  {
    var add := Adds(marker, anchor, load, hasAnchor, hasLoad);
    assert AreOwnLines(add) by { assert forall l :: l in add ==> l in [marker, anchor, load]; }
    if !hasAnchor { assert anchor in add; }
    if !hasLoad { assert load in add; }
  }

  /** The added lines complete the kept ones, and are the agent's. */
  lemma AddedLines(ls: seq<string>, anchorFile: string)
    requires IsLine(anchorFile)
    ensures var add := Added(ls, anchorFile);
            AreOwnLines(add) && (HasAnchor(ls) || HasAnchor(add)) && (HasLoad(ls) || HasLoad(add))
  {
    OwnLines(anchorFile);
    assert AreOwnLines([MARKER, ANCHOR_LINE, LoadLine(anchorFile)]);
    AddsLines(MARKER, ANCHOR_LINE, LoadLine(anchorFile), HasAnchor(ls), HasLoad(ls));
  }

  lemma {:induction false} DropAll(ls: seq<string>, drop: string -> bool)
    requires forall l :: l in ls ==> drop(l)
    ensures Without(ls, drop) == []
    decreases |ls|
  {
    if ls != [] { DropAll(ls[..|ls| - 1], drop); }
  }

  lemma TidyAlready(ls: seq<string>)
    requires ls != [] ==> Solid(ls[|ls| - 1])
    ensures Tidy(ls) == ls
  {
    if ls != [] {
      SolidIsTrimmed(ls[|ls| - 1]);
      assert ls == ls[..|ls| - 1] + [ls[|ls| - 1]];
    }
  }

  /** Lists of own lines hold nothing of the operator's, nothing legacy, and nothing to tidy. */
  lemma OwnLinesOnly(add: seq<string>)
    requires AreOwnLines(add)
    ensures AreLines(add) && Foreign(add) == [] && !HasLegacy(add) && Tidy(add) == add
  {
    DropAll(add, IsOurs);
    assert add != [] ==> IsOwnLine(add[|add| - 1]);
    TidyAlready(add);
  }

  lemma Union(a: seq<string>, b: seq<string>)
    ensures HasAnchor(a + b) == (HasAnchor(a) || HasAnchor(b)) && HasLoad(a + b) == (HasLoad(a) || HasLoad(b))
    ensures HasLegacy(a + b) == (HasLegacy(a) || HasLegacy(b)) && HasOurs(a + b) == (HasOurs(a) || HasOurs(b))
    ensures AreLines(a + b) == (AreLines(a) && AreLines(b))
  {
    if AreLines(a + b) {
      assert AreLines(a) by { assert forall l :: l in a ==> l in a + b; }
      assert AreLines(b) by { assert forall l :: l in b ==> l in a + b; }
    }
  }

  // ----- Patching -----

  lemma TidyEnd(a: seq<string>, b: seq<string>)
    requires b != [] && Tidy(b) == b
    ensures Tidy(a + b) == a + b
  {
    var whole, n := a + b, |a + b| - 1;
    assert whole[n] == b[|b| - 1];
    assert whole[..n] + [whole[n]] == whole;
  }

  lemma UnionOfThree(a: seq<string>, gap: seq<string>, b: seq<string>)
    requires gap == [] || gap == [""]
    ensures var p := a + gap + b;
            && HasAnchor(p) == (HasAnchor(a) || HasAnchor(b)) && HasLoad(p) == (HasLoad(a) || HasLoad(b))
            && HasLegacy(p) == (HasLegacy(a) || HasLegacy(b)) && AreLines(p) == (AreLines(a) && AreLines(b))
  {
    TrimmedLineIsTheSame("");
    assert !HasOurs(gap) && !HasAnchor(gap) && !HasLoad(gap) && !HasLegacy(gap) && AreLines(gap);
    Union(a, gap);
    Union(a + gap, b);
  }

  /** The patched lines have both hooks and nothing legacy. */
  lemma PatchedHooks(kept: seq<string>, anchorFile: string)
    requires IsLine(anchorFile) && AreLines(kept) && !HasLegacy(kept)
    ensures var p := Patched(kept, anchorFile); AreLines(p) && HasAnchor(p) && HasLoad(p) && !HasLegacy(p)
  {
    var add, own := Added(kept, anchorFile), Tidy(kept);
    AddedLines(kept, anchorFile);
    OwnLinesOnly(add);
    TidyIsTheSame(kept);
    TidyKeepsLines(kept);
    UnionOfThree(own, if own == [] || add == [] then [] else [""], add);
  }

  lemma PatchedIsTidy(kept: seq<string>, anchorFile: string)
    requires IsLine(anchorFile)
    ensures Tidy(Patched(kept, anchorFile)) == Patched(kept, anchorFile)
  {
    var add, own := Added(kept, anchorFile), Tidy(kept);
    AddedLines(kept, anchorFile);
    OwnLinesOnly(add);
    if add != [] {
      TidyEnd(own + if own == [] then [] else [""], add);
    } else {
      assert Patched(kept, anchorFile) == own;
      if own != [] { assert own[..|own| - 1] + [own[|own| - 1]] == own; }
    }
  }

  /** The operator's lines survive the patch, in order, up to blank lines at the end. */
  lemma PatchedForeign(kept: seq<string>, anchorFile: string)
    requires IsLine(anchorFile)
    ensures Tidy(Foreign(Ended(Patched(kept, anchorFile)))) == Tidy(Foreign(kept))
  {
    var add, own := Added(kept, anchorFile), Tidy(kept);
    var gap := if own == [] || add == [] then [] else [""];
    var p, f := own + gap + add, Foreign(own);
    AddedLines(kept, anchorFile);
    OwnLinesOnly(add);
    WithoutAppend(own, gap, IsOurs);
    WithoutAppend(own + gap, add, IsOurs);
    TidyForeign(kept);
    TrimmedLineIsTheSame("");
    assert Foreign([""]) == [""] by { assert [""][..0] == []; }
    assert Foreign(p) == f + gap;
    TidyEnded(f);
    if gap == [] { assert f + gap == f; }
    if p != [] {
      WithoutAppend(p, [""], IsOurs);
      TidyEnded(f + gap);
    }
  }

  /** What patching a file gives. */
  function WithAnchor(conf: string, anchorFile: string): string {
    Text(Patched(Kept(Lines(conf)), anchorFile))
  }

  /** What unpatching one gives: nothing changes when no line is the agent's. */
  function WithoutAnchor(conf: string): string {
    if HasOurs(Lines(conf)) then ConfJoin(Foreign(Lines(conf))) else conf
  }

  lemma KeptLines(ls: seq<string>)
    requires AreLines(ls)
    ensures AreLines(Kept(ls)) && !HasLegacy(Kept(ls))
    ensures !HasLegacy(ls) <==> Kept(ls) == ls
  {
    WithoutIs(ls, IsLegacyLine);
  }

  /** A patched file, read back. */
  lemma PatchedLines(conf: string, anchorFile: string)
    requires IsLine(anchorFile)
    ensures var p, ls := Patched(Kept(Lines(conf)), anchorFile), Lines(WithAnchor(conf, anchorFile));
            ls == Ended(p) && p != [] && HasAnchor(ls) && HasLoad(ls) && !HasLegacy(ls) && Tidy(ls) == p && Tidy(p) == p
  {
    var kept := Kept(Lines(conf));
    var p := Patched(kept, anchorFile);
    LinesAreLines(conf);
    KeptLines(Lines(conf));
    PatchedHooks(kept, anchorFile);
    PatchedIsTidy(kept, anchorFile);
    LinesOfText(p);
    TidyEnded(p);
    TidyIsTheSame(Ended(p));
  }

  /** What the patch adds to a file, and what it leaves: the kept lines come first, as they were up to blank
      ends; then, if there was no reference to the anchor, one to it, and if nothing loaded it, a line
      that loads it from the given file. */
  lemma PatchAdds(conf: string, anchorFile: string)
    requires IsLine(anchorFile)
    ensures var ls := Lines(WithAnchor(conf, anchorFile));
            && Tidy(Kept(Lines(conf))) <= ls
            && (!HasAnchor(Lines(conf)) ==> "anchor \"obliguard\"" in ls)
            && (!HasLoad(Lines(conf)) ==> "load anchor \"obliguard\" from " + "\"" + anchorFile + "\"" in ls)
  {
    var ls := Lines(conf);
    var kept := Kept(ls);
    PatchedLines(conf, anchorFile);
    NoHooksKept(ls);
    AddsMissing(MARKER, ANCHOR_LINE, LoadLine(anchorFile), HasAnchor(kept), HasLoad(kept));
    PatchedHolds(kept, anchorFile);
  }

  lemma AddsMissing(marker: string, anchor: string, load: string, hasAnchor: bool, hasLoad: bool)
    ensures var add := Adds(marker, anchor, load, hasAnchor, hasLoad);
            (!hasAnchor ==> anchor in add) && (!hasLoad ==> load in add)
  {
  }

  lemma PatchedHolds(kept: seq<string>, anchorFile: string)
    ensures var ls := Ended(Patched(kept, anchorFile));
            Tidy(kept) <= ls && forall l :: l in Added(kept, anchorFile) ==> l in ls
  {
    var add, own := Added(kept, anchorFile), Tidy(kept);
    WithGap(own, if own == [] || add == [] then [] else [""], add);
  }

  lemma WithGap(own: seq<string>, gap: seq<string>, add: seq<string>)
    ensures own <= Ended(own + gap + add) && forall l :: l in add ==> l in Ended(own + gap + add)
  {
  }

  lemma NoHooksKept(ls: seq<string>)
    ensures !HasAnchor(ls) ==> !HasAnchor(Kept(ls))
    ensures !HasLoad(ls) ==> !HasLoad(Kept(ls))
  {
    KeptWithin(ls, IsLegacyLine);
  }

  lemma {:induction false} KeptWithin(ls: seq<string>, drop: string -> bool)
    ensures forall l :: l in Without(ls, drop) ==> l in ls
    decreases |ls|
  {
    if ls != [] { KeptWithin(ls[..|ls| - 1], drop); }
  }

  /** A file that needs no patch: both hooks, nothing legacy, no blanks at its end, one last newline. */
  predicate IsRight(ls: seq<string>) {
    HasAnchor(ls) && HasLoad(ls) && !HasLegacy(ls) && Ended(Tidy(ls)) == ls
  }

  /** Whatever the file was, the patched one has an anchor line, a load line and no legacy line. */
  lemma PatchIsRight(conf: string, anchorFile: string)
    requires IsLine(anchorFile)
    ensures IsRight(Lines(WithAnchor(conf, anchorFile)))
  {
    PatchedLines(conf, anchorFile);
  }

  /** A file that is right is left as it is, and no other one is: `changed` is reported exactly then. */
  lemma NoChangeIff(conf: string, anchorFile: string)
    requires IsLine(anchorFile)
    ensures WithAnchor(conf, anchorFile) == DropCR(conf) <==> IsRight(Lines(conf))
  {
    var ls := Lines(conf);
    if WithAnchor(conf, anchorFile) == DropCR(conf) {
      PatchedLines(conf, anchorFile);
      assert Lines(WithAnchor(conf, anchorFile)) == ls;
    }
    if IsRight(ls) {
      LinesAreLines(conf);
      KeptLines(ls);
      assert Patched(ls, anchorFile) == Tidy(ls);
      JoinSplit(DropCR(conf));
    }
  }

  /** Patching twice is patching once, whatever file the second patch would load. */
  lemma PatchIsIdempotent(conf: string, anchorFile: string, other: string)
    requires IsLine(anchorFile) && IsLine(other)
    ensures var once := WithAnchor(conf, anchorFile); WithAnchor(once, other) == once == DropCR(once)
  {
    var once := WithAnchor(conf, anchorFile);
    var p := Patched(Kept(Lines(conf)), anchorFile);
    PatchIsRight(conf, anchorFile);
    NoChangeIff(once, other);
    LinesAreLines(conf);
    KeptLines(Lines(conf));
    PatchedHooks(Kept(Lines(conf)), anchorFile);
    LinesOfText(p);
  }

  /** Unpatching a patched file gives the operator's lines of the original, in order. */
  lemma UnpatchGivesForeign(conf: string, anchorFile: string)
    requires IsLine(anchorFile)
    ensures WithoutAnchor(WithAnchor(conf, anchorFile)) == ConfJoin(Foreign(Lines(conf)))
  {
    var kept := Kept(Lines(conf));
    var ls := Lines(WithAnchor(conf, anchorFile));
    PatchedLines(conf, anchorFile);
    PatchedForeign(kept, anchorFile);
    ForeignOfKept(Lines(conf));
    ConfJoinIsText(Foreign(ls));
    ConfJoinIsText(Foreign(Lines(conf)));
    assert HasOurs(ls);
  }

  lemma ForeignLines(ls: seq<string>)
    requires AreLines(ls)
    ensures AreLines(Foreign(ls)) && !HasOurs(Foreign(ls))
    ensures !HasOurs(ls) <==> Foreign(ls) == ls
  {
    WithoutIs(ls, IsOurs);
  }

  lemma EndedIsTheSame(ls: seq<string>)
    requires Tidy(ls) == ls
    ensures Tidy(Ended(ls)) == ls && HasOurs(Ended(ls)) == HasOurs(ls)
  {
    TidyEnded(ls);
    TidyIsTheSame(Ended(ls));
  }

  lemma TidyTwice(ls: seq<string>)
    ensures Tidy(Tidy(ls)) == Tidy(ls)
  {
    var r := Tidy(ls);
    if r != [] { assert r[..|r| - 1] + [r[|r| - 1]] == r; }
  }

  /** A text of tidied operator's lines holds nothing of the agent's and ends as pfConfJoin ends a file. */
  lemma ForeignText(ls: seq<string>, conf: string)
    requires AreLines(ls) && conf == ConfJoin(Foreign(ls))
    ensures DropCR(conf) == conf && !HasOurs(Lines(conf)) && Ended(Tidy(Lines(conf))) == Lines(conf)
  {
    var f := Foreign(ls);
    ForeignLines(ls);
    ConfJoinIsText(f);
    TidyKeepsLines(f);
    LinesOfText(Tidy(f));
    TidyIsTheSame(f);
    TidyTwice(f);
    EndedIsTheSame(Tidy(f));
  }

  /** No line of an unpatched file is the agent's. */
  lemma UnpatchedHasNothing(conf: string)
    ensures !HasOurs(Lines(WithoutAnchor(conf)))
  {
    if HasOurs(Lines(conf)) {
      LinesAreLines(conf);
      ForeignText(Lines(conf), WithoutAnchor(conf));
    }
  }

  /** Patching and unpatching restores a file if and only if it held nothing of the agent's, no carriage
      return, and ended as pfConfJoin ends a file. */
  lemma RestoresIff(conf: string, anchorFile: string)
    requires IsLine(anchorFile)
    ensures WithoutAnchor(WithAnchor(conf, anchorFile)) == conf
            <==> DropCR(conf) == conf && !HasOurs(Lines(conf)) && Ended(Tidy(Lines(conf))) == Lines(conf)
  {
    var ls := Lines(conf);
    UnpatchGivesForeign(conf, anchorFile);
    LinesAreLines(conf);
    if WithoutAnchor(WithAnchor(conf, anchorFile)) == conf {
      ForeignText(ls, conf);
    } else if DropCR(conf) == conf && !HasOurs(ls) && Ended(Tidy(ls)) == ls {
      ForeignLines(ls);
      ConfJoinIsText(ls);
      JoinSplit(conf);
      assert false;
    }
  }

  // ----- The code -----

  /** pfConfJoin. */
  method PfConfJoin(lines: seq<string>) returns (s: string)
    ensures s == Text(Tidy(lines))
  {
    ConfJoinIsText(lines);
    s := TrimRight(Join(lines));
    if s != "" { s := s + "\n"; }
  }

  lemma TextOfGap(own: seq<string>, add: seq<string>)
    requires add != []
    ensures Text(add) == Join(add) + "\n"
    ensures own != [] ==> Text(own) != "" && Text(own + [""] + add) == Text(own) + "\n" + (Join(add) + "\n")
  {
    JoinAppend(add, [""]);
    if own != [] {
      JoinAppend(own, [""]);
      JoinAppend(own + [""], add + [""]);
      assert own + [""] + add + [""] == own + [""] + (add + [""]);
    }
  }

  lemma TextOfPatched(kept: seq<string>, anchorFile: string)
    ensures var add, out := Added(kept, anchorFile), Text(Tidy(kept));
            Text(Patched(kept, anchorFile))
            == if add == [] then out else (if out == "" then "" else out + "\n") + (Join(add) + "\n")
  {
    var add, own := Added(kept, anchorFile), Tidy(kept);
    if add == [] {
      assert Patched(kept, anchorFile) == own;
    } else {
      TextOfGap(own, add);
      if own == [] { assert Patched(kept, anchorFile) == add; }
    }
  }

  lemma ScanStep(ls: seq<string>, i: nat, drop: string -> bool)
    requires i < |ls|
    ensures drop(ls[i]) ==> Without(ls[..i + 1], drop) == Without(ls[..i], drop)
    ensures !drop(ls[i]) ==> Without(ls[..i + 1], drop) == Without(ls[..i], drop) + [ls[i]]
    ensures HasOurs(ls[..i + 1]) == (HasOurs(ls[..i]) || IsOurs(ls[i]))
  {
    assert ls[..i + 1] == ls[..i] + [ls[i]];
    WithoutOne(ls[..i], ls[i], drop);
    OursAppend(ls[..i], ls[i]);
  }

  lemma WithoutOne(ls: seq<string>, l: string, drop: string -> bool)
    ensures drop(l) ==> Without(ls + [l], drop) == Without(ls, drop)
    ensures !drop(l) ==> Without(ls + [l], drop) == Without(ls, drop) + [l]
  {
    assert (ls + [l])[..|ls|] == ls;
  }

  lemma OursAppend(ls: seq<string>, l: string)
    ensures HasOurs(ls + [l]) == (HasOurs(ls) || IsOurs(l))
  {
    Union(ls, [l]);
  }

  lemma HookStep(kept: seq<string>, l: string)
    ensures HasAnchor(kept + [l]) == (HasAnchor(kept) || IsAnchorLine(l))
    ensures HasLoad(kept + [l]) == (HasLoad(kept) || IsLoadLine(l))
  {
    Union(kept, [l]);
  }

  /** What the loop of pfConfWithAnchor knows of the lines before i. */
  ghost predicate Scanned(lines: seq<string>, i: nat, kept: seq<string>, hasAnchor: bool, hasLoad: bool)
    requires i <= |lines|
  {
    kept == Kept(lines[..i]) && hasAnchor == HasAnchor(kept) && hasLoad == HasLoad(kept)
  }

  lemma ScannedNext(lines: seq<string>, i: nat, kept: seq<string>, hasAnchor: bool, hasLoad: bool)
    requires i < |lines| && Scanned(lines, i, kept, hasAnchor, hasLoad)
    ensures IsLegacyLine(lines[i]) ==> Scanned(lines, i + 1, kept, hasAnchor, hasLoad)
    ensures !IsLegacyLine(lines[i]) ==>
              Scanned(lines, i + 1, kept + [lines[i]], hasAnchor || IsAnchorLine(lines[i]),
                      hasLoad || IsLoadLine(lines[i]))
  {
    ScanStep(lines, i, IsLegacyLine);
    HookStep(kept, lines[i]);
  }

  lemma ScannedAll(lines: seq<string>, kept: seq<string>, hasAnchor: bool, hasLoad: bool)
    requires Scanned(lines, |lines|, kept, hasAnchor, hasLoad)
    ensures kept == Kept(lines) && hasAnchor == HasAnchor(kept) && hasLoad == HasLoad(kept)
  {
    assert lines[..|lines|] == lines;
  }

  /** The loop of pfConfWithAnchor. */
  method ScanHooks(lines: seq<string>) returns (kept: seq<string>, hasAnchor: bool, hasLoad: bool)
    ensures kept == Kept(lines) && hasAnchor == HasAnchor(kept) && hasLoad == HasLoad(kept)
  {
    kept, hasAnchor, hasLoad := [], false, false;
    var i := 0;
    while i < |lines|
      invariant i <= |lines| && Scanned(lines, i, kept, hasAnchor, hasLoad)
    {
      ScannedNext(lines, i, kept, hasAnchor, hasLoad);
      if !IsLegacyLine(lines[i]) {
        if IsAnchorLine(lines[i]) { hasAnchor := true; }
        if IsLoadLine(lines[i]) { hasLoad := true; }
        kept := kept + [lines[i]];
      }
      i := i + 1;
    }
    ScannedAll(lines, kept, hasAnchor, hasLoad);
  }

  method PfConfWithAnchor(conf: string, anchorFile: string) returns (out: string, changed: bool)
    ensures out == WithAnchor(conf, anchorFile)
    ensures IsLine(anchorFile) ==> (changed <==> !IsRight(Lines(conf)))
  {
    var kept, hasAnchor, hasLoad := ScanHooks(Lines(conf));
    var add: seq<string> := [];
    if !hasAnchor || !hasLoad {
      add := add + [MARKER];
      if !hasAnchor { add := add + [ANCHOR_LINE]; }
      if !hasLoad { add := add + [LoadLine(anchorFile)]; }
    }
    assert add == Added(kept, anchorFile);
    out := PfConfJoin(kept);
    TextOfPatched(kept, anchorFile);
    if |add| > 0 {
      if out != "" { out := out + "\n"; }
      out := out + (Join(add) + "\n");
    }
    changed := out != DropCR(conf);
    if IsLine(anchorFile) { NoChangeIff(conf, anchorFile); }
  }

  /** The loop of pfConfWithoutAnchor. */
  method ScanForeign(lines: seq<string>) returns (kept: seq<string>, removed: bool)
    ensures kept == Foreign(lines) && removed == HasOurs(lines)
  {
    kept, removed := [], false;
    var i := 0;
    while i < |lines|
      invariant i <= |lines| && kept == Foreign(lines[..i]) && removed == HasOurs(lines[..i])
    {
      ScanStep(lines, i, IsOurs);
      if IsOurs(lines[i]) { removed := true; } else { kept := kept + [lines[i]]; }
      i := i + 1;
    }
    assert lines[..i] == lines;
  }

  method PfConfWithoutAnchor(conf: string) returns (out: string, removed: bool)
    ensures out == WithoutAnchor(conf)
    ensures removed <==> HasOurs(Lines(conf))
  {
    var kept, r := ScanForeign(Lines(conf));
    if !r { return conf, false; }
    ConfJoinIsText(kept);
    out := PfConfJoin(kept);
    removed := true;
  }
}
