/**
 Which headings shield the header: what follows them changes no declaration, wherever they stand and whatever the label
 expressions are.
 */
module HeaderShield {
  import opened Wrappers
  import opened Chars
  import opened MarkdownLines
  import opened HeaderScan

  /** Wherever line `t` is visible as the end of the header, what follows it changes no declaration. */
  ghost predicate Shields(t: string, inlineValues: string -> seq<string>) {
    forall before: seq<string>, rest: seq<string> ::
      EndsHeader(ViewAt(before + [t], |before|)) ==>
        Declared(Views(before + [t] + rest), 0, inlineValues) == Declared(Views(before + [t]), 0, inlineValues)
  }

  /** The runs of `t` that pair within it, the line being the last of its block. */
  ghost function OwnRuns(t: string): set<nat> {
    PairedRuns([t], 0)
  }

  /** On its own the visible text of `t` ends the header. */
  ghost predicate EndsAlone(t: string) {
    var r := Strip(t, OwnRuns(t), 0, false, None);
    SectionHeading(r.text) && !StatusHeading(r.text)
  }

  const STATUS := "## Status"

  // ----- a line that ends with a run of its own length --------------------

  function Ticks(n: nat): string {
    seq(n, _ => '`')
  }

  /** A letter and a run longer than the line `t`. */
  function Tail(t: string): string {
    "a" + Ticks(|t| + 1)
  }

  lemma TailRuns(t: string)
    ensures var l, n := Tail(t), |t| + 1;
            && |l| == n + 1 && l[0] == 'a' && RunEnd(l, 1, '`') == |l| && RunAt(l, 1) && RunLen(l, 1) == n
            && forall s: nat :: RunAt(l, s) ==> s == 1
  {
    var l := Tail(t);
    assert forall k :: 1 <= k < |l| ==> l[k] == '`';
    RunToEnd(l, 1);
  }

  lemma {:induction false} RunToEnd(l: string, i: nat)
    requires i <= |l| && forall k :: i <= k < |l| ==> l[k] == '`'
    ensures RunEnd(l, i, '`') == |l|
    decreases |l| - i
  {
    if i < |l| {
      RunToEnd(l, i + 1);
    }
  }

  lemma TailIsText(t: string)
    ensures var l := Tail(t);
            && !Boundary(l) && !IndentedCode(l) && FenceOpener(l).None? && !Blank(l) && !Blank("a")
            && forall k: nat :: !OpensComment(l, k)
  {
    var l := Tail(t);
    assert l[0] == 'a' && RunEnd(l, 0, ' ') == 0 && RunEnd(l, 0, '#') == 0;
    assert forall k :: 1 <= k < |l| ==> l[k] == '`';
    assert "a"[0] == 'a';
  }

  /** Unpaired the run is text; paired it opens a span to the end of the line. */
  lemma TailViews(t: string)
    ensures var l, n := Tail(t), |t| + 1;
            && Strip(l, {}, 0, false, None) == Stripped(l, false, None)
            && Strip(l, {1}, 0, false, None) == Stripped("a", false, Some(n))
  {
    var l, n := Tail(t), |t| + 1;
    TailRuns(t);
    TailIsText(t);
    UnpairedRunsAreText(l, {}, 0);
    assert l[0..] == l;
    FirstRunIsAt(l);
    assert l[0..1] == "a";
    assert OffRun(l, |l|) && Strip(l, {1}, |l|, false, Some(n)) == Stripped("", false, Some(n));
    assert FindOpen(l, 0).None?;
  }

  lemma FirstRunIsAt(l: string)
    requires |l| > 1 && l[0] != '`' && l[1] == '`'
    ensures NextRun(l, 0) == Some(1)
  {
    assert NextRun(l, 1) == Some(1);
  }

  // ----- the two documents ------------------------------------------------

  lemma StatusLine()
    ensures Boundary(STATUS) && FenceOpener(STATUS).None? && !IndentedCode(STATUS) && !Blank(STATUS)
    ensures StatusHeading(STATUS) && '`' !in STATUS
    ensures Strip(STATUS, {}, 0, false, None) == Stripped(STATUS, false, None)
  {
    hide StatusHeading, Strip, OpensComment;
    StatusIsHeading();
    StatusIsPlain();
    UnpairedRunsAreText(STATUS, {}, 0);
    assert STATUS[0..] == STATUS;
    assert STATUS[0] == '#' && RunEnd(STATUS, 0, ' ') == 0;
    assert STATUS[2] == ' ' && RunEnd(STATUS, 0, '#') == 2 by {
      assert RunEnd(STATUS, 2, '#') == 2 && RunEnd(STATUS, 1, '#') == 2;
    }
  }

  lemma StatusIsPlain()
    ensures forall k :: 0 <= k < |STATUS| ==> STATUS[k] != '<' && STATUS[k] != '`'
    ensures forall k: nat :: !OpensComment(STATUS, k)
  {
  }

  lemma StatusIsHeading()
    ensures StatusHeading(STATUS)
  {
    assert STATUS[0] == '#' && STATUS[1] == '#' && STATUS[2] == ' ';
    assert RunEnd(STATUS, 0, ' ') == 0;
    assert RunEnd(STATUS, 2, '#') == 2 && RunEnd(STATUS, 1, '#') == 2 && RunEnd(STATUS, 0, '#') == 2;
    assert STATUS[2..] == " Status";
    TrimStatus();
  }

  lemma TrimStatus()
    ensures Lower(Trim(" Status")) == "status"
  {
    assert " Status"[1..] == "Status";
    assert TrimLeft("Status") == "Status" && TrimLeft(" Status") == "Status";
    assert TrimRight("Status") == "Status";
    assert Lower("Status") == "status";
  }

  /** After the Status heading, and after a line of text, the scanner is in no construct. */
  const TEXT := Scan(None, false, false, None, false)

  lemma FirstLine(lines: seq<string>)
    requires |lines| > 0 && lines[0] == STATUS
    ensures ViewAt(lines, 0) == View(Some(STATUS), false) && StateAt(lines, 1) == TEXT
  {
    StatusLine();
    hide Boundary, FenceOpener, IndentedCode, StatusHeading, Strip, Blank;
    assert PairedRuns(lines, 0) == {} by {
      forall s ensures !Paired(lines, 0, s) {
        assert !RunAt(lines[0], s);
      }
    }
    assert StateAt(lines, 0) == START;
  }

  lemma ShortRuns(t: string)
    requires !Boundary(t)
    ensures PairedRuns([STATUS, Tail(t), t], 1) == {} && PairedRuns([STATUS, Tail(t), t], 2) == OwnRuns(t)
  {
    var lines := [STATUS, Tail(t), t];
    hide Boundary, Tail;
    TailRuns(t);
    forall s: nat, l2: nat, s2: nat ensures !Closer(lines, 1, s, l2, s2) {
      RunFits(t, s2);
    }
    forall s ensures Paired(lines, 2, s) <==> Paired([t], 0, s) {
      if Paired(lines, 2, s) {
        var l2, s2 :| Closer(lines, 2, s, l2, s2);
        assert Closer([t], 0, s, 0, s2);
      }
      if Paired([t], 0, s) {
        var l2, s2 :| Closer([t], 0, s, l2, s2);
        assert Closer(lines, 2, s, 2, s2);
      }
    }
  }

  lemma RunFits(t: string, s: nat)
    ensures s <= |t| ==> RunLen(t, s) <= |t|
  {
  }

  lemma LongRuns(t: string)
    requires !Boundary(t)
    ensures PairedRuns([STATUS, Tail(t), t, Tail(t)], 1) == {1}
  {
    var lines := [STATUS, Tail(t), t, Tail(t)];
    TailRuns(t);
    TailIsText(t);
    hide Boundary, Tail;
    assert SameBlock(lines, 1, 3);
    assert Closer(lines, 1, 1, 3, 1);
    forall s ensures Paired(lines, 1, s) <==> s == 1 {
      if Paired(lines, 1, s) {
        assert RunAt(lines[1], s);
      }
    }
  }

  /** A line of text after the Status heading. */
  lemma TextStep(line: string, matching: set<nat>)
    requires FenceOpener(line).None? && !Blank(line)
    ensures StepLine(TEXT, line, matching).1 == View(Some(Strip(line, matching, 0, false, None).text), false)
    ensures Strip(line, matching, 0, false, None) == Stripped(line, false, None) ==>
        StepLine(TEXT, line, matching).0 == TEXT
  {
  }

  lemma ShortViews(t: string)
    requires EndsAlone(t) && !Boundary(t)
    ensures var lines := [STATUS, Tail(t), t];
            && ViewAt(lines, 1) == View(Some(Tail(t)), false) && EndsHeader(ViewAt(lines, 2))
  {
    var lines := [STATUS, Tail(t), t];
    FirstLine(lines);
    ShortRuns(t);
    TailViews(t);
    TailIsText(t);
    TextStep(Tail(t), {});
    assert FenceOpener(t).None? && !Blank(t);
    TextStep(t, OwnRuns(t));
    hide Strip, StepLine, Tail, OwnRuns, PairedRuns, SectionHeading, StatusHeading, Boundary;
    assert StateAt(lines, 2) == TEXT;
  }

  lemma LongViews(t: string)
    requires !Boundary(t)
    ensures var lines := [STATUS, Tail(t), t, Tail(t)];
            ViewAt(lines, 1) == View(Some("a"), false)
  {
    var lines := [STATUS, Tail(t), t, Tail(t)];
    FirstLine(lines);
    LongRuns(t);
    TailViews(t);
    TailIsText(t);
    TextStep(Tail(t), {1});
    hide Strip, StepLine, Tail, PairedRuns, Boundary;
  }

  /** The Status heading takes its value from the next visible line. */
  lemma HeadingFirst(views: seq<View>, text: string, inlineValues: string -> seq<string>)
    requires |views| > 1 && views[0] == View(Some(STATUS), false) && views[1] == View(Some(text), false) && !Blank(text)
    ensures |Declared(views, 0, inlineValues)| > 0
    ensures Declared(views, 0, inlineValues)[0] == Declaration(2, Trim(text), true)
  {
    StatusLine();
    hide StatusHeading, SectionHeading, Trim, Blank;
    assert !EndsHeader(views[0]);
    assert FirstValue(views, 1) == [Declaration(2, Trim(text), true)];
  }

  lemma TailTrimmed(t: string)
    ensures Trim(Tail(t)) == Tail(t) && Trim("a") == "a" && Tail(t) != "a" && !Blank(Tail(t)) && !Blank("a")
  {
    var l := Tail(t);
    assert l[0] == 'a' && l[|l| - 1] == '`' && |l| > 1;
    TailIsText(t);
  }

  /** The failing document: a heading that is no block boundary lets a later line turn the declared value, a run
      that was text, into the opener of a span. */
  lemma LaterLineChangesValue(t: string, inlineValues: string -> seq<string>)
    requires EndsAlone(t) && !Boundary(t)
    ensures var before, rest := [STATUS, Tail(t)], [Tail(t)];
            && EndsHeader(ViewAt(before + [t], 2))
            && Declared(Views(before + [t]), 0, inlineValues) != []
            && Declared(Views(before + [t] + rest), 0, inlineValues) != []
            && Declared(Views(before + [t]), 0, inlineValues)[0] == Declaration(2, Tail(t), true)
            && Declared(Views(before + [t] + rest), 0, inlineValues)[0] == Declaration(2, "a", true)
  {
    var short, long := [STATUS, Tail(t), t], [STATUS, Tail(t), t, Tail(t)];
    assert [STATUS, Tail(t)] + [t] == short && short + [Tail(t)] == long;
    ShortViews(t);
    LongViews(t);
    FirstLine(short);
    FirstLine(long);
    TailTrimmed(t);
    hide ViewAt, Tail, Trim, Blank, Declared, EndsHeader;
    HeadingFirst(Views(short), Tail(t), inlineValues);
    HeadingFirst(Views(long), "a", inlineValues);
  }

  /** A line that ends the header need not be a block boundary: `\s` after the hashes accepts more than the space or
      tab of an ATX heading. Exactly the lines that are boundaries shield the header, whatever the label
      expressions. */
  lemma ShieldsExactlyWhen(t: string, inlineValues: string -> seq<string>)
    requires EndsAlone(t)
    ensures Shields(t, inlineValues) <==> Boundary(t)
  {
    hide Boundary, EndsAlone, Declared, Views, Tail;
    if Boundary(t) {
      forall before: seq<string>, rest: seq<string> | EndsHeader(ViewAt(before + [t], |before|))
        ensures Declared(Views(before + [t] + rest), 0, inlineValues) == Declared(Views(before + [t]), 0, inlineValues)
      {
        var lines := before + [t];
        assert lines[..|before| + 1] == lines;
        HeaderScope(lines, |before|, rest, inlineValues);
      }
    } else {
      LaterLineChangesValue(t, inlineValues);
      TailTrimmed(t);
      var before, rest := [STATUS, Tail(t)], [Tail(t)];
      assert EndsHeader(ViewAt(before + [t], |before|));
    }
  }

  /** A plain section heading is such a line, and a boundary exactly when it is an ATX heading. */
  lemma PlainHeading(t: string)
    requires SectionHeading(t) && !StatusHeading(t) && '`' !in t && forall k: nat :: !OpensComment(t, k)
    ensures EndsAlone(t) && (Boundary(t) <==> AtxHeading(t))
  {
    assert OwnRuns(t) == {} by {
      forall s ensures !Paired([t], 0, s) {
        assert !RunAt(t, s);
      }
    }
    UnpairedRunsAreText(t, {}, 0);
    assert t[0..] == t;
    HeadingHasText(t);
    assert t[RunEnd(t, 0, ' ')] == '#';
  }

  // ----- such a heading ---------------------------------------------------

  /** Two hashes, a no-break space and a word. */
  const NO_BREAK := ['#', '#', 0xA0 as char, 'x']

  /** It is a section heading to the header rule and no heading to the block rule. */
  lemma NoBreakHeading()
    ensures SectionHeading(NO_BREAK) && !StatusHeading(NO_BREAK) && EndsAlone(NO_BREAK) && !Boundary(NO_BREAK)
  {
    var t := NO_BREAK;
    assert RunEnd(t, 0, ' ') == 0;
    assert RunEnd(t, 2, '#') == 2 && RunEnd(t, 1, '#') == 2 && RunEnd(t, 0, '#') == 2;
    assert t[2..] == [0xA0 as char, 'x'] && t[2..][1] == 'x';
    NotStatus();
    PlainHeading(t);
  }

  lemma NotStatus()
    ensures Lower(Trim([0xA0 as char, 'x'])) != "status"
  {
    var u := [0xA0 as char, 'x'];
    assert u[1..] == "x";
    assert TrimLeft("x") == "x" && TrimLeft(u) == "x" && TrimRight("x") == "x";
    assert |Lower("x")| == 1;
  }

  /** The failing document: a Status heading whose value ends in five backticks, then the heading. The declared value is
      the whole line; adding the line once more turns its run into the opener of a span and cuts the value short. */
  lemma NoBreakDocument(inlineValues: string -> seq<string>)
    ensures var header, line := [STATUS, "a`````", NO_BREAK], "a`````";
            && EndsHeader(ViewAt(header, 2))
            && Declared(Views(header), 0, inlineValues) != [] && Declared(Views(header + [line]), 0, inlineValues) != []
            && Declared(Views(header), 0, inlineValues)[0] == Declaration(2, line, true)
            && Declared(Views(header + [line]), 0, inlineValues)[0] == Declaration(2, "a", true)
            && !Shields(NO_BREAK, inlineValues)
  {
    NoBreakHeading();
    assert Tail(NO_BREAK) == "a`````";
    assert [STATUS, Tail(NO_BREAK)] + [NO_BREAK] == [STATUS, "a`````", NO_BREAK];
    LaterLineChangesValue(NO_BREAK, inlineValues);
    ShieldsExactlyWhen(NO_BREAK, inlineValues);
  }
}
