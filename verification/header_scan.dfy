/**
 The Markdown scanner that finds an ADR's status declarations: which lines and characters of the document
 are declaration text (not fenced or indented code, comments or code spans), and where the header ends.
 The line rules follow CommonMark 0.31.2, sections 4.2, 4.4, 4.5 and 6.1, with the source's simplifications.
 */
module MarkdownLines {
  import opened Wrappers
  import opened Chars

  predicate Blank(line: string) {
    forall k :: 0 <= k < |line| ==> Space(line[k])
  }

  function TrimLeft(s: string): string {
    if s != "" && Space(s[0]) then TrimLeft(s[1..]) else s
  }

  function TrimRight(s: string): string {
    if s != "" && Space(s[|s| - 1]) then TrimRight(s[..|s| - 1]) else s
  }

  function Trim(s: string): string {
    TrimRight(TrimLeft(s))
  }

  /** Letters as a match that ignores case compares them; the long s is an s. */
  function Lower(s: string): string {
    seq(|s|, i requires 0 <= i < |s| =>
      if 'A' <= s[i] <= 'Z' then s[i] + 32 as char else if s[i] as int == 0x17F then 's' else s[i])
  }

  datatype Fence = Fence(mark: char, length: nat)

  function FenceOpener(line: string): Option<Fence> {
    var i := RunEnd(line, 0, ' ');
    if i <= 3 && i < |line| && (line[i] == '`' || line[i] == '~') then
      var e := RunEnd(line, i, line[i]);
      if e - i >= 3 && (line[i] == '~' || '`' !in line[e..]) then Some(Fence(line[i], e - i)) else None
    else None
  }

  predicate Closes(line: string, f: Fence) {
    var i := RunEnd(line, 0, ' ');
    var e := RunEnd(line, i, f.mark);
    i <= 3 && e - i >= f.length && forall k :: e <= k < |line| ==> line[k] == ' ' || line[k] == '\t'
  }

  predicate AtxHeading(line: string) {
    var i := RunEnd(line, 0, ' ');
    var e := RunEnd(line, i, '#');
    i <= 3 && 1 <= e - i <= 6 && (e == |line| || line[e] == ' ' || line[e] == '\t')
  }

  predicate SectionHeading(line: string) {
    var i := RunEnd(line, 0, ' ');
    var e := RunEnd(line, i, '#');
    i <= 3 && 2 <= e - i <= 6 && e < |line| && Space(line[e]) && !Blank(line[e..])
  }

  predicate StatusHeading(line: string) {
    var i := RunEnd(line, 0, ' ');
    var e := RunEnd(line, i, '#');
    i <= 3 && 1 <= e - i <= 6 && e < |line| && Space(line[e]) && Lower(Trim(line[e..])) == "status"
  }

  predicate IndentedCode(line: string) {
    var i := RunEnd(line, 0, ' ');
    || (i >= 4 && i < |line| && !Space(line[i]))
    || (|line| > 1 && line[0] == '\t' && !Space(line[1]))
  }

  /** A paragraph boundary for code spans. */
  predicate Boundary(line: string) {
    Blank(line) || AtxHeading(line) || FenceOpener(line).Some?
  }

  // ----- backtick runs ----------------------------------------------------

  predicate RunAt(line: string, s: nat) {
    s < |line| && line[s] == '`' && (s == 0 || line[s - 1] != '`')
  }

  function RunLen(line: string, s: nat): nat
    requires s <= |line|
  {
    RunEnd(line, s, '`') - s
  }

  /** A search that starts here cannot start inside a run. */
  predicate OffRun(line: string, i: nat) {
    i <= |line| && (i == 0 || i == |line| || line[i - 1] != '`' || line[i] != '`')
  }

  /** The first backtick at or after `i`: the start of the next run. */
  function NextRun(line: string, i: nat): (r: Option<nat>)
    requires i <= |line|
    ensures match r
            case None => forall k :: i <= k < |line| ==> line[k] != '`'
            case Some(s) => i <= s < |line| && line[s] == '`' && forall k :: i <= k < s ==> line[k] != '`'
    decreases |line| - i
  {
    if i == |line| then None else if line[i] == '`' then Some(i) else NextRun(line, i + 1)
  }

  /** The first run of exactly `n` backticks at or after `i`. */
  function NextRunOf(line: string, i: nat, n: nat): (r: Option<nat>)
    requires OffRun(line, i)
    ensures match r
            case None => forall k :: i <= k && RunAt(line, k) ==> RunLen(line, k) != n
            case Some(s) => i <= s && RunAt(line, s) && RunLen(line, s) == n
                            && forall k :: i <= k < s && RunAt(line, k) ==> RunLen(line, k) != n
    decreases |line| - i
  {
    match NextRun(line, i)
    case None => None
    case Some(s) =>
      assert RunAt(line, s);
      assert forall k :: i <= k < s ==> !RunAt(line, k);
      assert forall k :: s < k < RunEnd(line, s, '`') ==> !RunAt(line, k);
      if RunLen(line, s) == n then Some(s) else NextRunOf(line, RunEnd(line, s, '`'), n)
  }

  predicate OpensComment(line: string, i: nat) {
    i + 4 <= |line| && line[i] == '<' && line[i + 1] == '!' && line[i + 2] == '-' && line[i + 3] == '-'
  }

  predicate ClosesComment(line: string, i: nat) {
    i + 3 <= |line| && line[i] == '-' && line[i + 1] == '-' && line[i + 2] == '>'
  }

  function FindOpen(line: string, i: nat): (r: Option<nat>)
    requires i <= |line|
    ensures match r
            case None => forall k :: i <= k ==> !OpensComment(line, k)
            case Some(s) => i <= s && OpensComment(line, s) && forall k :: i <= k < s ==> !OpensComment(line, k)
    decreases |line| - i
  {
    if OpensComment(line, i) then Some(i) else if i == |line| then None else FindOpen(line, i + 1)
  }

  function FindClose(line: string, i: nat): (r: Option<nat>)
    requires i <= |line|
    ensures match r
            case None => forall k :: i <= k ==> !ClosesComment(line, k)
            case Some(s) => i <= s && ClosesComment(line, s) && forall k :: i <= k < s ==> !ClosesComment(line, k)
    decreases |line| - i
  {
    if ClosesComment(line, i) then Some(i) else if i == |line| then None else FindClose(line, i + 1)
  }
}

module HeaderScan {
  import opened Wrappers
  import opened Chars
  import opened MarkdownLines

  // ----- pass one: which runs have a closer -------------------------------

  predicate Before(l: nat, s: nat, l2: nat, s2: nat) {
    l < l2 || (l == l2 && s < s2)
  }

  /** No paragraph boundary between line `l` and line `l2`. */
  ghost predicate SameBlock(lines: seq<string>, l: nat, l2: nat)
    requires l2 < |lines|
  {
    l == l2 || (l < l2 && forall m :: l <= m <= l2 ==> !Boundary(lines[m]))
  }

  /** (l2, s2) starts a run that could close the run at (l, s). */
  ghost predicate Closer(lines: seq<string>, l: nat, s: nat, l2: nat, s2: nat) {
    && l < |lines| && l2 < |lines| && Before(l, s, l2, s2) && SameBlock(lines, l, l2)
    && RunAt(lines[l], s) && RunAt(lines[l2], s2) && RunLen(lines[l], s) == RunLen(lines[l2], s2)
  }

  /** The run at (l, s) has a closer before the position (n, p). */
  ghost predicate PairedBefore(lines: seq<string>, l: nat, s: nat, n: nat, p: nat) {
    exists l2, s2 :: Closer(lines, l, s, l2, s2) && Before(l2, s2, n, p)
  }

  ghost predicate Paired(lines: seq<string>, l: nat, s: nat) {
    exists l2, s2 :: Closer(lines, l, s, l2, s2)
  }

  ghost function PairedRuns(lines: seq<string>, l: nat): set<nat>
    requires l < |lines|
  {
    set s: nat | s < |lines[l]| && Paired(lines, l, s)
  }

  // ----- pass two: masking one line ---------------------------------------

  datatype Stripped = Stripped(text: string, inComment: bool, codeOpen: Option<nat>)

  /** What is left of `line` from `i` on. `codeOpen` is the length of the backtick run that opened a span. */
  function Strip(line: string, matching: set<nat>, i: nat, inComment: bool, codeOpen: Option<nat>): Stripped
    requires OffRun(line, i) && (inComment ==> codeOpen.None?)
    ensures var r := Strip(line, matching, i, inComment, codeOpen);
            r.inComment ==> r.codeOpen.None?
    decreases |line| - i, inComment, codeOpen.Some?
  {
    if i == |line| then Stripped("", inComment, codeOpen)
    else if inComment then
      match FindClose(line, i)
      case None => Stripped("", true, codeOpen)
      case Some(c) =>
        Strip(line, matching, c + 3, false, codeOpen)
    else if codeOpen.Some? then
      match NextRunOf(line, i, codeOpen.value)
      case None => Stripped("", false, codeOpen)
      case Some(c) => Strip(line, matching, RunEnd(line, c, '`'), false, None)
    else
      var comment := FindOpen(line, i);
      var run := NextRun(line, i);
      if comment.None? && run.None? then Stripped(line[i..], false, None)
      else if comment.Some? && (run.None? || comment.value < run.value) then
        Prepend(line[i..comment.value], Strip(line, matching, comment.value + 4, true, None))
      else
        var e := RunEnd(line, run.value, '`');
        if run.value !in matching then Prepend(line[i..e], Strip(line, matching, e, false, None))
        else Prepend(line[i..run.value], Strip(line, matching, e, false, Some(RunLen(line, run.value))))
  }

  function Prepend(prefix: string, r: Stripped): Stripped {
    r.(text := prefix + r.text)
  }

  // ----- pass two: the line states ----------------------------------------

  datatype Scan = Scan(fence: Option<Fence>, inComment: bool, inIndented: bool, codeOpen: Option<nat>, prevBlank: bool)
  datatype View = View(visible: Option<string>, hidden: bool)

  const START := Scan(None, false, false, None, true)

  function StepLine(s: Scan, line: string, matching: set<nat>): (r: (Scan, View))
    requires s.inComment ==> s.codeOpen.None?
    ensures r.0.inComment ==> r.0.codeOpen.None?
  {
    if s.fence.Some? then
      (s.(fence := if Closes(line, s.fence.value) then None else s.fence, prevBlank := Blank(line)),
       View(None, Closes(line, s.fence.value)))
    else if !s.inComment && s.codeOpen.None? && FenceOpener(line).Some? then
      (s.(fence := FenceOpener(line), prevBlank := false, inIndented := false), View(None, true))
    else if !s.inComment && s.codeOpen.None? && s.inIndented && (Blank(line) || IndentedCode(line)) then
      (s.(prevBlank := Blank(line)), View(None, true))
    else if !s.inComment && s.codeOpen.None? && s.prevBlank && IndentedCode(line) then
      (s.(inIndented := true, prevBlank := Blank(line)), View(None, true))
    else
      var r := Strip(line, matching, 0, s.inComment, if Blank(line) then None else s.codeOpen);
      (Scan(None, r.inComment, s.inIndented && (s.inComment || s.codeOpen.Some?), r.codeOpen, Blank(line)),
       View(Some(r.text), false))
  }

  /** The scanner's variables before line `n`. */
  ghost function StateAt(lines: seq<string>, n: nat): (s: Scan)
    requires n <= |lines|
    ensures s.inComment ==> s.codeOpen.None?
  {
    if n == 0 then START else StepLine(StateAt(lines, n - 1), lines[n - 1], PairedRuns(lines, n - 1)).0
  }

  ghost function ViewAt(lines: seq<string>, n: nat): View
    requires n < |lines|
  {
    StepLine(StateAt(lines, n), lines[n], PairedRuns(lines, n)).1
  }

  ghost function Views(lines: seq<string>): seq<View> {
    seq(|lines|, n requires 0 <= n < |lines| => ViewAt(lines, n))
  }

  // ----- the two passes agree ---------------------------------------------

  /** A span of `n` backticks open before (l, p) has its closer there or later in the same block. */
  ghost predicate Owed(lines: seq<string>, l: nat, p: nat, n: nat) {
    exists l2, s2 :: l <= l2 < |lines| && (l == l2 ==> p <= s2) && SameBlock(lines, l, l2) && RunAt(lines[l2], s2)
        && RunLen(lines[l2], s2) == n
  }

  /** A closer that is owed but not on this line is on a later line of the block, so the next line continues it. */
  lemma OwedMovesOn(lines: seq<string>, l: nat, p: nat, n: nat)
    requires l < |lines| && OffRun(lines[l], p) && Owed(lines, l, p, n) && NextRunOf(lines[l], p, n).None?
    ensures l + 1 < |lines| && !Boundary(lines[l + 1]) && Owed(lines, l + 1, 0, n)
  {
    var l2, s2 :| l <= l2 < |lines| && (l == l2 ==> p <= s2) && SameBlock(lines, l, l2)
                  && RunAt(lines[l2], s2) && RunLen(lines[l2], s2) == n;
    assert l != l2;
    assert SameBlock(lines, l + 1, l2);
  }

  lemma OpenerOwes(lines: seq<string>, l: nat, s: nat)
    requires l < |lines| && RunAt(lines[l], s) && Paired(lines, l, s)
    ensures Owed(lines, l, RunEnd(lines[l], s, '`'), RunLen(lines[l], s))
  {
    var l2, s2 :| Closer(lines, l, s, l2, s2);
    assert l == l2 ==> RunEnd(lines[l], s, '`') <= s2;
  }

  /** What a line hands to the next one: an open span only if its closer is still to come in the block. */
  ghost predicate Promised(lines: seq<string>, l: nat, codeOpen: Option<nat>) {
    codeOpen.Some? ==> l + 1 < |lines| && !Boundary(lines[l + 1]) && Owed(lines, l + 1, 0, codeOpen.value)
  }

  lemma {:induction false} StripKeepsPromise(lines: seq<string>, l: nat, i: nat, matching: set<nat>, inComment: bool,
                                             codeOpen: Option<nat>)
    requires l < |lines| && OffRun(lines[l], i) && (inComment ==> codeOpen.None?)
    requires codeOpen.Some? ==> Owed(lines, l, i, codeOpen.value)
    requires forall s :: s in matching ==> Paired(lines, l, s)
    ensures Promised(lines, l, Strip(lines[l], matching, i, inComment, codeOpen).codeOpen)
    decreases |lines[l]| - i, inComment, codeOpen.Some?, 1
  {
    var line := lines[l];
    if codeOpen.Some? {
      var c := NextRunOf(line, i, codeOpen.value);
      if c.Some? {
        StripKeepsPromise(lines, l, RunEnd(line, c.value, '`'), matching, false, None);
      } else {
        OwedMovesOn(lines, l, i, codeOpen.value);
      }
    } else if i == |line| {
    } else if inComment {
      var c := FindClose(line, i);
      if c.Some? {
        StripKeepsPromise(lines, l, c.value + 3, matching, false, None);
      }
    } else {
      TextKeepsPromise(lines, l, i, matching);
    }
  }

  lemma {:induction false} TextKeepsPromise(lines: seq<string>, l: nat, i: nat, matching: set<nat>)
    requires l < |lines| && OffRun(lines[l], i) && i < |lines[l]|
    requires forall s :: s in matching ==> Paired(lines, l, s)
    ensures Promised(lines, l, Strip(lines[l], matching, i, false, None).codeOpen)
    decreases |lines[l]| - i, false, false, 0
  {
    var line := lines[l];
    var comment := FindOpen(line, i);
    var run := NextRun(line, i);
    if comment.None? && run.None? {
    } else if comment.Some? && (run.None? || comment.value < run.value) {
      StripKeepsPromise(lines, l, comment.value + 4, matching, true, None);
    } else {
      var e := RunEnd(line, run.value, '`');
      assert RunAt(line, run.value);
      if run.value !in matching {
        StripKeepsPromise(lines, l, e, matching, false, None);
      } else {
        assert Paired(lines, l, run.value);
        OpenerOwes(lines, l, run.value);
        StripKeepsPromise(lines, l, e, matching, false, Some(RunLen(line, run.value)));
      }
    }
  }

  lemma StepKeepsPromise(lines: seq<string>, l: nat, s: Scan, matching: set<nat>)
    requires l < |lines| && (s.inComment ==> s.codeOpen.None?) && (s.fence.Some? ==> s.codeOpen.None?)
    requires s.codeOpen.Some? ==> Owed(lines, l, 0, s.codeOpen.value)
    requires forall m :: m in matching ==> Paired(lines, l, m)
    ensures var r := StepLine(s, lines[l], matching).0;
            Promised(lines, l, r.codeOpen) && (r.fence.Some? ==> r.codeOpen.None?)
  {
    var codeOpen := if Blank(lines[l]) then None else s.codeOpen;
    StripKeepsPromise(lines, l, 0, matching, s.inComment, codeOpen);
  }

  /** A span that is open at the start of a line has its closer there or later in the same block. */
  lemma {:induction false} OpenSpanIsOwed(lines: seq<string>, n: nat)
    requires n <= |lines|
    ensures var s := StateAt(lines, n);
            && (s.fence.Some? ==> s.codeOpen.None?)
            && (s.codeOpen.Some? ==> n < |lines| && !Boundary(lines[n]) && Owed(lines, n, 0, s.codeOpen.value))
  {
    if n > 0 {
      OpenSpanIsOwed(lines, n - 1);
      var runs := PairedRuns(lines, n - 1);
      StepKeepsPromise(lines, n - 1, StateAt(lines, n - 1), runs);
      assert Promised(lines, n - 1, StateAt(lines, n).codeOpen);
    }
  }

  /** The two passes agree: no span is open at a block boundary or at the end of the file, so the reset on a
      blank line assigns None to None, and a span only ever hides text up to a closer in its own block. */
  lemma SpansCloseInTheirBlock(lines: seq<string>)
    ensures StateAt(lines, |lines|).codeOpen == None
    ensures forall n :: 0 <= n < |lines| && Boundary(lines[n]) ==> StateAt(lines, n).codeOpen == None
    ensures forall n :: 0 <= n < |lines| && Blank(lines[n]) ==> StateAt(lines, n).codeOpen == None
  {
    forall n | 0 <= n <= |lines|
      ensures StateAt(lines, n).codeOpen.Some? ==> n < |lines| && !Boundary(lines[n])
    {
      OpenSpanIsOwed(lines, n);
    }
  }

  /** An unpaired run is literal text: a line whose runs have no closer and that opens no comment is all visible. */
  lemma {:induction false} UnpairedRunsAreText(line: string, matching: set<nat>, i: nat)
    requires OffRun(line, i)
    requires forall k :: i <= k ==> !OpensComment(line, k)
    requires forall s :: RunAt(line, s) ==> s !in matching
    ensures Strip(line, matching, i, false, None) == Stripped(line[i..], false, None)
    decreases |line| - i
  {
    var run := NextRun(line, i);
    if i < |line| && run.Some? {
      assert RunAt(line, run.value);
      var e := RunEnd(line, run.value, '`');
      UnpairedRunsAreText(line, matching, e);
      assert line[i..e] + line[e..] == line[i..];
    }
  }

  // ----- declarations -----------------------------------------------------

  datatype Declaration = Declaration(lineNo: nat, value: string, heading: bool)

  /** The line that ends the header: a visible section heading other than a Status heading. */
  predicate EndsHeader(v: View) {
    !v.hidden && v.visible.Some? && SectionHeading(v.visible.value) && !StatusHeading(v.visible.value)
  }

  /** The value of a heading-form declaration: the first visible text at or after `j`, unless a hidden line comes
      first. */
  function FirstValue(views: seq<View>, j: nat): seq<Declaration>
    decreases |views| - j
  {
    if j >= |views| || views[j].hidden then []
    else if views[j].visible.Some? && !Blank(views[j].visible.value)
    then [Declaration(j + 1, Trim(views[j].visible.value), true)]
    else FirstValue(views, j + 1)
  }

  function Inline(i: nat, values: seq<string>): seq<Declaration> {
    seq(|values|, k requires 0 <= k < |values| => Declaration(i + 1, values[k], false))
  }

  /** The declarations one line makes. `inlineValues` reads the label values off a visible line; it stands for
      the inline-form expressions. */
  function DeclaredOn(views: seq<View>, i: nat, inlineValues: string -> seq<string>): seq<Declaration>
    requires i < |views|
  {
    if views[i].hidden || views[i].visible.None? then []
    else if StatusHeading(views[i].visible.value) then FirstValue(views, i + 1)
    else Inline(i, inlineValues(views[i].visible.value))
  }

  function Declared(views: seq<View>, i: nat, inlineValues: string -> seq<string>): seq<Declaration>
    requires i <= |views|
    decreases |views| - i
  {
    if i == |views| || EndsHeader(views[i]) then []
    else DeclaredOn(views, i, inlineValues) + Declared(views, i + 1, inlineValues)
  }

  // ----- the header's scope -----------------------------------------------

  lemma PairedRunsAreLocal(lines: seq<string>, other: seq<string>, h: nat, l: nat)
    requires l <= h < |lines| && h < |other| && lines[..h + 1] == other[..h + 1] && Boundary(lines[h])
    ensures PairedRuns(lines, l) == PairedRuns(other, l)
  {
    assert forall m :: 0 <= m <= h ==> lines[m] == lines[..h + 1][m] == other[m];
    forall s ensures Paired(lines, l, s) <==> Paired(other, l, s) {
      if Paired(lines, l, s) {
        var l2, s2 :| Closer(lines, l, s, l2, s2);
        assert Closer(other, l, s, l2, s2);
      }
      if Paired(other, l, s) {
        var l2, s2 :| Closer(other, l, s, l2, s2);
        assert Closer(lines, l, s, l2, s2);
      }
    }
  }

  lemma {:induction false} StatesAreLocal(lines: seq<string>, other: seq<string>, h: nat, n: nat)
    requires n <= h + 1 <= |lines| && h < |other| && lines[..h + 1] == other[..h + 1] && Boundary(lines[h])
    ensures StateAt(lines, n) == StateAt(other, n)
    ensures n <= h ==> ViewAt(lines, n) == ViewAt(other, n)
  {
    assert forall m :: 0 <= m <= h ==> lines[m] == lines[..h + 1][m] == other[m];
    if n > 0 {
      StatesAreLocal(lines, other, h, n - 1);
      PairedRunsAreLocal(lines, other, h, n - 1);
    }
    if n <= h {
      PairedRunsAreLocal(lines, other, h, n);
    }
  }

  lemma {:induction false} FirstValueIsLocal(a: seq<View>, b: seq<View>, h: nat, j: nat)
    requires j <= h < |a| && h < |b| && EndsHeader(a[h]) && forall m :: 0 <= m <= h ==> a[m] == b[m]
    ensures FirstValue(a, j) == FirstValue(b, j)
    decreases h - j
  {
    if j < h {
      FirstValueIsLocal(a, b, h, j + 1);
    } else {
      HeadingHasText(a[h].visible.value);
    }
  }

  lemma HeadingHasText(line: string)
    requires SectionHeading(line)
    ensures !Blank(line)
  {
    var i := RunEnd(line, 0, ' ');
    assert line[i] == '#';
  }

  lemma {:induction false} DeclaredIsLocal(a: seq<View>, b: seq<View>, h: nat, i: nat,
                                           inlineValues: string -> seq<string>)
    requires i <= h < |a| && h < |b| && EndsHeader(a[h]) && forall m :: 0 <= m <= h ==> a[m] == b[m]
    ensures Declared(a, i, inlineValues) == Declared(b, i, inlineValues)
    decreases h - i
  {
    hide SectionHeading, StatusHeading, Trim, Blank;
    if i < h {
      FirstValueIsLocal(a, b, h, i + 1);
      DeclaredIsLocal(a, b, h, i + 1, inlineValues);
    }
  }

  /** Header scope: once a line is both a block boundary and a visible section heading, nothing written after
      it can add, remove or change a declaration. */
  lemma HeaderScope(lines: seq<string>, h: nat, rest: seq<string>, inlineValues: string -> seq<string>)
    requires h < |lines| && Boundary(lines[h]) && EndsHeader(ViewAt(lines, h))
    ensures Declared(Views(lines[..h + 1] + rest), 0, inlineValues) == Declared(Views(lines), 0, inlineValues)
  {
    var other := lines[..h + 1] + rest;
    assert other[..h + 1] == lines[..h + 1];
    forall m | 0 <= m <= h ensures Views(lines)[m] == Views(other)[m] {
      StatesAreLocal(lines, other, h, m);
    }
    DeclaredIsLocal(Views(lines), Views(other), h, 0, inlineValues);
  }
}
