/**
 Fenced and indented code by its raw lines: none of it is visible, none of it declares anything, and what stands inside
 it makes no difference to the rest of the document. Likewise for comments that go on over several lines.
 */
module HiddenBlocks {
  import opened Wrappers
  import opened Chars
  import opened MarkdownLines
  import opened HeaderScan

  // ----- raw lines --------------------------------------------------------

  /** Characters [a, b) are all `c`. */
  predicate Filled(line: string, a: nat, b: nat, c: char) {
    a <= b <= |line| && forall k :: a <= k < b ==> line[k] == c
  }

  /** Up to three spaces, then a run of `n` marks, three at least; no backtick after a run of backticks. */
  ghost predicate OpensWith(line: string, mark: char, n: nat) {
    exists i: nat :: OpensAt(line, i, mark, n)
  }

  predicate OpensAt(line: string, i: nat, mark: char, n: nat) {
    && i <= 3 && n >= 3 && (mark == '`' || mark == '~')
    && Filled(line, 0, i, ' ') && Filled(line, i, i + n, mark) && (i + n == |line| || line[i + n] != mark)
    && (mark == '`' ==> forall k :: i + n <= k < |line| ==> line[k] != '`')
  }

  /** Up to three spaces, then at least `n` marks and nothing but spaces and tabs. */
  ghost predicate ClosesWith(line: string, mark: char, n: nat) {
    exists i: nat, e: nat :: ClosesAt(line, i, e, mark, n)
  }

  predicate ClosesAt(line: string, i: nat, e: nat, mark: char, n: nat) {
    && i <= 3 && i + n <= e <= |line| && Filled(line, 0, i, ' ') && Filled(line, i, e, mark)
    && forall k :: e <= k < |line| ==> line[k] == ' ' || line[k] == '\t'
  }

  /** Four spaces at least, or a tab, and then something that is no white space. */
  ghost predicate Indented(line: string) {
    || (exists i: nat :: 4 <= i < |line| && Filled(line, 0, i, ' ') && !Space(line[i]))
    || (|line| >= 2 && line[0] == '\t' && !Space(line[1]))
  }

  lemma {:induction false} RunIsFilled(line: string, a: nat, e: nat, c: char)
    requires Filled(line, a, e, c) && (e == |line| || line[e] != c)
    ensures RunEnd(line, a, c) == e
    decreases e - a
  {
    if a < e {
      RunIsFilled(line, a + 1, e, c);
    }
  }

  lemma OpenerExactly(line: string, mark: char, n: nat)
    ensures FenceOpener(line) == Some(Fence(mark, n)) <==> OpensWith(line, mark, n)
  {
    var i := RunEnd(line, 0, ' ');
    if FenceOpener(line) == Some(Fence(mark, n)) {
      assert OpensAt(line, i, mark, n);
    }
    if j: nat :| OpensAt(line, j, mark, n) {
      RunIsFilled(line, 0, j, ' ');
      RunIsFilled(line, j, j + n, mark);
      assert '`' in line[j + n..] ==> exists k :: j + n <= k < |line| && line[k] == '`';
    }
  }

  lemma CloserExactly(line: string, mark: char, n: nat)
    requires n >= 1 && mark != ' ' && mark != '\t'
    ensures Closes(line, Fence(mark, n)) <==> ClosesWith(line, mark, n)
  {
    var i := RunEnd(line, 0, ' ');
    if Closes(line, Fence(mark, n)) {
      assert ClosesAt(line, i, RunEnd(line, i, mark), mark, n);
    }
    if j: nat, e: nat :| ClosesAt(line, j, e, mark, n) {
      assert line[j] == mark;
      RunIsFilled(line, 0, j, ' ');
      RunIsFilled(line, j, e, mark);
    }
  }

  lemma IndentedExactly(line: string)
    ensures IndentedCode(line) <==> Indented(line)
  {
    var i := RunEnd(line, 0, ' ');
    assert Filled(line, 0, i, ' ');
    if j: nat :| 4 <= j < |line| && Filled(line, 0, j, ' ') && !Space(line[j]) {
      RunIsFilled(line, 0, j, ' ');
    }
  }

  // ----- declarations stand on visible lines ------------------------------

  /** The line is visible text. */
  predicate Shown(views: seq<View>, n: int) {
    0 <= n < |views| && views[n].visible.Some? && !views[n].hidden
  }

  lemma {:induction false} FirstValueIsShown(views: seq<View>, j: nat)
    ensures forall d :: d in FirstValue(views, j) ==> Shown(views, d.lineNo as int - 1)
    decreases |views| - j
  {
    hide Blank, Trim;
    if j < |views| && !views[j].hidden && (views[j].visible.None? || Blank(views[j].visible.value)) {
      FirstValueIsShown(views, j + 1);
    }
  }

  /** Whatever the label expressions are, a declaration stands on a visible line. */
  lemma {:induction false} DeclaredIsShown(views: seq<View>, i: nat, inlineValues: string -> seq<string>)
    requires i <= |views|
    ensures forall d :: d in Declared(views, i, inlineValues) ==> Shown(views, d.lineNo as int - 1)
    decreases |views| - i
  {
    hide EndsHeader, StatusHeading;
    if i < |views| {
      FirstValueIsShown(views, i + 1);
      DeclaredIsShown(views, i + 1, inlineValues);
    }
  }

  // ----- fenced code ------------------------------------------------------

  /** The scanner is in no comment, no span and no fence before line `o`. */
  ghost predicate InText(lines: seq<string>, o: nat)
    requires o <= |lines|
  {
    var s := StateAt(lines, o);
    s.fence.None? && !s.inComment && s.codeOpen.None?
  }

  /** Line `o` opens a fence in text, and none of the lines up to `n` closes it. */
  ghost predicate Fenced(lines: seq<string>, o: nat, n: nat, mark: char, length: nat) {
    && o <= n < |lines| && InText(lines, o) && OpensWith(lines[o], mark, length)
    && forall l :: o < l <= n ==> !ClosesWith(lines[l], mark, length)
  }

  ghost predicate InFence(s: Scan, mark: char, length: nat) {
    s.fence == Some(Fence(mark, length)) && !s.inComment && !s.inIndented && s.codeOpen.None?
  }

  lemma {:induction false} FenceStaysOpen(lines: seq<string>, o: nat, n: nat, mark: char, length: nat)
    requires Fenced(lines, o, n, mark, length)
    ensures InFence(StateAt(lines, n + 1), mark, length)
    ensures ViewAt(lines, n) == View(None, n == o)
    decreases n
  {
    hide Closes, FenceOpener, Strip, IndentedCode, Blank;
    OpenerExactly(lines[o], mark, length);
    if n > o {
      FenceStaysOpen(lines, o, n - 1, mark, length);
      CloserExactly(lines[n], mark, length);
    }
  }

  /** Fenced code is not visible, and nothing in it is declared. */
  lemma FencedIsHidden(lines: seq<string>, o: nat, n: nat, mark: char, length: nat, inlineValues: string -> seq<string>)
    requires Fenced(lines, o, n, mark, length)
    ensures forall l :: o <= l <= n ==> Views(lines)[l].visible.None?
    ensures forall d :: d in Declared(Views(lines), 0, inlineValues) ==> !(o < d.lineNo <= n + 1)
  {
    hide Declared, StateAt;
    forall l | o <= l <= n ensures Views(lines)[l].visible.None? {
      FenceStaysOpen(lines, o, l, mark, length);
    }
    DeclaredIsShown(Views(lines), 0, inlineValues);
  }

  /** The documents agree outside (o, n]. */
  ghost predicate SameAround(lines: seq<string>, other: seq<string>, o: nat, n: nat) {
    && o <= n < |lines| && |other| == |lines| && lines[..o + 1] == other[..o + 1] && lines[n + 1..] == other[n + 1..]
  }

  lemma SameLater(lines: seq<string>, other: seq<string>, o: nat, n: nat, l: nat)
    requires SameAround(lines, other, o, n) && n < l < |lines|
    ensures lines[l] == other[l] && PairedRuns(lines, l) == PairedRuns(other, l)
  {
    forall m | l <= m < |lines| ensures lines[m] == other[m] {
      assert lines[m] == lines[n + 1..][m - n - 1] && other[m] == other[n + 1..][m - n - 1];
    }
    hide Boundary;
    forall s ensures Paired(lines, l, s) <==> Paired(other, l, s) {
      if Paired(lines, l, s) {
        var l2, s2 :| Closer(lines, l, s, l2, s2);
        assert Closer(other, l, s, l2, s2);
      }
      if Paired(other, l, s) {
        var l2, s2 :| Closer(other, l, s, l2, s2);
        assert Closer(lines, l, s, l2, s2);
      }
    }
  }

  lemma OpenerIsBoundary(lines: seq<string>, o: nat, mark: char, length: nat)
    requires o < |lines| && OpensWith(lines[o], mark, length)
    ensures Boundary(lines[o]) && FenceOpener(lines[o]) == Some(Fence(mark, length))
  {
    OpenerExactly(lines[o], mark, length);
  }

  /** After the line that closes the fence nothing of its inside is left in the scanner. */
  lemma {:induction false} SameAfterFence(lines: seq<string>, other: seq<string>, o: nat, n: nat, mark: char,
                                          length: nat, l: nat)
    requires SameAround(lines, other, o, n) && Fenced(lines, o, n, mark, length) && Fenced(other, o, n, mark, length)
    requires n < l < |lines| && ClosesWith(lines[n + 1], mark, length)
    ensures StateAt(lines, l + 1) == StateAt(other, l + 1) && ViewAt(lines, l) == ViewAt(other, l)
    decreases l
  {
    hide Closes, FenceOpener, Strip, IndentedCode, Blank, ClosesWith, Fenced, SameAround;
    SameLater(lines, other, o, n, l);
    if l == n + 1 {
      FenceStaysOpen(lines, o, n, mark, length);
      FenceStaysOpen(other, o, n, mark, length);
      FenceIsProper(lines, o, n, mark, length);
      CloserExactly(lines[l], mark, length);
    } else {
      SameAfterFence(lines, other, o, n, mark, length, l - 1);
    }
  }

  lemma FenceIsProper(lines: seq<string>, o: nat, n: nat, mark: char, length: nat)
    requires Fenced(lines, o, n, mark, length)
    ensures length >= 3 && mark != ' ' && mark != '\t'
  {
  }

  lemma SameBeforeFence(lines: seq<string>, other: seq<string>, o: nat, n: nat, mark: char, length: nat, l: nat)
    requires SameAround(lines, other, o, n) && OpensWith(lines[o], mark, length) && l <= o
    ensures StateAt(lines, l) == StateAt(other, l) && ViewAt(lines, l) == ViewAt(other, l)
  {
    OpenerIsBoundary(lines, o, mark, length);
    StatesAreLocal(lines, other, o, l);
  }

  /** Whatever lines that do not close the fence stand inside it, the document looks the same and declares the same. */
  lemma FencedMakesNoDifference(lines: seq<string>, other: seq<string>, o: nat, n: nat, mark: char, length: nat)
    requires SameAround(lines, other, o, n) && Fenced(lines, o, n, mark, length)
    requires forall l :: o < l <= n ==> !ClosesWith(other[l], mark, length)
    requires n + 1 < |lines| ==> ClosesWith(lines[n + 1], mark, length)
    ensures Views(lines) == Views(other)
  {
    hide ClosesWith, StateAt, ViewAt, OpensWith;
    assert other[o] == other[..o + 1][o] == lines[..o + 1][o] == lines[o];
    SameBeforeFence(lines, other, o, n, mark, length, o);
    assert Fenced(other, o, n, mark, length);
    forall l | 0 <= l < |lines| ensures ViewAt(lines, l) == ViewAt(other, l) {
      if l <= o {
        SameBeforeFence(lines, other, o, n, mark, length, l);
      } else if l <= n {
        FencedUpTo(lines, o, n, mark, length, l);
        FencedUpTo(other, o, n, mark, length, l);
        FenceStaysOpen(lines, o, l, mark, length);
        FenceStaysOpen(other, o, l, mark, length);
      } else {
        SameAfterFence(lines, other, o, n, mark, length, l);
      }
    }
  }

  lemma FencedUpTo(lines: seq<string>, o: nat, n: nat, mark: char, length: nat, l: nat)
    requires Fenced(lines, o, n, mark, length) && o <= l <= n
    ensures Fenced(lines, o, l, mark, length)
  {
  }

  // ----- indented code ----------------------------------------------------

  /** The scanner knows whether the line before was blank; the first line counts as after a blank one. */
  lemma {:induction false} PrevBlankExactly(lines: seq<string>, n: nat)
    requires n <= |lines|
    ensures StateAt(lines, n).prevBlank <==> n == 0 || Blank(lines[n - 1])
  {
    hide Closes, Strip, IndentedCode, FenceOpener;
    if n > 0 && FenceOpener(lines[n - 1]).Some? {
      FenceIsNotBlank(lines[n - 1]);
    }
  }

  lemma FenceIsNotBlank(line: string)
    requires FenceOpener(line).Some?
    ensures !Blank(line)
  {
    assert !Space(line[RunEnd(line, 0, ' ')]);
  }

  lemma IndentedIsPlain(line: string)
    requires Indented(line)
    ensures !Blank(line) && FenceOpener(line).None?
  {
    IndentedExactly(line);
    var i := RunEnd(line, 0, ' ');
    if i < 4 {
      assert line[0] == '\t' && !Space(line[1]);
    } else {
      assert !Space(line[i]);
    }
  }

  /** In text, after a blank line or at the top, an indented line starts a region, which goes on over blank and indented
      lines up to `n`. */
  ghost predicate Region(lines: seq<string>, o: nat, n: nat) {
    && o <= n < |lines| && InText(lines, o) && (o == 0 || Blank(lines[o - 1])) && Indented(lines[o])
    && forall l :: o < l <= n ==> Blank(lines[l]) || Indented(lines[l])
  }

  lemma {:induction false} RegionGoesOn(lines: seq<string>, o: nat, n: nat)
    requires Region(lines, o, n)
    ensures StateAt(lines, n + 1) == Scan(None, false, true, None, Blank(lines[n]))
    ensures ViewAt(lines, n) == View(None, true)
    decreases n
  {
    hide Closes, Strip, Indented, IndentedCode, FenceOpener, Blank;
    IndentedExactly(lines[n]);
    if n == o {
      IndentedIsPlain(lines[o]);
      PrevBlankExactly(lines, o);
    } else {
      RegionGoesOn(lines, o, n - 1);
      if Indented(lines[n]) {
        IndentedIsPlain(lines[n]);
      } else {
        BlankIsPlain(lines[n]);
      }
    }
  }

  lemma BlankIsPlain(line: string)
    requires Blank(line)
    ensures FenceOpener(line).None?
  {
    if FenceOpener(line).Some? {
      FenceIsNotBlank(line);
    }
  }

  /** Indented code is not visible, and nothing in it is declared. */
  lemma RegionIsHidden(lines: seq<string>, o: nat, n: nat, inlineValues: string -> seq<string>)
    requires Region(lines, o, n)
    ensures forall l :: o <= l <= n ==> Views(lines)[l] == View(None, true)
    ensures forall d :: d in Declared(Views(lines), 0, inlineValues) ==> !(o < d.lineNo <= n + 1)
  {
    hide Declared, StateAt, Indented, Blank;
    forall l | o <= l <= n ensures Views(lines)[l] == View(None, true) {
      RegionGoesOn(lines, o, l);
    }
    DeclaredIsShown(Views(lines), 0, inlineValues);
  }

  /** What follows the region sees nothing of it but that it was there. */
  lemma {:induction false} SameAfterRegion(lines: seq<string>, other: seq<string>, o: nat, n: nat, l: nat)
    requires SameAround(lines, other, o, n) && Region(lines, o, n) && Region(other, o, n)
    requires n < l < |lines| && !Blank(lines[n + 1]) && !Indented(lines[n + 1])
    ensures StateAt(lines, l + 1) == StateAt(other, l + 1) && ViewAt(lines, l) == ViewAt(other, l)
    decreases l
  {
    hide Closes, FenceOpener, Strip, IndentedCode, Indented, Blank, Region, SameAround;
    SameLater(lines, other, o, n, l);
    if l == n + 1 {
      RegionGoesOn(lines, o, n);
      RegionGoesOn(other, o, n);
      IndentedExactly(lines[l]);
    } else {
      SameAfterRegion(lines, other, o, n, l - 1);
    }
  }

  /** Nothing before a region sees any of it: the line before it is blank. */
  lemma SameBeforeRegion(lines: seq<string>, other: seq<string>, o: nat, n: nat, l: nat)
    requires SameAround(lines, other, o, n) && (o == 0 || Blank(lines[o - 1])) && l <= o
    ensures StateAt(lines, l) == StateAt(other, l) && (l < o ==> ViewAt(lines, l) == ViewAt(other, l))
  {
    if o > 0 {
      assert lines[..o] == lines[..o + 1][..o] && other[..o] == other[..o + 1][..o];
      StatesAreLocal(lines, other, o - 1, l);
    }
  }

  /** Whatever blank and indented lines continue the region, the document looks the same and declares the same. */
  lemma RegionMakesNoDifference(lines: seq<string>, other: seq<string>, o: nat, n: nat)
    requires SameAround(lines, other, o, n) && Region(lines, o, n)
    requires forall l :: o < l <= n ==> Blank(other[l]) || Indented(other[l])
    requires n + 1 < |lines| ==> !Blank(lines[n + 1]) && !Indented(lines[n + 1])
    ensures Views(lines) == Views(other)
  {
    hide Blank, Indented, StateAt, ViewAt;
    assert other[o] == other[..o + 1][o] == lines[..o + 1][o] == lines[o];
    assert o > 0 ==> other[o - 1] == other[..o + 1][o - 1] == lines[..o + 1][o - 1] == lines[o - 1];
    SameBeforeRegion(lines, other, o, n, o);
    assert Region(other, o, n);
    forall l | 0 <= l < |lines| ensures ViewAt(lines, l) == ViewAt(other, l) {
      if l < o {
        SameBeforeRegion(lines, other, o, n, l);
      } else if l <= n {
        assert Region(lines, o, l) && Region(other, o, l);
        RegionGoesOn(lines, o, l);
        RegionGoesOn(other, o, l);
      } else {
        SameAfterRegion(lines, other, o, n, l);
      }
    }
  }

  // ----- nothing else is hidden -------------------------------------------

  ghost predicate InSomeFence(lines: seq<string>, n: nat, f: Fence) {
    exists o: nat :: Fenced(lines, o, n, f.mark, f.length)
  }

  ghost predicate InSomeRegion(lines: seq<string>, n: nat) {
    exists o: nat :: Region(lines, o, n)
  }

  /** The line closes a fence that the lines before it leave open. */
  ghost predicate ClosesFence(lines: seq<string>, n: nat) {
    0 < n < |lines| && exists f :: InSomeFence(lines, n - 1, f) && ClosesWith(lines[n], f.mark, f.length)
  }

  /** What the scanner's variables say about the lines before `n`. */
  ghost predicate StateMeans(lines: seq<string>, n: nat)
    requires n <= |lines|
  {
    var s := StateAt(lines, n);
    && (s.fence.Some? ==>
        n > 0 && InFence(s, s.fence.value.mark, s.fence.value.length) && InSomeFence(lines, n - 1, s.fence.value))
    && (s.inIndented ==> n > 0 && !s.inComment && s.codeOpen.None? && s.fence.None? && InSomeRegion(lines, n - 1))
  }

  lemma FenceExtends(lines: seq<string>, n: nat, f: Fence)
    requires InSomeFence(lines, n, f) && n + 1 < |lines| && !ClosesWith(lines[n + 1], f.mark, f.length)
    ensures InSomeFence(lines, n + 1, f)
  {
    hide OpensWith, ClosesWith, InText;
    var o: nat :| Fenced(lines, o, n, f.mark, f.length);
    assert Fenced(lines, o, n + 1, f.mark, f.length);
  }

  lemma RegionExtends(lines: seq<string>, n: nat)
    requires InSomeRegion(lines, n) && n + 1 < |lines| && (Blank(lines[n + 1]) || Indented(lines[n + 1]))
    ensures InSomeRegion(lines, n + 1)
  {
    hide Blank, Indented, InText;
    var o: nat :| Region(lines, o, n);
    assert Region(lines, o, n + 1);
  }

  lemma FenceIsReal(lines: seq<string>, n: nat, f: Fence)
    requires InSomeFence(lines, n, f)
    ensures f.length >= 3 && f.mark != ' ' && f.mark != '\t'
  {
    var o: nat :| Fenced(lines, o, n, f.mark, f.length);
    FenceIsProper(lines, o, n, f.mark, f.length);
  }

  lemma {:induction false} StatesMean(lines: seq<string>, n: nat)
    requires n <= |lines|
    ensures StateMeans(lines, n)
  {
    hide Closes, FenceOpener, IndentedCode, Blank, Strip, InSomeFence, InSomeRegion, OpensWith, ClosesWith, Indented;
    if n > 0 {
      var l := n - 1;
      var s, line := StateAt(lines, l), lines[l];
      StatesMean(lines, l);
      if s.fence.Some? {
        FenceIsReal(lines, l - 1, s.fence.value);
        CloserExactly(line, s.fence.value.mark, s.fence.value.length);
        if !Closes(line, s.fence.value) {
          FenceExtends(lines, l - 1, s.fence.value);
        }
      } else if !s.inComment && s.codeOpen.None? && FenceOpener(line).Some? {
        FenceStarts(lines, l);
      } else if !s.inComment && s.codeOpen.None? && s.inIndented && (Blank(line) || IndentedCode(line)) {
        IndentedExactly(line);
        RegionExtends(lines, l - 1);
      } else if !s.inComment && s.codeOpen.None? && s.prevBlank && IndentedCode(line) {
        RegionStarts(lines, l);
      }
    }
  }

  lemma FenceStarts(lines: seq<string>, l: nat)
    requires l < |lines| && InText(lines, l) && FenceOpener(lines[l]).Some?
    ensures InSomeFence(lines, l, FenceOpener(lines[l]).value)
  {
    hide FenceOpener, OpensWith;
    var f := FenceOpener(lines[l]).value;
    OpenerExactly(lines[l], f.mark, f.length);
    assert Fenced(lines, l, l, f.mark, f.length);
  }

  lemma RegionStarts(lines: seq<string>, l: nat)
    requires l < |lines| && InText(lines, l) && StateAt(lines, l).prevBlank && IndentedCode(lines[l])
    ensures InSomeRegion(lines, l)
  {
    hide IndentedCode, Indented, Blank, StateAt;
    IndentedExactly(lines[l]);
    PrevBlankExactly(lines, l);
    assert Region(lines, l, l);
  }

  /** A line is not visible exactly when it is fenced, closes a fence or is in a region of indented code. */
  lemma HiddenExactly(lines: seq<string>, n: nat)
    requires n < |lines|
    ensures ViewAt(lines, n).visible.None? <==>
            ((exists f :: InSomeFence(lines, n, f)) || ClosesFence(lines, n) || InSomeRegion(lines, n))
  {
    hide Closes, FenceOpener, IndentedCode, Blank, Strip, OpensWith, ClosesWith, Indented, StateAt;
    StatesMean(lines, n);
    if f :| InSomeFence(lines, n, f) {
      var o: nat :| Fenced(lines, o, n, f.mark, f.length);
      FenceStaysOpen(lines, o, n, f.mark, f.length);
    }
    if o: nat :| Region(lines, o, n) {
      RegionGoesOn(lines, o, n);
    }
    if ClosesFence(lines, n) {
      var f :| InSomeFence(lines, n - 1, f) && ClosesWith(lines[n], f.mark, f.length);
      ClosingIsHidden(lines, n, f);
    }
    if ViewAt(lines, n).visible.None? {
      HiddenHasReason(lines, n);
    }
  }

  lemma ClosingIsHidden(lines: seq<string>, n: nat, f: Fence)
    requires 0 < n < |lines| && InSomeFence(lines, n - 1, f) && ClosesWith(lines[n], f.mark, f.length)
    ensures ViewAt(lines, n) == View(None, true)
  {
    hide OpensWith, ClosesWith;
    var o: nat :| Fenced(lines, o, n - 1, f.mark, f.length);
    FenceStaysOpen(lines, o, n - 1, f.mark, f.length);
    FenceIsReal(lines, n - 1, f);
    CloserExactly(lines[n], f.mark, f.length);
  }

  lemma HiddenHasReason(lines: seq<string>, n: nat)
    requires n < |lines| && ViewAt(lines, n).visible.None?
    ensures (exists f :: InSomeFence(lines, n, f)) || ClosesFence(lines, n) || InSomeRegion(lines, n)
  {
    hide Closes, FenceOpener, IndentedCode, Blank, Strip, OpensWith, ClosesWith, Indented, InSomeFence, InSomeRegion,
        StateAt;
    StatesMean(lines, n);
    var s, line := StateAt(lines, n), lines[n];
    if s.fence.Some? {
      var f := s.fence.value;
      FenceIsReal(lines, n - 1, f);
      CloserExactly(line, f.mark, f.length);
      if !Closes(line, f) {
        FenceExtends(lines, n - 1, f);
      }
    } else if FenceOpener(line).Some? {
      FenceStarts(lines, n);
    } else if s.inIndented && (Blank(line) || IndentedCode(line)) {
      IndentedExactly(line);
      RegionExtends(lines, n - 1);
    } else {
      RegionStarts(lines, n);
    }
  }

  // ----- comments over several lines --------------------------------------

  /** Before line `o` the scanner is inside a comment, and none of the lines up to `n` closes it. */
  ghost predicate Commented(lines: seq<string>, o: nat, n: nat) {
    && o <= n < |lines| && StateAt(lines, o).inComment && StateAt(lines, o).fence.None?
    && forall l, k: nat :: o <= l <= n ==> !ClosesComment(lines[l], k)
  }

  lemma {:induction false} CommentGoesOn(lines: seq<string>, o: nat, n: nat)
    requires Commented(lines, o, n)
    ensures StateAt(lines, n + 1).inComment && StateAt(lines, n + 1).fence.None?
    ensures ViewAt(lines, n) == View(Some(""), false)
    decreases n
  {
    hide Closes, IndentedCode, FenceOpener, ClosesComment;
    if n > o {
      CommentGoesOn(lines, o, n - 1);
    }
  }

  /** A comment that the scanner is in hides whole lines, and what they would declare, until it is closed. */
  lemma CommentedIsHidden(lines: seq<string>, o: nat, n: nat)
    requires Commented(lines, o, n)
    ensures forall l :: o <= l <= n ==> Views(lines)[l] == View(Some(""), false)
  {
    hide StateAt, ClosesComment;
    forall l | o <= l <= n ensures Views(lines)[l] == View(Some(""), false) {
      assert Commented(lines, o, l);
      CommentGoesOn(lines, o, l);
    }
  }
}
