/** The scanner's own loops, each proved against its specification above. */
module HeaderLint {
  import opened Wrappers
  import opened Chars
  import opened MarkdownLines
  import opened HeaderScan
  import opened InlineForms

  // ----- the lookahead for closers ----------------------------------------

  ghost predicate RunBefore(lines: seq<string>, l: nat, s: nat, n: nat, p: nat, len: nat)
    requires n < |lines|
  {
    l < |lines| && Before(l, s, n, p) && SameBlock(lines, l, n) && RunAt(lines[l], s) && RunLen(lines[l], s) == len
  }

  /** `previous` holds, for each length, the last run of that length in the block of line `n` before (n, p). */
  ghost predicate Latest(lines: seq<string>, previous: map<nat, (nat, nat)>, n: nat, p: nat)
    requires n < |lines|
  {
    && (forall len :: len in previous ==> RunBefore(lines, previous[len].0, previous[len].1, n, p, len))
    && (forall l, s, len :: RunBefore(lines, l, s, n, p, len) ==>
          len in previous && !Before(previous[len].0, previous[len].1, l, s))
  }

  /** `matches` holds exactly the runs whose closer has been seen before (n, p). */
  ghost predicate Recorded(lines: seq<string>, matches: seq<set<nat>>, n: nat, p: nat) {
    && |matches| == |lines|
    && forall l: nat, s: nat :: l < |lines| ==> (s in matches[l] <==> PairedBefore(lines, l, s, n, p))
  }

  function Record(matches: seq<set<nat>>, previous: map<nat, (nat, nat)>, len: nat): seq<set<nat>>
    requires len in previous ==> previous[len].0 < |matches|
  {
    if len in previous
    then matches[previous[len].0 := matches[previous[len].0] + {previous[len].1}]
    else matches
  }

  lemma RecordRun(lines: seq<string>, matches: seq<set<nat>>, previous: map<nat, (nat, nat)>, n: nat, p: nat, s: nat)
    requires n < |lines| && RunAt(lines[n], s) && p <= s && forall k :: p <= k < s ==> !RunAt(lines[n], k)
    requires Latest(lines, previous, n, p) && Recorded(lines, matches, n, p)
    ensures Recorded(lines, Record(matches, previous, RunLen(lines[n], s)), n, RunEnd(lines[n], s, '`'))
  {
    var len, e := RunLen(lines[n], s), RunEnd(lines[n], s, '`');
    var after := Record(matches, previous, len);
    forall l: nat, r: nat | l < |lines| ensures r in after[l] <==> PairedBefore(lines, l, r, n, e) {
      if r in matches[l] {
        var l2, s2 :| Closer(lines, l, r, l2, s2) && Before(l2, s2, n, p);
        assert Before(l2, s2, n, e);
      } else if r in after[l] {
        assert Closer(lines, l, r, n, s) && Before(n, s, n, e);
      } else {
        NotYetPaired(lines, previous, n, p, s, l, r);
      }
    }
  }

  /** A run that is neither recorded nor the latest of its length gains no closer from the run at (n, s). */
  lemma NotYetPaired(lines: seq<string>, previous: map<nat, (nat, nat)>, n: nat, p: nat, s: nat, l: nat, r: nat)
    requires n < |lines| && RunAt(lines[n], s) && p <= s && forall k :: p <= k < s ==> !RunAt(lines[n], k)
    requires Latest(lines, previous, n, p) && !PairedBefore(lines, l, r, n, p)
    requires var len := RunLen(lines[n], s); len in previous ==> previous[len] != (l, r)
    ensures !PairedBefore(lines, l, r, n, RunEnd(lines[n], s, '`'))
  {
    var len, e := RunLen(lines[n], s), RunEnd(lines[n], s, '`');
    if PairedBefore(lines, l, r, n, e) {
      var l2, s2 :| Closer(lines, l, r, l2, s2) && Before(l2, s2, n, e);
      assert !Before(l2, s2, n, p);
      assert l2 == n && p <= s2 < e;
      assert s2 == s;
      assert RunBefore(lines, l, r, n, p, len);
      var q := previous[len];
      assert RunBefore(lines, q.0, q.1, n, p, len);
      assert SameBlock(lines, l, q.0);
      assert Closer(lines, l, r, q.0, q.1) && Before(q.0, q.1, n, p);
    }
  }

  lemma LatestRun(lines: seq<string>, previous: map<nat, (nat, nat)>, n: nat, p: nat, s: nat)
    requires n < |lines| && RunAt(lines[n], s) && p <= s && forall k :: p <= k < s ==> !RunAt(lines[n], k)
    requires Latest(lines, previous, n, p)
    ensures Latest(lines, previous[RunLen(lines[n], s) := (n, s)], n, RunEnd(lines[n], s, '`'))
  {
    var len, e := RunLen(lines[n], s), RunEnd(lines[n], s, '`');
    var after := previous[len := (n, s)];
    forall k | k in after ensures RunBefore(lines, after[k].0, after[k].1, n, e, k) {
      if k != len {
        assert RunBefore(lines, previous[k].0, previous[k].1, n, p, k);
      }
    }
    forall l, r, k | RunBefore(lines, l, r, n, e, k) ensures k in after && !Before(after[k].0, after[k].1, l, r) {
      if !Before(l, r, n, p) {
        assert l == n && r == s;
      } else {
        assert RunBefore(lines, l, r, n, p, k);
      }
    }
  }

  lemma CarryRun(lines: seq<string>, n: nat, p: nat, next: nat, l: nat, s: nat, len: nat)
    requires next == n + 1 < |lines| && OffRun(lines[n], p) && NextRun(lines[n], p).None?
    requires !Boundary(lines[n]) && !Boundary(lines[next])
    ensures RunBefore(lines, l, s, next, 0, len) <==> RunBefore(lines, l, s, n, p, len)
  {
    if l <= n {
      assert SameBlock(lines, l, next) <==> SameBlock(lines, l, n);
    }
  }

  /** What one line carries over to the next: nothing across a boundary, the latest runs otherwise. */
  lemma CarryOver(lines: seq<string>, previous: map<nat, (nat, nat)>, n: nat, p: nat, next: nat)
    requires next == n + 1 < |lines|
    requires OffRun(lines[n], p) && NextRun(lines[n], p).None? && Latest(lines, previous, n, p)
    ensures Latest(lines, if Boundary(lines[n]) || Boundary(lines[next]) then map[] else previous, next, 0)
  {
    if Boundary(lines[n]) || Boundary(lines[next]) {
      forall l, s, len ensures !RunBefore(lines, l, s, next, 0, len) {
      }
    } else {
      forall l, s, len ensures RunBefore(lines, l, s, next, 0, len) <==> RunBefore(lines, l, s, n, p, len) {
        CarryRun(lines, n, p, next, l, s, len);
      }
    }
  }

  /** One pass, in source order: a run is recorded exactly when an equal run follows it in its block. */
  method MatchingBacktickRuns(lines: seq<string>) returns (matches: seq<set<nat>>)
    ensures |matches| == |lines|
    ensures forall l :: 0 <= l < |lines| ==> matches[l] == PairedRuns(lines, l)
  {
    matches := seq(|lines|, _ => {});
    var previousByLength: map<nat, (nat, nat)> := map[];
    for n := 0 to |lines|
      invariant Recorded(lines, matches, n, 0)
      invariant n < |lines| ==> Latest(lines, if Boundary(lines[n]) then map[] else previousByLength, n, 0)
    {
      var line := lines[n];
      var boundary := Boundary(line);
      if boundary {
        previousByLength := map[];
      }
      var p := 0;
      while NextRun(line, p).Some?
        invariant OffRun(line, p)
        invariant Recorded(lines, matches, n, p) && Latest(lines, previousByLength, n, p)
        decreases |line| - p
      {
        var start := NextRun(line, p).value;
        var length := RunLen(line, start);
        assert RunAt(line, start);
        RecordRun(lines, matches, previousByLength, n, p, start);
        LatestRun(lines, previousByLength, n, p, start);
        if length in previousByLength {
          var previous := previousByLength[length];
          matches := matches[previous.0 := matches[previous.0] + {previous.1}];
        }
        previousByLength := previousByLength[length := (n, start)];
        p := RunEnd(line, start, '`');
      }
      if n + 1 < |lines| {
        CarryOver(lines, previousByLength, n, p, n + 1);
      }
      NextLine(lines, matches, n, p);
      if boundary {
        previousByLength := map[];
      }
    }
    AllRecorded(lines, matches);
  }

  lemma NextLine(lines: seq<string>, matches: seq<set<nat>>, n: nat, p: nat)
    requires n < |lines| && OffRun(lines[n], p) && NextRun(lines[n], p).None? && Recorded(lines, matches, n, p)
    ensures Recorded(lines, matches, n + 1, 0)
  {
    forall l, s ensures PairedBefore(lines, l, s, n, p) <==> PairedBefore(lines, l, s, n + 1, 0) {
      if PairedBefore(lines, l, s, n, p) {
        var l2, s2 :| Closer(lines, l, s, l2, s2) && Before(l2, s2, n, p);
        assert Before(l2, s2, n + 1, 0);
      }
      if PairedBefore(lines, l, s, n + 1, 0) {
        var l2, s2 :| Closer(lines, l, s, l2, s2) && Before(l2, s2, n + 1, 0);
        assert Before(l2, s2, n, p);
      }
    }
  }

  lemma AllRecorded(lines: seq<string>, matches: seq<set<nat>>)
    requires Recorded(lines, matches, |lines|, 0)
    ensures forall l :: 0 <= l < |lines| ==> matches[l] == PairedRuns(lines, l)
  {
    forall l, s | 0 <= l < |lines| ensures s in matches[l] <==> s in PairedRuns(lines, l) {
      if Paired(lines, l, s) {
        var l2, s2 :| Closer(lines, l, s, l2, s2);
        assert Before(l2, s2, |lines|, 0);
      }
    }
  }

  // ----- masking ----------------------------------------------------------

  /** The visible text up to the next construct, and the state after that construct's opener. */
  method TakeText(line: string, matchingRuns: set<nat>, i: nat)
    returns (piece: string, next: nat, inComment: bool, openTicks: Option<nat>)
    requires OffRun(line, i) && i < |line|
    ensures i < next && OffRun(line, next) && (inComment ==> openTicks.None?)
    ensures Strip(line, matchingRuns, i, false, None)
        == Prepend(piece, Strip(line, matchingRuns, next, inComment, openTicks))
  {
    var comment := FindOpen(line, i);
    var run := NextRun(line, i);
    if comment.None? && run.None? {
      assert line[i..] + "" == line[i..];
      return line[i..], |line|, false, None;
    }
    if comment.Some? && (run.None? || comment.value < run.value) {
      return line[i..comment.value], comment.value + 4, true, None;
    }
    var e := RunEnd(line, run.value, '`');
    if run.value !in matchingRuns {
      return line[i..e], e, false, None;
    }
    return line[i..run.value], e, false, Some(RunLen(line, run.value));
  }

  method StripInlineConstructs(line: string, matchingRuns: set<nat>, inComment: bool, openTicks: Option<nat>)
    returns (r: Stripped)
    requires inComment ==> openTicks.None?
    ensures r == Strip(line, matchingRuns, 0, inComment, openTicks)
  {
    hide Strip, FindClose, NextRunOf, RunEnd;
    KeepNothing(Strip(line, matchingRuns, 0, inComment, openTicks));
    var out := "";
    var i, commented, ticks := 0, inComment, openTicks;
    while i < |line|
      invariant OffRun(line, i) && (commented ==> ticks.None?)
      invariant Prepend(out, Strip(line, matchingRuns, i, commented, ticks))
          == Strip(line, matchingRuns, 0, inComment, openTicks)
      decreases |line| - i, commented, ticks.Some?
    {
      if commented {
        StripComment(line, matchingRuns, i);
        var close := FindClose(line, i);
        if close.None? {
          return Stripped(out, true, ticks);
        }
        i, commented := close.value + 3, false;
      } else if ticks.Some? {
        StripSpan(line, matchingRuns, i, ticks.value);
        var close := NextRunOf(line, i, ticks.value);
        if close.None? {
          return Stripped(out, false, ticks);
        }
        i, ticks := RunEnd(line, close.value, '`'), None;
      } else {
        var piece, next;
        piece, next, commented, ticks := TakeText(line, matchingRuns, i);
        Reassociate(out, piece, Strip(line, matchingRuns, next, commented, ticks));
        out := out + piece;
        i := next;
      }
    }
    StripEnd(line, matchingRuns, i, commented, ticks);
    return Stripped(out, commented, ticks);
  }

  lemma KeepNothing(r: Stripped)
    ensures Prepend("", r) == r
  {
  }

  lemma StripComment(line: string, matching: set<nat>, i: nat)
    requires i < |line| && OffRun(line, i)
    ensures match FindClose(line, i)
            case None => Strip(line, matching, i, true, None) == Stripped("", true, None)
            case Some(c) => i < c + 3 <= |line| && OffRun(line, c + 3)
                            && Strip(line, matching, i, true, None) == Strip(line, matching, c + 3, false, None)
  {
    hide FindClose;
  }

  lemma StripSpan(line: string, matching: set<nat>, i: nat, n: nat)
    requires i < |line| && OffRun(line, i)
    ensures match NextRunOf(line, i, n)
            case None => Strip(line, matching, i, false, Some(n)) == Stripped("", false, Some(n))
            case Some(c) => var e := RunEnd(line, c, '`');
                            i < e && OffRun(line, e)
                                && Strip(line, matching, i, false, Some(n)) == Strip(line, matching, e, false, None)
  {
    hide NextRunOf;
  }

  lemma StripEnd(line: string, matching: set<nat>, i: nat, inComment: bool, codeOpen: Option<nat>)
    requires i == |line| && OffRun(line, i) && (inComment ==> codeOpen.None?)
    ensures Strip(line, matching, i, inComment, codeOpen) == Stripped("", inComment, codeOpen)
  {
  }

  lemma Reassociate(out: string, piece: string, r: Stripped)
    ensures Prepend(out, Prepend(piece, r)) == Prepend(out + piece, r)
  {
    assert out + (piece + r.text) == (out + piece) + r.text;
  }

  method ScanLine(s: Scan, line: string, matchingRuns: set<nat>) returns (next: Scan, view: View)
    requires s.inComment ==> s.codeOpen.None?
    ensures (next, view) == StepLine(s, line, matchingRuns)
  {
    next := s;
    if s.fence.Some? {
      next := next.(prevBlank := Blank(line));
      if Closes(line, s.fence.value) {
        return next.(fence := None), View(None, true);
      }
      return next, View(None, false);
    }
    if !s.inComment && s.codeOpen.None? {
      var opener := FenceOpener(line);
      if opener.Some? {
        return next.(fence := opener, prevBlank := false, inIndented := false), View(None, true);
      }
      if s.inIndented {
        if Blank(line) || IndentedCode(line) {
          return next.(prevBlank := Blank(line)), View(None, true);
        }
        next := next.(inIndented := false);
      }
      if s.prevBlank && IndentedCode(line) {
        return next.(inIndented := true, prevBlank := Blank(line)), View(None, true);
      }
    }
    if Blank(line) {
      next := next.(codeOpen := None);
    }
    var r := StripInlineConstructs(line, matchingRuns, next.inComment, next.codeOpen);
    return next.(inComment := r.inComment, codeOpen := r.codeOpen, prevBlank := Blank(line)), View(Some(r.text), false);
  }

  method VisibleView(lines: seq<string>) returns (views: seq<View>)
    ensures views == Views(lines)
  {
    hide StepLine;
    views := [];
    var s := START;
    var matchingRuns := MatchingBacktickRuns(lines);
    for n := 0 to |lines|
      invariant |views| == n && forall k :: 0 <= k < n ==> views[k] == ViewAt(lines, k)
      invariant s == StateAt(lines, n)
    {
      var view;
      s, view := ScanLine(s, lines[n], matchingRuns[n]);
      views := views + [view];
    }
  }

  method HeadingValue(views: seq<View>, from: nat) returns (value: seq<Declaration>)
    ensures value == FirstValue(views, from)
  {
    var j := from;
    while j < |views|
      invariant FirstValue(views, from) == FirstValue(views, j)
    {
      if views[j].hidden {
        return [];
      }
      if views[j].visible.Some? && !Blank(views[j].visible.value) {
        return [Declaration(j + 1, Trim(views[j].visible.value), true)];
      }
      j := j + 1;
    }
    return [];
  }

  /** The declarations of a document, with the label expressions of the source. */
  method HeaderDeclarations(lines: seq<string>) returns (found: seq<Declaration>)
    ensures found == Declared(Views(lines), 0, InlineValues)
  {
    var views := VisibleView(lines);
    found := DeclaredIn(views);
  }

  method DeclaredIn(views: seq<View>) returns (found: seq<Declaration>)
    ensures found == Declared(views, 0, InlineValues)
  {
    hide EndsHeader, DeclaredOn;
    found := [];
    for i := 0 to |views|
      invariant found + Declared(views, i, InlineValues) == Declared(views, 0, InlineValues)
    {
      if EndsHeader(views[i]) {
        return;
      }
      var here := DeclarationsOnLine(views, i);
      Regroup(found, here, Declared(views, i + 1, InlineValues));
      found := found + here;
    }
  }

  lemma Regroup(a: seq<Declaration>, b: seq<Declaration>, c: seq<Declaration>)
    ensures a + (b + c) == a + b + c
  {
  }

  method DeclarationsOnLine(views: seq<View>, i: nat) returns (here: seq<Declaration>)
    requires i < |views|
    ensures here == DeclaredOn(views, i, InlineValues)
  {
    hide StatusHeading, FirstValue, Labelled, WithoutNoise, Labels;
    if views[i].hidden || views[i].visible.None? {
      return [];
    }
    var line := views[i].visible.value;
    if StatusHeading(line) {
      here := HeadingValue(views, i + 1);
      return;
    }
    here := [];
    if Labelled(line) {
      var scanLine := WithoutNoise(line);
      var labels := Labels(scanLine, 0);
      for k := 0 to |labels|
        invariant here == Inline(i, ValuesOf(scanLine, labels))[..k]
      {
        var end := if k + 1 < |labels| then labels[k + 1].start else |scanLine|;
        here := here + [Declaration(i + 1, Trim(scanLine[labels[k].end..end]), false)];
      }
    }
  }
}
