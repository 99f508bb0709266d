/**
 What stays visible of a line, said without scanning: comments and code spans are cut out of it, each from its opener
 to its first closer, and nothing else is.
 */
module HeaderMask {
  import opened Wrappers
  import opened Chars
  import opened MarkdownLines
  import opened HeaderScan

  /** The characters from `start` up to `end` are not visible. */
  datatype Cut = Cut(start: nat, end: nat)

  /** Neither a comment nor a paired run opens in [a, b). */
  predicate Quiet(line: string, matching: set<nat>, a: nat, b: nat) {
    forall k: nat :: a <= k < b ==> !OpensComment(line, k) && !(RunAt(line, k) && k in matching)
  }

  /** A comment whose inside starts at `from` ends at `end`: after its first closer, or with the line. */
  ghost predicate CommentEnds(line: string, from: nat, end: nat) {
    || (from + 3 <= end <= |line| && ClosesComment(line, end - 3)
        && forall k: nat :: from <= k < end - 3 ==> !ClosesComment(line, k))
    || (end == |line| && forall k: nat :: from <= k ==> !ClosesComment(line, k))
  }

  /** A span of `n` backticks whose inside starts at `from` ends at `end`: after the first run of `n`, or with the
      line. */
  ghost predicate SpanEnds(line: string, n: nat, from: nat, end: nat) {
    || (exists c: nat :: SpanCloses(line, n, from, c) && end == RunEnd(line, c, '`'))
    || (end == |line| && forall k: nat :: from <= k && RunAt(line, k) ==> RunLen(line, k) != n)
  }

  /** The first run of `n` backticks at or after `from` stands at `c`. */
  ghost predicate SpanCloses(line: string, n: nat, from: nat, c: nat) {
    && from <= c && RunAt(line, c) && RunLen(line, c) == n
    && forall k: nat :: from <= k < c && RunAt(line, k) ==> RunLen(line, k) != n
  }

  /** A comment or a span that opens at the start of the cut, to its end. */
  ghost predicate Opened(line: string, matching: set<nat>, c: Cut) {
    || (OpensComment(line, c.start) && CommentEnds(line, c.start + 4, c.end))
    || (RunAt(line, c.start) && c.start in matching
        && SpanEnds(line, RunLen(line, c.start), RunEnd(line, c.start, '`'), c.end))
  }

  /** From `i` on, in text: the cuts are exactly the comments and the spans that open outside earlier ones. */
  ghost predicate Cuts(line: string, matching: set<nat>, i: nat, cuts: seq<Cut>)
    decreases |cuts|
  {
    if cuts == [] then Quiet(line, matching, i, |line|)
    else
      var c := cuts[0];
      && i <= c.start < c.end <= |line| && Quiet(line, matching, i, c.start)
      && Opened(line, matching, c) && Cuts(line, matching, c.end, cuts[1..])
  }

  /** The cuts of a whole line that starts inside a comment, inside a span or in text. */
  ghost predicate Masks(line: string, matching: set<nat>, inComment: bool, codeOpen: Option<nat>, cuts: seq<Cut>) {
    if !inComment && codeOpen.None? then Cuts(line, matching, 0, cuts)
    else
      && cuts != [] && cuts[0].start == 0 && cuts[0].end <= |line|
      && (if inComment then CommentEnds(line, 0, cuts[0].end) else SpanEnds(line, codeOpen.value, 0, cuts[0].end))
      && Cuts(line, matching, cuts[0].end, cuts[1..])
  }

  // ----- what a line hands to the next ------------------------------------

  /** A comment whose inside starts at `from` is not closed on the line. */
  ghost predicate CommentStays(line: string, from: nat) {
    forall k: nat :: from <= k ==> !ClosesComment(line, k)
  }

  /** A span of `n` backticks whose inside starts at `from` is not closed on the line. */
  ghost predicate SpanStays(line: string, n: nat, from: nat) {
    forall k: nat :: from <= k && RunAt(line, k) ==> RunLen(line, k) != n
  }

  /** A comment or a span goes on in the next line exactly when it is the last cut and is not closed. */
  ghost predicate Leaves(line: string, cuts: seq<Cut>, r: Stripped) {
    if cuts == [] then LeavesText(r)
    else
      var s := cuts[|cuts| - 1].start;
      if OpensComment(line, s) then LeavesComment(line, s + 4, r)
      else s <= |line| && LeavesSpan(line, RunLen(line, s), RunEnd(line, s, '`'), r)
  }

  predicate LeavesText(r: Stripped) {
    !r.inComment && r.codeOpen.None?
  }

  ghost predicate LeavesComment(line: string, from: nat, r: Stripped) {
    r.codeOpen.None? && (r.inComment <==> CommentStays(line, from))
  }

  ghost predicate LeavesSpan(line: string, n: nat, from: nat, r: Stripped) {
    !r.inComment && r.codeOpen == if SpanStays(line, n, from) then Some(n) else None
  }

  /** The same of a whole line, whose first cut may have opened on an earlier line. */
  ghost predicate HandsOn(line: string, inComment: bool, codeOpen: Option<nat>, cuts: seq<Cut>, r: Stripped) {
    if !inComment && codeOpen.None? then Leaves(line, cuts, r)
    else if |cuts| != 1 then cuts != [] && Leaves(line, cuts[1..], r)
    else if inComment then LeavesComment(line, 0, r)
    else LeavesSpan(line, codeOpen.value, 0, r)
  }

  predicate SameState(a: Stripped, b: Stripped) {
    a.inComment == b.inComment && a.codeOpen == b.codeOpen
  }

  /** What is left from `i` on once the cuts are taken out. */
  function Outside(line: string, i: nat, cuts: seq<Cut>): string
    requires i <= |line| && Ordered(line, i, cuts)
    decreases |cuts|
  {
    if cuts == [] then line[i..] else line[i..cuts[0].start] + Outside(line, cuts[0].end, cuts[1..])
  }

  predicate Ordered(line: string, i: nat, cuts: seq<Cut>)
    decreases |cuts|
  {
    cuts == [] || (i <= cuts[0].start <= cuts[0].end <= |line| && Ordered(line, cuts[0].end, cuts[1..]))
  }

  lemma {:induction false} CutsAreOrdered(line: string, matching: set<nat>, i: nat, cuts: seq<Cut>)
    requires Cuts(line, matching, i, cuts)
    ensures Ordered(line, i, cuts)
    decreases |cuts|
  {
    hide Quiet, Opened;
    if cuts != [] {
      CutsAreOrdered(line, matching, cuts[0].end, cuts[1..]);
    }
  }

  // ----- a cut ends in one place ------------------------------------------

  lemma CommentEndsOnce(line: string, from: nat, a: nat, b: nat)
    requires CommentEnds(line, from, a) && CommentEnds(line, from, b)
    ensures a == b
  {
  }

  lemma SpanEndsOnce(line: string, n: nat, from: nat, a: nat, b: nat)
    requires SpanEnds(line, n, from, a) && SpanEnds(line, n, from, b)
    ensures a == b
  {
    hide RunAt, RunLen;
    if c: nat, d: nat :|
      && SpanCloses(line, n, from, c) && a == RunEnd(line, c, '`')
      && SpanCloses(line, n, from, d) && b == RunEnd(line, d, '`')
    {
      assert !(c < d) && !(d < c);
    }
  }

  lemma OpenedOnce(line: string, matching: set<nat>, c: Cut, d: Cut)
    requires Opened(line, matching, c) && Opened(line, matching, d) && c.start == d.start
    ensures c == d
  {
    hide CommentEnds, SpanEnds;
    if OpensComment(line, c.start) {
      CommentEndsOnce(line, c.start + 4, c.end, d.end);
    } else {
      SpanEndsOnce(line, RunLen(line, c.start), RunEnd(line, c.start, '`'), c.end, d.end);
    }
  }

  lemma OpenedIsNotQuiet(line: string, matching: set<nat>, c: Cut, a: nat, b: nat)
    requires Opened(line, matching, c) && Quiet(line, matching, a, b) && a <= c.start
    ensures b <= c.start
  {
  }

  /** There is only one way to cut. */
  lemma {:induction false} CutsAreUnique(line: string, matching: set<nat>, i: nat, a: seq<Cut>, b: seq<Cut>)
    requires Cuts(line, matching, i, a) && Cuts(line, matching, i, b)
    ensures a == b
    decreases |a|
  {
    hide Quiet, Opened;
    if a != [] {
      OpenedIsNotQuiet(line, matching, a[0], i, if b == [] then |line| else b[0].start);
    }
    if b != [] {
      OpenedIsNotQuiet(line, matching, b[0], i, if a == [] then |line| else a[0].start);
    }
    if a != [] && b != [] {
      OpenedOnce(line, matching, a[0], b[0]);
      CutsAreUnique(line, matching, a[0].end, a[1..], b[1..]);
      assert a == [a[0]] + a[1..] && b == [b[0]] + b[1..];
    }
  }

  lemma MaskIsUnique(line: string, matching: set<nat>, inComment: bool, codeOpen: Option<nat>, a: seq<Cut>, b: seq<Cut>)
    requires Masks(line, matching, inComment, codeOpen, a) && Masks(line, matching, inComment, codeOpen, b)
    ensures a == b
  {
    hide Cuts, CommentEnds, SpanEnds;
    if inComment {
      CommentEndsOnce(line, 0, a[0].end, b[0].end);
    } else if codeOpen.Some? {
      SpanEndsOnce(line, codeOpen.value, 0, a[0].end, b[0].end);
    }
    if inComment || codeOpen.Some? {
      CutsAreUnique(line, matching, a[0].end, a[1..], b[1..]);
      assert a == [a[0]] + a[1..] && b == [b[0]] + b[1..];
    } else {
      CutsAreUnique(line, matching, 0, a, b);
    }
  }

  // ----- masking cuts exactly that ----------------------------------------

  /** Inside a construct at `i`: where it ends, what comes after, and the scan's state if it does not end here. */
  lemma {:induction false} StripCuts(line: string, matching: set<nat>, i: nat) returns (cuts: seq<Cut>)
    requires OffRun(line, i)
    ensures Cuts(line, matching, i, cuts) && Ordered(line, i, cuts)
    ensures Strip(line, matching, i, false, None).text == Outside(line, i, cuts)
    ensures Leaves(line, cuts, Strip(line, matching, i, false, None))
    decreases |line| - i
  {
    hide Cuts, Quiet, Opened, RunAt, OpensComment, Strip, Leaves, LeavesComment, LeavesSpan, CommentStays, SpanStays;
    cuts := [];
    if i == |line| {
      NothingLeft(line, matching);
    } else {
      var comment := FindOpen(line, i);
      var run := NextRun(line, i);
      if comment.None? && run.None? {
        NothingOpens(line, matching, i);
      } else if comment.Some? && (run.None? || comment.value < run.value) {
        var end := CommentCut(line, matching, i);
        var later := StripCuts(line, matching, end);
        cuts := OneMoreCut(line, matching, i, Cut(comment.value, end), later);
        CommentLeaves(line, matching, i, end, cuts, later);
      } else if run.value !in matching {
        var e := RunEnd(line, run.value, '`');
        cuts := StripCuts(line, matching, e);
        KeepRun(line, matching, i, cuts);
      } else {
        var end := SpanCut(line, matching, i);
        var later := StripCuts(line, matching, end);
        cuts := OneMoreCut(line, matching, i, Cut(run.value, end), later);
        SpanLeaves(line, matching, i, end, cuts, later);
      }
    }
  }

  lemma NothingLeft(line: string, matching: set<nat>)
    ensures Cuts(line, matching, |line|, []) && OffRun(line, |line|)
    ensures Strip(line, matching, |line|, false, None).text == Outside(line, |line|, [])
    ensures Leaves(line, [], Strip(line, matching, |line|, false, None))
  {
  }

  lemma NothingOpens(line: string, matching: set<nat>, i: nat)
    requires i < |line| && FindOpen(line, i).None? && NextRun(line, i).None? && OffRun(line, i)
    ensures Cuts(line, matching, i, [])
    ensures Strip(line, matching, i, false, None).text == Outside(line, i, [])
    ensures Leaves(line, [], Strip(line, matching, i, false, None))
  {
  }

  lemma OneMoreCut(line: string, matching: set<nat>, i: nat, c: Cut, later: seq<Cut>) returns (cuts: seq<Cut>)
    requires i <= c.start < c.end <= |line| && Quiet(line, matching, i, c.start) && Opened(line, matching, c)
    requires Cuts(line, matching, c.end, later) && Ordered(line, c.end, later)
    ensures Cuts(line, matching, i, cuts) && Ordered(line, i, cuts)
    ensures Outside(line, i, cuts) == line[i..c.start] + Outside(line, c.end, later)
    ensures cuts == [c] + later
  {
    hide Quiet, Opened;
    cuts := [c] + later;
    assert cuts[1..] == later;
  }

  /** The comment that opens next: its end, and what the scan makes of it. */
  lemma CommentCut(line: string, matching: set<nat>, i: nat) returns (end: nat)
    requires i < |line| && OffRun(line, i) && FindOpen(line, i).Some?
    requires NextRun(line, i).None? || FindOpen(line, i).value < NextRun(line, i).value
    ensures var s := FindOpen(line, i).value;
            && i <= s < end <= |line| && OffRun(line, end)
            && Quiet(line, matching, i, s) && Opened(line, matching, Cut(s, end)) && OpensComment(line, s)
            && Strip(line, matching, i, false, None).text == line[i..s] + Strip(line, matching, end, false, None).text
            && CommentPassed(line, matching, s + 4, end, Strip(line, matching, i, false, None))
  {
    hide Strip, CommentEnds, Quiet, RunAt, CommentPassed;
    var s := FindOpen(line, i).value;
    AfterComment(line, matching, s + 4);
    var close := FindClose(line, s + 4);
    end := if close.Some? then close.value + 3 else |line|;
    StripAtComment(line, matching, i);
    QuietToComment(line, matching, i);
    CommentEndsThere(line, s + 4, end);
    CommentPassedFrom(line, matching, s + 4, end, Strip(line, matching, s + 4, true, None),
                      Strip(line, matching, i, false, None));
  }

  lemma StripAtComment(line: string, matching: set<nat>, i: nat)
    requires i < |line| && OffRun(line, i) && FindOpen(line, i).Some?
    requires NextRun(line, i).None? || FindOpen(line, i).value < NextRun(line, i).value
    ensures var s := FindOpen(line, i).value;
            && s + 4 <= |line| && OffRun(line, s + 4)
            && Strip(line, matching, i, false, None).text == line[i..s] + Strip(line, matching, s + 4, true, None).text
            && SameState(Strip(line, matching, i, false, None), Strip(line, matching, s + 4, true, None))
  {
    hide FindOpen, NextRun, FindClose;
  }

  /** After a comment that is closed the scan goes on at its end; otherwise the line ends in it. */
  ghost predicate CommentPassed(line: string, matching: set<nat>, from: nat, end: nat, r: Stripped) {
    && OffRun(line, end)
    && if CommentStays(line, from) then r.inComment && r.codeOpen.None? && end == |line|
       else SameState(r, Strip(line, matching, end, false, None))
  }

  ghost predicate SpanPassed(line: string, matching: set<nat>, n: nat, from: nat, end: nat, r: Stripped) {
    && OffRun(line, end)
    && if SpanStays(line, n, from) then !r.inComment && r.codeOpen == Some(n) && end == |line|
       else SameState(r, Strip(line, matching, end, false, None))
  }

  lemma CommentLeaves(line: string, matching: set<nat>, i: nat, end: nat, cuts: seq<Cut>, later: seq<Cut>)
    requires OffRun(line, i) && i <= |line| && cuts != [] && cuts == [cuts[0]] + later && OffRun(line, end)
    requires OpensComment(line, cuts[0].start) && Cuts(line, matching, end, later)
    requires CommentPassed(line, matching, cuts[0].start + 4, end, Strip(line, matching, i, false, None))
    requires Leaves(line, later, Strip(line, matching, end, false, None))
    ensures Leaves(line, cuts, Strip(line, matching, i, false, None))
  {
    hide Strip, Quiet, Opened, RunAt, OpensComment, CommentStays, SpanStays;
    if later != [] {
      assert cuts[|cuts| - 1] == later[|later| - 1];
    }
  }

  lemma SpanLeaves(line: string, matching: set<nat>, i: nat, end: nat, cuts: seq<Cut>, later: seq<Cut>)
    requires OffRun(line, i) && i <= |line| && cuts != [] && cuts == [cuts[0]] + later && OffRun(line, end)
    requires RunAt(line, cuts[0].start) && !OpensComment(line, cuts[0].start) && Cuts(line, matching, end, later)
    requires var s := cuts[0].start;
             SpanPassed(line, matching, RunLen(line, s), RunEnd(line, s, '`'), end,
                        Strip(line, matching, i, false, None))
    requires Leaves(line, later, Strip(line, matching, end, false, None))
    ensures Leaves(line, cuts, Strip(line, matching, i, false, None))
  {
    hide Strip, Quiet, Opened, OpensComment, CommentStays, SpanStays;
    if later != [] {
      assert cuts[|cuts| - 1] == later[|later| - 1];
    }
  }

  lemma QuietToComment(line: string, matching: set<nat>, i: nat)
    requires i < |line| && FindOpen(line, i).Some?
    requires NextRun(line, i).None? || FindOpen(line, i).value < NextRun(line, i).value
    ensures Quiet(line, matching, i, FindOpen(line, i).value)
  {
    hide FindOpen, NextRun, OpensComment;
  }

  lemma CommentEndsThere(line: string, from: nat, end: nat)
    requires from <= |line| && end == if FindClose(line, from).Some? then FindClose(line, from).value + 3 else |line|
    ensures CommentEnds(line, from, end)
  {
    hide FindClose;
  }

  lemma CommentPassedFrom(line: string, matching: set<nat>, from: nat, end: nat, r: Stripped, earlier: Stripped)
    requires CommentPassed(line, matching, from, end, r) && SameState(earlier, r)
    ensures CommentPassed(line, matching, from, end, earlier)
  {
    hide Strip, CommentStays;
  }

  lemma AfterComment(line: string, matching: set<nat>, i: nat)
    requires i <= |line| && OffRun(line, i)
    ensures var close := FindClose(line, i);
            var end := if close.Some? then close.value + 3 else |line|;
            end <= |line| && OffRun(line, end)
            && Strip(line, matching, i, true, None).text == Strip(line, matching, end, false, None).text
            && CommentPassed(line, matching, i, end, Strip(line, matching, i, true, None))
  {
  }

  /** The run that comes next is in `matching`: the span's end, and what the scan makes of it. */
  lemma SpanCut(line: string, matching: set<nat>, i: nat) returns (end: nat)
    requires i < |line| && OffRun(line, i) && NextRun(line, i).Some? && NextRun(line, i).value in matching
    requires FindOpen(line, i).None? || NextRun(line, i).value <= FindOpen(line, i).value
    ensures var s := NextRun(line, i).value;
            && i <= s < end <= |line| && OffRun(line, end)
            && Quiet(line, matching, i, s) && Opened(line, matching, Cut(s, end))
            && RunAt(line, s) && !OpensComment(line, s)
            && Strip(line, matching, i, false, None).text == line[i..s] + Strip(line, matching, end, false, None).text
            && SpanPassed(line, matching, RunLen(line, s), RunEnd(line, s, '`'), end,
                          Strip(line, matching, i, false, None))
  {
    var s := NextRun(line, i).value;
    var n, from := RunLen(line, s), RunEnd(line, s, '`');
    assert RunAt(line, s) && OffRun(line, from);
    end := AfterSpan(line, matching, from, n);
    hide SpanEnds;
    assert forall k: nat :: i <= k < s ==> !RunAt(line, k);
  }

  lemma AfterSpan(line: string, matching: set<nat>, i: nat, n: nat) returns (end: nat)
    requires OffRun(line, i)
    ensures i <= end <= |line| && OffRun(line, end) && SpanEnds(line, n, i, end)
    ensures Strip(line, matching, i, false, Some(n)).text == Strip(line, matching, end, false, None).text
    ensures SpanPassed(line, matching, n, i, end, Strip(line, matching, i, false, Some(n)))
  {
    hide RunLen;
    var c := NextRunOf(line, i, n);
    if c.Some? {
      end := RunEnd(line, c.value, '`');
      assert SpanCloses(line, n, i, c.value);
    } else {
      end := |line|;
    }
  }

  /** An unpaired run is kept with the text before it. */
  lemma KeepRun(line: string, matching: set<nat>, i: nat, cuts: seq<Cut>)
    requires i < |line| && OffRun(line, i) && NextRun(line, i).Some? && NextRun(line, i).value !in matching
    requires FindOpen(line, i).None? || NextRun(line, i).value <= FindOpen(line, i).value
    requires var e := RunEnd(line, NextRun(line, i).value, '`');
             && Cuts(line, matching, e, cuts) && Ordered(line, e, cuts) && OffRun(line, e)
             && Strip(line, matching, e, false, None).text == Outside(line, e, cuts)
             && Leaves(line, cuts, Strip(line, matching, e, false, None))
    ensures Cuts(line, matching, i, cuts) && Ordered(line, i, cuts)
    ensures Strip(line, matching, i, false, None).text == Outside(line, i, cuts)
    ensures Leaves(line, cuts, Strip(line, matching, i, false, None))
  {
    hide Leaves, Strip, Quiet, RunAt, OpensComment, RunEnd, Cuts, Ordered, Outside;
    StripAtRun(line, matching, i);
    QuietOverRun(line, matching, i);
    CutsFromEarlier(line, matching, i, RunEnd(line, NextRun(line, i).value, '`'), cuts);
    SameLeaves(line, cuts, Strip(line, matching, i, false, None),
               Strip(line, matching, RunEnd(line, NextRun(line, i).value, '`'), false, None));
  }

  lemma SameLeaves(line: string, cuts: seq<Cut>, a: Stripped, b: Stripped)
    requires SameState(a, b) && Leaves(line, cuts, b)
    ensures Leaves(line, cuts, a)
  {
    hide CommentStays, SpanStays;
  }

  lemma CutsFromEarlier(line: string, matching: set<nat>, i: nat, e: nat, cuts: seq<Cut>)
    requires i <= e <= |line| && Quiet(line, matching, i, e) && Cuts(line, matching, e, cuts) && Ordered(line, e, cuts)
    ensures Cuts(line, matching, i, cuts) && Ordered(line, i, cuts)
    ensures Outside(line, i, cuts) == line[i..e] + Outside(line, e, cuts)
  {
    hide Quiet, Opened;
    QuietJoins(line, matching, i, e, if cuts == [] then |line| else cuts[0].start);
    if cuts == [] {
      SliceJoins(line, i, e, |line|, "");
    } else {
      SliceJoins(line, i, e, cuts[0].start, Outside(line, cuts[0].end, cuts[1..]));
    }
  }

  lemma SliceJoins(line: string, i: nat, e: nat, j: nat, rest: string)
    requires i <= e <= j <= |line|
    ensures line[i..j] + rest == line[i..e] + (line[e..j] + rest)
    ensures line[i..|line|] == line[i..] && line[e..|line|] == line[e..] && line[i..j] == line[i..e] + line[e..j]
  {
  }

  lemma StripAtRun(line: string, matching: set<nat>, i: nat)
    requires i < |line| && OffRun(line, i) && NextRun(line, i).Some? && NextRun(line, i).value !in matching
    requires FindOpen(line, i).None? || NextRun(line, i).value <= FindOpen(line, i).value
    ensures var e := RunEnd(line, NextRun(line, i).value, '`');
            && i < e <= |line| && OffRun(line, e)
            && Strip(line, matching, i, false, None).text == line[i..e] + Strip(line, matching, e, false, None).text
            && SameState(Strip(line, matching, i, false, None), Strip(line, matching, e, false, None))
  {
    hide FindOpen, NextRun;
  }

  lemma QuietOverRun(line: string, matching: set<nat>, i: nat)
    requires i < |line| && OffRun(line, i) && NextRun(line, i).Some? && NextRun(line, i).value !in matching
    requires FindOpen(line, i).None? || NextRun(line, i).value <= FindOpen(line, i).value
    ensures Quiet(line, matching, i, RunEnd(line, NextRun(line, i).value, '`'))
  {
    hide FindOpen, NextRun;
    var s := NextRun(line, i).value;
    forall k: nat | i <= k < RunEnd(line, s, '`') ensures !OpensComment(line, k) && !(RunAt(line, k) && k in matching) {
      if k >= s {
        assert line[k] == '`';
      }
    }
  }

  lemma QuietJoins(line: string, matching: set<nat>, a: nat, b: nat, c: nat)
    requires Quiet(line, matching, a, b) && Quiet(line, matching, b, c)
    ensures Quiet(line, matching, a, c)
  {
  }

  /** The masking theorem: whatever state a line starts in, its visible text is the line without exactly its
      comments and its paired spans, each cut from its opener, or from the start of the line, to its first closer, and
      the next line starts in the last of them exactly when the line does not close it. */
  lemma StripMasks(line: string, matching: set<nat>, inComment: bool, codeOpen: Option<nat>) returns (cuts: seq<Cut>)
    requires inComment ==> codeOpen.None?
    ensures Masks(line, matching, inComment, codeOpen, cuts) && Ordered(line, 0, cuts)
    ensures Strip(line, matching, 0, inComment, codeOpen).text == Outside(line, 0, cuts)
    ensures HandsOn(line, inComment, codeOpen, cuts, Strip(line, matching, 0, inComment, codeOpen))
  {
    hide Strip, Cuts, CommentEnds, SpanEnds, Leaves, LeavesComment, LeavesSpan;
    if !inComment && codeOpen.None? {
      cuts := StripCuts(line, matching, 0);
    } else {
      var end := CarriedOver(line, matching, inComment, codeOpen);
      var later := StripCuts(line, matching, end);
      cuts := [Cut(0, end)] + later;
      assert cuts[1..] == later;
      CarriedHandsOn(line, matching, inComment, codeOpen, end, cuts);
    }
  }

  lemma CarriedHandsOn(line: string, matching: set<nat>, inComment: bool, codeOpen: Option<nat>, end: nat,
                       cuts: seq<Cut>)
    requires (if inComment then codeOpen.None? else codeOpen.Some?) && OffRun(line, end) && cuts != []
    requires var r := Strip(line, matching, 0, inComment, codeOpen);
             if inComment then CommentPassed(line, matching, 0, end, r)
             else SpanPassed(line, matching, codeOpen.value, 0, end, r)
    requires Cuts(line, matching, end, cuts[1..]) && Leaves(line, cuts[1..], Strip(line, matching, end, false, None))
    ensures HandsOn(line, inComment, codeOpen, cuts, Strip(line, matching, 0, inComment, codeOpen))
  {
    hide Strip, Quiet, Opened, CommentStays, SpanStays, RunAt, OpensComment;
    if |cuts| > 1 {
      assert end < |line|;
      SameLeaves(line, cuts[1..], Strip(line, matching, 0, inComment, codeOpen),
                 Strip(line, matching, end, false, None));
    }
  }

  lemma CarriedOver(line: string, matching: set<nat>, inComment: bool, codeOpen: Option<nat>) returns (end: nat)
    requires if inComment then codeOpen.None? else codeOpen.Some?
    ensures end <= |line| && OffRun(line, end)
    ensures if inComment then CommentEnds(line, 0, end) else SpanEnds(line, codeOpen.value, 0, end)
    ensures Strip(line, matching, 0, inComment, codeOpen).text == Strip(line, matching, end, false, None).text
    ensures var r := Strip(line, matching, 0, inComment, codeOpen);
            if inComment then CommentPassed(line, matching, 0, end, r)
            else SpanPassed(line, matching, codeOpen.value, 0, end, r)
  {
    if inComment {
      AfterComment(line, matching, 0);
      var close := FindClose(line, 0);
      end := if close.Some? then close.value + 3 else |line|;
    } else {
      end := AfterSpan(line, matching, 0, codeOpen.value);
    }
  }

  /** Of a document: what a line in text shows, and the comment or span in which the next line starts. */
  lemma TextLineMeans(lines: seq<string>, n: nat) returns (cuts: seq<Cut>)
    requires n < |lines| && ViewAt(lines, n).visible.Some?
    ensures var s, next := StateAt(lines, n), StateAt(lines, n + 1);
            && Masks(lines[n], PairedRuns(lines, n), s.inComment, s.codeOpen, cuts) && Ordered(lines[n], 0, cuts)
            && ViewAt(lines, n) == View(Some(Outside(lines[n], 0, cuts)), false)
            && HandsOn(lines[n], s.inComment, s.codeOpen, cuts, Stripped("", next.inComment, next.codeOpen))
  {
    SpansCloseInTheirBlock(lines);
    var s := StateAt(lines, n);
    cuts := StripMasks(lines[n], PairedRuns(lines, n), s.inComment, s.codeOpen);
    var r := Strip(lines[n], PairedRuns(lines, n), 0, s.inComment, s.codeOpen);
    hide Strip, Masks, HandsOn, Outside, PairedRuns, Blank, IndentedCode, FenceOpener, Closes;
    assert StateAt(lines, n + 1) == StepLine(s, lines[n], PairedRuns(lines, n)).0;
    SameHandsOn(lines[n], s.inComment, s.codeOpen, cuts, r,
                Stripped("", StateAt(lines, n + 1).inComment, StateAt(lines, n + 1).codeOpen));
  }

  lemma SameHandsOn(line: string, inComment: bool, codeOpen: Option<nat>, cuts: seq<Cut>, a: Stripped, b: Stripped)
    requires HandsOn(line, inComment, codeOpen, cuts, a) && SameState(a, b)
    ensures HandsOn(line, inComment, codeOpen, cuts, b)
  {
    hide CommentStays, SpanStays;
  }

  /** An unpaired run in text opens nothing: no cut begins at it, so a cut either contains it or leaves it and what
      follows it, up to the next opener, visible. */
  lemma {:induction false} UnpairedRunOpensNothing(line: string, matching: set<nat>, i: nat, cuts: seq<Cut>, s: nat)
    requires Cuts(line, matching, i, cuts) && RunAt(line, s) && s !in matching && i <= s
    ensures forall k :: 0 <= k < |cuts| && !(cuts[k].start < s < cuts[k].end) ==>
              cuts[k].end <= s || RunEnd(line, s, '`') <= cuts[k].start
    decreases |cuts|
  {
    hide Quiet;
    if cuts != [] {
      var c := cuts[0];
      NotAnOpener(line, matching, c, s);
      if c.end <= s {
        UnpairedRunOpensNothing(line, matching, c.end, cuts[1..], s);
      } else {
        CutsComeAfter(line, matching, c.end, cuts[1..]);
      }
      forall k | 0 <= k < |cuts| && !(cuts[k].start < s < cuts[k].end)
        ensures cuts[k].end <= s || RunEnd(line, s, '`') <= cuts[k].start
      {
        if k > 0 {
          assert cuts[k] == cuts[1..][k - 1];
        }
      }
    }
  }

  lemma NotAnOpener(line: string, matching: set<nat>, c: Cut, s: nat)
    requires Opened(line, matching, c) && RunAt(line, s) && s !in matching && c.start < |line|
    ensures c.start != s && (s < c.start ==> RunEnd(line, s, '`') <= c.start)
  {
  }

  lemma {:induction false} CutsComeAfter(line: string, matching: set<nat>, i: nat, cuts: seq<Cut>)
    requires Cuts(line, matching, i, cuts)
    ensures forall k :: 0 <= k < |cuts| ==> i <= cuts[k].start
    decreases |cuts|
  {
    hide Quiet, Opened;
    if cuts != [] {
      CutsComeAfter(line, matching, cuts[0].end, cuts[1..]);
    }
  }
}
