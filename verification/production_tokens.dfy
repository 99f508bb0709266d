/**
 Removal of test-gated items from a token stream, and exactly when what is left is still balanced.
 */
module ProductionTokens {
  import opened Wrappers
  import opened RustTokens
  import opened Delimiters
  import CfgValue

  ghost predicate Matched(ts: seq<Token>, m: map<int, int>) {
    Balanced(ts) && IsMatching(ts, m)
  }

  // ----- attributes -------------------------------------------------------

  /** The attribute `#[body]` or `#![body]` on the tokens from `start` up to `end`. */
  datatype Attr = Attr(start: int, end: int, inner: bool, body: seq<Token>)

  /** Where the bracket of an attribute that starts at `i` would be: after the `!` of an inner one. */
  function BracketAt(ts: seq<Token>, i: int): int
    requires 0 <= i < |ts|
  {
    if i + 1 < |ts| && Is(ts[i + 1], '!') then i + 2 else i + 1
  }

  function AttrAt(ts: seq<Token>, m: map<int, int>, i: int): (a: Option<Attr>)
    requires Matched(ts, m) && 0 <= i < |ts|
    ensures a.Some? ==> a.value.start == i < a.value.end <= |ts|
  {
    var bracket := BracketAt(ts, i);
    if !Is(ts[i], '#') || bracket >= |ts| || !Is(ts[bracket], '[') then None
    else
      assert Opens(ts[bracket]);
      Some(Attr(i, m[bracket] + 1, bracket == i + 2, ts[bracket + 1..m[bracket]]))
  }

  lemma AttrTokens(ts: seq<Token>, m: map<int, int>, i: int)
    requires Matched(ts, m) && 0 <= i < |ts| && AttrAt(ts, m, i).Some?
    ensures var bracket := BracketAt(ts, i);
            && bracket < |ts| && Opens(ts[bracket]) && bracket in m && AttrAt(ts, m, i).value.end == m[bracket] + 1
            && !Opens(ts[i]) && !Closes(ts[i])
            && (bracket == i + 2 ==> !Opens(ts[i + 1]) && !Closes(ts[i + 1]))
  {
  }

  /** The attributes that follow one another from `i` on. */
  function AttrRun(ts: seq<Token>, m: map<int, int>, i: int): (run: seq<Attr>)
    requires Matched(ts, m) && 0 <= i <= |ts|
    ensures forall k :: 0 <= k < |run| ==> i <= run[k].start < run[k].end <= |ts|
    decreases |ts| - i
  {
    if i < |ts| && AttrAt(ts, m, i).Some?
    then [AttrAt(ts, m, i).value] + AttrRun(ts, m, AttrAt(ts, m, i).value.end) else []
  }

  function AfterRun(ts: seq<Token>, m: map<int, int>, i: int): (after: int)
    requires Matched(ts, m) && 0 <= i <= |ts|
    ensures i <= after <= |ts| && (i < |ts| && AttrAt(ts, m, i).Some? ==> i < after)
    decreases |ts| - i
  {
    if i < |ts| && AttrAt(ts, m, i).Some? then AfterRun(ts, m, AttrAt(ts, m, i).value.end) else i
  }

  /** `#[test]`, `#[tokio::test]`, `#[bench]` and the like, with or without arguments. */
  predicate TestPath(body: seq<Token>) {
    var path := body[..FirstParen(body)];
    && path != []
    && (path[|path| - 1].value == "test" || path[|path| - 1].value == "bench")
    && forall t :: t in path ==> t.kind == Ident || Is(t, ':')
  }

  function FirstParen(body: seq<Token>): (n: nat)
    ensures n <= |body| && forall k :: 0 <= k < n ==> !Is(body[k], '(')
    ensures n < |body| ==> Is(body[n], '(')
  {
    if body == [] || Is(body[0], '(') then 0 else 1 + FirstParen(body[1..])
  }

  /** The attribute says that its item is not in a build without `test`. */
  predicate Excluding(a: Attr) {
    a.body != [] &&
    if a.body[0].value == "cfg" && |a.body| >= 3 && Is(a.body[1], '(')
    then CfgValue.Value(a.body[2..|a.body| - 1]) == Some(false)
    else TestPath(a.body)
  }

  /** Attributes other than `path` are dropped from the stream, an empty one is kept. */
  predicate Dropped(a: Attr) {
    a.body != [] && a.body[0].value != "path"
  }

  // ----- the extent of an item --------------------------------------------

  function ItemHead(ts: seq<Token>, m: map<int, int>, start: int): (head: int)
    requires Matched(ts, m) && 0 <= start <= |ts|
    ensures start <= head <= |ts|
  {
    var afterPub :=
      if start < |ts| && ts[start].value == "pub" then
        if start + 1 < |ts| && Is(ts[start + 1], '(') then
          assert Opens(ts[start + 1]);
          m[start + 1] + 1
        else start + 1
      else start;
    if afterPub < |ts| && ts[afterPub].value == "default" then afterPub + 1 else afterPub
  }

  lemma ParenthesisOpens(t: Token)
    requires Is(t, '(')
    ensures Opens(t)
  {
  }

  function AfterQualifiers(ts: seq<Token>, i: int): (after: int)
    requires 0 <= i
    ensures i <= after
    decreases |ts| - i
  {
    if i < |ts| && (ts[i].value == "unsafe" || ts[i].value == "extern" || ts[i].kind == Str)
    then AfterQualifiers(ts, i + 1) else i
  }

  /** A `static`, `let` or `const` item, but no `const fn`, ends at a semicolon and not at a brace. */
  predicate SemicolonItem(ts: seq<Token>, m: map<int, int>, start: int)
    requires Matched(ts, m) && 0 <= start <= |ts|
  {
    var head := ItemHead(ts, m, start);
    var keyword := if head < |ts| then ts[head].value else "";
    if keyword == "const" then
      var after := AfterQualifiers(ts, head + 1);
      after >= |ts| || ts[after].value != "fn"
    else keyword == "static" || keyword == "let"
  }

  function Walk(ts: seq<Token>, m: map<int, int>, i: int, semicolonItem: bool): (end: int)
    requires Matched(ts, m) && 0 <= i <= |ts|
    ensures i <= end <= |ts|
    decreases |ts| - i
  {
    if i == |ts| then i
    else if Is(ts[i], ';') then i + 1
    else if Opens(ts[i]) then
      if Is(ts[i], '{') && !semicolonItem then m[i] + 1 else Walk(ts, m, m[i] + 1, semicolonItem)
    else if Is(ts[i], '}') then i
    else Walk(ts, m, i + 1, semicolonItem)
  }

  function ItemEnd(ts: seq<Token>, m: map<int, int>, start: int): (end: int)
    requires Matched(ts, m) && 0 <= start <= |ts|
    ensures start <= end <= |ts|
  {
    Walk(ts, m, start, SemicolonItem(ts, m, start))
  }

  /** The delimiters open before `i` in a balanced stream. */
  function OpenAt(ts: seq<Token>, i: int): (open: Open)
    requires Balanced(ts) && 0 <= i <= |ts|
    ensures Stack(ts, i) == Some(open)
  {
    PrefixesHaveStacks(ts, i, |ts|);
    Stack(ts, i).value
  }

  /** The innermost brace among the open delimiters closes the region; at the top it is the whole stream. */
  function RegionOf(ts: seq<Token>, m: map<int, int>, open: Open): int {
    if open.Outside? then |ts|
    else if Is(open.token, '{') && open.index in m then m[open.index]
    else RegionOf(ts, m, open.around)
  }

  // ----- what stays open across an attribute or an item -------------------

  lemma OpenStep(ts: seq<Token>, i: int)
    requires Balanced(ts) && 0 <= i < |ts|
    ensures Read(ts[i], i, OpenAt(ts, i)) == Some(OpenAt(ts, i + 1))
  {
  }

  lemma OpenerHasCloser(ts: seq<Token>, m: map<int, int>, i: int)
    requires Matched(ts, m) && 0 <= i < |ts| && Opens(ts[i])
    ensures Balanced(ts) && i in m && i < m[i] < |ts| && Matches(ts, i, m[i])
    ensures OpenAt(ts, m[i] + 1) == OpenAt(ts, i)
  {
  }

  lemma MarksKeepOpen(ts: seq<Token>, i: int)
    requires Balanced(ts) && 0 <= i < |ts| && BracketAt(ts, i) < |ts| && !Opens(ts[i]) && !Closes(ts[i])
    requires BracketAt(ts, i) == i + 2 ==> !Opens(ts[i + 1]) && !Closes(ts[i + 1])
    ensures OpenAt(ts, BracketAt(ts, i)) == OpenAt(ts, i)
  {
    hide Is, Opens, Closes, Balanced;
    OpenStep(ts, i);
    if BracketAt(ts, i) == i + 2 {
      OpenStep(ts, i + 1);
    }
  }

  lemma AttrKeepsOpen(ts: seq<Token>, m: map<int, int>, i: int)
    requires Matched(ts, m) && 0 <= i < |ts| && AttrAt(ts, m, i).Some?
    ensures OpenAt(ts, AttrAt(ts, m, i).value.end) == OpenAt(ts, i)
  {
    AttrTokens(ts, m, i);
    hide Is, Opens, Closes, OpenAt, Balanced, AttrAt, IsMatching, BracketAt;
    MarksKeepOpen(ts, i);
    OpenerHasCloser(ts, m, BracketAt(ts, i));
  }

  lemma {:induction false} RunKeepsOpen(ts: seq<Token>, m: map<int, int>, i: int)
    requires Matched(ts, m) && 0 <= i <= |ts|
    ensures OpenAt(ts, AfterRun(ts, m, i)) == OpenAt(ts, i)
    decreases |ts| - i
  {
    hide Balanced, IsMatching, AttrAt, OpenAt;
    if i < |ts| && AttrAt(ts, m, i).Some? {
      AttrKeepsOpen(ts, m, i);
      RunKeepsOpen(ts, m, AttrAt(ts, m, i).value.end);
    }
  }

  predicate InBrace(open: Open) {
    open.Outside? || Is(open.token, '{')
  }

  lemma OnlyBraceCloses(t: Token, i: int, open: Open)
    requires InBrace(open) && Closes(t) && Read(t, i, open).Some?
    ensures Is(t, '}')
  {
  }

  lemma SemicolonIsPlain(t: Token)
    requires Is(t, ';')
    ensures !Opens(t) && !Closes(t)
  {
  }

  /** An item's extent opens nothing that it does not close; it may only run past closers. Directly inside a
      brace, or at the top of the stream, it closes nothing either. */
  lemma {:induction false} WalkOnlyCloses(ts: seq<Token>, m: map<int, int>, i: int, semicolonItem: bool)
    requires Balanced(ts) && Matched(ts, m) && 0 <= i <= |ts|
    ensures var end := Walk(ts, m, i, semicolonItem);
            Within(OpenAt(ts, i), OpenAt(ts, end)) && (InBrace(OpenAt(ts, i)) ==> OpenAt(ts, end) == OpenAt(ts, i))
    decreases |ts| - i
  {
    hide Is, Opens, Closes, SameKind, OpenAt, Balanced, Matched, IsMatching, InBrace;
    if i < |ts| {
      var t := ts[i];
      OpenStep(ts, i);
      if Is(t, ';') {
        SemicolonIsPlain(t);
      } else if Opens(t) {
        OpenerHasCloser(ts, m, i);
        if !Is(t, '{') || semicolonItem {
          WalkOnlyCloses(ts, m, m[i] + 1, semicolonItem);
        }
      } else if !Is(t, '}') {
        if InBrace(OpenAt(ts, i)) && Closes(t) {
          OnlyBraceCloses(t, i, OpenAt(ts, i));
        }
        WalkOnlyCloses(ts, m, i + 1, semicolonItem);
      }
    }
  }

  lemma {:induction false} WithinIsStack(ts: seq<Token>, i: int, base: Open)
    requires Balanced(ts) && 0 <= i <= |ts| && base.Inside? && Within(OpenAt(ts, i), base)
    ensures 0 <= base.index < i && OpenAt(ts, base.index) == base.around && base.token == ts[base.index]
        && Opens(base.token)
    decreases i
  {
    hide Opens;
    StackAround(ts, i);
    if OpenAt(ts, i) != base {
      WithinIsStack(ts, OpenAt(ts, i).index, base);
    }
  }

  /** A delimiter that is open before `i` closes at or after `i`, and is the innermost one there. */
  lemma OpenClosesLater(ts: seq<Token>, m: map<int, int>, i: int, base: Open)
    requires Matched(ts, m) && 0 <= i <= |ts| && base.Inside? && Within(OpenAt(ts, i), base)
    ensures base.index in m && i <= m[base.index] < |ts| && Matches(ts, base.index, m[base.index])
    ensures OpenAt(ts, m[base.index]) == base && OpenAt(ts, m[base.index] + 1) == base.around
  {
    hide IsMatching, Opens, Closes, SameKind, Balanced, OpenAt;
    WithinIsStack(ts, i, base);
    OpenerHasCloser(ts, m, base.index);
    if m[base.index] < i {
      OnlyEarlier(ts, base.index, base.index);
      GoneIsGone(ts, base.index, m[base.index] + 1, i);
      WithinMentions(OpenAt(ts, i), base, base.index);
    }
  }

  lemma {:induction false} RegionOnlyCloses(ts: seq<Token>, m: map<int, int>, i: int, base: Open)
    requires Matched(ts, m) && 0 <= i <= |ts| && Within(OpenAt(ts, i), base)
    ensures var end := RegionOf(ts, m, base);
            i <= end <= |ts| && Within(OpenAt(ts, i), OpenAt(ts, end)) && (InBrace(base) ==> OpenAt(ts, end) == base)
    decreases base
  {
    hide Is, Opens, Closes, SameKind, Stack, IsMatching, OpenAt;
    if base.Outside? {
      WholeIsClosed(ts);
    } else {
      OpenClosesLater(ts, m, i, base);
      if !Is(base.token, '{') {
        WithinAround(OpenAt(ts, i), base);
        RegionOnlyCloses(ts, m, i, base.around);
      }
    }
  }

  lemma {:induction false} WithinAround(open: Open, base: Open)
    requires Within(open, base) && base.Inside?
    ensures Within(open, base.around)
  {
    if open != base {
      WithinAround(open.around, base);
    }
  }

  lemma WholeIsClosed(ts: seq<Token>)
    requires Balanced(ts)
    ensures OpenAt(ts, |ts|) == Outside
  {
  }

  /** The removal of [first, end) stays inside the delimiter that encloses `first`. */
  predicate Contained(ts: seq<Token>, m: map<int, int>, first: int, end: int)
    requires Matched(ts, m) && 0 <= first <= |ts|
  {
    var open := OpenAt(ts, first);
    open.Inside? && open.index in m ==> end <= m[open.index]
  }

  lemma ContainedIffOpenKept(ts: seq<Token>, m: map<int, int>, first: int, end: int)
    requires Matched(ts, m) && 0 <= first < end <= |ts| && Within(OpenAt(ts, first), OpenAt(ts, end))
    ensures Contained(ts, m, first, end) <==> OpenAt(ts, end) == OpenAt(ts, first)
  {
    hide Is, Opens, Closes, SameKind, Stack, IsMatching, OpenAt;
    var open := OpenAt(ts, first);
    if open.Inside? {
      OpenClosesLater(ts, m, first, open);
      WithinIsStack(ts, first, open);
      assert open == Inside(open.index, ts[open.index], OpenAt(ts, open.index));
      assert Stack(ts, open.index) == Some(open.around) && Stack(ts, end) == Some(OpenAt(ts, end));
      if end <= m[open.index] {
        OpenUntilClosed(ts, open.index, m[open.index], end);
        WithinBothWays(open, OpenAt(ts, end));
      } else {
        OnlyEarlier(ts, open.index, open.index);
        GoneIsGone(ts, open.index, m[open.index] + 1, end);
      }
    }
  }

  function Depth(open: Open): nat {
    if open.Outside? then 0 else 1 + Depth(open.around)
  }

  lemma {:induction false} WithinDepth(open: Open, base: Open)
    requires Within(open, base)
    ensures Depth(base) <= Depth(open) && (Depth(base) == Depth(open) ==> base == open)
  {
    if open != base {
      WithinDepth(open.around, base);
    }
  }

  lemma WithinBothWays(a: Open, b: Open)
    requires Within(a, b) && Within(b, a)
    ensures a == b
  {
    WithinDepth(a, b);
    WithinDepth(b, a);
  }

  // ----- what is left -----------------------------------------------------

  /** Where the removal that an attribute run at `i` causes ends, if it causes one. */
  function Exclusion(ts: seq<Token>, m: map<int, int>, i: int): (end: Option<int>)
    requires Matched(ts, m) && 0 <= i < |ts|
    ensures end.Some? ==> AfterRun(ts, m, i) <= end.value <= |ts|
  {
    var run := AttrRun(ts, m, i);
    if exists k :: 0 <= k < |run| && run[k].inner && Excluding(run[k]) then
      RunKeepsOpen(ts, m, i);
      RegionOnlyCloses(ts, m, AfterRun(ts, m, i), OpenAt(ts, i));
      Some(RegionOf(ts, m, OpenAt(ts, i)))
    else if exists k :: 0 <= k < |run| && Excluding(run[k]) then Some(ItemEnd(ts, m, AfterRun(ts, m, i)))
    else None
  }

  lemma ExclusionOnlyCloses(ts: seq<Token>, m: map<int, int>, i: int)
    requires Matched(ts, m) && 0 <= i < |ts| && Exclusion(ts, m, i).Some?
    ensures var end := Exclusion(ts, m, i).value;
            Within(OpenAt(ts, i), OpenAt(ts, end)) && (InBrace(OpenAt(ts, i)) ==> OpenAt(ts, end) == OpenAt(ts, i))
  {
    hide IsMatching, Balanced, OpenAt, Excluding, AttrAt, SemicolonItem, InBrace, RegionOf, Walk;
    var after := AfterRun(ts, m, i);
    RunKeepsOpen(ts, m, i);
    RegionOnlyCloses(ts, m, i, OpenAt(ts, i));
    WalkOnlyCloses(ts, m, after, SemicolonItem(ts, m, after));
  }

  function KeptAttrs(ts: seq<Token>, run: seq<Attr>): seq<Token>
    requires forall k :: 0 <= k < |run| ==> 0 <= run[k].start <= run[k].end <= |ts|
  {
    if run == [] then []
    else (if Dropped(run[0]) then [] else ts[run[0].start..run[0].end]) + KeptAttrs(ts, run[1..])
  }

  /** The tokens from `i` on that survive the removals. */
  function Kept(ts: seq<Token>, m: map<int, int>, i: int): seq<Token>
    requires Matched(ts, m) && 0 <= i <= |ts|
    decreases |ts| - i
  {
    if i == |ts| then []
    else if AttrAt(ts, m, i).None? then [ts[i]] + Kept(ts, m, i + 1)
    else match Exclusion(ts, m, i)
      case Some(end) => Kept(ts, m, end)
      case None => KeptAttrs(ts, AttrRun(ts, m, i)) + Kept(ts, m, AfterRun(ts, m, i))
  }

  /** Every removal that the scan from `i` on makes is contained. */
  ghost predicate AllContained(ts: seq<Token>, m: map<int, int>, i: int)
    requires Matched(ts, m) && 0 <= i <= |ts|
  {
    forall k :: 0 <= k < |Removals(ts, m, i)| ==> Contained(ts, m, Removals(ts, m, i)[k].0, Removals(ts, m, i)[k].1)
  }

  /** The removals [first, end) that the scan from `i` on makes. */
  function Removals(ts: seq<Token>, m: map<int, int>, i: int): (rs: seq<(int, int)>)
    requires Matched(ts, m) && 0 <= i <= |ts|
    ensures forall k :: 0 <= k < |rs| ==> i <= rs[k].0 < rs[k].1 <= |ts|
    decreases |ts| - i
  {
    if i == |ts| then []
    else if AttrAt(ts, m, i).None? then Removals(ts, m, i + 1)
    else match Exclusion(ts, m, i)
      case Some(end) => [(i, end)] + Removals(ts, m, end)
      case None => Removals(ts, m, AfterRun(ts, m, i))
  }

  // ----- balanced if every removal is contained ---------------------------

  /** The same delimiters are open, wherever they stand. */
  ghost predicate SameShape(a: Open, b: Open) {
    if a.Outside? then b.Outside? else b.Inside? && a.token == b.token && SameShape(a.around, b.around)
  }

  lemma {:induction false} StackOfPrefix(ks: seq<Token>, more: seq<Token>, i: int)
    requires 0 <= i <= |ks|
    ensures Stack(ks + more, i) == Stack(ks, i)
    decreases i
  {
    hide Read;
    if i > 0 {
      StackOfPrefix(ks, more, i - 1);
    }
  }

  /** What is open after `ks` is what is open before `ts[i]`. */
  ghost predicate Follows(ks: seq<Token>, ts: seq<Token>, i: int)
    requires Balanced(ts) && 0 <= i <= |ts|
  {
    Stack(ks, |ks|).Some? && SameShape(Stack(ks, |ks|).value, OpenAt(ts, i))
  }

  lemma FollowsStep(ks: seq<Token>, ts: seq<Token>, i: int)
    requires Balanced(ts) && 0 <= i < |ts| && Follows(ks, ts, i)
    ensures Follows(ks + [ts[i]], ts, i + 1)
  {
    hide Opens, Closes, SameKind, Balanced;
    StackOfPrefix(ks, [ts[i]], |ks|);
    OpenStep(ts, i);
  }

  lemma {:induction false} FollowsSlice(ks: seq<Token>, ts: seq<Token>, a: int, b: int)
    requires Balanced(ts) && 0 <= a <= b <= |ts| && Follows(ks, ts, a)
    ensures Follows(ks + ts[a..b], ts, b)
    decreases b - a
  {
    hide Follows, Balanced;
    if a == b {
      assert ks + ts[a..b] == ks;
    } else {
      FollowsStep(ks, ts, a);
      FollowsSlice(ks + [ts[a]], ts, a + 1, b);
      assert ks + ts[a..b] == ks + [ts[a]] + ts[a + 1..b];
    }
  }

  lemma {:induction false} FollowsAttrs(ks: seq<Token>, ts: seq<Token>, m: map<int, int>, i: int)
    requires Matched(ts, m) && 0 <= i <= |ts| && Follows(ks, ts, i)
    ensures Follows(ks + KeptAttrs(ts, AttrRun(ts, m, i)), ts, AfterRun(ts, m, i))
    decreases |ts| - i
  {
    hide Balanced, IsMatching, OpenAt, AttrAt, Dropped, Stack;
    var run := AttrRun(ts, m, i);
    if run == [] {
      assert ks + KeptAttrs(ts, run) == ks;
    } else {
      var end := AttrAt(ts, m, i).value.end;
      assert run[1..] == AttrRun(ts, m, end);
      var piece := if Dropped(run[0]) then [] else ts[i..end];
      if Dropped(run[0]) {
        AttrKeepsOpen(ts, m, i);
        assert ks + [] == ks;
      } else {
        FollowsSlice(ks, ts, i, end);
      }
      FollowsAttrs(ks + piece, ts, m, end);
      assert ks + KeptAttrs(ts, run) == ks + piece + KeptAttrs(ts, run[1..]);
    }
  }

  lemma {:induction false} KeptIsBalanced(ks: seq<Token>, ts: seq<Token>, m: map<int, int>, i: int)
    requires Matched(ts, m) && 0 <= i <= |ts| && Follows(ks, ts, i) && AllContained(ts, m, i)
    ensures Balanced(ks + Kept(ts, m, i))
    decreases |ts| - i
  {
    hide Is, IsMatching, Balanced, OpenAt, AttrAt, Exclusion, Follows, AllContained, Contained, KeptAttrs, AfterRun;
    if i < |ts| {
      AllContainedStep(ts, m, i);
    }
    if i == |ts| {
      FollowsToTheEnd(ks, ts);
      assert ks + Kept(ts, m, i) == ks;
    } else if AttrAt(ts, m, i).None? {
      FollowsStep(ks, ts, i);
      KeptIsBalanced(ks + [ts[i]], ts, m, i + 1);
      assert ks + Kept(ts, m, i) == ks + [ts[i]] + Kept(ts, m, i + 1);
    } else if Exclusion(ts, m, i).Some? {
      var end := Exclusion(ts, m, i).value;
      ExclusionOnlyCloses(ts, m, i);
      ContainedIffOpenKept(ts, m, i, end);
      FollowsSame(ks, ts, i, end);
      KeptIsBalanced(ks, ts, m, end);
    } else {
      var after := AfterRun(ts, m, i);
      FollowsAttrs(ks, ts, m, i);
      KeptIsBalanced(ks + KeptAttrs(ts, AttrRun(ts, m, i)), ts, m, after);
      assert ks + Kept(ts, m, i) == ks + KeptAttrs(ts, AttrRun(ts, m, i)) + Kept(ts, m, after);
    }
  }

  lemma FollowsToTheEnd(ks: seq<Token>, ts: seq<Token>)
    requires Balanced(ts) && Follows(ks, ts, |ts|)
    ensures Balanced(ks)
  {
  }

  lemma FollowsSame(ks: seq<Token>, ts: seq<Token>, i: int, j: int)
    requires Balanced(ts) && 0 <= i <= |ts| && 0 <= j <= |ts| && Follows(ks, ts, i) && OpenAt(ts, i) == OpenAt(ts, j)
    ensures Follows(ks, ts, j)
  {
  }

  lemma AllContainedStep(ts: seq<Token>, m: map<int, int>, i: int)
    requires Matched(ts, m) && 0 <= i < |ts|
    ensures AttrAt(ts, m, i).None? ==> (AllContained(ts, m, i) <==> AllContained(ts, m, i + 1))
    ensures AttrAt(ts, m, i).Some? && Exclusion(ts, m, i).None? ==>
              (AllContained(ts, m, i) <==> AllContained(ts, m, AfterRun(ts, m, i)))
    ensures AttrAt(ts, m, i).Some? && Exclusion(ts, m, i).Some? ==>
              var end := Exclusion(ts, m, i).value;
              (AllContained(ts, m, i) <==> Contained(ts, m, i, end) && AllContained(ts, m, end))
  {
    hide Contained, Exclusion, AttrAt, Balanced, IsMatching, OpenAt;
    if AttrAt(ts, m, i).None? {
      assert Removals(ts, m, i) == Removals(ts, m, i + 1);
    } else if Exclusion(ts, m, i).None? {
      assert Removals(ts, m, i) == Removals(ts, m, AfterRun(ts, m, i));
    } else {
      var end := Exclusion(ts, m, i).value;
      var all, rest := Removals(ts, m, i), Removals(ts, m, end);
      assert all == [(i, end)] + rest;
      assert all[0] == (i, end);
      assert forall k :: 0 <= k < |rest| ==> rest[k] == all[k + 1];
      assert forall k :: 0 < k < |all| ==> all[k] == rest[k - 1];
    }
  }

  // ----- and only then: counting ------------------------------------------

  /** Openers minus closers. */
  function Net(ts: seq<Token>): int {
    if ts == [] then 0 else Net(ts[..|ts| - 1]) + Weight(ts[|ts| - 1])
  }

  function Weight(t: Token): int {
    if Opens(t) then 1 else if Closes(t) then -1 else 0
  }

  lemma {:induction false} NetConcat(a: seq<Token>, b: seq<Token>)
    ensures Net(a + b) == Net(a) + Net(b)
    decreases |b|
  {
    hide Weight;
    if b == [] {
      assert a + b == a;
    } else {
      NetConcat(a, b[..|b| - 1]);
      assert (a + b)[..|a + b| - 1] == a + b[..|b| - 1];
    }
  }

  lemma {:induction false} NetIsDepth(ts: seq<Token>, i: int)
    requires 0 <= i <= |ts| && Stack(ts, i).Some?
    ensures Net(ts[..i]) == Depth(Stack(ts, i).value)
    decreases i
  {
    hide Opens, Closes, SameKind;
    if i > 0 {
      NetIsDepth(ts, i - 1);
      assert ts[..i][..i - 1] == ts[..i - 1];
    }
  }

  lemma NetOfSlice(ts: seq<Token>, i: int, j: int)
    requires Balanced(ts) && 0 <= i <= j <= |ts|
    ensures Net(ts[i..j]) == Depth(OpenAt(ts, j)) - Depth(OpenAt(ts, i))
  {
    assert Stack(ts, i) == Some(OpenAt(ts, i)) && Stack(ts, j) == Some(OpenAt(ts, j));
    NetIsDepth(ts, i);
    NetIsDepth(ts, j);
    NetConcat(ts[..i], ts[i..j]);
    assert ts[..j] == ts[..i] + ts[i..j];
  }

  lemma {:induction false} NetOfAttrs(ts: seq<Token>, m: map<int, int>, i: int)
    requires Matched(ts, m) && 0 <= i <= |ts|
    ensures Net(KeptAttrs(ts, AttrRun(ts, m, i))) == 0
    decreases |ts| - i
  {
    hide Balanced, IsMatching, OpenAt, AttrAt, Dropped, Stack, Net;
    var run := AttrRun(ts, m, i);
    assert Net([]) == 0 by {
      NetOfNone();
    }
    if run != [] {
      var end := AttrAt(ts, m, i).value.end;
      assert run[1..] == AttrRun(ts, m, end);
      AttrKeepsOpen(ts, m, i);
      NetOfSlice(ts, i, end);
      NetConcat(if Dropped(run[0]) then [] else ts[i..end], KeptAttrs(ts, run[1..]));
      NetOfAttrs(ts, m, end);
    }
  }

  lemma NetOfNone()
    ensures Net([]) == 0
  {
  }

  /** What is kept closes at most what is open, and all of it only if every removal was contained. */
  lemma {:induction false} NetOfKept(ts: seq<Token>, m: map<int, int>, i: int)
    requires Matched(ts, m) && 0 <= i <= |ts|
    ensures Net(Kept(ts, m, i)) + Depth(OpenAt(ts, i)) >= 0
    ensures Net(Kept(ts, m, i)) + Depth(OpenAt(ts, i)) == 0 ==> AllContained(ts, m, i)
    decreases |ts| - i
  {
    hide Is, IsMatching, Balanced, OpenAt, AttrAt, Exclusion, Net, Contained, KeptAttrs, AfterRun;
    if i < |ts| {
      AllContainedStep(ts, m, i);
    }
    if i == |ts| {
      NetOfNone();
      WholeIsClosed(ts);
    } else if AttrAt(ts, m, i).None? {
      NetOfSlice(ts, i, i + 1);
      NetConcat(ts[i..i + 1], Kept(ts, m, i + 1));
      assert ts[i..i + 1] == [ts[i]];
      NetOfKept(ts, m, i + 1);
    } else if Exclusion(ts, m, i).Some? {
      var end := Exclusion(ts, m, i).value;
      ExclusionOnlyCloses(ts, m, i);
      WithinDepth(OpenAt(ts, i), OpenAt(ts, end));
      ContainedIffOpenKept(ts, m, i, end);
      NetOfKept(ts, m, end);
    } else {
      NetOfAttrs(ts, m, i);
      RunKeepsOpen(ts, m, i);
      NetConcat(KeptAttrs(ts, AttrRun(ts, m, i)), Kept(ts, m, AfterRun(ts, m, i)));
      NetOfKept(ts, m, AfterRun(ts, m, i));
    }
  }

  /** Exactly when the second `pairs` call succeeds: every removal ends inside the delimiter that encloses it. */
  lemma KeptBalancedExactlyWhen(ts: seq<Token>, m: map<int, int>)
    requires Matched(ts, m)
    ensures Balanced(Kept(ts, m, 0)) <==> AllContained(ts, m, 0)
  {
    assert Follows([], ts, 0);
    if AllContained(ts, m, 0) {
      KeptIsBalanced([], ts, m, 0);
      assert [] + Kept(ts, m, 0) == Kept(ts, m, 0);
    }
    if Balanced(Kept(ts, m, 0)) {
      var ks := Kept(ts, m, 0);
      NetIsDepth(ks, |ks|);
      assert ks[..|ks|] == ks;
      NetOfKept(ts, m, 0);
    }
  }

  /** Excluding attributes directly inside a brace, or inside nothing, never unbalance the stream. */
  lemma ExclusionsInBraces(ts: seq<Token>, m: map<int, int>)
    requires Matched(ts, m)
    requires forall i :: 0 <= i < |ts| && AttrAt(ts, m, i).Some? && Exclusion(ts, m, i).Some? ==> InBrace(OpenAt(ts, i))
    ensures Balanced(Kept(ts, m, 0))
  {
    forall k | 0 <= k < |Removals(ts, m, 0)|
      ensures Contained(ts, m, Removals(ts, m, 0)[k].0, Removals(ts, m, 0)[k].1)
    {
      RemovalsAreExclusions(ts, m, 0, k);
      var r := Removals(ts, m, 0)[k];
      ExclusionOnlyCloses(ts, m, r.0);
      ContainedIffOpenKept(ts, m, r.0, r.1);
    }
    KeptBalancedExactlyWhen(ts, m);
  }

  lemma {:induction false} RemovalsAreExclusions(ts: seq<Token>, m: map<int, int>, i: int, k: int)
    requires Matched(ts, m) && 0 <= i <= |ts| && 0 <= k < |Removals(ts, m, i)|
    ensures var r := Removals(ts, m, i)[k];
            AttrAt(ts, m, r.0).Some? && Exclusion(ts, m, r.0) == Some(r.1)
    decreases |ts| - i
  {
    hide Is, IsMatching, Balanced, OpenAt, AttrAt, Exclusion;
    if AttrAt(ts, m, i).None? {
      RemovalsAreExclusions(ts, m, i + 1, k);
    } else if Exclusion(ts, m, i).Some? {
      if k > 0 {
        RemovalsAreExclusions(ts, m, Exclusion(ts, m, i).value, k - 1);
      }
    } else {
      RemovalsAreExclusions(ts, m, AfterRun(ts, m, i), k);
    }
  }
}

/** The scan itself, on an array of flags that it clears in place. */
module ProductionScan {
  import opened Wrappers
  import opened RustTokens
  import opened Delimiters
  import opened ProductionTokens
  import KeptTokens

  method ItemEndOf(ts: seq<Token>, m: map<int, int>, start: int) returns (end: int)
    requires Matched(ts, m) && 0 <= start <= |ts|
    ensures end == ItemEnd(ts, m, start)
  {
    hide IsMatching, Balanced, Is, Opens, Walk, ItemHead;
    var head := ItemHeadOf(ts, m, start);
    var keyword := if head < |ts| then ts[head].value else "";
    var semicolonItem := keyword == "static" || keyword == "let";
    if keyword == "const" {
      var afterConst := head + 1;
      while afterConst < |ts|
            && (ts[afterConst].value == "unsafe" || ts[afterConst].value == "extern" || ts[afterConst].kind == Str)
        invariant head < afterConst && AfterQualifiers(ts, afterConst) == AfterQualifiers(ts, head + 1)
      {
        afterConst := afterConst + 1;
      }
      semicolonItem := afterConst >= |ts| || ts[afterConst].value != "fn";
    }
    end := WalkItem(ts, m, start, semicolonItem);
  }

  method ItemHeadOf(ts: seq<Token>, m: map<int, int>, start: int) returns (head: int)
    requires Matched(ts, m) && 0 <= start <= |ts|
    ensures head == ItemHead(ts, m, start)
  {
    hide Balanced, IsMatching, Opens;
    head := start;
    if head < |ts| && ts[head].value == "pub" {
      head := head + 1;
      if head < |ts| && Is(ts[head], '(') {
        assert Opens(ts[head]) by {
          ParenthesisOpens(ts[head]);
        }
        OpenerHasCloser(ts, m, head);
        head := m[head] + 1;
      }
    }
    if head < |ts| && ts[head].value == "default" {
      head := head + 1;
    }
  }

  method WalkItem(ts: seq<Token>, m: map<int, int>, start: int, semicolonItem: bool) returns (end: int)
    requires Matched(ts, m) && 0 <= start <= |ts|
    ensures end == Walk(ts, m, start, semicolonItem)
  {
    hide Is, Opens, Balanced, IsMatching;
    var i := start;
    while i < |ts|
      invariant start <= i <= |ts| && Walk(ts, m, i, semicolonItem) == Walk(ts, m, start, semicolonItem)
      decreases |ts| - i
    {
      if Is(ts[i], ';') {
        return i + 1;
      }
      if Opens(ts[i]) {
        OpenerHasCloser(ts, m, i);
        if Is(ts[i], '{') && !semicolonItem {
          return m[i] + 1;
        }
        i := m[i] + 1;
      } else if Is(ts[i], '}') {
        return i;
      } else {
        i := i + 1;
      }
    }
    return i;
  }

  // ----- regions ----------------------------------------------------------

  /** The closers of the open braces, outermost first. */
  ghost function BraceCloses(m: map<int, int>, open: Open): seq<int> {
    if open.Outside? then []
    else BraceCloses(m, open.around) + if Is(open.token, '{') && open.index in m then [m[open.index]] else []
  }

  lemma {:induction false} InnermostBraceCloses(ts: seq<Token>, m: map<int, int>, open: Open)
    ensures var closes := BraceCloses(m, open);
            RegionOf(ts, m, open) == if closes == [] then |ts| else closes[|closes| - 1]
  {
    if open.Inside? {
      InnermostBraceCloses(ts, m, open.around);
    }
  }

  lemma BracesStep(ts: seq<Token>, m: map<int, int>, i: int)
    requires Matched(ts, m) && 0 <= i < |ts|
    ensures var now, next := BraceCloses(m, OpenAt(ts, i)), BraceCloses(m, OpenAt(ts, i + 1));
            && (Is(ts[i], '{') ==> i in m && next == now + [m[i]])
            && (Is(ts[i], '}') ==> now != [] && next == now[..|now| - 1])
            && (!Is(ts[i], '{') && !Is(ts[i], '}') ==> next == now)
  {
    OpenStep(ts, i);
    var open := OpenAt(ts, i);
    if Is(ts[i], '{') {
      assert Opens(ts[i]);
    } else if Closes(ts[i]) {
      WithinIsStack(ts, i, open);
      OpenerHasCloser(ts, m, open.index);
      BracePair(open.token, ts[i]);
    }
  }

  lemma BracePair(open: Token, close: Token)
    requires SameKind(open, close)
    ensures Is(open, '{') <==> Is(close, '}')
  {
  }

  lemma NothingEnclosesTheStart(ts: seq<Token>, m: map<int, int>)
    requires Matched(ts, m)
    ensures BraceCloses(m, OpenAt(ts, 0)) == []
  {
  }

  method Regions(ts: seq<Token>, m: map<int, int>) returns (regionEnd: seq<int>)
    requires Matched(ts, m)
    ensures |regionEnd| == |ts| && forall i :: 0 <= i < |ts| ==> regionEnd[i] == RegionOf(ts, m, OpenAt(ts, i))
  {
    hide Is, IsMatching, Balanced, OpenAt, BraceCloses, RegionOf;
    var enclosing: seq<int> := [];
    regionEnd := [];
    NothingEnclosesTheStart(ts, m);
    for i := 0 to |ts|
      invariant enclosing == BraceCloses(m, OpenAt(ts, i))
      invariant |regionEnd| == i && forall k :: 0 <= k < i ==> regionEnd[k] == RegionOf(ts, m, OpenAt(ts, k))
    {
      InnermostBraceCloses(ts, m, OpenAt(ts, i));
      BracesStep(ts, m, i);
      regionEnd := regionEnd + [if enclosing != [] then enclosing[|enclosing| - 1] else |ts|];
      if Is(ts[i], '{') {
        enclosing := enclosing + [m[i]];
      } else if Is(ts[i], '}') {
        enclosing := enclosing[..|enclosing| - 1];
      }
    }
  }

  // ----- attributes -------------------------------------------------------

  method CollectAttrs(ts: seq<Token>, m: map<int, int>, first: int) returns (attrs: seq<Attr>, after: int)
    requires Matched(ts, m) && 0 <= first <= |ts|
    ensures attrs == AttrRun(ts, m, first) && after == AfterRun(ts, m, first)
  {
    hide IsMatching, Balanced;
    attrs, after := [], first;
    while after < |ts| && AttrAt(ts, m, after).Some?
      invariant first <= after <= |ts|
      invariant AttrRun(ts, m, first) == attrs + AttrRun(ts, m, after)
      invariant AfterRun(ts, m, after) == AfterRun(ts, m, first)
      decreases |ts| - after
    {
      var a := AttrAt(ts, m, after).value;
      assert attrs + ([a] + AttrRun(ts, m, a.end)) == (attrs + [a]) + AttrRun(ts, m, a.end);
      attrs, after := attrs + [a], a.end;
    }
  }

  /** Whether an attribute is false in a build without `test`. */
  method IsFalse(attr: Attr) returns (b: bool)
    ensures b == Excluding(attr)
  {
    if attr.body == [] {
      return false;
    }
    if attr.body[0].value == "cfg" && |attr.body| >= 3 && Is(attr.body[1], '(') {
      var value := CfgValue.Evaluate(attr.body[2..|attr.body| - 1]);
      return value == Some(false);
    }
    return TestPath(attr.body);
  }

  method Judge(attrs: seq<Attr>) returns (innerExclude: bool, exclude: bool)
    ensures innerExclude <==> exists k :: 0 <= k < |attrs| && attrs[k].inner && Excluding(attrs[k])
    ensures innerExclude || exclude <==> exists k :: 0 <= k < |attrs| && Excluding(attrs[k])
  {
    hide Excluding;
    innerExclude, exclude := false, false;
    for j := 0 to |attrs|
      invariant innerExclude <==> exists k :: 0 <= k < j && attrs[k].inner && Excluding(attrs[k])
      invariant innerExclude || exclude <==> exists k :: 0 <= k < j && Excluding(attrs[k])
    {
      var b := IsFalse(attrs[j]);
      if b {
        if attrs[j].inner {
          innerExclude := true;
        } else {
          exclude := true;
        }
      }
    }
  }

  // ----- the flags --------------------------------------------------------

  function Filter(ts: seq<Token>, keep: seq<bool>, hi: int): seq<Token>
    requires 0 <= hi <= |ts| == |keep|
    decreases hi
  {
    if hi == 0 then [] else Filter(ts, keep, hi - 1) + if keep[hi - 1] then [ts[hi - 1]] else []
  }

  lemma {:induction false} FilterOfPrefix(ts: seq<Token>, a: seq<bool>, b: seq<bool>, hi: int)
    requires 0 <= hi <= |ts| == |a| == |b| && forall k :: 0 <= k < hi ==> a[k] == b[k]
    ensures Filter(ts, a, hi) == Filter(ts, b, hi)
    decreases hi
  {
    if hi > 0 {
      FilterOfPrefix(ts, a, b, hi - 1);
    }
  }

  lemma {:induction false} FilterRange(ts: seq<Token>, keep: seq<bool>, lo: int, hi: int, all: bool)
    requires 0 <= lo <= hi <= |ts| == |keep| && forall k :: lo <= k < hi ==> keep[k] == all
    ensures Filter(ts, keep, hi) == Filter(ts, keep, lo) + if all then ts[lo..hi] else []
    decreases hi
  {
    if lo < hi {
      FilterRange(ts, keep, lo, hi - 1, all);
      assert ts[lo..hi] == ts[lo..hi - 1] + [ts[hi - 1]];
    } else {
      assert Filter(ts, keep, hi) + [] == Filter(ts, keep, hi);
    }
  }

  method Clear(keep: array<bool>, lo: int, hi: int)
    requires 0 <= lo <= hi <= keep.Length
    modifies keep
    ensures forall k :: 0 <= k < keep.Length ==> keep[k] == (old(keep[k]) && !(lo <= k < hi))
  {
    for i := lo to hi
      invariant forall k :: 0 <= k < keep.Length ==> keep[k] == (old(keep[k]) && !(lo <= k < i))
    {
      keep[i] := false;
    }
  }

  /** Clear the flags of [lo, hi) unless they are to stay. */
  method Settle(ts: seq<Token>, keep: array<bool>, lo: int, hi: int, stay: bool)
    requires 0 <= lo <= hi <= |ts| == keep.Length && forall k :: lo <= k < |ts| ==> keep[k]
    modifies keep
    ensures forall k :: 0 <= k < lo || hi <= k < |ts| ==> keep[k] == old(keep[k])
    ensures Filter(ts, keep[..], lo) == Filter(ts, old(keep[..]), lo)
    ensures Filter(ts, keep[..], hi) == Filter(ts, old(keep[..]), lo) + if stay then ts[lo..hi] else []
  {
    hide Filter;
    ghost var before := keep[..];
    if !stay {
      Clear(keep, lo, hi);
    }
    FilterOfPrefix(ts, before, keep[..], lo);
    FilterRange(ts, keep[..], lo, hi, stay);
  }

  /** Drop every attribute of the run other than `path` ones. */
  method DropAttrs(ts: seq<Token>, m: map<int, int>, keep: array<bool>, first: int, attrs: seq<Attr>)
    requires Matched(ts, m) && 0 <= first <= |ts| == keep.Length && attrs == AttrRun(ts, m, first)
    requires forall k :: first <= k < |ts| ==> keep[k]
    modifies keep
    ensures forall k :: 0 <= k < first || AfterRun(ts, m, first) <= k < |ts| ==> keep[k] == old(keep[k])
    ensures Filter(ts, keep[..], AfterRun(ts, m, first)) == Filter(ts, old(keep[..]), first) + KeptAttrs(ts, attrs)
  {
    hide IsMatching, Balanced, AttrAt, Dropped, KeptAttrs, Filter, AttrRun, AfterRun, Piece;
    ghost var total := Filter(ts, keep[..], first) + KeptAttrs(ts, attrs);
    var at := first;
    ghost var rest := attrs;
    for j := 0 to |attrs|
      invariant first <= at <= |ts| && rest == attrs[j..] == AttrRun(ts, m, at)
          && AfterRun(ts, m, at) == AfterRun(ts, m, first)
      invariant forall k :: 0 <= k < first || at <= k < |ts| ==> keep[k] == old(keep[k])
      invariant Filter(ts, keep[..], at) + KeptAttrs(ts, rest) == total
    {
      var a := attrs[j];
      assert rest == [a] + attrs[j + 1..];
      rest := attrs[j + 1..];
      NextAttr(ts, m, at, a, rest);
      ghost var done := Filter(ts, keep[..], at);
      Settle(ts, keep, a.start, a.end, !Dropped(a));
      PieceOf(ts, a);
      assert done + (Piece(ts, a) + KeptAttrs(ts, rest)) == (done + Piece(ts, a)) + KeptAttrs(ts, rest);
      at := a.end;
    }
    NoMoreAttrs(ts, m, at);
  }

  lemma PieceOf(ts: seq<Token>, a: Attr)
    requires 0 <= a.start <= a.end <= |ts|
    ensures Piece(ts, a) == if !Dropped(a) then ts[a.start..a.end] else []
  {
  }

  lemma NoMoreAttrs(ts: seq<Token>, m: map<int, int>, at: int)
    requires Matched(ts, m) && 0 <= at <= |ts| && AttrRun(ts, m, at) == []
    ensures AfterRun(ts, m, at) == at && KeptAttrs(ts, []) == []
    ensures forall s: seq<Token> :: s + [] == s
  {
  }

  function Piece(ts: seq<Token>, a: Attr): seq<Token>
    requires 0 <= a.start <= a.end <= |ts|
  {
    if Dropped(a) then [] else ts[a.start..a.end]
  }

  lemma NextAttr(ts: seq<Token>, m: map<int, int>, at: int, a: Attr, rest: seq<Attr>)
    requires Matched(ts, m) && 0 <= at <= |ts| && AttrRun(ts, m, at) == [a] + rest
    ensures a.start == at < a.end <= |ts| && rest == AttrRun(ts, m, a.end)
        && AfterRun(ts, m, a.end) == AfterRun(ts, m, at)
    ensures KeptAttrs(ts, [a] + rest) == Piece(ts, a) + KeptAttrs(ts, rest)
  {
    hide IsMatching, Balanced, AttrAt, Dropped;
    assert ([a] + rest)[0] == a && ([a] + rest)[1..] == rest;
  }

  lemma KeptStep(ts: seq<Token>, m: map<int, int>, i: int)
    requires Matched(ts, m) && 0 <= i < |ts|
    ensures AttrAt(ts, m, i).None? ==> Kept(ts, m, i) == [ts[i]] + Kept(ts, m, i + 1)
    ensures AttrAt(ts, m, i).Some? ==> AfterRun(ts, m, i) > i
    ensures AttrAt(ts, m, i).Some? && Exclusion(ts, m, i).Some? ==>
        Kept(ts, m, i) == Kept(ts, m, Exclusion(ts, m, i).value)
    ensures AttrAt(ts, m, i).Some? && Exclusion(ts, m, i).None? ==>
              Kept(ts, m, i) == KeptAttrs(ts, AttrRun(ts, m, i)) + Kept(ts, m, AfterRun(ts, m, i))
  {
    hide IsMatching, Balanced, AttrAt, Exclusion, KeptAttrs;
  }

  /** One round of the scan: one token, or one run of attributes and what it removes. */
  method Advance(ts: seq<Token>, m: map<int, int>, keep: array<bool>, regionEnd: seq<int>, first: int)
    returns (next: int)
    requires Matched(ts, m) && 0 <= first < |ts| == keep.Length == |regionEnd|
    requires forall k :: 0 <= k < |ts| ==> regionEnd[k] == RegionOf(ts, m, OpenAt(ts, k))
    requires forall k :: first <= k < |ts| ==> keep[k]
    modifies keep
    ensures first < next <= |ts|
    ensures forall k :: next <= k < |ts| ==> keep[k]
    ensures Filter(ts, keep[..], next) + Kept(ts, m, next) == Filter(ts, old(keep[..]), first) + Kept(ts, m, first)
  {
    hide IsMatching, Balanced, AttrAt, AttrRun, AfterRun, Kept, Excluding, Filter, KeptAttrs, ItemEnd, RegionOf, OpenAt;
    ghost var before := keep[..];
    KeptStep(ts, m, first);
    if AttrAt(ts, m, first).None? {
      FilterRange(ts, keep[..], first, first + 1, true);
      assert ts[first..first + 1] == [ts[first]];
      assert Filter(ts, before, first) + ([ts[first]] + Kept(ts, m, first + 1))
          == (Filter(ts, before, first) + [ts[first]]) + Kept(ts, m, first + 1);
      return first + 1;
    }
    var attrs, after := CollectAttrs(ts, m, first);
    var innerExclude, exclude := Judge(attrs);
    if innerExclude {
      next := regionEnd[first];
    } else if exclude {
      next := ItemEndOf(ts, m, after);
      next := if next > after then next else after;
    } else {
      DropAttrs(ts, m, keep, first, attrs);
      ghost var kept := KeptAttrs(ts, attrs);
      assert Filter(ts, before, first) + (kept + Kept(ts, m, after))
          == (Filter(ts, before, first) + kept) + Kept(ts, m, after);
      return after;
    }
    assert Exclusion(ts, m, first) == Some(next);
    Settle(ts, keep, first, next, false);
    assert Filter(ts, before, first) + [] == Filter(ts, before, first);
  }

  /** Err exactly where the delimiters do not match; otherwise, in order, the tokens that lie in no removed item or
      region and in no dropped attribute. */
  method Production(ts: seq<Token>) returns (r: Result<seq<Token>, string>)
    ensures r.Ok? <==> Balanced(ts)
    ensures r.Ok? ==> exists m :: Matched(ts, m) && r.value == Kept(ts, m, 0)
                                  && r.value == KeptTokens.Selected(ts, KeptTokens.Flags(ts, m), 0, |ts|)
  {
    var matching := Pairs(ts);
    if matching.Err? {
      return Err(matching.error);
    }
    var m := matching.value;
    hide IsMatching, Balanced, AttrAt, Excluding, Filter, KeptAttrs, ItemEnd, RegionOf;
    var keep := new bool[|ts|](_ => true);
    var regionEnd := Regions(ts, m);
    var i := 0;
    while i < |ts|
      invariant 0 <= i <= |ts|
      invariant forall k :: i <= k < |ts| ==> keep[k]
      invariant Filter(ts, keep[..], i) + Kept(ts, m, i) == Kept(ts, m, 0)
      decreases |ts| - i
    {
      i := Advance(ts, m, keep, regionEnd, i);
    }
    assert Filter(ts, keep[..], |ts|) + [] == Filter(ts, keep[..], |ts|);
    KeptTokens.KeptExactly(ts, m);
    return Ok(Filter(ts, keep[..], |ts|));
  }
}
