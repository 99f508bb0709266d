/** Which tokens survive the removal of test-only items, said token by token. */
module KeptTokens {
  import opened Wrappers
  import opened RustTokens
  import opened Delimiters
  import opened ProductionTokens

  type Range = (int, int)

  predicate LiesIn(rs: seq<Range>, k: int) {
    exists n :: 0 <= n < |rs| && rs[n].0 <= k < rs[n].1
  }

  /** The dropped attributes of a run. */
  function DroppedIn(run: seq<Attr>): seq<Range> {
    if run == [] then [] else (if Dropped(run[0]) then [(run[0].start, run[0].end)] else []) + DroppedIn(run[1..])
  }

  /** The attributes [start, end) that the scan from `i` on drops from items that stay. */
  function Drops(ts: seq<Token>, m: map<int, int>, i: int): seq<Range>
    requires Matched(ts, m) && 0 <= i <= |ts|
    decreases |ts| - i
  {
    if i == |ts| then []
    else if AttrAt(ts, m, i).None? then Drops(ts, m, i + 1)
    else match Exclusion(ts, m, i)
      case Some(end) => Drops(ts, m, end)
      case None => DroppedIn(AttrRun(ts, m, i)) + Drops(ts, m, AfterRun(ts, m, i))
  }

  /** Token `k` is in no removed item or region and in no dropped attribute. */
  predicate Stays(ts: seq<Token>, m: map<int, int>, k: int)
    requires Matched(ts, m)
  {
    !LiesIn(Removals(ts, m, 0), k) && !LiesIn(Drops(ts, m, 0), k)
  }

  function Flags(ts: seq<Token>, m: map<int, int>): seq<bool>
    requires Matched(ts, m)
  {
    seq(|ts|, k requires 0 <= k < |ts| => Stays(ts, m, k))
  }

  /** The tokens of [lo, hi) whose flag is set, in order. */
  function Selected(ts: seq<Token>, flags: seq<bool>, lo: int, hi: int): seq<Token>
    requires 0 <= lo <= hi <= |ts| == |flags|
    decreases hi - lo
  {
    if lo == hi then [] else (if flags[lo] then [ts[lo]] else []) + Selected(ts, flags, lo + 1, hi)
  }

  lemma {:induction false} SelectedSplits(ts: seq<Token>, flags: seq<bool>, lo: int, mid: int, hi: int)
    requires 0 <= lo <= mid <= hi <= |ts| == |flags|
    ensures Selected(ts, flags, lo, hi) == Selected(ts, flags, lo, mid) + Selected(ts, flags, mid, hi)
    decreases mid - lo
  {
    if lo < mid {
      SelectedSplits(ts, flags, lo + 1, mid, hi);
      var head := if flags[lo] then [ts[lo]] else [];
      assert head + (Selected(ts, flags, lo + 1, mid) + Selected(ts, flags, mid, hi))
          == head + Selected(ts, flags, lo + 1, mid) + Selected(ts, flags, mid, hi);
    }
  }

  lemma {:induction false} AllOrNone(ts: seq<Token>, flags: seq<bool>, lo: int, hi: int, all: bool)
    requires 0 <= lo <= hi <= |ts| == |flags| && forall k :: lo <= k < hi ==> flags[k] == all
    ensures Selected(ts, flags, lo, hi) == if all then ts[lo..hi] else []
    decreases hi - lo
  {
    if lo < hi {
      AllOrNone(ts, flags, lo + 1, hi, all);
      assert ts[lo..hi] == [ts[lo]] + ts[lo + 1..hi];
    }
  }

  lemma LiesInConcat(a: seq<Range>, b: seq<Range>, k: int)
    ensures LiesIn(a + b, k) <==> LiesIn(a, k) || LiesIn(b, k)
  {
    if n :| 0 <= n < |a| && a[n].0 <= k < a[n].1 {
      assert (a + b)[n] == a[n];
    }
    if n :| 0 <= n < |b| && b[n].0 <= k < b[n].1 {
      assert (a + b)[|a| + n] == b[n];
    }
  }

  // ----- where the ranges lie ---------------------------------------------

  ghost predicate From(rs: seq<Range>, low: int, high: int) {
    forall n :: 0 <= n < |rs| ==> low <= rs[n].0 && rs[n].1 <= high
  }

  lemma {:induction false} DroppedInLies(ts: seq<Token>, m: map<int, int>, i: int)
    requires Matched(ts, m) && 0 <= i <= |ts|
    ensures From(DroppedIn(AttrRun(ts, m, i)), i, AfterRun(ts, m, i))
    decreases |ts| - i
  {
    hide Matched, AttrAt, Dropped;
    if i < |ts| && AttrAt(ts, m, i).Some? {
      DroppedInLies(ts, m, AttrAt(ts, m, i).value.end);
      var run := AttrRun(ts, m, i);
      assert run[1..] == AttrRun(ts, m, AttrAt(ts, m, i).value.end);
    }
  }

  lemma {:induction false} DropsLie(ts: seq<Token>, m: map<int, int>, i: int)
    requires Matched(ts, m) && 0 <= i <= |ts|
    ensures From(Drops(ts, m, i), i, |ts|)
    decreases |ts| - i
  {
    hide Matched, AttrAt, Exclusion, AttrRun, AfterRun, DroppedIn;
    if i < |ts| {
      if AttrAt(ts, m, i).None? {
        DropsLie(ts, m, i + 1);
      } else if Exclusion(ts, m, i).Some? {
        DropsLie(ts, m, Exclusion(ts, m, i).value);
      } else {
        DroppedInLies(ts, m, i);
        DropsLie(ts, m, AfterRun(ts, m, i));
      }
    }
  }

  lemma RemovalsLie(ts: seq<Token>, m: map<int, int>, i: int)
    requires Matched(ts, m) && 0 <= i <= |ts|
    ensures From(Removals(ts, m, i), i, |ts|)
  {
    hide Removals;
  }

  lemma OutOfReach(rs: seq<Range>, low: int, high: int, k: int)
    requires From(rs, low, high) && !(low <= k < high)
    ensures !LiesIn(rs, k)
  {
  }

  // ----- the theorem ------------------------------------------------------

  /** From `i` on the flags say what the scan from `i` on leaves. */
  ghost predicate Agree(ts: seq<Token>, m: map<int, int>, flags: seq<bool>, i: int)
    requires Matched(ts, m) && 0 <= i <= |ts|
  {
    |flags| == |ts| &&
    forall k :: i <= k < |ts| ==> (flags[k] <==> !LiesIn(Removals(ts, m, i), k) && !LiesIn(Drops(ts, m, i), k))
  }

  lemma {:induction false} KeptOfRun(ts: seq<Token>, m: map<int, int>, flags: seq<bool>, i: int)
    requires Matched(ts, m) && 0 <= i <= |ts| == |flags|
    requires forall k :: i <= k < AfterRun(ts, m, i) ==> (flags[k] <==> !LiesIn(DroppedIn(AttrRun(ts, m, i)), k))
    ensures KeptAttrs(ts, AttrRun(ts, m, i)) == Selected(ts, flags, i, AfterRun(ts, m, i))
    decreases |ts| - i
  {
    hide Matched, AttrAt, Dropped, LiesIn;
    if i < |ts| && AttrAt(ts, m, i).Some? {
      var a := AttrAt(ts, m, i).value;
      var run, rest := AttrRun(ts, m, i), AttrRun(ts, m, a.end);
      assert run[0] == a && run[1..] == rest;
      var mine := if Dropped(a) then [(a.start, a.end)] else [];
      DroppedInLies(ts, m, a.end);
      forall k | i <= k < AfterRun(ts, m, i)
        ensures flags[k] <==> !LiesIn(mine, k) && !LiesIn(DroppedIn(rest), k)
        ensures k < a.end ==> !LiesIn(DroppedIn(rest), k) && (LiesIn(mine, k) <==> Dropped(a))
        ensures k >= a.end ==> !LiesIn(mine, k)
      {
        LiesInConcat(mine, DroppedIn(rest), k);
        OneRange(a.start, a.end, k);
        if k < a.end {
          OutOfReach(DroppedIn(rest), a.end, AfterRun(ts, m, i), k);
        }
      }
      KeptOfRun(ts, m, flags, a.end);
      AllOrNone(ts, flags, i, a.end, !Dropped(a));
      SelectedSplits(ts, flags, i, a.end, AfterRun(ts, m, i));
    }
  }

  lemma OneRange(a: int, b: int, k: int)
    ensures LiesIn([(a, b)], k) <==> a <= k < b
    ensures !LiesIn([], k)
  {
    assert [(a, b)][0] == (a, b);
  }

  lemma {:induction false} KeptFrom(ts: seq<Token>, m: map<int, int>, flags: seq<bool>, i: int)
    requires Matched(ts, m) && 0 <= i <= |ts| && Agree(ts, m, flags, i)
    ensures Kept(ts, m, i) == Selected(ts, flags, i, |ts|)
    decreases |ts| - i
  {
    hide Matched, AttrAt, Exclusion, AttrRun, AfterRun, DroppedIn, KeptAttrs, LiesIn;
    if i < |ts| {
      if AttrAt(ts, m, i).None? {
        RemovalsLie(ts, m, i + 1);
        DropsLie(ts, m, i + 1);
        OutOfReach(Removals(ts, m, i + 1), i + 1, |ts|, i);
        OutOfReach(Drops(ts, m, i + 1), i + 1, |ts|, i);
        KeptFrom(ts, m, flags, i + 1);
      } else if Exclusion(ts, m, i).Some? {
        var end := Exclusion(ts, m, i).value;
        forall k | i <= k < |ts|
          ensures flags[k] <==> end <= k && !LiesIn(Removals(ts, m, end), k) && !LiesIn(Drops(ts, m, end), k)
        {
          LiesInConcat([(i, end)], Removals(ts, m, end), k);
          OneRange(i, end, k);
        }
        KeptFrom(ts, m, flags, end);
        AllOrNone(ts, flags, i, end, false);
        SelectedSplits(ts, flags, i, end, |ts|);
      } else {
        var after := AfterRun(ts, m, i);
        var mine := DroppedIn(AttrRun(ts, m, i));
        DroppedInLies(ts, m, i);
        RemovalsLie(ts, m, after);
        DropsLie(ts, m, after);
        forall k | i <= k < |ts|
          ensures k < after ==> (flags[k] <==> !LiesIn(mine, k))
          ensures k >= after ==> (flags[k] <==> !LiesIn(Removals(ts, m, after), k) && !LiesIn(Drops(ts, m, after), k))
        {
          LiesInConcat(mine, Drops(ts, m, after), k);
          if k < after {
            OutOfReach(Removals(ts, m, after), after, |ts|, k);
            OutOfReach(Drops(ts, m, after), after, |ts|, k);
          } else {
            OutOfReach(mine, i, after, k);
          }
        }
        KeptOfRun(ts, m, flags, i);
        KeptFrom(ts, m, flags, after);
        SelectedSplits(ts, flags, i, after, |ts|);
      }
    }
  }

  /** A token is kept exactly when it lies in no removal and in no dropped attribute, and the kept ones keep their
      order. */
  lemma KeptExactly(ts: seq<Token>, m: map<int, int>)
    requires Matched(ts, m)
    ensures Kept(ts, m, 0) == Selected(ts, Flags(ts, m), 0, |ts|)
  {
    hide Matched, Kept, Removals, Drops, LiesIn;
    KeptFrom(ts, m, Flags(ts, m), 0);
  }

  // ----- every exclusion is acted on --------------------------------------

  /** No attribute that starts before `i` reaches beyond it. */
  ghost predicate Unenclosed(ts: seq<Token>, m: map<int, int>, i: int)
    requires Matched(ts, m) && 0 <= i < |ts|
  {
    forall j :: 0 <= j < i && AttrAt(ts, m, j).Some? ==> AttrAt(ts, m, j).value.end <= i
  }

  /** A run that reaches beyond `i` has an attribute that starts there, and goes on as the run from `i` does. */
  lemma {:induction false} RunPasses(ts: seq<Token>, m: map<int, int>, p: int, i: int) returns (n: int)
    requires Matched(ts, m) && 0 <= p <= i < |ts| && i < AfterRun(ts, m, p) && Unenclosed(ts, m, i)
    ensures 0 <= n <= |AttrRun(ts, m, p)| && AttrRun(ts, m, p)[n..] == AttrRun(ts, m, i)
    decreases |ts| - p
  {
    hide Matched, AttrAt;
    if p == i {
      n := 0;
    } else {
      var first := AttrAt(ts, m, p).value;
      var rest := AttrRun(ts, m, first.end);
      n := RunPasses(ts, m, first.end, i);
      assert AttrRun(ts, m, p) == [first] + rest;
      assert ([first] + rest)[n + 1..] == rest[n..];
      n := n + 1;
    }
  }

  /** The exclusion at `i` is also one for a run that reaches beyond `i`. */
  lemma ExcludesEarlier(ts: seq<Token>, m: map<int, int>, p: int, i: int)
    requires Matched(ts, m) && 0 <= p <= i < |ts| && i < AfterRun(ts, m, p) && Unenclosed(ts, m, i)
    requires Exclusion(ts, m, i).Some?
    ensures Exclusion(ts, m, p).Some?
  {
    hide Matched, Excluding, AttrRun, AfterRun, Unenclosed, ItemEnd, RegionOf;
    var n := RunPasses(ts, m, p, i);
    var run := AttrRun(ts, m, i);
    var k :| 0 <= k < |run| && Excluding(run[k]);
    assert AttrRun(ts, m, p)[n + k] == run[k];
  }

  lemma {:induction false} ExclusionIsReached(ts: seq<Token>, m: map<int, int>, p: int, i: int)
    requires Matched(ts, m) && 0 <= p <= i < |ts| && Unenclosed(ts, m, i)
    requires AttrAt(ts, m, i).Some? && Exclusion(ts, m, i).Some?
    ensures LiesIn(Removals(ts, m, p), i)
    decreases |ts| - p
  {
    hide Matched, AttrAt, Exclusion, AttrRun, AfterRun, Unenclosed, LiesIn;
    if AttrAt(ts, m, p).None? {
      ExclusionIsReached(ts, m, p + 1, i);
    } else if Exclusion(ts, m, p).Some? {
      var end := Exclusion(ts, m, p).value;
      LiesInConcat([(p, end)], Removals(ts, m, end), i);
      OneRange(p, end, i);
      if end <= i {
        ExclusionIsReached(ts, m, end, i);
      }
    } else if i < AfterRun(ts, m, p) {
      ExcludesEarlier(ts, m, p, i);
    } else {
      ExclusionIsReached(ts, m, AfterRun(ts, m, p), i);
    }
  }

  /** Completeness: wherever a run of attributes excludes, unless it stands inside another attribute, its first token is
      removed, and with it the item or the region. */
  lemma EveryExclusionRemoves(ts: seq<Token>, m: map<int, int>, i: int)
    requires Matched(ts, m) && 0 <= i < |ts| && Unenclosed(ts, m, i)
    requires AttrAt(ts, m, i).Some? && Exclusion(ts, m, i).Some?
    ensures !Stays(ts, m, i)
  {
    ExclusionIsReached(ts, m, 0, i);
  }

  // ----- why a removal is made --------------------------------------------

  /** `a` is `#[cfg(...)]` around a spelling of `p`. */
  ghost predicate CfgOf(a: Attr, p: CfgValue.Pred) {
    && |a.body| >= 3 && a.body[0].value == "cfg" && Is(a.body[1], '(')
    && CfgValue.Spells(a.body[2..|a.body| - 1], p)
  }

  /** An item excluded for its `cfg` predicate is in no build without `test`, whatever the other options are. */
  lemma ExcludedIsNeverBuilt(a: Attr, p: CfgValue.Pred, o: CfgValue.Options)
    requires CfgOf(a, p) && Excluding(a)
    ensures !CfgValue.Holds(p, o)
  {
    CfgValue.DefiniteValueHolds(a.body[2..|a.body| - 1], p, o);
  }

  /** Every removal starts with a run of attributes one of which excludes; a dropped attribute is an attribute other
      than `path`. */
  lemma RemovalHasReason(ts: seq<Token>, m: map<int, int>, k: int) returns (a: Attr)
    requires Matched(ts, m) && 0 <= k < |Removals(ts, m, 0)|
    ensures a in AttrRun(ts, m, Removals(ts, m, 0)[k].0) && Excluding(a)
    ensures forall p, o :: CfgOf(a, p) ==> !CfgValue.Holds(p, o)
  {
    hide CfgOf, Removals;
    RemovalsAreExclusions(ts, m, 0, k);
    var run := AttrRun(ts, m, Removals(ts, m, 0)[k].0);
    var n :| 0 <= n < |run| && Excluding(run[n]);
    a := run[n];
    forall p, o | CfgOf(a, p) ensures !CfgValue.Holds(p, o) {
      ExcludedIsNeverBuilt(a, p, o);
    }
  }

  lemma {:induction false} DropHasReason(ts: seq<Token>, m: map<int, int>, i: int, n: int) returns (a: Attr)
    requires Matched(ts, m) && 0 <= i <= |ts| && 0 <= n < |Drops(ts, m, i)|
    ensures Dropped(a) && Drops(ts, m, i)[n] == (a.start, a.end)
    ensures 0 <= a.start < |ts| && AttrAt(ts, m, a.start) == Some(a)
    decreases |ts| - i
  {
    hide Matched, AttrAt, Exclusion, AttrRun, AfterRun, DroppedIn;
    if AttrAt(ts, m, i).None? {
      a := DropHasReason(ts, m, i + 1, n);
    } else if Exclusion(ts, m, i).Some? {
      a := DropHasReason(ts, m, Exclusion(ts, m, i).value, n);
    } else {
      var mine := DroppedIn(AttrRun(ts, m, i));
      if n < |mine| {
        a := DropInRun(ts, m, i, n);
      } else {
        a := DropHasReason(ts, m, AfterRun(ts, m, i), n - |mine|);
      }
    }
  }

  lemma {:induction false} DropInRun(ts: seq<Token>, m: map<int, int>, i: int, n: int) returns (a: Attr)
    requires Matched(ts, m) && 0 <= i <= |ts| && 0 <= n < |DroppedIn(AttrRun(ts, m, i))|
    ensures Dropped(a) && DroppedIn(AttrRun(ts, m, i))[n] == (a.start, a.end)
    ensures 0 <= a.start < |ts| && AttrAt(ts, m, a.start) == Some(a)
    decreases |ts| - i
  {
    hide Matched, AttrAt, Dropped;
    var first := AttrAt(ts, m, i).value;
    var run := AttrRun(ts, m, i);
    assert run[0] == first && run[1..] == AttrRun(ts, m, first.end);
    if Dropped(first) && n == 0 {
      a := first;
    } else {
      a := DropInRun(ts, m, first.end, if Dropped(first) then n - 1 else n);
    }
  }

  // ----- an item that swallows a closer -----------------------------------

  function Mark(c: char): Token {
    Token(Punct, [c], [c], 1, 1)
  }

  function Name(text: string): Token {
    Token(Ident, text, text, 1, 1)
  }

  /** A call whose argument carries a test attribute: `f(#[test] x);` */
  const CALL := [Name("f"), Mark('('), Mark('#'), Mark('['), Name("test"), Mark(']'), Name("x"), Mark(')'), Mark(';')]
  const CALL_PAIRS := map[1 := 7, 7 := 1, 3 := 5, 5 := 3]

  lemma MarkKinds(c: char)
    ensures Opens(Mark(c)) <==> c == '(' || c == '[' || c == '{'
    ensures Closes(Mark(c)) <==> c == ')' || c == ']' || c == '}'
  {
  }

  lemma NameKinds(text: string)
    requires text != [] && 'a' <= text[0] <= 'z'
    ensures !Opens(Name(text)) && !Closes(Name(text))
  {
  }

  lemma CallKinds()
    ensures forall k :: 0 <= k < 9 ==> (Opens(CALL[k]) <==> k == 1 || k == 3) && (Closes(CALL[k]) <==> k == 5 || k == 7)
    ensures SameKind(CALL[1], CALL[7]) && SameKind(CALL[3], CALL[5])
  {
    MarkKinds('(');
    MarkKinds(')');
    MarkKinds('[');
    MarkKinds(']');
    MarkKinds('#');
    MarkKinds(';');
    NameKinds("f");
    NameKinds("test");
    NameKinds("x");
  }

  lemma CallStacks()
    ensures var ts := CALL;
            var one := Inside(1, ts[1], Outside);
            var two := Inside(3, ts[3], one);
            && Stack(ts, 1) == Some(Outside) && Stack(ts, 2) == Some(one) && Stack(ts, 3) == Some(one)
            && Stack(ts, 4) == Some(two) && Stack(ts, 5) == Some(two) && Stack(ts, 6) == Some(one)
            && Stack(ts, 7) == Some(one) && Stack(ts, 8) == Some(Outside) && Stack(ts, 9) == Some(Outside)
  {
    hide Opens, Closes, SameKind;
    CallKinds();
    var ts := CALL;
    var one := Inside(1, ts[1], Outside);
    var two := Inside(3, ts[3], one);
    assert Stack(ts, 0) == Some(Outside);
    assert Stack(ts, 1) == Some(Outside);
    assert Stack(ts, 2) == Some(one);
    assert Stack(ts, 3) == Some(one);
    assert Stack(ts, 4) == Some(two);
    assert Stack(ts, 5) == Some(two);
    assert Stack(ts, 6) == Some(one);
    assert Stack(ts, 7) == Some(one);
    assert Stack(ts, 8) == Some(Outside);
  }

  /** The matching of the filtered stream can fail: the excluded argument's extent runs past the parenthesis. */
  lemma RemovalSwallowsCloser()
    ensures Matched(CALL, CALL_PAIRS)
    ensures !AllContained(CALL, CALL_PAIRS, 0) && !Balanced(Kept(CALL, CALL_PAIRS, 0))
  {
    CallStacks();
    CallRemoval();
    KeptBalancedExactlyWhen(CALL, CALL_PAIRS);
  }

  lemma CallIsMatched()
    ensures Matched(CALL, CALL_PAIRS)
  {
    hide Stack, Opens, Closes, SameKind;
    CallStacks();
    CallKinds();
  }

  const TEST_ATTR := Attr(2, 6, false, [Name("test")])

  lemma CallAttr()
    ensures Matched(CALL, CALL_PAIRS)
    ensures AttrAt(CALL, CALL_PAIRS, 0).None? && AttrAt(CALL, CALL_PAIRS, 1).None? && AttrAt(CALL, CALL_PAIRS, 6).None?
    ensures AttrAt(CALL, CALL_PAIRS, 2) == Some(TEST_ATTR)
  {
    hide Matched;
    CallIsMatched();
    var ts := CALL;
    assert ts[4..5] == [Name("test")];
    assert !Is(ts[0], '#') && !Is(ts[1], '#') && !Is(ts[6], '#');
    assert Is(ts[2], '#') && !Is(ts[3], '!') && Is(ts[3], '[');
  }

  lemma CallRun()
    ensures Matched(CALL, CALL_PAIRS)
    ensures AttrRun(CALL, CALL_PAIRS, 2) == [TEST_ATTR] && AfterRun(CALL, CALL_PAIRS, 2) == 6
  {
    hide Matched, AttrAt;
    CallAttr();
    assert AttrRun(CALL, CALL_PAIRS, 6) == [] && AfterRun(CALL, CALL_PAIRS, 6) == 6;
  }

  lemma TestExcludes()
    ensures Excluding(TEST_ATTR)
  {
    var body := [Name("test")];
    assert !Is(body[0], '(') && FirstParen(body[1..]) == 0;
    assert body[..1] == body;
  }

  lemma CallEnd()
    ensures Matched(CALL, CALL_PAIRS) && ItemEnd(CALL, CALL_PAIRS, 6) == 9
  {
    hide Matched;
    CallIsMatched();
    var ts, m := CALL, CALL_PAIRS;
    assert ts[6].value == "x" && ItemHead(ts, m, 6) == 6 && !SemicolonItem(ts, m, 6);
    assert !Is(ts[6], ';') && !Is(ts[6], '}') && !Is(ts[7], ';') && !Is(ts[7], '}') && Is(ts[8], ';');
    assert !Opens(ts[6]) && !Opens(ts[7]) by {
      CallKinds();
    }
    assert Walk(ts, m, 8, false) == 9;
    assert Walk(ts, m, 7, false) == 9;
  }

  lemma CallRemoval()
    ensures Matched(CALL, CALL_PAIRS) && |Removals(CALL, CALL_PAIRS, 0)| > 0
        && Removals(CALL, CALL_PAIRS, 0)[0] == (2, 9)
    ensures OpenAt(CALL, 2) == Inside(1, CALL[1], Outside)
  {
    hide Matched, AttrAt, AttrRun, AfterRun, ItemEnd, Excluding, Stack;
    CallStacks();
    CallAttr();
    CallRun();
    TestExcludes();
    CallEnd();
    var ts, m := CALL, CALL_PAIRS;
    assert AttrRun(ts, m, 2)[0] == TEST_ATTR;
    assert Exclusion(ts, m, 2) == Some(9);
    assert Removals(ts, m, 2)[0] == (2, 9);
    assert Removals(ts, m, 1) == Removals(ts, m, 2);
  }
}
