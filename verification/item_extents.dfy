/**
 Where an excluded item ends and what goes with it, read off its own tokens: its keyword, its first body or its first
 semicolon outside brackets.
 */
module ItemExtents {
  import opened Wrappers
  import opened RustTokens
  import opened Delimiters
  import opened ProductionTokens
  import opened ItemEnds
  import CfgBuilds
  import KeptTokens

  // ----- the keyword ------------------------------------------------------

  /** `v` follows the visibility at `start`: none, `pub`, or `pub` and a parenthesis. */
  predicate AfterVisibility(ts: seq<Token>, m: map<int, int>, start: int, v: int) {
    0 <= start <= |ts| &&
    if start == |ts| || ts[start].value != "pub" then v == start
    else if start + 1 < |ts| && ts[start + 1].text == "(" then start + 1 in m && v == m[start + 1] + 1
    else v == start + 1
  }

  /** The keyword of the item at `start` stands at `h`, after its visibility and a `default`. */
  ghost predicate KeywordAt(ts: seq<Token>, m: map<int, int>, start: int, h: int) {
    exists v :: AfterVisibility(ts, m, start, v) && AfterDefault(ts, v, h)
  }

  predicate AfterDefault(ts: seq<Token>, v: int, h: int) {
    0 <= v <= h < |ts| && h == if ts[v].value == "default" then v + 1 else v
  }

  /** After the `const` at `h` come `unsafe`, `extern` and strings in any number, and then `fn`. */
  ghost predicate ConstFn(ts: seq<Token>, h: int) {
    exists f :: FnAt(ts, h, f)
  }

  predicate FnAt(ts: seq<Token>, h: int, f: int) {
    && 0 <= h < f < |ts| && ts[f].value == "fn" && ts[f].kind != Str
    && forall k :: h < k < f ==> ts[k].value == "unsafe" || ts[k].value == "extern" || ts[k].kind == Str
  }

  /** The keyword at `h` is that of an item whose braces hold a value: `static`, `let`, or `const` without a
      function. */
  ghost predicate HoldsValue(ts: seq<Token>, h: int)
    requires 0 <= h < |ts|
  {
    ts[h].value == "static" || ts[h].value == "let" || (ts[h].value == "const" && !ConstFn(ts, h))
  }

  lemma {:induction false} QualifiersEnd(ts: seq<Token>, i: int)
    requires 0 <= i
    ensures var f := AfterQualifiers(ts, i);
            && (f <= |ts| || f == i)
            && (forall k :: i <= k < f ==> ts[k].value == "unsafe" || ts[k].value == "extern" || ts[k].kind == Str)
            && (f < |ts| ==> ts[f].value != "unsafe" && ts[f].value != "extern" && ts[f].kind != Str)
    decreases |ts| - i
  {
    if i < |ts| && (ts[i].value == "unsafe" || ts[i].value == "extern" || ts[i].kind == Str) {
      QualifiersEnd(ts, i + 1);
    }
  }

  lemma ConstFnExactly(ts: seq<Token>, h: int)
    requires 0 <= h < |ts|
    ensures ConstFn(ts, h) <==> AfterQualifiers(ts, h + 1) < |ts| && ts[AfterQualifiers(ts, h + 1)].value == "fn"
  {
    QualifiersEnd(ts, h + 1);
    var g := AfterQualifiers(ts, h + 1);
    if f :| FnAt(ts, h, f) {
      assert f == g;
    }
    if g < |ts| && ts[g].value == "fn" {
      assert FnAt(ts, h, g);
    }
  }

  lemma VisibilityEnds(ts: seq<Token>, m: map<int, int>, start: int) returns (v: int)
    requires Matched(ts, m) && 0 <= start <= |ts|
    ensures AfterVisibility(ts, m, start, v) && start <= v <= |ts|
    ensures ItemHead(ts, m, start) == if v < |ts| && ts[v].value == "default" then v + 1 else v
  {
    hide Balanced, IsMatching, Opens;
    v := start;
    if start < |ts| && ts[start].value == "pub" {
      v := start + 1;
      if start + 1 < |ts| && Is(ts[start + 1], '(') {
        ParenthesisOpens(ts[start + 1]);
        OpenerPair(ts, m, start + 1);
        v := m[start + 1] + 1;
      }
    }
  }

  lemma OneVisibility(ts: seq<Token>, m: map<int, int>, start: int, v: int, w: int)
    requires AfterVisibility(ts, m, start, v) && AfterVisibility(ts, m, start, w)
    ensures v == w
  {
  }

  lemma HeadExactly(ts: seq<Token>, m: map<int, int>, start: int, h: int)
    requires Matched(ts, m) && 0 <= start <= |ts|
    ensures KeywordAt(ts, m, start, h) <==> ItemHead(ts, m, start) == h && h < |ts|
  {
    hide Matched, ItemHead, AfterVisibility;
    var v := VisibilityEnds(ts, m, start);
    if w :| AfterVisibility(ts, m, start, w) && AfterDefault(ts, w, h) {
      OneVisibility(ts, m, start, v, w);
    }
    if ItemHead(ts, m, start) == h && h < |ts| {
      assert AfterVisibility(ts, m, start, v) && AfterDefault(ts, v, h);
    }
  }

  /** An item ends at a semicolon, and not at a brace, exactly when its keyword is that of a value. */
  lemma ValueItemExactly(ts: seq<Token>, m: map<int, int>, start: int)
    requires Matched(ts, m) && 0 <= start <= |ts|
    ensures SemicolonItem(ts, m, start) <==> exists h :: KeywordAt(ts, m, start, h) && HoldsValue(ts, h)
  {
    hide Matched, ItemHead, KeywordAt, AfterQualifiers, ConstFn;
    var head := ItemHead(ts, m, start);
    forall h ensures KeywordAt(ts, m, start, h) <==> head == h && h < |ts| {
      HeadExactly(ts, m, start, h);
    }
    if head < |ts| {
      ConstFnExactly(ts, head);
      assert KeywordAt(ts, m, start, head);
    }
  }

  // ----- the first stop ---------------------------------------------------

  /** No bracket that opens in [start, k) is still open at `k`. */
  ghost predicate AtTop(ts: seq<Token>, m: map<int, int>, start: int, k: int) {
    forall a :: start <= a < k && 0 <= a < |ts| && Opens(ts[a]) && a in m ==> m[a] < k
  }

  /** No closing brace in [start, k) closes a brace from before `start`. */
  ghost predicate StaysInside(ts: seq<Token>, m: map<int, int>, start: int, k: int) {
    forall c :: start <= c < k && 0 <= c < |ts| && Is(ts[c], '}') && c in m ==> start <= m[c]
  }

  ghost predicate ValueItem(ts: seq<Token>, m: map<int, int>, start: int) {
    exists h :: KeywordAt(ts, m, start, h) && HoldsValue(ts, h)
  }

  /** Up to `k` nothing outside brackets stops an item: no semicolon, and no brace unless the item holds a value. */
  ghost predicate Runs(ts: seq<Token>, m: map<int, int>, start: int, k: int) {
    && 0 <= start <= k <= |ts| && AtTop(ts, m, start, k) && StaysInside(ts, m, start, k)
    && forall j :: start <= j < k && AtTop(ts, m, start, j)
                   ==> !Is(ts[j], ';') && (Is(ts[j], '{') ==> ValueItem(ts, m, start))
  }

  lemma RunIsBracketed(ts: seq<Token>, m: map<int, int>, start: int, k: int, j: int)
    requires Matched(ts, m) && Runs(ts, m, start, k) && start <= j < k && Halts(ts[j], SemicolonItem(ts, m, start))
    ensures Bracketed(ts, m, start, j, k)
  {
    hide Is, Opens, Closes, Matched, Matches, SemicolonItem, Runs, ValueItem;
    RunsBounds(ts, m, start, k);
    RunsHalt(ts, m, start, k, j);
    var a :| start <= a < j && Opens(ts[a]) && a in m && j <= m[a];
    OpenerPair(ts, m, a);
    TokenKinds(ts[j]);
    OpensNot(ts, m, a);
    assert m[a] < k by {
      RunsTop(ts, m, start, k, a);
    }
  }

  lemma RunsHalt(ts: seq<Token>, m: map<int, int>, start: int, k: int, j: int)
    requires Matched(ts, m) && Runs(ts, m, start, k) && start <= j < k && Halts(ts[j], SemicolonItem(ts, m, start))
    ensures !AtTop(ts, m, start, j)
  {
    hide Is, Matched, AtTop, SemicolonItem, KeywordAt, HoldsValue;
    ValueItemExactly(ts, m, start);
  }

  lemma RunsTop(ts: seq<Token>, m: map<int, int>, start: int, k: int, a: int)
    requires Runs(ts, m, start, k) && start <= a < k && a in m
    ensures Opens(ts[a]) ==> m[a] < k
    ensures Is(ts[a], '}') ==> start <= m[a]
  {
    hide Opens, Is, ValueItem;
  }

  /** An item that no stop ends runs to the end of the stream or to the brace that encloses it. */
  lemma RunsOut(ts: seq<Token>, m: map<int, int>, start: int, k: int)
    requires Matched(ts, m) && Runs(ts, m, start, k) && (k == |ts| || Is(ts[k], '}'))
    ensures ItemEnd(ts, m, start) == k
  {
    hide Is, Opens, Closes, Matched, Matches, SemicolonItem, Runs, Halts, ItemEnd;
    RunsBounds(ts, m, start, k);
    forall j | start <= j < k
      ensures Opens(ts[j]) ==> j in m && m[j] < k
      ensures Is(ts[j], '}') ==> j in m && start <= m[j]
      ensures Halts(ts[j], SemicolonItem(ts, m, start)) ==> Bracketed(ts, m, start, j, k)
    {
      Before(ts, m, start, k, j);
    }
    ItemEndExactly(ts, m, start, k);
  }

  lemma RunsBounds(ts: seq<Token>, m: map<int, int>, start: int, k: int)
    requires Runs(ts, m, start, k)
    ensures 0 <= start <= k <= |ts|
  {
  }

  lemma Before(ts: seq<Token>, m: map<int, int>, start: int, k: int, j: int)
    requires Matched(ts, m) && Runs(ts, m, start, k) && start <= j < k
    ensures Opens(ts[j]) ==> j in m && m[j] < k
    ensures Is(ts[j], '}') ==> j in m && start <= m[j]
    ensures Halts(ts[j], SemicolonItem(ts, m, start)) ==> Bracketed(ts, m, start, j, k)
  {
    hide Is, Opens, Closes, Matched, Matches, SemicolonItem, Halts, Bracketed, Runs;
    RunsBounds(ts, m, start, k);
    TokenKinds(ts[j]);
    if Opens(ts[j]) {
      OpenerPair(ts, m, j);
    }
    if Closes(ts[j]) {
      CloserPair(ts, m, j);
    }
    if j in m {
      RunsTop(ts, m, start, k, j);
    }
    if Halts(ts[j], SemicolonItem(ts, m, start)) {
      RunIsBracketed(ts, m, start, k, j);
    }
  }

  /** The first semicolon outside brackets ends an item, if no body does so before it. */
  lemma EndsAtSemicolon(ts: seq<Token>, m: map<int, int>, start: int, k: int)
    requires Matched(ts, m) && Runs(ts, m, start, k) && k < |ts| && Is(ts[k], ';')
    ensures ItemEnd(ts, m, start) == k + 1
  {
    hide Is, Opens, Closes, Matched, Matches, SemicolonItem, Runs, ItemEnd;
    RunsBounds(ts, m, start, k);
    TokenKinds(ts[k]);
    forall j | start <= j < k + 1
      ensures Opens(ts[j]) ==> j in m && m[j] < k + 1
      ensures Is(ts[j], '}') ==> j in m && start <= m[j]
      ensures Halts(ts[j], SemicolonItem(ts, m, start))
              ==> Bracketed(ts, m, start, j, k + 1) || Finishes(ts, m, j, k + 1)
    {
      if j < k {
        Before(ts, m, start, k, j);
      }
    }
    assert Halts(ts[k], SemicolonItem(ts, m, start)) && Finishes(ts, m, k, k + 1);
    ItemEndExactly(ts, m, start, k + 1);
  }

  /** The first brace outside brackets opens the body, and its closer ends an item that holds no value. */
  lemma EndsAtBody(ts: seq<Token>, m: map<int, int>, start: int, b: int)
    requires Matched(ts, m) && Runs(ts, m, start, b) && b < |ts| && Is(ts[b], '{') && !ValueItem(ts, m, start)
    ensures b in m && ItemEnd(ts, m, start) == m[b] + 1
  {
    hide Is, Opens, Closes, Matched, Matches, SemicolonItem, Runs, ItemEnd, Halts, KeywordAt, HoldsValue, IsExtent;
    RunsBounds(ts, m, start, b);
    TokenKinds(ts[b]);
    OpenerPair(ts, m, b);
    ValueItemExactly(ts, m, start);
    JustBody(ts, m, b, false);
    BodyAfterRun(ts, m, start, b, m[b] + 1);
    ItemEndExactly(ts, m, start, m[b] + 1);
  }

  lemma BodyAfterRun(ts: seq<Token>, m: map<int, int>, start: int, b: int, end: int)
    requires Matched(ts, m) && Runs(ts, m, start, b) && !SemicolonItem(ts, m, start) && b < end
    requires IsExtent(ts, m, b, false, end)
    ensures IsExtent(ts, m, start, false, end)
  {
    hide Is, Opens, Closes, Matched, Matches, SemicolonItem, Runs, Halts;
    RunsBounds(ts, m, start, b);
    forall j | start <= j < end
      ensures Opens(ts[j]) ==> j in m && m[j] < end
      ensures Is(ts[j], '}') ==> j in m && start <= m[j]
      ensures Halts(ts[j], false) ==> Bracketed(ts, m, start, j, end) || Finishes(ts, m, j, end)
    {
      if j < b {
        Before(ts, m, start, b, j);
      }
    }
  }

  // ----- by keyword -------------------------------------------------------

  lemma OneKeyword(ts: seq<Token>, m: map<int, int>, start: int, h: int)
    requires Matched(ts, m) && 0 <= start <= |ts| && KeywordAt(ts, m, start, h)
    ensures 0 <= h < |ts| && (ValueItem(ts, m, start) <==> HoldsValue(ts, h))
  {
    hide Matched, HoldsValue, ItemHead, KeywordAt;
    KeywordInside(ts, m, start, h);
    forall g ensures KeywordAt(ts, m, start, g) <==> ItemHead(ts, m, start) == g && g < |ts| {
      HeadExactly(ts, m, start, g);
    }
    if g :| KeywordAt(ts, m, start, g) && HoldsValue(ts, g) {
      assert g == h;
    }
  }

  lemma KeywordInside(ts: seq<Token>, m: map<int, int>, start: int, h: int)
    requires KeywordAt(ts, m, start, h)
    ensures 0 <= h < |ts|
  {
  }

  /** A module, function, type, trait or implementation ends just after the closer of its first brace outside
      brackets. */
  lemma BodyItemEnds(ts: seq<Token>, m: map<int, int>, start: int, h: int, b: int)
    requires Matched(ts, m) && Runs(ts, m, start, b) && b < |ts| && Is(ts[b], '{')
    requires KeywordAt(ts, m, start, h) && ts[h].value != "static" && ts[h].value != "let" && ts[h].value != "const"
    ensures b in m && ItemEnd(ts, m, start) == m[b] + 1
  {
    hide Matched, Runs, KeywordAt, ItemEnd;
    RunsBounds(ts, m, start, b);
    OneKeyword(ts, m, start, h);
    EndsAtBody(ts, m, start, b);
  }

  /** So does a `const` function, with qualifiers or without. */
  lemma ConstFnEnds(ts: seq<Token>, m: map<int, int>, start: int, h: int, b: int)
    requires Matched(ts, m) && Runs(ts, m, start, b) && b < |ts| && Is(ts[b], '{')
    requires KeywordAt(ts, m, start, h) && ts[h].value == "const" && ConstFn(ts, h)
    ensures b in m && ItemEnd(ts, m, start) == m[b] + 1
  {
    hide Matched, Runs, KeywordAt, ItemEnd, ConstFn;
    RunsBounds(ts, m, start, b);
    OneKeyword(ts, m, start, h);
    EndsAtBody(ts, m, start, b);
  }

  /** A `static`, a `let` and a `const` that is no function run over their braces to the first semicolon outside
      brackets. */
  lemma ValueItemEnds(ts: seq<Token>, m: map<int, int>, start: int, h: int, s: int)
    requires Matched(ts, m) && 0 <= start <= s < |ts| && Is(ts[s], ';')
    requires KeywordAt(ts, m, start, h)
    requires ts[h].value == "static" || ts[h].value == "let" || (ts[h].value == "const" && !ConstFn(ts, h))
    requires AtTop(ts, m, start, s) && StaysInside(ts, m, start, s)
    requires forall j :: start <= j < s && AtTop(ts, m, start, j) ==> !Is(ts[j], ';')
    ensures ItemEnd(ts, m, start) == s + 1
  {
    hide Matched, KeywordAt, ItemEnd, ConstFn, AtTop, StaysInside, Is;
    OneKeyword(ts, m, start, h);
    EndsAtSemicolon(ts, m, start, s);
  }

  // ----- what is removed, and what stays ----------------------------------

  /** The run of attributes at `i` excludes the item that follows it, and not the region around it. */
  predicate ExcludesItem(ts: seq<Token>, m: map<int, int>, i: int)
    requires Matched(ts, m) && 0 <= i < |ts|
  {
    var run := AttrRun(ts, m, i);
    && (exists k :: 0 <= k < |run| && Excluding(run[k]))
    && (forall k :: 0 <= k < |run| && run[k].inner ==> !Excluding(run[k]))
  }

  lemma ItemIsRemoved(ts: seq<Token>, m: map<int, int>, i: int)
    requires Matched(ts, m) && 0 <= i < |ts| && ExcludesItem(ts, m, i)
    ensures Exclusion(ts, m, i) == Some(ItemEnd(ts, m, AfterRun(ts, m, i)))
  {
    hide Matched, Excluding, AttrRun, AfterRun, ItemEnd, RegionOf;
  }

  /** A scan that meets an excluded module, function, type, trait or implementation goes on just after its body. */
  lemma ScanGoesOnAfterBody(ts: seq<Token>, m: map<int, int>, i: int, h: int, b: int)
    requires Matched(ts, m) && 0 <= i < |ts| && AttrAt(ts, m, i).Some? && ExcludesItem(ts, m, i)
    requires Runs(ts, m, AfterRun(ts, m, i), b) && b < |ts| && Is(ts[b], '{') && b in m && b <= m[b] < |ts|
    requires KeywordAt(ts, m, AfterRun(ts, m, i), h)
    requires ts[h].value != "static" && ts[h].value != "let" && ts[h].value != "const"
    ensures Kept(ts, m, i) == Kept(ts, m, m[b] + 1)
  {
    hide Matched, Runs, KeywordAt, ItemEnd, Excluding, AttrRun, AfterRun, AttrAt, Exclusion, ExcludesItem;
    BodyItemEnds(ts, m, AfterRun(ts, m, i), h, b);
    ItemIsRemoved(ts, m, i);
  }

  /** The token just after a removal stays, unless the next attribute starts there. */
  lemma {:induction false} NextTokenStays(ts: seq<Token>, m: map<int, int>, i: int, n: int)
    requires Matched(ts, m) && 0 <= i <= |ts| && 0 <= n < |Removals(ts, m, i)|
    requires var end := Removals(ts, m, i)[n].1; end < |ts| && AttrAt(ts, m, end).None?
    ensures var end := Removals(ts, m, i)[n].1;
            !KeptTokens.LiesIn(Removals(ts, m, i), end) && !KeptTokens.LiesIn(KeptTokens.Drops(ts, m, i), end)
    decreases |ts| - i
  {
    hide Matched, AttrAt, Exclusion, AttrRun, AfterRun, KeptTokens.DroppedIn, KeptTokens.LiesIn;
    if AttrAt(ts, m, i).None? {
      NextTokenStays(ts, m, i + 1, n);
    } else if Exclusion(ts, m, i).Some? {
      var e, rest := Exclusion(ts, m, i).value, Removals(ts, m, Exclusion(ts, m, i).value);
      var end := Removals(ts, m, i)[n].1;
      KeptTokens.LiesInConcat([(i, e)], rest, end);
      KeptTokens.OneRange(i, e, end);
      if n == 0 {
        NothingAt(ts, m, e);
      } else {
        assert Removals(ts, m, i)[n] == rest[n - 1];
        NextTokenStays(ts, m, e, n - 1);
      }
    } else {
      var after := AfterRun(ts, m, i);
      var end := Removals(ts, m, i)[n].1;
      NextTokenStays(ts, m, after, n);
      KeptTokens.DroppedInLies(ts, m, i);
      KeptTokens.OutOfReach(KeptTokens.DroppedIn(AttrRun(ts, m, i)), i, after, end);
      KeptTokens.LiesInConcat(KeptTokens.DroppedIn(AttrRun(ts, m, i)), KeptTokens.Drops(ts, m, after), end);
    }
  }

  lemma NothingAt(ts: seq<Token>, m: map<int, int>, i: int)
    requires Matched(ts, m) && 0 <= i < |ts| && AttrAt(ts, m, i).None?
    ensures !KeptTokens.LiesIn(Removals(ts, m, i), i) && !KeptTokens.LiesIn(KeptTokens.Drops(ts, m, i), i)
  {
    hide Matched, AttrAt, Exclusion, AttrRun, AfterRun, KeptTokens.DroppedIn, KeptTokens.LiesIn;
    KeptTokens.RemovalsLie(ts, m, i + 1);
    KeptTokens.DropsLie(ts, m, i + 1);
    KeptTokens.OutOfReach(Removals(ts, m, i + 1), i + 1, |ts|, i);
    KeptTokens.OutOfReach(KeptTokens.Drops(ts, m, i + 1), i + 1, |ts|, i);
  }

  /** An attribute of an item that stays is kept if it is empty or named `path`, and goes otherwise. */
  lemma AttrStaysExactly(ts: seq<Token>, m: map<int, int>, i: int)
    requires Matched(ts, m) && 0 <= i < |ts| && AttrAt(ts, m, i).Some? && Exclusion(ts, m, i).None?
    ensures var a := AttrAt(ts, m, i).value;
            Kept(ts, m, i) == (if a.body == [] || a.body[0].value == "path" then ts[i..a.end] else [])
                              + Kept(ts, m, a.end)
  {
    hide Matched, AttrAt, Exclusion, Kept, KeptAttrs, AfterRun, AttrRun;
    var a := AttrAt(ts, m, i).value;
    KeptOverRun(ts, m, i);
    RestIsKept(ts, m, i);
    FirstOfRun(ts, m, i);
    Regrouped(if Dropped(a) then [] else ts[i..a.end], KeptAttrs(ts, AttrRun(ts, m, a.end)),
              Kept(ts, m, AfterRun(ts, m, i)));
  }

  lemma FirstOfRun(ts: seq<Token>, m: map<int, int>, i: int)
    requires Matched(ts, m) && 0 <= i < |ts| && AttrAt(ts, m, i).Some?
    ensures var a := AttrAt(ts, m, i).value;
            KeptAttrs(ts, AttrRun(ts, m, i))
            == (if Dropped(a) then [] else ts[i..a.end]) + KeptAttrs(ts, AttrRun(ts, m, a.end))
  {
    hide Matched, AttrAt, Dropped;
    var a := AttrAt(ts, m, i).value;
    var run, rest := AttrRun(ts, m, i), AttrRun(ts, m, a.end);
    assert run[0] == a && run[1..] == rest;
  }

  lemma Regrouped<T>(a: seq<T>, b: seq<T>, c: seq<T>)
    ensures a + b + c == a + (b + c)
  {
  }

  lemma KeptOverRun(ts: seq<Token>, m: map<int, int>, i: int)
    requires Matched(ts, m) && 0 <= i < |ts| && AttrAt(ts, m, i).Some? && Exclusion(ts, m, i).None?
    ensures Kept(ts, m, i) == KeptAttrs(ts, AttrRun(ts, m, i)) + Kept(ts, m, AfterRun(ts, m, i))
  {
    hide Matched, AttrAt, Exclusion, AttrRun, AfterRun, KeptAttrs;
  }

  lemma RestIsKept(ts: seq<Token>, m: map<int, int>, i: int)
    requires Matched(ts, m) && 0 <= i < |ts| && AttrAt(ts, m, i).Some? && Exclusion(ts, m, i).None?
    ensures var next := AttrAt(ts, m, i).value.end;
            KeptAttrs(ts, AttrRun(ts, m, next)) + Kept(ts, m, AfterRun(ts, m, i)) == Kept(ts, m, next)
  {
    hide Matched, AttrAt, Exclusion, Kept;
    var next := AttrAt(ts, m, i).value.end;
    if next < |ts| && AttrAt(ts, m, next).Some? {
      NoExclusionLater(ts, m, i);
      KeptOverRun(ts, m, next);
    } else {
      assert KeptAttrs(ts, AttrRun(ts, m, next)) == [];
    }
  }

  lemma NoExclusionLater(ts: seq<Token>, m: map<int, int>, i: int)
    requires Matched(ts, m) && 0 <= i < |ts| && AttrAt(ts, m, i).Some? && Exclusion(ts, m, i).None?
    ensures var next := AttrAt(ts, m, i).value.end; next < |ts| ==> Exclusion(ts, m, next).None?
  {
    hide Matched, Excluding, AttrAt, AfterRun, ItemEnd, RegionOf;
    var next := AttrAt(ts, m, i).value.end;
    var run, rest := AttrRun(ts, m, i), AttrRun(ts, m, next);
    assert run == [AttrAt(ts, m, i).value] + rest;
    forall k | 0 <= k < |rest| ensures !Excluding(rest[k]) {
      assert run[k + 1] == rest[k];
    }
  }

  // ----- attributes by their tokens ---------------------------------------

  /** `#[body]` or `#![body]` fills [i, e), its bracket closed by the last of its tokens. */
  predicate Spelled(ts: seq<Token>, m: map<int, int>, i: int, e: int, inner: bool, body: seq<Token>) {
    var p := if inner then i + 2 else i + 1;
    && 0 <= i < p < e <= |ts| && ts[i].text == "#" && (inner ==> ts[i + 1].text == "!") && ts[p].text == "["
    && p in m && m[p] == e - 1 && p < e - 1 && body == ts[p + 1..e - 1]
  }

  lemma AttrExactly(ts: seq<Token>, m: map<int, int>, i: int, e: int, inner: bool, body: seq<Token>)
    requires Matched(ts, m) && 0 <= i < |ts|
    ensures AttrAt(ts, m, i) == Some(Attr(i, e, inner, body)) <==> Spelled(ts, m, i, e, inner, body)
  {
    hide Balanced, IsMatching, Opens;
    var p := BracketAt(ts, i);
    if p < |ts| && Is(ts[p], '[') {
      BracketOpens(ts[p]);
      OpenerPair(ts, m, p);
    }
  }

  lemma BracketOpens(t: Token)
    requires Is(t, '[')
    ensures Opens(t)
  {
  }

  /** A path: identifiers and colons only, up to its arguments or to the end, and `test` or `bench` at its end. */
  ghost predicate NamesTest(body: seq<Token>) {
    exists n :: 0 < n <= |body| && PathOf(body, n) && (body[n - 1].value == "test" || body[n - 1].value == "bench")
  }

  predicate PathOf(body: seq<Token>, n: int) {
    && 0 <= n <= |body| && (n == |body| || body[n].text == "(")
    && forall k :: 0 <= k < n ==> body[k].text != "(" && (body[k].kind == Ident || body[k].text == ":")
  }

  lemma TestPathExactly(body: seq<Token>)
    ensures TestPath(body) <==> NamesTest(body)
  {
    var n := FirstParen(body);
    if TestPath(body) {
      forall k | 0 <= k < n ensures body[k].text != "(" && (body[k].kind == Ident || body[k].text == ":") {
        assert !Is(body[k], '(') && body[..n][k] in body[..n];
      }
      assert PathOf(body, n) && body[..n][n - 1] == body[n - 1];
    }
    if NamesTest(body) {
      var e :| 0 < e <= |body| && PathOf(body, e) && (body[e - 1].value == "test" || body[e - 1].value == "bench");
      assert e == n;
      forall t | t in body[..n] ensures t.kind == Ident || Is(t, ':') {
        var k :| 0 <= k < n && body[..n][k] == t;
      }
    }
  }

  /** `#[cfg(p)]` excludes exactly when three-valued evaluation refutes `p`; with no option named twice in it, exactly
      when no build without `test` has the item. */
  lemma CfgExcludesExactly(a: Attr, p: CfgValue.Pred)
    requires KeptTokens.CfgOf(a, p)
    ensures Excluding(a) <==> CfgValue.Kleene(p) == Some(false)
    ensures CfgBuilds.ReadOnce(p) ==> (Excluding(a) <==> forall o :: !CfgValue.Holds(p, o))
  {
    hide CfgValue.Spells, CfgValue.Value, CfgValue.Kleene, CfgValue.Holds, CfgBuilds.ReadOnce;
    CfgValue.ValueIsKleene(a.body[2..|a.body| - 1], p);
    if CfgBuilds.ReadOnce(p) {
      CfgBuilds.DefiniteExactlyWhen(p, false);
    }
  }

  // ----- regions ----------------------------------------------------------

  /** A bracket that opens before `i` is open there exactly when it closes at `i` or later. */
  lemma OpenExactly(ts: seq<Token>, m: map<int, int>, i: int, a: int)
    requires Matched(ts, m) && 0 <= i <= |ts| && 0 <= a < i && Opens(ts[a])
    ensures a in m && (Mentions(OpenAt(ts, i), a) <==> i <= m[a])
  {
    hide Opens, Closes, SameKind, IsMatching, Balanced;
    OpenerHasCloser(ts, m, a);
    assert Stack(ts, i) == Some(OpenAt(ts, i)) && Stack(ts, a).Some?;
    if i <= m[a] {
      OpenUntilClosed(ts, a, m[a], i);
      WithinMentions(OpenAt(ts, i), Inside(a, ts[a], OpenAt(ts, a)), a);
    } else {
      assert Stack(ts, m[a] + 1) == Some(OpenAt(ts, a));
      OnlyEarlier(ts, a, a);
      GoneIsGone(ts, a, m[a] + 1, i);
    }
  }

  /** The brace at `b` opens before `i` and closes at `i` or later. */
  predicate Encloses(ts: seq<Token>, m: map<int, int>, i: int, b: int) {
    0 <= b < i <= |ts| && Is(ts[b], '{') && b in m && i <= m[b]
  }

  ghost predicate BraceIn(ts: seq<Token>, open: Open, b: int) {
    0 <= b < |ts| && Mentions(open, b) && Is(ts[b], '{')
  }

  lemma {:induction false} InnermostBrace(ts: seq<Token>, m: map<int, int>, i: int, base: Open) returns (b: int)
    requires Matched(ts, m) && 0 <= i <= |ts| && Within(OpenAt(ts, i), base)
    ensures forall a :: BraceIn(ts, base, a) ==> BraceIn(ts, base, b) && a <= b
    ensures BraceIn(ts, base, b) ==> b in m && RegionOf(ts, m, base) == m[b]
    ensures !BraceIn(ts, base, b) ==> RegionOf(ts, m, base) == |ts|
    decreases base
  {
    hide Is, IsMatching, Balanced, OpenAt, SameKind, Opens, Mentions;
    if base.Outside? {
      b := -1;
      NothingOutside(ts);
    } else {
      WithinIsStack(ts, i, base);
      OpenClosesLater(ts, m, i, base);
      WithinAround(OpenAt(ts, i), base);
      OnlyOlder(ts, base.index);
      BracesAround(ts, m, base);
      b := base.index;
      if !Is(base.token, '{') {
        b := InnermostBrace(ts, m, i, base.around);
      }
    }
  }

  lemma NothingOutside(ts: seq<Token>)
    ensures forall a :: !BraceIn(ts, Outside, a)
  {
  }

  lemma BracesAround(ts: seq<Token>, m: map<int, int>, base: Open)
    requires base.Inside? && 0 <= base.index < |ts| && base.token == ts[base.index] && base.index in m
    ensures forall a :: BraceIn(ts, base, a) <==> (a == base.index && Is(ts[a], '{')) || BraceIn(ts, base.around, a)
    ensures RegionOf(ts, m, base) == if Is(base.token, '{') then m[base.index] else RegionOf(ts, m, base.around)
    ensures forall a :: BraceIn(ts, base.around, a) ==> Mentions(base.around, a)
  {
    hide Is;
  }

  lemma OnlyOlder(ts: seq<Token>, i: int)
    requires Balanced(ts) && 0 <= i <= |ts|
    ensures forall a :: Mentions(OpenAt(ts, i), a) ==> a < i
  {
    assert Stack(ts, i) == Some(OpenAt(ts, i));
    var open := OpenAt(ts, i);
    hide OpenAt, Balanced, Stack;
    forall a ensures Mentions(open, a) ==> a < i {
      if i <= a {
        OnlyEarlier(ts, i, a);
      }
    }
  }

  /** The region around `i` ends at the closer of the last brace before `i` that is not closed yet, or with the stream
      if there is none. */
  lemma RegionExactly(ts: seq<Token>, m: map<int, int>, i: int)
    requires Matched(ts, m) && 0 <= i <= |ts|
    ensures (forall b :: !Encloses(ts, m, i, b)) ==> RegionOf(ts, m, OpenAt(ts, i)) == |ts|
    ensures forall b :: Encloses(ts, m, i, b) && (forall a :: Encloses(ts, m, i, a) ==> a <= b)
                        ==> RegionOf(ts, m, OpenAt(ts, i)) == m[b]
  {
    hide Is, IsMatching, Balanced, OpenAt, RegionOf;
    var open := OpenAt(ts, i);
    OnlyOlder(ts, i);
    forall b ensures Encloses(ts, m, i, b) <==> BraceIn(ts, open, b) {
      if 0 <= b < i && Is(ts[b], '{') {
        BraceOpens(ts[b]);
        OpenExactly(ts, m, i, b);
      }
    }
    var last := InnermostBrace(ts, m, i, open);
    assert Encloses(ts, m, i, last) <==> BraceIn(ts, open, last);
  }

  lemma BraceOpens(t: Token)
    requires Is(t, '{')
    ensures Opens(t)
  {
  }
}
