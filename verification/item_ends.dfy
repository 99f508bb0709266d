/** Where an attributed item ends, said without walking: the first halting token outside the item's own brackets. */
module ItemEnds {
  import opened RustTokens
  import opened Delimiters
  import opened ProductionTokens

  /** A semicolon, or the brace of a body when the item may have one. */
  predicate Halts(t: Token, semicolonItem: bool) {
    Is(t, ';') || (Is(t, '{') && !semicolonItem)
  }

  /** The item ends with the semicolon at `k`, or with the closer of the brace at `k`. */
  predicate Finishes(ts: seq<Token>, m: map<int, int>, k: int, end: int)
    requires 0 <= k < |ts|
  {
    if Is(ts[k], ';') then end == k + 1 else k in m && end == m[k] + 1
  }

  /** A pair of the item's own brackets, in [start, end), encloses `k`. */
  ghost predicate Bracketed(ts: seq<Token>, m: map<int, int>, start: int, k: int, end: int) {
    exists a :: start <= a < k && a in m && k < m[a] < end
  }

  /** [start, end) is the extent of an item: every bracket it opens it closes and every brace it closes it opens, what
      would halt inside it is bracketed or finishes it, and it ends there because something finishes it, because the
      enclosing brace closes, or because nothing is left. */
  ghost predicate IsExtent(ts: seq<Token>, m: map<int, int>, start: int, semicolonItem: bool, end: int) {
    && 0 <= start <= end <= |ts|
    && (forall a :: start <= a < end && Opens(ts[a]) ==> a in m && m[a] < end)
    && (forall c :: start <= c < end && Is(ts[c], '}') ==> c in m && start <= m[c])
    && (forall k :: start <= k < end && Halts(ts[k], semicolonItem) ==>
        Bracketed(ts, m, start, k, end) || Finishes(ts, m, k, end))
    && (end == |ts| || Is(ts[end], '}')
        || exists k :: start <= k < end && Halts(ts[k], semicolonItem) && Finishes(ts, m, k, end))
  }

  lemma OpenerPair(ts: seq<Token>, m: map<int, int>, a: int)
    requires Matched(ts, m) && 0 <= a < |ts| && Opens(ts[a])
    ensures a in m && a < m[a] < |ts| && m[a] in m && m[m[a]] == a && Matches(ts, a, m[a])
  {
  }

  lemma CloserPair(ts: seq<Token>, m: map<int, int>, c: int)
    requires Matched(ts, m) && 0 <= c < |ts| && Closes(ts[c])
    ensures c in m && 0 <= m[c] < c && m[c] in m && m[m[c]] == c && Matches(ts, m[c], c) && Opens(ts[m[c]])
  {
  }

  /** What opens or closes inside a pair is matched inside it. */
  lemma InsidePair(ts: seq<Token>, m: map<int, int>, a: int, k: int)
    requires Matched(ts, m) && 0 <= a < |ts| && Opens(ts[a]) && a in m && a < k < m[a] && k < |ts|
    ensures Opens(ts[k]) ==> k in m && m[k] < m[a]
    ensures Closes(ts[k]) ==> k in m && a < m[k]
  {
    hide Matched, Matches, Opens, Closes;
    OpenerPair(ts, m, a);
    if Opens(ts[k]) {
      OpenerPair(ts, m, k);
      MatchesNest(ts, a, m[a], k, m[k]);
    }
    if Closes(ts[k]) {
      CloserPair(ts, m, k);
      if m[k] < a {
        MatchesNest(ts, m[k], k, a, m[a]);
      }
    }
  }

  lemma TokenKinds(t: Token)
    ensures Is(t, ';') ==> !Opens(t) && !Closes(t) && !Is(t, '}')
    ensures Is(t, '{') ==> Opens(t)
    ensures Is(t, '}') ==> Closes(t) && !Opens(t)
  {
  }

  lemma {:induction false} WalkIsExtent(ts: seq<Token>, m: map<int, int>, i: int, semicolonItem: bool)
    requires Matched(ts, m) && 0 <= i <= |ts|
    ensures IsExtent(ts, m, i, semicolonItem, Walk(ts, m, i, semicolonItem))
    decreases |ts| - i
  {
    hide Is, Opens, Closes, Matched, Matches, IsExtent;
    var end := Walk(ts, m, i, semicolonItem);
    if i == |ts| {
      NothingExtends(ts, m, i, semicolonItem);
    } else {
      TokenKinds(ts[i]);
      if Is(ts[i], ';') {
        JustSemicolon(ts, m, i, semicolonItem);
      } else if Opens(ts[i]) {
        OpenerPair(ts, m, i);
        if Is(ts[i], '{') && !semicolonItem {
          JustBody(ts, m, i, semicolonItem);
        } else {
          WalkIsExtent(ts, m, m[i] + 1, semicolonItem);
          ExtendOverPair(ts, m, i, semicolonItem, end);
        }
      } else if Is(ts[i], '}') {
        NothingExtends(ts, m, i, semicolonItem);
      } else {
        WalkIsExtent(ts, m, i + 1, semicolonItem);
        ExtendOverToken(ts, m, i, semicolonItem, end);
      }
    }
  }

  lemma NothingExtends(ts: seq<Token>, m: map<int, int>, i: int, semicolonItem: bool)
    requires 0 <= i <= |ts| && (i == |ts| || Is(ts[i], '}'))
    ensures IsExtent(ts, m, i, semicolonItem, i)
  {
    hide Is, Opens;
  }

  lemma JustSemicolon(ts: seq<Token>, m: map<int, int>, i: int, semicolonItem: bool)
    requires 0 <= i < |ts| && Is(ts[i], ';')
    ensures IsExtent(ts, m, i, semicolonItem, i + 1)
  {
    hide Is, Opens, Closes;
    TokenKinds(ts[i]);
    assert Halts(ts[i], semicolonItem) && Finishes(ts, m, i, i + 1);
  }

  lemma JustBody(ts: seq<Token>, m: map<int, int>, i: int, semicolonItem: bool)
    requires Matched(ts, m) && 0 <= i < |ts| && Is(ts[i], '{') && !semicolonItem && i in m && i < m[i] < |ts|
    ensures IsExtent(ts, m, i, semicolonItem, m[i] + 1)
  {
    hide Is, Opens, Closes, Matched, Matches;
    var end := m[i] + 1;
    TokenKinds(ts[i]);
    OpenerPair(ts, m, i);
    forall k | i <= k < end
      ensures Opens(ts[k]) ==> k in m && m[k] < end
      ensures Is(ts[k], '}') ==> k in m && i <= m[k]
      ensures Halts(ts[k], semicolonItem) ==> Bracketed(ts, m, i, k, end) || Finishes(ts, m, k, end)
    {
      PartOfPair(ts, m, i, k);
      TokenKinds(ts[k]);
      if k == m[i] {
        OpensNot(ts, m, i);
      } else if k > i {
        assert Bracketed(ts, m, i, k, end);
      }
    }
    assert Halts(ts[i], semicolonItem) && Finishes(ts, m, i, end);
  }

  lemma PartOfPair(ts: seq<Token>, m: map<int, int>, a: int, k: int)
    requires Matched(ts, m) && 0 <= a < |ts| && Opens(ts[a]) && a in m && a <= k <= m[a] && k < |ts|
    ensures Opens(ts[k]) ==> k in m && m[k] <= m[a]
    ensures Is(ts[k], '}') ==> k in m && a <= m[k]
    ensures Is(ts[k], ';') ==> a < k < m[a]
  {
    hide Is, Opens, Closes, Matched, Matches;
    TokenKinds(ts[k]);
    OpenerPair(ts, m, a);
    if a < k < m[a] {
      InsidePair(ts, m, a, k);
    } else if k == m[a] {
      OpensNot(ts, m, a);
    }
  }

  lemma OpensNot(ts: seq<Token>, m: map<int, int>, a: int)
    requires Matched(ts, m) && 0 <= a < |ts| && Opens(ts[a]) && a in m && 0 <= m[a] < |ts|
    ensures Closes(ts[m[a]]) && !Opens(ts[m[a]])
  {
    assert Matches(ts, a, m[a]);
  }

  lemma ExtendOverPair(ts: seq<Token>, m: map<int, int>, i: int, semicolonItem: bool, end: int)
    requires Matched(ts, m) && 0 <= i < |ts| && Opens(ts[i]) && i in m && i < m[i] < |ts|
    requires !Halts(ts[i], semicolonItem) && IsExtent(ts, m, m[i] + 1, semicolonItem, end)
    ensures IsExtent(ts, m, i, semicolonItem, end)
  {
    hide Is, Opens, Closes, Matched, Matches;
    forall k | i <= k < end
      ensures Opens(ts[k]) ==> k in m && m[k] < end
      ensures Is(ts[k], '}') ==> k in m && i <= m[k]
      ensures Halts(ts[k], semicolonItem) ==> Bracketed(ts, m, i, k, end) || Finishes(ts, m, k, end)
    {
      if k <= m[i] {
        PartOfPair(ts, m, i, k);
        TokenKinds(ts[k]);
        if k == m[i] {
          OpensNot(ts, m, i);
        }
      }
    }
  }

  lemma ExtendOverToken(ts: seq<Token>, m: map<int, int>, i: int, semicolonItem: bool, end: int)
    requires 0 <= i < |ts| && !Opens(ts[i]) && !Is(ts[i], ';') && !Is(ts[i], '}')
    requires IsExtent(ts, m, i + 1, semicolonItem, end)
    ensures IsExtent(ts, m, i, semicolonItem, end)
  {
    hide Is, Opens, Closes;
    TokenKinds(ts[i]);
    forall k | i <= k < end && Halts(ts[k], semicolonItem)
      ensures Bracketed(ts, m, i, k, end) || Finishes(ts, m, k, end)
    {
      assert k > i;
    }
  }

  lemma NoLongerExtent(ts: seq<Token>, m: map<int, int>, start: int, semicolonItem: bool, e: int, f: int)
    requires Matched(ts, m) && IsExtent(ts, m, start, semicolonItem, e) && IsExtent(ts, m, start, semicolonItem, f)
    ensures e >= f
  {
    hide Is, Opens, Closes, Matched, Matches;
    if e < f {
      TokenKinds(ts[e]);
      if Is(ts[e], '}') {
        CloserPair(ts, m, e);
        assert false;
      } else {
        var k :| start <= k < e && Halts(ts[k], semicolonItem) && Finishes(ts, m, k, e);
        TokenKinds(ts[k]);
        var a :| start <= a < k && a in m && k < m[a] < f;
        PairOpens(ts, m, a);
        if !Is(ts[k], ';') {
          InsidePair(ts, m, a, k);
        }
        assert false;
      }
    }
  }

  lemma PairOpens(ts: seq<Token>, m: map<int, int>, a: int)
    requires Matched(ts, m) && a in m && a < m[a]
    ensures 0 <= a < |ts| && Opens(ts[a])
  {
    if Closes(ts[a]) {
      CloserPair(ts, m, a);
    }
  }

  /** The walk finds the one extent of the item. */
  lemma ItemEndExactly(ts: seq<Token>, m: map<int, int>, start: int, end: int)
    requires Matched(ts, m) && 0 <= start <= |ts|
    ensures end == ItemEnd(ts, m, start) <==> IsExtent(ts, m, start, SemicolonItem(ts, m, start), end)
  {
    hide IsExtent, Matched, SemicolonItem, Walk;
    WalkIsExtent(ts, m, start, SemicolonItem(ts, m, start));
    if IsExtent(ts, m, start, SemicolonItem(ts, m, start), end) {
      NoLongerExtent(ts, m, start, SemicolonItem(ts, m, start), end, ItemEnd(ts, m, start));
      NoLongerExtent(ts, m, start, SemicolonItem(ts, m, start), ItemEnd(ts, m, start), end);
    }
  }
}
