/**
 Delimiter matching over a token stream: which streams are balanced, and which index closes which.
 (The Rust Reference: a delimited token tree closes with the delimiter of its opener's kind.)
 */
module Delimiters {
  import opened Wrappers
  import opened RustTokens

  predicate SameKind(open: Token, close: Token)
    ensures SameKind(open, close) ==> Opens(open) && Closes(close)
  {
    || (Is(open, '(') && Is(close, ')'))
    || (Is(open, '[') && Is(close, ']'))
    || (Is(open, '{') && Is(close, '}'))
  }

  /** The delimiters that are open, innermost first, each with its index. */
  datatype Open = Outside | Inside(index: int, token: Token, around: Open)

  /** What is open before index `i`; None once a closer has no opener. */
  function Stack(ts: seq<Token>, i: int): Option<Open>
    requires 0 <= i <= |ts|
  {
    if i == 0 then Some(Outside)
    else
      match Stack(ts, i - 1)
      case None => None
      case Some(open) => Read(ts[i - 1], i - 1, open)
  }

  /** The effect of one token on what is open. */
  function Read(t: Token, i: int, open: Open): Option<Open> {
    if Opens(t) then Some(Inside(i, t, open))
    else if !Closes(t) then Some(open)
    else if open.Inside? && SameKind(open.token, t) then Some(open.around)
    else None
  }

  predicate Balanced(ts: seq<Token>) {
    Stack(ts, |ts|) == Some(Outside)
  }

  /** Index `j` closes the delimiter that `i` opens. */
  predicate Matches(ts: seq<Token>, i: int, j: int) {
    && 0 <= i < j < |ts| && SameKind(ts[i], ts[j])
    && Stack(ts, i).Some? && Stack(ts, j) == Some(Inside(i, ts[i], Stack(ts, i).value))
  }

  /** `m` sends every opener to its closer and back. */
  ghost predicate IsMatching(ts: seq<Token>, m: map<int, int>) {
    && (forall i :: i in m ==> 0 <= i < |ts| && (Opens(ts[i]) || Closes(ts[i])))
    && (forall i :: 0 <= i < |ts| && Opens(ts[i]) ==> i in m && Matches(ts, i, m[i]))
    && (forall j :: 0 <= j < |ts| && Closes(ts[j]) ==> j in m && Matches(ts, m[j], j))
    && (forall i :: i in m ==> m[i] in m && m[m[i]] == i)
  }

  // ----- how the stack evolves --------------------------------------------

  lemma {:induction false} PrefixesHaveStacks(ts: seq<Token>, i: int, j: int)
    requires 0 <= i <= j <= |ts| && Stack(ts, j).Some?
    ensures Stack(ts, i).Some?
    decreases j
  {
    hide Read;
    if i < j {
      PrefixesHaveStacks(ts, i, j - 1);
    }
  }

  /** What is open around a delimiter is what was open when it opened. */
  lemma {:induction false} StackAround(ts: seq<Token>, i: int)
    requires 0 <= i <= |ts| && Stack(ts, i).Some? && Stack(ts, i).value.Inside?
    ensures var open := Stack(ts, i).value;
            0 <= open.index < i && Stack(ts, open.index) == Some(open.around) && open.token == ts[open.index]
                && Opens(open.token)
    decreases i
  {
    hide Opens, Closes, SameKind;
    var open, before := Stack(ts, i).value, Stack(ts, i - 1).value;
    if open == before {
      StackAround(ts, i - 1);
    } else if Closes(ts[i - 1]) {
      StackAround(ts, i - 1);
      StackAround(ts, before.index);
    }
  }

  /** Delimiter `b` is among those that are open. */
  ghost predicate Mentions(open: Open, b: int) {
    open.Inside? && (open.index == b || Mentions(open.around, b))
  }

  /** `base` is open, with nothing or more inside it. */
  ghost predicate Within(open: Open, base: Open) {
    open == base || (open.Inside? && Within(open.around, base))
  }

  lemma {:induction false} OnlyEarlier(ts: seq<Token>, i: int, b: int)
    requires 0 <= i <= |ts| && i <= b && Stack(ts, i).Some?
    ensures !Mentions(Stack(ts, i).value, b)
    decreases i
  {
    var open := Stack(ts, i).value;
    if open.Inside? {
      StackAround(ts, i);
      OnlyEarlier(ts, open.index, b);
    }
  }

  /** Once a delimiter is no longer open it never is again. */
  lemma {:induction false} GoneIsGone(ts: seq<Token>, b: int, k: int, j: int)
    requires 0 <= b < k <= j <= |ts| && Stack(ts, j).Some? && Stack(ts, k).Some?
    requires !Mentions(Stack(ts, k).value, b)
    ensures !Mentions(Stack(ts, j).value, b)
    decreases j
  {
    hide Opens, Closes, SameKind;
    if k < j {
      PrefixesHaveStacks(ts, j - 1, j);
      GoneIsGone(ts, b, k, j - 1);
    }
  }

  /** From an opener to its closer that delimiter stays open. */
  lemma {:induction false} OpenUntilClosed(ts: seq<Token>, i: int, j: int, k: int)
    requires Matches(ts, i, j) && i < k <= j
    ensures Stack(ts, k).Some? && Within(Stack(ts, k).value, Inside(i, ts[i], Stack(ts, i).value))
    decreases k
  {
    PrefixesHaveStacks(ts, k, j);
    hide Opens, Closes, SameKind;
    if k > i + 1 {
      OpenUntilClosed(ts, i, j, k - 1);
      if Stack(ts, k).value == Stack(ts, i).value {
        OnlyEarlier(ts, i, i);
        GoneIsGone(ts, i, k, j);
      }
    }
  }

  /** Matched pairs nest: a pair that opens inside another one closes inside it. */
  lemma MatchesNest(ts: seq<Token>, i: int, j: int, k: int, l: int)
    requires Matches(ts, i, j) && Matches(ts, k, l) && i < k < j
    ensures l < j
  {
    if j < l {
      OpenUntilClosed(ts, k, l, j);
      OnlyEarlier(ts, i, k);
      WithinMentions(Stack(ts, j).value, Inside(k, ts[k], Stack(ts, k).value), k);
    }
  }

  lemma {:induction false} WithinMentions(open: Open, base: Open, b: int)
    requires Within(open, base) && Mentions(base, b)
    ensures Mentions(open, b)
  {
    if open != base {
      WithinMentions(open.around, base, b);
    }
  }

  lemma {:induction false} NeverRecovers(ts: seq<Token>, i: int, j: int)
    requires 0 <= i <= j <= |ts| && Stack(ts, i).None?
    ensures Stack(ts, j).None?
    decreases j
  {
    if i < j {
      NeverRecovers(ts, i, j - 1);
    }
  }

  // ----- the matcher ------------------------------------------------------

  /** The delimiters paired before `i`: every closer, and every opener that is no longer open. */
  ghost predicate PairedKeys(ts: seq<Token>, found: map<int, int>, i: int, open: Open)
    requires 0 <= i <= |ts|
  {
    forall a :: a in found <==> 0 <= a < i && (Closes(ts[a]) || (Opens(ts[a]) && !Mentions(open, a)))
  }

  ghost predicate PairedValues(ts: seq<Token>, found: map<int, int>) {
    forall a :: a in found ==>
      && found[a] in found && found[found[a]] == a
      && (Matches(ts, a, found[a]) || Matches(ts, found[a], a))
  }

  /** The loop of `Pairs` has read `i` tokens. */
  ghost predicate Scanned(ts: seq<Token>, i: int, open: Open, found: map<int, int>) {
    && 0 <= i <= |ts| && Stack(ts, i) == Some(open)
    && PairedKeys(ts, found, i, open) && PairedValues(ts, found)
  }

  lemma ScanOpen(ts: seq<Token>, i: int, open: Open, found: map<int, int>)
    requires Scanned(ts, i, open, found) && i < |ts| && !Closes(ts[i])
    ensures Scanned(ts, i + 1, if Opens(ts[i]) then Inside(i, ts[i], open) else open, found)
  {
  }

  lemma ScanClose(ts: seq<Token>, i: int, open: Open, found: map<int, int>)
    requires Scanned(ts, i, open, found) && i < |ts| && Closes(ts[i]) && open.Inside? && SameKind(open.token, ts[i])
    ensures Scanned(ts, i + 1, open.around, found[open.index := i][i := open.index])
  {
    StackAround(ts, i);
    assert Matches(ts, open.index, i);
    OnlyEarlier(ts, open.index, open.index);
    OnlyEarlier(ts, i, i);
    hide Opens, Closes, SameKind, Matches, Stack;
    assert i !in found && open.index !in found;
    var after := found[open.index := i][i := open.index];
    assert PairedKeys(ts, after, i + 1, open.around);
    assert PairedValues(ts, after);
    assert Stack(ts, i + 1) == Some(open.around) by {
      OneMore(ts, i, open);
    }
  }

  lemma OneMore(ts: seq<Token>, i: int, open: Open)
    requires 0 <= i < |ts| && Stack(ts, i) == Some(open)
    ensures Stack(ts, i + 1) == Read(ts[i], i, open)
  {
  }

  lemma ScanEnds(ts: seq<Token>, open: Open, found: map<int, int>)
    requires Scanned(ts, |ts|, open, found)
    ensures Balanced(ts) <==> open == Outside
    ensures open == Outside ==> IsMatching(ts, found)
  {
  }

  lemma BadCloser(ts: seq<Token>, i: int, open: Open, found: map<int, int>)
    requires Scanned(ts, i, open, found) && i < |ts| && Closes(ts[i])
    requires open.Outside? || !SameKind(open.token, ts[i])
    ensures !Balanced(ts)
  {
    NeverRecovers(ts, i + 1, |ts|);
  }

  method Pairs(ts: seq<Token>) returns (r: Result<map<int, int>, string>)
    ensures r.Ok? <==> Balanced(ts)
    ensures r.Ok? ==> IsMatching(ts, r.value)
  {
    var stack := Outside;
    var found: map<int, int> := map[];
    assert Scanned(ts, 0, stack, found);
    hide Scanned, Opens, Closes, SameKind, Stack, Balanced, IsMatching;
    for i := 0 to |ts|
      invariant Scanned(ts, i, stack, found)
    {
      var t := ts[i];
      if !Closes(t) {
        ScanOpen(ts, i, stack, found);
        if Opens(t) {
          stack := Inside(i, t, stack);
        }
      } else {
        if stack.Outside? || !SameKind(stack.token, t) {
          BadCloser(ts, i, stack, found);
          return Err("unbalanced Rust delimiters");
        }
        ScanClose(ts, i, stack, found);
        var start := stack.index;
        stack := stack.around;
        found := found[start := i][i := start];
      }
    }
    ScanEnds(ts, stack, found);
    if stack != Outside {
      return Err("unclosed Rust delimiter");
    }
    return Ok(found);
  }
}
