/** Reciprocal-rank fusion of ranked lists of ids, over exact reals. */
module Fusion {
  import opened Lists

  type Id = string

  // ----- the order of ids -------------------------------------------------

  /** Character by character, a proper prefix first. */
  predicate Less(a: Id, b: Id) {
    b != [] && (a == [] || a[0] < b[0] || (a[0] == b[0] && Less(a[1..], b[1..])))
  }

  lemma {:induction false} LessIsTotal(a: Id, b: Id)
    ensures a == b || Less(a, b) || Less(b, a)
    ensures !(Less(a, b) && Less(b, a)) && !(a == b && Less(a, b))
  {
    if a != [] && b != [] && a[0] == b[0] {
      LessIsTotal(a[1..], b[1..]);
      assert a == [a[0]] + a[1..] && b == [b[0]] + b[1..];
    }
  }

  lemma {:induction false} LessIsTransitive(a: Id, b: Id, c: Id)
    requires Less(a, b) && Less(b, c)
    ensures Less(a, c)
  {
    if a != [] && a[0] == b[0] == c[0] {
      LessIsTransitive(a[1..], b[1..], c[1..]);
    }
  }

  // ----- scores -----------------------------------------------------------

  /** The list with every id where it occurs first. */
  function Distinct(l: seq<Id>): (d: seq<Id>)
    ensures forall x :: x in d <==> x in l
    ensures NoRepeats(d)
  {
    if l == [] then []
    else
      var last := l[|l| - 1];
      assert l == l[..|l| - 1] + [last];
      var d := Distinct(l[..|l| - 1]);
      if last in d then d else d + [last]
  }

  function IndexOf(s: seq<Id>, x: Id): (i: nat)
    requires x in s
    ensures i < |s| && s[i] == x
  {
    if s[0] == x then 0 else 1 + IndexOf(s[1..], x)
  }

  /** The place of an id in a list, from one, repeats not counted. */
  function Rank(l: seq<Id>, x: Id): (r: nat)
    requires x in l
    ensures 1 <= r <= |Distinct(l)| && Distinct(l)[r - 1] == x
  {
    IndexOf(Distinct(l), x) + 1
  }

  function Reciprocal(k: nat, rank: nat): real
    requires rank > 0
  {
    1.0 / (k + rank) as real
  }

  function Share(k: nat, l: seq<Id>, x: Id): real {
    if x in l then Reciprocal(k, Rank(l, x)) else 0.0
  }

  function Score(k: nat, lists: seq<seq<Id>>, x: Id): real {
    if lists == [] then 0.0 else Score(k, lists[..|lists| - 1], x) + Share(k, lists[|lists| - 1], x)
  }

  predicate Ranked(lists: seq<seq<Id>>, x: Id) {
    exists l :: l in lists && x in l
  }

  /** The higher score first, the lesser id among equals. */
  predicate Ahead(k: nat, lists: seq<seq<Id>>, x: Id, y: Id) {
    var a, b := Score(k, lists, x), Score(k, lists, y);
    a > b || (a == b && Less(x, y))
  }

  lemma AheadIsTotal(k: nat, lists: seq<seq<Id>>, x: Id, y: Id)
    ensures x == y || Ahead(k, lists, x, y) || Ahead(k, lists, y, x)
    ensures !(Ahead(k, lists, x, y) && Ahead(k, lists, y, x)) && !Ahead(k, lists, x, x)
  {
    LessIsTotal(x, y);
    LessIsTotal(x, x);
  }

  lemma AheadIsTransitive(k: nat, lists: seq<seq<Id>>, x: Id, y: Id, z: Id)
    requires Ahead(k, lists, x, y) && Ahead(k, lists, y, z)
    ensures Ahead(k, lists, x, z)
  {
    hide Score;
    if Less(x, y) && Less(y, z) {
      LessIsTransitive(x, y, z);
    }
  }

  // ----- the fused list ---------------------------------------------------

  ghost predicate InOrder(k: nat, lists: seq<seq<Id>>, s: seq<Id>) {
    forall i, j :: 0 <= i < j < |s| ==> Ahead(k, lists, s[i], s[j])
  }

  /** Every ranked id, each once, in order. */
  ghost predicate Fused(k: nat, lists: seq<seq<Id>>, out: seq<Id>) {
    (forall x :: x in out <==> Ranked(lists, x)) && NoRepeats(out) && InOrder(k, lists, out)
  }

  function Insert(scores: map<Id, real>, x: Id, s: seq<Id>): (r: seq<Id>)
    requires x in scores && forall y :: y in s ==> y in scores
    ensures forall y :: y in r <==> y in s || y == x
  {
    if s == [] || scores[x] > scores[s[0]] || (scores[x] == scores[s[0]] && Less(x, s[0])) then [x] + s
    else [s[0]] + Insert(scores, x, s[1..])
  }

  ghost predicate Scores(k: nat, lists: seq<seq<Id>>, scores: map<Id, real>) {
    && (forall x :: x in scores <==> Ranked(lists, x))
    && forall x :: x in scores ==> scores[x] == Score(k, lists, x)
  }

  lemma {:induction false} InsertKeepsOrder(k: nat, lists: seq<seq<Id>>, scores: map<Id, real>, x: Id, s: seq<Id>)
    requires Scores(k, lists, scores) && x in scores && x !in s && forall y :: y in s ==> y in scores
    requires InOrder(k, lists, s)
    ensures InOrder(k, lists, Insert(scores, x, s))
  {
    hide Score, Less;
    if s != [] {
      var head := s[0];
      AheadIsTotal(k, lists, x, head);
      if Ahead(k, lists, x, head) {
        forall y | y in s ensures Ahead(k, lists, x, y) {
          if y != head {
            AheadIsTransitive(k, lists, x, head, y);
          }
        }
      } else {
        InsertKeepsOrder(k, lists, scores, x, s[1..]);
        var r := Insert(scores, x, s[1..]);
        forall y | y in r ensures Ahead(k, lists, head, y) {
        }
      }
    }
  }

  lemma OrderHasNoRepeats(k: nat, lists: seq<seq<Id>>, s: seq<Id>)
    requires InOrder(k, lists, s)
    ensures NoRepeats(s)
  {
    hide Ahead;
    forall i, j | 0 <= i < j < |s| ensures s[i] != s[j] {
      AheadIsTotal(k, lists, s[i], s[j]);
    }
  }

  method Rrf(lists: seq<seq<Id>>, k: nat) returns (out: seq<Id>)
    ensures Fused(k, lists, out)
  {
    hide Score, Ahead, Ranked, Insert;
    var scores := AddUp(lists, k);
    out := [];
    var left := scores.Keys;
    while left != {}
      invariant left <= scores.Keys
      invariant forall x :: x in out <==> x in scores.Keys - left
      invariant InOrder(k, lists, out)
      decreases left
    {
      var x :| x in left;
      InsertKeepsOrder(k, lists, scores, x, out);
      out := Insert(scores, x, out);
      left := left - {x};
    }
    OrderHasNoRepeats(k, lists, out);
  }

  /** The score of every ranked id, added up list by list. */
  method AddUp(lists: seq<seq<Id>>, k: nat) returns (scores: map<Id, real>)
    ensures Scores(k, lists, scores)
  {
    scores := map[];
    var i := 0;
    while i < |lists|
      invariant i <= |lists| && Scores(k, lists[..i], scores)
    {
      var before := scores;
      scores := AddList(before, lists[i], k);
      OneMoreList(k, lists, i, before, scores);
      i := i + 1;
    }
    assert lists[..i] == lists;
  }

  method AddList(before: map<Id, real>, l: seq<Id>, k: nat) returns (scores: map<Id, real>)
    ensures forall x :: x in scores <==> x in before || x in l
    ensures forall x :: x in scores ==> scores[x] == (if x in before then before[x] else 0.0) + Share(k, l, x)
  {
    hide Distinct, Reciprocal;
    scores := before;
    var distinct := Distinct(l);
    var i := 0;
    while i < |distinct|
      invariant i <= |distinct|
      invariant forall x :: x in scores <==> x in before || x in distinct[..i]
      invariant forall x :: x in scores ==>
                  scores[x] == (if x in before then before[x] else 0.0)
                      + (if x in distinct[..i] then Share(k, l, x) else 0.0)
    {
      var x := distinct[i];
      RankIs(l, i);
      assert distinct[..i + 1] == distinct[..i] + [x];
      scores := scores[x := (if x in scores then scores[x] else 0.0) + Reciprocal(k, i + 1)];
      i := i + 1;
    }
    assert distinct[..i] == distinct;
  }

  lemma RankIs(l: seq<Id>, i: nat)
    requires i < |Distinct(l)|
    ensures Distinct(l)[i] in l && Rank(l, Distinct(l)[i]) == i + 1 && Distinct(l)[i] !in Distinct(l)[..i]
  {
  }

  lemma OneMoreList(k: nat, lists: seq<seq<Id>>, i: nat, before: map<Id, real>, scores: map<Id, real>)
    requires i < |lists| && Scores(k, lists[..i], before)
    requires forall x :: x in scores <==> x in before || x in lists[i]
    requires forall x :: x in scores ==> scores[x] == (if x in before then before[x] else 0.0) + Share(k, lists[i], x)
    ensures Scores(k, lists[..i + 1], scores)
  {
    hide Share;
    var all := lists[..i + 1];
    assert all == lists[..i] + [lists[i]] && all[..|all| - 1] == lists[..i];
    forall x ensures Ranked(all, x) <==> Ranked(lists[..i], x) || x in lists[i] {
      if Ranked(lists[..i], x) {
        var l :| l in lists[..i] && x in l;
        assert l in all;
      }
    }
    forall x | x in scores ensures scores[x] == Score(k, all, x) {
      if x !in before {
        UnrankedScore(k, lists[..i], x);
      }
    }
  }

  lemma {:induction false} UnrankedScore(k: nat, lists: seq<seq<Id>>, x: Id)
    requires !Ranked(lists, x)
    ensures Score(k, lists, x) == 0.0
  {
    if lists != [] {
      assert lists[|lists| - 1] in lists;
      UnrankedScore(k, lists[..|lists| - 1], x);
    }
  }

  // ----- what fusion promises ---------------------------------------------

  /** A list may be taken out anywhere. */
  lemma {:induction false} ScoreWithout(k: nat, lists: seq<seq<Id>>, i: nat, x: Id)
    requires i < |lists|
    ensures Score(k, lists, x) == Score(k, lists[..i] + lists[i + 1..], x) + Share(k, lists[i], x)
  {
    hide Share;
    var n := |lists| - 1;
    var others := lists[..i] + lists[i + 1..];
    if i == n {
      assert others == lists[..n];
    } else {
      ScoreWithout(k, lists[..n], i, x);
      assert others[..|others| - 1] == lists[..n][..i] + lists[..n][i + 1..];
      assert others[|others| - 1] == lists[n];
    }
  }

  lemma Counterpart<T>(a: seq<T>, b: seq<T>) returns (i: nat)
    requires a != [] && multiset(a) == multiset(b)
    ensures i < |b| && b[i] == a[|a| - 1]
    ensures multiset(a[..|a| - 1]) == multiset(b[..i] + b[i + 1..])
  {
    var n := |a| - 1;
    assert a[n] in multiset(b);
    i :| 0 <= i < |b| && b[i] == a[n];
    TakeOut(b, i);
    TakeOut(a, n);
    assert a[..n] + a[n + 1..] == a[..n];
  }

  lemma {:induction false} ScoreIgnoresOrder(k: nat, a: seq<seq<Id>>, b: seq<seq<Id>>, x: Id)
    requires multiset(a) == multiset(b)
    ensures Score(k, a, x) == Score(k, b, x)
    decreases |a|
  {
    hide Share;
    if a == [] {
      assert |b| == |multiset(b)|;
    } else {
      var i := Counterpart(a, b);
      ScoreWithout(k, b, i, x);
      ScoreIgnoresOrder(k, a[..|a| - 1], b[..i] + b[i + 1..], x);
    }
  }

  lemma {:induction false} OneOrderOnly(k: nat, lists: seq<seq<Id>>, a: seq<Id>, b: seq<Id>)
    requires InOrder(k, lists, a) && InOrder(k, lists, b) && forall x :: x in a <==> x in b
    ensures a == b
  {
    hide Ahead;
    assert a != [] ==> a[0] in a;
    assert b != [] ==> b[0] in b;
    if a != [] && b != [] {
      AheadIsTotal(k, lists, a[0], b[0]);
      assert a[0] == b[0];
      forall x ensures x in a[1..] <==> x in b[1..] {
        TailHolds(k, lists, a, x);
        TailHolds(k, lists, b, x);
      }
      OneOrderOnly(k, lists, a[1..], b[1..]);
      assert a == [a[0]] + a[1..] && b == [b[0]] + b[1..];
    }
  }

  lemma TailHolds(k: nat, lists: seq<seq<Id>>, a: seq<Id>, x: Id)
    requires InOrder(k, lists, a) && a != []
    ensures x in a[1..] <==> x in a && x != a[0]
  {
    OrderHasNoRepeats(k, lists, a);
    assert a == [a[0]] + a[1..];
    if x in a[1..] {
      var i :| 0 <= i < |a[1..]| && a[1..][i] == x;
      assert a[i + 1] == x;
    }
  }

  /** The fused list does not depend on the order in which the ranked lists are given. */
  lemma FusionIgnoresOrder(k: nat, a: seq<seq<Id>>, b: seq<seq<Id>>, s: seq<Id>, t: seq<Id>)
    requires multiset(a) == multiset(b) && Fused(k, a, s) && Fused(k, b, t)
    ensures s == t
  {
    hide Score, NoRepeats;
    forall x, y ensures Ahead(k, a, x, y) <==> Ahead(k, b, x, y) {
      ScoreIgnoresOrder(k, a, b, x);
      ScoreIgnoresOrder(k, a, b, y);
    }
    forall l ensures l in a <==> l in b {
      assert l in multiset(a) <==> l in multiset(b);
    }
    OneOrderOnly(k, a, s, t);
  }

  /** In no list is y better placed: where y is, x is, at no worse a rank. */
  predicate NeverBehind(lists: seq<seq<Id>>, x: Id, y: Id) {
    forall i :: 0 <= i < |lists| && y in lists[i] ==> x in lists[i] && Rank(lists[i], x) <= Rank(lists[i], y)
  }

  predicate Better(l: seq<Id>, x: Id, y: Id) {
    x in l && (y in l ==> Rank(l, x) < Rank(l, y))
  }

  /** Each list adds one over `k` plus the rank that it gives the id, and nothing for an id that it does not hold. */
  lemma ListAdds(k: nat, lists: seq<seq<Id>>, l: seq<Id>, x: Id)
    ensures x in l ==> (Score(k, lists + [l], x) - Score(k, lists, x)) * (k + Rank(l, x)) as real == 1.0
    ensures x !in l ==> Score(k, lists + [l], x) == Score(k, lists, x)
    ensures Score(k, [], x) == 0.0
  {
    hide Reciprocal, Rank;
    assert (lists + [l])[..|lists|] == lists;
    if x in l {
      ReciprocalDivides(k, Rank(l, x));
    }
  }

  lemma ReciprocalDivides(k: nat, r: nat)
    requires r > 0
    ensures Reciprocal(k, r) * (k + r) as real == 1.0
  {
  }

  lemma {:induction false} DistinctIsItself(l: seq<Id>)
    requires NoRepeats(l)
    ensures Distinct(l) == l
  {
    if l != [] {
      DistinctIsItself(l[..|l| - 1]);
    }
  }

  /** In a list without repeats the rank is the place, counted from one. */
  lemma RankIsPlace(l: seq<Id>, i: nat)
    requires i < |l| && NoRepeats(l)
    ensures Rank(l, l[i]) == i + 1
  {
    DistinctIsItself(l);
    RankIs(l, i);
  }

  lemma ReciprocalFalls(k: nat, r: nat, s: nat)
    requires 0 < r <= s
    ensures 0.0 < Reciprocal(k, s) <= Reciprocal(k, r) && (r < s ==> Reciprocal(k, s) < Reciprocal(k, r))
  {
  }

  lemma {:induction false} ScoreLeads(k: nat, lists: seq<seq<Id>>, x: Id, y: Id)
    requires NeverBehind(lists, x, y)
    ensures Score(k, lists, x) >= Score(k, lists, y)
    ensures (exists l :: l in lists && Better(l, x, y)) ==> Score(k, lists, x) > Score(k, lists, y)
  {
    hide Reciprocal, Rank;
    if lists != [] {
      var n := |lists| - 1;
      var shorter, l := lists[..n], lists[n];
      assert lists == shorter + [l];
      forall i | 0 <= i < n && y in shorter[i] ensures x in shorter[i] && Rank(shorter[i], x) <= Rank(shorter[i], y) {
        assert shorter[i] == lists[i];
      }
      ScoreLeads(k, shorter, x, y);
      if y in l {
        ReciprocalFalls(k, Rank(l, x), Rank(l, y));
      } else if x in l {
        ReciprocalFalls(k, Rank(l, x), Rank(l, x));
      }
    }
  }

  /** An id that is never behind another and somewhere better placed comes out before it, wherever the other is. */
  lemma BetterPlacedComesFirst(k: nat, lists: seq<seq<Id>>, out: seq<Id>, x: Id, y: Id, i: nat, j: nat)
    requires Fused(k, lists, out) && i < |out| && j < |out| && out[i] == x && out[j] == y
    requires NeverBehind(lists, x, y) && exists l :: l in lists && Better(l, x, y)
    ensures i < j
  {
    hide Score, Less;
    ScoreLeads(k, lists, x, y);
    assert j < i ==> Ahead(k, lists, y, x);
  }
}
