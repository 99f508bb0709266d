/**
 The retrieval benchmark's metrics over exact reals. The logarithmic discount is any positive, strictly
 decreasing function of the rank.
 */
module RetrievalMetrics {
  import opened Bags
  import opened Lists

  // ----- gains and discounts ----------------------------------------------

  function Pow2(n: nat): nat {
    if n == 0 then 1 else 2 * Pow2(n - 1)
  }

  lemma {:induction false} Pow2Increases(a: nat, b: nat)
    requires a < b
    ensures 1 <= Pow2(a) < Pow2(b)
  {
    if a > 0 {
      Pow2Increases(a - 1, b - 1);
    } else if b > 1 {
      Pow2Increases(0, b - 1);
    }
  }

  /** The grade at rank `i`, counted from 0; a list that is too short has grade 0 there. */
  function GradeAt(grades: seq<nat>, i: nat): nat {
    if i < |grades| then grades[i] else 0
  }

  function Gain(g: nat): (gain: nat)
    ensures gain == 0 <==> g == 0
  {
    if g > 0 then Pow2Increases(0, g); Pow2(g) - 1 else 0
  }

  /** A grade is worth twice the grade below it and one more. */
  lemma GradeIsWorth(g: nat)
    ensures Gain(0) == 0 && Gain(g + 1) == 2 * Gain(g) + 1
  {
    if g > 0 {
      Pow2Increases(0, g);
    }
  }

  ghost predicate Discount(d: nat -> real) {
    (forall i :: d(i) > 0.0) && (forall i, j :: i < j ==> d(i) > d(j))
  }

  /** Discounted cumulative gain of the first `k` ranks. */
  function Dcg(grades: seq<nat>, k: nat, d: nat -> real): real {
    if k == 0 then 0.0 else Dcg(grades, k - 1, d) + Weigh(Gain(GradeAt(grades, k - 1)) as real, d(k - 1))
  }

  function Weigh(gain: real, discount: real): real {
    gain * discount
  }

  /** A changed grade at rank `i` moves the sum by the change of its gain, discounted for that rank, as long as the
      rank is within the cut-off. */
  lemma {:induction false} OneGradeCounts(grades: seq<nat>, i: nat, g: nat, k: nat, d: nat -> real)
    requires i < |grades|
    ensures Dcg(grades[i := g], k, d) - Dcg(grades, k, d)
            == if i < k then (Gain(g) - Gain(grades[i])) as real * d(i) else 0.0
    decreases k
  {
    hide Gain;
    if k > 0 {
      OneGradeCounts(grades, i, g, k - 1, d);
    }
  }

  /** Undiscounted gain of the first `n` ranks. */
  function Total(grades: seq<nat>, n: nat): nat {
    if n == 0 then 0 else Total(grades, n - 1) + Gain(GradeAt(grades, n - 1))
  }

  /** At every cut-off the ideal list has gained at least as much. */
  ghost predicate Dominates(ideal: seq<nat>, grades: seq<nat>, k: nat) {
    forall n :: 0 <= n <= k ==> Total(ideal, n) >= Total(grades, n)
  }

  // ----- rearrangement: domination of totals is domination of DCG ---------

  lemma DiscountStep(x: real, y: real, lead: real, next: real, diff: real)
    requires x > y > 0.0 && lead >= 0.0 && next >= 0.0 && diff >= Weigh(lead, x)
    ensures var after := diff + Weigh(next - lead, y);
            after >= Weigh(next, y) >= 0.0 && (after == 0.0 ==> lead == 0.0 && next == 0.0 && diff == 0.0)
  {
    assert diff + (next - lead) * y == (diff - lead * y) + next * y;
    assert diff - lead * y >= lead * (x - y);
    assert lead * (x - y) >= 0.0 && next * y >= 0.0;
    if diff + (next - lead) * y == 0.0 {
      assert next * y == 0.0 && diff == lead * y;
      assert lead * (x - y) == 0.0;
    }
  }

  function Lead(ideal: seq<nat>, grades: seq<nat>, n: nat): real {
    Total(ideal, n) as real - Total(grades, n) as real
  }

  lemma LeadSign(ideal: seq<nat>, grades: seq<nat>, n: nat)
    ensures Total(ideal, n) >= Total(grades, n) ==> Lead(ideal, grades, n) >= 0.0
    ensures Lead(ideal, grades, n) == 0.0 ==> Total(ideal, n) == Total(grades, n)
  {
  }

  lemma WeighDifference(a: real, b: real, y: real)
    ensures Weigh(a, y) - Weigh(b, y) == Weigh(a - b, y)
  {
  }

  lemma LeadGrows(ideal: seq<nat>, grades: seq<nat>, k: nat, d: nat -> real)
    requires k > 0
    ensures Dcg(ideal, k, d) - Dcg(grades, k, d)
         == Dcg(ideal, k - 1, d) - Dcg(grades, k - 1, d)
             + Weigh(Lead(ideal, grades, k) - Lead(ideal, grades, k - 1), d(k - 1))
  {
    hide Weigh, Gain, GradeAt;
    var gi, gg := Gain(GradeAt(ideal, k - 1)) as real, Gain(GradeAt(grades, k - 1)) as real;
    WeighDifference(gi, gg, d(k - 1));
    assert Lead(ideal, grades, k) - Lead(ideal, grades, k - 1) == gi - gg;
  }

  /** Summation by parts: the ideal list leads by at least its undiscounted lead at the last rank's discount, and
      not at all only if it never leads. */
  lemma {:induction false} LeadIsDiscounted(ideal: seq<nat>, grades: seq<nat>, k: nat, d: nat -> real)
    requires Discount(d) && Dominates(ideal, grades, k)
    ensures k > 0 ==> Dcg(ideal, k, d) - Dcg(grades, k, d) >= Weigh(Lead(ideal, grades, k), d(k - 1))
    ensures Dcg(ideal, k, d) >= Dcg(grades, k, d)
    ensures Dcg(ideal, k, d) == Dcg(grades, k, d) ==> forall n :: 0 <= n <= k ==> Total(ideal, n) == Total(grades, n)
    decreases k
  {
    if k > 0 {
      LeadIsDiscounted(ideal, grades, k - 1, d);
      LeadGrows(ideal, grades, k, d);
      LeadSign(ideal, grades, k - 1);
      LeadSign(ideal, grades, k);
      assert k == 1 ==> Lead(ideal, grades, 0) == 0.0 && Weigh(0.0, d(0) + 1.0) == 0.0;
      assert k == 1 ==> Dcg(ideal, 0, d) == Dcg(grades, 0, d);
      var x := if k == 1 then d(0) + 1.0 else d(k - 2);
      DiscountStep(x, d(k - 1), Lead(ideal, grades, k - 1), Lead(ideal, grades, k),
                   Dcg(ideal, k - 1, d) - Dcg(grades, k - 1, d));
    }
  }

  /** Equal totals at every cut-off are equal grades at every rank. */
  lemma TotalsGiveGrades(a: seq<nat>, b: seq<nat>, k: nat, i: nat)
    requires i < k && forall n :: 0 <= n <= k ==> Total(a, n) == Total(b, n)
    ensures GradeAt(a, i) == GradeAt(b, i)
  {
    assert Total(a, i + 1) == Total(b, i + 1) && Total(a, i) == Total(b, i);
    var x, y := GradeAt(a, i), GradeAt(b, i);
    if x < y {
      Pow2Increases(x, y);
    } else if y < x {
      Pow2Increases(y, x);
    }
  }

  lemma {:induction false} SameGradesSameDcg(a: seq<nat>, b: seq<nat>, k: nat, d: nat -> real)
    requires forall i :: 0 <= i < k ==> GradeAt(a, i) == GradeAt(b, i)
    ensures Dcg(a, k, d) == Dcg(b, k, d)
    decreases k
  {
    if k > 0 {
      SameGradesSameDcg(a, b, k - 1, d);
    }
  }

  // ----- the best possible totals -----------------------------------------

  ghost predicate Descending(s: seq<nat>) {
    forall i, j :: 0 <= i < j < |s| ==> s[i] >= s[j]
  }

  /** The total gain of a bag of grades, read as a list. */
  function Sum(s: seq<nat>): nat {
    if s == [] then 0 else Gain(s[0]) + Sum(s[1..])
  }

  function Without(s: seq<nat>, i: nat): (rest: seq<nat>)
    requires i < |s|
    ensures |rest| == |s| - 1
  {
    s[..i] + s[i + 1..]
  }

  lemma {:induction false} SumWithout(s: seq<nat>, i: nat)
    requires i < |s|
    ensures Sum(s) == Gain(s[i]) + Sum(Without(s, i))
    decreases |s|
  {
    if i == 0 {
      assert Without(s, 0) == s[1..];
    } else {
      SumWithout(s[1..], i - 1);
      assert Without(s, i)[1..] == Without(s[1..], i - 1);
      assert Without(s, i)[0] == s[0];
    }
  }

  lemma GainMonotone(a: nat, b: nat)
    requires a <= b
    ensures Gain(a) <= Gain(b)
  {
    if a < b {
      Pow2Increases(a, b);
    }
  }

  /** Shifting a descending list by one never gains. */
  lemma {:induction false} ShiftLoses(t: seq<nat>, n: nat)
    requires Descending(t) && n < |t|
    ensures Sum(t[1..][..n]) <= Sum(t[..n])
    decreases n
  {
    if n > 0 {
      GainMonotone(t[1], t[0]);
      assert Descending(t[1..]);
      ShiftLoses(t[1..], n - 1);
      assert t[1..][..n][1..] == t[1..][1..][..n - 1] && t[..n][1..] == t[1..][..n - 1];
    }
  }

  /** No choice of `|a|` grades from the bag of `t` gains more than the first `|a|` of `t`. */
  lemma {:induction false} BestChoice(a: seq<nat>, t: seq<nat>)
    requires Descending(t) && multiset(a) <= multiset(t)
    ensures |a| <= |t| && Sum(a) <= Sum(t[..|a|])
    decreases |t|
  {
    if a != [] {
      assert a[0] in multiset(a) && a[0] in multiset(t);
      HeadAndTail(t);
      var rest := t[1..];
      assert Descending(rest);
      if t[0] in a {
        var i :| 0 <= i < |a| && a[i] == t[0];
        var others := Without(a, i);
        SumWithout(a, i);
        TakeOut(a, i);
        CancelOne(multiset(others), multiset(rest), t[0]);
        BestChoice(others, rest);
        assert |others| == |a| - 1;
        SumOfFirst(t, |a|);
      } else {
        ChoiceOfTail(a, t);
        BestChoice(a, rest);
        ShiftLoses(t, |a|);
      }
    }
  }

  lemma CancelOne(x: multiset<nat>, y: multiset<nat>, g: nat)
    requires x + multiset{g} <= multiset{g} + y
    ensures x <= y
  {
    forall h ensures x[h] <= y[h] {
      assert (x + multiset{g})[h] <= (multiset{g} + y)[h];
    }
  }

  lemma SumOfFirst(t: seq<nat>, n: nat)
    requires 0 < n <= |t|
    ensures Sum(t[..n]) == Gain(t[0]) + Sum(t[1..][..n - 1])
  {
    assert t[..n][1..] == t[1..][..n - 1];
  }

  lemma ChoiceOfTail(a: seq<nat>, t: seq<nat>)
    requires t != [] && t[0] !in a && multiset(a) <= multiset(t)
    ensures multiset(a) <= multiset(t[1..])
  {
    HeadAndTail(t);
    assert t[0] !in multiset(a);
  }

  /** The grades among the first `n` ranks that gain anything. */
  function Graded(grades: seq<nat>, n: nat): seq<nat> {
    if n == 0 then []
    else if GradeAt(grades, n - 1) == 0 then Graded(grades, n - 1)
    else Graded(grades, n - 1) + [grades[n - 1]]
  }

  lemma {:induction false} SumMore(s: seq<nat>, g: nat)
    ensures Sum(s + [g]) == Sum(s) + Gain(g)
    decreases |s|
  {
    if s != [] {
      SumMore(s[1..], g);
      assert (s + [g])[1..] == s[1..] + [g];
    }
  }

  lemma {:induction false} TotalIsSum(grades: seq<nat>, n: nat)
    ensures Total(grades, n) == Sum(Graded(grades, n)) && |Graded(grades, n)| <= n
    decreases n
  {
    if n > 0 {
      TotalIsSum(grades, n - 1);
      if GradeAt(grades, n - 1) != 0 {
        SumMore(Graded(grades, n - 1), grades[n - 1]);
      }
    }
  }

  lemma {:induction false} TotalOfPrefix(t: seq<nat>, n: nat, m: nat)
    requires n <= |t| && n <= m
    ensures Sum(t[..n]) <= Total(t, m)
    decreases m
  {
    if n < m {
      TotalOfPrefix(t, n, m - 1);
    } else if n > 0 {
      TotalOfPrefix(t, n - 1, n - 1);
      SumMore(t[..n - 1], t[n - 1]);
      assert t[..n - 1] + [t[n - 1]] == t[..n];
    }
  }

  // ----- labels, ids and keys ---------------------------------------------

  /** A corpus note's key, which the labels use, and the id that the store gave it. */
  datatype Key = Key(text: string)
  datatype Id = Id(text: string)

  /** What the lookup of an unknown id falls back to. */
  const NO_KEY := Key("")

  /** Every id that has a key has one whose own id it is: what inverting a dict leaves. */
  ghost predicate Inverts(idToKey: map<Id, Key>, keyToId: map<Key, Id>) {
    forall id :: id in idToKey ==> idToKey[id] in keyToId && keyToId[idToKey[id]] == id
  }

  /** Inverting the whole table: every id of it is there, under a key that has it. */
  ghost predicate Inversion(idToKey: map<Id, Key>, keyToId: map<Key, Id>) {
    Inverts(idToKey, keyToId) && forall k :: k in keyToId ==> keyToId[k] in idToKey
  }

  method InvertKeys(keyToId: map<Key, Id>) returns (idToKey: map<Id, Key>)
    ensures Inversion(idToKey, keyToId)
  {
    idToKey := map[];
    var left := keyToId.Keys;
    while left != {}
      invariant left <= keyToId.Keys && Inverts(idToKey, keyToId)
      invariant forall k :: k in keyToId && k !in left ==> keyToId[k] in idToKey
      decreases left
    {
      var k :| k in left;
      idToKey := idToKey[keyToId[k] := k];
      left := left - {k};
    }
  }

  function KeyOf(idToKey: map<Id, Key>, id: Id): Key {
    if id in idToKey then idToKey[id] else NO_KEY
  }

  function GradeOf(labels: map<Key, nat>, key: Key): nat {
    if key in labels then labels[key] else 0
  }

  function HitGrades(labels: map<Key, nat>, idToKey: map<Id, Key>, ids: seq<Id>): (grades: seq<nat>)
    ensures |grades| == |ids| && forall i :: 0 <= i < |ids| ==> grades[i] == GradeOf(labels, KeyOf(idToKey, ids[i]))
  {
    seq(|ids|, i requires 0 <= i < |ids| => GradeOf(labels, KeyOf(idToKey, ids[i])))
  }

  /** The keys of the first `n` hits whose grade is at least `t`. */
  ghost function KeysHit(labels: map<Key, nat>, idToKey: map<Id, Key>, ids: seq<Id>, n: nat, t: nat): set<Key>
    requires n <= |ids|
  {
    if n == 0 then {}
    else
      var key := KeyOf(idToKey, ids[n - 1]);
      KeysHit(labels, idToKey, ids, n - 1, t) + if GradeOf(labels, key) >= t then {key} else {}
  }

  lemma {:induction false} KeyHasHit(labels: map<Key, nat>, idToKey: map<Id, Key>, ids: seq<Id>, n: nat, t: nat,
                                     key: Key)
    returns (i: nat)
    requires n <= |ids| && key in KeysHit(labels, idToKey, ids, n, t)
    ensures i < n && KeyOf(idToKey, ids[i]) == key
  {
    if key in KeysHit(labels, idToKey, ids, n - 1, t) {
      i := KeyHasHit(labels, idToKey, ids, n - 1, t, key);
    } else {
      i := n - 1;
    }
  }

  /** A graded hit brings a key that no earlier hit brought: ids are distinct, and a key has one id. */
  lemma NewKey(labels: map<Key, nat>, idToKey: map<Id, Key>, keyToId: map<Key, Id>, ids: seq<Id>, n: nat, t: nat)
    requires Inverts(idToKey, keyToId) && GradeOf(labels, NO_KEY) < t && NoRepeats(ids) && n < |ids|
    requires GradeOf(labels, KeyOf(idToKey, ids[n])) >= t
    ensures var key := KeyOf(idToKey, ids[n]); key in labels && key !in KeysHit(labels, idToKey, ids, n, t)
  {
    var key := KeyOf(idToKey, ids[n]);
    if key in KeysHit(labels, idToKey, ids, n, t) {
      var i := KeyHasHit(labels, idToKey, ids, n, t, key);
    }
  }

  /** Taking the labels of `used` out leaves `bag` fewer grades. */
  ghost predicate Used(labels: map<Key, nat>, used: set<Key>, bag: multiset<nat>) {
    Bag(labels) == Bag(labels - used) + bag
  }

  lemma UseOne(labels: map<Key, nat>, used: set<Key>, bag: multiset<nat>, key: Key)
    requires Used(labels, used, bag) && key in labels && key !in used
    ensures Used(labels, used + {key}, bag + multiset{labels[key]})
  {
    BagPick(labels - used, key);
    hide Bag;
    assert labels - used - {key} == labels - (used + {key});
  }

  lemma NoneHit(labels: map<Key, nat>, idToKey: map<Id, Key>, ids: seq<Id>)
    ensures Used(labels, KeysHit(labels, idToKey, ids, 0, 1), multiset(Graded(HitGrades(labels, idToKey, ids), 0)))
  {
    assert labels - {} == labels;
  }

  /** The graded hits are among the labels, each label used at most once. */
  lemma {:induction false} GradesAreLabels(labels: map<Key, nat>, idToKey: map<Id, Key>, keyToId: map<Key, Id>,
                                           ids: seq<Id>, n: nat)
    requires Inverts(idToKey, keyToId) && NO_KEY !in labels && NoRepeats(ids) && n <= |ids|
    ensures Used(labels, KeysHit(labels, idToKey, ids, n, 1), multiset(Graded(HitGrades(labels, idToKey, ids), n)))
    decreases n
  {
    hide Used, NoRepeats, Inverts, GradeOf, KeyOf, HitGrades, KeysHit, Graded;
    NoLabelNoGrade(labels);
    if n == 0 {
      NoneHit(labels, idToKey, ids);
    } else {
      GradesAreLabels(labels, idToKey, keyToId, ids, n - 1);
      var key := KeyOf(idToKey, ids[n - 1]);
      GradedMore(labels, idToKey, ids, n);
      var used := KeysHit(labels, idToKey, ids, n - 1, 1);
      var bag := multiset(Graded(HitGrades(labels, idToKey, ids), n - 1));
      if GradeOf(labels, key) >= 1 {
        NewKey(labels, idToKey, keyToId, ids, n - 1, 1);
        UseOne(labels, used, bag, key);
      }
    }
  }

  lemma NoLabelNoGrade(labels: map<Key, nat>)
    requires NO_KEY !in labels
    ensures GradeOf(labels, NO_KEY) == 0
  {
  }

  lemma GradedMore(labels: map<Key, nat>, idToKey: map<Id, Key>, ids: seq<Id>, n: nat)
    requires 0 < n <= |ids|
    ensures var key := KeyOf(idToKey, ids[n - 1]);
            var used, next := KeysHit(labels, idToKey, ids, n - 1, 1), KeysHit(labels, idToKey, ids, n, 1);
            var grades := HitGrades(labels, idToKey, ids);
            var bag, more := multiset(Graded(grades, n - 1)), multiset(Graded(grades, n));
            && (GradeOf(labels, key) == 0 ==> next == used && more == bag)
            && (GradeOf(labels, key) >= 1 && key in labels ==>
                next == used + {key} && more == bag + multiset{labels[key]})
  {
  }

  // ----- the metrics ------------------------------------------------------

  function Ndcg(ideal: seq<nat>, grades: seq<nat>, k: nat, d: nat -> real): real {
    if Dcg(ideal, k, d) > 0.0 then Dcg(grades, k, d) / Dcg(ideal, k, d) else 0.0
  }

  lemma {:induction false} DcgSign(grades: seq<nat>, k: nat, d: nat -> real)
    requires Discount(d)
    ensures Dcg(grades, k, d) >= 0.0
    decreases k
  {
    if k > 0 {
      DcgSign(grades, k - 1, d);
      assert Weigh(Gain(GradeAt(grades, k - 1)) as real, d(k - 1)) >= 0.0;
    }
  }

  lemma Ratio(x: real, y: real)
    requires 0.0 <= x <= y && y > 0.0
    ensures 0.0 <= x / y <= 1.0 && (x / y == 1.0 <==> x == y)
  {
  }

  // ----- hits without a key of their own ----------------------------------

  /** How many of the first `n` hits are credited with the label of the empty key. */
  function Keyless(idToKey: map<Id, Key>, ids: seq<Id>, n: nat): nat
    requires n <= |ids|
  {
    if n == 0 then 0 else Keyless(idToKey, ids, n - 1) + if KeyOf(idToKey, ids[n - 1]) == NO_KEY then 1 else 0
  }

  /** The gain of `m` hits of grade `g`. */
  function Repeated(m: nat, g: nat): nat {
    if m == 0 then 0 else Repeated(m - 1, g) + Gain(g)
  }

  /** Hits with a key of their own gain as they would without a label for the empty key; the others gain its grade. */
  lemma {:induction false} TotalSplits(labels: map<Key, nat>, idToKey: map<Id, Key>, ids: seq<Id>, n: nat)
    requires n <= |ids|
    ensures var own := HitGrades(labels - {NO_KEY}, idToKey, ids);
            var m := Keyless(idToKey, ids, n);
            && Total(HitGrades(labels, idToKey, ids), n) == Total(own, n) + Repeated(m, GradeOf(labels, NO_KEY))
            && |Graded(own, n)| + m <= n
    decreases n
  {
    hide Gain;
    if n > 0 {
      TotalSplits(labels, idToKey, ids, n - 1);
    }
  }

  /** The label of the empty key is no better than the last of the first `k` ideal grades. */
  predicate Harmless(labels: map<Key, nat>, ideal: seq<nat>, k: nat) {
    k == 0 || GradeOf(labels, NO_KEY) <= GradeAt(ideal, k - 1)
  }

  lemma {:induction false} RoomForRepeats(ideal: seq<nat>, k: nat, a: nat, m: nat, g: nat)
    requires Descending(ideal) && a + m <= k && (k > 0 ==> g <= GradeAt(ideal, k - 1))
    ensures Total(ideal, a) + Repeated(m, g) <= Total(ideal, a + m)
    decreases m
  {
    if m > 0 {
      RoomForRepeats(ideal, k, a, m - 1, g);
      GainMonotone(g, GradeAt(ideal, a + m - 1));
    }
  }

  lemma {:induction false} TotalGrows(grades: seq<nat>, n: nat, m: nat)
    requires n <= m
    ensures Total(grades, n) <= Total(grades, m)
    decreases m
  {
    if n < m {
      TotalGrows(grades, n, m - 1);
    }
  }

  lemma {:induction false} TotalPastTheEnd(grades: seq<nat>, n: nat)
    requires n >= |grades|
    ensures Total(grades, n) == Total(grades, |grades|)
    decreases n
  {
    if n > |grades| {
      TotalPastTheEnd(grades, n - 1);
    }
  }

  lemma SubBag(labels: map<Key, nat>, bag: multiset<nat>)
    requires bag <= Bag(labels - {NO_KEY})
    ensures bag <= Bag(labels)
  {
    if NO_KEY in labels {
      BagPick(labels, NO_KEY);
    } else {
      assert labels - {NO_KEY} == labels;
    }
  }

  lemma IdealLeads(labels: map<Key, nat>, idToKey: map<Id, Key>, keyToId: map<Key, Id>, ids: seq<Id>, ideal: seq<nat>,
                   k: nat, n: nat)
    requires Inverts(idToKey, keyToId) && NoRepeats(ids) && Harmless(labels, ideal, k) && n <= k && n <= |ids|
    requires Descending(ideal) && multiset(ideal) == Bag(labels)
    ensures Total(ideal, n) >= Total(HitGrades(labels, idToKey, ids), n)
  {
    hide Bag, Used, HitGrades, Graded, Keyless, Repeated, Inverts, NoRepeats, Total, Gain, Descending;
    var own := HitGrades(labels - {NO_KEY}, idToKey, ids);
    var chosen, m := Graded(own, n), Keyless(idToKey, ids, n);
    TotalSplits(labels, idToKey, ids, n);
    GradesAreLabels(labels - {NO_KEY}, idToKey, keyToId, ids, n);
    UsedIsPart(labels - {NO_KEY}, KeysHit(labels - {NO_KEY}, idToKey, ids, n, 1), multiset(chosen));
    SubBag(labels, multiset(chosen));
    TotalIsSum(own, n);
    BestChoice(chosen, ideal);
    TotalOfPrefix(ideal, |chosen|, |chosen|);
    RoomForRepeats(ideal, k, |chosen|, m, GradeOf(labels, NO_KEY));
    TotalGrows(ideal, |chosen| + m, n);
  }

  lemma UsedIsPart(labels: map<Key, nat>, used: set<Key>, bag: multiset<nat>)
    requires Used(labels, used, bag)
    ensures bag <= Bag(labels)
  {
    hide Bag;
  }

  lemma IdealDominates(labels: map<Key, nat>, idToKey: map<Id, Key>, keyToId: map<Key, Id>, ids: seq<Id>,
                       ideal: seq<nat>, k: nat)
    requires Inverts(idToKey, keyToId) && NoRepeats(ids) && Harmless(labels, ideal, k)
    requires Descending(ideal) && multiset(ideal) == Bag(labels)
    ensures Dominates(ideal, HitGrades(labels, idToKey, ids), k)
  {
    var grades := HitGrades(labels, idToKey, ids);
    forall n | 0 <= n <= k ensures Total(ideal, n) >= Total(grades, n) {
      var cut := if n <= |ids| then n else |ids|;
      IdealLeads(labels, idToKey, keyToId, ids, ideal, k, cut);
      TotalGrows(ideal, cut, n);
      if n > |ids| {
        TotalPastTheEnd(grades, n);
      }
    }
  }

  /** With a harmless empty key nDCG lies in [0, 1] for every ranking of distinct ids, and is 1 exactly when some
      label is graded and the first `k` hits carry the ideal grades in the ideal order. */
  lemma NdcgInRange(labels: map<Key, nat>, idToKey: map<Id, Key>, keyToId: map<Key, Id>, ids: seq<Id>,
                    ideal: seq<nat>, k: nat, d: nat -> real)
    requires Inverts(idToKey, keyToId) && NoRepeats(ids) && Harmless(labels, ideal, k)
    requires Descending(ideal) && multiset(ideal) == Bag(labels) && Discount(d)
    ensures var grades := HitGrades(labels, idToKey, ids);
            && 0.0 <= Ndcg(ideal, grades, k, d) <= 1.0
            && (Ndcg(ideal, grades, k, d) == 1.0 <==>
                  Dcg(ideal, k, d) > 0.0 && forall i :: 0 <= i < k ==> GradeAt(grades, i) == GradeAt(ideal, i))
  {
    var grades := HitGrades(labels, idToKey, ids);
    IdealDominates(labels, idToKey, keyToId, ids, ideal, k);
    LeadIsDiscounted(ideal, grades, k, d);
    DcgSign(grades, k, d);
    if Dcg(ideal, k, d) > 0.0 {
      Ratio(Dcg(grades, k, d), Dcg(ideal, k, d));
      if Dcg(ideal, k, d) == Dcg(grades, k, d) {
        forall i | 0 <= i < k ensures GradeAt(grades, i) == GradeAt(ideal, i) {
          TotalsGiveGrades(grades, ideal, k, i);
        }
      }
      if forall i :: 0 <= i < k ==> GradeAt(grades, i) == GradeAt(ideal, i) {
        SameGradesSameDcg(grades, ideal, k, d);
      }
    }
  }

  // ----- when the empty key overcounts ------------------------------------

  /** The labels' keys in the order of the ideal grades. */
  lemma {:induction false} KeysInOrder(labels: map<Key, nat>, ideal: seq<nat>) returns (keys: seq<Key>)
    requires multiset(ideal) == Bag(labels)
    ensures |keys| == |ideal| && forall i :: 0 <= i < |keys| ==> keys[i] in labels && labels[keys[i]] == ideal[i]
    ensures forall i, j :: 0 <= i < j < |keys| ==> keys[i] != keys[j]
    decreases |ideal|
  {
    hide Bag;
    if ideal == [] {
      keys := [];
    } else {
      assert ideal[0] in multiset(ideal);
      var k := InBag(labels, ideal[0]);
      BagPick(labels, k);
      HeadAndTail(ideal);
      OneLess(multiset(ideal[1..]), Bag(labels - {k}), ideal[0]);
      var others := KeysInOrder(labels - {k}, ideal[1..]);
      keys := [k] + others;
      ConsKeys(labels, ideal, k, others);
    }
  }

  lemma ConsKeys(labels: map<Key, nat>, ideal: seq<nat>, k: Key, others: seq<Key>)
    requires ideal != [] && k in labels && labels[k] == ideal[0] && |others| == |ideal| - 1
    requires forall i :: 0 <= i < |others| ==> others[i] in labels - {k} && labels[others[i]] == ideal[1..][i]
    requires forall i, j :: 0 <= i < j < |others| ==> others[i] != others[j]
    ensures var keys := [k] + others;
            && (forall i :: 0 <= i < |keys| ==> keys[i] in labels && labels[keys[i]] == ideal[i])
            && forall i, j :: 0 <= i < j < |keys| ==> keys[i] != keys[j]
  {
    var keys := [k] + others;
    forall i | 0 <= i < |keys| ensures keys[i] in labels && labels[keys[i]] == ideal[i] && (i > 0 ==> keys[i] != k) {
      if i > 0 {
        assert keys[i] == others[i - 1] && ideal[1..][i - 1] == ideal[i];
      }
    }
  }

  lemma OneLess(x: multiset<nat>, y: multiset<nat>, g: nat)
    requires multiset{g} + x == y + multiset{g}
    ensures x == y
  {
    assert x == multiset{g} + x - multiset{g};
    assert y == y + multiset{g} - multiset{g};
  }

  /** Ids told apart by their length. */
  function IdAt(i: nat): Id {
    Id(seq(i, _ => 'n'))
  }

  lemma IdsDiffer(i: nat, j: nat)
    ensures IdAt(i) == IdAt(j) <==> i == j
  {
    assert |IdAt(i).text| == i && |IdAt(j).text| == j;
  }

  /** The table knows exactly the ids of the ranks whose ideal grade is above `g`, each by the key that has it. */
  ghost predicate Tables(idToKey: map<Id, Key>, keys: seq<Key>, ideal: seq<nat>, g: nat, n: nat)
    requires |keys| == |ideal|
  {
    && (forall i: nat :: IdAt(i) in idToKey <==> i < n && i < |ideal| && ideal[i] > g)
    && (forall i: nat :: IdAt(i) in idToKey && i < |ideal| ==> idToKey[IdAt(i)] == keys[i])
    && forall id :: id in idToKey ==> exists i: nat :: i < n && id == IdAt(i)
  }

  lemma TableOf(keys: seq<Key>, ideal: seq<nat>, g: nat) returns (idToKey: map<Id, Key>, keyToId: map<Key, Id>)
    requires |keys| == |ideal| && forall i, j :: 0 <= i < j < |keys| ==> keys[i] != keys[j]
    ensures Inversion(idToKey, keyToId) && Tables(idToKey, keys, ideal, g, |ideal|)
  {
    hide IdAt;
    forall i: nat, j: nat ensures IdAt(i) == IdAt(j) <==> i == j {
      IdsDiffer(i, j);
    }
    idToKey, keyToId := map[], map[];
    for n := 0 to |ideal|
      invariant Inversion(idToKey, keyToId) && Tables(idToKey, keys, ideal, g, n)
    {
      if ideal[n] > g {
        idToKey := idToKey[IdAt(n) := keys[n]];
        keyToId := keyToId[keys[n] := IdAt(n)];
      }
    }
  }

  /** A table and a ranking whose grade at every rank is the ideal one, raised to that of the empty key. */
  lemma RaisedRanking(labels: map<Key, nat>, ideal: seq<nat>, k: nat)
    returns (idToKey: map<Id, Key>, keyToId: map<Key, Id>, ids: seq<Id>)
    requires multiset(ideal) == Bag(labels)
    ensures Inversion(idToKey, keyToId) && NoRepeats(ids) && |ids| == k
    ensures var g, grades := GradeOf(labels, NO_KEY), HitGrades(labels, idToKey, ids);
            forall i :: 0 <= i < k ==> grades[i] == if GradeAt(ideal, i) > g then GradeAt(ideal, i) else g
  {
    hide Bag, IdAt;
    var keys := KeysInOrder(labels, ideal);
    idToKey, keyToId := TableOf(keys, ideal, GradeOf(labels, NO_KEY));
    ids := seq(k, i requires 0 <= i < k => IdAt(i));
    forall i: nat, j: nat ensures IdAt(i) == IdAt(j) <==> i == j {
      IdsDiffer(i, j);
    }
    assert forall i :: 0 <= i < k ==> ids[i] == IdAt(i);
  }

  lemma {:induction false} DcgPointwise(a: seq<nat>, b: seq<nat>, k: nat, d: nat -> real)
    requires Discount(d) && forall i :: 0 <= i < k ==> GradeAt(a, i) >= GradeAt(b, i)
    ensures Dcg(a, k, d) >= Dcg(b, k, d)
    ensures k > 0 && GradeAt(a, k - 1) > GradeAt(b, k - 1) ==> Dcg(a, k, d) > Dcg(b, k, d)
    decreases k
  {
    if k > 0 {
      DcgPointwise(a, b, k - 1, d);
      var x, y := GradeAt(a, k - 1), GradeAt(b, k - 1);
      GainMonotone(y, x);
      if x > y {
        GainIncreases(y, x);
      }
      WeighGrows(Gain(y) as real, Gain(x) as real, d(k - 1));
    }
  }

  lemma GainIncreases(a: nat, b: nat)
    requires a < b
    ensures Gain(a) < Gain(b)
  {
    Pow2Increases(a, b);
  }

  lemma WeighGrows(x: real, y: real, z: real)
    requires x <= y && z > 0.0
    ensures Weigh(x, z) <= Weigh(y, z) && (x < y ==> Weigh(x, z) < Weigh(y, z))
  {
  }

  lemma {:induction false} DcgOfGraded(grades: seq<nat>, k: nat, d: nat -> real)
    requires Discount(d) && k > 0 && GradeAt(grades, 0) > 0
    ensures Dcg(grades, k, d) > 0.0
    decreases k
  {
    hide Gain;
    WeighGrows(0.0, Gain(GradeAt(grades, k - 1)) as real, d(k - 1));
    if k > 1 {
      DcgOfGraded(grades, k - 1, d);
    } else {
      DcgSign(grades, 0, d);
    }
  }

  /** A better label for the empty key than that pushes nDCG over 1 for some table and some ranking. */
  lemma EmptyKeyOvercounts(labels: map<Key, nat>, ideal: seq<nat>, k: nat, d: nat -> real)
    returns (idToKey: map<Id, Key>, keyToId: map<Key, Id>, ids: seq<Id>)
    requires Descending(ideal) && multiset(ideal) == Bag(labels) && Discount(d) && !Harmless(labels, ideal, k)
    ensures Inversion(idToKey, keyToId) && NoRepeats(ids)
    ensures Ndcg(ideal, HitGrades(labels, idToKey, ids), k, d) > 1.0
  {
    hide Bag, HitGrades, Gain;
    idToKey, keyToId, ids := RaisedRanking(labels, ideal, k);
    var grades := HitGrades(labels, idToKey, ids);
    DcgPointwise(grades, ideal, k, d);
    IdealIsGraded(labels, ideal);
    DcgOfGraded(ideal, k, d);
    Over(Dcg(grades, k, d), Dcg(ideal, k, d));
  }

  lemma IdealIsGraded(labels: map<Key, nat>, ideal: seq<nat>)
    requires Descending(ideal) && multiset(ideal) == Bag(labels) && GradeOf(labels, NO_KEY) > 0
    ensures GradeAt(ideal, 0) > 0
  {
    BagPick(labels, NO_KEY);
    assert labels[NO_KEY] in multiset(ideal);
    assert labels[NO_KEY] in ideal;
  }

  lemma Over(x: real, y: real)
    requires x > y > 0.0
    ensures x / y > 1.0
  {
    assert (x / y - 1.0) * y == x - y;
  }

  predicate AtMostOne(labels: map<Key, nat>, ideal: seq<nat>, k: nat, d: nat -> real, idToKey: map<Id, Key>,
                      ids: seq<Id>) {
    Ndcg(ideal, HitGrades(labels, idToKey, ids), k, d) <= 1.0
  }

  /** Exactly when nDCG is at most 1 for every inverted table and every ranking of distinct ids: the empty key, which is
      the lookup default, has no label better than the last of the first `k` ideal grades. */
  lemma NdcgBoundedExactlyWhen(labels: map<Key, nat>, ideal: seq<nat>, k: nat, d: nat -> real)
    requires Descending(ideal) && multiset(ideal) == Bag(labels) && Discount(d)
    ensures Harmless(labels, ideal, k) <==>
            (forall idToKey, keyToId, ids ::
               Inversion(idToKey, keyToId) && NoRepeats(ids) ==> AtMostOne(labels, ideal, k, d, idToKey, ids))
  {
    hide Bag, Ndcg, Inverts, NoRepeats, Harmless;
    if Harmless(labels, ideal, k) {
      forall idToKey, keyToId, ids | Inversion(idToKey, keyToId) && NoRepeats(ids)
        ensures AtMostOne(labels, ideal, k, d, idToKey, ids)
      {
        NdcgInRange(labels, idToKey, keyToId, ids, ideal, k, d);
      }
    } else {
      var idToKey, keyToId, ids := EmptyKeyOvercounts(labels, ideal, k, d);
      assert !AtMostOne(labels, ideal, k, d, idToKey, ids);
    }
  }

  // ----- recall and reciprocal rank ---------------------------------------

  function CountAtLeast(grades: seq<nat>, t: nat): nat {
    if grades == [] then 0
    else CountAtLeast(grades[..|grades| - 1], t) + if grades[|grades| - 1] >= t then 1 else 0
  }

  ghost function KeysAtLeast(labels: map<Key, nat>, t: nat): set<Key> {
    set k | k in labels && labels[k] >= t
  }

  /** Recall counts labels, not hits: as many as there are distinct keys among the hits, so at most all of them. */
  lemma {:induction false} HitsAreKeys(labels: map<Key, nat>, idToKey: map<Id, Key>, keyToId: map<Key, Id>,
                                       ids: seq<Id>, t: nat, n: nat)
    requires Inverts(idToKey, keyToId) && GradeOf(labels, NO_KEY) < t && NoRepeats(ids) && n <= |ids|
    ensures CountAtLeast(HitGrades(labels, idToKey, ids)[..n], t) == |KeysHit(labels, idToKey, ids, n, t)|
    ensures KeysHit(labels, idToKey, ids, n, t) <= KeysAtLeast(labels, t)
    decreases n
  {
    hide Inverts, NoRepeats, HitGrades, KeysHit, KeysAtLeast, CountAtLeast, KeyOf, GradeOf;
    if n == 0 {
      NoHits(labels, idToKey, ids, t);
    } else {
      HitsAreKeys(labels, idToKey, keyToId, ids, t, n - 1);
      HitMore(labels, idToKey, ids, t, n);
      if GradeOf(labels, KeyOf(idToKey, ids[n - 1])) >= t {
        NewKey(labels, idToKey, keyToId, ids, n - 1, t);
        AtLeast(labels, KeyOf(idToKey, ids[n - 1]), t);
      }
    }
  }

  lemma NoHits(labels: map<Key, nat>, idToKey: map<Id, Key>, ids: seq<Id>, t: nat)
    ensures CountAtLeast(HitGrades(labels, idToKey, ids)[..0], t) == 0 && KeysHit(labels, idToKey, ids, 0, t) == {}
  {
  }

  lemma HitMore(labels: map<Key, nat>, idToKey: map<Id, Key>, ids: seq<Id>, t: nat, n: nat)
    requires 0 < n <= |ids|
    ensures var grades, key := HitGrades(labels, idToKey, ids), KeyOf(idToKey, ids[n - 1]);
            var hit := GradeOf(labels, key) >= t;
            && CountAtLeast(grades[..n], t) == CountAtLeast(grades[..n - 1], t) + (if hit then 1 else 0)
            && KeysHit(labels, idToKey, ids, n, t)
               == KeysHit(labels, idToKey, ids, n - 1, t) + (if hit then {key} else {})
  {
    var grades := HitGrades(labels, idToKey, ids);
    assert grades[..n][..n - 1] == grades[..n - 1];
  }

  lemma AtLeast(labels: map<Key, nat>, key: Key, t: nat)
    requires key in labels && GradeOf(labels, key) >= t
    ensures key in KeysAtLeast(labels, t)
  {
  }

  lemma {:induction false} SubsetSize(a: set<Key>, b: set<Key>)
    requires a <= b
    ensures |a| <= |b|
    decreases |a|
  {
    if a != {} {
      var x :| x in a;
      SubsetSize(a - {x}, b - {x});
    }
  }

  function Recall(found: nat, total: nat): real {
    if total > 0 then found as real / total as real else 0.0
  }

  lemma RecallInRange(labels: map<Key, nat>, idToKey: map<Id, Key>, keyToId: map<Key, Id>, ids: seq<Id>, t: nat)
    requires Inverts(idToKey, keyToId) && GradeOf(labels, NO_KEY) < t && NoRepeats(ids)
    ensures var found, total := CountAtLeast(HitGrades(labels, idToKey, ids), t), |KeysAtLeast(labels, t)|;
            && 0.0 <= Recall(found, total) <= 1.0
            && (Recall(found, total) == 1.0 <==>
                total > 0 && KeysHit(labels, idToKey, ids, |ids|, t) == KeysAtLeast(labels, t))
  {
    var grades := HitGrades(labels, idToKey, ids);
    HitsAreKeys(labels, idToKey, keyToId, ids, t, |ids|);
    assert grades[..|ids|] == grades;
    var hit, all := KeysHit(labels, idToKey, ids, |ids|, t), KeysAtLeast(labels, t);
    SubsetSize(hit, all);
    if |all| > 0 {
      Ratio(|hit| as real, |all| as real);
      if |hit| == |all| && hit != all {
        var x :| x in all && x !in hit;
        SubsetSize(hit, all - {x});
      }
    }
  }

  ghost predicate RecallAtMostOne(labels: map<Key, nat>, t: nat, idToKey: map<Id, Key>, ids: seq<Id>) {
    Recall(CountAtLeast(HitGrades(labels, idToKey, ids), t), |KeysAtLeast(labels, t)|) <= 1.0
  }

  /** Exactly when recall is at most 1 for every inverted table and every ranking: the empty key's label does not
      count. */
  lemma RecallBoundedExactlyWhen(labels: map<Key, nat>, t: nat)
    requires t > 0
    ensures GradeOf(labels, NO_KEY) < t <==>
            (forall idToKey, keyToId, ids ::
               Inversion(idToKey, keyToId) && NoRepeats(ids) ==> RecallAtMostOne(labels, t, idToKey, ids))
  {
    hide Inverts, NoRepeats;
    if GradeOf(labels, NO_KEY) < t {
      forall idToKey, keyToId, ids | Inversion(idToKey, keyToId) && NoRepeats(ids)
        ensures RecallAtMostOne(labels, t, idToKey, ids)
      {
        RecallInRange(labels, idToKey, keyToId, ids, t);
      }
    } else {
      var ids := UnknownIds(|KeysAtLeast(labels, t)| + 1);
      NothingToInvert();
      UnknownsCount(labels, t, ids);
      assert !RecallAtMostOne(labels, t, map[], ids);
    }
  }

  lemma UnknownIds(n: nat) returns (ids: seq<Id>)
    ensures |ids| == n && NoRepeats(ids)
  {
    forall i: nat, j: nat ensures IdAt(i) == IdAt(j) <==> i == j {
      IdsDiffer(i, j);
    }
    hide IdAt;
    ids := seq(n, i requires 0 <= i < n => IdAt(i));
  }

  lemma NothingToInvert()
    ensures Inversion(map[], map[])
  {
  }

  lemma UnknownsCount(labels: map<Key, nat>, t: nat, ids: seq<Id>)
    requires t > 0 && GradeOf(labels, NO_KEY) >= t && |ids| == |KeysAtLeast(labels, t)| + 1
    ensures !RecallAtMostOne(labels, t, map[], ids)
  {
    var grades := HitGrades(labels, map[], ids);
    AllCount(grades, t);
    assert NO_KEY in KeysAtLeast(labels, t);
    Over(|ids| as real, |KeysAtLeast(labels, t)| as real);
  }

  lemma {:induction false} AllCount(grades: seq<nat>, t: nat)
    requires forall i :: 0 <= i < |grades| ==> grades[i] >= t
    ensures CountAtLeast(grades, t) == |grades|
  {
    if grades != [] {
      AllCount(grades[..|grades| - 1], t);
    }
  }

  /** Ranks past the end of the list add nothing. */
  lemma {:induction false} Short(grades: seq<nat>, n: nat, k: nat, d: nat -> real)
    requires |grades| <= n <= k
    ensures Dcg(grades, k, d) == Dcg(grades, n, d)
    decreases k
  {
    if n < k {
      Short(grades, n, k - 1, d);
      assert Gain(0) as real == 0.0 && Weigh(0.0, d(k - 1)) == 0.0;
    }
  }

  // ----- the source's loops -----------------------------------------------

  method DcgAtK(grades: seq<nat>, k: nat, d: nat -> real) returns (total: real)
    ensures total == Dcg(grades, k, d)
  {
    total := 0.0;
    var n := if |grades| < k then |grades| else k;
    for i := 0 to n
      invariant total == Dcg(grades, i, d)
    {
      total := total + Weigh(Gain(grades[i]) as real, d(i));
    }
    if n < k {
      Short(grades, n, k, d);
    }
  }

  function Downward(g: nat): int {
    0 - g as int
  }

  /** The values in descending order. */
  function SortedDescending(s: seq<nat>): (r: seq<nat>)
    ensures Descending(r) && multiset(r) == multiset(s)
  {
    SortsDown(s);
    SortBy(Downward, s)
  }

  lemma SortsDown(s: seq<nat>)
    ensures Descending(SortBy(Downward, s)) && multiset(SortBy(Downward, s)) == multiset(s)
  {
    hide SortBy;
    SortSorts(Downward, s);
    var r := SortBy(Downward, s);
    forall i, j | 0 <= i < j < |r| ensures r[i] >= r[j] {
      assert Downward(r[i]) <= Downward(r[j]);
    }
  }

  datatype Metrics = Metrics(ndcg: real, recall: real, targetRecall: real, mrr: real)

  /** The first hit that is a target: 1 over its rank, or 0 past `k`. */
  predicate IsReciprocalRank(mrr: real, grades: seq<nat>, k: nat) {
    || (mrr == 0.0 && forall i :: 0 <= i < k ==> GradeAt(grades, i) < 2)
    || (exists i :: 0 <= i < k && GradeAt(grades, i) >= 2 && mrr == 1.0 / (i + 1) as real
                    && forall j :: 0 <= j < i ==> GradeAt(grades, j) < 2)
  }

  method ReciprocalRank(grades: seq<nat>, k: nat) returns (mrr: real)
    ensures IsReciprocalRank(mrr, grades, k)
  {
    mrr := 0.0;
    for i := 0 to if |grades| < k then |grades| else k
      invariant mrr == 0.0 && forall j :: 0 <= j < i ==> GradeAt(grades, j) < 2
    {
      if grades[i] >= 2 {
        mrr := 1.0 / (i + 1) as real;
        assert GradeAt(grades, i) >= 2;
        return;
      }
    }
  }

  method CountOf(grades: seq<nat>, t: nat) returns (count: nat)
    ensures count == CountAtLeast(grades, t)
  {
    count := 0;
    for i := 0 to |grades|
      invariant count == CountAtLeast(grades[..i], t)
    {
      assert grades[..i + 1][..i] == grades[..i];
      if grades[i] >= t {
        count := count + 1;
      }
    }
    assert grades[..|grades|] == grades;
  }

  /** One query. `values` lists the label grades in the order in which the dict yields them. */
  method ComputeMetrics(labels: map<Key, nat>, values: seq<nat>, idToKey: map<Id, Key>, ids: seq<Id>, d: nat -> real)
    returns (m: Metrics)
    requires multiset(values) == Bag(labels)
    ensures var grades := HitGrades(labels, idToKey, ids);
            && m.ndcg == Ndcg(SortedDescending(values), grades, 10, d)
            && m.recall == Recall(CountAtLeast(grades, 1), |KeysAtLeast(labels, 1)|)
            && m.targetRecall == Recall(CountAtLeast(grades, 2), |KeysAtLeast(labels, 2)|)
            && IsReciprocalRank(m.mrr, grades, 10)
  {
    var hitGrades := HitGrades(labels, idToKey, ids);
    var idealGrades := SortedDescending(values);
    var idcg10 := DcgAtK(idealGrades, 10, d);
    var dcg10 := DcgAtK(hitGrades, 10, d);
    var ndcg10 := if idcg10 > 0.0 then dcg10 / idcg10 else 0.0;
    var totalRelevant := CountOf(values, 1);
    var retrievedRelevant := CountOf(hitGrades, 1);
    var totalTargets := CountOf(values, 2);
    var retrievedTargets := CountOf(hitGrades, 2);
    BagCounts(labels, values, 1);
    BagCounts(labels, values, 2);
    var mrr10 := ReciprocalRank(hitGrades, 10);
    m := Metrics(ndcg10, Recall(retrievedRelevant, totalRelevant), Recall(retrievedTargets, totalTargets), mrr10);
  }

  /** Counting label values counts keys. */
  lemma {:induction false} BagCounts(labels: map<Key, nat>, values: seq<nat>, t: nat)
    requires multiset(values) == Bag(labels)
    ensures CountAtLeast(values, t) == |KeysAtLeast(labels, t)|
    decreases |labels|
  {
    hide CountAtLeast, KeysAtLeast, Bag;
    if labels == map[] {
      NoLabels(labels, values, t);
    } else {
      BagFirst(labels);
      var k := Pick(labels.Keys);
      var i := TakeValue(values, Bag(labels - {k}), labels[k]);
      CountWithout(values, i, t);
      KeysWithout(labels, k, t);
      BagCounts(labels - {k}, Without(values, i), t);
    }
  }

  lemma NoLabels(labels: map<Key, nat>, values: seq<nat>, t: nat)
    requires labels == map[] && multiset(values) == Bag(labels)
    ensures CountAtLeast(values, t) == 0 == |KeysAtLeast(labels, t)|
  {
  }

  lemma TakeValue(values: seq<nat>, rest: multiset<nat>, g: nat) returns (i: nat)
    requires multiset(values) == rest + multiset{g}
    ensures i < |values| && values[i] == g && multiset(Without(values, i)) == rest
  {
    assert g in multiset(values);
    i :| 0 <= i < |values| && values[i] == g;
    TakeOut(values, i);
    CancelOne(multiset(Without(values, i)), rest, g);
    CancelOne(rest, multiset(Without(values, i)), g);
  }

  lemma KeysWithout(labels: map<Key, nat>, k: Key, t: nat)
    requires k in labels
    ensures |labels - {k}| < |labels|
    ensures |KeysAtLeast(labels, t)| == |KeysAtLeast(labels - {k}, t)| + if labels[k] >= t then 1 else 0
  {
    assert (labels - {k}).Keys == labels.Keys - {k};
    assert KeysAtLeast(labels, t) == KeysAtLeast(labels - {k}, t) + if labels[k] >= t then {k} else {};
  }

  lemma {:induction false} CountWithout(s: seq<nat>, i: nat, t: nat)
    requires i < |s|
    ensures CountAtLeast(s, t) == CountAtLeast(Without(s, i), t) + if s[i] >= t then 1 else 0
    decreases |s|
  {
    var n := |s| - 1;
    if i == n {
      assert Without(s, i) == s[..n];
    } else {
      CountWithout(s[..n], i, t);
      var w := Without(s, i);
      assert w[..n - 1] == Without(s[..n], i) && w[n - 1] == s[n];
    }
  }
}
