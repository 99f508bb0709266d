/** Lists of tags: in ascending order with or without repeats. A tag is its rank in code-unit order. */
module TagLists {
  import opened Lists

  type Tag = nat

  predicate Ascending(tags: seq<Tag>) {
    forall i, j :: 0 <= i < j < |tags| ==> tags[i] <= tags[j]
  }

  function Members(tags: seq<Tag>): set<Tag> {
    set t | t in tags
  }

  /** The elements of a set in ascending order. */
  function Sorted(s: set<Tag>): (r: seq<Tag>)
    ensures forall t :: t in r <==> t in s
    ensures forall i, j :: 0 <= i < j < |r| ==> r[i] < r[j]
  {
    if s == {} then []
    else
      LeastExists(s);
      var t :| IsLeast(t, s);
      [t] + Sorted(s - {t})
  }

  predicate IsLeast(t: Tag, s: set<Tag>) {
    t in s && forall u :: u in s ==> t <= u
  }

  lemma {:induction false} Least(s: set<Tag>) returns (t: Tag)
    requires s != {}
    ensures IsLeast(t, s)
    decreases |s|
  {
    var x :| x in s;
    var others := s - {x};
    t := x;
    if others != {} {
      var u := Least(others);
      t := if x <= u then x else u;
    }
    forall v | v in s ensures t <= v {
      assert v == x || v in others;
    }
  }

  lemma LeastExists(s: set<Tag>)
    requires s != {}
    ensures exists t :: IsLeast(t, s)
  {
    var t := Least(s);
  }

  function Rank(t: Tag): int {
    t
  }

  /** The tags in ascending order, repeats kept. */
  function SortTags(tags: seq<Tag>): seq<Tag> {
    SortBy(Rank, tags)
  }

  lemma TagsSorted(tags: seq<Tag>)
    ensures Ascending(SortTags(tags)) && multiset(SortTags(tags)) == multiset(tags)
  {
    hide SortBy;
    SortSorts(Rank, tags);
    var r := SortBy(Rank, tags);
    forall i, j | 0 <= i < j < |r| ensures r[i] <= r[j] {
      assert Rank(r[i]) <= Rank(r[j]);
    }
  }

  lemma SameMembers(a: seq<Tag>, b: seq<Tag>)
    requires multiset(a) == multiset(b)
    ensures Members(a) == Members(b)
  {
    forall t ensures t in a <==> t in b {
      assert t in multiset(a) <==> t in multiset(b);
    }
  }

  lemma {:induction false} AscendingIsUnique(a: seq<Tag>, b: seq<Tag>)
    requires Ascending(a) && Ascending(b) && multiset(a) == multiset(b)
    ensures a == b
  {
    assert |a| == |multiset(a)| && |b| == |multiset(b)|;
    if a != [] {
      assert a[0] in multiset(b) && b[0] in multiset(a);
      assert a[0] == b[0];
      HeadAndTail(a);
      HeadAndTail(b);
      assert multiset(a[1..]) == multiset(a) - multiset{a[0]};
      AscendingIsUnique(a[1..], b[1..]);
    }
  }

  lemma NoRepeatsHead(tags: seq<Tag>)
    requires tags != []
    ensures NoRepeats(tags) <==> tags[0] !in tags[1..] && NoRepeats(tags[1..])
  {
    var rest := tags[1..];
    assert forall i :: 0 < i < |tags| ==> tags[i] == rest[i - 1];
  }

  lemma {:induction false} NoRepeatsCounts(tags: seq<Tag>)
    ensures NoRepeats(tags) <==> forall t :: multiset(tags)[t] <= 1
  {
    if tags != [] {
      NoRepeatsCounts(tags[1..]);
      NoRepeatsHead(tags);
      HeadAndTail(tags);
      var x, rest := tags[0], multiset(tags[1..]);
      assert x in rest <==> x in tags[1..];
      assert forall t :: multiset(tags)[t] == rest[t] + if t == x then 1 else 0;
    }
  }

  lemma SortKeepsRepeats(tags: seq<Tag>)
    ensures NoRepeats(SortTags(tags)) <==> NoRepeats(tags)
  {
    TagsSorted(tags);
    NoRepeatsCounts(tags);
    NoRepeatsCounts(SortTags(tags));
  }

  lemma SortAgain(tags: seq<Tag>)
    ensures SortTags(SortTags(tags)) == SortTags(tags)
  {
    TagsSorted(tags);
    TagsSorted(SortTags(tags));
    AscendingIsUnique(SortTags(SortTags(tags)), SortTags(tags));
  }

  lemma SameCounts(a: seq<Tag>, b: seq<Tag>)
    requires NoRepeats(a) && NoRepeats(b) && Members(a) == Members(b)
    ensures multiset(a) == multiset(b)
  {
    NoRepeatsCounts(a);
    NoRepeatsCounts(b);
    forall t ensures multiset(a)[t] == multiset(b)[t] {
      assert t in a <==> t in Members(a);
      assert t in b <==> t in Members(b);
    }
  }

  /** Sorting gives the ascending list of the set exactly when no tag is repeated. */
  lemma SortIsSortedExactlyWhen(tags: seq<Tag>)
    ensures SortTags(tags) == Sorted(Members(tags)) <==> NoRepeats(tags)
    ensures Members(SortTags(tags)) == Members(tags)
  {
    hide SortTags, Sorted;
    var s := Sorted(Members(tags));
    TagsSorted(tags);
    SameMembers(SortTags(tags), tags);
    SortKeepsRepeats(tags);
    if NoRepeats(tags) {
      SameCounts(SortTags(tags), s);
      AscendingIsUnique(SortTags(tags), s);
    }
  }

  /** What is sorted without repeats is left alone. */
  lemma SortOfSorted(s: set<Tag>)
    ensures Members(Sorted(s)) == s && SortTags(Sorted(s)) == Sorted(s)
  {
    SortIsSortedExactlyWhen(Sorted(s));
  }
}
