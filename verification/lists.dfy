/** Lists without repeats, and insertion sort by a key. */
module Lists {

  predicate NoRepeats<T(==)>(s: seq<T>) {
    forall i, j :: 0 <= i < j < |s| ==> s[i] != s[j]
  }

  lemma HeadAndTail<T>(s: seq<T>)
    requires s != []
    ensures multiset(s) == multiset{s[0]} + multiset(s[1..])
  {
    assert s == [s[0]] + s[1..];
  }

  lemma TakeOut<T>(s: seq<T>, i: nat)
    requires i < |s|
    ensures multiset(s[..i] + s[i + 1..]) == multiset(s) - multiset{s[i]}
    ensures multiset(s) == multiset(s[..i] + s[i + 1..]) + multiset{s[i]}
  {
    assert s == s[..i] + ([s[i]] + s[i + 1..]);
  }

  predicate AscendingBy<T>(key: T -> int, s: seq<T>) {
    forall i, j :: 0 <= i < j < |s| ==> key(s[i]) <= key(s[j])
  }

  function InsertBy<T>(key: T -> int, x: T, s: seq<T>): seq<T> {
    if s == [] || key(x) <= key(s[0]) then [x] + s else [s[0]] + InsertBy(key, x, s[1..])
  }

  /** The elements by ascending key. */
  function SortBy<T>(key: T -> int, s: seq<T>): seq<T> {
    if s == [] then [] else InsertBy(key, s[0], SortBy(key, s[1..]))
  }

  lemma {:induction false} InsertAdds<T>(key: T -> int, x: T, s: seq<T>)
    ensures |InsertBy(key, x, s)| == |s| + 1 && multiset(InsertBy(key, x, s)) == multiset(s) + multiset{x}
  {
    if s != [] && key(x) > key(s[0]) {
      InsertAdds(key, x, s[1..]);
      HeadAndTail(s);
    }
  }

  lemma {:induction false} InsertAbove<T>(key: T -> int, x: T, s: seq<T>, low: int)
    requires low <= key(x) && forall i :: 0 <= i < |s| ==> low <= key(s[i])
    ensures forall i :: 0 <= i < |InsertBy(key, x, s)| ==> low <= key(InsertBy(key, x, s)[i])
  {
    if s != [] && key(x) > key(s[0]) {
      InsertAbove(key, x, s[1..], low);
    }
  }

  lemma {:induction false} InsertAscends<T>(key: T -> int, x: T, s: seq<T>)
    requires AscendingBy(key, s)
    ensures AscendingBy(key, InsertBy(key, x, s))
  {
    if s != [] && key(x) > key(s[0]) {
      InsertAscends(key, x, s[1..]);
      InsertAbove(key, x, s[1..], key(s[0]));
    }
  }

  lemma {:induction false} SortSorts<T>(key: T -> int, s: seq<T>)
    ensures var r := SortBy(key, s); AscendingBy(key, r) && |r| == |s| && multiset(r) == multiset(s)
  {
    if s != [] {
      SortSorts(key, s[1..]);
      InsertAdds(key, s[0], SortBy(key, s[1..]));
      InsertAscends(key, s[0], SortBy(key, s[1..]));
      HeadAndTail(s);
    }
  }
}
