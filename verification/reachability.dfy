/** Reachability along edges, as the existence of a path. */
module Reachability {

  ghost predicate IsPath<T(!new)>(edges: T -> set<T>, p: seq<T>) {
    p != [] && forall i :: 0 <= i < |p| - 1 ==> p[i + 1] in edges(p[i])
  }

  ghost predicate Reaches<T(!new)>(edges: T -> set<T>, a: T, b: T) {
    exists p: seq<T> :: IsPath(edges, p) && p[0] == a && p[|p| - 1] == b
  }

  lemma ReachesItself<T(!new)>(edges: T -> set<T>, a: T)
    ensures Reaches(edges, a, a)
  {
    assert IsPath(edges, [a]) && [a][0] == a;
  }

  lemma ReachesNext<T(!new)>(edges: T -> set<T>, a: T, b: T, c: T)
    requires Reaches(edges, a, b) && c in edges(b)
    ensures Reaches(edges, a, c)
  {
    var p: seq<T> :| IsPath(edges, p) && p[0] == a && p[|p| - 1] == b;
    var q := p + [c];
    assert IsPath(edges, q) && q[0] == a && q[|q| - 1] == c;
  }

  ghost predicate ClosedUnder<T(!new)>(edges: T -> set<T>, s: set<T>) {
    forall x :: x in s ==> edges(x) <= s
  }

  /** A set that is closed under the edges keeps everything its members reach. */
  lemma {:induction false} ClosedKeeps<T(!new)>(edges: T -> set<T>, s: set<T>, a: T, b: T)
    requires ClosedUnder(edges, s) && a in s && Reaches(edges, a, b)
    ensures b in s
  {
    var p: seq<T> :| IsPath(edges, p) && p[0] == a && p[|p| - 1] == b;
    for i := 0 to |p| - 1
      invariant p[i] in s
    {
    }
  }

  /** Where two graphs agree on everything `a` reaches in the first, `a` reaches the same in the second. */
  lemma SameCone<T(!new)>(edges: T -> set<T>, other: T -> set<T>, a: T, b: T)
    requires forall x :: Reaches(edges, a, x) ==> edges(x) == other(x)
    ensures Reaches(edges, a, b) <==> Reaches(other, a, b)
  {
    if Reaches(edges, a, b) {
      var p: seq<T> :| IsPath(edges, p) && p[0] == a && p[|p| - 1] == b;
      forall i | 0 <= i < |p| - 1 ensures p[i + 1] in other(p[i]) {
        assert IsPath(edges, p[..i + 1]) && p[..i + 1][0] == a && p[..i + 1][i] == p[i];
      }
      assert IsPath(other, p);
    }
    if Reaches(other, a, b) {
      var p: seq<T> :| IsPath(other, p) && p[0] == a && p[|p| - 1] == b;
      ReachesItself(edges, a);
      for i := 0 to |p| - 1
        invariant Reaches(edges, a, p[i])
      {
        ReachesNext(edges, a, p[i], p[i + 1]);
      }
    }
  }
}
