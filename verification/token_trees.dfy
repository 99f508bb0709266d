/** Balanced streams are exactly the flattened token trees of The Rust Reference, "Macros". */
module TokenTrees {
  import opened RustTokens
  import opened Delimiters

  datatype Tree = Leaf(token: Token) | Group(open: Token, inner: seq<Tree>, close: Token)

  ghost predicate WellFormed(trees: seq<Tree>)
    decreases trees
  {
    forall k :: 0 <= k < |trees| ==>
      match trees[k]
      case Leaf(t) => !Opens(t) && !Closes(t)
      case Group(open, inner, close) => SameKind(open, close) && WellFormed(inner)
  }

  function Flatten(trees: seq<Tree>): seq<Token>
    decreases trees
  {
    if trees == [] then [] else FlattenTree(trees[0]) + Flatten(trees[1..])
  }

  function FlattenTree(tree: Tree): seq<Token>
    decreases tree
  {
    match tree
    case Leaf(t) => [t]
    case Group(open, inner, close) => [open] + Flatten(inner) + [close]
  }

  /** `ts` has the tokens `part` at `i`. */
  predicate Has(ts: seq<Token>, i: nat, part: seq<Token>) {
    i + |part| <= |ts| && forall k :: 0 <= k < |part| ==> ts[i + k] == part[k]
  }

  lemma {:induction false} TreesLeaveStack(ts: seq<Token>, i: nat, trees: seq<Tree>)
    requires WellFormed(trees) && Has(ts, i, Flatten(trees)) && Stack(ts, i).Some?
    ensures Stack(ts, i + |Flatten(trees)|) == Stack(ts, i)
    decreases trees
  {
    if trees != [] {
      WellFormedParts(trees);
      HasParts(ts, i, FlattenTree(trees[0]), Flatten(trees[1..]));
      TreeLeavesStack(ts, i, trees[0]);
      TreesLeaveStack(ts, i + |FlattenTree(trees[0])|, trees[1..]);
    }
  }

  lemma HasParts(ts: seq<Token>, i: nat, a: seq<Token>, b: seq<Token>)
    requires Has(ts, i, a + b)
    ensures Has(ts, i, a) && Has(ts, i + |a|, b)
  {
    assert forall k :: 0 <= k < |a| ==> a[k] == (a + b)[k];
    assert forall k :: 0 <= k < |b| ==> b[k] == (a + b)[|a| + k];
  }

  lemma WellFormedParts(trees: seq<Tree>)
    requires WellFormed(trees) && trees != []
    ensures WellFormed([trees[0]]) && WellFormed(trees[1..])
  {
  }

  lemma {:induction false} TreeLeavesStack(ts: seq<Token>, i: nat, tree: Tree)
    requires WellFormed([tree]) && Has(ts, i, FlattenTree(tree)) && Stack(ts, i).Some?
    ensures Stack(ts, i + |FlattenTree(tree)|) == Stack(ts, i)
    decreases tree
  {
    match tree
    case Leaf(t) =>
      assert [tree][0] == tree;
      assert ts[i] == FlattenTree(tree)[0];
    case Group(open, inner, close) =>
      assert [tree][0] == tree;
      var flat, part := FlattenTree(tree), Flatten(inner);
      assert ts[i] == flat[0] == open;
      assert ts[i + |flat| - 1] == flat[|flat| - 1] == close;
      assert Has(ts, i + 1, part) by {
        assert forall k :: 0 <= k < |part| ==> part[k] == flat[k + 1];
      }
      TreesLeaveStack(ts, i + 1, inner);
  }

  // ----- every balanced stream is a forest --------------------------------

  /** A prefix parsed as far as it goes: complete trees, inside each delimiter that is still open. */
  datatype Partial = Top(trees: seq<Tree>) | Deeper(outer: Partial, open: Token, trees: seq<Tree>)

  ghost predicate Parses(p: Partial, open: Open)
    decreases p
  {
    && WellFormed(p.trees)
    && match p
       case Top(_) => open.Outside?
       case Deeper(outer, token, _) => open.Inside? && token == open.token && Parses(outer, open.around)
  }

  function FlattenPartial(p: Partial): seq<Token>
    decreases p
  {
    match p
    case Top(trees) => Flatten(trees)
    case Deeper(outer, token, trees) => FlattenPartial(outer) + [token] + Flatten(trees)
  }

  lemma {:induction false} FlattenMore(trees: seq<Tree>, tree: Tree)
    ensures Flatten(trees + [tree]) == Flatten(trees) + FlattenTree(tree)
    decreases |trees|
  {
    if trees == [] {
      assert [tree][0] == tree && [tree][1..] == [] && trees + [tree] == [tree];
    } else {
      FlattenMore(trees[1..], tree);
      assert (trees + [tree])[1..] == trees[1..] + [tree];
    }
  }

  /** One more complete tree in the innermost place. */
  lemma AddTree(p: Partial, open: Open, tree: Tree)
    requires Parses(p, open) && WellFormed([tree])
    ensures Parses(p.(trees := p.trees + [tree]), open)
    ensures FlattenPartial(p.(trees := p.trees + [tree])) == FlattenPartial(p) + FlattenTree(tree)
  {
    FlattenMore(p.trees, tree);
    assert [tree][0] == tree;
  }

  lemma {:induction false} Parse(ts: seq<Token>, i: int) returns (p: Partial)
    requires 0 <= i <= |ts| && Stack(ts, i).Some?
    ensures Parses(p, Stack(ts, i).value) && ts[..i] == FlattenPartial(p)
    decreases i
  {
    if i == 0 {
      p := Top([]);
    } else {
      var open, t := Stack(ts, i - 1).value, ts[i - 1];
      var before := Parse(ts, i - 1);
      assert ts[..i] == ts[..i - 1] + [t];
      p := ParseToken(before, open, t, i - 1);
    }
  }

  lemma ParseToken(before: Partial, open: Open, t: Token, i: int) returns (p: Partial)
    requires Parses(before, open) && Read(t, i, open).Some?
    ensures Parses(p, Read(t, i, open).value) && FlattenPartial(p) == FlattenPartial(before) + [t]
  {
    if Opens(t) {
      p := Deeper(before, t, []);
    } else if !Closes(t) {
      assert [Leaf(t)][0] == Leaf(t);
      AddTree(before, open, Leaf(t));
      p := before.(trees := before.trees + [Leaf(t)]);
    } else {
      var group := Group(before.open, before.trees, t);
      assert [group][0] == group;
      AddTree(before.outer, open.around, group);
      p := before.outer.(trees := before.outer.trees + [group]);
      var outer := FlattenPartial(before.outer);
      assert outer + ([before.open] + Flatten(before.trees) + [t])
          == outer + [before.open] + Flatten(before.trees) + [t];
    }
  }

  /** The matcher's streams, by the grammar: balanced if and only if some forest of token trees flattens to it. */
  lemma BalancedIffForest(ts: seq<Token>)
    ensures Balanced(ts) <==> exists trees :: WellFormed(trees) && Flatten(trees) == ts
  {
    if Balanced(ts) {
      var p := Parse(ts, |ts|);
      assert ts[..|ts|] == ts;
      assert WellFormed(p.trees) && Flatten(p.trees) == ts;
    }
    if exists trees :: WellFormed(trees) && Flatten(trees) == ts {
      var trees :| WellFormed(trees) && Flatten(trees) == ts;
      TreesLeaveStack(ts, 0, trees);
    }
  }
}
