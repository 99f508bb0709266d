/**
 Three-valued evaluation of `cfg(...)` predicates read from tokens (The Rust Reference, "Conditional
 compilation"): `test` is false, every other option is unknown, and `not`, `all` and `any` compose.
 */
module CfgValue {
  import opened Wrappers
  import opened RustTokens

  // ----- the evaluator on tokens ------------------------------------------

  /** Split at the commas of depth 0, dropping empty groups; `group` is the group being collected. */
  function Groups(ts: seq<Token>, group: seq<Token>, depth: int): (gs: seq<seq<Token>>)
    ensures forall g :: g in gs ==> |g| <= |group| + |ts|
  {
    if ts == [] then Keep(group)
    else if Opens(ts[0]) then Groups(ts[1..], group + [ts[0]], depth + 1)
    else if Closes(ts[0]) then Groups(ts[1..], group + [ts[0]], depth - 1)
    else if Is(ts[0], ',') && depth == 0 then Keep(group) + Groups(ts[1..], [], 0)
    else Groups(ts[1..], group + [ts[0]], depth)
  }

  function Keep(group: seq<Token>): seq<seq<Token>> {
    if group == [] then [] else [group]
  }

  function Compose(name: string, values: seq<Option<bool>>): Option<bool> {
    if name == "not" && |values| == 1 then
      (if values[0].None? then None else Some(!values[0].value))
    else if name == "all" then
      (if Some(false) in values then Some(false) else if None in values then None else Some(true))
    else if name == "any" then
      (if Some(true) in values then Some(true) else if None in values then None else Some(false))
    else None
  }

  function Value(ts: seq<Token>): Option<bool>
    decreases |ts|
  {
    if ts == [] then None
    else if |ts| == 1 && ts[0].value == "test" then Some(false)
    else if |ts| >= 3 && Is(ts[1], '(') && Is(ts[|ts| - 1], ')') then
      var gs := Groups(ts[2..|ts| - 1], [], 0);
      Compose(ts[0].value, seq(|gs|, k requires 0 <= k < |gs| => Value(gs[k])))
    else None
  }

  // ----- predicates and their meaning -------------------------------------

  /** A configuration predicate: `test`, an option name, `name = "value"`, or a composition. */
  datatype Pred =
    | Test
    | Flag(name: string)
    | Setting(name: string, setting: string)
    | Not(arg: Pred)
    | All(args: seq<Pred>)
    | Any(args: seq<Pred>)

  /** An assignment of every option other than `test`. */
  datatype Options = Options(flags: string -> bool, settings: (string, string) -> bool)

  /** Ordinary evaluation, in a build without `test`. */
  predicate Holds(p: Pred, o: Options)
    decreases p
  {
    match p
    case Test => false
    case Flag(name) => o.flags(name)
    case Setting(name, setting) => o.settings(name, setting)
    case Not(arg) => !Holds(arg, o)
    case All(args) => forall k :: 0 <= k < |args| ==> Holds(args[k], o)
    case Any(args) => exists k :: 0 <= k < |args| && Holds(args[k], o)
  }

  /** Kleene's strong three-valued evaluation. */
  ghost function Kleene(p: Pred): Option<bool>
    decreases p
  {
    match p
    case Test => Some(false)
    case Flag(_) => None
    case Setting(_, _) => None
    case Not(arg) => if Kleene(arg).None? then None else Some(!Kleene(arg).value)
    case All(args) =>
      if exists k :: 0 <= k < |args| && Kleene(args[k]) == Some(false) then Some(false)
      else if forall k :: 0 <= k < |args| ==> Kleene(args[k]) == Some(true) then Some(true)
      else None
    case Any(args) =>
      if exists k :: 0 <= k < |args| && Kleene(args[k]) == Some(true) then Some(true)
      else if forall k :: 0 <= k < |args| ==> Kleene(args[k]) == Some(false) then Some(false)
      else None
  }

  /** A definite answer is the answer of every build without `test`. */
  lemma {:induction false} KleeneIsSound(p: Pred, o: Options)
    ensures Kleene(p).Some? ==> Holds(p, o) == Kleene(p).value
    decreases p
  {
    match p
    case Not(arg) => KleeneIsSound(arg, o);
    case All(args) =>
      forall k | 0 <= k < |args| ensures Kleene(args[k]).Some? ==> Holds(args[k], o) == Kleene(args[k]).value {
        KleeneIsSound(args[k], o);
      }
    case Any(args) =>
      forall k | 0 <= k < |args| ensures Kleene(args[k]).Some? ==> Holds(args[k], o) == Kleene(args[k]).value {
        KleeneIsSound(args[k], o);
      }
    case _ =>
  }

  // ----- printing ---------------------------------------------------------

  predicate Punctuation(t: Token, text: string) {
    t.kind == Punct && t.text == text
  }

  /** A token that neither brackets, separates nor reads as a composition. */
  predicate Word(t: Token, value: string) {
    t.value == value && !Opens(t) && !Closes(t) && !Is(t, ',')
  }

  /** `ts` spells the predicate `p`, wherever its tokens stand in the source. */
  ghost predicate Spells(ts: seq<Token>, p: Pred)
    decreases p, 1, 0
  {
    match p
    case Test => |ts| == 1 && Word(ts[0], "test")
    case Flag(name) => |ts| == 1 && Word(ts[0], name) && name != "test"
    case Setting(name, setting) =>
      |ts| == 3 && Word(ts[0], name) && Punctuation(ts[1], "=") && ts[2].kind == Str && Word(ts[2], setting)
    case Not(arg) => Calls(ts, "not") && Spells(ts[2..|ts| - 1], arg)
    case All(args) => Calls(ts, "all") && SpellsAll(ts[2..|ts| - 1], args)
    case Any(args) => Calls(ts, "any") && SpellsAll(ts[2..|ts| - 1], args)
  }

  predicate Calls(ts: seq<Token>, name: string) {
    |ts| >= 3 && Word(ts[0], name) && Is(ts[1], '(') && Is(ts[|ts| - 1], ')')
  }

  /** Arguments separated by commas, with or without one more comma at the end. */
  ghost predicate SpellsAll(ts: seq<Token>, args: seq<Pred>)
    decreases args, 0, |ts|
  {
    if args == [] then ts == []
    else exists n :: 0 < n <= |ts| && Spells(ts[..n], args[0]) && SpellsRest(ts[n..], args[1..])
  }

  ghost predicate SpellsRest(ts: seq<Token>, args: seq<Pred>)
    decreases args, 0, |ts|
  {
    if ts == [] then args == [] else Is(ts[0], ',') && SpellsAll(ts[1..], args)
  }

  /** An argument list starts with its first argument, which is alone or followed by a comma and the others. */
  lemma FirstArgument(ts: seq<Token>, args: seq<Pred>)
    returns (head: seq<Token>, alone: bool, comma: Token, more: seq<Token>)
    requires SpellsAll(ts, args) && args != []
    ensures head != [] && Spells(head, args[0])
    ensures alone ==> ts == head && args[1..] == []
    ensures !alone ==> ts == head + ([comma] + more) && Is(comma, ',') && SpellsAll(more, args[1..]) && |more| < |ts|
  {
    var n :| 0 < n <= |ts| && Spells(ts[..n], args[0]) && SpellsRest(ts[n..], args[1..]);
    head, alone := ts[..n], n == |ts|;
    if alone {
      comma, more := ts[0], [];
    } else {
      comma, more := ts[n], ts[n..][1..];
    }
  }

  // ----- reading back what was spelled ------------------------------------

  lemma ReadsOne(t: Token, rest: seq<Token>, group: seq<Token>, depth: int)
    ensures Opens(t) ==> Groups([t] + rest, group, depth) == Groups(rest, group + [t], depth + 1)
    ensures Closes(t) ==> Groups([t] + rest, group, depth) == Groups(rest, group + [t], depth - 1)
    ensures !Opens(t) && !Closes(t) && (Is(t, ',') ==> depth != 0)
            ==> Groups([t] + rest, group, depth) == Groups(rest, group + [t], depth)
    ensures Is(t, ',') && depth == 0 ==> Groups([t] + rest, group, depth) == Keep(group) + Groups(rest, [], 0)
  {
  }

  lemma ReadsNone(group: seq<Token>, depth: int)
    ensures Groups([], group, depth) == Keep(group)
  {
  }

  /** `ts` is read into the group being collected, without a split and back to the depth it started from. */
  ghost predicate Whole(ts: seq<Token>, depth: int) {
    forall rest: seq<Token>, group: seq<Token> :: Groups(ts + rest, group, depth) == Groups(rest, group + ts, depth)
  }

  lemma WholeWord(t: Token, depth: int)
    requires !Opens(t) && !Closes(t) && (Is(t, ',') ==> depth != 0)
    ensures Whole([t], depth)
  {
  }

  lemma WholeConcat(a: seq<Token>, b: seq<Token>, depth: int)
    requires Whole(a, depth) && Whole(b, depth)
    ensures Whole(a + b, depth)
  {
    hide Groups;
    forall rest: seq<Token>, group: seq<Token>
      ensures Groups(a + b + rest, group, depth) == Groups(rest, group + (a + b), depth)
    {
      assert a + b + rest == a + (b + rest);
      assert group + a + b == group + (a + b);
      assert Groups(a + (b + rest), group, depth) == Groups(b + rest, group + a, depth);
    }
  }

  lemma WholeBrackets(open: Token, inner: seq<Token>, close: Token, depth: int)
    requires Opens(open) && Closes(close) && Whole(inner, depth + 1)
    ensures Whole([open] + inner + [close], depth)
  {
    hide Groups;
    forall rest: seq<Token>, group: seq<Token>
      ensures Groups([open] + inner + [close] + rest, group, depth)
          == Groups(rest, group + ([open] + inner + [close]), depth)
    {
      assert [open] + inner + [close] + rest == [open] + (inner + ([close] + rest));
      ReadsOne(open, inner + ([close] + rest), group, depth);
      assert Groups(inner + ([close] + rest), group + [open], depth + 1)
          == Groups([close] + rest, group + [open] + inner, depth + 1);
      ReadsOne(close, rest, group + [open] + inner, depth + 1);
      assert group + [open] + inner + [close] == group + ([open] + inner + [close]);
    }
  }

  lemma WholeCall(ts: seq<Token>, name: string, depth: int)
    requires Calls(ts, name) && Whole(ts[2..|ts| - 1], depth + 1)
    ensures Whole(ts, depth)
  {
    var inner := ts[2..|ts| - 1];
    WholeWord(ts[0], depth);
    WholeBrackets(ts[1], inner, ts[|ts| - 1], depth);
    WholeConcat([ts[0]], [ts[1]] + inner + [ts[|ts| - 1]], depth);
    assert ts == [ts[0]] + ([ts[1]] + inner + [ts[|ts| - 1]]);
  }

  /** A spelled predicate never splits, at any depth; a spelled argument list does not split inside brackets. */
  lemma {:induction false} SpelledIsWhole(ts: seq<Token>, p: Pred, depth: nat)
    requires Spells(ts, p)
    ensures Whole(ts, depth)
    decreases p, 1, 0
  {
    hide Whole;
    match p
    case Test => WholeWord(ts[0], depth); assert ts == [ts[0]];
    case Flag(_) => WholeWord(ts[0], depth); assert ts == [ts[0]];
    case Setting(_, _) =>
      assert !Opens(ts[1]) && !Closes(ts[1]);
      WholeWord(ts[0], depth);
      WholeWord(ts[1], depth);
      WholeWord(ts[2], depth);
      WholeConcat([ts[0]], [ts[1]], depth);
      WholeConcat([ts[0]] + [ts[1]], [ts[2]], depth);
      assert ts == [ts[0]] + [ts[1]] + [ts[2]];
    case Not(arg) =>
      SpelledIsWhole(ts[2..|ts| - 1], arg, depth + 1);
      WholeCall(ts, "not", depth);
    case All(args) =>
      ArgumentsAreWhole(ts[2..|ts| - 1], args, depth + 1);
      WholeCall(ts, "all", depth);
    case Any(args) =>
      ArgumentsAreWhole(ts[2..|ts| - 1], args, depth + 1);
      WholeCall(ts, "any", depth);
  }

  lemma {:induction false} ArgumentsAreWhole(ts: seq<Token>, args: seq<Pred>, depth: nat)
    requires SpellsAll(ts, args) && depth > 0
    ensures Whole(ts, depth)
    decreases args, 0, |ts|
  {
    if args == [] {
      WholeNone(depth);
      assert ts == [];
    } else {
      var head, alone, comma, more := FirstArgument(ts, args);
      SpelledIsWhole(head, args[0], depth);
      if !alone {
        ArgumentsAreWhole(more, args[1..], depth);
        WholeComma(head, comma, more, depth);
      }
    }
  }

  lemma WholeNone(depth: int)
    ensures Whole([], depth)
  {
    forall rest: seq<Token>, group: seq<Token>
      ensures Groups([] + rest, group, depth) == Groups(rest, group + [], depth)
    {
      assert [] + rest == rest && group + [] == group;
    }
  }

  lemma WholeComma(head: seq<Token>, comma: Token, more: seq<Token>, depth: int)
    requires Whole(head, depth) && Whole(more, depth) && Is(comma, ',') && depth != 0
    ensures Whole(head + ([comma] + more), depth)
  {
    WholeWord(comma, depth);
    WholeConcat([comma], more, depth);
    WholeConcat(head, [comma] + more, depth);
  }

  lemma FirstGroup(head: seq<Token>, comma: Token, more: seq<Token>)
    requires Whole(head, 0) && head != [] && Is(comma, ',')
    ensures Groups(head + ([comma] + more), [], 0) == [head] + Groups(more, [], 0)
  {
    ReadsOne(comma, more, head, 0);
    hide Groups;
    assert Groups(head + ([comma] + more), [], 0) == Groups([comma] + more, [] + head, 0);
    assert [] + head == head;
  }

  lemma OnlyGroup(head: seq<Token>)
    requires Whole(head, 0) && head != []
    ensures Groups(head, [], 0) == [head]
  {
    assert head + [] == head && [] + head == head;
    assert Groups(head + [], [], 0) == Groups([], [] + head, 0);
  }

  ghost predicate SpellEach(gs: seq<seq<Token>>, args: seq<Pred>) {
    |gs| == |args| && forall k :: 0 <= k < |args| ==> Spells(gs[k], args[k])
  }

  lemma SpellOneMore(head: seq<Token>, gs: seq<seq<Token>>, args: seq<Pred>)
    requires args != [] && Spells(head, args[0]) && SpellEach(gs, args[1..])
    ensures SpellEach([head] + gs, args)
  {
  }

  /** The groups of an argument list are its arguments, one by one. */
  lemma {:induction false} GroupsAreArguments(ts: seq<Token>, args: seq<Pred>)
    requires SpellsAll(ts, args)
    ensures SpellEach(Groups(ts, [], 0), args)
    decreases |args|
  {
    if args == [] {
      assert Groups([], [], 0) == [];
    } else {
      var head, alone, comma, more := FirstArgument(ts, args);
      SpelledIsWhole(head, args[0], 0);
      if alone {
        OnlyGroup(head);
        SpellNone(args[1..]);
        SpellOneMore(head, [], args);
        assert [head] + [] == [head];
      } else {
        FirstGroup(head, comma, more);
        GroupsAreArguments(more, args[1..]);
        SpellOneMore(head, Groups(more, [], 0), args);
      }
    }
  }

  lemma SpellNone(args: seq<Pred>)
    requires args == []
    ensures SpellEach([], args)
  {
  }

  function Values(gs: seq<seq<Token>>): seq<Option<bool>> {
    seq(|gs|, k requires 0 <= k < |gs| => Value(gs[k]))
  }

  lemma CallValue(ts: seq<Token>, name: string)
    requires Calls(ts, name)
    ensures Value(ts) == Compose(name, Values(Groups(ts[2..|ts| - 1], [], 0)))
  {
  }

  lemma ComposeIsKleene(values: seq<Option<bool>>, args: seq<Pred>)
    requires |values| == |args| && forall k :: 0 <= k < |args| ==> values[k] == Kleene(args[k])
    ensures Compose("all", values) == Kleene(All(args))
    ensures Compose("any", values) == Kleene(Any(args))
  {
  }

  /** Round trip: evaluating any spelling of a predicate is Kleene evaluation of the predicate. */
  lemma {:induction false} ValueIsKleene(ts: seq<Token>, p: Pred)
    requires Spells(ts, p)
    ensures Value(ts) == Kleene(p)
    decreases p, 1
  {
    match p
    case Not(arg) =>
      NotIsOneGroup(ts[2..|ts| - 1], arg);
      CallValue(ts, "not");
      ValueIsKleene(ts[2..|ts| - 1], arg);
    case All(args) =>
      ArgumentsAreKleene(ts[2..|ts| - 1], args);
      CallValue(ts, "all");
      ComposeIsKleene(Values(Groups(ts[2..|ts| - 1], [], 0)), args);
    case Any(args) =>
      ArgumentsAreKleene(ts[2..|ts| - 1], args);
      CallValue(ts, "any");
      ComposeIsKleene(Values(Groups(ts[2..|ts| - 1], [], 0)), args);
    case _ =>
  }

  lemma NotIsOneGroup(inner: seq<Token>, arg: Pred)
    requires Spells(inner, arg)
    ensures Groups(inner, [], 0) == [inner]
  {
    SpelledIsWhole(inner, arg, 0);
    OnlyGroup(inner);
  }

  lemma {:induction false} ArgumentsAreKleene(inner: seq<Token>, args: seq<Pred>)
    requires SpellsAll(inner, args)
    ensures var gs := Groups(inner, [], 0);
            |gs| == |args| && forall k :: 0 <= k < |gs| ==> Value(gs[k]) == Kleene(args[k])
    decreases args, 0
  {
    GroupsAreArguments(inner, args);
    hide Groups, SpellsAll, Spells;
    var gs := Groups(inner, [], 0);
    forall k | 0 <= k < |gs| ensures Value(gs[k]) == Kleene(args[k]) {
      ValueIsKleene(gs[k], args[k]);
    }
  }

  /** What census code relies on: a definite value of spelled tokens is right in every build without `test`. */
  lemma DefiniteValueHolds(ts: seq<Token>, p: Pred, o: Options)
    requires Spells(ts, p) && Value(ts).Some?
    ensures Holds(p, o) == Value(ts).value
  {
    ValueIsKleene(ts, p);
    KleeneIsSound(p, o);
  }

  // ----- the source's loop ------------------------------------------------

  lemma ReadsAt(s: seq<Token>, start: nat, i: nat, depth: int)
    requires start <= i < |s|
    ensures var before, after, taken := Groups(s[i..], s[start..i], depth), s[i + 1..], s[start..i + 1];
            && (Opens(s[i]) ==> before == Groups(after, taken, depth + 1))
            && (Closes(s[i]) ==> before == Groups(after, taken, depth - 1))
            && (!Opens(s[i]) && !Closes(s[i]) && (Is(s[i], ',') ==> depth != 0) ==>
                before == Groups(after, taken, depth))
            && (Is(s[i], ',') && depth == 0 ==> before == Keep(s[start..i]) + Groups(after, [], 0))
  {
    ReadsOne(s[i], s[i + 1..], s[start..i], depth);
    assert s[i..] == [s[i]] + s[i + 1..] && s[start..i] + [s[i]] == s[start..i + 1];
  }

  method SplitArguments(inner: seq<Token>) returns (groups: seq<seq<Token>>)
    ensures groups == Groups(inner, [], 0)
  {
    hide Groups, Opens, Closes;
    groups := [];
    var start, depth := 0, 0;
    assert inner[0..] == inner;
    for i := 0 to |inner|
      invariant 0 <= start <= i
      invariant groups + Groups(inner[i..], inner[start..i], depth) == Groups(inner, [], 0)
    {
      ReadsAt(inner, start, i, depth);
      if Opens(inner[i]) {
        depth := depth + 1;
      } else if Closes(inner[i]) {
        depth := depth - 1;
      } else if Is(inner[i], ',') && depth == 0 {
        ghost var rest := Groups(inner[i + 1..], [], 0);
        assert groups + (Keep(inner[start..i]) + rest) == (groups + Keep(inner[start..i])) + rest;
        if i > start {
          groups := groups + [inner[start..i]];
        }
        start := i + 1;
        assert inner[i + 1..i + 1] == [];
      }
    }
    ReadsNone(inner[start..], depth);
    assert inner[|inner|..] == [] && inner[start..|inner|] == inner[start..];
    if start < |inner| {
      groups := groups + [inner[start..]];
    }
  }

  method Evaluate(ts: seq<Token>) returns (value: Option<bool>)
    ensures value == Value(ts)
    decreases |ts|
  {
    if ts == [] {
      return None;
    }
    if |ts| == 1 && ts[0].value == "test" {
      return Some(false);
    }
    if |ts| >= 3 && Is(ts[1], '(') && Is(ts[|ts| - 1], ')') {
      var groups := SplitArguments(ts[2..|ts| - 1]);
      var values := [];
      for k := 0 to |groups|
        invariant |values| == k && forall j :: 0 <= j < k ==> values[j] == Value(groups[j])
      {
        var v := Evaluate(groups[k]);
        values := values + [v];
      }
      assert values == Values(groups);
      return Compose(ts[0].value, values);
    }
    return None;
  }
}
