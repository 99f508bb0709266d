/**
 What three-valued evaluation decides, said by builds alone: a predicate that names no option twice has a definite
 value exactly when every build without `test` gives it that value.
 */
module CfgBuilds {
  import opened Wrappers
  import opened RustTokens
  import opened CfgValue

  datatype Name = FlagName(name: string) | SettingName(name: string, setting: string)

  ghost predicate Occurs(p: Pred, n: Name)
    decreases p
  {
    match p
    case Test => false
    case Flag(name) => n == FlagName(name)
    case Setting(name, setting) => n == SettingName(name, setting)
    case Not(arg) => Occurs(arg, n)
    case All(args) => exists k :: 0 <= k < |args| && Occurs(args[k], n)
    case Any(args) => exists k :: 0 <= k < |args| && Occurs(args[k], n)
  }

  /** No option occurs twice. */
  ghost predicate ReadOnce(p: Pred)
    decreases p
  {
    match p
    case Not(arg) => ReadOnce(arg)
    case All(args) => (forall k :: 0 <= k < |args| ==> ReadOnce(args[k])) && Apart(args)
    case Any(args) => (forall k :: 0 <= k < |args| ==> ReadOnce(args[k])) && Apart(args)
    case _ => true
  }

  ghost predicate Apart(args: seq<Pred>) {
    forall j, k, n :: 0 <= j < k < |args| && Occurs(args[j], n) ==> !Occurs(args[k], n)
  }

  predicate Chosen(o: Options, n: Name) {
    match n
    case FlagName(name) => o.flags(name)
    case SettingName(name, setting) => o.settings(name, setting)
  }

  /** What a predicate says depends on the options it names. */
  lemma {:induction false} OnlyNamedMatter(p: Pred, a: Options, b: Options)
    requires forall n :: Occurs(p, n) ==> Chosen(a, n) == Chosen(b, n)
    ensures Holds(p, a) == Holds(p, b)
    decreases p
  {
    match p
    case Flag(name) => assert Occurs(p, FlagName(name)) && Chosen(a, FlagName(name)) == Chosen(b, FlagName(name));
    case Setting(name, setting) =>
      var n := SettingName(name, setting);
      assert Occurs(p, n) && Chosen(a, n) == Chosen(b, n);
    case Not(arg) => OnlyNamedMatter(arg, a, b);
    case All(args) =>
      forall k | 0 <= k < |args| ensures Holds(args[k], a) == Holds(args[k], b) {
        OnlyNamedMatter(args[k], a, b);
      }
    case Any(args) =>
      forall k | 0 <= k < |args| ensures Holds(args[k], a) == Holds(args[k], b) {
        OnlyNamedMatter(args[k], a, b);
      }
    case _ =>
  }

  /** The options that `p` names as in `a`, the others as in `b`. */
  ghost function Merged(p: Pred, a: Options, b: Options): Options {
    Options(name => if Occurs(p, FlagName(name)) then a.flags(name) else b.flags(name),
            (name, setting) =>
              if Occurs(p, SettingName(name, setting)) then a.settings(name, setting) else b.settings(name, setting))
  }

  lemma MergedChooses(p: Pred, a: Options, b: Options, n: Name)
    ensures Chosen(Merged(p, a, b), n) == if Occurs(p, n) then Chosen(a, n) else Chosen(b, n)
  {
  }

  /** A build where a predicate without the definite value `b` is not `b`. */
  lemma {:induction false} Build(p: Pred, b: bool) returns (o: Options)
    requires ReadOnce(p) && Kleene(p) != Some(b)
    ensures Holds(p, o) == !b
    decreases p, 0
  {
    o := Options(_ => !b, (_, _) => !b);
    match p
    case Not(arg) =>
      o := Build(arg, !b);
    case All(args) =>
      if b {
        var k :| 0 <= k < |args| && Kleene(args[k]) != Some(true);
        o := Build(args[k], true);
      } else {
        o := BuildAll(args, |args|, false);
      }
    case Any(args) =>
      if b {
        o := BuildAll(args, |args|, true);
      } else {
        var k :| 0 <= k < |args| && Kleene(args[k]) != Some(false);
        o := Build(args[k], false);
      }
    case _ =>
  }

  lemma {:induction false} BuildAll(args: seq<Pred>, n: nat, b: bool) returns (o: Options)
    requires n <= |args| && Apart(args) && forall k :: 0 <= k < n ==> ReadOnce(args[k]) && Kleene(args[k]) != Some(b)
    ensures forall k :: 0 <= k < n ==> Holds(args[k], o) == !b
    decreases args, 1, n
  {
    if n == 0 {
      o := Options(_ => !b, (_, _) => !b);
    } else {
      var before := BuildAll(args, n - 1, b);
      var last := Build(args[n - 1], b);
      o := Merged(args[n - 1], last, before);
      forall x ensures Chosen(o, x) == if Occurs(args[n - 1], x) then Chosen(last, x) else Chosen(before, x) {
        MergedChooses(args[n - 1], last, before, x);
      }
      OnlyNamedMatter(args[n - 1], o, last);
      forall k | 0 <= k < n - 1 ensures Holds(args[k], o) == !b {
        OnlyNamedMatter(args[k], o, before);
      }
    }
  }

  /** Completeness: with no option named twice, evaluation is definite exactly when the builds agree. */
  lemma DefiniteExactlyWhen(p: Pred, b: bool)
    requires ReadOnce(p)
    ensures Kleene(p) == Some(b) <==> forall o :: Holds(p, o) == b
  {
    if Kleene(p) == Some(b) {
      forall o ensures Holds(p, o) == b {
        KleeneIsSound(p, o);
      }
    } else {
      var o := Build(p, b);
    }
  }

  /** The same of the tokens that spell it. */
  lemma ValueExactlyWhen(ts: seq<Token>, p: Pred, b: bool)
    requires Spells(ts, p) && ReadOnce(p)
    ensures Value(ts) == Some(b) <==> forall o :: Holds(p, o) == b
  {
    ValueIsKleene(ts, p);
    DefiniteExactlyWhen(p, b);
  }

  /** An option named twice can leave unknown what every build decides: `any(x, not(x))`. */
  lemma RepeatedOptionIsUnknown(name: string)
    ensures var p := Any([Flag(name), Not(Flag(name))]); Kleene(p).None? && forall o :: Holds(p, o)
  {
    var p := Any([Flag(name), Not(Flag(name))]);
    assert p.args[0] == Flag(name) && p.args[1] == Not(Flag(name));
    assert Kleene(p.args[0]).None? && Kleene(p.args[1]).None?;
    forall o ensures Holds(p, o) {
      assert Holds(p.args[0], o) || Holds(p.args[1], o);
    }
  }
}
