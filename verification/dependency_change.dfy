/**
 Which edits to a manifest's dependency table are admitted: no entry appears, disappears or moves, and no entry's
 features change. The packages that the edited entries name are returned.
 */
module DependencyChange {
  import opened Wrappers
  import opened Bags

  datatype Value = Text(text: string) | Flag(on: bool) | Number(n: real) | Other(json: string)

  /** The value as Python compares it: true is 1 and false is 0. */
  function Plain(v: Value): Value {
    if v.Flag? then Number(if v.on then 1.0 else 0.0) else v
  }

  /** A dependency entry: a version requirement, a table, or neither. */
  datatype Entry = Version(requirement: string) | Table(fields: map<string, Value>) | Neither

  type Deps = map<string, Entry>

  const FLAGS := {"features", "default-features", "default_features", "optional"}
  const SOURCES := {"path", "git", "branch", "tag", "rev", "registry", "registry-index", "workspace"}

  datatype Side = Local | Workspace
  type Flags = map<(Side, string), Value>

  predicate Inherits(entry: Entry) {
    entry.Table? && "workspace" in entry.fields && entry.fields["workspace"] == Flag(true)
  }

  function FlagsOn(side: Side, entry: Entry): Flags {
    if entry.Table? then map f | f in FLAGS && f in entry.fields :: (side, f) := Plain(entry.fields[f]) else map[]
  }

  /** The feature-bearing keys of an entry, those of the workspace entry it inherits kept apart. */
  function FlagsOf(name: string, entry: Option<Entry>, inherited: Deps): Result<Flags, string> {
    match entry
    case None => Ok(map[])
    case Some(Version(_)) => Ok(map[])
    case Some(Neither) => Err("neither a version string nor a table")
    case Some(e) =>
      if Inherits(e) then
        if name !in inherited then Err("inherits an entry the workspace manifest does not declare")
        else Ok(FlagsOn(Local, e) + FlagsOn(Workspace, inherited[name]))
      else Ok(FlagsOn(Local, e))
  }

  function PackageKey(entry: Entry): Option<string> {
    if entry.Table? && "package" in entry.fields && entry.fields["package"].Text?
    then Some(entry.fields["package"].text)
    else None
  }

  /** A `package` key renames: the entry's own comes first, then that of the workspace entry behind it. */
  function PackageOf(name: string, entry: Entry, inherited: Deps): string {
    if PackageKey(entry).Some? then PackageKey(entry).value
    else if Inherits(entry) && name in inherited && PackageKey(inherited[name]).Some?
    then PackageKey(inherited[name]).value
    else name
  }

  /** Entries with equal identities stand for one dependency under possibly different names. */
  datatype Identity = Identity(package: string, source: map<string, Value>)

  function IdentityOf(name: string, entry: Entry, inherited: Deps): Identity {
    Identity(PackageOf(name, entry, inherited),
             if entry.Table? then map f | f in SOURCES && f in entry.fields :: entry.fields[f] else map[])
  }

  function Identities(table: Deps, inherited: Deps): map<string, Identity> {
    map name | name in table :: IdentityOf(name, table[name], inherited)
  }

  /** Every key of the table, under the identity of its entry. */
  method DependencyIdentities(table: Deps, inherited: Deps) returns (ids: map<Identity, seq<string>>)
    ensures forall id :: Count(ids, id) == Bag(Identities(table, inherited))[id]
  {
    hide Bag, IdentityOf;
    ids := map[];
    var left := table.Keys;
    ghost var all := Identities(table, inherited);
    NothingLeft(all);
    while left != {}
      invariant left <= all.Keys == table.Keys
      invariant forall id :: Count(ids, id) == Bag(all - left)[id]
      decreases left
    {
      var name :| name in left;
      var id := IdentityOf(name, table[name], inherited);
      TakenOut(all, left, name);
      ids := ids[id := (if id in ids then ids[id] else []) + [name]];
      left := left - {name};
    }
  }

  lemma NothingLeft<K, V>(all: map<K, V>)
    ensures Bag(all - all.Keys) == multiset{} && all - {} == all
  {
  }

  lemma TakenOut<K, V>(all: map<K, V>, left: set<K>, k: K)
    requires left <= all.Keys && k in left
    ensures Bag(all - (left - {k})) == Bag(all - left) + multiset{all[k]}
  {
    hide Bag;
    var done := all - (left - {k});
    BagPick(done, k);
    assert done - {k} == all - left;
  }

  function Count(ids: map<Identity, seq<string>>, id: Identity): nat {
    if id in ids then |ids[id]| else 0
  }

  function Get(table: Deps, name: string): Option<Entry> {
    if name in table then Some(table[name]) else None
  }

  function PlainEntry(entry: Option<Entry>): Option<Entry> {
    if entry.Some? && entry.value.Table? then
      Some(Table(map f | f in entry.value.fields :: Plain(entry.value.fields[f])))
    else entry
  }

  /** The keys whose entries differ. */
  function Edited(before: Deps, after: Deps): set<string> {
    set name | name in before.Keys + after.Keys && PlainEntry(Get(before, name)) != PlainEntry(Get(after, name))
  }

  function NamedBy(name: string, entry: Option<Entry>, inherited: Deps): set<string> {
    if entry.Some? then {PackageOf(name, entry.value, inherited)} else {}
  }

  function NamedByEither(before: Deps, after: Deps, inherited: Deps, name: string): set<string> {
    NamedBy(name, Get(before, name), inherited) + NamedBy(name, Get(after, name), inherited)
  }

  /** The packages that either version of an edited entry names. */
  function Named(before: Deps, after: Deps, inherited: Deps, names: set<string>): set<string> {
    set name, p | name in names && p in NamedByEither(before, after, inherited, name) :: p
  }

  lemma NamedGrows(before: Deps, after: Deps, inherited: Deps, names: set<string>, name: string)
    ensures Named(before, after, inherited, names + {name})
         == Named(before, after, inherited, names) + NamedByEither(before, after, inherited, name)
  {
  }

  /** The flags of both versions of the named entry can be read and are the same. */
  predicate SameFlags(before: Deps, after: Deps, inherited: Deps, name: string) {
    && FlagsOf(name, Get(before, name), inherited).Ok? && FlagsOf(name, Get(after, name), inherited).Ok?
    && FlagsOf(name, Get(before, name), inherited) == FlagsOf(name, Get(after, name), inherited)
  }

  /** No edited entry gains, loses or changes a flag, and the flags of both versions can be read. */
  ghost predicate FlagsKept(before: Deps, after: Deps, inherited: Deps) {
    forall name :: name in Edited(before, after) ==> SameFlags(before, after, inherited, name)
  }

  /** The packages named by the edited entries, unless one of them changes its flags. */
  method CollectNamed(before: Deps, after: Deps, inherited: Deps) returns (r: Result<set<string>, string>)
    ensures r.Ok? <==> FlagsKept(before, after, inherited)
    ensures r.Ok? ==> r.value == Named(before, after, inherited, Edited(before, after))
  {
    hide FlagsOf, NamedBy, Named, Edited;
    var named := {};
    var edited := Edited(before, after);
    var left := edited;
    NamedNothing(before, after, inherited);
    assert edited - left == {};
    while left != {}
      invariant left <= edited
      invariant named == Named(before, after, inherited, edited - left)
      invariant forall name :: name in edited - left ==> SameFlags(before, after, inherited, name)
      decreases left
    {
      var name :| name in left;
      var was, now := Get(before, name), Get(after, name);
      var oldFlags := FlagsOf(name, was, inherited);
      if oldFlags.Err? {
        return Err(oldFlags.error);
      }
      var newFlags := FlagsOf(name, now, inherited);
      if newFlags.Err? {
        return Err(newFlags.error);
      }
      if oldFlags.value != newFlags.value {
        return Err("changes features, default-features or optional");
      }
      NamedGrows(before, after, inherited, edited - left, name);
      assert edited - (left - {name}) == edited - left + {name};
      named := named + NamedBy(name, was, inherited) + NamedBy(name, now, inherited);
      left := left - {name};
    }
    assert edited - {} == edited;
    return Ok(named);
  }

  lemma NamedNothing(before: Deps, after: Deps, inherited: Deps)
    ensures Named(before, after, inherited, {}) == {}
  {
  }

  /** Admitted exactly when the flags of every edited entry are kept and both versions hold the same identities,
      each as often; then the packages are those that either version of an edited entry names. */
  method CheckChange(before: Deps, after: Deps, inherited: Deps) returns (r: Result<set<string>, string>)
    ensures r.Ok? <==> (FlagsKept(before, after, inherited)
                        && Bag(Identities(before, inherited)) == Bag(Identities(after, inherited)))
    ensures r.Ok? ==> r.value == Named(before, after, inherited, Edited(before, after))
  {
    r := CollectNamed(before, after, inherited);
    var same := SameCounts(before, after, inherited);
    if r.Ok? && !same {
      return Err("adds or removes a dependency entry");
    }
  }

  /** Neither side has more entries of an identity than the other. */
  method SameCounts(before: Deps, after: Deps, inherited: Deps) returns (same: bool)
    ensures same <==> Bag(Identities(before, inherited)) == Bag(Identities(after, inherited))
  {
    var oldIds := DependencyIdentities(before, inherited);
    var newIds := DependencyIdentities(after, inherited);
    ghost var x, y := Bag(Identities(before, inherited)), Bag(Identities(after, inherited));
    hide Identities, Bag;
    var moved := set id | id in oldIds.Keys + newIds.Keys && Count(oldIds, id) != Count(newIds, id);
    if moved != {} {
      var id :| id in moved;
      assert x[id] != y[id];
      return false;
    }
    forall id ensures x[id] == y[id] {
      if id in oldIds.Keys + newIds.Keys {
        assert id !in moved;
      }
    }
    return true;
  }

  // ----- what an admitted change keeps ------------------------------------

  lemma {:induction false} BagSize<K, V>(m: map<K, V>)
    ensures |Bag(m)| == |m|
    decreases |m|
  {
    if m != map[] {
      BagFirst(m);
      var k := Pick(m.Keys);
      assert (m - {k}).Keys == m.Keys - {k};
      BagSize(m - {k});
    }
  }

  /** An admitted change keeps the number of entries, and every entry of either version has a counterpart in the
      other that names the same package from the same source. */
  lemma AdmittedKeepsEntries(before: Deps, after: Deps, inherited: Deps, name: string)
    returns (counterpart: string)
    requires Bag(Identities(before, inherited)) == Bag(Identities(after, inherited)) && name in before
    ensures |before| == |after| && counterpart in after
    ensures IdentityOf(counterpart, after[counterpart], inherited) == IdentityOf(name, before[name], inherited)
  {
    var x, y := Identities(before, inherited), Identities(after, inherited);
    BagSize(x);
    BagSize(y);
    assert x.Keys == before.Keys && y.Keys == after.Keys;
    assert |x| == |x.Keys| && |before| == |before.Keys| && |y| == |y.Keys| && |after| == |after.Keys|;
    BagPick(x, name);
    counterpart := InBag(y, x[name]);
  }

  /** What a table says about one key of one entry, as it is compared. */
  function FieldOf(table: Deps, name: string, field: string): Option<Value> {
    if name in table && table[name].Table? && field in table[name].fields
    then Some(Plain(table[name].fields[field]))
    else None
  }

  /** An admitted change leaves every feature-bearing key of every entry as it was, present or not, also where the entry
      appears, disappears or turns from a version into a table. */
  lemma AdmittedKeepsFlags(before: Deps, after: Deps, inherited: Deps, name: string, flag: string)
    requires FlagsKept(before, after, inherited)
    requires flag in {"features", "default-features", "default_features", "optional"}
    ensures FieldOf(before, name, flag) == FieldOf(after, name, flag)
  {
    assert flag in FLAGS;
    if name in Edited(before, after) {
      assert SameFlags(before, after, inherited, name);
      LocalFlag(before, inherited, name, flag);
      LocalFlag(after, inherited, name, flag);
    } else {
      FieldOfPlain(before, name, flag);
      FieldOfPlain(after, name, flag);
      assert PlainEntry(Get(before, name)) == PlainEntry(Get(after, name));
    }
  }

  lemma FieldOfPlain(table: Deps, name: string, field: string)
    ensures var e := PlainEntry(Get(table, name));
            FieldOf(table, name, field)
              == if e.Some? && e.value.Table? && field in e.value.fields then Some(e.value.fields[field]) else None
  {
  }

  lemma LocalFlag(table: Deps, inherited: Deps, name: string, flag: string)
    requires flag in FLAGS && FlagsOf(name, Get(table, name), inherited).Ok?
    ensures var flags := FlagsOf(name, Get(table, name), inherited).value;
            FieldOf(table, name, flag) == if (Local, flag) in flags then Some(flags[(Local, flag)]) else None
  {
  }

  /** The entry takes part in a workspace entry. */
  predicate TakesWorkspace(table: Deps, name: string) {
    FieldOf(table, name, "workspace") == Some(Number(1.0)) && table[name].fields["workspace"].Flag?
  }

  /** An entry that starts or stops to inherit is admitted only where the workspace entry has no feature-bearing
      key, and an edited entry that inherits needs a workspace entry of its name. */
  lemma AdmittedKeepsInherited(before: Deps, after: Deps, inherited: Deps, name: string, flag: string)
    requires FlagsKept(before, after, inherited) && name in Edited(before, after)
    requires flag in {"features", "default-features", "default_features", "optional"}
    ensures TakesWorkspace(before, name) || TakesWorkspace(after, name) ==> name in inherited
    ensures TakesWorkspace(before, name) != TakesWorkspace(after, name) ==> FieldOf(inherited, name, flag).None?
  {
    assert SameFlags(before, after, inherited, name) && flag in FLAGS;
    WorkspaceFlag(before, inherited, name, flag);
    WorkspaceFlag(after, inherited, name, flag);
  }

  lemma WorkspaceFlag(table: Deps, inherited: Deps, name: string, flag: string)
    requires flag in FLAGS && FlagsOf(name, Get(table, name), inherited).Ok?
    ensures TakesWorkspace(table, name) ==> name in inherited
    ensures var flags := FlagsOf(name, Get(table, name), inherited).value;
            (if TakesWorkspace(table, name) then FieldOf(inherited, name, flag) else None)
            == if (Workspace, flag) in flags then Some(flags[(Workspace, flag)]) else None
  {
  }

  /** One key of an entry, as it is written. */
  function Written(entry: Entry, field: string): Option<Value> {
    if entry.Table? && field in entry.fields then Some(entry.fields[field]) else None
  }

  /** Two entries stand for one dependency exactly when they name the same package and agree on every key that says
      where it comes from. */
  lemma SameIdentityExactly(x: string, a: Entry, y: string, b: Entry, inherited: Deps)
    ensures IdentityOf(x, a, inherited) == IdentityOf(y, b, inherited)
            <==> (PackageOf(x, a, inherited) == PackageOf(y, b, inherited)
                  && Written(a, "path") == Written(b, "path") && Written(a, "git") == Written(b, "git")
                  && Written(a, "branch") == Written(b, "branch") && Written(a, "tag") == Written(b, "tag")
                  && Written(a, "rev") == Written(b, "rev") && Written(a, "registry") == Written(b, "registry")
                  && Written(a, "registry-index") == Written(b, "registry-index")
                  && Written(a, "workspace") == Written(b, "workspace"))
  {
    hide PackageOf, IdentityOf, Written;
    SourcesExactly(x, a, y, b, inherited);
    SourceNames();
  }

  lemma SourcesExactly(x: string, a: Entry, y: string, b: Entry, inherited: Deps)
    ensures IdentityOf(x, a, inherited) == IdentityOf(y, b, inherited)
            <==> (PackageOf(x, a, inherited) == PackageOf(y, b, inherited)
                  && forall f :: f in SOURCES ==> Written(a, f) == Written(b, f))
  {
    SourceExactly(x, a, inherited);
    SourceExactly(y, b, inherited);
    hide PackageOf, Written;
    var p, q := IdentityOf(x, a, inherited).source, IdentityOf(y, b, inherited).source;
    if forall f :: f in SOURCES ==> Written(a, f) == Written(b, f) {
      SameMap(p, q);
    }
  }

  lemma SameMap<K, V>(p: map<K, V>, q: map<K, V>)
    requires forall f :: (if f in p then Some(p[f]) else None) == if f in q then Some(q[f]) else None
    ensures p == q
  {
    assert forall f :: f in p <==> f in q;
  }

  lemma SourceNames()
    ensures forall f :: f in SOURCES <==>
              f == "path" || f == "git" || f == "branch" || f == "tag" || f == "rev" || f == "registry"
              || f == "registry-index" || f == "workspace"
  {
  }

  lemma SourceExactly(name: string, entry: Entry, inherited: Deps)
    ensures var source := IdentityOf(name, entry, inherited).source;
            forall f :: (if f in source then Some(source[f]) else None)
                        == if f in SOURCES then Written(entry, f) else None
  {
    hide PackageOf;
  }

  /** A name that no `package` key of its own or of the workspace entry behind it replaces is the package; a key of its
      own comes first. */
  lemma PackageExactly(name: string, entry: Entry, inherited: Deps, package: string)
    ensures Written(entry, "package") == Some(Text(package)) ==> PackageOf(name, entry, inherited) == package
    ensures entry.Version? ==> PackageOf(name, entry, inherited) == name
    ensures !Written(entry, "package").Some? && Written(entry, "workspace") != Some(Flag(true))
            ==> PackageOf(name, entry, inherited) == name
    ensures !Written(entry, "package").Some? && Written(entry, "workspace") == Some(Flag(true)) && name in inherited
            && Written(inherited[name], "package") == Some(Text(package))
            ==> PackageOf(name, entry, inherited) == package
    ensures !Written(entry, "package").Some? && (name !in inherited || Written(inherited[name], "package").None?)
            ==> PackageOf(name, entry, inherited) == name
  {
  }
}
