/**
 Schema migration operations over the schema, the entity lines and the edge lines of a knowledge graph. A line is a
 record, or text that is not one.
 */
module SchemaOperations {
  import opened Wrappers

  /** The value under a record's `properties` key. */
  datatype Props =
    | Absent
    | Scalar(json: string)
    | List(indices: set<string>)
    | Fields(values: map<string, string>)

  datatype Entity =
    | Junk(text: string)
    | Entity(id: Option<string>, kind: Option<string>, props: Props)

  datatype Edge =
    | Noise(text: string)
    | Edge(source: string, target: string, relation: Option<string>)

  datatype Property = Property(name: string, typ: string, required: Option<bool>, description: Option<string>)

  datatype Rule = Rule(sourceKind: string, targetKind: string)

  datatype Schema = Schema(
    version: string,
    kinds: Option<seq<string>>,
    properties: Option<map<string, seq<Property>>>,
    rules: Option<map<string, seq<Rule>>>)

  datatype Counts = Counts(entitiesScanned: nat, entitiesRewritten: nat, edgesScanned: nat, edgesDropped: nat)

  datatype OnExisting = Abort | MigrateTo(target: Option<string>)

  datatype OnEdges = AbortEdges | Drop

  datatype Operation =
    | AddKind(name: string)
    | RemoveKind(name: string, existing: OnExisting)
    | RenameKind(from: string, to: string)
    | AddProperty(kind: string, prop: Property)
    | RemoveProperty(kind: string, name: string)
    | RenameProperty(kind: string, from: string, to: string)
    | AddEndpoint(relation: string, rule: Rule)
    | RemoveEndpoint(relation: string, rule: Rule, edges: OnEdges)

  datatype State = State(schema: Schema, entities: seq<Entity>, edges: seq<Edge>, counts: Counts)

  const NO_COUNTS := Counts(0, 0, 0, 0)

  const CANONICAL_RELATIONS := {
    "contains", "part_of", "instance_of", "extends", "variant_of", "introduced_by", "supersedes", "depends_on",
    "enables", "implements", "competes_with", "composed_with", "annotates"
  }

  /** A lower-case letter followed by lower-case letters, digits, `_` and `-`. */
  predicate KindName(name: string) {
    && name != [] && 'a' <= name[0] <= 'z'
    && forall i :: 1 <= i < |name| ==>
         'a' <= name[i] <= 'z' || '0' <= name[i] <= '9' || name[i] == '_' || name[i] == '-'
  }

  // ----- rewriting entity lines -------------------------------------------

  datatype Change = SetKind(from: string, to: string) | MoveProp(kind: string, from: string, to: string)

  predicate Hits(c: Change, e: Entity) {
    && e.Entity?
    && match c
       case SetKind(from, _) => e.kind == Some(from)
       case MoveProp(kind, from, _) => e.kind == Some(kind) && e.props.Fields? && from in e.props.values
  }

  function Changed(c: Change, e: Entity): Entity {
    if !Hits(c, e) then e
    else
      match c
      case SetKind(_, to) => e.(kind := Some(to))
      case MoveProp(_, from, to) => e.(props := Fields(e.props.values[to := e.props.values[from]] - {from}))
  }

  function Rewritten(c: Change, entities: seq<Entity>): (r: seq<Entity>)
    ensures |r| == |entities| && forall i :: 0 <= i < |r| ==> r[i] == Changed(c, entities[i])
  {
    if entities == [] then [] else Rewritten(c, entities[..|entities| - 1]) + [Changed(c, entities[|entities| - 1])]
  }

  function HitCount(c: Change, entities: seq<Entity>): (n: nat)
    ensures n == 0 <==> forall e :: e in entities ==> !Hits(c, e)
  {
    if entities == [] then 0
    else HitCount(c, entities[..|entities| - 1]) + (if Hits(c, entities[|entities| - 1]) then 1 else 0)
  }

  /** A record of the kind whose properties are known not to hold the name. */
  predicate Lacks(kind: string, name: string, e: Entity) {
    && e.Entity? && e.kind == Some(kind)
    && match e.props
       case Absent => true
       case Scalar(_) => false
       case List(indices) => name !in indices
       case Fields(values) => name !in values
  }

  // ----- edges ------------------------------------------------------------

  /** The kind of the last record with this id, when both are non-empty. */
  function LastKind(entities: seq<Entity>, id: string): Option<string> {
    if entities == [] then None
    else
      var e := entities[|entities| - 1];
      if Keyed(e) && e.id.value == id then e.kind else LastKind(entities[..|entities| - 1], id)
  }

  predicate Keyed(e: Entity) {
    e.Entity? && e.id.Some? && e.id.value != [] && e.kind.Some? && e.kind.value != []
  }

  function KindOf(entities: seq<Entity>, id: string): string {
    if LastKind(entities, id).Some? then LastKind(entities, id).value else "unknown"
  }

  /** The edge has the relation and its ends, as the entities are now, have the rule's kinds; "any" fits every kind. */
  predicate Fits(entities: seq<Entity>, relation: string, rule: Rule, e: Edge) {
    && e.Edge? && e.relation == Some(relation)
    && (rule.sourceKind == "any" || KindOf(entities, e.source) == rule.sourceKind)
    && (rule.targetKind == "any" || KindOf(entities, e.target) == rule.targetKind)
  }

  /** The edges that do not fit, in order. */
  function Others(entities: seq<Entity>, relation: string, rule: Rule, edges: seq<Edge>): (r: seq<Edge>)
    ensures |r| <= |edges|
  {
    if edges == [] then []
    else
      var e := edges[|edges| - 1];
      var r := Others(entities, relation, rule, edges[..|edges| - 1]);
      if Fits(entities, relation, rule, e) then r else r + [e]
  }

  // ----- the schema -------------------------------------------------------

  function Without<T(==,!new)>(s: seq<T>, x: T): (r: seq<T>)
    ensures forall y :: y in r <==> y in s && y != x
  {
    if s == [] then [] else (if s[0] == x then [] else [s[0]]) + Without(s[1..], x)
  }

  function Replaced<T(==)>(s: seq<T>, x: T, y: T): (r: seq<T>)
    ensures |r| == |s| && forall i :: 0 <= i < |s| ==> r[i] == if s[i] == x then y else s[i]
  {
    seq(|s|, i requires 0 <= i < |s| => if s[i] == x then y else s[i])
  }

  function WithoutNamed(s: seq<Property>, name: string): (r: seq<Property>)
    ensures forall p :: p in r <==> p in s && p.name != name
  {
    if s == [] then [] else (if s[0].name == name then [] else [s[0]]) + WithoutNamed(s[1..], name)
  }

  function Renamed(s: seq<Property>, from: string, to: string): (r: seq<Property>)
    ensures |r| == |s| && forall i :: 0 <= i < |s| ==> r[i] == if s[i].name == from then s[i].(name := to) else s[i]
  {
    seq(|s|, i requires 0 <= i < |s| => if s[i].name == from then s[i].(name := to) else s[i])
  }

  function Listed<K, V>(m: Option<map<K, seq<V>>>, k: K): seq<V> {
    if m.Some? && k in m.value then m.value[k] else []
  }

  function Table<K, V>(m: Option<map<K, V>>): map<K, V> {
    if m.Some? then m.value else map[]
  }

  function KindAdded(s: Schema, name: string): Schema {
    var kinds := if s.kinds.Some? then s.kinds.value else [];
    s.(kinds := Some(if name in kinds then kinds else kinds + [name]))
  }

  function KindRemoved(s: Schema, name: string): Schema {
    s.(kinds := if s.kinds.Some? then Some(Without(s.kinds.value, name)) else None,
       properties := if s.properties.Some? then Some(s.properties.value - {name}) else None)
  }

  function KindRenamed(s: Schema, from: string, to: string): Schema {
    s.(kinds := if s.kinds.Some? then Some(Replaced(s.kinds.value, from, to)) else None,
       properties :=
         if s.properties.Some? && from in s.properties.value then
           Some(s.properties.value[to := s.properties.value[from]] - {from})
         else s.properties)
  }

  function PropertyAdded(s: Schema, kind: string, prop: Property): Schema {
    var declared := Listed(s.properties, kind);
    var known := exists p :: p in declared && p.name == prop.name;
    s.(properties := Some(Table(s.properties)[kind := if known then declared else declared + [prop]]))
  }

  function PropertyRemoved(s: Schema, kind: string, name: string): Schema {
    if s.properties.None? || kind !in s.properties.value then s
    else
      var rest := WithoutNamed(s.properties.value[kind], name);
      s.(properties := Some(if rest == [] then s.properties.value - {kind} else s.properties.value[kind := rest]))
  }

  function PropertyRenamed(s: Schema, kind: string, from: string, to: string): Schema {
    if s.properties.None? || kind !in s.properties.value then s
    else s.(properties := Some(s.properties.value[kind := Renamed(s.properties.value[kind], from, to)]))
  }

  function RuleAdded(s: Schema, relation: string, rule: Rule): Schema {
    var declared := Listed(s.rules, relation);
    s.(rules := Some(Table(s.rules)[relation := if rule in declared then declared else declared + [rule]]))
  }

  function RuleRemoved(s: Schema, relation: string, rule: Rule): Schema {
    if s.rules.None? || relation !in s.rules.value then s
    else
      var rest := Without(s.rules.value[relation], rule);
      var rules := if rest == [] then s.rules.value - {relation} else s.rules.value[relation := rest];
      s.(rules := if rules == map[] then None else Some(rules))
  }

  // ----- one operation ----------------------------------------------------

  function Scanned(s: State): State {
    s.(counts := s.counts.(entitiesScanned := s.counts.entitiesScanned + |s.entities|))
  }

  function Rewrite(s: State, c: Change): State {
    Scanned(s).(entities := Rewritten(c, s.entities),
                counts := Scanned(s).counts.(entitiesRewritten := s.counts.entitiesRewritten + HitCount(c, s.entities)))
  }

  function Cut(s: State, relation: string, rule: Rule): State {
    var rest := Others(s.entities, relation, rule, s.edges);
    s.(edges := rest,
       counts := s.counts.(edgesScanned := s.counts.edgesScanned + |s.edges|,
                           edgesDropped := s.counts.edgesDropped + (|s.edges| - |rest|)))
  }

  /** What the operation makes of the state, or the reason why it raises. */
  function Applied(s: State, op: Operation): Result<State, string> {
    match op
    case AddKind(name) =>
      if KindName(name) then Ok(s.(schema := KindAdded(s.schema, name))) else Err("invalid kind name")
    case RemoveKind(name, Abort) =>
      if HitCount(SetKind(name, name), s.entities) > 0 then Err("entities still exist")
      else Ok(Scanned(s).(schema := KindRemoved(s.schema, name)))
    case RemoveKind(name, MigrateTo(target)) =>
      var moved := if target.Some? && target.value != [] then Rewrite(s, SetKind(name, target.value)) else Scanned(s);
      Ok(moved.(schema := KindRemoved(s.schema, name)))
    case RenameKind(from, to) =>
      Ok(Rewrite(s, SetKind(from, to)).(schema := KindRenamed(s.schema, from, to)))
    case AddProperty(kind, prop) =>
      if prop.required != Some(true) then Ok(s.(schema := PropertyAdded(s.schema, kind, prop)))
      else if exists e :: e in s.entities && Lacks(kind, prop.name, e) then Err("entities lack the property")
      else Ok(Scanned(s).(schema := PropertyAdded(s.schema, kind, prop)))
    case RemoveProperty(kind, name) =>
      Ok(s.(schema := PropertyRemoved(s.schema, kind, name)))
    case RenameProperty(kind, from, to) =>
      Ok(Rewrite(s, MoveProp(kind, from, to)).(schema := PropertyRenamed(s.schema, kind, from, to)))
    case AddEndpoint(relation, rule) =>
      if relation in CANONICAL_RELATIONS then Ok(s.(schema := RuleAdded(s.schema, relation, rule)))
      else Err("unknown relation")
    case RemoveEndpoint(relation, rule, onEdges) =>
      if relation !in CANONICAL_RELATIONS then Err("unknown relation")
      else if onEdges.AbortEdges? && |Others(s.entities, relation, rule, s.edges)| < |s.edges|
      then Err("edges still exist")
      else Ok(Cut(s, relation, rule).(schema := RuleRemoved(s.schema, relation, rule)))
  }

  // ----- what an operation promises ---------------------------------------

  /** The identity of every line, in order. */
  function Ids(entities: seq<Entity>): seq<Option<string>> {
    seq(|entities|, i requires 0 <= i < |entities| => if entities[i].Entity? then entities[i].id else None)
  }

  /** a is b with some elements left out. */
  predicate Thinned<T(==)>(a: seq<T>, b: seq<T>) {
    if a == [] then true
    else if b == [] then false
    else if a[|a| - 1] == b[|b| - 1] && Thinned(a[..|a| - 1], b[..|b| - 1]) then true
    else Thinned(a, b[..|b| - 1])
  }

  lemma {:induction false} ThinnedItself<T>(a: seq<T>)
    ensures Thinned(a, a)
  {
    if a != [] {
      ThinnedItself(a[..|a| - 1]);
    }
  }

  /** Thinning again thins the first list. */
  lemma {:induction false} ThinnedTwice<T>(a: seq<T>, b: seq<T>, c: seq<T>)
    requires Thinned(a, b) && Thinned(b, c)
    ensures Thinned(a, c)
    decreases |c|
  {
    if a != [] && b != [] {
      var a', b', c' := a[..|a| - 1], b[..|b| - 1], c[..|c| - 1];
      if b[|b| - 1] == c[|c| - 1] && Thinned(b', c') {
        if a[|a| - 1] == b[|b| - 1] && Thinned(a', b') {
          ThinnedTwice(a', b', c');
        } else {
          ThinnedTwice(a, b', c');
        }
      } else {
        ThinnedTwice(a, b, c');
      }
    }
  }

  lemma ThinnedLonger<T>(a: seq<T>, b: seq<T>, x: T)
    requires Thinned(a, b)
    ensures Thinned(a, b + [x]) && Thinned(a + [x], b + [x])
  {
  }

  lemma {:induction false} OthersThin(entities: seq<Entity>, relation: string, rule: Rule, edges: seq<Edge>)
    ensures Thinned(Others(entities, relation, rule, edges), edges)
  {
    hide Fits, Thinned;
    if edges == [] {
      ThinnedItself(edges);
    } else {
      var shorter, e := edges[..|edges| - 1], edges[|edges| - 1];
      OthersThin(entities, relation, rule, shorter);
      var rest := Others(entities, relation, rule, shorter);
      ThinnedLonger(rest, shorter, e);
      assert shorter + [e] == edges;
      assert Others(entities, relation, rule, edges) == if Fits(entities, relation, rule, e) then rest else rest + [e];
    }
  }

  /** Exactly the edges that do not fit, and all of them when none was left out. */
  lemma {:induction false} OthersAre(entities: seq<Entity>, relation: string, rule: Rule, edges: seq<Edge>)
    ensures var r := Others(entities, relation, rule, edges);
            && (forall e :: e in r <==> e in edges && !Fits(entities, relation, rule, e))
            && (|r| == |edges| ==> r == edges)
            && ((forall e :: e in edges ==> !Fits(entities, relation, rule, e)) ==> r == edges)
  {
    hide Fits;
    if edges != [] {
      var shorter, last := edges[..|edges| - 1], edges[|edges| - 1];
      OthersAre(entities, relation, rule, shorter);
      assert shorter + [last] == edges;
      forall e ensures e in edges <==> e in shorter || e == last {
      }
    }
  }

  lemma NothingHit(c: Change, entities: seq<Entity>)
    requires HitCount(c, entities) == 0
    ensures Rewritten(c, entities) == entities
  {
  }

  /** No operation adds, removes, reorders or renames an entity line, and none adds or reorders an edge line. A file
      whose counter did not move holds the lines it held. */
  lemma OperationKeeps(s: State, op: Operation)
    requires Applied(s, op).Ok?
    ensures var t := Applied(s, op).value;
            && Ids(t.entities) == Ids(s.entities) && Thinned(t.edges, s.edges)
            && s.counts.entitiesRewritten <= t.counts.entitiesRewritten
            && s.counts.edgesDropped <= t.counts.edgesDropped
            && t.counts.edgesDropped - s.counts.edgesDropped == |s.edges| - |t.edges|
            && (t.counts.entitiesRewritten == s.counts.entitiesRewritten ==> t.entities == s.entities)
            && (t.counts.edgesDropped == s.counts.edgesDropped ==> t.edges == s.edges)
  {
    hide KindAdded, KindRemoved, KindRenamed, PropertyAdded, PropertyRemoved, PropertyRenamed, RuleAdded, RuleRemoved;
    hide Fits, HitCount, Thinned;
    ThinnedItself(s.edges);
    forall c | HitCount(c, s.entities) == 0 ensures Rewritten(c, s.entities) == s.entities {
      NothingHit(c, s.entities);
    }
    if op.RemoveEndpoint? {
      OthersThin(s.entities, op.relation, op.rule, s.edges);
      OthersAre(s.entities, op.relation, op.rule, s.edges);
    }
  }

  predicate HasKind(entities: seq<Entity>, kind: string) {
    exists e :: e in entities && e.Entity? && e.kind == Some(kind)
  }

  /** What is declared for `from` is declared for `to` instead, in place of what was there, unless both are the same,
      where it is lost. Everything else declared stays. */
  ghost predicate Moved<V(!new)>(was: map<string, V>, renamed: map<string, V>, from: string, to: string) {
    && (from !in was ==> renamed == was)
    && (from in was ==>
          && from !in renamed
          && (to in renamed && renamed[to] == was[from] <==> from != to)
          && forall k :: k !in {from, to} ==> (k in renamed <==> k in was) && (k in was ==> renamed[k] == was[k]))
  }

  /** After a kind is renamed no record and no entry of the list of kinds bears the old name, unless it was renamed to
      itself. Its declared properties move to the new name, and are lost exactly when that is the old one. */
  lemma RenamedAwayExactlyWhen(s: State, from: string, to: string)
    ensures var t := Applied(s, RenameKind(from, to)).value;
            && (HasKind(t.entities, from) <==> (from == to && HasKind(s.entities, from)))
            && (from in ListedKinds(t.schema) <==> (from == to && from in ListedKinds(s.schema)))
            && (t.schema.properties.Some? <==> s.schema.properties.Some?)
            && (s.schema.properties.Some? ==> Moved(s.schema.properties.value, t.schema.properties.value, from, to))
  {
    var t := Applied(s, RenameKind(from, to)).value;
    var c := SetKind(from, to);
    assert t.entities == Rewritten(c, s.entities);
    if e :| e in s.entities && e.Entity? && e.kind == Some(from) {
      var i :| 0 <= i < |s.entities| && s.entities[i] == e;
      assert t.entities[i] == Changed(c, e) && t.entities[i] in t.entities;
    }
    if i :| 0 <= i < |ListedKinds(s.schema)| && ListedKinds(s.schema)[i] == from {
      assert ListedKinds(t.schema)[i] == to;
    }
  }

  function ListedKinds(s: Schema): seq<string> {
    if s.kinds.Some? then s.kinds.value else []
  }

  /** A removed kind is gone from the schema. Its records are gone from the entities when there were none or when a
      different, non-empty target takes them; without such a target `migrate_to` leaves them as they were. */
  lemma RemovedExactlyWhen(s: State, name: string, existing: OnExisting)
    requires Applied(s, RemoveKind(name, existing)).Ok?
    ensures var t := Applied(s, RemoveKind(name, existing)).value;
            && (forall k :: k in ListedKinds(t.schema) <==> k in ListedKinds(s.schema) && k != name)
            && (s.schema.properties.Some? ==>
                  && t.schema.properties.Some?
                  && forall k :: (k in t.schema.properties.value <==> k in s.schema.properties.value && k != name)
                       && (k in t.schema.properties.value ==>
                           t.schema.properties.value[k] == s.schema.properties.value[k]))
            && (!HasKind(t.entities, name) <==>
                (!HasKind(s.entities, name)
                 || (existing.MigrateTo? && existing.target.Some? && existing.target.value !in {[], name})))
  {
    var t := Applied(s, RemoveKind(name, existing)).value;
    if e :| e in s.entities && e.Entity? && e.kind == Some(name) {
      var i :| 0 <= i < |s.entities| && s.entities[i] == e;
      assert t.entities[i] in t.entities;
      assert Hits(SetKind(name, name), e);
    }
  }

  /** A renamed property keeps its value under the new name unless both names are the same, where it is lost; every
      other property but the one overwritten stays. */
  lemma PropertyMovesExactlyWhen(s: State, kind: string, from: string, to: string, i: nat)
    requires i < |s.entities| && Hits(MoveProp(kind, from, to), s.entities[i])
    ensures var was := s.entities[i].props.values;
            var now := Applied(s, RenameProperty(kind, from, to)).value.entities[i].props.values;
            && from !in now
            && (to in now && now[to] == was[from] <==> from != to)
            && forall p :: p !in {from, to} ==> (p in now <==> p in was) && (p in was ==> now[p] == was[p])
  {
  }

  // ----- what an operation undoes -----------------------------------------

  lemma KindsBack(kinds: seq<string>, from: string, to: string)
    requires from != to
    ensures Replaced(Replaced(kinds, from, to), to, from) == kinds <==> to !in kinds
  {
    var back := Replaced(Replaced(kinds, from, to), to, from);
    if i :| 0 <= i < |kinds| && kinds[i] == to {
      assert back[i] == from;
    }
  }

  lemma MovedBack<V>(m: map<string, V>, from: string, to: string)
    requires from != to
    ensures var there := if from in m then m[to := m[from]] - {from} else m;
            var back := if to in there then there[from := there[to]] - {to} else there;
            back == m <==> to !in m
  {
    var there := if from in m then m[to := m[from]] - {from} else m;
    var back := if to in there then there[from := there[to]] - {to} else there;
    assert to !in back;
    if to !in m {
      forall k ensures (k in back <==> k in m) && (k in m ==> back[k] == m[k]) {
      }
    }
  }

  /** Nothing bears the kind: no record, no entry of the list of kinds, no declared property. */
  predicate Unused(s: State, kind: string) {
    && !HasKind(s.entities, kind)
    && (s.schema.kinds.Some? ==> kind !in s.schema.kinds.value)
    && (s.schema.properties.Some? ==> kind !in s.schema.properties.value)
  }

  lemma {:induction false} EntitiesBack(c: Change, d: Change, entities: seq<Entity>)
    requires forall e :: e in entities ==> (Changed(d, Changed(c, e)) == e <==> !Hits(d, e))
    ensures Rewritten(d, Rewritten(c, entities)) == entities <==> forall e :: e in entities ==> !Hits(d, e)
  {
    hide Hits, Changed;
    var back := Rewritten(d, Rewritten(c, entities));
    assert forall i :: 0 <= i < |entities| ==>
        entities[i] in entities && back[i] == Changed(d, Changed(c, entities[i]));
    if e :| e in entities && Hits(d, e) {
      var i :| 0 <= i < |entities| && entities[i] == e;
      assert back[i] != entities[i];
    }
  }

  /** Renaming a kind and renaming it back restores everything but the counters, exactly when the name in between was
      unused. */
  lemma RenamedBackExactlyWhen(s: State, from: string, to: string)
    requires from != to
    ensures var there := Applied(s, RenameKind(from, to)).value;
            var back := Applied(there, RenameKind(to, from)).value;
            back.(counts := s.counts) == s <==> Unused(s, to)
  {
    hide Rewritten, HitCount, Replaced;
    var c, d := SetKind(from, to), SetKind(to, from);
    EntitiesBack(c, d, s.entities);
    assert HasKind(s.entities, to) <==> exists e :: e in s.entities && Hits(d, e);
    if s.schema.kinds.Some? {
      KindsBack(s.schema.kinds.value, from, to);
    }
    if s.schema.properties.Some? {
      MovedBack(s.schema.properties.value, from, to);
    }
  }

  /** Renaming a property and renaming it back restores the records, exactly when none of the kind had the name in
      between. */
  lemma PropertyBackExactlyWhen(s: State, kind: string, from: string, to: string)
    requires from != to
    ensures var there := Applied(s, RenameProperty(kind, from, to)).value;
            var back := Applied(there, RenameProperty(kind, to, from)).value;
            back.entities == s.entities <==> forall e :: e in s.entities ==> !Hits(MoveProp(kind, to, from), e)
  {
    hide Rewritten, HitCount, PropertyRenamed;
    var c, d := MoveProp(kind, from, to), MoveProp(kind, to, from);
    forall e | e in s.entities ensures Changed(d, Changed(c, e)) == e <==> !Hits(d, e) {
      if e.Entity? && e.kind == Some(kind) && e.props.Fields? {
        MovedBack(e.props.values, from, to);
      }
    }
    EntitiesBack(c, d, s.entities);
  }

  /** The rule is new, and neither the table of rules nor the relation's list in it is empty. */
  predicate Restorable(s: Schema, relation: string, rule: Rule) {
    && rule !in Listed(s.rules, relation)
    && (s.rules.Some? ==> s.rules.value != map[] && (relation in s.rules.value ==> s.rules.value[relation] != []))
  }

  lemma WithoutNew<T(!new)>(s: seq<T>, x: T)
    ensures x !in s ==> Without(s + [x], x) == s
  {
    if x !in s && s != [] {
      WithoutNew(s[1..], x);
      assert (s + [x])[1..] == s[1..] + [x];
    }
  }

  /** Removing a rule that was just added restores the schema, exactly when the rule was new and no empty table or list
      was there to be tidied away. */
  lemma RuleBackExactlyWhen(s: Schema, relation: string, rule: Rule)
    ensures RuleRemoved(RuleAdded(s, relation, rule), relation, rule) == s <==> Restorable(s, relation, rule)
  {
    var declared := Listed(s.rules, relation);
    var back := RuleRemoved(RuleAdded(s, relation, rule), relation, rule);
    if rule in declared {
      assert rule !in Listed(back.rules, relation);
    } else {
      WithoutNew(declared, rule);
      var rules := Table(s.rules);
      var added := rules[relation := declared + [rule]];
      assert RuleAdded(s, relation, rule).rules == Some(added);
      if declared == [] {
        assert added - {relation} == rules - {relation};
        assert relation !in rules ==> rules - {relation} == rules;
        assert back.rules.Some? ==> relation !in back.rules.value;
      } else {
        assert added[relation := declared] == rules;
      }
    }
  }

  /** Removing a rule that was just added is refused exactly when an edge fits it; otherwise records and edges are
      as they were, and so is the schema exactly when the rule was new and no empty table or list was there. */
  lemma EndpointBackExactlyWhen(s: State, relation: string, rule: Rule)
    requires relation in CANONICAL_RELATIONS
    ensures var there := Applied(s, AddEndpoint(relation, rule)).value;
            var back := Applied(there, RemoveEndpoint(relation, rule, AbortEdges));
            && (back.Ok? <==> forall e :: e in s.edges ==> !Fits(s.entities, relation, rule, e))
            && (back.Ok? ==> back.value.entities == s.entities && back.value.edges == s.edges)
            && (back.Ok? ==> (back.value.schema == s.schema <==> Restorable(s.schema, relation, rule)))
  {
    hide Fits, RuleAdded, RuleRemoved, Restorable;
    OthersAre(s.entities, relation, rule, s.edges);
    RuleBackExactlyWhen(s.schema, relation, rule);
  }

  /** After a rule is removed no edge it fits is left, and every other edge is. */
  lemma RemovedRuleLeavesNone(s: State, relation: string, rule: Rule, onEdges: OnEdges)
    requires Applied(s, RemoveEndpoint(relation, rule, onEdges)).Ok?
    ensures var t := Applied(s, RemoveEndpoint(relation, rule, onEdges)).value;
            && forall e :: e in t.edges <==> e in s.edges && !Fits(t.entities, relation, rule, e)
  {
    OthersAre(s.entities, relation, rule, s.edges);
  }
}

/** The operations as they change the state of a run, line by line. */
module SchemaMigrator {
  import opened Wrappers
  import opened SchemaOperations

  lemma NothingRewritten(c: Change, lines: seq<Entity>)
    ensures Rewritten(c, lines[..0]) == [] && HitCount(c, lines[..0]) == 0
  {
  }

  lemma OneMore(c: Change, lines: seq<Entity>, i: nat)
    requires i < |lines|
    ensures Rewritten(c, lines[..i + 1]) == Rewritten(c, lines[..i]) + [Changed(c, lines[i])]
    ensures HitCount(c, lines[..i + 1]) == HitCount(c, lines[..i]) + if Hits(c, lines[i]) then 1 else 0
    ensures !Hits(c, lines[i]) ==> Changed(c, lines[i]) == lines[i]
    ensures lines[..i + 1] == lines[..i] + [lines[i]]
  {
    assert lines[..i + 1][..i] == lines[..i];
  }

  class Migrator {
    var schema: Schema
    var entities: seq<Entity>
    var edges: seq<Edge>
    var counts: Counts

    constructor (schema: Schema, entities: seq<Entity>, edges: seq<Edge>)
      ensures Now() == State(schema, entities, edges, NO_COUNTS)
    {
      this.schema, this.entities, this.edges, this.counts := schema, entities, edges, NO_COUNTS;
    }

    function Now(): State
      reads this
    {
      State(schema, entities, edges, counts)
    }

    /** One operation. When it raises, only the counters may have moved. */
    method Apply(op: Operation) returns (r: Result<(), string>)
      modifies this
      ensures match Applied(old(Now()), op)
              case Ok(s) => r.Ok? && Now() == s
              case Err(e) => r == Err(e) && schema == old(schema) && entities == old(entities) && edges == old(edges)
    {
      match op {
        case AddKind(name) =>
          if !KindName(name) {
            return Err("invalid kind name");
          }
          schema := KindAdded(schema, name);
        case RemoveKind(name, existing) =>
          var matched := RemoveOrMove(name, existing);
          if existing.Abort? && matched > 0 {
            return Err("entities still exist");
          }
          schema := KindRemoved(schema, name);
        case RenameKind(from, to) =>
          RewriteEntities(SetKind(from, to));
          schema := KindRenamed(schema, from, to);
        case AddProperty(kind, prop) =>
          if prop.required == Some(true) {
            var missing := CountMissing(kind, prop.name);
            if missing > 0 {
              return Err("entities lack the property");
            }
          }
          schema := PropertyAdded(schema, kind, prop);
        case RemoveProperty(kind, name) =>
          schema := PropertyRemoved(schema, kind, name);
        case RenameProperty(kind, from, to) =>
          RewriteEntities(MoveProp(kind, from, to));
          schema := PropertyRenamed(schema, kind, from, to);
        case AddEndpoint(relation, rule) =>
          if relation !in CANONICAL_RELATIONS {
            return Err("unknown relation");
          }
          schema := RuleAdded(schema, relation, rule);
        case RemoveEndpoint(relation, rule, onEdges) =>
          if relation !in CANONICAL_RELATIONS {
            return Err("unknown relation");
          }
          var filtered := FilterEdges(relation, rule, onEdges);
          if onEdges.AbortEdges? && |filtered| < |edges| {
            return Err("edges still exist");
          }
          edges := filtered;
          schema := RuleRemoved(schema, relation, rule);
      }
      return Ok(());
    }

    method RewriteEntities(c: Change)
      modifies this`entities, this`counts
      ensures Now() == Rewrite(old(Now()), c)
    {
      hide Hits, Changed, Rewritten, HitCount;
      var lines := [];
      var i := 0;
      NothingRewritten(c, entities);
      while i < |entities|
        invariant i <= |entities| && lines == Rewritten(c, entities[..i]) && entities == old(entities)
        invariant counts == old(counts).(entitiesScanned := old(counts).entitiesScanned + i,
                                         entitiesRewritten := old(counts).entitiesRewritten
                                                              + HitCount(c, entities[..i]))
      {
        OneMore(c, entities, i);
        counts := counts.(entitiesScanned := counts.entitiesScanned + 1);
        if Hits(c, entities[i]) {
          lines := lines + [Changed(c, entities[i])];
          counts := counts.(entitiesRewritten := counts.entitiesRewritten + 1);
        } else {
          lines := lines + [entities[i]];
        }
        i := i + 1;
      }
      assert entities[..i] == entities;
      entities := lines;
    }

    method RemoveOrMove(name: string, existing: OnExisting) returns (matched: nat)
      modifies this`entities, this`counts
      ensures existing.Abort? ==> matched == HitCount(SetKind(name, name), old(entities))
      ensures if existing.MigrateTo? && existing.target.Some? && existing.target.value != [] then
                Now() == Rewrite(old(Now()), SetKind(name, existing.target.value))
              else
                Now() == Scanned(old(Now()))
    {
      hide Hits, Changed, Rewritten, HitCount;
      var moving := existing.MigrateTo? && existing.target.Some? && existing.target.value != [];
      var c := SetKind(name, if moving then existing.target.value else name);
      var lines := [];
      matched := 0;
      var i := 0;
      NothingRewritten(c, entities);
      while i < |entities|
        invariant i <= |entities| && lines == (if moving then Rewritten(c, entities[..i]) else entities[..i])
        invariant entities == old(entities) && matched == HitCount(c, entities[..i])
        invariant counts == old(counts).(entitiesScanned := old(counts).entitiesScanned + i,
                                         entitiesRewritten := old(counts).entitiesRewritten
                                                              + if moving then matched else 0)
      {
        var e := entities[i];
        OneMore(c, entities, i);
        counts := counts.(entitiesScanned := counts.entitiesScanned + 1);
        if Hits(c, e) {
          matched := matched + 1;
          if moving {
            e := Changed(c, e);
            counts := counts.(entitiesRewritten := counts.entitiesRewritten + 1);
          }
        }
        lines := lines + [e];
        i := i + 1;
      }
      assert entities[..i] == entities;
      entities := lines;
    }

    method CountMissing(kind: string, name: string) returns (missing: nat)
      modifies this`counts
      ensures counts == Scanned(old(Now())).counts
      ensures missing > 0 <==> exists e :: e in entities && Lacks(kind, name, e)
    {
      hide Lacks;
      missing := 0;
      var i := 0;
      while i < |entities|
        invariant i <= |entities|
        invariant counts == old(counts).(entitiesScanned := old(counts).entitiesScanned + i)
        invariant missing > 0 <==> exists e :: e in entities[..i] && Lacks(kind, name, e)
      {
        assert entities[..i + 1] == entities[..i] + [entities[i]];
        counts := counts.(entitiesScanned := counts.entitiesScanned + 1);
        if Lacks(kind, name, entities[i]) {
          missing := missing + 1;
        }
        i := i + 1;
      }
      assert entities[..i] == entities;
    }

    method BuildEntityKindMap() returns (kinds: map<string, string>)
      ensures forall id :: id in kinds <==> LastKind(entities, id).Some?
      ensures forall id :: id in kinds ==> kinds[id] == LastKind(entities, id).value
    {
      kinds := map[];
      var i := 0;
      while i < |entities|
        invariant i <= |entities|
        invariant forall id :: id in kinds <==> LastKind(entities[..i], id).Some?
        invariant forall id :: id in kinds ==> kinds[id] == LastKind(entities[..i], id).value
      {
        assert entities[..i + 1][..i] == entities[..i];
        if Keyed(entities[i]) {
          kinds := kinds[entities[i].id.value := entities[i].kind.value];
        }
        i := i + 1;
      }
      assert entities[..i] == entities;
    }

    method FilterEdges(relation: string, rule: Rule, onEdges: OnEdges) returns (filtered: seq<Edge>)
      modifies this`counts
      ensures filtered == Others(entities, relation, rule, edges)
      ensures onEdges.Drop? || |filtered| == |edges| ==> counts == Cut(old(Now()), relation, rule).counts
    {
      var kinds := BuildEntityKindMap();
      filtered := [];
      var i := 0;
      while i < |edges|
        invariant i <= |edges| && |filtered| <= i && filtered == Others(entities, relation, rule, edges[..i])
        invariant counts == old(counts).(edgesScanned := old(counts).edgesScanned + i,
                                         edgesDropped := old(counts).edgesDropped
                                                         + if onEdges.Drop? then i - |filtered| else 0)
      {
        var e := edges[i];
        assert edges[..i + 1][..i] == edges[..i];
        counts := counts.(edgesScanned := counts.edgesScanned + 1);
        var fits := EdgeFits(kinds, relation, rule, e);
        if fits {
          if onEdges.Drop? {
            counts := counts.(edgesDropped := counts.edgesDropped + 1);
          }
        } else {
          filtered := filtered + [e];
        }
        i := i + 1;
      }
      assert edges[..i] == edges;
    }

    method EdgeFits(kinds: map<string, string>, relation: string, rule: Rule, e: Edge) returns (fits: bool)
      requires forall id :: id in kinds <==> LastKind(entities, id).Some?
      requires forall id :: id in kinds ==> kinds[id] == LastKind(entities, id).value
      ensures fits <==> Fits(entities, relation, rule, e)
    {
      if e.Noise? || e.relation != Some(relation) {
        return false;
      }
      var sourceKind := if e.source in kinds then kinds[e.source] else "unknown";
      var targetKind := if e.target in kinds then kinds[e.target] else "unknown";
      var sourceFits := rule.sourceKind == "any" || sourceKind == rule.sourceKind;
      var targetFits := rule.targetKind == "any" || targetKind == rule.targetKind;
      return sourceFits && targetFits;
    }
  }
}
