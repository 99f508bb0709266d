/** What adding to a schema adds, what it leaves, and that removing takes it back. */
module SchemaAdditions {
  import opened Wrappers
  import opened SchemaOperations

  function Kinds(s: Schema): seq<string> {
    if s.kinds.Some? then s.kinds.value else []
  }

  /** Only the schema changed, and in it only the kinds, the properties or the rules. */
  predicate OnlyKinds(s: Schema, t: Schema) {
    t.version == s.version && t.properties == s.properties && t.rules == s.rules
  }

  predicate OnlyProperties(s: Schema, t: Schema) {
    t.version == s.version && t.kinds == s.kinds && t.rules == s.rules
  }

  predicate OnlyRules(s: Schema, t: Schema) {
    t.version == s.version && t.kinds == s.kinds && t.properties == s.properties
  }

  /** The state but for its schema and the number of entities looked at. */
  predicate SameLines(s: State, t: State) {
    && t.entities == s.entities && t.edges == s.edges
    && t.counts == s.counts.(entitiesScanned := t.counts.entitiesScanned)
  }

  // ----- kinds ------------------------------------------------------------

  /** A new kind is put last, a known one is not added again, and nothing else changes; a second time changes
      nothing, and removing a new kind that no property is declared for takes it back. */
  lemma AddKindExactly(s: State, name: string)
    requires KindName(name)
    ensures Applied(s, AddKind(name)).Ok?
    ensures var t := Applied(s, AddKind(name)).value;
            && t == s.(schema := t.schema) && OnlyKinds(s.schema, t.schema)
            && Kinds(t.schema) == Kinds(s.schema) + (if name in Kinds(s.schema) then [] else [name])
            && t.schema.kinds.Some? && Applied(t, AddKind(name)) == Ok(t)
    ensures var t := KindAdded(s.schema, name);
            name !in Kinds(s.schema) && name !in Table(s.schema.properties)
            ==> Kinds(KindRemoved(t, name)) == Kinds(s.schema) && OnlyKinds(s.schema, KindRemoved(t, name))
  {
    var kinds := Kinds(s.schema);
    if name in kinds {
      assert kinds + [] == kinds;
    } else {
      WithoutLast(kinds, name);
      if s.schema.properties.Some? && name !in s.schema.properties.value {
        assert s.schema.properties.value - {name} == s.schema.properties.value;
      }
    }
  }

  lemma {:induction false} WithoutLast<T(!new)>(s: seq<T>, x: T)
    requires x !in s
    ensures Without(s + [x], x) == s
  {
    if s == [] {
      assert [x][1..] == [];
    } else {
      WithoutLast(s[1..], x);
      assert (s + [x])[1..] == s[1..] + [x];
    }
  }

  // ----- properties -------------------------------------------------------

  predicate Names(declared: seq<Property>, name: string) {
    exists i :: 0 <= i < |declared| && declared[i].name == name
  }

  /** A kind's new property is put last, one whose name is declared is not added again, and nothing else changes; a
      second time changes nothing. */
  lemma PropertyAddedExactly(s: Schema, kind: string, prop: Property)
    ensures var t := PropertyAdded(s, kind, prop);
            && OnlyProperties(s, t)
            && (forall k :: k != kind ==> Listed(t.properties, k) == Listed(s.properties, k))
            && Listed(t.properties, kind) == Listed(s.properties, kind)
                                             + (if Names(Listed(s.properties, kind), prop.name) then [] else [prop])
            && PropertyAdded(t, kind, prop) == t
  {
    var declared := Listed(s.properties, kind);
    var t := PropertyAdded(s, kind, prop);
    NamesExactly(declared, prop.name);
    if Names(declared, prop.name) {
      assert declared + [] == declared;
      NamesExactly(declared, prop.name);
    } else {
      assert (declared + [prop])[|declared|] == prop;
    }
    assert exists p :: p in t.properties.value[kind] && p.name == prop.name;
    assert t.properties.value[kind := t.properties.value[kind]] == t.properties.value;
  }

  lemma NamesExactly(declared: seq<Property>, name: string)
    ensures Names(declared, name) <==> exists p :: p in declared && p.name == name
  {
    if p :| p in declared && p.name == name {
      var i :| 0 <= i < |declared| && declared[i] == p;
    }
  }

  /** Removing a new property takes it back. */
  lemma PropertyTakenBack(s: Schema, kind: string, prop: Property)
    requires !Names(Listed(s.properties, kind), prop.name)
    ensures var back := PropertyRemoved(PropertyAdded(s, kind, prop), kind, prop.name);
            OnlyProperties(s, back) && forall k :: Listed(back.properties, k) == Listed(s.properties, k)
  {
    var declared := Listed(s.properties, kind);
    NamesExactly(declared, prop.name);
    WithoutNamedLast(declared, prop);
    hide WithoutNamed, Names;
    assert PropertyAdded(s, kind, prop).properties.value[kind] == declared + [prop];
  }

  lemma {:induction false} WithoutNamedLast(s: seq<Property>, p: Property)
    requires !Names(s, p.name)
    ensures WithoutNamed(s + [p], p.name) == s
  {
    if s == [] {
      assert [p][1..] == [];
    } else {
      assert s[0].name != p.name;
      NamesTail(s, p.name);
      WithoutNamedLast(s[1..], p);
      assert (s + [p])[1..] == s[1..] + [p];
    }
  }

  lemma NamesTail(s: seq<Property>, name: string)
    requires s != [] && !Names(s, name)
    ensures !Names(s[1..], name)
  {
    forall i | 0 <= i < |s| - 1 ensures s[1..][i].name != name {
      assert s[1..][i] == s[i + 1];
    }
  }

  /** The operation adds the property and leaves all lines alone, unless it is required and some record of the kind is
      known not to have it. */
  lemma AddPropertyExactly(s: State, kind: string, prop: Property)
    ensures match Applied(s, AddProperty(kind, prop))
            case Err(_) => prop.required == Some(true) && exists e :: e in s.entities && Lacks(kind, prop.name, e)
            case Ok(t) => && SameLines(s, t) && t.schema == PropertyAdded(s.schema, kind, prop)
                          && (prop.required == Some(true)
                              ==> forall e :: e in s.entities ==> !Lacks(kind, prop.name, e))
  {
    hide PropertyAdded, Lacks;
  }

  // ----- endpoint rules ---------------------------------------------------

  lemma AddEndpointExactly(s: State, relation: string, rule: Rule)
    requires relation in CANONICAL_RELATIONS
    ensures Applied(s, AddEndpoint(relation, rule)).Ok?
    ensures var t := Applied(s, AddEndpoint(relation, rule)).value;
            t == s.(schema := t.schema) && t.schema == RuleAdded(s.schema, relation, rule)
  {
    hide RuleAdded;
  }

  /** A relation's new rule is put last, a known one is not added again, and nothing else changes; a second time changes
      nothing. */
  lemma RuleAddedExactly(s: Schema, relation: string, rule: Rule)
    ensures var t := RuleAdded(s, relation, rule);
            && OnlyRules(s, t)
            && (forall r :: r != relation ==> Listed(t.rules, r) == Listed(s.rules, r))
            && Listed(t.rules, relation) == Listed(s.rules, relation)
                                            + (if rule in Listed(s.rules, relation) then [] else [rule])
            && RuleAdded(t, relation, rule) == t
  {
    var declared := Listed(s.rules, relation);
    var t := RuleAdded(s, relation, rule);
    if rule in declared {
      assert declared + [] == declared;
    } else {
      assert (declared + [rule])[|declared|] == rule;
    }
    assert t.rules.value[relation := t.rules.value[relation]] == t.rules.value;
  }

  /** Removing a new rule takes it back. */
  lemma RuleTakenBack(s: Schema, relation: string, rule: Rule)
    requires rule !in Listed(s.rules, relation)
    ensures var back := RuleRemoved(RuleAdded(s, relation, rule), relation, rule);
            OnlyRules(s, back) && forall r :: Listed(back.rules, r) == Listed(s.rules, r)
  {
    var declared, t := Listed(s.rules, relation), RuleAdded(s, relation, rule);
    WithoutLast(declared, rule);
    hide Without;
    var m := t.rules.value;
    assert m[relation] == declared + [rule];
    var rest := if declared == [] then m - {relation} else m[relation := declared];
    assert RuleRemoved(t, relation, rule) == t.(rules := if rest == map[] then None else Some(rest));
    forall r ensures (if r in rest then rest[r] else []) == Listed(s.rules, r) {
    }
    if rest == map[] {
      assert forall r :: r !in rest;
    }
  }

  // ----- kinds of ids -----------------------------------------------------

  /** Record `i` gives the id its kind: both are there and not empty, and no later record does. */
  predicate GivesKind(entities: seq<Entity>, id: string, i: int) {
    && 0 <= i < |entities| && NamesKind(entities[i], id)
    && forall j :: i < j < |entities| ==> !NamesKind(entities[j], id)
  }

  predicate NamesKind(e: Entity, id: string) {
    e.Entity? && id != "" && e.id == Some(id) && e.kind.Some? && e.kind.value != ""
  }

  lemma {:induction false} KindOfExactly(entities: seq<Entity>, id: string, i: int)
    ensures GivesKind(entities, id, i) ==> Some(KindOf(entities, id)) == entities[i].kind
    ensures (forall j :: 0 <= j < |entities| ==> !NamesKind(entities[j], id)) ==> KindOf(entities, id) == "unknown"
    decreases |entities|
  {
    if entities != [] {
      KindOfExactly(entities[..|entities| - 1], id, i);
    }
  }

  /** The end of an edge fits the kind of a rule: by the last record that gives it a kind, or as one of no known
      kind. */
  ghost predicate EndFits(entities: seq<Entity>, id: string, kind: string) {
    || kind == "any"
    || (exists i :: GivesKind(entities, id, i) && entities[i].kind == Some(kind))
    || (kind == "unknown" && forall i :: 0 <= i < |entities| ==> !NamesKind(entities[i], id))
  }

  ghost predicate Concerned(entities: seq<Entity>, relation: string, rule: Rule, e: Edge) {
    && e.Edge? && e.relation == Some(relation)
    && EndFits(entities, e.source, rule.sourceKind) && EndFits(entities, e.target, rule.targetKind)
  }

  lemma {:induction false} KindIsGiven(entities: seq<Entity>, id: string) returns (i: int)
    ensures GivesKind(entities, id, i) || forall j :: 0 <= j < |entities| ==> !NamesKind(entities[j], id)
    decreases |entities|
  {
    i := |entities| - 1;
    if entities != [] && !NamesKind(entities[i], id) {
      i := KindIsGiven(entities[..|entities| - 1], id);
    }
  }

  lemma EndFitsExactly(entities: seq<Entity>, id: string, kind: string)
    ensures kind == "any" || KindOf(entities, id) == kind <==> EndFits(entities, id, kind)
  {
    hide KindOf, NamesKind;
    var i := KindIsGiven(entities, id);
    KindOfExactly(entities, id, i);
    if j :| GivesKind(entities, id, j) {
      KindOfExactly(entities, id, j);
      assert GivesKind(entities, id, i);
    }
  }

  /** Removing a rule drops exactly the edges that it concerns. */
  lemma RemoveEndpointDrops(s: State, relation: string, rule: Rule, e: Edge)
    requires relation in CANONICAL_RELATIONS
    ensures Applied(s, RemoveEndpoint(relation, rule, Drop)).Ok?
    ensures e in Applied(s, RemoveEndpoint(relation, rule, Drop)).value.edges
            <==> e in s.edges && !Concerned(s.entities, relation, rule, e)
  {
    hide Fits, RuleRemoved, Concerned;
    OthersExactly(s.entities, relation, rule, s.edges, e);
    FitsExactly(s.entities, relation, rule, e);
  }

  lemma FitsExactly(entities: seq<Entity>, relation: string, rule: Rule, e: Edge)
    ensures Fits(entities, relation, rule, e) <==> Concerned(entities, relation, rule, e)
  {
    hide EndFits, KindOf;
    if e.Edge? {
      EndFitsExactly(entities, e.source, rule.sourceKind);
      EndFitsExactly(entities, e.target, rule.targetKind);
    }
  }

  lemma {:induction false} OthersExactly(entities: seq<Entity>, relation: string, rule: Rule, edges: seq<Edge>, e: Edge)
    ensures e in Others(entities, relation, rule, edges) <==> e in edges && !Fits(entities, relation, rule, e)
    decreases |edges|
  {
    hide Fits;
    if edges != [] {
      OthersExactly(entities, relation, rule, edges[..|edges| - 1], e);
      assert edges == edges[..|edges| - 1] + [edges[|edges| - 1]];
    }
  }
}
