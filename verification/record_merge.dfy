/**
 The record merge that `--on-conflict` feeds into an import: objects merged key by key, entity and edge records
 resolved by policy, and the candidate archive they make.
 */
module RecordMerge {
  import opened Wrappers
  import opened ImportOptions
  import opened TagLists
  import opened Lists

  /** A JSON value. Keys of an object are own properties; their order is not part of the value. */
  datatype Json =
    | Null
    | Bool(b: bool)
    | Number(text: string)
    | Text(text: string)
    | List(items: seq<Json>)
    | Object(fields: map<string, Json>)

  type Fields = map<string, Json>

  // ----- deep merge -------------------------------------------------------

  /** What the merge holds for key `k`, which one side at least has. */
  function MergedValue(base: Fields, incoming: Fields, k: string): Json
    requires k in base || k in incoming
    decreases Object(incoming), 0
  {
    if k !in incoming then base[k]
    else if k in base && base[k].Object? && incoming[k].Object? then Object(Merged(base[k].fields, incoming[k].fields))
    else incoming[k]
  }

  function Merged(base: Fields, incoming: Fields): Fields
    decreases Object(incoming), 1
  {
    map k | k in base.Keys + incoming.Keys :: MergedValue(base, incoming, k)
  }

  method DeepMergeObjects(base: Fields, incoming: Fields) returns (result: Fields)
    ensures result == Merged(base, incoming)
    decreases Object(incoming)
  {
    result := base;
    var left := incoming.Keys;
    while left != {}
      invariant left <= incoming.Keys && result.Keys == base.Keys + (incoming.Keys - left)
      invariant forall k :: k in result ==> result[k] == if k in left then base[k] else MergedValue(base, incoming, k)
      decreases left
    {
      var key :| key in left;
      var value := incoming[key];
      if value.Object? && key in result && result[key].Object? {
        var inner := DeepMergeObjects(result[key].fields, value.fields);
        result := result[key := Object(inner)];
      } else {
        result := result[key := value];
      }
      left := left - {key};
    }
  }

  /** Merging the same object again changes nothing, whatever the objects and however deep. */
  lemma {:induction false} MergeIdempotent(base: Fields, incoming: Fields)
    ensures Merged(Merged(base, incoming), incoming) == Merged(base, incoming)
    decreases Object(incoming)
  {
    var once := Merged(base, incoming);
    var twice := Merged(once, incoming);
    assert twice.Keys == once.Keys;
    forall k | k in once ensures twice[k] == once[k] {
      assert twice[k] == MergedValue(once, incoming, k) && once[k] == MergedValue(base, incoming, k);
      if k in incoming && once[k].Object? && incoming[k].Object? {
        if k in base && base[k].Object? {
          MergeIdempotent(base[k].fields, incoming[k].fields);
        } else {
          MergeSelf(incoming[k].fields);
        }
      }
    }
  }

  lemma {:induction false} MergeSelf(o: Fields)
    ensures Merged(o, o) == o
    decreases Object(o)
  {
    forall k | k in o ensures Merged(o, o)[k] == o[k] {
      if o[k].Object? {
        MergeSelf(o[k].fields);
      }
    }
  }

  // ----- what the merge means, path by path -------------------------------

  /** The value at a path of keys. */
  function At(o: Fields, path: seq<string>): Option<Json>
    requires path != []
    decreases |path|
  {
    if path[0] !in o then None
    else if |path| == 1 then Some(o[path[0]])
    else if o[path[0]].Object? then At(o[path[0]].fields, path[1..])
    else None
  }

  predicate Leaf(v: Json) {
    !v.Object?
  }

  /** `o` says nothing at `path`: no value there, and no leaf on the way that would cut it off. */
  predicate Silent(o: Fields, path: seq<string>)
    requires path != []
    decreases |path|
  {
    path[0] !in o || (|path| > 1 && o[path[0]].Object? && Silent(o[path[0]].fields, path[1..]))
  }

  /** The merge, leaf by leaf: a leaf of the result is a leaf of the incoming object, or a leaf of the base at a
      path about which the incoming object is silent. */
  lemma {:induction false} MergeByPath(base: Fields, incoming: Fields, path: seq<string>, v: Json)
    requires path != [] && Leaf(v)
    ensures At(Merged(base, incoming), path) == Some(v) <==>
            (At(incoming, path) == Some(v) || (At(base, path) == Some(v) && Silent(incoming, path)))
    decreases |path|
  {
    var k := path[0];
    if k in base && k in incoming && base[k].Object? && incoming[k].Object? && |path| > 1 {
      MergeByPath(base[k].fields, incoming[k].fields, path[1..], v);
    }
  }

  // ----- records ----------------------------------------------------------

  /** A record's id, the parts that a merge or the storing changes, and the other fields that are stored. Properties and
      tags that are null count as absent. */
  datatype Entity = Entity(id: string, rest: string, properties: Option<Fields>, tags: Option<seq<Tag>>,
                           updatedAt: Option<Json>)
  datatype EdgeRecord = EdgeRecord(edgeId: string, rest: string, properties: Option<Fields>, weight: Option<Json>)

  function OrEmpty(o: Option<Fields>): Fields {
    if o.Some? then o.value else map[]
  }

  function TagsOf(e: Entity): set<Tag> {
    Members(TagList(e))
  }

  function OrElse<T>(a: Option<T>, b: Option<T>): Option<T> {
    if a.Some? then a else b
  }

  /** The first value unless it is absent or null. */
  function Coalesce(a: Option<Json>, b: Option<Json>): Option<Json> {
    if Present(a) then a else b
  }

  predicate Present(a: Option<Json>) {
    a.Some? && a.value != Null
  }

  /** None keeps the existing record. */
  function MergeEntityConflict(existing: Entity, incoming: Entity, policy: Policy): Option<Entity> {
    match policy
    case Skip => None
    case Replace => Some(incoming)
    case _ => Some(Patched(existing, incoming))
  }

  function Patched(existing: Entity, incoming: Entity): Entity {
    existing.(properties := Some(Merged(OrEmpty(existing.properties), OrEmpty(incoming.properties))),
              tags := Some(Sorted(TagsOf(existing) + TagsOf(incoming))),
              updatedAt := Coalesce(incoming.updatedAt, existing.updatedAt))
  }

  function MergeEdgeConflict(existing: EdgeRecord, incoming: EdgeRecord, policy: Policy): Option<EdgeRecord> {
    match policy
    case Skip => None
    case Replace => Some(incoming)
    case _ => Some(PatchedEdge(existing, incoming))
  }

  function PatchedEdge(existing: EdgeRecord, incoming: EdgeRecord): EdgeRecord {
    existing.(properties := Some(Merged(OrEmpty(existing.properties), OrEmpty(incoming.properties))),
              weight := Coalesce(incoming.weight, existing.weight))
  }

  /** The properties of one record overlaid by another's, leaf by leaf. */
  ghost predicate Overlaid(result: Option<Fields>, below: Option<Fields>, above: Option<Fields>) {
    && result.Some?
    && forall path: seq<string>, v :: path != [] && Leaf(v) ==>
      (At(result.value, path) == Some(v) <==>
        (At(OrEmpty(above), path) == Some(v) || (At(OrEmpty(below), path) == Some(v) && Silent(OrEmpty(above), path))))
  }

  /** An update keeps the existing record's own fields, overlays the properties, joins the tags in order, and dates
      the record by the incoming one unless that has no date. */
  lemma PatchMeans(existing: Entity, incoming: Entity)
    ensures var p := Patched(existing, incoming);
            && p.id == existing.id && p.rest == existing.rest
            && Overlaid(p.properties, existing.properties, incoming.properties)
            && p.tags == Some(Sorted(TagsOf(existing) + TagsOf(incoming)))
            && p.updatedAt == if Present(incoming.updatedAt) then incoming.updatedAt else existing.updatedAt
  {
    OverlaidByMerge(existing.properties, incoming.properties);
  }

  lemma PatchEdgeMeans(existing: EdgeRecord, incoming: EdgeRecord)
    ensures var p := PatchedEdge(existing, incoming);
            && p.edgeId == existing.edgeId && p.rest == existing.rest
            && Overlaid(p.properties, existing.properties, incoming.properties)
            && p.weight == if Present(incoming.weight) then incoming.weight else existing.weight
  {
    OverlaidByMerge(existing.properties, incoming.properties);
  }

  lemma OverlaidByMerge(below: Option<Fields>, above: Option<Fields>)
    ensures Overlaid(Some(Merged(OrEmpty(below), OrEmpty(above))), below, above)
  {
    hide Merged, At, Silent;
    forall path: seq<string>, v | path != [] && Leaf(v)
      ensures At(Merged(OrEmpty(below), OrEmpty(above)), path) == Some(v) <==>
              (At(OrEmpty(above), path) == Some(v)
               || (At(OrEmpty(below), path) == Some(v) && Silent(OrEmpty(above), path)))
    {
      MergeByPath(OrEmpty(below), OrEmpty(above), path, v);
    }
  }

  /** Patching with the same record again changes nothing. */
  lemma PatchIdempotent(existing: Entity, incoming: Entity)
    ensures Patched(Patched(existing, incoming), incoming) == Patched(existing, incoming)
  {
    MergeIdempotent(OrEmpty(existing.properties), OrEmpty(incoming.properties));
    var all := TagsOf(existing) + TagsOf(incoming);
    SortOfSorted(all);
    assert all + TagsOf(incoming) == all;
  }

  lemma PatchEdgeIdempotent(existing: EdgeRecord, incoming: EdgeRecord)
    ensures PatchedEdge(PatchedEdge(existing, incoming), incoming) == PatchedEdge(existing, incoming)
  {
    MergeIdempotent(OrEmpty(existing.properties), OrEmpty(incoming.properties));
  }

  // ----- what is stored ---------------------------------------------------

  function TagList(e: Entity): seq<Tag> {
    if e.tags.Some? then e.tags.value else []
  }

  /** The record that reading back its stored line gives. */
  function Stored(e: Entity): Entity {
    e.(properties := Some(OrEmpty(e.properties)), tags := Some(SortTags(TagList(e))),
       updatedAt := if Present(e.updatedAt) then e.updatedAt else None)
  }

  function StoredEdge(e: EdgeRecord): EdgeRecord {
    e.(properties := Some(OrEmpty(e.properties)))
  }

  /** Storing again changes nothing, and neither does storing what an update made. */
  lemma StoredAgain(e: Entity)
    ensures Stored(Stored(e)) == Stored(e)
  {
    hide SortTags;
    SortAgain(TagList(e));
  }

  lemma StoredPatch(existing: Entity, incoming: Entity)
    ensures var once := Stored(Patched(existing, incoming));
            Stored(Patched(once, incoming)) == once
  {
    hide Merged, Sorted, SortTags, Members;
    var all := TagsOf(existing) + TagsOf(incoming);
    SortOfSorted(all);
    MergeIdempotent(OrEmpty(existing.properties), OrEmpty(incoming.properties));
    assert all + TagsOf(incoming) == all;
  }

  /** A stored record that is updated with the record it was stored from changes exactly when it repeats a tag. */
  lemma StoredSelf(e: Entity)
    ensures Stored(Patched(Stored(e), e)) == Stored(e) <==> NoRepeats(TagList(e))
  {
    hide Merged, Sorted, SortTags, Members;
    MergeSelf(OrEmpty(e.properties));
    SortIsSortedExactlyWhen(TagList(e));
    SortOfSorted(TagsOf(e));
    assert TagsOf(e) + TagsOf(e) == TagsOf(e);
  }

  lemma StoredEdgeSelf(e: EdgeRecord)
    ensures StoredEdge(PatchedEdge(StoredEdge(e), e)) == StoredEdge(e)
  {
    MergeSelf(OrEmpty(e.properties));
  }

  // ----- replacing and updating -------------------------------------------

  /** Wherever `below` has a value `above` has one too, inside nested objects as well. */
  predicate Covers(above: Fields, below: Fields)
    decreases Object(below)
  {
    forall k :: k in below ==>
      k in above && (below[k].Object? && above[k].Object? ==> Covers(above[k].fields, below[k].fields))
  }

  lemma {:induction false} MergedIsIncomingExactlyWhen(base: Fields, incoming: Fields)
    ensures Merged(base, incoming) == incoming <==> Covers(incoming, base)
    decreases Object(base)
  {
    forall k | k in base && k in incoming && base[k].Object? && incoming[k].Object?
      ensures Merged(base, incoming)[k] == incoming[k] <==> Covers(incoming[k].fields, base[k].fields)
    {
      MergedIsIncomingExactlyWhen(base[k].fields, incoming[k].fields);
    }
    if Covers(incoming, base) {
      assert Merged(base, incoming).Keys == incoming.Keys;
      forall k | k in incoming ensures Merged(base, incoming)[k] == incoming[k] {
      }
    } else {
      var k :| k in base && (k in incoming ==>
        base[k].Object? && incoming[k].Object? && !Covers(incoming[k].fields, base[k].fields));
      assert k in Merged(base, incoming);
    }
  }

  /** `replace` is documented as another name for `update`. The two store the same entity exactly when the incoming
      record has the existing one's other fields, covers its properties and its tags, repeats no tag and is dated
      unless neither is. */
  lemma ReplaceIsUpdateExactlyWhen(existing: Entity, incoming: Entity)
    requires existing.id == incoming.id
    ensures var replaced := EntityRules(Replace).Met(existing, incoming);
            var updated := EntityRules(Update).Met(existing, incoming);
            Stored(replaced) == Stored(updated) <==>
            && incoming.rest == existing.rest
            && Covers(OrEmpty(incoming.properties), OrEmpty(existing.properties))
            && TagsOf(existing) <= TagsOf(incoming) && NoRepeats(TagList(incoming))
            && (Present(incoming.updatedAt) || !Present(existing.updatedAt))
  {
    hide Merged, Covers, Sorted, SortTags, Members, NoRepeats;
    MergedIsIncomingExactlyWhen(OrEmpty(existing.properties), OrEmpty(incoming.properties));
    var all := TagsOf(existing) + TagsOf(incoming);
    SortOfSorted(all);
    SortIsSortedExactlyWhen(TagList(incoming));
    assert TagsOf(existing) <= TagsOf(incoming) <==> all == TagsOf(incoming);
  }

  /** The same for edges, whose weight takes the place of tags and date. */
  lemma ReplaceEdgeIsUpdateExactlyWhen(existing: EdgeRecord, incoming: EdgeRecord)
    requires existing.edgeId == incoming.edgeId
    ensures var replaced := EdgeRules(Replace).Met(existing, incoming);
            var updated := EdgeRules(Update).Met(existing, incoming);
            StoredEdge(replaced) == StoredEdge(updated) <==>
            && incoming.rest == existing.rest
            && Covers(OrEmpty(incoming.properties), OrEmpty(existing.properties))
            && (Present(incoming.weight) || incoming.weight == existing.weight)
  {
    hide Merged, Covers;
    MergedIsIncomingExactlyWhen(OrEmpty(existing.properties), OrEmpty(incoming.properties));
  }

  // ----- archives ---------------------------------------------------------

  /** How one kind of record is told apart and resolved when its id is met again; None keeps what is there. */
  datatype Rules<!T> = Rules(id: T -> string, resolve: (T, T) -> Option<T>) {
    function Met(existing: T, incoming: T): T {
      OrElse(resolve(existing, incoming), Some(existing)).value
    }
  }

  function EntityRules(policy: Policy): Rules<Entity> {
    Rules((e: Entity) => e.id, (a: Entity, b: Entity) => MergeEntityConflict(a, b, policy))
  }

  function EdgeRules(policy: Policy): Rules<EdgeRecord> {
    Rules((e: EdgeRecord) => e.edgeId, (a: EdgeRecord, b: EdgeRecord) => MergeEdgeConflict(a, b, policy))
  }

  /** The records by id after the incoming ones have been met in order. A JavaScript Map also keeps the order of
      insertion, which the later sort of the candidate discards. */
  function AddAll<T>(rules: Rules<T>, existing: map<string, T>, incoming: seq<T>): map<string, T> {
    if incoming == [] then existing
    else
      var before, e := AddAll(rules, existing, incoming[..|incoming| - 1]), incoming[|incoming| - 1];
      var id := rules.id(e);
      before[id := if id in before then rules.Met(before[id], e) else e]
  }

  method BuildRecords<T>(rules: Rules<T>, existing: map<string, T>, incoming: seq<T>) returns (records: map<string, T>)
    ensures records == AddAll(rules, existing, incoming)
  {
    records := existing;
    for n := 0 to |incoming|
      invariant records == AddAll(rules, existing, incoming[..n])
    {
      var e := incoming[n];
      assert incoming[..n + 1][..n] == incoming[..n];
      if rules.id(e) !in records {
        records := records[rules.id(e) := e];
      } else {
        var resolved := rules.resolve(records[rules.id(e)], e);
        if resolved.Some? {
          records := records[rules.id(e) := resolved.value];
        } else {
          assert records[rules.id(e) := records[rules.id(e)]] == records;
        }
      }
    }
    assert incoming[..|incoming|] == incoming;
  }

  method BuildCandidateArchive(entities: map<string, Entity>, edges: map<string, EdgeRecord>, newEntities: seq<Entity>,
                               newEdges: seq<EdgeRecord>, policy: Policy)
    returns (candidateEntities: map<string, Entity>, candidateEdges: map<string, EdgeRecord>)
    ensures candidateEntities == AddAll(EntityRules(policy), entities, newEntities)
    ensures candidateEdges == AddAll(EdgeRules(policy), edges, newEdges)
  {
    candidateEntities := BuildRecords(EntityRules(policy), entities, newEntities);
    candidateEdges := BuildRecords(EdgeRules(policy), edges, newEdges);
  }

  ghost predicate DistinctIds<T>(rules: Rules<T>, incoming: seq<T>) {
    forall i, j :: 0 <= i < j < |incoming| ==> rules.id(incoming[i]) != rules.id(incoming[j])
  }

  /** Under every policy the ids of the candidate are the union of both sides' ids. */
  lemma {:induction false} IdsAreUnion<T>(rules: Rules<T>, existing: map<string, T>, incoming: seq<T>)
    ensures AddAll(rules, existing, incoming).Keys
         == existing.Keys + set i | 0 <= i < |incoming| :: rules.id(incoming[i])
    decreases |incoming|
  {
    if incoming != [] {
      var n := |incoming| - 1;
      IdsAreUnion(rules, existing, incoming[..n]);
      assert forall i :: 0 <= i < n ==> incoming[..n][i] == incoming[i];
      var before := set i | 0 <= i < n :: rules.id(incoming[..n][i]);
      var after := set i | 0 <= i < |incoming| :: rules.id(incoming[i]);
      assert forall id :: id in after ==> id in before || id == rules.id(incoming[n]);
      forall id | id in before ensures id in after {
        var i :| 0 <= i < n && rules.id(incoming[..n][i]) == id;
        assert rules.id(incoming[i]) == id;
      }
      assert after == before + {rules.id(incoming[n])};
    }
  }

  /** A record that no incoming record names is left as it is. */
  lemma {:induction false} Unnamed<T>(rules: Rules<T>, existing: map<string, T>, incoming: seq<T>, id: string)
    requires forall i :: 0 <= i < |incoming| ==> rules.id(incoming[i]) != id
    ensures id in AddAll(rules, existing, incoming) <==> id in existing
    ensures id in existing ==> AddAll(rules, existing, incoming)[id] == existing[id]
    decreases |incoming|
  {
    if incoming != [] {
      Unnamed(rules, existing, incoming[..|incoming| - 1], id);
    }
  }

  /** With distinct ids an incoming record meets the existing record of its id, or nothing. */
  lemma {:induction false} MetOnce<T>(rules: Rules<T>, existing: map<string, T>, incoming: seq<T>, i: int)
    requires DistinctIds(rules, incoming) && 0 <= i < |incoming|
    ensures var e, all := incoming[i], AddAll(rules, existing, incoming);
            var id := rules.id(e);
            id in all && all[id] == if id in existing then rules.Met(existing[id], e) else e
    decreases |incoming|
  {
    var n := |incoming| - 1;
    if i < n {
      MetOnce(rules, existing, incoming[..n], i);
    } else {
      Unnamed(rules, existing, incoming[..n], rules.id(incoming[n]));
    }
  }

  // ----- importing twice --------------------------------------------------

  /** The records that an import stores. */
  function Published<T>(rules: Rules<T>, store: T -> T, existing: map<string, T>, incoming: seq<T>): map<string, T> {
    var all := AddAll(rules, existing, incoming);
    map id | id in all :: store(all[id])
  }

  /** Storing what is stored, and storing what a stored record becomes when it meets the same record again, change
      nothing. */
  ghost predicate Settles<T(!new)>(rules: Rules<T>, store: T -> T) {
    && (forall a :: store(store(a)) == store(a))
    && forall a, b :: store(rules.Met(store(rules.Met(a, b)), b)) == store(rules.Met(a, b))
  }

  lemma PublishedAt<T>(rules: Rules<T>, store: T -> T, existing: map<string, T>, incoming: seq<T>, i: int)
    requires DistinctIds(rules, incoming) && 0 <= i < |incoming|
    ensures var e, id := incoming[i], rules.id(incoming[i]);
            var all := Published(rules, store, existing, incoming);
            id in all && all[id] == store(if id in existing then rules.Met(existing[id], e) else e)
  {
    MetOnce(rules, existing, incoming, i);
  }

  /** Publishing twice is publishing once, exactly when every new record, once stored, withstands meeting itself. */
  lemma TwiceIsOnceExactlyWhen<T(!new)>(rules: Rules<T>, store: T -> T, existing: map<string, T>, incoming: seq<T>)
    requires DistinctIds(rules, incoming) && Settles(rules, store)
    ensures var once := Published(rules, store, existing, incoming);
            (Published(rules, store, once, incoming) == once <==>
              forall i :: 0 <= i < |incoming| && rules.id(incoming[i]) !in existing ==>
                store(rules.Met(store(incoming[i]), incoming[i])) == store(incoming[i]))
  {
    var once := Published(rules, store, existing, incoming);
    var twice := Published(rules, store, once, incoming);
    IdsAreUnion(rules, existing, incoming);
    IdsAreUnion(rules, once, incoming);
    forall i | 0 <= i < |incoming|
      ensures var e, id := incoming[i], rules.id(incoming[i]);
              id in once && id in twice
              && (twice[id] == once[id] <==> (id in existing || store(rules.Met(store(e), e)) == store(e)))
    {
      PublishedAt(rules, store, existing, incoming, i);
      PublishedAt(rules, store, once, incoming, i);
    }
    forall id | id in once && forall i :: 0 <= i < |incoming| ==> rules.id(incoming[i]) != id
      ensures twice[id] == once[id]
    {
      Unnamed(rules, existing, incoming, id);
      Unnamed(rules, once, incoming, id);
    }
    assert twice.Keys == once.Keys;
  }

  lemma EntitiesSettle(policy: Policy)
    ensures Settles(EntityRules(policy), Stored)
  {
    var rules := EntityRules(policy);
    forall a ensures Stored(Stored(a)) == Stored(a) {
      StoredAgain(a);
    }
    forall a, b ensures Stored(rules.Met(Stored(rules.Met(a, b)), b)) == Stored(rules.Met(a, b)) {
      StoredPatch(a, b);
    }
  }

  lemma EdgesSettle(policy: Policy)
    ensures Settles(EdgeRules(policy), StoredEdge)
  {
    var rules := EdgeRules(policy);
    forall a, b ensures StoredEdge(rules.Met(StoredEdge(rules.Met(a, b)), b)) == StoredEdge(rules.Met(a, b)) {
      PatchEdgeIdempotent(a, b);
    }
  }

  predicate Updates(policy: Policy) {
    policy != Skip && policy != Replace
  }

  /** The stored record does not change when it meets the record it was stored from. */
  predicate Withstands(policy: Policy, e: Entity) {
    Stored(EntityRules(policy).Met(Stored(e), e)) == Stored(e)
  }

  lemma WithstandsExactlyWhen(policy: Policy, e: Entity)
    ensures Withstands(policy, e) <==> (Updates(policy) ==> NoRepeats(TagList(e)))
  {
    hide Patched, Stored;
    StoredSelf(e);
    StoredAgain(e);
  }

  /** Entities: only an update of a new record with repeated tags tells the second import from the first. */
  lemma EntitiesTwice(existing: map<string, Entity>, incoming: seq<Entity>, policy: Policy)
    requires DistinctIds(EntityRules(policy), incoming)
    ensures var rules := EntityRules(policy);
            var once := Published(rules, Stored, existing, incoming);
            (Published(rules, Stored, once, incoming) == once <==>
              (Updates(policy) ==>
                 forall i :: 0 <= i < |incoming| && incoming[i].id !in existing ==> NoRepeats(TagList(incoming[i]))))
  {
    hide Stored, AddAll, Settles, NoRepeats;
    var rules := EntityRules(policy);
    EntitiesSettle(policy);
    forall e ensures Withstands(policy, e) <==> (Updates(policy) ==> NoRepeats(TagList(e))) {
      WithstandsExactlyWhen(policy, e);
    }
    TwiceIsOnceExactlyWhen(rules, Stored, existing, incoming);
  }

  /** Edges: the second import never differs from the first. */
  lemma EdgesTwice(existing: map<string, EdgeRecord>, incoming: seq<EdgeRecord>, policy: Policy)
    requires DistinctIds(EdgeRules(policy), incoming)
    ensures var rules := EdgeRules(policy);
            var once := Published(rules, StoredEdge, existing, incoming);
            Published(rules, StoredEdge, once, incoming) == once
  {
    var rules := EdgeRules(policy);
    EdgesSettle(policy);
    forall e ensures StoredEdge(rules.Met(StoredEdge(e), e)) == StoredEdge(e) {
      StoredEdgeSelf(e);
    }
    TwiceIsOnceExactlyWhen(rules, StoredEdge, existing, incoming);
  }

  /** The input that fails: a new record that carries a tag twice is stored with both, and the update drops one. */
  lemma RepeatedTagIsDropped(id: string, rest: string, t: Tag)
    ensures var e := Entity(id, rest, None, Some([t, t]), None);
            var rules := EntityRules(Update);
            var once := Published(rules, Stored, map[], [e]);
            && once == map[id := Entity(id, rest, Some(map[]), Some([t, t]), None)]
            && Published(rules, Stored, once, [e]) == map[id := Entity(id, rest, Some(map[]), Some([t]), None)]
  {
    hide AddAll, Merged, Sorted, SortTags, Members;
    var e := Entity(id, rest, None, Some([t, t]), None);
    var rules := EntityRules(Update);
    TwoTags(t);
    AddOne(rules, map[], e);
    var once := Published(rules, Stored, map[], [e]);
    AddOne(rules, once, e);
    assert {t} + {t} == {t};
    MergeSelf(map[]);
  }

  lemma TwoTags(t: Tag)
    ensures Members([t, t]) == {t} && SortTags([t, t]) == [t, t] && Sorted({t}) == [t] && SortTags([t]) == [t]
  {
    TagsSorted([t, t]);
    AscendingIsUnique(SortTags([t, t]), [t, t]);
    TagsSorted([t]);
    AscendingIsUnique(SortTags([t]), [t]);
    assert Members([t]) == {t};
    SortIsSortedExactlyWhen([t]);
  }

  lemma AddOne<T>(rules: Rules<T>, existing: map<string, T>, e: T)
    ensures var id := rules.id(e);
            AddAll(rules, existing, [e]) == existing[id := if id in existing then rules.Met(existing[id], e) else e]
  {
    assert [e][..0] == [];
  }

  predicate StaysAsRead<T(==)>(rules: Rules<T>, existing: map<string, T>, incoming: seq<T>, id: string)
    requires id in existing
  {
    var all := AddAll(rules, existing, incoming);
    id in all && all[id] == existing[id]
  }

  /** Records that no conflict resolves stay, whatever the archive holds. */
  lemma {:induction false} UnresolvedStay<T(!new)>(rules: Rules<T>, existing: map<string, T>, incoming: seq<T>,
                                                   id: string)
    requires id in existing && forall a, b :: rules.resolve(a, b).None?
    ensures StaysAsRead(rules, existing, incoming, id)
    decreases |incoming|
  {
    if incoming != [] {
      UnresolvedStay(rules, existing, incoming[..|incoming| - 1], id);
    }
  }

  /** Under skip every existing entity and every existing edge stays as it was read, whatever the archive holds. */
  lemma SkipKeepsExisting(existing: Archive, entities: seq<Entity>, edges: seq<EdgeRecord>)
    ensures var e := AddAll(EntityRules(Skip), existing.entities, entities);
            var d := AddAll(EdgeRules(Skip), existing.edges, edges);
            && (forall id :: id in existing.entities ==> id in e && e[id] == existing.entities[id])
            && (forall id :: id in existing.edges ==> id in d && d[id] == existing.edges[id])
  {
    forall id | id in existing.entities ensures StaysAsRead(EntityRules(Skip), existing.entities, entities, id) {
      UnresolvedStay(EntityRules(Skip), existing.entities, entities, id);
    }
    forall id | id in existing.edges ensures StaysAsRead(EdgeRules(Skip), existing.edges, edges, id) {
      UnresolvedStay(EdgeRules(Skip), existing.edges, edges, id);
    }
  }

  // ----- the whole import -------------------------------------------------

  datatype Archive = Archive(entities: map<string, Entity>, edges: map<string, EdgeRecord>)

  const NO_RECORDS := Archive(map[], map[])

  /** The records of an archive by id. */
  function ById(entities: seq<Entity>, edges: seq<EdgeRecord>): Archive {
    Archive(AddAll(EntityRules(Replace), map[], entities), AddAll(EdgeRules(Replace), map[], edges))
  }

  /** The records that an import would publish. */
  function Candidate(options: Options, existing: Archive, entities: seq<Entity>, edges: seq<EdgeRecord>): Archive {
    if options.Merges() && existing != NO_RECORDS then
      Archive(AddAll(EntityRules(options.onConflict.value), existing.entities, entities),
              AddAll(EdgeRules(options.onConflict.value), existing.edges, edges))
    else ById(entities, edges)
  }

  lemma {:induction false} AddAllAlike<T>(a: Rules<T>, b: Rules<T>, existing: map<string, T>, incoming: seq<T>)
    requires (forall x :: a.id(x) == b.id(x)) && forall x, y :: a.Met(x, y) == b.Met(x, y)
    ensures AddAll(a, existing, incoming) == AddAll(b, existing, incoming)
    decreases |incoming|
  {
    if incoming != [] {
      AddAllAlike(a, b, existing, incoming[..|incoming| - 1]);
      var e := incoming[|incoming| - 1];
      var id, before := a.id(e), AddAll(a, existing, incoming[..|incoming| - 1]);
      assert b.id(e) == id && (id in before ==> a.Met(before[id], e) == b.Met(before[id], e));
    }
  }

  /** The policies `merge` and `update` make the same candidate of the same records. */
  lemma MergeIsUpdate(overwrite: bool, existing: Archive, entities: seq<Entity>, edges: seq<EdgeRecord>)
    ensures Candidate(Options(overwrite, Some(Policy.Merge)), existing, entities, edges)
            == Candidate(Options(overwrite, Some(Policy.Update)), existing, entities, edges)
  {
    hide AddAll, Patched, PatchedEdge;
    AddAllAlike(EntityRules(Policy.Merge), EntityRules(Policy.Update), existing.entities, entities);
    AddAllAlike(EdgeRules(Policy.Merge), EdgeRules(Policy.Update), existing.edges, edges);
  }

  method ChooseCandidate(options: Options, existing: Archive, entities: seq<Entity>, edges: seq<EdgeRecord>)
    returns (candidate: Archive)
    ensures candidate == Candidate(options, existing, entities, edges)
  {
    var incomingEntities := BuildRecords(EntityRules(Replace), map[], entities);
    var incomingEdges := BuildRecords(EdgeRules(Replace), map[], edges);
    candidate := Archive(incomingEntities, incomingEdges);
    if options.onConflict.Some? && options.onConflict.value != Error && !options.overwrite {
      if existing.entities != map[] || existing.edges != map[] {
        var e, d := BuildCandidateArchive(existing.entities, existing.edges, entities, edges, options.onConflict.value);
        candidate := Archive(e, d);
      }
    }
  }

  function StoredArchive(a: Archive): Archive {
    Archive(map id | id in a.entities :: Stored(a.entities[id]), map id | id in a.edges :: StoredEdge(a.edges[id]))
  }

  function Existing(live: Option<Archive>): Archive {
    if live.Some? then live.value else NO_RECORDS
  }

  /** What the live files hold after an import that nothing else stops; None is no live file. */
  function ImportInto(options: Options, live: Option<Archive>, entities: seq<Entity>, edges: seq<EdgeRecord>)
    : Option<Archive>
  {
    if live.Some? && options.Guarded() then live
    else Some(StoredArchive(Candidate(options, Existing(live), entities, edges)))
  }

  lemma {:induction false} FreshIds<T>(rules: Rules<T>, other: Rules<T>, incoming: seq<T>)
    requires DistinctIds(rules, incoming) && forall e :: e in incoming ==> rules.id(e) == other.id(e)
    ensures AddAll(rules, map[], incoming) == AddAll(other, map[], incoming)
    decreases |incoming|
  {
    if incoming != [] {
      var n := |incoming| - 1;
      FreshIds(rules, other, incoming[..n]);
      Unnamed(rules, map[], incoming[..n], rules.id(incoming[n]));
    }
  }

  /** Importing the same archive again with the same options leaves the files as they are, unless the import updates:
      then exactly when no entity that was new repeats a tag. Edges are always left as they are. */
  lemma ImportTwice(options: Options, live: Option<Archive>, entities: seq<Entity>, edges: seq<EdgeRecord>)
    requires DistinctIds(EntityRules(Replace), entities) && DistinctIds(EdgeRules(Replace), edges)
    ensures var once := ImportInto(options, live, entities, edges);
            var twice := ImportInto(options, once, entities, edges);
            && once.Some? && twice.Some? && twice.value.edges == once.value.edges
            && (twice == once <==>
                (options.Merges() && Updates(options.onConflict.value) ==>
                  forall i :: 0 <= i < |entities| && entities[i].id !in Existing(live).entities ==>
                      NoRepeats(TagList(entities[i]))))
  {
    if options.Merges() {
      var policy, existing := options.onConflict.value, Existing(live);
      assert DistinctIds(EntityRules(policy), entities) && DistinctIds(EdgeRules(policy), edges);
      MergesStored(options, existing, entities, edges);
      var once := ImportInto(options, live, entities, edges).value;
      MergesStored(options, once, entities, edges);
      EntitiesTwice(existing.entities, entities, policy);
      EdgesTwice(existing.edges, edges, policy);
    }
  }

  lemma MergesStored(options: Options, existing: Archive, entities: seq<Entity>, edges: seq<EdgeRecord>)
    requires options.Merges()
    requires DistinctIds(EntityRules(Replace), entities) && DistinctIds(EdgeRules(Replace), edges)
    ensures var policy := options.onConflict.value;
            StoredArchive(Candidate(options, existing, entities, edges))
              == Archive(Published(EntityRules(policy), Stored, existing.entities, entities),
                         Published(EdgeRules(policy), StoredEdge, existing.edges, edges))
  {
    hide AddAll, Stored, StoredEdge;
    var policy := options.onConflict.value;
    if existing == NO_RECORDS {
      FreshIds(EntityRules(Replace), EntityRules(policy), entities);
      FreshIds(EdgeRules(Replace), EdgeRules(policy), edges);
    }
  }
}
