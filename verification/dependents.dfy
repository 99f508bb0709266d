/**
 The closure of changed crates under direct project dependents, asked for chunk by chunk and layer by layer.
 */
module Dependents {
  import opened Wrappers
  import opened Reachability

  type Id = string

  datatype Node = Node(id: Id, kind: string)
  datatype Edge = Edge(source: Id, target: Id)

  /** One `code.deps` reply of depth 1. `Malformed` stands for every reply of the wrong JSON shape. */
  datatype Reply = Malformed | Reply(truncated: bool, map_: string, root: Id, nodes: seq<Node>, edges: seq<Edge>)

  const MAP_NAME := "workspace"
  const PROJECT := "project"

  predicate KnownKind(kind: string) {
    kind in ["project", "module", "function", "datatype", "interface"]
  }

  /** The kind that the nodes give `id`, if it is one of them. */
  function KindOf(nodes: seq<Node>, id: Id): Option<string> {
    if nodes == [] then None
    else if nodes[|nodes| - 1].id == id then Some(nodes[|nodes| - 1].kind)
    else KindOf(nodes[..|nodes| - 1], id)
  }

  /** The sources of the edges into `id` that come from projects. */
  function ProjectsInto(nodes: seq<Node>, edges: seq<Edge>, id: Id): set<Id> {
    set e | e in edges && e.target == id && KindOf(nodes, e.source) == Some(PROJECT) :: e.source
  }

  /** The projects that the reply says depend directly on `id`. */
  function Projects(reply: Reply, id: Id): set<Id> {
    if reply.Malformed? then {} else ProjectsInto(reply.nodes, reply.edges, id)
  }

  ghost predicate UniqueKnownNodes(nodes: seq<Node>) {
    && (forall i :: 0 <= i < |nodes| ==> KnownKind(nodes[i].kind))
    && (forall i, j :: 0 <= i < j < |nodes| ==> nodes[i].id != nodes[j].id)
  }

  ghost predicate EdgesBetween(nodes: seq<Node>, edges: seq<Edge>) {
    forall i :: 0 <= i < |edges| ==> KindOf(nodes, edges[i].source).Some? && KindOf(nodes, edges[i].target).Some?
  }

  /** A reply that may be used: whole, about `id`, with unique nodes of known kinds, every edge between its nodes,
      and no project that the listing of projects left out. */
  ghost predicate Usable(reply: Reply, id: Id, known: set<Id>) {
    && reply.Reply? && !reply.truncated && reply.map_ == MAP_NAME && reply.root == id
    && UniqueKnownNodes(reply.nodes) && EdgesBetween(reply.nodes, reply.edges)
    && Projects(reply, id) <= known
  }

  function Direct(kernel: Id -> Reply): Id -> set<Id> {
    id => Projects(kernel(id), id)
  }

  // ----- one reply --------------------------------------------------------

  method KindsOf(nodes: seq<Node>) returns (r: Result<map<Id, string>, string>)
    ensures r.Ok? <==> UniqueKnownNodes(nodes)
    ensures r.Ok? ==> forall id :: KindOf(nodes, id) == if id in r.value then Some(r.value[id]) else None
  {
    hide KindOf, KnownKind;
    var kinds: map<Id, string> := map[];
    NoKind();
    for k := 0 to |nodes|
      invariant UniqueKnownNodes(nodes[..k])
      invariant forall i :: 0 <= i < k ==> nodes[i].id in kinds
      invariant forall id :: KindOf(nodes[..k], id) == if id in kinds then Some(kinds[id]) else None
    {
      KindMore(nodes, k);
      if !KnownKind(nodes[k].kind) {
        return Err("a node of unknown kind");
      }
      if nodes[k].id in kinds {
        var i := KindFrom(nodes[..k], nodes[k].id);
        assert nodes[i].id == nodes[k].id;
        return Err("duplicate node id");
      }
      forall i | 0 <= i < k ensures nodes[i].id != nodes[k].id {
      }
      kinds := kinds[nodes[k].id := nodes[k].kind];
    }
    assert nodes[..|nodes|] == nodes;
    return Ok(kinds);
  }

  lemma NoKind()
    ensures forall id :: KindOf([], id) == None
  {
  }

  lemma KindMore(nodes: seq<Node>, k: nat)
    requires k < |nodes|
    ensures nodes[..k + 1] == nodes[..k] + [nodes[k]]
    ensures forall id ::
        KindOf(nodes[..k + 1], id) == if nodes[k].id == id then Some(nodes[k].kind) else KindOf(nodes[..k], id)
  {
    var more := nodes[..k + 1];
    assert more[..k] == nodes[..k] && more[k] == nodes[k];
    forall id ensures KindOf(more, id) == if nodes[k].id == id then Some(nodes[k].kind) else KindOf(nodes[..k], id) {
    }
  }

  lemma {:induction false} KindFrom(nodes: seq<Node>, id: Id) returns (i: int)
    requires KindOf(nodes, id).Some?
    ensures 0 <= i < |nodes| && nodes[i].id == id
  {
    if nodes[|nodes| - 1].id == id {
      i := |nodes| - 1;
    } else {
      i := KindFrom(nodes[..|nodes| - 1], id);
    }
  }

  lemma {:induction false} KindIsListed(nodes: seq<Node>, id: Id, kind: string)
    requires UniqueKnownNodes(nodes)
    ensures KindOf(nodes, id) == Some(kind) <==> Node(id, kind) in nodes
    decreases |nodes|
  {
    if nodes != [] {
      var n := |nodes| - 1;
      KindIsListed(nodes[..n], id, kind);
      assert nodes == nodes[..n] + [nodes[n]];
      if Node(id, kind) in nodes[..n] {
        var i :| 0 <= i < n && nodes[i] == Node(id, kind);
        assert nodes[i].id != nodes[n].id;
      }
    }
  }

  /** The projects of a usable reply, by its lists: the sources of edges into `id` that are listed as projects. */
  lemma ProjectsExactly(reply: Reply, id: Id, known: set<Id>, p: Id)
    requires Usable(reply, id, known)
    ensures p in Projects(reply, id) <==> Edge(p, id) in reply.edges && Node(p, "project") in reply.nodes
  {
    KindIsListed(reply.nodes, p, "project");
    hide KindOf;
    if p in Projects(reply, id) {
      var e :| e in reply.edges && e.target == id && KindOf(reply.nodes, e.source) == Some(PROJECT) && e.source == p;
      assert e == Edge(p, id);
    }
  }

  method ScanEdges(nodes: seq<Node>, kinds: map<Id, string>, edges: seq<Edge>, id: Id, known: set<Id>)
    returns (r: Result<set<Id>, string>)
    requires forall x :: KindOf(nodes, x) == if x in kinds then Some(kinds[x]) else None
    ensures r.Ok? <==> EdgesBetween(nodes, edges) && ProjectsInto(nodes, edges, id) <= known
    ensures r.Ok? ==> r.value == ProjectsInto(nodes, edges, id)
  {
    hide KindOf;
    var found := {};
    for k := 0 to |edges|
      invariant EdgesBetween(nodes, edges[..k])
      invariant found == ProjectsInto(nodes, edges[..k], id) <= known
    {
      var edge := edges[k];
      assert edges[..k + 1] == edges[..k] + [edge];
      if edge.source !in kinds || edge.target !in kinds {
        return Err("an edge end missing from nodes");
      }
      if edge.target == id && kinds[edge.source] == PROJECT {
        if edge.source !in known {
          assert edge.source in ProjectsInto(nodes, edges, id);
          return Err("a project that code.list did not return");
        }
        found := found + {edge.source};
      }
    }
    assert edges[..|edges|] == edges;
    return Ok(found);
  }

  method DependentsOf(reply: Reply, id: Id, known: set<Id>) returns (r: Result<set<Id>, string>)
    ensures r.Ok? <==> Usable(reply, id, known)
    ensures r.Ok? ==> r.value == Projects(reply, id)
  {
    hide UniqueKnownNodes, EdgesBetween, ProjectsInto;
    if reply.Malformed? || reply.truncated {
      return Err("truncated or malformed");
    }
    if reply.map_ != MAP_NAME {
      return Err("wrong map");
    }
    if reply.root != id {
      return Err("wrong root");
    }
    var kinds := KindsOf(reply.nodes);
    if kinds.Err? {
      return Err(kinds.error);
    }
    r := ScanEdges(reply.nodes, kinds.value, reply.edges, id, known);
  }

  // ----- the closure ------------------------------------------------------

  /** `id` is a changed crate or reaches one through direct dependents, asked of the kernel. */
  ghost predicate InScope(kernel: Id -> Reply, roots: set<Id>, id: Id) {
    exists root :: root in roots && Reaches(Direct(kernel), root, id)
  }

  lemma InScopeGrows(kernel: Id -> Reply, roots: set<Id>, id: Id, dependent: Id)
    requires InScope(kernel, roots, id) && dependent in Projects(kernel(id), id)
    ensures InScope(kernel, roots, dependent)
  {
    var root :| root in roots && Reaches(Direct(kernel), root, id);
    ReachesNext(Direct(kernel), root, id, dependent);
  }

  /** `x` is a direct dependent of one of `ids`. */
  ghost predicate Behind(kernel: Id -> Reply, ids: seq<Id>, x: Id) {
    exists id :: id in ids && x in Projects(kernel(id), id)
  }

  lemma UsableIsKnown(reply: Reply, id: Id, known: set<Id>)
    requires Usable(reply, id, known)
    ensures Projects(reply, id) <= known
  {
  }

  /** Ask about every project of one chunk of the frontier; `found` collects those not seen before. */
  method AskChunk(kernel: Id -> Reply, chunk: seq<Id>, known: set<Id>, seen: set<Id>, found: seq<Id>)
    returns (r: Result<(set<Id>, seq<Id>), Id>)
    ensures r.Err? ==> r.error in chunk && !Usable(kernel(r.error), r.error, known)
    ensures r.Ok? ==> forall id ::
        id in chunk ==> Usable(kernel(id), id, known) && Projects(kernel(id), id) <= r.value.0
    ensures r.Ok? ==> seen <= r.value.0
    ensures r.Ok? ==> forall x :: x in r.value.0 - seen ==> Behind(kernel, chunk, x)
    ensures r.Ok? ==> forall x :: x in r.value.1 <==> x in found || x in r.value.0 - seen
  {
    hide Usable, Projects;
    var seen', found' := seen, found;
    for k := 0 to |chunk|
      invariant forall i ::
          0 <= i < k ==> Usable(kernel(chunk[i]), chunk[i], known) && Projects(kernel(chunk[i]), chunk[i]) <= seen'
      invariant seen <= seen'
      invariant forall x :: x in seen' - seen ==> Behind(kernel, chunk, x)
      invariant forall x :: x in found' <==> x in found || x in seen' - seen
    {
      var id := chunk[k];
      var dependents := DependentsOf(kernel(id), id, known);
      if dependents.Err? {
        return Err(id);
      }
      assert forall x :: x in dependents.value ==> Behind(kernel, chunk, x);
      seen', found' := AddUnseen(dependents.value, seen', found');
    }
    return Ok((seen', found'));
  }

  method AddUnseen(next: set<Id>, seen: set<Id>, found: seq<Id>) returns (seen': set<Id>, found': seq<Id>)
    ensures seen' == seen + next
    ensures forall x :: x in found' <==> x in found || x in next - seen
  {
    seen', found' := seen, found;
    var left := next;
    while left != {}
      invariant left <= next && seen' == seen + (next - left)
      invariant forall x :: x in found' <==> x in found || x in (next - left) - seen
      decreases left
    {
      var source :| source in left;
      if source !in seen' {
        seen', found' := seen' + {source}, found' + [source];
      }
      left := left - {source};
    }
  }

  /** One layer: the whole frontier, `perCall` projects at a time. */
  method AskLayer(kernel: Id -> Reply, frontier: seq<Id>, known: set<Id>, seen: set<Id>, perCall: nat)
    returns (r: Result<(set<Id>, seq<Id>), Id>)
    requires perCall > 0
    ensures r.Err? ==> r.error in frontier && !Usable(kernel(r.error), r.error, known)
    ensures r.Ok? ==> forall id ::
        id in frontier ==> Usable(kernel(id), id, known) && Projects(kernel(id), id) <= r.value.0
    ensures r.Ok? ==> seen <= r.value.0
    ensures r.Ok? ==> forall x :: x in r.value.0 - seen ==> Behind(kernel, frontier, x)
    ensures r.Ok? ==> forall x :: x in r.value.1 <==> x in r.value.0 - seen
  {
    hide Usable, Projects;
    var seen', found: seq<Id> := seen, [];
    var start := 0;
    while start < |frontier|
      invariant 0 <= start <= |frontier|
      invariant forall i :: 0 <= i < start ==>
          Usable(kernel(frontier[i]), frontier[i], known) && Projects(kernel(frontier[i]), frontier[i]) <= seen'
      invariant seen <= seen'
      invariant forall x :: x in seen' - seen ==> Behind(kernel, frontier, x)
      invariant forall x :: x in found <==> x in seen' - seen
    {
      var end := if start + perCall <= |frontier| then start + perCall else |frontier|;
      var chunk := frontier[start..end];
      assert forall id :: id in chunk ==> id in frontier;
      assert forall x :: Behind(kernel, chunk, x) ==> Behind(kernel, frontier, x);
      assert forall i :: start <= i < end ==> frontier[i] == chunk[i - start] && frontier[i] in chunk;
      var asked := AskChunk(kernel, chunk, known, seen', found);
      if asked.Err? {
        return Err(asked.error);
      }
      seen', found := asked.value.0, asked.value.1;
      start := end;
    }
    return Ok((seen', found));
  }

  /** `nameOf` inverts the listing of projects. */
  ghost predicate NamesIds(nameOf: map<Id, string>, byName: map<string, Id>) {
    && nameOf.Keys == byName.Values
    && forall id :: id in nameOf ==> nameOf[id] in byName && byName[nameOf[id]] == id
  }

  function Roots(changed: set<string>, byName: map<string, Id>): set<Id> {
    set c | c in changed && c in byName :: byName[c]
  }

  ghost predicate ScopeIsUsable(kernel: Id -> Reply, roots: set<Id>, known: set<Id>) {
    forall id :: InScope(kernel, roots, id) ==> Usable(kernel(id), id, known)
  }

  lemma RootsInScope(kernel: Id -> Reply, roots: set<Id>)
    ensures forall id :: id in roots ==> InScope(kernel, roots, id)
  {
    forall id | id in roots ensures InScope(kernel, roots, id) {
      ReachesItself(Direct(kernel), id);
    }
  }

  lemma LayerIsKnown(kernel: Id -> Reply, asked: seq<Id>, before: set<Id>, after: set<Id>, known: set<Id>)
    requires before <= known && forall x :: x in after - before ==> Behind(kernel, asked, x)
    requires forall id :: id in asked ==> Usable(kernel(id), id, known)
    ensures after <= known
  {
    forall x | x in after ensures x in known {
      if x !in before {
        assert x in after - before;
        var id :| id in asked && x in Projects(kernel(id), id);
        UsableIsKnown(kernel(id), id, known);
      }
    }
  }

  lemma LayerInScope(kernel: Id -> Reply, roots: set<Id>, before: set<Id>, asked: seq<Id>, after: set<Id>)
    requires forall id :: id in before ==> InScope(kernel, roots, id)
    requires forall id :: id in asked ==> id in before
    requires forall x :: x in after - before ==> Behind(kernel, asked, x)
    ensures forall id :: id in after ==> InScope(kernel, roots, id)
  {
    forall x | x in after ensures InScope(kernel, roots, x) {
      if x !in before {
        assert x in after - before;
        var id :| id in asked && x in Projects(kernel(id), id);
        InScopeGrows(kernel, roots, id, x);
      }
    }
  }

  lemma ClosureIsScope(kernel: Id -> Reply, roots: set<Id>, seen: set<Id>)
    requires roots <= seen && forall id :: id in seen ==> Projects(kernel(id), id) <= seen
    ensures forall id :: InScope(kernel, roots, id) ==> id in seen
  {
    forall id | InScope(kernel, roots, id) ensures id in seen {
      var root :| root in roots && Reaches(Direct(kernel), root, id);
      ClosedKeeps(Direct(kernel), seen, root, id);
    }
  }

  /** Whatever the chunk size: refused exactly when a changed crate is unlisted or a reply in scope is unusable,
      otherwise the names of exactly the least set that holds the changed crates and their dependents. */
  method Closure(kernel: Id -> Reply, changed: set<string>, byName: map<string, Id>, nameOf: map<Id, string>,
                 perCall: nat)
    returns (r: Result<set<string>, string>)
    requires perCall > 0 && NamesIds(nameOf, byName)
    ensures r.Ok? <==> (changed <= byName.Keys && ScopeIsUsable(kernel, Roots(changed, byName), nameOf.Keys))
    ensures r.Ok? ==> forall id :: InScope(kernel, Roots(changed, byName), id) ==> id in nameOf
    ensures r.Ok? ==> forall n :: n in r.value <==>
        exists id :: InScope(kernel, Roots(changed, byName), id) && id in nameOf && nameOf[id] == n
  {
    hide Usable, InScope;
    var known := nameOf.Keys;
    ghost var roots := Roots(changed, byName);
    var missing := changed - byName.Keys;
    if missing != {} {
      var c :| c in missing;
      return Err("a changed crate is not a project in the map");
    }
    assert changed <= byName.Keys by {
      forall c | c in changed ensures c in byName.Keys { assert c !in missing; }
    }
    var seen, frontier := AddUnseen(Roots(changed, byName), {}, []);
    RootsInScope(kernel, roots);
    while frontier != []
      invariant roots <= seen <= known
      invariant forall id :: id in frontier ==> id in seen
      invariant forall id :: id in seen ==> InScope(kernel, roots, id)
      invariant forall id ::
          id in seen && id !in frontier ==> Usable(kernel(id), id, known) && Projects(kernel(id), id) <= seen
      decreases known - seen, |frontier|
    {
      var layer := AskLayer(kernel, frontier, known, seen, perCall);
      if layer.Err? {
        return Err("a reply that cannot be used");
      }
      ghost var before, asked := seen, frontier;
      seen, frontier := layer.value.0, layer.value.1;
      LayerInScope(kernel, roots, before, asked, seen);
      LayerIsKnown(kernel, asked, before, seen, known);
      assert frontier == [] || frontier[0] in seen - before;
    }
    ClosureIsScope(kernel, roots, seen);
    return Ok(set id | id in seen :: nameOf[id]);
  }
}
