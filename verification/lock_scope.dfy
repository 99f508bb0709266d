/**
 Which workspace members a lockfile change reaches: resolution of dependency texts, reachability in both
 lockfiles, and the guarantee that every other member builds from an unchanged dependency cone.
 */
module LockScope {
  import opened Wrappers
  import opened Reachability

  /** The key of a lockfile entry; the source of a workspace member is empty. */
  datatype Key = Key(name: string, version: string, source: string)

  /** An entry as it is compared: its dependency texts without their order, and everything else it says. */
  datatype Entry = Entry(dependencies: multiset<string>, rest: string)

  type Entries = map<Key, Entry>
  type Graph = map<Key, set<Key>>

  // ----- resolving dependency texts ---------------------------------------

  /** Where the first space stands, or the length. */
  function FirstSpace(text: string): (n: nat)
    ensures n <= |text| && (n < |text| ==> text[n] == ' ') && forall k :: 0 <= k < n ==> text[k] != ' '
  {
    if text == "" || text[0] == ' ' then 0 else 1 + FirstSpace(text[1..])
  }

  function Before(text: string): string {
    text[..FirstSpace(text)]
  }

  function After(text: string): string {
    if FirstSpace(text) == |text| then "" else text[FirstSpace(text) + 1..]
  }

  /** A text names a package, and when needed its version and its source in parentheses. */
  predicate Fits(text: string, k: Key) {
    var version, source := Before(After(text)), After(After(text));
    && k.name == Before(text)
    && (version == "" || k.version == version)
    && (source == "" || "(" + k.source + ")" == source)
  }

  function Matches(keys: set<Key>, text: string): set<Key> {
    set k | k in keys && Fits(text, k)
  }

  ghost predicate Resolvable(entries: Entries) {
    forall k, text :: k in entries && text in entries[k].dependencies ==> |Matches(entries.Keys, text)| == 1
  }

  /** Exactly the entries that the texts of `deps` match. */
  function Targets(keys: set<Key>, deps: multiset<string>): set<Key> {
    set text, k | text in deps && k in keys && Fits(text, k) :: k
  }

  ghost predicate IsGraph(entries: Entries, g: Graph) {
    Resolvable(entries) && g.Keys == entries.Keys
    && forall k :: k in entries ==> g[k] == Targets(entries.Keys, entries[k].dependencies)
  }

  method LockGraph(entries: Entries) returns (r: Result<Graph, Key>)
    ensures r.Ok? <==> Resolvable(entries)
    ensures r.Ok? ==> IsGraph(entries, r.value)
  {
    var byName := ByName(entries.Keys);
    var graph: Graph := map[];
    var left := entries.Keys;
    while left != {}
      invariant left <= entries.Keys && graph.Keys == entries.Keys - left
      invariant forall k :: k in graph ==> graph[k] == Targets(entries.Keys, entries[k].dependencies)
      invariant forall k, text :: k in graph && text in entries[k].dependencies ==> |Matches(entries.Keys, text)| == 1
      decreases left
    {
      var key :| key in left;
      var edges := {};
      var todo := set text | text in entries[key].dependencies;
      ghost var texts, done := todo, {};
      while todo != {}
        invariant done <= texts && todo == texts - done
        invariant edges == set text, k | text in done && k in entries.Keys && Fits(text, k) :: k
        invariant forall text :: text in done ==> |Matches(entries.Keys, text)| == 1
        decreases todo
      {
        var text :| text in todo;
        var name := Before(text);
        var matches := set k | k in (if name in byName then byName[name] else {}) && Fits(text, k);
        assert matches == Matches(entries.Keys, text);
        if |matches| != 1 {
          return Err(key);
        }
        edges := edges + matches;
        todo, done := todo - {text}, done + {text};
      }
      graph := graph[key := edges];
      left := left - {key};
    }
    return Ok(graph);
  }

  method ByName(keys: set<Key>) returns (byName: map<string, set<Key>>)
    ensures forall k :: k in keys <==> k.name in byName && k in byName[k.name]
    ensures forall name :: name in byName ==> byName[name] <= keys
  {
    byName := map[];
    var left := keys;
    while left != {}
      invariant left <= keys
      invariant forall k :: k in keys - left <==> k.name in byName && k in byName[k.name]
      invariant forall name :: name in byName ==> byName[name] <= keys
      decreases left
    {
      var k :| k in left;
      byName := byName[k.name := (if k.name in byName then byName[k.name] else {}) + {k}];
      left := left - {k};
    }
  }

  // ----- reachability -----------------------------------------------------

  function Edges(g: Graph): Key -> set<Key> {
    k => if k in g then g[k] else {}
  }

  ghost predicate ClosedGraph(g: Graph) {
    forall k :: k in g ==> g[k] <= g.Keys
  }

  /** Mark and push every entry of `next` that is not seen yet. */
  method PushUnseen(next: set<Key>, stack: seq<Key>, seen: set<Key>) returns (stack': seq<Key>, seen': set<Key>)
    ensures seen' == seen + next
    ensures forall k :: k in stack' <==> k in stack || k in next - seen
    ensures next <= seen ==> stack' == stack
  {
    stack', seen' := stack, seen;
    var left := next;
    while left != {}
      invariant left <= next && seen' == seen + (next - left)
      invariant forall k :: k in stack' <==> k in stack || k in (next - left) - seen
      invariant next <= seen ==> stack' == stack
      decreases left
    {
      var k :| k in left;
      if k !in seen' {
        seen' := seen' + {k};
        stack' := stack' + [k];
      }
      left := left - {k};
    }
  }

  /** Exactly what `start` reaches, itself included. */
  method Reachable(g: Graph, start: Key) returns (seen: set<Key>)
    requires ClosedGraph(g) && start in g
    ensures forall k :: k in seen <==> Reaches(Edges(g), start, k)
  {
    seen := {start};
    var stack := [start];
    ReachesItself(Edges(g), start);
    while stack != []
      invariant start in seen && seen <= g.Keys
      invariant forall k :: k in stack ==> k in seen
      invariant forall k :: k in seen ==> Reaches(Edges(g), start, k)
      invariant forall k :: k in seen && k !in stack ==> g[k] <= seen
      decreases g.Keys - seen, |stack|
    {
      var top := stack[|stack| - 1];
      ghost var before := stack;
      stack := stack[..|stack| - 1];
      assert before == stack + [top];
      forall k | k in g[top] ensures Reaches(Edges(g), start, k) {
        ReachesNext(Edges(g), start, top, k);
      }
      stack, seen := PushUnseen(g[top], stack, seen);
    }
    forall k | Reaches(Edges(g), start, k) ensures k in seen {
      ClosedKeeps(Edges(g), seen, start, k);
    }
  }

  // ----- the two sides of a change ----------------------------------------

  /** One side: the lockfile's header, its other top-level keys, its entries and their graph. */
  datatype Lock = Lock(header: Option<string>, others: map<string, string>, entries: Entries, graph: Graph)

  datatype Package = Package(key: Key, dependencies: seq<string>, rest: string)

  ghost predicate DistinctKeys(packages: seq<Package>) {
    forall i, j :: 0 <= i < j < |packages| ==> packages[i].key != packages[j].key
  }

  function EntryOf(p: Package): Entry {
    Entry(multiset(p.dependencies), p.rest)
  }

  /** `entries` holds exactly the first `n` packages, which have distinct keys. */
  ghost predicate Loaded(packages: seq<Package>, n: int, entries: Entries) {
    && 0 <= n <= |packages|
    && (forall i, j :: 0 <= i < j < n ==> packages[i].key != packages[j].key)
    && (forall i :: 0 <= i < n ==> packages[i].key in entries && entries[packages[i].key] == EntryOf(packages[i]))
    && (forall k :: k in entries ==> exists i :: 0 <= i < n && packages[i].key == k)
  }

  lemma LoadOne(packages: seq<Package>, n: int, entries: Entries)
    requires Loaded(packages, n, entries) && n < |packages| && packages[n].key !in entries
    ensures Loaded(packages, n + 1, entries[packages[n].key := EntryOf(packages[n])])
  {
  }

  lemma Repeated(packages: seq<Package>, n: int, entries: Entries)
    requires Loaded(packages, n, entries) && n < |packages| && packages[n].key in entries
    ensures !DistinctKeys(packages)
  {
  }

  method ReadLock(packages: seq<Package>) returns (r: Result<Entries, Key>)
    ensures r.Ok? <==> DistinctKeys(packages)
    ensures r.Ok? ==> Loaded(packages, |packages|, r.value)
  {
    var entries: Entries := map[];
    assert Loaded(packages, 0, entries);
    for n := 0 to |packages|
      invariant Loaded(packages, n, entries)
    {
      var p := packages[n];
      if p.key in entries {
        Repeated(packages, n, entries);
        return Err(p.key);
      }
      LoadOne(packages, n, entries);
      entries := entries[p.key := EntryOf(p)];
    }
    return Ok(entries);
  }

  function Members(entries: Entries, crates: set<string>): set<Key> {
    set k | k in entries && k.source == "" && k.name in crates
  }

  function Get(entries: Entries, k: Key): Option<Entry> {
    if k in entries then Some(entries[k]) else None
  }

  function Changed(base: Entries, head: Entries): set<Key> {
    set k | k in base.Keys + head.Keys && Get(base, k) != Get(head, k)
  }

  /** The member `m` depends, on the side of `lock`, on something in `targets`, or is in it. */
  ghost predicate Hits(lock: Lock, m: Key, targets: set<Key>) {
    exists c :: c in targets && Reaches(Edges(lock.graph), m, c)
  }

  /** The names of the members of `lock` that reach one of `targets`. */
  ghost function ReachedNames(lock: Lock, targets: set<Key>, crates: set<string>): set<string> {
    set m | m in Members(lock.entries, crates) && Hits(lock, m, targets) :: m.name
  }

  lemma GraphsAreClosed(entries: Entries, g: Graph)
    requires IsGraph(entries, g)
    ensures ClosedGraph(g)
  {
  }

  method NamesReaching(lock: Lock, targets: set<Key>, crates: set<string>) returns (names: set<string>)
    requires IsGraph(lock.entries, lock.graph)
    ensures names == ReachedNames(lock, targets, crates)
  {
    GraphsAreClosed(lock.entries, lock.graph);
    hide IsGraph, Hits;
    names := {};
    var left := Members(lock.entries, crates);
    ghost var all := left;
    while left != {}
      invariant left <= all == Members(lock.entries, crates)
      invariant names == set m | m in all - left && Hits(lock, m, targets) :: m.name
      decreases left
    {
      var m :| m in left;
      var reach := Reachable(lock.graph, m);
      HitsMeansMeets(lock, m, targets, reach);
      if reach * targets != {} {
        names := names + {m.name};
      }
      left := left - {m};
    }
  }

  lemma HitsMeansMeets(lock: Lock, m: Key, targets: set<Key>, reach: set<Key>)
    requires forall k :: k in reach <==> Reaches(Edges(lock.graph), m, k)
    ensures Hits(lock, m, targets) <==> reach * targets != {}
  {
    if reach * targets != {} {
      var c :| c in reach * targets;
    }
    if Hits(lock, m, targets) {
      var c :| c in targets && Reaches(Edges(lock.graph), m, c);
      assert c in reach * targets;
    }
  }

  /** The members that reach, on either side, a package that a changed dependency entry names. */
  method MembersReaching(packages: set<string>, base: Lock, head: Lock, crates: set<string>)
    returns (r: Result<set<string>, set<string>>)
    requires IsGraph(base.entries, base.graph) && IsGraph(head.entries, head.graph)
    ensures r.Ok? <==> packages <= Listed(base, head)
    ensures r.Ok? ==> r.value == ReachedNames(base, Named(base.entries, packages), crates)
                               + ReachedNames(head, Named(head.entries, packages), crates)
  {
    var missing := packages - Listed(base, head);
    if missing != {} {
      var p :| p in missing;
      return Err(missing);
    }
    assert forall p :: p in packages ==> p in missing || p in Listed(base, head);
    var a := NamesReaching(base, Named(base.entries, packages), crates);
    var b := NamesReaching(head, Named(head.entries, packages), crates);
    return Ok(a + b);
  }

  function Listed(base: Lock, head: Lock): set<string> {
    set k | k in base.entries.Keys + head.entries.Keys :: k.name
  }

  function Named(entries: Entries, packages: set<string>): set<Key> {
    set k | k in entries && k.name in packages
  }

  datatype Refusal = HeaderChanged | OtherKeysChanged | OutsideWorkspace(keys: set<Key>) | NoMember | EveryMember

  function MemberNames(base: Lock, head: Lock, crates: set<string>): set<string> {
    set m | m in Members(base.entries, crates) + Members(head.entries, crates) :: m.name
  }

  /** The change only touches workspace members' entries, and the workspace has members. */
  predicate Readable(base: Lock, head: Lock, crates: set<string>) {
    && base.header == head.header && base.others == head.others
    && (forall k :: k in Changed(base.entries, head.entries) ==> k.source == "" && k.name in crates)
    && MemberNames(base, head, crates) != {}
  }

  /** The members whose cone the change touches on either side. */
  ghost function Touched(base: Lock, head: Lock, crates: set<string>): set<string> {
    var changed := Changed(base.entries, head.entries);
    ReachedNames(base, changed, crates) + ReachedNames(head, changed, crates)
  }

  /** Refused, or the touched members, which are never all of them. */
  method LockfileChange(base: Lock, head: Lock, crates: set<string>) returns (r: Result<set<string>, Refusal>)
    requires IsGraph(base.entries, base.graph) && IsGraph(head.entries, head.graph)
    ensures r.Ok? <==> Readable(base, head, crates) && Touched(base, head, crates) != MemberNames(base, head, crates)
    ensures r.Ok? ==> r.value == Touched(base, head, crates)
  {
    hide IsGraph, ReachedNames, MemberNames;
    if base.header != head.header {
      return Err(HeaderChanged);
    }
    if base.others != head.others {
      return Err(OtherKeysChanged);
    }
    var changed := Changed(base.entries, head.entries);
    var outside := set k | k in changed && (k.source != "" || k.name !in crates);
    if outside != {} {
      var k :| k in outside;
      return Err(OutsideWorkspace(outside));
    }
    assert forall k :: k in changed && k !in outside ==> k.source == "" && k.name in crates;
    var everyone := MemberNames(base, head, crates);
    if everyone == {} {
      return Err(NoMember);
    }
    var a := NamesReaching(base, changed, crates);
    var b := NamesReaching(head, changed, crates);
    if a + b == everyone {
      return Err(EveryMember);
    }
    return Ok(a + b);
  }

  // ----- what being out of scope means ------------------------------------

  /** An unchanged text resolves alike on both sides when its old target is unchanged: the target still matches,
      and a text has one match. */
  lemma SameTarget(base: Entries, head: Entries, k: Key, text: string, target: Key)
    requires Resolvable(base) && Resolvable(head)
    requires k in base && k in head && base[k] == head[k] && text in base[k].dependencies
    requires target in Matches(base.Keys, text) && target in head
    ensures Matches(base.Keys, text) == {target} == Matches(head.Keys, text)
  {
    Singleton(Matches(base.Keys, text), target);
    Singleton(Matches(head.Keys, text), target);
  }

  lemma Singleton<T>(s: set<T>, x: T)
    requires |s| == 1 && x in s
    ensures s == {x}
  {
    assert |s - {x}| == 0;
  }

  lemma SameEdges(base: Lock, head: Lock, k: Key)
    requires IsGraph(base.entries, base.graph) && IsGraph(head.entries, head.graph)
    requires k in base.entries && k !in Changed(base.entries, head.entries)
    requires forall t :: t in base.graph[k] ==> t !in Changed(base.entries, head.entries)
    ensures k in head.entries && base.graph[k] == head.graph[k]
  {
    assert Get(base.entries, k) == Get(head.entries, k);
    var deps := base.entries[k].dependencies;
    forall t | t in base.graph[k] ensures t in head.graph[k] {
      assert Get(base.entries, t) == Get(head.entries, t);
      var text :| text in deps && Fits(text, t);
    }
    forall t | t in head.graph[k] ensures t in base.graph[k] {
      var text :| text in deps && Fits(text, t);
      assert |Matches(base.entries.Keys, text)| == 1;
      var target :| target in Matches(base.entries.Keys, text);
      assert target in base.graph[k];
      assert Get(base.entries, target) == Get(head.entries, target);
      SameTarget(base.entries, head.entries, k, text, target);
      assert t in Matches(head.entries.Keys, text);
    }
  }

  /** The guarantee: a member that the change does not reach has the same dependency cone in both lockfiles, every
      entry of it unchanged. */
  lemma OutOfScopeConeUnchanged(base: Lock, head: Lock, crates: set<string>, m: Key)
    requires IsGraph(base.entries, base.graph) && IsGraph(head.entries, head.graph)
    requires m in Members(base.entries, crates) + Members(head.entries, crates)
        && m.name !in Touched(base, head, crates)
    ensures m in base.entries && m in head.entries
    ensures forall k :: Reaches(Edges(base.graph), m, k) <==> Reaches(Edges(head.graph), m, k)
    ensures forall k :: Reaches(Edges(base.graph), m, k) ==>
        k in base.entries && Get(base.entries, k) == Get(head.entries, k)
  {
    var changed := Changed(base.entries, head.entries);
    NotReached(base, head, crates, m);
    assert Get(base.entries, m) == Get(head.entries, m);
    var before, after := Edges(base.graph), Edges(head.graph);
    forall k | Reaches(before, m, k) ensures before(k) == after(k) && k in base.entries && k !in changed {
      assert k in base.entries by {
        ClosedKeeps(before, base.entries.Keys, m, k);
      }
      forall t | t in base.graph[k] ensures t !in changed {
        ReachesNext(before, m, k, t);
      }
      SameEdges(base, head, k);
    }
    forall k ensures Reaches(before, m, k) <==> Reaches(after, m, k) {
      SameCone(before, after, m, k);
    }
  }

  lemma NotReached(base: Lock, head: Lock, crates: set<string>, m: Key)
    requires m in Members(base.entries, crates) + Members(head.entries, crates)
        && m.name !in Touched(base, head, crates)
    ensures m !in Changed(base.entries, head.entries)
    ensures forall k :: m in base.entries && Reaches(Edges(base.graph), m, k) ==>
        k !in Changed(base.entries, head.entries)
  {
    var changed := Changed(base.entries, head.entries);
    ReachesItself(Edges(base.graph), m);
    ReachesItself(Edges(head.graph), m);
    if m in Members(base.entries, crates) {
      assert !Hits(base, m, changed);
    }
    if m in Members(head.entries, crates) {
      assert !Hits(head, m, changed);
    }
  }
}
