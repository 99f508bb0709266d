/**
 Runs of schema migrations: the files in sequence, each raising the version from the one it expects to the one it
 sets, all of them written or none.
 */
module MigrationRuns {
  import opened Wrappers
  import opened SemanticVersions
  import opened SchemaOperations
  import opened SchemaMigrator
  import opened Lists

  datatype Migration = Migration(number: nat, from: string, to: string, description: string, operations: seq<Operation>)

  /** What is on disk. An empty version stands for a missing one. */
  datatype Store = Store(schema: Schema, entities: seq<Entity>, edges: seq<Edge>)

  // ----- the sequence of files --------------------------------------------

  predicate Complete(m: Migration) {
    m.from != [] && m.to != [] && m.description != []
  }

  function CountNumber(files: seq<Migration>, n: nat): nat {
    if files == [] then 0 else CountNumber(files[1..], n) + if files[0].number == n then 1 else 0
  }

  /** Every number from one to the number of files occurs once, no other occurs, and no file lacks a field. */
  ghost predicate Numbered(files: seq<Migration>) {
    AllComplete(files) && OnceEach(files)
  }

  predicate AllComplete(files: seq<Migration>) {
    forall i :: 0 <= i < |files| ==> Complete(files[i])
  }

  ghost predicate OnceEach(files: seq<Migration>) {
    forall n: nat :: CountNumber(files, n) == if 1 <= n <= |files| then 1 else 0
  }

  predicate InSequence(ms: seq<Migration>) {
    forall i :: 0 <= i < |ms| ==> ms[i].number == i + 1
  }

  predicate Ascending(ms: seq<Migration>) {
    forall i, j :: 0 <= i < j < |ms| ==> ms[i].number <= ms[j].number
  }

  function NumberOf(m: Migration): int {
    m.number
  }

  function SortByNumber(ms: seq<Migration>): seq<Migration> {
    SortBy(NumberOf, ms)
  }

  lemma SortedByNumber(ms: seq<Migration>)
    ensures var r := SortByNumber(ms); Ascending(r) && |r| == |ms| && multiset(r) == multiset(ms)
  {
    hide SortBy;
    SortSorts(NumberOf, ms);
    var r := SortBy(NumberOf, ms);
    forall i, j | 0 <= i < j < |r| ensures r[i].number <= r[j].number {
      assert NumberOf(r[i]) <= NumberOf(r[j]);
    }
  }

  lemma {:induction false} CountOfInsert(m: Migration, ms: seq<Migration>, n: nat)
    ensures CountNumber(InsertBy(NumberOf, m, ms), n) == CountNumber(ms, n) + if m.number == n then 1 else 0
  {
    if ms == [] || m.number <= ms[0].number {
      assert ([m] + ms)[1..] == ms;
    } else {
      CountOfInsert(m, ms[1..], n);
      assert ([ms[0]] + InsertBy(NumberOf, m, ms[1..]))[1..] == InsertBy(NumberOf, m, ms[1..]);
    }
  }

  lemma {:induction false} CountOfSort(ms: seq<Migration>, n: nat)
    ensures CountNumber(SortByNumber(ms), n) == CountNumber(ms, n)
  {
    if ms != [] {
      CountOfSort(ms[1..], n);
      CountOfInsert(ms[0], SortByNumber(ms[1..]), n);
    }
  }

  lemma {:induction false} CountAt(ms: seq<Migration>, i: nat)
    requires i < |ms|
    ensures CountNumber(ms, ms[i].number) >= 1
  {
    if i > 0 {
      CountAt(ms[1..], i - 1);
    }
  }

  lemma {:induction false} CountAtTwo(ms: seq<Migration>, i: nat, j: nat)
    requires i < j < |ms| && ms[i].number == ms[j].number
    ensures CountNumber(ms, ms[i].number) >= 2
  {
    if i > 0 {
      CountAtTwo(ms[1..], i - 1, j - 1);
    } else {
      CountAt(ms[1..], j - 1);
    }
  }

  lemma {:induction false} Counted(ms: seq<Migration>, n: nat) returns (i: nat)
    requires CountNumber(ms, n) > 0
    ensures i < |ms| && ms[i].number == n
  {
    if ms[0].number == n {
      i := 0;
    } else {
      i := Counted(ms[1..], n);
      i := i + 1;
    }
  }

  lemma {:induction false} CountFrom(ms: seq<Migration>, first: nat, n: nat)
    requires forall i :: 0 <= i < |ms| ==> ms[i].number == first + i
    ensures CountNumber(ms, n) == if first <= n < first + |ms| then 1 else 0
  {
    if ms != [] {
      CountFrom(ms[1..], first + 1, n);
    }
  }

  /** Sorted files are in sequence exactly when every number occurs as it should. */
  lemma SequenceExactlyWhen(files: seq<Migration>)
    ensures InSequence(SortByNumber(files)) <==> OnceEach(files)
  {
    hide SortByNumber, CountNumber;
    var ms := SortByNumber(files);
    SortedByNumber(files);
    if InSequence(ms) {
      forall n: nat ensures CountNumber(files, n) == if 1 <= n <= |files| then 1 else 0 {
        CountFrom(ms, 1, n);
        CountOfSort(files, n);
      }
    } else if OnceEach(files) {
      OutOfSequence(files);
    }
  }

  lemma {:induction false} OutOfSequence(files: seq<Migration>)
    requires OnceEach(files)
    ensures InSequence(SortByNumber(files))
  {
    hide SortByNumber, CountNumber;
    var ms := SortByNumber(files);
    SortedByNumber(files);
    var i := 0;
    while i < |ms|
      invariant i <= |ms| && forall j :: 0 <= j < i ==> ms[j].number == j + 1
    {
      var v := ms[i].number;
      CountAt(ms, i);
      CountOfSort(files, v);
      if v <= i {
        CountAtTwo(ms, v - 1, i);
        assert false;
      }
      CountOfSort(files, i + 1);
      var j := Counted(ms, i + 1);
      i := i + 1;
    }
  }

  /** A directory's migration files in sequence, whatever order they are read in: refused when a number occurs twice,
      is missing or is out of range, or a field is missing. */
  method ListMigrationFiles(files: seq<Migration>) returns (r: Result<seq<Migration>, string>)
    ensures r.Ok? <==> Numbered(files)
    ensures r.Ok? ==> |r.value| == |files| && InSequence(r.value) && multiset(r.value) == multiset(files)
  {
    hide SortByNumber, CountNumber, Complete;
    var seen := {};
    var i := 0;
    while i < |files|
      invariant i <= |files|
      invariant forall n :: n in seen <==> exists j :: 0 <= j < i && files[j].number == n
      invariant forall j :: 0 <= j < i ==> Complete(files[j])
    {
      if files[i].number in seen {
        ghost var j :| 0 <= j < i && files[j].number == files[i].number;
        CountAtTwo(files, j, i);
        return Err("duplicate migration sequence");
      }
      seen := seen + {files[i].number};
      if !Complete(files[i]) {
        return Err("missing required fields");
      }
      i := i + 1;
    }
    var out := SortByNumber(files);
    SortedByNumber(files);
    SequenceExactlyWhen(files);
    i := 0;
    while i < |out|
      invariant i <= |out| && forall j :: 0 <= j < i ==> out[j].number == j + 1
    {
      if out[i].number != i + 1 {
        return Err("migration sequence gap");
      }
      i := i + 1;
    }
    return Ok(out);
  }

  /** There is one sequence only. */
  lemma SequenceIsUnique(a: seq<Migration>, b: seq<Migration>)
    requires InSequence(a) && InSequence(b) && multiset(a) == multiset(b)
    ensures a == b
  {
    assert |a| == |multiset(a)| && |b| == |multiset(b)|;
    forall i | 0 <= i < |a| ensures a[i] == b[i] {
      assert a[i] in multiset(b);
      var j :| 0 <= j < |b| && b[j] == a[i];
    }
  }

  // ----- one run ----------------------------------------------------------

  function ApplyAll(s: State, ops: seq<Operation>): Result<State, string>
    decreases |ops|
  {
    if ops == [] then Ok(s)
    else
      match Applied(s, ops[0])
      case Err(e) => Err(e)
      case Ok(t) => ApplyAll(t, ops[1..])
  }

  datatype Played = Played(state: State, active: Semver, applied: seq<Migration>, skipped: seq<Migration>)

  predicate Past(v: Semver, target: Option<Semver>) {
    target.Some? && Before(target.value, v)
  }

  /** A migration below the active version is skipped, one above it is an error, one at it is applied unless it leads
      past the target, where the run ends. */
  function Play(s: State, active: Semver, ms: seq<Migration>, target: Option<Semver>): Result<Played, string>
    decreases |ms|
  {
    if ms == [] then Ok(Played(s, active, [], []))
    else
      var m := ms[0];
      var from, to := ParseSemver(m.from), ParseSemver(m.to);
      if from.None? || to.None? then Err("invalid semver")
      else if Before(from.value, active) then
        match Play(s, active, ms[1..], target)
        case Err(e) => Err(e)
        case Ok(p) => Ok(p.(skipped := [m] + p.skipped))
      else if Before(active, from.value) then Err("expects another version")
      else if Past(to.value, target) then Ok(Played(s, active, [], []))
      else
        match ApplyAll(s, m.operations)
        case Err(e) => Err(e)
        case Ok(t) =>
          match Play(t.(schema := t.schema.(version := m.to)), to.value, ms[1..], target)
          case Err(e) => Err(e)
          case Ok(p) => Ok(p.(applied := [m] + p.applied))
  }

  function Loaded(d: Store): State {
    State(if d.schema.version == [] then d.schema.(version := "1.0.0") else d.schema, d.entities, d.edges, NO_COUNTS)
  }

  /** The files a run writes: none without an applied migration, and a line file only when its counter moved. */
  function Written(d: Store, p: Played): Store {
    if p.applied == [] then d
    else
      Store(p.state.schema,
            if p.state.counts.entitiesRewritten > 0 then p.state.entities else d.entities,
            if p.state.counts.edgesDropped > 0 then p.state.edges else d.edges)
  }

  datatype Report = Report(store: Store, played: Played)

  function Target(to: string): Result<Option<Semver>, string> {
    if to == [] then Ok(None)
    else if ParseSemver(to).None? then Err("invalid semver")
    else Ok(ParseSemver(to))
  }

  /** A run from the files on disk; an empty target is none. */
  function Migrate(d: Store, ms: seq<Migration>, to: string): Result<Report, string> {
    var current := ParseSemver(Loaded(d).schema.version);
    var target := Target(to);
    if current.None? || target.Err? then Err("invalid semver")
    else
      match Play(Loaded(d), current.value, ms, target.value)
      case Err(e) => Err(e)
      case Ok(p) => Ok(Report(Written(d, p), p))
  }

  // ----- what a run keeps -------------------------------------------------

  /** From s on, lines keep their order and identity, and a line file whose counter did not move is as it was. */
  ghost predicate Keeps(s: State, t: State) {
    && Ids(t.entities) == Ids(s.entities) && Thinned(t.edges, s.edges)
    && s.counts.entitiesRewritten <= t.counts.entitiesRewritten && s.counts.edgesDropped <= t.counts.edgesDropped
    && t.counts.edgesDropped - s.counts.edgesDropped == |s.edges| - |t.edges|
    && (t.counts.entitiesRewritten == s.counts.entitiesRewritten ==> t.entities == s.entities)
    && (t.counts.edgesDropped == s.counts.edgesDropped ==> t.edges == s.edges)
  }

  lemma KeepsOn(s: State, t: State, u: State)
    requires Keeps(s, t) && Keeps(t, u)
    ensures Keeps(s, u)
  {
    hide Ids, Thinned;
    ThinnedTwice(u.edges, t.edges, s.edges);
  }

  lemma {:induction false} ApplyAllKeeps(s: State, ops: seq<Operation>)
    requires ApplyAll(s, ops).Ok?
    ensures Keeps(s, ApplyAll(s, ops).value)
    decreases |ops|
  {
    hide Applied, Ids, Thinned;
    if ops == [] {
      ThinnedItself(s.edges);
    } else {
      var t := Applied(s, ops[0]).value;
      OperationKeeps(s, ops[0]);
      ApplyAllKeeps(t, ops[1..]);
      KeepsOn(s, t, ApplyAll(s, ops).value);
    }
  }

  /** What a successful run makes of its start: kept lines, and nothing at all unless it applies something. */
  ghost predicate Sound(s: State, active: Semver, target: Option<Semver>, p: Played) {
    && Keeps(s, p.state)
    && (p.applied == [] ==> p.state == s && p.active == active)
    && (p.applied != [] ==> ParseSemver(p.state.schema.version) == Some(p.active) && !Past(p.active, target))
  }

  lemma {:induction false} PlayIsSound(s: State, active: Semver, ms: seq<Migration>, target: Option<Semver>)
    ensures Play(s, active, ms, target).Ok? ==> Sound(s, active, target, Play(s, active, ms, target).value)
    decreases |ms|
  {
    hide ParseSemver, ApplyAll, Ids, Thinned, Before, Past;
    ThinnedItself(s.edges);
    if ms != [] && Play(s, active, ms, target).Ok? {
      var m := ms[0];
      if Before(ParseSemver(m.from).value, active) {
        PlayIsSound(s, active, ms[1..], target);
      } else if !Past(ParseSemver(m.to).value, target) {
        ApplyAllKeeps(s, m.operations);
        var t := ApplyAll(s, m.operations).value;
        var t' := t.(schema := t.schema.(version := m.to));
        PlayIsSound(t', ParseSemver(m.to).value, ms[1..], target);
        KeepsOn(s, t', Play(s, active, ms, target).value.state);
      }
    }
  }

  /** What a run leaves on disk is the state it computed, although line files whose counter did not move are not
      written; every entity line keeps its place and its id, and edges are only dropped. */
  lemma RunWritesItsState(d: Store, ms: seq<Migration>, to: string)
    requires Migrate(d, ms, to).Ok?
    ensures var r := Migrate(d, ms, to).value;
            && r.store.entities == r.played.state.entities && r.store.edges == r.played.state.edges
            && (r.played.applied != [] ==> r.store.schema == r.played.state.schema)
            && Ids(r.store.entities) == Ids(d.entities) && Thinned(r.store.edges, d.edges)
            && |d.edges| - |r.store.edges| == r.played.state.counts.edgesDropped
  {
    hide ParseSemver, Ids, Thinned, Past;
    PlayIsSound(Loaded(d), ParseSemver(Loaded(d).schema.version).value, ms, Target(to).value);
  }

  // ----- two runs, one after the other ------------------------------------

  /** Every version that can be read is below the one it leads to. */
  predicate Rising(ms: seq<Migration>) {
    forall i :: 0 <= i < |ms| ==>
      ParseSemver(ms[i].from).Some? && ParseSemver(ms[i].to).Some? ==>
        Before(ParseSemver(ms[i].from).value, ParseSemver(ms[i].to).value)
  }

  /** The second target stops no earlier than the first. */
  predicate NoSooner(first: Option<Semver>, second: Option<Semver>) {
    second.None? || (first.Some? && !Before(second.value, first.value))
  }

  /** The same schema and lines, whatever was counted on the way. */
  predicate Alike(s: State, t: State) {
    s.schema == t.schema && s.entities == t.entities && s.edges == t.edges
  }

  /** The same failure, or runs that end alike. */
  predicate EndAlike(a: Result<Played, string>, b: Result<Played, string>, before: seq<Migration>) {
    if a.Err? then a == b
    else
      && b.Ok? && Alike(a.value.state, b.value.state) && a.value.active == b.value.active
      && a.value.applied == before + b.value.applied
  }

  lemma OperationAlike(s: State, t: State, op: Operation)
    requires Alike(s, t)
    ensures match Applied(s, op)
            case Err(e) => Applied(t, op) == Err(e)
            case Ok(u) => Applied(t, op).Ok? && Alike(u, Applied(t, op).value)
  {
    hide KindAdded, KindRemoved, KindRenamed, PropertyAdded, PropertyRemoved, PropertyRenamed, RuleAdded, RuleRemoved;
    hide HitCount, Rewritten, Others;
  }

  lemma {:induction false} ApplyAllAlike(s: State, t: State, ops: seq<Operation>)
    requires Alike(s, t)
    ensures match ApplyAll(s, ops)
            case Err(e) => ApplyAll(t, ops) == Err(e)
            case Ok(u) => ApplyAll(t, ops).Ok? && Alike(u, ApplyAll(t, ops).value)
    decreases |ops|
  {
    hide Applied;
    if ops != [] {
      OperationAlike(s, t, ops[0]);
      if Applied(s, ops[0]).Ok? {
        ApplyAllAlike(Applied(s, ops[0]).value, Applied(t, ops[0]).value, ops[1..]);
      }
    }
  }

  lemma {:induction false} PlayAlike(s: State, t: State, active: Semver, ms: seq<Migration>, target: Option<Semver>)
    requires Alike(s, t)
    ensures EndAlike(Play(s, active, ms, target), Play(t, active, ms, target), [])
    decreases |ms|
  {
    hide ParseSemver, ApplyAll, Before, Past;
    if ms != [] && ParseSemver(ms[0].from).Some? && ParseSemver(ms[0].to).Some? {
      var m := ms[0];
      if Before(ParseSemver(m.from).value, active) {
        PlayAlike(s, t, active, ms[1..], target);
      } else if !Before(active, ParseSemver(m.from).value) && !Past(ParseSemver(m.to).value, target) {
        ApplyAllAlike(s, t, m.operations);
        if ApplyAll(s, m.operations).Ok? {
          var u, v := ApplyAll(s, m.operations).value, ApplyAll(t, m.operations).value;
          PlayAlike(u.(schema := u.schema.(version := m.to)), v.(schema := v.schema.(version := m.to)),
                    ParseSemver(m.to).value, ms[1..], target);
        }
      }
    }
  }

  /** Versions never fall, and they rise in a run that applies something. */
  lemma {:induction false} PlayRises(s: State, active: Semver, ms: seq<Migration>, target: Option<Semver>)
    requires Rising(ms)
    ensures match Play(s, active, ms, target)
            case Err(_) => true
            case Ok(p) => if p.applied == [] then p.active == active else Before(active, p.active)
    decreases |ms|
  {
    hide ParseSemver, ApplyAll;
    if ms != [] && Play(s, active, ms, target).Ok? {
      var m := ms[0];
      var from, to := ParseSemver(m.from).value, ParseSemver(m.to).value;
      if Before(from, active) {
        PlayRises(s, active, ms[1..], target);
      } else if !Past(to, target) {
        var t := ApplyAll(s, m.operations).value;
        var t' := t.(schema := t.schema.(version := m.to));
        PlayRises(t', to, ms[1..], target);
        CmpIsTotalOrder(active, to, Play(t', to, ms[1..], target).value.active);
      }
    }
  }

  /** Continuing from where a first run stopped ends like one run that goes on. */
  predicate InParts(s: State, active: Semver, ms: seq<Migration>, first: Option<Semver>, second: Option<Semver>) {
    match Play(s, active, ms, first)
    case Err(e) => Play(s, active, ms, second) == Err(e)
    case Ok(p) => EndAlike(Play(s, active, ms, second), Play(p.state, p.active, ms, second), p.applied)
  }

  lemma SkippedInParts(s: State, active: Semver, ms: seq<Migration>, first: Option<Semver>, second: Option<Semver>)
    requires ms != [] && ParseSemver(ms[0].from).Some? && ParseSemver(ms[0].to).Some?
    requires Before(ParseSemver(ms[0].from).value, active)
    requires Play(s, active, ms[1..], first).Ok? ==> !Before(Play(s, active, ms[1..], first).value.active, active)
    requires InParts(s, active, ms[1..], first, second)
    ensures InParts(s, active, ms, first, second)
  {
    hide ParseSemver, ApplyAll, Past;
  }

  lemma AppliedInParts(s: State, active: Semver, ms: seq<Migration>, first: Option<Semver>, second: Option<Semver>,
                       t: State)
    requires ms != [] && ParseSemver(ms[0].from) == Some(active) && ParseSemver(ms[0].to).Some?
    requires ApplyAll(s, ms[0].operations).Ok?
    requires var u := ApplyAll(s, ms[0].operations).value; t == u.(schema := u.schema.(version := ms[0].to))
    requires var to := ParseSemver(ms[0].to).value;
             && !Past(to, first) && !Past(to, second) && InParts(t, to, ms[1..], first, second)
             && (Play(t, to, ms[1..], first).Ok? ==> Before(active, Play(t, to, ms[1..], first).value.active))
    ensures InParts(s, active, ms, first, second)
  {
    hide ParseSemver, ApplyAll, Past;
  }

  lemma {:induction false} PlayInTwoParts(s: State, active: Semver, ms: seq<Migration>, first: Option<Semver>,
                                          second: Option<Semver>)
    requires Rising(ms) && NoSooner(first, second)
    ensures InParts(s, active, ms, first, second)
    decreases |ms|
  {
    hide ParseSemver, ApplyAll;
    if ms != [] && ParseSemver(ms[0].from).Some? && ParseSemver(ms[0].to).Some? {
      var m := ms[0];
      var from, to := ParseSemver(m.from).value, ParseSemver(m.to).value;
      if Before(from, active) {
        PlayInTwoParts(s, active, ms[1..], first, second);
        if Play(s, active, ms[1..], first).Ok? {
          PlayRises(s, active, ms[1..], first);
        }
        SkippedInParts(s, active, ms, first, second);
      } else if !Before(active, from) && !Past(to, first) && ApplyAll(s, m.operations).Ok? {
        var t := ApplyAll(s, m.operations).value;
        var t' := t.(schema := t.schema.(version := m.to));
        PlayInTwoParts(t', to, ms[1..], first, second);
        if Play(t', to, ms[1..], first).Ok? {
          PlayRises(t', to, ms[1..], first);
        }
        AppliedInParts(s, active, ms, first, second, t');
      }
    }
  }

  /** What the next run loads is what the last one computed. */
  lemma ReloadsAlike(d: Store, ms: seq<Migration>, to: string)
    requires Migrate(d, ms, to).Ok?
    ensures var r := Migrate(d, ms, to).value;
            && Alike(Loaded(r.store), r.played.state)
            && ParseSemver(Loaded(r.store).schema.version) == Some(r.played.active)
  {
    hide ParseSemver, Ids, Thinned, Past;
    RunWritesItsState(d, ms, to);
    PlayIsSound(Loaded(d), ParseSemver(Loaded(d).schema.version).value, ms, Target(to).value);
    NoVersion();
  }

  lemma NoVersion()
    ensures ParseSemver([]).None?
  {
  }

  /** Running to one target and then on to a later one, or to no target, does what one run does: both fail, or both
      leave the same files, the same version and the same migrations applied. */
  lemma RunInTwoParts(d: Store, ms: seq<Migration>, first: string, second: string)
    requires Rising(ms)
    requires Target(first).Ok? && Target(second).Ok? && NoSooner(Target(first).value, Target(second).value)
    ensures match Migrate(d, ms, first)
            case Err(e) => Migrate(d, ms, second) == Err(e)
            case Ok(a) =>
              match Migrate(a.store, ms, second)
              case Err(e) => Migrate(d, ms, second) == Err(e)
              case Ok(b) =>
                match Migrate(d, ms, second)
                case Err(_) => false
                case Ok(whole) => && whole.store == b.store && whole.played.active == b.played.active
                                  && whole.played.applied == a.played.applied + b.played.applied
  {
    hide ParseSemver, Play, Ids, Thinned, Rising, Target, NoSooner;
    if ParseSemver(Loaded(d).schema.version).Some? {
      var current := ParseSemver(Loaded(d).schema.version).value;
      var x, y := Target(first).value, Target(second).value;
      PlayInTwoParts(Loaded(d), current, ms, x, y);
      if Migrate(d, ms, first).Ok? {
        var a := Migrate(d, ms, first).value;
        ReloadsAlike(d, ms, first);
        PlayAlike(a.played.state, Loaded(a.store), a.played.active, ms, y);
        if Migrate(d, ms, second).Ok? {
          SameFiles(d, ms, first, second);
        }
      }
    }
  }

  lemma SameFiles(d: Store, ms: seq<Migration>, first: string, second: string)
    requires Migrate(d, ms, first).Ok? && Migrate(Migrate(d, ms, first).value.store, ms, second).Ok?
        && Migrate(d, ms, second).Ok?
    requires var a, whole := Migrate(d, ms, first).value, Migrate(d, ms, second).value;
             var b := Migrate(a.store, ms, second).value;
             && Alike(whole.played.state, b.played.state)
             && whole.played.applied == a.played.applied + b.played.applied
    ensures var a, whole := Migrate(d, ms, first).value, Migrate(d, ms, second).value;
            whole.store == Migrate(a.store, ms, second).value.store
  {
    hide ParseSemver, Play, Ids, Thinned;
    var a, whole := Migrate(d, ms, first).value, Migrate(d, ms, second).value;
    RunWritesItsState(d, ms, first);
    RunWritesItsState(d, ms, second);
    RunWritesItsState(a.store, ms, second);
    ReloadsAlike(d, ms, first);
    var b := Migrate(a.store, ms, second).value;
    if b.played.applied == [] {
      ReloadsAlike(a.store, ms, second);
    }
  }

  /** With rising versions a second run to the same target succeeds, applies nothing and writes nothing. */
  lemma RerunAppliesNothing(d: Store, ms: seq<Migration>, to: string)
    requires Rising(ms) && Migrate(d, ms, to).Ok?
    ensures var a := Migrate(d, ms, to).value;
            && Migrate(a.store, ms, to).Ok?
            && Migrate(a.store, ms, to).value.played.applied == [] && Migrate(a.store, ms, to).value.store == a.store
  {
    hide Play, Rising, ParseSemver;
    var target := Target(to).value;
    if target.Some? {
      CmpIsTotalOrder(target.value, target.value, target.value);
    }
    RunInTwoParts(d, ms, to, to);
  }

  // ----- running again ----------------------------------------------------

  predicate Readable(m: Migration) {
    ParseSemver(m.from).Some? && ParseSemver(m.to).Some?
  }

  /** The migration starts below the version: a run at that version skips it. */
  predicate Below(m: Migration, v: Semver) {
    Readable(m) && Before(ParseSemver(m.from).value, v)
  }

  /** The migration starts at the version and leads past the target: a run at that version ends there. */
  predicate Stops(m: Migration, v: Semver, target: Option<Semver>) {
    Readable(m) && ParseSemver(m.from).value == v && Past(ParseSemver(m.to).value, target)
  }

  /** The first migration, if any, that does not start below the version stops a run at it. */
  ghost predicate Idle(ms: seq<Migration>, v: Semver, target: Option<Semver>) {
    forall i :: 0 <= i < |ms| && AllBelow(ms[..i], v) ==> Below(ms[i], v) || Stops(ms[i], v, target)
  }

  ghost predicate AllBelow(ms: seq<Migration>, v: Semver) {
    forall i :: 0 <= i < |ms| ==> Below(ms[i], v)
  }

  /** The version that a successful run ends at, computed from versions alone. */
  function FinalVersion(current: Semver, ms: seq<Migration>, target: Option<Semver>): Semver
    decreases |ms|
  {
    if ms == [] || !Readable(ms[0]) then current
    else if Before(ParseSemver(ms[0].from).value, current) then FinalVersion(current, ms[1..], target)
    else if Before(current, ParseSemver(ms[0].from).value) || Past(ParseSemver(ms[0].to).value, target) then current
    else FinalVersion(ParseSemver(ms[0].to).value, ms[1..], target)
  }

  lemma {:induction false} PlayEndsAt(s: State, active: Semver, ms: seq<Migration>, target: Option<Semver>)
    ensures Play(s, active, ms, target).Ok? ==>
        Play(s, active, ms, target).value.active == FinalVersion(active, ms, target)
    decreases |ms|
  {
    hide ParseSemver, ApplyAll, Before, Past;
    if ms != [] && Play(s, active, ms, target).Ok? {
      var m := ms[0];
      if Before(ParseSemver(m.from).value, active) {
        PlayEndsAt(s, active, ms[1..], target);
      } else if !Past(ParseSemver(m.to).value, target) {
        var t := ApplyAll(s, m.operations).value;
        PlayEndsAt(t.(schema := t.schema.(version := m.to)), ParseSemver(m.to).value, ms[1..], target);
      }
    }
  }

  lemma AllBelowHead(m: Migration, ms: seq<Migration>, v: Semver)
    ensures AllBelow([m] + ms, v) <==> Below(m, v) && AllBelow(ms, v)
  {
    hide Below;
    var all := [m] + ms;
    assert all[0] == m && forall k :: 0 <= k < |ms| ==> all[k + 1] == ms[k];
  }

  lemma IdleHead(ms: seq<Migration>, v: Semver, target: Option<Semver>)
    requires ms != []
    ensures Idle(ms, v, target) <==> Stops(ms[0], v, target) || (Below(ms[0], v) && Idle(ms[1..], v, target))
  {
    hide Stops, Readable, ParseSemver, Before;
    var rest := ms[1..];
    forall i | 0 <= i < |rest| ensures Below(ms[0], v) ==> (AllBelow(rest[..i], v) <==> AllBelow(ms[..i + 1], v)) {
      AllBelowHead(ms[0], rest[..i], v);
      assert ms[..i + 1] == [ms[0]] + rest[..i];
    }
    assert AllBelow(ms[..0], v);
    StopsIsNotBelow(ms[0], v, target);
    if Idle(ms, v, target) && Below(ms[0], v) {
      forall i | 0 <= i < |rest| && AllBelow(rest[..i], v) ensures Below(rest[i], v) || Stops(rest[i], v, target) {
        assert AllBelow(ms[..i + 1], v) && ms[i + 1] == rest[i];
      }
    }
    if Stops(ms[0], v, target) || (Below(ms[0], v) && Idle(rest, v, target)) {
      forall i | 0 <= i < |ms| && AllBelow(ms[..i], v) ensures Below(ms[i], v) || Stops(ms[i], v, target) {
        if i > 0 {
          assert ms[..i][0] == ms[0] && ms[i] == rest[i - 1];
          assert AllBelow(rest[..i - 1], v);
        }
      }
    }
  }

  lemma StopsIsNotBelow(m: Migration, v: Semver, target: Option<Semver>)
    ensures !(Stops(m, v, target) && Below(m, v))
  {
    hide ParseSemver;
  }

  lemma {:induction false} IdleExactly(s: State, active: Semver, ms: seq<Migration>, target: Option<Semver>)
    ensures Idle(ms, active, target) <==>
            (Play(s, active, ms, target).Ok? && Play(s, active, ms, target).value.applied == [])
    decreases |ms|
  {
    hide ParseSemver, ApplyAll, Past;
    if ms != [] {
      IdleHead(ms, active, target);
      if Below(ms[0], active) {
        IdleExactly(s, active, ms[1..], target);
      }
    }
  }

  /** A second run to the same target, or without one, succeeds and applies nothing exactly when, at the version that
      the versions of the files lead to, the first migration that is not skipped stops the run. */
  lemma RerunExactlyWhen(d: Store, ms: seq<Migration>, to: string)
    requires Migrate(d, ms, to).Ok?
    ensures var current, target := ParseSemver(Loaded(d).schema.version).value, Target(to).value;
            var again := Migrate(Migrate(d, ms, to).value.store, ms, to);
            Idle(ms, FinalVersion(current, ms, target), target) <==> (again.Ok? && again.value.played.applied == [])
  {
    hide ParseSemver, Play, Idle, FinalVersion;
    var a := Migrate(d, ms, to).value;
    ReloadsAlike(d, ms, to);
    PlayEndsAt(Loaded(d), ParseSemver(Loaded(d).schema.version).value, ms, Target(to).value);
    IdleExactly(Loaded(a.store), a.played.active, ms, Target(to).value);
  }

  /** A file between two versions, without operations. */
  function Step(number: nat, from: Semver, to: Semver): Migration {
    Migration(number, FormatSemver(from), FormatSemver(to), "step", [])
  }

  lemma StepReads(number: nat, from: Semver, to: Semver)
    ensures var m := Step(number, from, to);
            ParseSemver(m.from) == Some(from) && ParseSemver(m.to) == Some(to) && m.operations == []
  {
    ParseOfFormat(from);
    ParseOfFormat(to);
  }

  lemma EmptyStepPlayed(s: State, m: Migration, from: Semver, to: Semver, target: Option<Semver>)
    requires ParseSemver(m.from) == Some(from) && ParseSemver(m.to) == Some(to) && m.operations == []
    requires !Past(to, target)
    ensures Play(s, from, [m], target) == Ok(Played(s.(schema := s.schema.(version := m.to)), to, [m], []))
  {
    hide ParseSemver, Past;
    assert [m][1..] == [];
    assert ApplyAll(s, []) == Ok(s);
    assert [m] + [] == [m];
  }

  /** The input that fails: a migration that leads to the version it starts from is applied by every run. */
  lemma LeadsNowhere(d: Store, v: Semver)
    requires d.schema.version == FormatSemver(v)
    ensures var ms := [Step(1, v, v)];
            && Migrate(d, ms, []).Ok? && Migrate(d, ms, []).value.played.applied == ms
            && Migrate(Migrate(d, ms, []).value.store, ms, []).Ok?
            && Migrate(Migrate(d, ms, []).value.store, ms, []).value.played.applied == ms
  {
    hide ParseSemver, FormatSemver, Play, Step;
    var m := Step(1, v, v);
    StepReads(1, v, v);
    ParseOfFormat(v);
    NoVersion();
    EmptyStepPlayed(Loaded(d), m, v, v, None);
    ReloadsAlike(d, [m], []);
    var a := Migrate(d, [m], []).value;
    PlayEndsAt(Loaded(d), v, [m], None);
    assert FinalVersion(v, [m], None) == v by {
      assert [m][1..] == [];
    }
    EmptyStepPlayed(Loaded(a.store), m, v, v, None);
  }

  /** With a target a second run can apply nothing although a migration that was applied starts above the version it
      ended at: the first run skips an earlier file and applies a later one, and the earlier file stops the second
      run. */
  lemma EarlierFileStops(d: Store)
    requires d.schema.version == FormatSemver(Semver(2, 0, 0))
    ensures var one, two, five, nine := Semver(1, 0, 0), Semver(2, 0, 0), Semver(5, 0, 0), Semver(9, 0, 0);
            var ms := [Step(1, one, nine), Step(2, two, one)];
            var to := FormatSemver(five);
            && Migrate(d, ms, to).Ok? && Migrate(d, ms, to).value.played.applied == [ms[1]]
            && Migrate(d, ms, to).value.played.active == one && !Below(ms[1], one)
            && Migrate(Migrate(d, ms, to).value.store, ms, to).Ok?
            && Migrate(Migrate(d, ms, to).value.store, ms, to).value.played.applied == []
  {
    hide ParseSemver, FormatSemver, Idle, Step;
    var one, two, five, nine := Semver(1, 0, 0), Semver(2, 0, 0), Semver(5, 0, 0), Semver(9, 0, 0);
    var ms, to := [Step(1, one, nine), Step(2, two, one)], FormatSemver(five);
    StepReads(1, one, nine);
    StepReads(2, two, one);
    ParseOfFormat(two);
    ParseOfFormat(five);
    NoVersion();
    assert ms[1..] == [Step(2, two, one)];
    EmptyStepPlayed(Loaded(d), ms[1], two, one, Some(five));
    assert Play(Loaded(d), two, ms, Some(five)).Ok?;
    PlayEndsAt(Loaded(d), two, ms, Some(five));
    IdleHead(ms, one, Some(five));
    RerunExactlyWhen(d, ms, to);
  }

  /** The outcome of a run that had already applied and skipped these. */
  function Resume(applied: seq<Migration>, skipped: seq<Migration>, rest: Result<Played, string>)
    : Result<Played, string>
  {
    if rest.Err? then rest
    else Ok(rest.value.(applied := applied + rest.value.applied, skipped := skipped + rest.value.skipped))
  }

  lemma ResumeFromStart(rest: Result<Played, string>)
    ensures Resume([], [], rest) == rest
  {
    if rest.Ok? {
      assert [] + rest.value.applied == rest.value.applied && [] + rest.value.skipped == rest.value.skipped;
    }
  }

  lemma ResumeAtEnd(applied: seq<Migration>, skipped: seq<Migration>, s: State, active: Semver)
    ensures Resume(applied, skipped, Ok(Played(s, active, [], []))) == Ok(Played(s, active, applied, skipped))
  {
    assert applied + [] == applied && skipped + [] == skipped;
  }

  /** One migration moves from the front of what is left to the end of what is done. */
  lemma ResumeAfter(applied: seq<Migration>, skipped: seq<Migration>, m: Migration, rest: Result<Played, string>)
    ensures match rest
            case Err(e) => Resume(applied, skipped, rest) == rest
            case Ok(p) =>
              var one, other := Ok(p.(applied := [m] + p.applied)), Ok(p.(skipped := [m] + p.skipped));
              && Resume(applied, skipped, one) == Resume(applied + [m], skipped, rest)
              && Resume(applied, skipped, other) == Resume(applied, skipped + [m], rest)
  {
    if rest.Ok? {
      var p := rest.value;
      assert applied + ([m] + p.applied) == applied + [m] + p.applied;
      assert skipped + ([m] + p.skipped) == skipped + [m] + p.skipped;
    }
  }

  /** The files of a repository and the command that migrates them. */
  class Repository {
    var schema: Schema
    var entities: seq<Entity>
    var edges: seq<Edge>

    constructor (d: Store)
      ensures OnDisk() == d
    {
      schema, entities, edges := d.schema, d.entities, d.edges;
    }

    function OnDisk(): Store
      reads this
    {
      Store(schema, entities, edges)
    }

    /** A failed run and a dry run write nothing. */
    method ApplyMigrations(ms: seq<Migration>, to: string, dryRun: bool) returns (r: Result<Report, string>)
      modifies this
      ensures r == Migrate(old(OnDisk()), ms, to)
      ensures OnDisk() == if r.Ok? && !dryRun then r.value.store else old(OnDisk())
    {
      hide ParseSemver, Play, ApplyAll;
      var migrator := new Migrator(Loaded(OnDisk()).schema, entities, edges);
      var current := ParseSemver(migrator.schema.version);
      var target := Target(to);
      if current.None? || target.Err? {
        return Err("invalid semver");
      }
      var played := PlayThrough(migrator, current.value, ms, target.value);
      if played.Err? {
        return Err(played.error);
      }
      var p := played.value;
      r := Ok(Report(Written(OnDisk(), p), p));
      if !dryRun && p.applied != [] {
        schema := p.state.schema;
        if p.state.counts.entitiesRewritten > 0 {
          entities := p.state.entities;
        }
        if p.state.counts.edgesDropped > 0 {
          edges := p.state.edges;
        }
      }
    }

    method PlayThrough(migrator: Migrator, current: Semver, ms: seq<Migration>, target: Option<Semver>)
      returns (r: Result<Played, string>)
      modifies migrator
      ensures r == Play(old(migrator.Now()), current, ms, target)
    {
      hide ParseSemver, ApplyAll, Before, Past;
      var active := current;
      var applied, skipped := [], [];
      var i := 0;
      ghost var whole := Play(migrator.Now(), current, ms, target);
      assert ms[0..] == ms;
      ResumeFromStart(whole);
      while i < |ms|
        invariant i <= |ms|
        invariant whole == Resume(applied, skipped, Play(migrator.Now(), active, ms[i..], target))
      {
        var m := ms[i];
        assert ms[i..][0] == m && ms[i..][1..] == ms[i + 1..];
        ResumeAtEnd(applied, skipped, migrator.Now(), active);
        var from, to := ParseSemver(m.from), ParseSemver(m.to);
        if from.None? || to.None? {
          return Err("invalid semver");
        }
        if Before(from.value, active) {
          ResumeAfter(applied, skipped, m, Play(migrator.Now(), active, ms[i + 1..], target));
          skipped := skipped + [m];
          i := i + 1;
          continue;
        }
        if Before(active, from.value) {
          return Err("expects another version");
        }
        if Past(to.value, target) {
          return Ok(Played(migrator.Now(), active, applied, skipped));
        }
        var done := ApplyOperations(migrator, m.operations);
        if done.Err? {
          return Err(done.error);
        }
        migrator.schema := migrator.schema.(version := m.to);
        active := to.value;
        ResumeAfter(applied, skipped, m, Play(migrator.Now(), active, ms[i + 1..], target));
        applied := applied + [m];
        i := i + 1;
      }
      ResumeAtEnd(applied, skipped, migrator.Now(), active);
      return Ok(Played(migrator.Now(), active, applied, skipped));
    }

    method ApplyOperations(migrator: Migrator, ops: seq<Operation>) returns (r: Result<(), string>)
      modifies migrator
      ensures match ApplyAll(old(migrator.Now()), ops)
              case Ok(s) => r.Ok? && migrator.Now() == s
              case Err(e) => r == Err(e)
    {
      hide Applied;
      var i := 0;
      assert ops[0..] == ops;
      while i < |ops|
        invariant i <= |ops|
        invariant ApplyAll(old(migrator.Now()), ops) == ApplyAll(migrator.Now(), ops[i..])
      {
        assert ops[i..][0] == ops[i] && ops[i..][1..] == ops[i + 1..];
        r := migrator.Apply(ops[i]);
        if r.Err? {
          return;
        }
        i := i + 1;
      }
      return Ok(());
    }
  }
}
