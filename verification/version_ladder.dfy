/**
 Migration files that lead from version to version: which of them a run applies, and where it ends, with versions
 compared by their numbers.
 */
module VersionLadder {
  import opened Wrappers
  import opened SemanticVersions
  import opened SchemaOperations
  import opened MigrationRuns

  /** A lower major number, or the same and a lower minor one, or the same two and a lower patch. */
  predicate Earlier(a: Semver, b: Semver) {
    || a.major < b.major
    || (a.major == b.major && a.minor < b.minor)
    || (a.major == b.major && a.minor == b.minor && a.patch < b.patch)
  }

  predicate Above(v: Semver, target: Option<Semver>) {
    target.Some? && Earlier(target.value, v)
  }

  lemma OrderExactly(a: Semver, b: Semver, target: Option<Semver>)
    ensures Before(a, b) <==> Earlier(a, b)
    ensures Past(a, target) <==> Above(a, target)
    ensures Earlier(a, b) || a == b || Earlier(b, a)
  {
  }

  lemma EarlierOnce(a: Semver, b: Semver)
    ensures !(Earlier(a, b) && Earlier(b, a)) && !Earlier(a, a)
  {
  }

  // ----- any files --------------------------------------------------------

  /** Whatever is applied leads no higher than the target. */
  predicate NoneAbove(applied: seq<Migration>, target: Option<Semver>) {
    forall m :: m in applied ==> ParseSemver(m.to).Some? && !Above(ParseSemver(m.to).value, target)
  }

  /** The file starts at the version and leads above the target. */
  predicate LeadsAbove(m: Migration, active: Semver, target: Option<Semver>) {
    ParseSemver(m.from) == Some(active) && ParseSemver(m.to).Some? && Above(ParseSemver(m.to).value, target)
  }

  /** The first `n` files are those applied and those skipped. */
  predicate Reads(ms: seq<Migration>, applied: seq<Migration>, skipped: seq<Migration>, n: nat) {
    n <= |ms| && n == |applied| + |skipped| && multiset(applied) + multiset(skipped) == multiset(ms[..n])
  }

  /** A run applies or skips each file that it reads, none of them leads above the target when applied, and it stops
      before the last only at one that starts at the version reached and leads above the target. */
  predicate StopsRightly(ms: seq<Migration>, target: Option<Semver>, p: Played) {
    var n := |p.applied| + |p.skipped|;
    Reads(ms, p.applied, p.skipped, n) && NoneAbove(p.applied, target)
    && (n < |ms| ==> LeadsAbove(ms[n], p.active, target))
  }

  lemma OneMore(m: Migration, ms: seq<Migration>, n: nat)
    requires ms != [] && ms[0] == m && n < |ms|
    ensures multiset(ms[..n + 1]) == multiset{m} + multiset(ms[1..][..n])
  {
    assert ms[..n + 1] == [m] + ms[1..][..n];
  }

  lemma OneMoreFirst(m: Migration, ms: seq<Migration>)
    ensures multiset([m] + ms) == multiset{m} + multiset(ms)
  {
  }

  lemma {:induction false} PlayStopsRightly(s: State, active: Semver, ms: seq<Migration>, target: Option<Semver>)
    ensures Play(s, active, ms, target).Ok? ==> StopsRightly(ms, target, Play(s, active, ms, target).value)
    decreases |ms|
  {
    hide ParseSemver, ApplyAll, Before, Past, Above, StopsRightly;
    if Play(s, active, ms, target).Ok? {
      if ms == [] {
        NoneRead(ms, target, s, active);
      } else {
        var m := ms[0];
        var from, to := ParseSemver(m.from).value, ParseSemver(m.to).value;
        OrderExactly(to, to, target);
        OrderExactly(from, active, target);
        if Before(from, active) {
          PlayStopsRightly(s, active, ms[1..], target);
          ReadOne(ms, target, Play(s, active, ms[1..], target).value, false);
        } else if Past(to, target) {
          SameVersion(from, active);
          NoneRead(ms, target, s, active);
        } else {
          var t := ApplyAll(s, m.operations).value;
          var t' := t.(schema := t.schema.(version := m.to));
          PlayStopsRightly(t', to, ms[1..], target);
          ReadOne(ms, target, Play(t', to, ms[1..], target).value, true);
        }
      }
    }
  }

  lemma SameVersion(a: Semver, b: Semver)
    requires !Before(a, b) && !Before(b, a)
    ensures a == b
  {
  }

  lemma NoneRead(ms: seq<Migration>, target: Option<Semver>, s: State, active: Semver)
    requires ms != [] ==> LeadsAbove(ms[0], active, target)
    ensures StopsRightly(ms, target, Played(s, active, [], []))
  {
    hide LeadsAbove;
  }

  lemma ReadOne(ms: seq<Migration>, target: Option<Semver>, p: Played, applied: bool)
    requires ms != [] && StopsRightly(ms[1..], target, p)
    requires applied ==> NoneAbove([ms[0]], target)
    ensures StopsRightly(ms, target,
                         if applied then p.(applied := [ms[0]] + p.applied) else p.(skipped := [ms[0]] + p.skipped))
  {
    hide LeadsAbove, Reads, NoneAbove;
    var n := |p.applied| + |p.skipped|;
    ReadsOne(ms, p.applied, p.skipped, n);
    if applied {
      OneNotAbove(ms[0], p.applied, target);
    }
  }

  lemma ReadsOne(ms: seq<Migration>, applied: seq<Migration>, skipped: seq<Migration>, n: nat)
    requires ms != [] && Reads(ms[1..], applied, skipped, n)
    ensures Reads(ms, [ms[0]] + applied, skipped, n + 1) && Reads(ms, applied, [ms[0]] + skipped, n + 1)
  {
    OneMore(ms[0], ms, n);
    OneMoreFirst(ms[0], applied);
    OneMoreFirst(ms[0], skipped);
  }

  lemma OneNotAbove(m: Migration, applied: seq<Migration>, target: Option<Semver>)
    requires NoneAbove([m], target) && NoneAbove(applied, target)
    ensures NoneAbove([m] + applied, target)
  {
    hide ParseSemver, Above;
    assert m in [m];
  }

  predicate StartsBelow(m: Migration, v: Semver) {
    ParseSemver(m.from).Some? && ParseSemver(m.to).Some? && Earlier(ParseSemver(m.from).value, v)
  }

  predicate Refused(m: Migration, v: Semver) {
    ParseSemver(m.from).None? || ParseSemver(m.to).None? || Earlier(v, ParseSemver(m.from).value)
  }

  /** A gap is refused, whatever the target is: the first file that does not start below the version has a version that
      cannot be read, or starts above. */
  lemma {:induction false} GapIsRefused(s: State, active: Semver, ms: seq<Migration>, target: Option<Semver>, j: nat)
    requires j < |ms| && (forall i :: 0 <= i < j ==> StartsBelow(ms[i], active)) && Refused(ms[j], active)
    ensures Play(s, active, ms, target).Err?
    decreases j
  {
    hide ParseSemver, ApplyAll, Before, Past, Earlier;
    var from := ParseSemver(ms[0].from);
    if from.Some? {
      OrderExactly(from.value, active, target);
      OrderExactly(active, from.value, target);
      EarlierOnce(active, from.value);
    }
    if j > 0 {
      assert StartsBelow(ms[0], active) && ms[1..][j - 1] == ms[j];
      GapIsRefused(s, active, ms[1..], target, j - 1);
    }
  }

  // ----- a ladder ---------------------------------------------------------

  /** File `i` leads from version `i` to version `i` + 1, and the versions rise. */
  ghost predicate Ladder(vs: seq<Semver>, ms: seq<Migration>) {
    && |vs| == |ms| + 1
    && (forall i :: 0 <= i < |ms| ==>
        ParseSemver(ms[i].from) == Some(vs[i]) && ParseSemver(ms[i].to) == Some(vs[i + 1]))
    && (forall i, j :: 0 <= i < j < |vs| ==> Earlier(vs[i], vs[j]))
  }

  /** The operations of each file in turn, and the version it leads to. */
  function Climb(s: State, ms: seq<Migration>): Result<State, string>
    decreases |ms|
  {
    if ms == [] then Ok(s)
    else
      match ApplyAll(s, ms[0].operations)
      case Err(e) => Err(e)
      case Ok(t) => Climb(t.(schema := t.schema.(version := ms[0].to)), ms[1..])
  }

  /** From version `k`, version `n` is the last that is not above the target. */
  ghost predicate LastWithin(vs: seq<Semver>, k: nat, n: nat, target: Option<Semver>) {
    && k <= n < |vs| && (forall i :: k < i <= n ==> !Above(vs[i], target))
    && (n + 1 < |vs| ==> Above(vs[n + 1], target))
  }

  /** A run over the files from `j` on, at version `k`, skips files `j` to `k` and climbs from version `k` to `n`. */
  predicate ClimbsTo(s: State, vs: seq<Semver>, ms: seq<Migration>, j: nat, k: nat, n: nat, target: Option<Semver>)
    requires j <= k <= n <= |ms| && n < |vs|
  {
    Play(s, vs[k], ms[j..], target)
    == match Climb(s, ms[k..n])
       case Err(e) => Err(e)
       case Ok(t) => Ok(Played(t, vs[n], ms[k..n], ms[j..k]))
  }

  lemma SkipOne(s: State, vs: seq<Semver>, ms: seq<Migration>, j: nat, k: nat, n: nat, target: Option<Semver>)
    requires Ladder(vs, ms) && j < k <= n < |vs| && ClimbsTo(s, vs, ms, j + 1, k, n, target)
    ensures ClimbsTo(s, vs, ms, j, k, n, target)
  {
    hide ParseSemver, ApplyAll, Before, Past, Earlier, Climb;
    OrderExactly(vs[j], vs[k], target);
    assert ms[j..][0] == ms[j] && ms[j..][1..] == ms[j + 1..];
    assert ms[j..k] == [ms[j]] + ms[j + 1..k];
  }

  lemma ClimbOne(s: State, vs: seq<Semver>, ms: seq<Migration>, k: nat, n: nat, target: Option<Semver>)
    requires Ladder(vs, ms) && k < n < |vs| && !Above(vs[k + 1], target)
    requires match ApplyAll(s, ms[k].operations)
             case Err(_) => true
             case Ok(t) => ClimbsTo(t.(schema := t.schema.(version := ms[k].to)), vs, ms, k + 1, k + 1, n, target)
    ensures ClimbsTo(s, vs, ms, k, k, n, target)
  {
    hide ParseSemver, ApplyAll, Before, Past, Earlier, Above;
    OrderExactly(vs[k], vs[k], target);
    EarlierOnce(vs[k], vs[k]);
    OrderExactly(vs[k + 1], vs[k], target);
    assert ms[k..][0] == ms[k] && ms[k..][1..] == ms[k + 1..];
    assert ms[k..n][0] == ms[k] && ms[k..n][1..] == ms[k + 1..n];
    assert ms[k..n] == [ms[k]] + ms[k + 1..n];
    assert ms[k..k] == [] && ms[k + 1..k + 1] == [];
  }

  lemma StopThere(s: State, vs: seq<Semver>, ms: seq<Migration>, n: nat, target: Option<Semver>)
    requires Ladder(vs, ms) && n < |vs| && (n < |ms| ==> Above(vs[n + 1], target))
    ensures ClimbsTo(s, vs, ms, n, n, n, target)
  {
    hide ParseSemver, ApplyAll, Before, Past, Earlier, Above;
    EarlierOnce(vs[n], vs[n]);
    OrderExactly(vs[n], vs[n], target);
    assert ms[n..n] == [];
    if n < |ms| {
      OrderExactly(vs[n + 1], vs[n], target);
      assert ms[n..][0] == ms[n];
    }
  }

  lemma {:induction false} RunClimbs(s: State, vs: seq<Semver>, ms: seq<Migration>, j: nat, k: nat, n: nat,
                                     target: Option<Semver>)
    requires Ladder(vs, ms) && j <= k && LastWithin(vs, k, n, target)
    ensures ClimbsTo(s, vs, ms, j, k, n, target)
    decreases |ms| - j
  {
    hide Ladder, ClimbsTo, ApplyAll, Above;
    LadderLength(vs, ms);
    if j < k {
      RunClimbs(s, vs, ms, j + 1, k, n, target);
      SkipOne(s, vs, ms, j, k, n, target);
    } else if k < n {
      if ApplyAll(s, ms[k].operations).Ok? {
        var t := ApplyAll(s, ms[k].operations).value;
        RunClimbs(t.(schema := t.schema.(version := ms[k].to)), vs, ms, k + 1, k + 1, n, target);
      }
      ClimbOne(s, vs, ms, k, n, target);
    } else {
      StopThere(s, vs, ms, n, target);
    }
  }

  lemma LadderLength(vs: seq<Semver>, ms: seq<Migration>)
    requires Ladder(vs, ms)
    ensures |vs| == |ms| + 1
  {
  }

  /** On a ladder a run from version `k` skips the files below it, applies exactly those up to the last version that is
      not above the target, and ends there; it fails exactly when an operation of those files does. */
  lemma MigrateClimbs(d: Store, vs: seq<Semver>, ms: seq<Migration>, k: nat, n: nat, to: string)
    requires Ladder(vs, ms) && Target(to).Ok? && LastWithin(vs, k, n, Target(to).value)
    requires ParseSemver(Loaded(d).schema.version) == Some(vs[k])
    ensures |vs| == |ms| + 1
    ensures match Climb(Loaded(d), ms[k..n])
            case Err(e) => Migrate(d, ms, to) == Err(e)
            case Ok(t) => Migrate(d, ms, to).Ok?
                          && Migrate(d, ms, to).value.played == Played(t, vs[n], ms[k..n], ms[..k])
  {
    hide ParseSemver, Ladder, Climb, Play, Written;
    LadderLength(vs, ms);
    RunClimbs(Loaded(d), vs, ms, 0, k, n, Target(to).value);
    assert ms[0..] == ms;
  }

  /** A run to a version that a file of the ladder leads to applies the files up to that one and ends at exactly that
      version. */
  lemma RunReachesTarget(d: Store, vs: seq<Semver>, ms: seq<Migration>, k: nat, n: nat, to: string)
    requires Ladder(vs, ms) && k <= n < |vs| && ParseSemver(Loaded(d).schema.version) == Some(vs[k])
    requires to != [] && ParseSemver(to) == Some(vs[n])
    ensures Migrate(d, ms, to).Ok? <==> Climb(Loaded(d), ms[k..n]).Ok?
    ensures Migrate(d, ms, to).Ok?
            ==> && Migrate(d, ms, to).value.played.active == vs[n]
                && Migrate(d, ms, to).value.played.applied == ms[k..n]
                && (k < n ==> ms[n - 1] in Migrate(d, ms, to).value.played.applied)
  {
    hide ParseSemver, Climb, Migrate, Earlier;
    LadderLength(vs, ms);
    var target := Target(to).value;
    forall i | k < i <= n ensures !Above(vs[i], target) {
      EarlierOnce(vs[i], vs[n]);
      if i < n {
        assert Earlier(vs[i], vs[n]);
      }
    }
    MigrateClimbs(d, vs, ms, k, n, to);
    if k < n {
      assert ms[k..n][n - 1 - k] == ms[n - 1];
    }
  }

  /** Without a target a run applies all files from version `k` on. */
  lemma RunReachesTop(d: Store, vs: seq<Semver>, ms: seq<Migration>, k: nat)
    requires Ladder(vs, ms) && k < |vs| && ParseSemver(Loaded(d).schema.version) == Some(vs[k])
    ensures |vs| == |ms| + 1 && (Migrate(d, ms, []).Ok? <==> Climb(Loaded(d), ms[k..]).Ok?)
    ensures Migrate(d, ms, []).Ok? ==> Migrate(d, ms, []).value.played.active == vs[|ms|]
                                       && Migrate(d, ms, []).value.played.applied == ms[k..]
  {
    hide ParseSemver, Climb, Migrate, Earlier;
    LadderLength(vs, ms);
    assert ms[k..|ms|] == ms[k..];
    MigrateClimbs(d, vs, ms, k, |ms|, []);
  }

  /** Whatever the files are: what a run applies and where it stops. */
  lemma MigrateStopsRightly(d: Store, ms: seq<Migration>, to: string)
    requires Migrate(d, ms, to).Ok?
    ensures Target(to).Ok? && StopsRightly(ms, Target(to).value, Migrate(d, ms, to).value.played)
  {
    hide ParseSemver, Play, Written, StopsRightly;
    PlayStopsRightly(Loaded(d), ParseSemver(Loaded(d).schema.version).value, ms, Target(to).value);
  }

  /** A schema without a version is at 1.0.0. */
  lemma MissingVersion(d: Store)
    requires d.schema.version == []
    ensures ParseSemver(Loaded(d).schema.version) == Some(Semver(1, 0, 0))
  {
    hide ParseSemver;
    ParseOfFormat(Semver(1, 0, 0));
    assert NumberText(0) == "0" && NumberText(1) == "1";
    assert FormatSemver(Semver(1, 0, 0)) == "1.0.0";
  }
}
