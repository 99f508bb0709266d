/**
 The crash-safe two-file publish of `khive kg import`: stage, journal, back up, swap, mark committed,
 clean up, and the recovery that every later `khive kg` command runs first.

 A process is a disk, the number of disk operations it still performs before it dies, and whether it is
 dead. A dead process changes nothing, so running the code with every value of `left` visits every state a
 crash can leave behind, inside recovery and inside the rollback included.
 */
module ImportPublish {
  import opened Wrappers
  import opened ImportOptions

  type Content = string

  datatype Which = Entities | Edges

  /** What stands at the entities path and at the edges path of one place. */
  datatype Files = Files(entities: Option<Content>, edges: Option<Content>) {
    function Get(w: Which): Option<Content> {
      if w == Entities then entities else edges
    }
    function Put(w: Which, c: Option<Content>): Files {
      if w == Entities then this.(entities := c) else this.(edges := c)
    }
    predicate Both() {
      entities.Some? && edges.Some?
    }
  }

  const NO_FILES := Files(None, None)

  datatype Status = Pending | Committed
  datatype Journal = Journal(stagingDir: nat, status: Status)

  /** The live files, their `.bak` neighbours, every staging directory, and the journal. */
  datatype Disk = Disk(live: Files, bak: Files, staging: map<nat, Files>, journal: Option<Journal>) {
    function Staged(dir: nat): Files {
      if dir in staging then staging[dir] else NO_FILES
    }
    predicate Clean() {
      journal == None && bak == NO_FILES
    }
  }

  datatype Op =
    | Stage(dir: nat, w: Which, content: Content)
    | RemoveStaged(dir: nat, w: Which)
    | RemoveDir(dir: nat)
    | WriteJournal(journal: Journal)
    | MarkCommitted
    | RemoveJournal
    | BackUp(w: Which)
    | Publish(dir: nat, w: Which)
    | Restore(w: Which)
    | RemoveLive(w: Which)
    | RemoveBak(w: Which)
    | WriteLive(w: Which, content: Content)

  /** One atomic operation. A rename or remove whose source is absent changes nothing. */
  function Apply(d: Disk, op: Op): Disk {
    match op
    case Stage(dir, w, c) => d.(staging := d.staging[dir := d.Staged(dir).Put(w, Some(c))])
    case RemoveStaged(dir, w) =>
      if dir in d.staging then d.(staging := d.staging[dir := d.staging[dir].Put(w, None)]) else d
    case RemoveDir(dir) => d.(staging := d.staging - {dir})
    case WriteJournal(j) => d.(journal := Some(j))
    case MarkCommitted =>
      if d.journal.Some? then d.(journal := Some(d.journal.value.(status := Committed))) else d
    case RemoveJournal => d.(journal := None)
    case BackUp(w) =>
      if d.live.Get(w).Some? then d.(live := d.live.Put(w, None), bak := d.bak.Put(w, d.live.Get(w))) else d
    case Publish(dir, w) =>
      if d.Staged(dir).Get(w).Some?
      then d.(live := d.live.Put(w, d.Staged(dir).Get(w)), staging := d.staging[dir := d.Staged(dir).Put(w, None)])
      else d
    case Restore(w) =>
      if d.bak.Get(w).Some? then d.(live := d.live.Put(w, d.bak.Get(w)), bak := d.bak.Put(w, None)) else d
    case RemoveLive(w) => d.(live := d.live.Put(w, None))
    case RemoveBak(w) => d.(bak := d.bak.Put(w, None))
    case WriteLive(w, c) => d.(live := d.live.Put(w, Some(c)))
  }

  datatype Process = Process(disk: Disk, left: nat, dead: bool)

  function Do(p: Process, op: Op): Process {
    if p.dead || p.left == 0 then p.(dead := true) else Process(Apply(p.disk, op), p.left - 1, false)
  }

  // ----- recovery ---------------------------------------------------------

  function RemoveTree(p: Process, dir: nat): Process {
    Do(Do(Do(p, RemoveStaged(dir, Entities)), RemoveStaged(dir, Edges)), RemoveDir(dir))
  }

  function RestoreFile(p: Process, w: Which): Process {
    if p.disk.bak.Get(w).Some? then Do(Do(p, RemoveLive(w)), Restore(w)) else p
  }

  function Recover(p: Process): Process {
    match p.disk.journal
    case None => p
    case Some(Journal(dir, Pending)) =>
      Do(RemoveTree(RestoreFile(RestoreFile(p, Entities), Edges), dir), RemoveJournal)
    case Some(Journal(_, Committed)) =>
      Do(Do(Do(p, RemoveBak(Entities)), RemoveBak(Edges)), RemoveJournal)
  }

  function Older(bak: Option<Content>, live: Option<Content>): Option<Content> {
    if bak.Some? then bak else live
  }

  /** The disk an uninterrupted recovery leaves, read off the disk it starts from: the meaning of a disk. */
  function Recovered(d: Disk): Disk {
    match d.journal
    case None => d
    case Some(Journal(dir, Pending)) =>
      Disk(Files(Older(d.bak.entities, d.live.entities), Older(d.bak.edges, d.live.edges)),
           NO_FILES, d.staging - {dir}, None)
    case Some(Journal(_, Committed)) => Disk(d.live, NO_FILES, d.staging, None)
  }

  /** How many disk operations an uninterrupted recovery performs. */
  function RecoverySteps(d: Disk): nat {
    match d.journal
    case None => 0
    case Some(Journal(_, Pending)) =>
      (if d.bak.entities.Some? then 2 else 0) + (if d.bak.edges.Some? then 2 else 0) + 4
    case Some(Journal(_, Committed)) => 3
  }

  /** Dying anywhere inside recovery leaves the meaning of the disk unchanged; finishing reaches it. */
  lemma RecoveryKeepsMeaning(p: Process)
    requires !p.dead
    ensures var r := Recover(p);
            && Recovered(r.disk) == Recovered(p.disk)
            && (r.dead <==> p.left < RecoverySteps(p.disk))
            && (!r.dead ==> r.disk == Recovered(p.disk) && r.left == p.left - RecoverySteps(p.disk))
  {
    match p.disk.journal
    case None =>
    case Some(Journal(dir, Pending)) =>
      var a := RestoreFile(p, Entities);
      RestoreKeepsMeaning(p, Entities, dir);
      var b := RestoreFile(a, Edges);
      RestoreKeepsMeaning(a, Edges, dir);
      RemoveTreeKeepsMeaning(b, dir);
    case Some(Journal(_, Committed)) =>
  }

  lemma RestoreKeepsMeaning(p: Process, w: Which, dir: nat)
    requires p.disk.journal == Some(Journal(dir, Pending))
    ensures var r := RestoreFile(p, w);
            && r.disk.journal == p.disk.journal
            && r.disk.staging == p.disk.staging
            && Recovered(r.disk) == Recovered(p.disk)
            && var cost := if p.disk.bak.Get(w).Some? then 2 else 0;
            && (r.dead <==> p.dead || p.left < cost)
            && (!r.dead ==> r.left == p.left - cost
                            && r.disk.bak == p.disk.bak.Put(w, None)
                            && r.disk.live == p.disk.live.Put(w, Older(p.disk.bak.Get(w), p.disk.live.Get(w))))
  {
  }

  lemma RemoveTreeKeepsMeaning(p: Process, dir: nat)
    ensures var r := RemoveTree(p, dir);
            && r.disk == p.disk.(staging := r.disk.staging)
            && r.disk.staging - {dir} == p.disk.staging - {dir}
            && (r.dead <==> p.dead || p.left < 3)
            && (!r.dead ==> r.left == p.left - 3 && r.disk.staging == p.disk.staging - {dir})
  {
  }

  /** Recovery attempts, the i-th of which dies after `lives[i]` operations. */
  function Attempts(d: Disk, lives: seq<nat>): Disk
    decreases |lives|
  {
    if lives == [] then d else Attempts(Recover(Process(d, lives[0], false)).disk, lives[1..])
  }

  /** Confluence: however often recovery is interrupted, finishing it gives what one run would have given. */
  lemma {:induction false} RecoveryConfluent(d: Disk, lives: seq<nat>, last: nat)
    requires last >= 8
    ensures Recover(Process(Attempts(d, lives), last, false)).disk == Recovered(d)
    ensures !Recover(Process(Attempts(d, lives), last, false)).dead
    decreases |lives|
  {
    if lives == [] {
      RecoveryKeepsMeaning(Process(d, last, false));
    } else {
      RecoveryKeepsMeaning(Process(d, lives[0], false));
      RecoveryConfluent(Recover(Process(d, lives[0], false)).disk, lives[1..], last);
    }
  }

  // ----- import -----------------------------------------------------------

  /** The one disk call of an import that fails, if any; every one of them is caught by the source. */
  datatype Fault = NoFault | BackUpFails(w: Which) | PublishFails(w: Which) | HookThrows

  datatype Job = Job(dir: nat, entities: Content, edges: Content, valid: bool, options: Options, fault: Fault) {
    function New(): Files {
      Files(Some(entities), Some(edges))
    }
    /** The job gets past validation and past the overwrite guard. */
    predicate Admitted(live: Files) {
      valid && !(options.Guarded() && live != NO_FILES)
    }
  }

  function StageBoth(p: Process, job: Job): Process {
    Do(Do(p, Stage(job.dir, Entities, job.entities)), Stage(job.dir, Edges, job.edges))
  }

  function Abandon(p: Process, dir: nat): Process {
    Do(RemoveTree(p, dir), RemoveJournal)
  }

  function RestoreIf(p: Process, w: Which, backedUp: bool): Process {
    if backedUp then Do(p, Restore(w)) else p
  }

  /** Rollback of a caught failure in the swap: `swapped` says that the new entities are already live. */
  function RollBack(p: Process, dir: nat, had: Files, swapped: bool): Process {
    var a := if swapped then Do(p, RemoveLive(Entities)) else p;
    Abandon(RestoreIf(RestoreIf(a, Entities, had.entities.Some?), Edges, had.edges.Some?), dir)
  }

  function CleanUp(p: Process, dir: nat, had: Files): Process {
    var a := if had.entities.Some? then Do(p, RemoveBak(Entities)) else p;
    var b := if had.edges.Some? then Do(a, RemoveBak(Edges)) else a;
    Do(RemoveTree(b, dir), RemoveJournal)
  }

  /** Everything after both backups: the swap, and then either the rollback or the commit. */
  function Swap(p: Process, job: Job, had: Files): Process {
    if job.fault == PublishFails(Entities) then RollBack(p, job.dir, had, false)
    else
      var a := Do(p, Publish(job.dir, Entities));
      if job.fault == HookThrows || job.fault == PublishFails(Edges) then RollBack(a, job.dir, had, true)
      else CleanUp(Do(Do(a, Publish(job.dir, Edges)), MarkCommitted), job.dir, had)
  }

  function BackUpIf(p: Process, w: Which, present: bool): Process {
    if present then Do(p, BackUp(w)) else p
  }

  /** Moving a live file aside under a pending journal changes nothing of what the disk means, killed or not, and
      moving it back gives the disk of before. */
  lemma BackUpKeepsMeaning(p: Process, w: Which)
    requires p.disk.journal.Some? && p.disk.journal.value.status == Pending && p.disk.bak.Get(w).None?
    ensures var there := BackUpIf(p, w, p.disk.live.Get(w).Some?);
            var back := RestoreIf(there, w, p.disk.live.Get(w).Some?);
            && Recovered(there.disk) == Recovered(p.disk) && Recovered(back.disk) == Recovered(p.disk)
            && (!back.dead ==> back.disk == p.disk)
            && (p.disk.live.Get(w).None? ==> there == p)
  {
  }

  function AfterJournal(p: Process, job: Job, had: Files): Process {
    if job.fault == BackUpFails(Entities) then Abandon(p, job.dir)
    else
      var c := BackUpIf(p, Entities, had.entities.Some?);
      if job.fault == BackUpFails(Edges) then Abandon(RestoreIf(c, Entities, had.entities.Some?), job.dir)
      else Swap(BackUpIf(c, Edges, had.edges.Some?), job, had)
  }

  function Import(p: Process, job: Job): Process {
    var had := p.disk.live;
    var a := StageBoth(p, job);
    if !job.Admitted(had) then RemoveTree(a, job.dir)
    else
      AfterJournal(Do(a, WriteJournal(Journal(job.dir, Pending))), job, had)
  }

  /** Operations up to and including the journal write that commits. */
  function CommitAt(had: Files): nat {
    6 + (if had.entities.Some? then 1 else 0) + (if had.edges.Some? then 1 else 0)
  }

  predicate Commits(p: Process, job: Job) {
    job.Admitted(p.disk.live) && job.fault == NoFault && p.left >= CommitAt(p.disk.live)
  }

  /** What a crash before the commit point may leave: every file that was live is the old one, and a file
      that was absent is absent or new, the new edges never without the new entities when both were absent. */
  predicate Kept(now: Files, had: Files, job: Job) {
    && (had.entities.Some? ==> now.entities == had.entities)
    && (had.edges.Some? ==> now.edges == had.edges)
    && (had.entities.None? ==> now.entities == None || now.entities == Some(job.entities))
    && (had.edges.None? ==> now.edges == None || now.edges == Some(job.edges))
    && (had == NO_FILES && now.edges.Some? ==> now.entities.Some?)
  }

  /** The disk of an import that has not committed: pending, and recovery would leave a kept state. */
  predicate Uncommitted(d: Disk, had: Files, job: Job, start: Disk) {
    && d.journal == Some(Journal(job.dir, Pending))
    && Kept(Recovered(d).live, had, job)
    && d.staging - {job.dir} == start.staging - {job.dir}
  }

  lemma AbandonMeaning(p: Process, had: Files, job: Job, start: Disk)
    requires Uncommitted(p.disk, had, job, start)
    requires !p.dead ==> p.disk.bak == NO_FILES && p.disk.live == had
    ensures var r := Abandon(p, job.dir);
            && Recovered(r.disk).Clean()
            && Kept(Recovered(r.disk).live, had, job)
            && (!r.dead ==> r.disk == Disk(had, NO_FILES, start.staging - {job.dir}, None))
  {
  }

  lemma RollBackMeaning(p: Process, had: Files, job: Job, swapped: bool, start: Disk)
    requires Uncommitted(p.disk, had, job, start)
    requires !p.dead ==> p.disk.bak == had
    requires !p.dead ==> p.disk.live == Files(if swapped then Some(job.entities) else None, None)
    ensures var r := RollBack(p, job.dir, had, swapped);
            && Recovered(r.disk).Clean()
            && Kept(Recovered(r.disk).live, had, job)
            && (!r.dead ==> r.disk == Disk(had, NO_FILES, start.staging - {job.dir}, None))
  {
    var a := if swapped then Do(p, RemoveLive(Entities)) else p;
    var b := RestoreIf(a, Entities, had.entities.Some?);
    var c := RestoreIf(b, Edges, had.edges.Some?);
    assert Uncommitted(a.disk, had, job, start);
    assert Uncommitted(b.disk, had, job, start);
    assert Uncommitted(c.disk, had, job, start);
    AbandonMeaning(c, had, job, start);
  }

  lemma CleanUpMeaning(p: Process, had: Files, job: Job, start: Disk)
    requires !p.dead
    requires p.disk.journal == Some(Journal(job.dir, Committed))
    requires p.disk.live == job.New() && p.disk.bak == had
    requires p.disk.staging - {job.dir} == start.staging - {job.dir}
    ensures var r := CleanUp(p, job.dir, had);
            && Recovered(r.disk).Clean()
            && Recovered(r.disk).live == job.New()
            && (!r.dead ==> r.disk == Disk(job.New(), NO_FILES, start.staging - {job.dir}, None))
  {
    var a := if had.entities.Some? then Do(p, RemoveBak(Entities)) else p;
    var b := if had.edges.Some? then Do(a, RemoveBak(Edges)) else a;
    RemoveTreeKeepsMeaning(b, job.dir);
  }

  lemma SwapMeaning(p: Process, job: Job, had: Files, start: Disk)
    requires Uncommitted(p.disk, had, job, start)
    requires !p.dead ==> p.disk.bak == had && p.disk.live == NO_FILES && p.disk.Staged(job.dir) == job.New()
    ensures var r := Swap(p, job, had);
            var done := !p.dead && p.left >= 3 && (job.fault == NoFault || job.fault.BackUpFails?);
            && Recovered(r.disk).Clean()
            && (if done then Recovered(r.disk).live == job.New() else Kept(Recovered(r.disk).live, had, job))
            && (!r.dead ==> r.disk == Disk(if done then job.New() else had, NO_FILES, start.staging - {job.dir}, None))
  {
    if job.fault == PublishFails(Entities) {
      RollBackMeaning(p, had, job, false, start);
    } else {
      var a := Do(p, Publish(job.dir, Entities));
      assert Uncommitted(a.disk, had, job, start);
      if job.fault == HookThrows || job.fault == PublishFails(Edges) {
        RollBackMeaning(a, had, job, true, start);
      } else {
        var b := Do(a, Publish(job.dir, Edges));
        assert Uncommitted(b.disk, had, job, start);
        var c := Do(b, MarkCommitted);
        if !c.dead {
          CleanUpMeaning(c, had, job, start);
        } else {
          assert CleanUp(c, job.dir, had).disk == c.disk;
        }
      }
    }
  }

  lemma StageMeaning(p: Process, job: Job)
    requires p.disk.Clean() && !p.dead
    ensures var a := StageBoth(p, job);
            && a.disk == p.disk.(staging := a.disk.staging)
            && a.disk.staging - {job.dir} == p.disk.staging - {job.dir}
            && (a.dead <==> p.left < 2)
            && (!a.dead ==> a.left == p.left - 2 && a.disk.Staged(job.dir) == job.New())
  {
  }

  /** One import from a clean disk, dying anywhere, with any one caught failure and any files live before. */
  lemma ImportMeaning(p: Process, job: Job)
    requires p.disk.Clean() && !p.dead
    ensures var had, r := p.disk.live, Import(p, job);
            && Recovered(r.disk).Clean()
            && (if Commits(p, job) then Recovered(r.disk).live == job.New()
                else Kept(Recovered(r.disk).live, had, job))
            && (!r.dead ==> r.disk == Disk(if Commits(p, job) then job.New() else had, NO_FILES,
                                           p.disk.staging - {job.dir}, None))
  {
    var had := p.disk.live;
    var a := StageBoth(p, job);
    StageMeaning(p, job);
    if !job.Admitted(had) {
      RemoveTreeKeepsMeaning(a, job.dir);
    } else {
      var b := Do(a, WriteJournal(Journal(job.dir, Pending)));
      if b.dead {
        DeadStays(b, job, had);
      } else {
        JournalledMeaning(b, had, job, p.disk);
      }
    }
  }

  lemma DeadStays(b: Process, job: Job, had: Files)
    requires b.dead
    ensures AfterJournal(b, job, had) == b
  {
  }

  lemma JournalledMeaning(b: Process, had: Files, job: Job, start: Disk)
    requires !b.dead && job.Admitted(had)
    requires b.disk.journal == Some(Journal(job.dir, Pending)) && b.disk.bak == NO_FILES && b.disk.live == had
    requires b.disk.Staged(job.dir) == job.New() && b.disk.staging - {job.dir} == start.staging - {job.dir}
    ensures var r := AfterJournal(b, job, had);
            var done := job.fault == NoFault && b.left + 3 >= CommitAt(had);
            && Recovered(r.disk).Clean()
            && (if done then Recovered(r.disk).live == job.New() else Kept(Recovered(r.disk).live, had, job))
            && (!r.dead ==> r.disk == Disk(if done then job.New() else had, NO_FILES, start.staging - {job.dir}, None))
  {
    assert Uncommitted(b.disk, had, job, start);
    if job.fault == BackUpFails(Entities) {
      AbandonMeaning(b, had, job, start);
    } else {
      var c := BackUpIf(b, Entities, had.entities.Some?);
      assert Uncommitted(c.disk, had, job, start);
      if job.fault == BackUpFails(Edges) {
        var e := RestoreIf(c, Entities, had.entities.Some?);
        assert Uncommitted(e.disk, had, job, start);
        AbandonMeaning(e, had, job, start);
      } else {
        var e := BackUpIf(c, Edges, had.edges.Some?);
        assert Uncommitted(e.disk, had, job, start);
        SwapMeaning(e, job, had, start);
      }
    }
  }

  /** With both files live before, an import is atomic: whatever the crash point or the caught failure, the
      meaning of the disk is both old files, until the journal write that commits, and both new ones after it. */
  lemma ImportAtomic(p: Process, job: Job)
    requires p.disk.Clean() && p.disk.live.Both() && !p.dead
    ensures Recovered(Import(p, job).disk).Clean()
    ensures Recovered(Import(p, job).disk).live == if Commits(p, job) then job.New() else p.disk.live
  {
    ImportMeaning(p, job);
  }

  predicate Whole(d: Disk, job: Job, left: nat) {
    var now := Recovered(Import(Process(d, left, false), job).disk).live;
    now == d.live || now == job.New()
  }

  /** Exactly when an admitted import is atomic at every crash point: both files were live, or one was and
      the import would not change it. */
  lemma AtomicExactlyWhen(d: Disk, job: Job)
    requires d.Clean() && job.Admitted(d.live) && job.fault == NoFault
    ensures (forall left: nat :: Whole(d, job, left)) <==>
            || d.live.Both()
            || d.live.entities == Some(job.entities)
            || d.live.edges == Some(job.edges)
  {
    if d.live.Both() || d.live.entities == Some(job.entities) || d.live.edges == Some(job.edges) {
      forall left: nat ensures Whole(d, job, left) {
        ImportMeaning(Process(d, left, false), job);
      }
    } else {
      MixedAt(d, job);
    }
  }

  /** The crash point that leaves one file new and the other not. */
  lemma MixedAt(d: Disk, job: Job)
    requires d.Clean() && job.Admitted(d.live) && job.fault == NoFault && !d.live.Both()
    requires d.live.entities != Some(job.entities) && d.live.edges != Some(job.edges)
    ensures !Whole(d, job, if d.live == NO_FILES then 4 else if d.live.edges.Some? then 5 else 6)
  {
  }

  /** An import that lives long enough replaces existing live files exactly when it is not guarded: any conflict policy,
      `error` included, lets it pass. */
  lemma ReplacedExactlyWhen(p: Process, job: Job)
    requires p.disk.Clean() && !p.dead && p.disk.live != NO_FILES
    requires job.valid && job.fault == NoFault && p.left >= CommitAt(p.disk.live)
    ensures Recovered(Import(p, job).disk).live
         == if !job.options.overwrite && job.options.onConflict.None? then p.disk.live else job.New()
  {
    if job.options.Guarded() {
      StageMeaning(p, job);
      RemoveTreeKeepsMeaning(StageBoth(p, job), job.dir);
    } else {
      ImportMeaning(p, job);
    }
  }

  // ----- whole sessions ---------------------------------------------------

  /** What a `khive kg` command does after recovery: leave the live files alone, import, or write new content to the
      live entities and then to the live edges, each in one step and without a journal, as `export`, `resolve` and
      `migrate` do. */
  datatype Action = Leave | Install(job: Job) | Rewrite(entities: Option<Content>, edges: Option<Content>)

  /** One invocation that dies after `life` operations. */
  datatype Command = Command(life: nat, action: Action)

  function WriteIf(p: Process, w: Which, content: Option<Content>): Process {
    if content.Some? then Do(p, WriteLive(w, content.value)) else p
  }

  function Act(p: Process, action: Action): Process {
    match action
    case Leave => p
    case Install(job) => if p.dead then p else Import(p, job)
    case Rewrite(entities, edges) => WriteIf(WriteIf(p, Entities, entities), Edges, edges)
  }

  function RunCommand(d: Disk, c: Command): Disk {
    Act(Recover(Process(d, c.life, false)), c.action).disk
  }

  function RunSession(d: Disk, cmds: seq<Command>): Disk {
    if cmds == [] then d else RunCommand(RunSession(d, cmds[..|cmds| - 1]), cmds[|cmds| - 1])
  }

  /** Recovery would finish on a disk with both live files and nothing else left over. */
  predicate Settled(d: Disk) {
    Recovered(d).Clean() && Recovered(d).live.Both()
  }

  function Over(content: Option<Content>, live: Option<Content>): Option<Content> {
    if content.Some? then content else live
  }

  /** The pair that an action leaves when nothing stops it. */
  function Wanted(live: Files, action: Action): Files {
    match action
    case Leave => live
    case Install(job) => if job.Admitted(live) && job.fault == NoFault then job.New() else live
    case Rewrite(entities, edges) => Files(Over(entities, live.entities), Over(edges, live.edges))
  }

  /** The pair after an action that performs `steps` operations: an import installs its pair with its eighth, a rewrite
      writes file by file. */
  function Reached(live: Files, action: Action, steps: int): Files {
    match action
    case Leave => live
    case Install(job) => if steps >= 8 then Wanted(live, action) else live
    case Rewrite(entities, edges) =>
      var first := if entities.Some? then 1 else 0;
      var second := if edges.Some? then first + 1 else first;
      Files(if steps >= first then Over(entities, live.entities) else live.entities,
            if steps >= second then Over(edges, live.edges) else live.edges)
  }

  /** The one-register machine that a session refines. */
  function Ledger(d: Disk, cmds: seq<Command>): Files {
    if cmds == [] then Recovered(d).live
    else
      var before, c := RunSession(d, cmds[..|cmds| - 1]), cmds[|cmds| - 1];
      Reached(Ledger(d, cmds[..|cmds| - 1]), c.action, c.life - RecoverySteps(before))
  }

  lemma CommandReaches(d: Disk, c: Command)
    requires Settled(d)
    ensures var r := RunCommand(d, c);
            Settled(r) && Recovered(r).live == Reached(Recovered(d).live, c.action, c.life - RecoverySteps(d))
  {
    var start := Process(d, c.life, false);
    RecoveryKeepsMeaning(start);
    if c.action.Install? && !Recover(start).dead {
      ImportAtomic(Recover(start), c.action.job);
    }
  }

  /** Over every session, each command of it killed anywhere: the disk always means a pair of live files, and which pair
      is decided by the committing writes of imports and the single writes of the other commands. */
  lemma {:induction false} SessionRefinesLedger(d: Disk, cmds: seq<Command>)
    requires Settled(d)
    ensures Settled(RunSession(d, cmds))
    ensures Recovered(RunSession(d, cmds)).live == Ledger(d, cmds)
    decreases |cmds|
  {
    if cmds != [] {
      SessionRefinesLedger(d, cmds[..|cmds| - 1]);
      CommandReaches(RunSession(d, cmds[..|cmds| - 1]), cmds[|cmds| - 1]);
    }
  }

  /** Killed anywhere, the command leaves the pair it found or the pair it wants. */
  ghost predicate AllOrNothing(d: Disk, action: Action) {
    forall life: nat :: OldOrWanted(d, action, life)
  }

  predicate OldOrWanted(d: Disk, action: Action, life: nat) {
    var now := Recovered(RunCommand(d, Command(life, action))).live;
    now == Recovered(d).live || now == Wanted(Recovered(d).live, action)
  }

  /** The action changes at most one of the two files, or imports. */
  predicate OneStep(live: Files, action: Action) {
    action.Rewrite? ==>
      Over(action.entities, live.entities) == live.entities || Over(action.edges, live.edges) == live.edges
  }

  /** Exactly when a command is all or nothing: imports always are, a rewrite is unless it changes both files. */
  lemma AllOrNothingExactlyWhen(d: Disk, action: Action)
    requires Settled(d)
    ensures AllOrNothing(d, action) <==> OneStep(Recovered(d).live, action)
  {
    forall life: nat ensures Recovered(RunCommand(d, Command(life, action))).live
                          == Reached(Recovered(d).live, action, life - RecoverySteps(d))
    {
      CommandReaches(d, Command(life, action));
    }
    if OneStep(Recovered(d).live, action) {
      forall life: nat ensures OldOrWanted(d, action, life) {
      }
    } else {
      assert !OldOrWanted(d, action, RecoverySteps(d) + 1);
    }
  }

  /** Every rewrite of the session changes at most one file of the pair it finds. */
  ghost predicate OneStepEach(d: Disk, cmds: seq<Command>) {
    forall i :: 0 <= i < |cmds| ==> OneStep(Ledger(d, cmds[..i]), cmds[i].action)
  }

  /** The pair is the first one or what some command of the session wanted to leave. */
  ghost predicate Intended(d: Disk, cmds: seq<Command>, live: Files) {
    live == Recovered(d).live || exists i :: 0 <= i < |cmds| && live == Wanted(Ledger(d, cmds[..i]), cmds[i].action)
  }

  /** In a session whose rewrites are single steps no crash ever leaves a pair that no command intended. */
  lemma {:induction false} SessionAtomic(d: Disk, cmds: seq<Command>)
    requires Settled(d) && OneStepEach(d, cmds)
    ensures Intended(d, cmds, Recovered(RunSession(d, cmds)).live)
    decreases |cmds|
  {
    SessionRefinesLedger(d, cmds);
    if cmds != [] {
      var n := |cmds| - 1;
      var earlier := cmds[..n];
      forall i | 0 <= i < n ensures earlier[..i] == cmds[..i] {
      }
      SessionRefinesLedger(d, earlier);
      SessionAtomic(d, earlier);
      assert OneStep(Ledger(d, earlier), cmds[n].action);
      assert Ledger(d, cmds) == Ledger(d, earlier) || Ledger(d, cmds) == Wanted(Ledger(d, earlier), cmds[n].action);
      if Ledger(d, cmds) == Ledger(d, earlier) && Ledger(d, earlier) != Recovered(d).live {
        var i :| 0 <= i < n && Ledger(d, earlier) == Wanted(Ledger(d, earlier[..i]), earlier[i].action);
        assert Ledger(d, cmds) == Wanted(Ledger(d, cmds[..i]), cmds[i].action);
      }
    }
  }

  /** After any session a command that lives through recovery and leaves the files alone finds the ledger's pair live,
      no `.bak` and no journal. */
  lemma SessionRecovers(d: Disk, cmds: seq<Command>, life: nat)
    requires Settled(d) && life >= 8
    ensures var end := RunCommand(RunSession(d, cmds), Command(life, Leave));
            end.Clean() && end.live == Ledger(d, cmds)
  {
    SessionRefinesLedger(d, cmds);
    RecoveryKeepsMeaning(Process(RunSession(d, cmds), life, false));
  }
}

/** The commands themselves, changing a host's disk step by step; each is proved against its function above. */
module ImportHost {
  import opened Wrappers
  import opened ImportPublish

  datatype Recovery = RolledBack | RolledForward
  datatype RenameOutcome = Renamed | NotFound | Failed
  datatype Outcome = Imported | ValidationFailed | Refused | BackUpFailed(w: Which) | PublishFailed

  function OutcomeOf(job: Job, had: Files): Outcome {
    if !job.valid then ValidationFailed
    else if job.options.Guarded() && had != NO_FILES then Refused
    else match job.fault
      case NoFault => Imported
      case BackUpFails(w) => BackUpFailed(w)
      case _ => PublishFailed
  }

  class Host {
    var disk: Disk
    var left: nat
    var dead: bool

    constructor (d: Disk, life: nat)
      ensures State() == Process(d, life, false)
    {
      disk, left, dead := d, life, false;
    }

    function State(): Process
      reads this
    {
      Process(disk, left, dead)
    }

    method Perform(op: Op)
      modifies this
      ensures State() == Do(old(State()), op)
    {
      if dead || left == 0 {
        dead := true;
      } else {
        disk, left := Apply(disk, op), left - 1;
      }
    }

    method RemoveStagingDir(dir: nat)
      modifies this
      ensures State() == RemoveTree(old(State()), dir)
    {
      Perform(RemoveStaged(dir, Entities));
      Perform(RemoveStaged(dir, Edges));
      Perform(RemoveDir(dir));
    }

    method RenameLiveToBak(w: Which, fails: bool) returns (r: RenameOutcome)
      modifies this
      ensures State() == BackUpIf(old(State()), w, !fails && old(disk).live.Get(w).Some?)
      ensures r == if fails then Failed else if old(disk).live.Get(w).Some? then Renamed else NotFound
    {
      if fails {
        return Failed;
      }
      if disk.live.Get(w).None? {
        return NotFound;
      }
      Perform(BackUp(w));
      return Renamed;
    }

    /** Finishing leaves exactly the recovered disk; dying on the way leaves a disk of the same meaning. */
    method RecoverImportJournal() returns (r: Option<Recovery>)
      requires !dead
      modifies this
      ensures State() == Recover(old(State()))
      ensures Recovered(disk) == Recovered(old(disk))
      ensures dead <==> old(left) < RecoverySteps(old(disk))
      ensures !dead ==> disk == Recovered(old(disk))
      ensures r == match old(disk).journal
                   case None => None
                   case Some(j) => Some(if j.status == Committed then RolledForward else RolledBack)
    {
      RecoveryKeepsMeaning(State());
      if disk.journal == None {
        return None;
      }
      var journal := disk.journal.value;
      var swaps := [Entities, Edges];
      if journal.status == Committed {
        for i := 0 to |swaps|
          invariant i == 0 ==> State() == old(State())
          invariant i == 1 ==> State() == Do(old(State()), RemoveBak(Entities))
          invariant i == 2 ==> State() == Do(Do(old(State()), RemoveBak(Entities)), RemoveBak(Edges))
        {
          Perform(RemoveBak(swaps[i]));
        }
        Perform(RemoveJournal);
        return Some(RolledForward);
      }
      for i := 0 to |swaps|
        invariant i == 0 ==> State() == old(State())
        invariant i == 1 ==> State() == RestoreFile(old(State()), Entities)
        invariant i == 2 ==> State() == RestoreFile(RestoreFile(old(State()), Entities), Edges)
      {
        if disk.bak.Get(swaps[i]).Some? {
          Perform(RemoveLive(swaps[i]));
          Perform(Restore(swaps[i]));
        }
      }
      RemoveStagingDir(journal.stagingDir);
      Perform(RemoveJournal);
      return Some(RolledBack);
    }

    /** Import on a recovered disk: a dead process leaves old or kept files behind recovery, a finished one has
        installed the whole pair or restored the disk exactly, minus its own staging directory. */
    method ImportArchive(job: Job) returns (outcome: Outcome)
      requires disk.Clean() && !dead
      modifies this
      ensures State() == Import(old(State()), job)
      ensures outcome == OutcomeOf(job, old(disk).live)
      ensures !dead ==> disk == Disk(if outcome == Imported then job.New() else old(disk).live, NO_FILES,
                                     old(disk).staging - {job.dir}, None)
      ensures Recovered(disk).Clean()
      ensures if outcome == Imported && old(left) >= CommitAt(old(disk).live) then Recovered(disk).live == job.New()
              else Kept(Recovered(disk).live, old(disk).live, job)
    {
      hide Recovered, Kept;
      ImportMeaning(State(), job);
      ghost var start := State();
      Perform(Stage(job.dir, Entities, job.entities));
      Perform(Stage(job.dir, Edges, job.edges));
      if !job.valid {
        RemoveStagingDir(job.dir);
        return ValidationFailed;
      }
      assert disk.live == start.disk.live;
      if !job.options.overwrite && job.options.onConflict.None? && (disk.live.entities.Some? || disk.live.edges.Some?) {
        RemoveStagingDir(job.dir);
        return Refused;
      }
      Perform(WriteJournal(Journal(job.dir, Pending)));
      outcome := PublishFiles(job);
    }

    /** The journalled part of an import: both backups, the swap, the commit. */
    method PublishFiles(job: Job) returns (outcome: Outcome)
      modifies this
      ensures State() == AfterJournal(old(State()), job, old(disk).live)
      ensures outcome == match job.fault
                         case NoFault => Imported
                         case BackUpFails(w) => BackUpFailed(w)
                         case _ => PublishFailed
    {
      ghost var had := disk.live;
      var entitiesBackUp := RenameLiveToBak(Entities, job.fault == BackUpFails(Entities));
      if entitiesBackUp == Failed {
        GiveUp(job.dir);
        return BackUpFailed(Entities);
      }
      assert disk.live.edges == had.edges;
      var edgesBackUp := RenameLiveToBak(Edges, job.fault == BackUpFails(Edges));
      if edgesBackUp == Failed {
        if entitiesBackUp == Renamed {
          Perform(Restore(Entities));
        }
        GiveUp(job.dir);
        return BackUpFailed(Edges);
      }
      var entitiesRenamed := false;
      if job.fault != PublishFails(Entities) {
        Perform(Publish(job.dir, Entities));
        entitiesRenamed := true;
      }
      if job.fault != NoFault {
        RollBackSwap(job.dir, entitiesRenamed, entitiesBackUp == Renamed, edgesBackUp == Renamed, had);
        return PublishFailed;
      }
      Perform(Publish(job.dir, Edges));
      Perform(MarkCommitted);
      if entitiesBackUp == Renamed {
        Perform(RemoveBak(Entities));
      }
      if edgesBackUp == Renamed {
        Perform(RemoveBak(Edges));
      }
      GiveUp(job.dir);
      return Imported;
    }

    /** The catch block of the swap. */
    method RollBackSwap(dir: nat, entitiesRenamed: bool, entitiesBakCreated: bool, edgesBakCreated: bool,
                        ghost had: Files)
      requires entitiesBakCreated == had.entities.Some? && edgesBakCreated == had.edges.Some?
      modifies this
      ensures State() == RollBack(old(State()), dir, had, entitiesRenamed)
    {
      if entitiesRenamed {
        Perform(RemoveLive(Entities));
        if entitiesBakCreated {
          Perform(Restore(Entities));
        }
      } else {
        if entitiesBakCreated {
          Perform(Restore(Entities));
        }
      }
      if edgesBakCreated {
        Perform(Restore(Edges));
      }
      GiveUp(dir);
    }

    /** Drop the staging directory, then the journal: the last two steps of every path that wrote one. */
    method GiveUp(dir: nat)
      modifies this
      ensures State() == Abandon(old(State()), dir)
    {
      RemoveStagingDir(dir);
      Perform(RemoveJournal);
    }
  }
}
