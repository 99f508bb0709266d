# Verified models of the khive tooling

A Dafny model of the logic in khive's command line and scripts that has to be right without anyone watching: the
crash-safe publication of an import, the records it merges, the choice of the crates that continuous integration may
leave out, the scanner that reads an ADR's status, the Rust lexer and `cfg` evaluator of the SQL census, the retrieval
metrics, the schema migrations, rank fusion and the rebind gate. `dafny verify dfyconfig.toml` checks all of it.

Code that changes state step by step is modelled by methods, with loops where the source has loops and classes where
it updates objects (`ImportHost.Host`, `SchemaMigrator.Migrator`, `MigrationRuns.Repository`); each method is proved
against a function or a predicate, and the lemmas are about those.

| file | about |
|---|---|
| import_publish.dfy | `ImportPublish`: disk, journal, crashes, recovery, sessions; `ImportHost`: the commands |
| import_options.dfy, tag_lists.dfy, record_merge.dfy | `ImportOptions`, `TagLists`, `RecordMerge`: deep merge, conflict policies, the candidate archive, what is stored |
| reachability.dfy, lock_scope.dfy, lock_texts.dfy | `Reachability`, `LockScope`, `LockTexts`: lockfile graphs and the members a change can reach |
| dependents.dfy | `Dependents`: the layered, chunked closure of direct dependents |
| tree_paths.dfy | `TreePaths`: symbolic links resolved inside a tree |
| bags.dfy, dependency_change.dfy | `Bags`, `DependencyChange`: which manifest edits are admitted |
| header_scan.dfy, header_lint.dfy | `MarkdownLines`, `HeaderScan`, `HeaderLint`: the Markdown header scanner |
| header_mask.dfy, hidden_blocks.dfy, heading_forms.dfy, inline_forms.dfy, inline_grammar.dfy, header_shield.dfy | `HeaderMask`, `HiddenBlocks`, `HeadingForms`, `InlineForms`, `InlineGrammar`, `HeaderShield`: what it shows, hides and declares, by characters and raw lines |
| rust_tokens.dfy, rust_lexer.dfy, refused_sources.dfy, rust_pieces.dfy | `RustTokens`, `RustChars`, `RustLexer`, `RefusedSources`, `RustPieces`: lossless tokens and their grammar |
| cfg_value.dfy, cfg_builds.dfy | `CfgValue`, `CfgBuilds`: three-valued evaluation of `cfg` predicates |
| delimiters.dfy, token_trees.dfy | `Delimiters`, `TokenTrees`: bracket matching |
| production_tokens.dfy, kept_tokens.dfy, item_ends.dfy, item_extents.dfy | `ProductionTokens`, `KeptTokens`, `ItemEnds`, `ItemExtents`, `ProductionScan`: removal of test-only items |
| retrieval_metrics.dfy | `RetrievalMetrics`: nDCG, recall, reciprocal rank |
| semver.dfy, schema_operations.dfy, schema_additions.dfy, migration_runs.dfy, version_ladder.dfy | `SemanticVersions`, `SchemaOperations`, `SchemaMigrator`, `SchemaAdditions`, `MigrationRuns`, `VersionLadder` |
| fusion.dfy, gate_rounds.dfy | `Fusion`, `GateRounds` |
| wrappers.dfy, lists.dfy | `Wrappers`, `Chars`, `Lists`: shared types, what scanners ask of a line, lists and sorting |

Where a promise turned out not to hold for every input, the model keeps the code's behaviour and a lemma states
exactly when it holds:

- An import is atomic under crashes if and only if both live files existed, or one of them already equals the incoming
  file (`ImportPublish.AtomicExactlyWhen`). `cli/kg/init.ts:201-204` creates both.
- `export`, `resolve` and `migrate` write the live files without a journal, one after the other, so a crash between the
  two writes leaves a pair that no command intended if and only if the command changes both files
  (`ImportPublish.AllOrNothingExactlyWhen`). The comment at `cli/kg/resolve.ts:770-772` says that it cannot.
- Importing an archive twice under `update` or `merge` equals importing it once if and only if no entity that was new
  repeats a tag: the stored line sorts the tags and keeps the repeats, and the second import drops them
  (`RecordMerge.ImportTwice`, `RecordMerge.RepeatedTagIsDropped`). For edges it always does.
- The comment at `cli/kg/import.ts:102` calls `replace` an alias of `update`; the two store the same record exactly under
  the condition of `RecordMerge.ReplaceIsUpdateExactlyWhen` and `RecordMerge.ReplaceEdgeIsUpdateExactlyWhen`.
- The policy `error` is documented to fail when live files exist (`cli/kg/import.ts:100`). The command line turns it into
  no policy at all, but given to `importArchive` it passes the guard and replaces both files
  (`ImportPublish.ReplacedExactlyWhen`).
- A section heading whose hashes are followed by another white space than space or tab, such as a no-break space, ends
  the header but is no block boundary, so a backtick run before it can pair with one after it
  (`HeaderShield.ShieldsExactlyWhen`, with such a document in `HeaderShield.NoBreakDocument`).
- The census's second matching of delimiters can fail: removing the item of an excluding attribute inside parentheses
  or brackets may swallow their closer (`ProductionTokens.KeptBalancedExactlyWhen`, with a failing input in
  `KeptTokens.RemovalSwallowsCloser`).
- Unknown ids are credited with the label of the empty key. nDCG at k stays within 1 for every table and every ranking if
  and only if that label is no better than the last of the first k ideal grades, recall if and only if it does not count
  (`RetrievalMetrics.NdcgBoundedExactlyWhen`, `RetrievalMetrics.RecallBoundedExactlyWhen`).
- The declared properties of a renamed kind and the value of a renamed property arrive under the new name if and only if
  it is not the old one, where they are lost (`SchemaOperations.RenamedAwayExactlyWhen`,
  `SchemaOperations.PropertyMovesExactlyWhen`), and `remove_kind` with
  `migrate_to` and no usable target removes the kind and leaves its records
  (`SchemaOperations.RemovedExactlyWhen`), although ADR-020 says that they are re-kinded.
- A second run of the migrations, to the same target or without one, applies nothing if and only if the first file that
  does not start below the final version starts at it and leads past the target (`MigrationRuns.RerunExactlyWhen`);
  versions that rise from file to file make it so (`MigrationRuns.RerunAppliesNothing`), and a migration that leads
  nowhere does not (`MigrationRuns.LeadsNowhere`). The header of `cli/kg/migrate.ts` promises that each migration is
  rolled back on its own; the code writes nothing at all when any migration of the run fails, and the model follows it.

## Model

| member | source | states |
|---|---|---|
| ImportPublish.RecoveryKeepsMeaning | cli/kg/import.ts:420-491 | Killing recovery after any number of disk operations leaves a disk that recovery would still turn into the same final disk; recovery that is not killed reaches that disk, and it is killed exactly when it has fewer operations left than it needs |
| ImportPublish.RecoveryConfluent | cli/kg/import.ts:420-491 | Any number of recoveries killed anywhere, then one that finishes, give the disk of a single uninterrupted recovery, from every disk and every journal |
| ImportPublish.ImportMeaning | cli/kg/import.ts:579-809 | One import from a disk without journal or `.bak`, with any of the live files present, killed anywhere or failing once at any caught call: recovery leaves the new pair when the committing journal write happened; otherwise every file that was live is the old one and, from an empty start, new edges never survive without new entities; a process that is not killed leaves exactly the new pair or exactly the old live files, without journal or `.bak` |
| ImportPublish.ImportAtomic | cli/kg/import.ts:660-809 | With both files live before, what recovery leaves is both old files up to the committing journal write and both new files from it on, with no journal and no `.bak` |
| ImportPublish.AtomicExactlyWhen | cli/kg/import.ts:660-809 | An admitted import is all-old or all-new at every crash point if and only if both files were live before, or one of the live files already equals the incoming one |
| ImportPublish.MixedAt | cli/kg/import.ts:711-803 | Names the crash point that leaves one new and one old or absent file whenever the condition of atomicity fails |
| ImportPublish.RollBackMeaning | cli/kg/import.ts:771-797 | The rollback of a caught failure in the swap, killed or not, for every presence of the live files and whichever rename failed: finished, it has restored the live files of before and removed journal, `.bak` files and staging directory; killed, recovery still leaves a kept state |
| ImportPublish.ReplacedExactlyWhen | cli/kg/import.ts:638-658 | An import that lives long enough replaces existing live files if and only if `overwrite` is set or a conflict policy, `error` included, is given; otherwise it leaves them as they are |
| ImportPublish.SessionRefinesLedger | cli/main.ts:100-181 | Over any sequence of commands that leave the live files alone, import, or write one or both of them without a journal, each killed anywhere: recovery always finds both files, and which pair it finds follows from the committing writes of imports and the single writes of the others |
| ImportPublish.AllOrNothingExactlyWhen | cli/kg/resolve.ts:768-835 | Killed anywhere, a command leaves the pair it found or the pair it wants, if and only if it imports or changes at most one of the two files |
| ImportPublish.SessionAtomic | cli/kg/import.ts:420-491 | In a session whose writing commands each change at most one file of the pair they find, no crash ever leaves a pair that no command intended |
| ImportPublish.SessionRecovers | cli/kg/import.ts:420-491 | After any session a command that lives through recovery and leaves the files alone finds the pair that the session stands for, with no journal and no `.bak` |
| ImportHost.Host.RecoverImportJournal | cli/kg/import.ts:420-491 | The step-by-step method performs the specified operations, keeps what the disk stands for wherever it is killed, and reports rolled back or rolled forward as the journal says |
| ImportPublish.BackUpKeepsMeaning | cli/kg/import.ts:715-741 | Moving a live file aside under a pending journal, killed or not, changes nothing of what recovery would leave; moving it back gives the disk of before, and a missing file costs no step |
| ImportHost.Host.PublishFiles | cli/kg/import.ts:684-809 | Journal, both backups, both renames, the committing write and the clean-up, with the rollback of each caught failure, change the disk as specified |
| ImportHost.Host.RollBackSwap | cli/kg/import.ts:771-797 | The catch block of the swap, driven by the flags the code keeps, does what the rollback specification says |
| ImportHost.Host.ImportArchive | cli/kg/import.ts:577-809 | The whole import: refused, failed and finished runs leave the exact live files of before or the new pair, and every killed run leaves a disk that recovers to one of the specified states |
| RecordMerge.DeepMergeObjects | cli/kg/import.ts:120-143 | The merging loop yields the recursive merge of two objects |
| RecordMerge.MergeIdempotent | cli/kg/import.ts:120-143 | Merging the same object a second time changes nothing, at any depth of nesting |
| RecordMerge.MergeByPath | cli/kg/import.ts:120-143 | The leaves of a merge, path by path: exactly the leaves of the incoming object, and those of the base where the incoming object says nothing |
| RecordMerge.PatchMeans | cli/kg/import.ts:149-169 | An update keeps the existing record's own fields, overlays the properties leaf by leaf, joins the tags sorted and without repeats, and takes the incoming date when there is one |
| RecordMerge.PatchEdgeMeans | cli/kg/import.ts:175-192 | The same for edges and their weight |
| RecordMerge.PatchIdempotent | cli/kg/import.ts:149-169 | Updating an entity twice with the same record is updating it once |
| RecordMerge.PatchEdgeIdempotent | cli/kg/import.ts:175-192 | Updating an edge twice with the same record is updating it once |
| RecordMerge.BuildCandidateArchive | cli/kg/import.ts:198-232 | The candidate is what meeting the incoming records one by one makes of the existing ones, for entities and edges |
| RecordMerge.IdsAreUnion | cli/kg/import.ts:198-232 | Under every policy the ids of the candidate are the ids of both sides |
| RecordMerge.MetOnce | cli/kg/import.ts:198-232 | With distinct ids each incoming record is resolved against the existing record of its id, or taken as it is |
| RecordMerge.Unnamed | cli/kg/import.ts:198-232 | A record that no incoming record names stays as it is |
| RecordMerge.SkipKeepsExisting | cli/kg/import.ts:149-181 | Under `skip` every existing entity and every existing edge stays, whatever the archive holds |
| RecordMerge.EntitiesTwice | cli/kg/import.ts:149-232 | Merging, storing, reading back and merging again gives the entities that were stored, if and only if the policy does not update or no entity that was new repeats a tag |
| RecordMerge.EdgesTwice | cli/kg/import.ts:175-232 | For edges the second merge never changes what was stored |
| RecordMerge.ChooseCandidate | cli/kg/import.ts:555-566 | The candidate starts from the existing records only for a policy other than `error`, without `overwrite`, when there are records |
| RecordMerge.ImportTwice | cli/kg/import.ts:555-658 | Importing the same archive again with the same options leaves the files as they are, unless the import updates: then if and only if no entity that was new repeats a tag; edges are always left as they are |
| RecordMerge.RepeatedTagIsDropped | cli/kg/import.ts:162-166 | The failing input: a new entity that carries a tag twice is stored with both, and updating it with itself drops one |
| RecordMerge.ReplaceIsUpdateExactlyWhen | cli/kg/import.ts:98-106 | `replace` and `update` store the same entity if and only if the incoming record has the other fields of the existing one, covers its properties and tags, repeats no tag, and is dated unless neither is |
| RecordMerge.ReplaceEdgeIsUpdateExactlyWhen | cli/kg/import.ts:175-192 | The same for edges, with the weight in place of tags and date |
| RecordMerge.MergeIsUpdate | cli/kg/import.ts:149-192 | The policies `merge` and `update` make the same candidate of the same records |
| LockScope.ReadLock | scripts/ci-test-scope.py:790-796 | Exactly the listed packages, refused if and only if two of them share name, version and source |
| LockScope.LockGraph | scripts/ci-test-scope.py:799-817 | The graph has an edge for exactly the entries that dependency texts match; refused if and only if some text matches no entry or several |
| LockTexts.FitsExactly | scripts/ci-test-scope.py:799-817 | A written dependency text names an entry if and only if the name agrees, and the version and the source agree where the text gives them |
| LockTexts.EdgesExactly | scripts/ci-test-scope.py:799-817 | In a graph that `lock_graph` builds, one entry has another among its edges if and only if it lists a text that spells it: by name, by name and version, or by name, version and source |
| LockTexts.ResolvableExactly | scripts/ci-test-scope.py:799-817 | The texts of a lockfile all resolve if and only if each of them names one entry and no second |
| LockScope.Reachable | scripts/ci-test-scope.py:820-827 | The marked entries are exactly those reached by a path from the start, itself included |
| LockScope.NamesReaching | scripts/ci-test-scope.py:843-850 | Exactly the names of the members whose cone meets the targets |
| LockScope.MembersReaching | scripts/ci-test-scope.py:843-850 | Refused if and only if a package is in neither lockfile; otherwise the members that reach a named package on either side |
| LockScope.LockfileChange | scripts/ci-test-scope.py:853-877 | Succeeds if and only if header and other keys agree, only workspace members changed, there are members, and at least one of them is untouched; returns the touched members |
| LockScope.SameTarget | scripts/ci-test-scope.py:799-817 | An unchanged dependency text resolves to the same entry on both sides when its old target is unchanged |
| LockScope.OutOfScopeConeUnchanged | scripts/ci-test-scope.py:853-877 | A member that the change does not touch reaches the same entries in both lockfiles, every one of them unchanged |
| Reachability.SameCone | scripts/ci-test-scope.py:820-827 | Where two graphs agree on everything a node reaches in the first, it reaches the same in the second |
| Dependents.ScanEdges | scripts/ci-test-scope.py:1059-1078 | The sources of a reply's edges that are projects, refused as the code refuses malformed edges |
| Dependents.ProjectsExactly | scripts/ci-test-scope.py:1059-1078 | The dependents that a usable reply gives are the nodes listed as projects that an edge into the crate starts from |
| Dependents.DependentsOf | scripts/ci-test-scope.py:1037-1078 | The projects that depend directly on one project, refused if and only if the reply cannot be used |
| Dependents.AskLayer | scripts/ci-test-scope.py:1027-1079 | One layer of the frontier asked in chunks of any size: either some reply is unusable, or exactly the dependents of the whole frontier are added |
| Dependents.Closure | scripts/ci-test-scope.py:1016-1080 | For every chunk size: refused if and only if a changed crate is unlisted or a reply in scope is unusable, otherwise the names of exactly the least set that holds the changed crates and the dependents of its elements |
| TreePaths.SplitOfJoin | scripts/ci-test-scope.py:614-635 | Splitting at slashes undoes joining |
| TreePaths.LookupConcat | scripts/ci-test-scope.py:614-635 | Reference lookup, which looks a link up from the directory that holds it, composes: a concatenated path is looked up part after part with the hops that are left |
| TreePaths.StepUp | scripts/ci-test-scope.py:614-635 | `..` takes back one component, the plain one before it included, and at the top it leaves the repository; `.` and the empty component change nothing |
| TreePaths.ChainIsFollowed | scripts/ci-test-scope.py:614-635 | A chain of n links leads to its last name and costs n hops, and it is refused if and only if fewer are left |
| TreePaths.SelfLinkIsRefused | scripts/ci-test-scope.py:614-635 | A link to itself is refused, however many hops are left |
| TreePaths.FortyLinks | scripts/ci-test-scope.py:614-635 | A path that starts a chain of links at the top is resolved if and only if there are at most 40 of them |
| TreePaths.ResolveParts | scripts/ci-test-scope.py:614-635 | The loop that splices link targets into the remaining parts ends on every link map, cyclic ones included, and agrees with the reference lookup, errors and hop budget included |
| TreePaths.LookupIsResolved | scripts/ci-test-scope.py:614-635 | A resolved path has no empty, `.` or `..` component and no prefix that is a link |
| TreePaths.ResolvingTwice | scripts/ci-test-scope.py:614-635 | Resolving what a resolution returned gives it back and follows no link |
| DependencyChange.DependencyIdentities | scripts/ci-test-scope.py:669-677 | Every key of the table is listed under its entry's package and source, so each identity is listed as often as it occurs |
| DependencyChange.CollectNamed | scripts/ci-test-scope.py:686-695 | Succeeds if and only if no edited entry gains, loses or changes a feature-bearing key; then exactly the packages that either version of an edited entry names |
| DependencyChange.CheckChange | scripts/ci-test-scope.py:680-703 | Admitted if and only if flags are kept and both versions hold the same identities, each equally often; returns every package named by either side of every edited entry |
| DependencyChange.AdmittedKeepsFlags | scripts/ci-test-scope.py:645-694 | An admitted change leaves `features`, both spellings of `default-features` and `optional` of every entry as they were, also where an entry appears, disappears or turns from a version into a table |
| DependencyChange.AdmittedKeepsInherited | scripts/ci-test-scope.py:645-694 | An admitted entry starts or stops to inherit only where the workspace entry has none of those keys, and inherits only where there is a workspace entry |
| DependencyChange.AdmittedKeepsEntries | scripts/ci-test-scope.py:696-702 | An admitted change keeps the number of entries and gives every entry a counterpart with the same package and source |
| DependencyChange.SameIdentityExactly | scripts/ci-test-scope.py:661-677 | Two entries stand for one dependency if and only if they name the same package and agree on the eight keys that say where it comes from |
| DependencyChange.PackageExactly | scripts/ci-test-scope.py:661-666 | The package is the entry's own `package` key, else that of the workspace entry it inherits, else its name |
| HeaderLint.MatchingBacktickRuns | scripts/lint-adr-status.py:222-244 | The one-pass lookahead records exactly the runs that a run of the same length follows before the next block boundary |
| HeaderScan.StripKeepsPromise | scripts/lint-adr-status.py:247-298 | A line hands an open span to the next one only if the closer is still to come in the same block |
| HeaderScan.SpansCloseInTheirBlock | scripts/lint-adr-status.py:247-382 | No span is open at a block boundary, on a blank line or at the end of the file, so the reset on blank lines never changes anything |
| HeaderMask.StripMasks | scripts/lint-adr-status.py:247-298 | For every line and every state it starts in, the visible text is the line without exactly its comments and its paired spans, each cut from its opener, or from the start of the line, to its first closer; the next line starts in the last of them if and only if the line does not close it |
| HeaderMask.TextLineMeans | scripts/lint-adr-status.py:301-382 | The same of every line of a document that the scan shows, with the comment or span in which the next line starts |
| HeaderMask.MaskIsUnique | scripts/lint-adr-status.py:247-298 | A line can be cut in one way only |
| HeaderMask.UnpairedRunOpensNothing | scripts/lint-adr-status.py:253-258 | An unpaired run outside comments and spans begins no cut: it stays visible, and so does what follows it up to the next comment or paired run |
| HeaderLint.StripInlineConstructs | scripts/lint-adr-status.py:247-298 | The index loop yields the specified visible text and carried state |
| HeaderLint.ScanLine | scripts/lint-adr-status.py:316-381 | One line through fence, comment, code span and indented code gives the specified view and next state |
| HeaderLint.VisibleView | scripts/lint-adr-status.py:301-382 | The scan of a document gives the specified views |
| HiddenBlocks.OpenerExactly | scripts/lint-adr-status.py:201-206 | A line opens a fence if and only if it is up to three spaces, then at least three backticks or tildes, with no backtick after backticks; mark and length are those of the run |
| HiddenBlocks.CloserExactly | scripts/lint-adr-status.py:339-356 | A line closes a fence if and only if it is up to three spaces, at least as many of the same mark, and then only spaces and tabs |
| HiddenBlocks.IndentedExactly | scripts/lint-adr-status.py:133 | A line is indented code if and only if four spaces or more, or one tab, come before something that is no white space |
| HiddenBlocks.HiddenExactly | scripts/lint-adr-status.py:301-381 | A line is not shown if and only if it stands in a fence or closes one, or in a region of indented code, by the raw lines |
| HiddenBlocks.FencedIsHidden | scripts/lint-adr-status.py:339-356 | No line of a fenced block, from an opener met in text to the last line before a closer, is shown, and none makes a declaration |
| HiddenBlocks.FencedMakesNoDifference | scripts/lint-adr-status.py:339-356 | Replacing the inside of a fenced block by any other lines that do not close it leaves the whole view, and so every declaration, as it was |
| HiddenBlocks.RegionIsHidden | scripts/lint-adr-status.py:361-374 | No line of a region of indented code is shown, and none makes a declaration |
| HiddenBlocks.RegionMakesNoDifference | scripts/lint-adr-status.py:361-374 | Replacing the inside of such a region by any other blank or indented lines leaves the whole view as it was |
| HiddenBlocks.CommentedIsHidden | scripts/lint-adr-status.py:247-298 | Between the line that opens a comment and the line that closes it nothing is visible |
| HeaderLint.HeaderDeclarations | scripts/lint-adr-status.py:148-185 | The declarations found are the specified ones, heading forms and inline forms with the expressions of the source, in order, up to the heading that ends the header |
| HeadingForms.SectionExactly | scripts/lint-adr-status.py:107 | The lines that end a header, by their characters: up to three spaces, two to six hashes, white space and something after it |
| HeadingForms.StatusExactly | scripts/lint-adr-status.py:103 | The Status headings, by their characters: one to six hashes, white space, the word in any case and nothing else |
| HeadingForms.AtxExactly | scripts/lint-adr-status.py:110 | The headings that bound a block, by their characters: one to six hashes, then a space, a tab or the end of the line |
| HeadingForms.BoundaryExactly | scripts/lint-adr-status.py:209-219 | What a code span cannot cross: a blank line, an ATX heading, or a line that opens a fence, by their characters |
| HeadingForms.FirstValueExactly | scripts/lint-adr-status.py:163-170 | A Status heading declares the first visible text below it, without the white space around it, when nothing hidden comes before |
| HeadingForms.NoFirstValue | scripts/lint-adr-status.py:163-170 | Without such a text, or with something hidden before it, it declares nothing |
| HeadingForms.TrimExactly | scripts/lint-adr-status.py:163-170 | Trimming takes away the white space at both ends and nothing else |
| InlineForms.LabelledLineDeclares | scripts/lint-adr-status.py:172-185 | A visible line declares statuses inline if and only if it starts with a label: whatever code spans, link destinations and autolinks are taken out of it, that label stays |
| InlineGrammar.LabelledExactly | scripts/lint-adr-status.py:79 | A line starts with a label if and only if it is white space, at most one dash, at most two stars and the word in any case, at most two stars and a colon, with white space between them |
| InlineGrammar.LabelAtExactly | scripts/lint-adr-status.py:83 | The labels anywhere, by their characters: stars, the word at a word's left edge, stars and a colon |
| InlineGrammar.ValuesExactly | scripts/lint-adr-status.py:172-185 | A line that starts with a label declares one value for each label found from left to right in what is left without noise: the text up to the next label, without the white space around it; any other line declares nothing inline |
| InlineGrammar.NoiseExactly | scripts/lint-adr-status.py:89-100 | The noise, by its characters: a code span of the most backticks that come again, a link destination with groups of parentheses one deep, an autolink with a scheme of 2 to 32 characters |
| InlineGrammar.NoiseIsTakenOut | scripts/lint-adr-status.py:188-198 | Code spans are taken out from left to right, then link destinations, then autolinks |
| HeaderScan.HeaderScope | scripts/lint-adr-status.py:148-185 | Once a visible section heading is also a block boundary, replacing everything after it by anything leaves the declarations unchanged |
| HeaderShield.ShieldsExactlyWhen | scripts/lint-adr-status.py:103-110 | A line whose visible text ends the header, backticks and comments in it included, shields the header from what follows it if and only if it is a block boundary, whatever the label expressions are |
| HeaderShield.LaterLineChangesValue | scripts/lint-adr-status.py:209-244 | The failing document: after a Status heading, a line that ends in a long backtick run and then such a heading, adding the line again changes the declared value |
| HeaderShield.NoBreakDocument | scripts/lint-adr-status.py:103-110 | Such a heading, two hashes followed by a no-break space and a word, and the document of four lines in which it fails, whatever the label expressions are |
| HeaderShield.PlainHeading | scripts/lint-adr-status.py:107-110 | A section heading without backticks and comment openers ends the header, and it is a block boundary if and only if it is an ATX heading |
| RustLexer.Lex | scripts/sql-source-census.py:124-239 | When no step is refused the tokens cover the source in order, each with its exact text and 1-based line and column, and everything between them is white space or comments |
| RustPieces.PieceExactly | scripts/sql-source-census.py:124-228 | The lexer reads a token of a kind, a value and an end if and only if the grammar has it there: strings by their openers, character literals as quote, one character or escape, quote, the longest word with or without `r#`, and one character of punctuation where nothing else stands |
| RustPieces.DescribesExactly | scripts/sql-source-census.py:124-239 | Every token that the lexer returns is the one that the grammar has at its span, with its text, line and column |
| RustPieces.GapExactly | scripts/sql-source-census.py:141-162 | A piece is skipped if and only if it is white space, a line comment up to its line break, or a block comment of the nesting grammar |
| RustPieces.StringExactly | scripts/sql-source-census.py:163-218 | A string token stands at an opener if and only if it is a raw string up to the first quote with as many hashes, or characters and escapes up to a quote, and its value is what those spell |
| RustPieces.DecodeSpells | scripts/sql-source-census.py:175-218 | Decoding gives a value and an end if and only if the characters and escapes up to that end spell the value |
| RustPieces.EscapeSpells | scripts/sql-source-census.py:181-216 | An escape is decoded to its code point: the seven letters by table, two hexadecimal digits, a braced number of hexadecimal digits and underscores, or a line break with the white space after it |
| RustPieces.CharExactly | scripts/sql-source-census.py:130-132 | A quote starts a character literal if and only if one character other than quote and backslash, or one escape, and a quote follow |
| RustPieces.BadExactlyAt | scripts/sql-source-census.py:146-217 | The lexer refuses to go on if and only if a block comment is not closed, or a string opens that nothing makes whole |
| RefusedSources.RefusedExactlyWhen | scripts/sql-source-census.py:146-217 | A source is refused if and only if tokens and trivia lead to a block comment that the grammar never closes, a raw string without its closer, or a string that runs into the end of the source or a bad escape |
| RefusedSources.DecodeFailsExactly | scripts/sql-source-census.py:175-217 | Decoding a string body fails if and only if whole characters and good escapes lead from its start to the end of the source or to an escape that is no good |
| RustLexer.SpansIncrease | scripts/sql-source-census.py:124-239 | Token spans are non-empty, disjoint and increasing |
| RustLexer.BlockExactly | scripts/sql-source-census.py:146-162 | The depth counter accepts exactly the block comments of the nesting grammar, with the same end |
| RustLexer.SkipBlockComment | scripts/sql-source-census.py:146-162 | The counting loop ends where the nested comment ends, or says that it does not |
| RustLexer.DecodeString | scripts/sql-source-census.py:175-218 | The decoding loop yields the specified value and end, or refuses as specified |
| RustLexer.DecodeOfQuoted | scripts/sql-source-census.py:175-218 | Decoding the quoted form of any string gives the string back and stops at its closing quote |
| RustLexer.BisectFindsLine | scripts/sql-source-census.py:229-238 | Bisecting the line starts gives the line and the column that counting newlines gives |
| CfgValue.Evaluate | scripts/sql-source-census.py:259-288 | The evaluator with its grouping loop computes the specified three-valued value |
| CfgValue.SplitArguments | scripts/sql-source-census.py:267-280 | The grouping loop splits at exactly the commas outside brackets and drops empty groups |
| CfgValue.GroupsAreArguments | scripts/sql-source-census.py:267-281 | On the tokens of an argument list, trailing comma or not, the groups are its arguments one by one |
| CfgValue.ValueIsKleene | scripts/sql-source-census.py:259-288 | On every spelling of a predicate the value is its Kleene evaluation with `test` false and every other option unknown |
| CfgValue.KleeneIsSound | scripts/sql-source-census.py:259-288 | A definite Kleene value is the ordinary Boolean value under every assignment of the other options |
| CfgValue.DefiniteValueHolds | scripts/sql-source-census.py:259-288 | Whenever the evaluator answers true or false for a spelled predicate, every build without `test` gives that answer |
| CfgBuilds.ValueExactlyWhen | scripts/sql-source-census.py:259-288 | For a spelled predicate that names no option twice the answer is definite if and only if all builds without `test` agree on it |
| CfgBuilds.RepeatedOptionIsUnknown | scripts/sql-source-census.py:259-288 | With an option named twice it can stay open although all builds agree: `any(x, not(x))` |
| Delimiters.Pairs | scripts/sql-source-census.py:242-256 | Succeeds if and only if the stream is balanced, and returns the involution of every opener and its closer |
| Delimiters.MatchesNest | scripts/sql-source-census.py:242-256 | A pair that opens inside another closes inside it |
| TokenTrees.BalancedIffForest | scripts/sql-source-census.py:242-256 | A stream is balanced if and only if it is the flattening of a forest of token trees |
| ProductionTokens.WalkOnlyCloses | scripts/sql-source-census.py:291-325 | An item's extent opens nothing it does not close; directly inside a brace or at the top it closes nothing either |
| ItemEnds.ItemEndExactly | scripts/sql-source-census.py:291-325 | The walk finds the one extent that a declarative description fixes: brackets closed inside, no halting token outside them before the end, and an end at a semicolon, a body, an enclosing brace or the end of the stream |
| ItemExtents.ValueItemExactly | scripts/sql-source-census.py:291-310 | An item ends at a semicolon and not at a brace if and only if its keyword, after visibility and `default`, is `static`, `let`, or `const` without a function behind its qualifiers |
| ItemExtents.BodyItemEnds | scripts/sql-source-census.py:291-325 | A module, function, type, trait or implementation ends just after the closer of its first brace outside brackets, when no semicolon outside brackets comes before |
| ItemExtents.ConstFnEnds | scripts/sql-source-census.py:301-310 | A `const` function, with qualifiers or without, ends just after its body |
| ItemExtents.ValueItemEnds | scripts/sql-source-census.py:301-325 | A `static`, a `let` and a `const` that is no function run over their braces to the first semicolon outside brackets |
| ItemExtents.EndsAtSemicolon | scripts/sql-source-census.py:311-315 | The first semicolon outside brackets ends any item that no body ends before |
| ItemExtents.RunsOut | scripts/sql-source-census.py:311-325 | An item without either runs to the brace that encloses it or to the end of the stream |
| ItemExtents.ScanGoesOnAfterBody | scripts/sql-source-census.py:359-412 | A scan that meets an excluded module, function, type, trait or implementation goes on with the token just after its body |
| ItemExtents.NextTokenStays | scripts/sql-source-census.py:405-412 | The token just after a removal stays, unless the next attribute starts there |
| ItemExtents.AttrStaysExactly | scripts/sql-source-census.py:341-404 | An attribute of an item that stays is kept if it is empty or named `path`, and goes otherwise |
| ItemExtents.AttrExactly | scripts/sql-source-census.py:350-358 | An attribute is `#` or `#!` and a bracket with its closer, with the tokens between as its body |
| ItemExtents.TestPathExactly | scripts/sql-source-census.py:373-386 | An attribute other than `cfg` excludes if and only if it is a path of identifiers and colons that ends in `test` or `bench`, with arguments or without |
| ItemExtents.CfgExcludesExactly | scripts/sql-source-census.py:364-400 | A spelled `cfg` excludes if and only if three-valued evaluation refutes it and, with no option named twice, if and only if no build without `test` has the item |
| ItemExtents.RegionExactly | scripts/sql-source-census.py:333-340 | A region ends at the closer of the last brace before it that is not closed yet, or with the stream |
| ProductionTokens.KeptBalancedExactlyWhen | scripts/sql-source-census.py:328-413 | The filtered stream is balanced, so the second matching cannot fail, if and only if every removal ends inside the delimiter around it |
| KeptTokens.RemovalSwallowsCloser | scripts/sql-source-census.py:609-610 | The failing input `f(#[test] x);`: the excluded argument takes its closing parenthesis along, and the filtered stream is unbalanced |
| KeptTokens.KeptExactly | scripts/sql-source-census.py:328-413 | A token is kept if and only if it lies in no removal and in no dropped attribute, and the kept ones keep their order |
| KeptTokens.EveryExclusionRemoves | scripts/sql-source-census.py:342-412 | Wherever a run of attributes excludes, unless it stands inside another attribute, its first token is removed |
| KeptTokens.RemovalHasReason | scripts/sql-source-census.py:359-412 | Every removal starts with a run of attributes one of which excludes |
| KeptTokens.ExcludedIsNeverBuilt | scripts/sql-source-census.py:364-372 | An item excluded for a spelled `cfg` predicate is in no build without `test`, whatever the other options are |
| KeptTokens.DropHasReason | scripts/sql-source-census.py:402-404 | Every dropped stretch of an item that stays is an attribute other than `path` |
| ProductionTokens.ExclusionsInBraces | scripts/sql-source-census.py:609-610 | When every excluding attribute stands directly in braces or at the top, the filtered stream is balanced |
| ProductionScan.ItemEndOf | scripts/sql-source-census.py:291-325 | The loop finds the specified end of an item |
| ProductionScan.Regions | scripts/sql-source-census.py:333-340 | Each token's region ends at the closer of the innermost brace around it |
| ProductionScan.Judge | scripts/sql-source-census.py:359-400 | Whether a run of attributes excludes the item or the region |
| ProductionScan.Production | scripts/sql-source-census.py:328-413 | Fails if and only if the input is unbalanced; otherwise the result holds, in order, exactly the tokens that lie in no removed item or region and in no dropped attribute |
| RetrievalMetrics.InvertKeys | benches/retrieval/evaluate.py:1616 | Inverting the key table leaves every id of it, each with a key whose id it is, so that distinct ids have distinct keys |
| RetrievalMetrics.BestChoice | benches/retrieval/evaluate.py:919 | No choice of grades from the labels gains more than as many of the first in descending order |
| RetrievalMetrics.GradeIsWorth | benches/retrieval/evaluate.py:905-910 | A grade is worth twice the grade below it and one more, and no grade nothing |
| RetrievalMetrics.OneGradeCounts | benches/retrieval/evaluate.py:905-910 | A changed grade within the cut-off moves the sum by the change of its gain, discounted for its rank; beyond it by nothing |
| RetrievalMetrics.GradesAreLabels | benches/retrieval/evaluate.py:915-917 | Without a label for the empty key, the graded hits of a ranking of distinct ids use each label at most once |
| RetrievalMetrics.LeadIsDiscounted | benches/retrieval/evaluate.py:905-922 | If one list of grades has gained at least as much at every cut-off, its discounted gain is at least as large for every positive strictly decreasing discount, and equal only if the gains agree everywhere |
| RetrievalMetrics.NdcgInRange | benches/retrieval/evaluate.py:919-922 | When the empty key has no label better than the last of the first k ideal grades, nDCG lies between 0 and 1 for every ranking of distinct ids, and it is 1 if and only if some label is graded and the ranking carries the ideal grades in the ideal order |
| RetrievalMetrics.EmptyKeyOvercounts | benches/retrieval/evaluate.py:917 | When the empty key has a better label than that, some table and some ranking of distinct ids push nDCG over 1 |
| RetrievalMetrics.NdcgBoundedExactlyWhen | benches/retrieval/evaluate.py:915-922 | nDCG is at most 1 for every inverted table and every ranking of distinct ids if and only if the empty key has no label better than the last of the first k ideal grades |
| RetrievalMetrics.HitsAreKeys | benches/retrieval/evaluate.py:924-930 | When the label of the empty key does not count, hits of at least a given grade are as many as the distinct labels they bring, all of which have that grade |
| RetrievalMetrics.RecallInRange | benches/retrieval/evaluate.py:924-930 | When the label of the empty key does not count, recall lies between 0 and 1, and it is 1 if and only if there are labels that count and all were hit |
| RetrievalMetrics.RecallBoundedExactlyWhen | benches/retrieval/evaluate.py:924-930 | Recall is at most 1 for every inverted table and every ranking of distinct ids if and only if the label of the empty key does not count |
| RetrievalMetrics.DcgAtK | benches/retrieval/evaluate.py:905-910 | The accumulating loop computes the discounted gain of the first ranks |
| RetrievalMetrics.ReciprocalRank | benches/retrieval/evaluate.py:932-936 | The reciprocal of the first rank, within the cut-off, that holds a target, or zero |
| RetrievalMetrics.ComputeMetrics | benches/retrieval/evaluate.py:913-947 | All four metrics of a query, whatever the order in which the labels are listed |
| SemanticVersions.CmpIsTotalOrder | cli/kg/migrate.ts:200-204 | The version comparator is a strict total order |
| SemanticVersions.ParseOfParts | cli/kg/migrate.ts:194-198 | Three digit strings joined by dots are read as their numbers |
| SemanticVersions.ParseOfFormat | cli/kg/migrate.ts:687-689 | A formatted version is read back as itself |
| SemanticVersions.ParseExactly | cli/kg/migrate.ts:194-198 | A version is read if and only if it is three digit strings with dots between them and white space around |
| SemanticVersions.SpelledIsRead | cli/kg/migrate.ts:194-198 | What is read are the numbers that the digit strings spell |
| SchemaMigrator.Migrator.Apply | cli/kg/migrate.ts:305-575 | Every operation changes schema, lines and counters as specified or raises as specified; when it raises, schema and lines are as before |
| SchemaMigrator.Migrator.BuildEntityKindMap | cli/kg/migrate.ts:290-303 | The map gives each id the kind of its last record |
| SchemaMigrator.Migrator.RewriteEntities | cli/kg/migrate.ts:369-382 | The rewriting loop changes exactly the lines it hits and counts them |
| SchemaMigrator.Migrator.FilterEdges | cli/kg/migrate.ts:517-544 | The filtering loop leaves exactly the edges that do not fit the rule under the kinds that the entities have |
| SchemaOperations.OperationKeeps | cli/kg/migrate.ts:305-575 | No operation adds, removes, reorders or renames entity lines, none adds or reorders edges, the drop counter is the number of edges lost, and a file whose counter did not move is unchanged |
| SchemaOperations.RenamedAwayExactlyWhen | cli/kg/migrate.ts:367-392 | After a kind is renamed, records and list entries of the old kind are left if and only if it was renamed to itself and there were some; its declared properties are declared for the new name, in place of what was there, if and only if the names differ, and every other kind keeps its own |
| SchemaOperations.RemovedExactlyWhen | cli/kg/migrate.ts:326-364 | A removed kind is gone from the list of kinds and from the declared properties, where all else stays; its records are gone if and only if there were none or a different, non-empty target takes them |
| SchemaOperations.PropertyMovesExactlyWhen | cli/kg/migrate.ts:449-479 | A renamed property keeps its value under the new name if and only if the names differ; all other properties but the overwritten one stay |
| SchemaOperations.RemovedRuleLeavesNone | cli/kg/migrate.ts:505-572 | After an endpoint rule is removed exactly the edges that do not fit it are left |
| SchemaOperations.RenamedBackExactlyWhen | cli/kg/migrate.ts:367-392 | Renaming a kind and back restores schema, entities and edges if and only if no record, list entry or declared property bore the name in between |
| SchemaOperations.PropertyBackExactlyWhen | cli/kg/migrate.ts:449-479 | Renaming a property and back restores the records if and only if no record of the kind had the name in between |
| SchemaOperations.EndpointBackExactlyWhen | cli/kg/migrate.ts:481-572 | Removing an endpoint rule that was just added is refused if and only if an edge fits it; otherwise entities and edges are restored, and the schema if and only if the rule was new and neither the table of rules nor the list of the relation was empty |
| SchemaAdditions.AddKindExactly | cli/kg/migrate.ts:305-324 | A new kind is put last, a known one is not added again, and nothing else changes; a second time changes nothing, and removing a new kind without declared properties takes it back |
| SchemaAdditions.PropertyAddedExactly | cli/kg/migrate.ts:394-431 | A new property is put last for its kind, one whose name is declared is not added again, and nothing else in the schema changes |
| SchemaAdditions.PropertyTakenBack | cli/kg/migrate.ts:394-447 | Removing a property that was new restores what every kind declares |
| SchemaAdditions.AddPropertyExactly | cli/kg/migrate.ts:394-431 | Adding a property leaves all lines alone and raises if and only if it is required and some record of the kind is known to lack it |
| SchemaAdditions.RuleAddedExactly | cli/kg/migrate.ts:481-503 | A new rule is put last for its relation, a known one is not added again, and nothing else in the schema changes |
| SchemaAdditions.AddEndpointExactly | cli/kg/migrate.ts:481-503 | Adding a rule for a canonical relation changes nothing but the schema |
| SchemaAdditions.RuleTakenBack | cli/kg/migrate.ts:481-572 | Removing a rule that was new restores the rules of every relation |
| SchemaAdditions.RemoveEndpointDrops | cli/kg/migrate.ts:505-572 | Removing a rule with `drop` drops exactly the edges of its relation whose ends are of its kinds: by the last record of the id, as unknown without one, and with `any` for every kind |
| SchemaAdditions.KindOfExactly | cli/kg/migrate.ts:290-303 | The kind of an id is that of the last record that has both, and `unknown` without one |
| MigrationRuns.ListMigrationFiles | cli/kg/migrate.ts:130-184 | Succeeds if and only if the numbers 1 to n each occur once and no file lacks a field; returns the files in sequence, whatever the order in which they were read |
| MigrationRuns.SequenceIsUnique | cli/kg/migrate.ts:165-183 | The sequence does not depend on the order in which the directory lists the files |
| MigrationRuns.RunWritesItsState | cli/kg/migrate.ts:586-685 | What a successful run leaves on disk is the state it computed although files with a zero counter are not written; entity lines keep place and id, and edges are only dropped, as many as reported |
| MigrationRuns.RunInTwoParts | cli/kg/migrate.ts:586-685 | With rising versions, running to one target and then to a later one, or to none, does what one run does: the same failure, or the same files, version and applied migrations |
| MigrationRuns.RerunAppliesNothing | cli/kg/migrate.ts:607-634 | With rising versions a second run to the same target succeeds, applies nothing and writes nothing |
| MigrationRuns.RerunExactlyWhen | cli/kg/migrate.ts:607-634 | For every target and for none, a second run succeeds and applies nothing if and only if, at the version that the versions of the files lead to, the first file that does not start below it starts at it and leads past the target |
| MigrationRuns.LeadsNowhere | cli/kg/migrate.ts:607-634 | The failing input: a migration that leads to the version it starts from is applied by every run |
| MigrationRuns.EarlierFileStops | cli/kg/migrate.ts:607-634 | With a target a second run can succeed and apply nothing although the first applied a migration that starts above the final version: an earlier file, skipped at first, stops it |
| MigrationRuns.PlayIsSound | cli/kg/migrate.ts:607-634 | A successful run keeps lines as an operation does, changes nothing unless it applies a migration, and otherwise ends with the reported version in the schema and not past its target |
| MigrationRuns.PlayRises | cli/kg/migrate.ts:607-634 | With rising versions a run that applies something raises the version, and any other run leaves it |
| VersionLadder.MigrateClimbs | cli/kg/migrate.ts:605-634 | On files whose versions rise one from the other, a run skips those below the version of the schema, applies exactly those up to the last version that is not above the target by major, minor and patch, ends at that version, and fails if and only if an operation of those files does |
| VersionLadder.RunReachesTarget | cli/kg/migrate.ts:605-634 | A run to a version that one of those files leads to applies that file and ends at exactly that version |
| VersionLadder.RunReachesTop | cli/kg/migrate.ts:605-634 | Without a target all files from the version of the schema on are applied |
| VersionLadder.MigrateStopsRightly | cli/kg/migrate.ts:605-634 | Whatever the files are: a run applies or skips a prefix of them, applies none that leads above the target, and leaves the next one if and only if it starts at the final version and leads above the target |
| VersionLadder.GapIsRefused | cli/kg/migrate.ts:612-621 | The first file that does not start below the version is refused when it starts above it or a version of it cannot be read |
| VersionLadder.MissingVersion | cli/kg/migrate.ts:591 | A schema without a version is at 1.0.0 |
| MigrationRuns.Repository.ApplyMigrations | cli/kg/migrate.ts:586-685 | The command leaves the specified files; a failed run and a dry run write nothing |
| MigrationRuns.Repository.PlayThrough | cli/kg/migrate.ts:605-634 | The loop over the files skips, applies, stops and fails as specified |
| Fusion.Rrf | benches/retrieval/bank.py:308-313 | Every id of the union once, by falling score, the lesser id first among equals |
| Fusion.AddUp | benches/retrieval/bank.py:309-312 | The table of scores, added up list by list with repeats not counted |
| Fusion.ListAdds | benches/retrieval/bank.py:308-313 | Each list adds one over k plus the rank it gives the id, and nothing for an id that it does not hold |
| Fusion.RankIsPlace | benches/retrieval/bank.py:308-313 | In a list without repeats the rank is the place, counted from one |
| Fusion.FusionIgnoresOrder | benches/retrieval/bank.py:308-313 | The fused list does not depend on the order of the ranked lists |
| Fusion.BetterPlacedComesFirst | benches/retrieval/bank.py:308-313 | An id that is nowhere behind another, and somewhere better placed or listed where the other is not, comes out before it |
| GateRounds.NextStreaksTrack | benches/retrieval/bank.py:1505-1508 | Counting on keeps each question's count equal to its number of consecutive most recent voided attempts, and an attempt without voids ends all streaks |
| GateRounds.StreakReaches | benches/retrieval/bank.py:1505-1508 | A streak reaches n if and only if the last n attempts all voided the question |
| GateRounds.StreakInRound | benches/retrieval/bank.py:1816-1829 | Within a round a streak of three consists of attempts of that round |
| GateRounds.PlayRound | benches/retrieval/bank.py:1816-1837 | A round ends at its first clean attempt, at the first third void in a row of a question, or when its attempts are spent; every accepted attempt is clean, and no attempt begins once a streak is three |
| GateRounds.RunGateRounds | benches/retrieval/bank.py:1804-1839 | The two rounds end as the voids determine, in at most twice the attempts of a round; a gate that stops on questions names exactly those whose streak is three; the record holds every attempt in order |
| GateRounds.OutcomeIsUnique | benches/retrieval/bank.py:1804-1839 | What the attempts void and how many a round may take determine the outcome |

## Left out

- Torn writes, fsync and reordered directory updates: every journal write, rename and remove is one atomic step, and it
  fails only where the source catches the failure; a rename that fails inside a rollback is not modelled.
- Staging directories after a roll-forward: recovery does not remove the directory of a committed import, and nothing
  is claimed about it.
- ImportPublish.ImportMeaning: at most one failing call per import; failures that the source swallows while it rolls
  back or cleans up are not modelled.
- ImportPublish.SessionRefinesLedger: `export` truncates a live file before it writes it; the model writes it in one step.
  `init`, which runs before there are live files, and changes made by git are not commands of a session.
- RecordMerge.ImportTwice: an archive is taken by id, the order of insertion of a JavaScript Map and the locale-dependent
  sort of the candidate are not modelled, and keys are own properties, so `__proto__` is an ordinary key. The stored line
  is the record read back from it; tags are compared by their rank in code-unit order.
- LockScope.ReadLock: the TOML text and the checks of its shape; an entry is its dependency texts as a bag and the rest
  as one value.
- Dependents.Closure: the kernel process is a function from project to reply, replies of the wrong JSON shape are one
  case, and the sorted output is a set.
- Dependents.Closure: the listing of projects is a pair of inverse tables, as its reader checks it.
- DependencyChange.CheckChange: lists and nested tables are compared by their JSON text, so that true and 1 differ inside
  them, and a table of the wrong shape, which the source refuses first, is not modelled.
- TreePaths.ResolveParts: the link map is given; reading it from git is not modelled.
- HeaderLint.HeaderDeclarations: letters and digits beyond ASCII do not count as part of a word at the left edge of a
  label in the middle of a line.
- RustLexer.Lex: Unicode escapes of surrogates and of numbers past 10FFFF are refused, where Python accepts the first and
  raises another error for the second.
- ProductionScan.Production: the diagnostics for unresolved conditions, and everything the census does with the tokens
  afterwards (`sql_shape`, module walking).
- RetrievalMetrics.NdcgInRange: exact reals in place of floating point, and any positive, strictly decreasing discount
  in place of the logarithm; the bootstrap and the report.
- MigrationRuns.ListMigrationFiles: file names and YAML text; a migration is a value with its number, and a missing field
  is an empty text. An unknown operation and the scan counters of a run that fails are left out.
- SchemaOperations.OperationKeeps: NDJSON lines are values, so the formatting of a rewritten line is not modelled; ids,
  kinds and edge ends are texts, and names inherited from JavaScript's object prototype are not properties.
- SemanticVersions.ParseOfParts: numbers are unbounded, where the source loses precision past 2^53.
- MigrationRuns.Repository.ApplyMigrations: crashes and failures between the three renames that publish a migration.
- Fusion.Rrf: exact reals in place of floating point, where the order of addition can matter in the last digit, and a
  non-negative constant k.
- GateRounds.RunGateRounds: the recalls themselves, their summaries and the degraded counts; an attempt is the set of
  questions it voids. What the accepted rounds are judged by (`bank_metrics`, `gate_verdict`, `measures`) is not modelled.
- The scanner for include macros in `scripts/ci-test-scope.py`, path rules, git, subprocesses, MCP calls, argument
  parsing, printing and configuration.
