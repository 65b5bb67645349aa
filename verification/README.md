# Verified model of the Obsidian vault server's core

The server keeps an index over a vault of Markdown notes, lets several clients edit the notes under optimistic
concurrency, restricts what each client may see and change by path rules, and watches the vault for changes made
behind its back. This project models that core in Dafny and proves what its parts promise. Paths below are
relative to the repository.

`dafny verify dfyconfig.toml` checks everything.

## What is modelled

| files | part of the program | main results |
|---|---|---|
| `Text`, `Paths` | string helpers, canonical relative names | `Paths.NormaliseIdempotence`, `Paths.NormaliseAccepts`, `Paths.DotDotTakesBackOne` |
| `PathRules`, `AccessPolicy` | rule matching and covering, merging an identity override, the access decisions | `PathRules.MergeAllowlistIsExact`, `AccessPolicy.MergedReads`, `AccessPolicy.MergedWrites`, `AccessPolicy.MergeRejectsExactlyWidening` |
| `VaultWalk` | the pruned discovery walk | `VaultWalk.ListFiles` |
| `WriteScope` | making parent directories on the way to a write | `WriteScope.OpenWriteParent`, `WriteScope.CreatedIsWritable` |
| `TreeMutations`, `VaultStorage` | move, trash, restore | `VaultStorage.Vault.Move`, `VaultStorage.ChangesWereAuthorized`, `VaultStorage.TrashThenRestore` |
| `Revisions`, `AtomicWrite`, `WriteGuarantees`, `WriteAnswers`, `WriteCall`, `NoteEdits` | the atomic write as a step machine, its code, and its clients | `WriteGuarantees.NoLostUpdates`, `WriteGuarantees.LostOnlyInTheWindow`, `WriteGuarantees.TargetIsAlwaysWhole`, `WriteAnswers.FoundNothingReplacesNothing`, `NoteEdits.ClientsLoseNoUpdates`, `NoteEdits.WriteNote`, `NoteEdits.AppendIsAtMostOnce` |
| `NoteIndex`, `IndexGuarantees`, `IndexFollowing`, `IndexExamples`, `VaultIndex` | the seven maps of the index, as values and as mutable fields | `IndexGuarantees.EveryRunIsSound`, `IndexGuarantees.ReconcileConverges`, `IndexFollowing.ResponseIsExact`, `IndexFollowing.IncrementalEqualsRebuild`, `VaultIndex.VaultIndex.GetBacklinks` |
| `LinkGraph` | the breadth-first link graph | `LinkGraph.GetLinkGraph` |
| `TagTree` | the nested tag tree | `TagTree.TreeRoundTrip` |
| `Debounce`, `DebounceBursts` | the watcher's timers as concurrent steps | `Debounce.NoEventIsLost`, `DebounceBursts.BurstIsDeliveredOnce`, `DebounceBursts.FirstOfTwoIsDropped`, `Debounce.StopIsFinal` |
| `SectionEdits` | replacing a section | `SectionEdits.ReplaceFrames`, `SectionEdits.PatchTwice` |
| `Kanban`, `KanbanText`, `KanbanColumns`, `KanbanLines`, `KanbanRefinement`, `KanbanDeletion`, `KanbanRuns`, `KanbanExamples` | board edits as slices of the text, on lines, and against edits of the parsed columns | `KanbanRefinement.MoveCardIsExact`, `KanbanRefinement.MoveConserves`, `KanbanDeletion.DeleteCardIsExact`, `KanbanRuns.EditsFollow` |

Objects that the program updates in place are classes here (`VaultIndex`, `Target`, `Vault`, `VaultTree`,
`VaultAccessPolicy`, `VaultWatcher`), and each method is proved equal to a function on values; the properties are
then proved of those functions. Concurrency is modelled by steps: `AtomicWrite` interleaves any number of server
calls, with or without the per-path lock, with an outside process; `Debounce` interleaves events, timer threads
and `stop`. Each main class method of those two is shown to be a run of the steps.

Parameters stand for what lies outside: `fold` is one character's case folding, `hash` the content digest
(assumed injective only where a lemma says so), `lower`, `stem`, `decode` and `parse` are arbitrary functions of
an index, `space` is the set of white-space characters, and a disk is a map or a function from names to contents.

## Where the code keeps less than one would expect

Each of these is proved as an exact condition, an if and only if, and comes with a lemma at a small concrete input on
which the promise fails. The code is modelled as it is.

- A path may be accepted and yet normalise to a name that is then rejected: `./c:x` becomes `c:x`, which reads as
  a drive (`Paths.NormaliseIdempotence`, `Paths.NormalFormMayBeRefused`).
- A deny rule without a slash that names a directory hides its readable files from a listing
  (`VaultWalk.WalkAgainstFilter`, `VaultWalk.ListingHidesReadable`), although each can still be read directly. So a build
  misses notes that an update indexes (`IndexFollowing.IncrementalEqualsRebuild`,
  `IndexExamples.BuildMissesWhatUpdateIndexes`).
- A parent directory that a write has just made may be one that such a rule protects (`WriteScope.CreatedIsWritable`,
  `WriteScope.ProtectedParentIsMade`).
- A directory that appears is not indexed when it lies above a read scope, because `update` asks for read access
  to the directory itself (`IndexFollowing.ResponseIsExact`, `IndexFollowing.AppearanceIsExact`,
  `IndexExamples.AppearanceIsMissed`).
- Updating a live directory keeps notes in the index that have vanished from it
  (`IndexFollowing.LiveDirectoryKeepsStale`, `IndexExamples.VanishedNoteStays`).
- A note whose name holds a backslash may be read as far as the watcher can tell, but `update` looks under the name with
  a slash in its place, and a build leaves the note out as well (`IndexFollowing.ResponseIsExact`,
  `IndexExamples.BackslashIsNotIndexed`).
- Removing a note drops an alias key that another note claims as well (`IndexGuarantees.RemoveKeepsComplete`), and a
  later sweep repairs it only if that note has changed (`IndexGuarantees.ReconcileConverges`,
  `IndexExamples.SharedAliasIsLost`).
- A file whose name holds a backslash is authorized under the name with a slash in its place
  (`VaultStorage.ChangesWereAuthorized`, `VaultStorage.BackslashIsClearedElsewhere`).
- When the suffixed name of a trashed file is taken as well, the file that has it is replaced
  (`VaultStorage.TrashThenRestore`, `VaultStorage.TrashingReplaces`).
- An update is overwritten when an outside process makes it between the second revision check and the rename, unless the
  last thing it leaves there is just what the call had pinned (`WriteGuarantees.LostOnlyInTheWindow`, `WriteGuarantees.ReachesCommit`, `WriteGuarantees.OutsiderIsOverwritten`).
- With a debounce of zero, an event after `stop` is still delivered (`Debounce.StopIsFinal`,
  `Debounce.EventAfterStopIsDelivered`).
- A burst of events on one path is delivered more than once when a timer of the path that began to run before takes a
  newer one out of the table (`DebounceBursts.FirstOfTwoIsDropped`, `DebounceBursts.StaleTimerLetsTwoThrough`).
- A tag with a component `_notes` does not survive the round trip through the tag tree (`TagTree.TreeRoundTrip`,
  `TagTree.NotesComponentBreaksRoundTrip`).
- When a column's heading is the last line of a board and has no newline behind it, the edits work at the start of the
  note instead. A card added to the column ends up above every column and above the frontmatter, without which the note
  no longer counts as a board (`KanbanRefinement.AddCardIsExact`, `KanbanExamples.AddingMissesLastHeading`). A card moved
  there is lost from the parsed board (`KanbanRefinement.MoveConserves`, `KanbanExamples.MovingLosesCard`). A card moved
  from there, though the column is empty, is found above every column (`KanbanRefinement.MoveCardIsExact`,
  `KanbanExamples.MovingHitsStray`).
- A line `## ` with nothing behind it is no heading to the parser but ends a section for the edits: a card below it is in
  the parsed column and cannot be moved or deleted there (`KanbanRefinement.MovesOnTidyBoard`,
  `KanbanDeletion.DeletesOnTidyBoard`, `KanbanExamples.BareLineCutsOff`). The same goes for a card with more white space
  before its text than the one blank (`KanbanRefinement.MoveCardIsExact`, `KanbanDeletion.DeleteCardIsExact`,
  `KanbanExamples.UntidyCardIsMissed`).
- Deleting a card may hit an earlier card that merely starts with its text, or one above every column
  (`KanbanDeletion.DeleteCardIsExact`, `KanbanExamples.DeletingOvershoots`, `KanbanExamples.DeletingHitsStray`).
- Replacing a section by text that contains a heading of its level does not settle: doing it again repeats part of
  the text (`SectionEdits.PatchTwice`, `SectionEdits.ReplacingRepeats`).
- An append of blank content to a note that ends in exactly three newlines changes nothing, so a retry of it is not
  refused (`NoteEdits.AppendChangesText`, `NoteEdits.BlankAppendIsLost`).
- `write_note` asked to create a note that exists goes on to the write with a request that can never be accepted
  (`NoteEdits.WritersArePinned`, `WriteGuarantees.HopelessIsRefused`).

## Model

| member | source | states |
|---|---|---|
| Paths.NormaliseIsCanonical | src/obsidian_mcp/storage/policy.py:67-84 | whatever normalisation accepts is the root or a name of ordinary components: no dot components, empty ones, backslashes or NUL |
| Paths.CanonicalIsFixed | src/obsidian_mcp/storage/policy.py:67-84 | a canonical name is its own normal form, and is rejected exactly when it reads as a drive |
| Paths.NormaliseIdempotence | src/obsidian_mcp/storage/policy.py:67-84 | normalising twice is normalising once, exactly when the first result does not read as a drive |
| Paths.NormalFormMayBeRefused | src/obsidian_mcp/storage/policy.py:67-84 | a concrete path that is accepted once and refused the second time |
| Paths.NormKeepsClimbing | src/obsidian_mcp/storage/policy.py:67-84 | the component fold only ever holds leading `..` followed by ordinary components |
| Paths.SelfNormalMeaning | src/obsidian_mcp/storage/policy.py:335-362 | the names discovery leaves untouched are exactly the canonical ones that are no drives |
| Paths.SelfNormalParent | src/obsidian_mcp/storage/policy.py:335-362 | the parent of a name discovery accepts is such a name |
| Paths.DotDotTakesBackOne | src/obsidian_mcp/storage/policy.py:67-84 | in the middle of a path two dots take back exactly the ordinary component before them |
| Paths.DotStaysOut | src/obsidian_mcp/storage/policy.py:67-84 | a single dot or a doubled slash in a path changes nothing |
| Paths.NormaliseAccepts | src/obsidian_mcp/storage/policy.py:67-84 | a path is accepted if and only if it has no NUL, is relative, names no drive, and a walk along it never leaves the vault |
| PathRules.FirstUncoveredMeaning | src/obsidian_mcp/storage/policy.py:114-140 | the merge names an offending rule exactly when some override rule is covered by no vault rule, and the rule it names is one |
| PathRules.CoveringIsSound | src/obsidian_mcp/storage/policy.py:101-111 | what a covered rule matches, the covering rule matches |
| PathRules.FreshIsOnlyMatchedByCovers | src/obsidian_mcp/storage/policy.py:56-64 | a name longer than every rule is matched only by recursive rules that cover its directory |
| PathRules.WitnessDecides | src/obsidian_mcp/storage/policy.py:101-111 | every rule matches a canonical path that the vault's rules allow together only if a single one of them covers the rule |
| PathRules.MergeAllowlistIsExact | src/obsidian_mcp/storage/policy.py:114-140 | an override is accepted if and only if it permits no canonical path that the union of the vault's rules refuses, and is then returned unchanged |
| PathRules.MergeDenylist | src/obsidian_mcp/storage/policy.py:143-152 | the merge keeps the vault's rules in front and holds exactly the rules of both lists |
| PathRules.MergeDenylistLoop | src/obsidian_mcp/storage/policy.py:143-152 | the loop over a local list computes that merge, an absent override adding nothing |
| PathRules.Denied | src/obsidian_mcp/storage/policy.py:364-370 | a path is denied exactly when some rule matches it case-folded; the rule reported matches and is a longest one |
| PathRules.CaseFoldBelow | src/obsidian_mcp/storage/policy.py:56-64 | folding a path folds the directory and the rest separately |
| PathRules.RecursiveDenyReachesBelow | src/obsidian_mcp/storage/policy.py:56-64 | a recursive deny rule that hits a directory hits each name below it, whatever the case |
| PathRules.DenyIgnoresCase | src/obsidian_mcp/storage/policy.py:56-64 | a deny rule decides alike on names that differ in case only, and so do rules that do; it denies at least what it would match exactly, and no more where there is no case |
| PathRules.NormaliseRuleMeaning | src/obsidian_mcp/storage/policy.py:87-98 | a rule is accepted exactly when its path is that of something in the vault, and keeps that path; a separator behind it makes it recursive |
| PathRules.NormalisePathRules | src/obsidian_mcp/storage/policy.py:87-98 | the loop fails exactly when one rule fails; otherwise its rules are normal, without repetition, and exactly the normal forms of those given |
| AccessPolicy.CoveringKeepsAncestors | src/obsidian_mcp/storage/policy.py:372-385 | an ancestor of a covered rule's scope stays traversable under the covering rule |
| AccessPolicy.MergedReadScopeIsInside | src/obsidian_mcp/storage/policy.py:170-188 | after a merge the read scope, also for ancestors, lies inside the old one |
| AccessPolicy.MergeOnlyNarrows | src/obsidian_mcp/storage/policy.py:170-188 | whatever a merged policy permits to read, traverse, write or delete, the base policy permits with the same result |
| AccessPolicy.MergedReads | src/obsidian_mcp/storage/policy.py:170-188 | an accepted override permits to read, traverse, discover and list exactly what the base permits, its own non-empty read scope holds and none of its deny rules matches |
| AccessPolicy.MergedWrites | src/obsidian_mcp/storage/policy.py:170-188 | the same for writing and deleting; nothing is written or deleted when the base or the override is read-only |
| AccessPolicy.ChainOnlyNarrows | src/obsidian_mcp/storage/policy.py:170-188 | in a chain of accepted overrides every prefix permits all that the whole permits |
| AccessPolicy.MergeRejectsExactlyWidening | src/obsidian_mcp/storage/policy.py:170-188 | a merge fails exactly when the read or the write allowlist of the override widens access |
| AccessPolicy.DeniedDirectory | src/obsidian_mcp/storage/policy.py:364-370 | a directory is denied and a name below it is not only when exact rules alone hit the directory |
| AccessPolicy.GateIsAccess | src/obsidian_mcp/storage/policy.py:387-422 | on a name in normal form the rule-only gate and discovery decide as the read itself |
| AccessPolicy.GateIgnoresSlashes | src/obsidian_mcp/storage/policy.py:387-405 | the gate does not see slashes of either kind around a name |
| AccessPolicy.DeleteIsWrite | src/obsidian_mcp/storage/policy.py:407-455 | deleting is allowed exactly where writing is, for good only when that is enabled; the root is no file |
| AccessPolicy.VaultAccessPolicy.Effective | src/obsidian_mcp/storage/policy.py:267-281 | every call answers as if nothing were cached; the cache gains exactly the accepted merge, and nothing on a rejection |
| VaultWalk.PrunedAboveReadable | src/obsidian_mcp/storage/policy.py:335-362 | a directory above a readable file is discovered exactly when no exact deny rule names it |
| VaultWalk.WalkAgainstFilter | src/obsidian_mcp/storage/filesystem.py:657-693 | the pruned walk equals the filtered list of all files, in order, if and only if no exact deny rule names a directory above a readable file; it never lists more |
| VaultWalk.ListingHidesReadable | src/obsidian_mcp/storage/policy.py:335-362 | a concrete deny rule and tree on which a readable file is not listed |
| VaultWalk.WalkMembers | src/obsidian_mcp/storage/filesystem.py:657-693 | a name is listed exactly when it is a readable file of the tree above which, below the start, no exact deny rule names a directory |
| VaultWalk.StartHasTheFiles | src/obsidian_mcp/storage/filesystem.py:124-140 | opening a directory by its name finds exactly the files of the vault below that name, and fails only where there are none |
| VaultWalk.WalkIsPart | src/obsidian_mcp/storage/filesystem.py:657-693 | nothing is listed more often than the tree has it |
| VaultWalk.WalkDirectory | src/obsidian_mcp/storage/filesystem.py:662-690 | the recursive generator computes the specified walk |
| VaultWalk.ListFiles | src/obsidian_mcp/storage/filesystem.py:657-693 | a refused or missing start is an error; otherwise the listing equals the filtered one under that condition, and it has exactly the readable files of the vault below the target above which no exact deny rule names a directory; an error hides no file |
| WriteScope.MinDepthMeaning | src/obsidian_mcp/storage/filesystem.py:251-260 | the creation depth is the minimum over the scopes that match, and exists exactly when one does |
| WriteScope.VaultTree.OpenParent | src/obsidian_mcp/storage/filesystem.py:95-121 | opening makes only ancestors at or past the creation depth; the outcome says which ancestor was missing above it or was a file, and a failure for a missing one makes nothing |
| WriteScope.OpenWriteParent | src/obsidian_mcp/storage/filesystem.py:262-276 | it succeeds exactly when each ancestor is a directory or missing where it may be made; all it makes are ancestors of the target inside the write scope |
| WriteScope.CreatedIsInScope | src/obsidian_mcp/storage/filesystem.py:251-260 | an ancestor may be made if and only if a recursive rule matches both it and the target: nothing is made above a scope, everything below |
| WriteScope.ExactScopesCreateNothing | src/obsidian_mcp/storage/filesystem.py:251-260 | if only exact rules match the target no parent may be made |
| WriteScope.CreatedIsWritable | src/obsidian_mcp/storage/filesystem.py:251-276 | a parent that may be made could be written itself exactly when no exact deny rule names it |
| WriteScope.ProtectedParentIsMade | src/obsidian_mcp/storage/filesystem.py:251-276 | a concrete policy under which the parent that is made is protected itself |
| TreeMutations.RenameConserves | src/obsidian_mcp/storage/filesystem.py:695-705 | a rename to a free name keeps every content under an injective renaming of the prefix, leaves all else alone and adds nothing |
| TreeMutations.RenameUndoes | src/obsidian_mcp/storage/filesystem.py:695-705 | renaming back restores the vault |
| TreeMutations.RenameKeepsWellFormed | src/obsidian_mcp/storage/filesystem.py:695-705 | with its parents in place a rename leaves a tree |
| VaultStorage.Vault.AuthorizeSource | src/obsidian_mcp/storage/filesystem.py:341-362 | succeeds exactly when the source exists, no deny rule speaks of a name below it, and each of its paths may be deleted |
| VaultStorage.Vault.AuthorizeDestination | src/obsidian_mcp/storage/filesystem.py:363-378 | succeeds exactly when no deny rule speaks of a name below the destination directory and each mapped path may be written |
| VaultStorage.Vault.OpenParents | src/obsidian_mcp/storage/filesystem.py:262-276 | the vault gains exactly the missing parents, inside the write scope, or nothing when they cannot all be opened |
| VaultStorage.Vault.Rename | src/obsidian_mcp/storage/filesystem.py:695-705 | goes through exactly when the parents open and the destination is free and outside the source; states the whole new vault on every outcome |
| VaultStorage.Vault.Move | src/obsidian_mcp/storage/filesystem.py:707-730 | goes through exactly when source and destination resolve, are authorized path by path, are free and can be opened; then it is the rename, otherwise nothing changes |
| VaultStorage.Vault.Trash | src/obsidian_mcp/storage/filesystem.py:749-784 | goes through exactly when the source is authorized, does not contain the trash, and its name there is free or may be replaced; a name that is taken gets the suffix, what has the suffixed name is replaced; on failure at most the trash directory is new |
| VaultStorage.Vault.Restore | src/obsidian_mcp/storage/filesystem.py:807-856 | for any name: goes through exactly when the name is that of an entry of the trash, each restored name may be written and the place is free; on failure nothing changes, except for parents made exactly when all checks pass and the system refuses the rename, of an entry into itself or of the name `..` |
| VaultStorage.ChangesWereAuthorized | src/obsidian_mcp/storage/filesystem.py:341-385 | after a move, what is gone was cleared for deletion and what is new was cleared for writing or is a parent inside the write scope; each under its own name if and only if that is in normal form, and new names are if the old ones were; no deny rule speaks of anything below a moved directory, before or after |
| VaultStorage.BackslashIsClearedElsewhere | src/obsidian_mcp/storage/policy.py:67-84 | a name with a backslash is cleared as the one with a slash |
| VaultStorage.TrashThenRestore | src/obsidian_mcp/storage/filesystem.py:749-856 | whatever `trash` accepts, `restore` accepts back to the old place under the name it got; no parent is made then, and the vault is as before, with the trash directory, if and only if that name in the trash was free |
| VaultStorage.TrashNameMeaning | src/obsidian_mcp/storage/filesystem.py:771-780 | an entry is trashed under what stands behind the last slash of its name, unless that is taken |
| VaultStorage.SuffixedMeaning | src/obsidian_mcp/storage/filesystem.py:777-780 | the suffix goes behind the stem, in front of the extension if there is one |
| VaultStorage.TrashingReplaces | src/obsidian_mcp/storage/filesystem.py:771-781 | a concrete trash in which the suffixed name is taken and its file is replaced |
| VaultStorage.DestinationIsStable | src/obsidian_mcp/storage/filesystem.py:341-385 | the preauthorized destination resolves to itself when it is opened |
| Revisions.ClientsArePinned | src/obsidian_mcp/storage/revisions.py:16-55 | when the two helpers succeed, and that the pin they return is the token of what was read or demands that there be no file |
| AtomicWrite.StepKeepsInv | src/obsidian_mcp/storage/filesystem.py:454-530 | each system call of each writer, and each outside change, keeps the protocol's invariant |
| AtomicWrite.RunKeepsInv | src/obsidian_mcp/storage/filesystem.py:454-530 | every interleaving keeps it |
| AtomicWrite.StepLogs | src/obsidian_mcp/storage/filesystem.py:491-519 | the target changes exactly by a link, a rename or an outsider, and the record of the change is true |
| AtomicWrite.OthersAreUndisturbed | src/obsidian_mcp/storage/filesystem.py:454-530 | no step touches the temporary file of another call |
| WriteGuarantees.TargetIsAlwaysWhole | src/obsidian_mcp/storage/filesystem.py:470-530 | at every moment the target holds the whole data of the last commit, and a create-only commit replaced nothing |
| WriteGuarantees.AnswersAreTrue | src/obsidian_mcp/storage/filesystem.py:464-530 | a call that succeeded has committed, a rejected one has not, and create-only with an expected revision never does |
| WriteGuarantees.TempsAreCleanedUp | src/obsidian_mcp/storage/filesystem.py:477-530 | temporary names belong to running calls or to failed unlinks; without those none outlives its call |
| WriteGuarantees.NoLostUpdates | src/obsidian_mcp/storage/filesystem.py:454-530 | under the lock, with requests that are pinned or can never be accepted, in every interleaving each commit is pinned and replaces exactly the content it pinned, and the file is the fold of the committed edits in commit order |
| WriteGuarantees.WindowDecides | src/obsidian_mcp/storage/filesystem.py:491-519 | while a call waits to commit, it is marked overtaken exactly when somebody changes the target |
| WriteGuarantees.OnlyOutsidersOvertake | src/obsidian_mcp/storage/locking.py:34-60 | while a pinned call holds the lock the target changes exactly when an outsider takes a step |
| WriteGuarantees.LostOnlyInTheWindow | src/obsidian_mcp/storage/filesystem.py:491-518 | with an outsider, a pinned replacement replaces what it pinned if and only if no outsider acts between its second read and its rename, or the last one leaves exactly the pinned content; it is marked overtaken exactly when one acts |
| WriteGuarantees.ReachesCommit | src/obsidian_mcp/storage/filesystem.py:464-491 | a concrete run of a pinned replacement to the point between its second read and its rename |
| WriteGuarantees.OutsiderIsOverwritten | src/obsidian_mcp/storage/filesystem.py:491-519 | from there, an outside write is overwritten: the commit replaces something other than it pinned |
| WriteGuarantees.HopelessIsRefused | src/obsidian_mcp/storage/filesystem.py:465-469 | a request to create that also expects a revision is refused by every content |
| WriteGuarantees.LockIsExclusive | src/obsidian_mcp/storage/locking.py:34-60 | two calls under the lock are the same call |
| WriteAnswers.ReadsRefuseMisfits | src/obsidian_mcp/storage/filesystem.py:464-506 | each of the two reads refuses exactly when what it sees is not the expected revision, or exists though it must not |
| WriteAnswers.SuccessIsSeen | src/obsidian_mcp/storage/filesystem.py:515-519 | a call succeeds exactly when its last read finds the file there |
| WriteAnswers.FoundNothingReplacesNothing | src/obsidian_mcp/storage/filesystem.py:464-512 | in every interleaving, a call that finds no file at first replaces none, also when it was not asked to create |
| WriteCall.Target.WriteAll | src/obsidian_mcp/storage/filesystem.py:154-160 | the loop over partial writes puts the whole data into the temporary file, as steps of the protocol |
| WriteCall.Target.Build | src/obsidian_mcp/storage/filesystem.py:484-493 | from the new temporary file to the commit: the target is untouched, and the temporary file is whole when nothing failed |
| WriteCall.Target.Publish | src/obsidian_mcp/storage/filesystem.py:492-524 | the commit and what follows it: the target holds the data whatever fails afterwards |
| WriteCall.Target.WriteAtomic | src/obsidian_mcp/storage/filesystem.py:454-530 | one whole call is a run of the protocol; it commits exactly when it accepts the content and nothing fails before, answers truthfully, and leaves a temporary name only if its unlink fails |
| NoteEdits.AppendChangesText | src/obsidian_mcp/tools/write.py:330 | an append leaves the text as it was exactly for blank content on a note ending in three newlines |
| NoteEdits.AppendKeepsText | src/obsidian_mcp/tools/write.py:330 | an append keeps the note to its last line that is not empty, character for character, and puts the visible part of the content behind it after one empty line |
| NoteEdits.BlankAppendIsLost | src/obsidian_mcp/tools/write.py:330 | a concrete note that a blank append leaves as it was |
| NoteEdits.AppendChangesBytes | src/obsidian_mcp/tools/write.py:325-342 | it leaves the bytes as they were exactly if in addition decoding had lost nothing |
| NoteEdits.AppendIsAtMostOnce | src/obsidian_mcp/tools/write.py:323-345 | a retry pinned to the same revision conflicts exactly when the first append changed the bytes, which any non-blank content does |
| NoteEdits.WritersArePinned | src/obsidian_mcp/tools/write.py:81-122 | the requests of both writers are pinned to what they read and accepted if nothing changed, but for creating an existing note, which is hopeless |
| NoteEdits.ClientsLoseNoUpdates | src/obsidian_mcp/tools/write.py:81-124 | in every interleaving of appends and full writes under the lock each commit replaces exactly what its client read, and the file is the fold of the edits |
| NoteEdits.AppendToNote | src/obsidian_mcp/tools/write.py:322-344 | the whole call: what it answers and what the file holds then; when nothing fails it is written exactly if nothing contradicts what is expected, and the file then reads as the old text with the append |
| NoteEdits.WriteNote | src/obsidian_mcp/tools/write.py:81-124 | the same for a full write: when nothing fails it is written exactly if nothing contradicts what is expected, and the file then reads as old and new text are merged; otherwise it is as before |
| NoteEdits.AnswersMatchTheFile | src/obsidian_mcp/tools/write.py:322-344 | without a failure an append is written exactly when nothing contradicts it, and then the file reads as it should |
| NoteEdits.WritingMatchesTheFile | src/obsidian_mcp/tools/write.py:81-124 | without a failure a full write is written exactly when the file is not there and nothing was expected, or is there, need not be created and has the expected revision; then it reads as old and new text are merged |
| NoteIndex.FreshIsUnique | src/obsidian_mcp/domain/index.py:298-320 | a sound index is indistinguishable from an exact one for the same contents exactly when each note owns its keys |
| NoteIndex.RemoveAllKeepsSound | src/obsidian_mcp/domain/index.py:129-142 | removing notes leaves an index sound for the remaining contents |
| NoteIndex.IndexNoteKeepsSound | src/obsidian_mcp/domain/index.py:298-320 | indexing a note leaves an index sound with its content added, and gives it all its keys |
| NoteIndex.RemoveAllKeepsOwners | src/obsidian_mcp/domain/index.py:129-142 | removing notes neither takes a key from another note nor gives it one |
| NoteIndex.IndexNoteKeepsOwners | src/obsidian_mcp/domain/index.py:298-320 | indexing a note leaves alone the owners of keys it does not claim |
| NoteIndex.BlockMapMeaning | src/obsidian_mcp/domain/index.py:318-320 | a block id leads to the line of its last reference |
| IndexGuarantees.ReconcileNoteKeepsSound | src/obsidian_mcp/domain/index.py:149-191 | skipping a note by its digest is as good as indexing it again |
| IndexGuarantees.UpdateKeepsSound | src/obsidian_mcp/domain/index.py:95-120 | an update, whatever it finds, keeps the index sound |
| IndexGuarantees.EveryRunIsSound | src/obsidian_mcp/domain/index.py:53-191 | after any calls against a changing disk backlinks invert outlinks, tags and blocks are those of the parsed contents, digests are theirs, and each alias leads to a note that claims it |
| IndexGuarantees.BuildIsFresh | src/obsidian_mcp/domain/index.py:53-85 | a build over a quiet disk without clashing keys is exact, in any order of the files |
| IndexGuarantees.BuiltNotes | src/obsidian_mcp/domain/index.py:74-82 | a build indexes exactly the files it could read |
| IndexGuarantees.SkipIsExact | src/obsidian_mcp/domain/index.py:149-191 | the sweep skips a note exactly when the index has parsed what is on disk |
| IndexGuarantees.SweepConverges | src/obsidian_mcp/domain/index.py:149-191 | the loop's invariant: visited notes are exact, kept ones own their keys as they did at the start, whoever took over keys on the way |
| IndexGuarantees.ReconcileConverges | src/obsidian_mcp/domain/index.py:149-191 | one quiet failure-free sweep equals a fresh build if and only if every note it skips still holds all its keys |
| IndexGuarantees.ReconcileRepairs | src/obsidian_mcp/domain/index.py:149-191 | from an exact index any drift of the disk is repaired by one such sweep |
| IndexGuarantees.ReconciledNotes | src/obsidian_mcp/domain/index.py:149-191 | whatever happens to the files meanwhile, a sweep leaves exactly those it could read, and those that failed and were indexed before |
| IndexFollowing.ResponseIsExact | src/obsidian_mcp/domain/index.py:95-127 | a change of the vault followed by its update, under the normal form of the reported name, takes an exact index to an exact index if and only if: where the update may not look nothing is left to index, and in a directory it adds what the walk comes upon while the rest was indexed before and nothing has vanished |
| IndexFollowing.ForeignChangesNothing | src/obsidian_mcp/storage/policy.py:335-362 | a change under a name that is not its own normal form changes nothing that may be indexed |
| IndexFollowing.WantedMeaning | src/obsidian_mcp/domain/index.py:57-61 | what is to be indexed: notes readable under their own names that are neither excluded nor drawings |
| IndexFollowing.IncrementalEqualsRebuild | src/obsidian_mcp/domain/index.py:53-127 | after any followed changes, each with its update, the index equals a build over the pruned walk if and only if that walk comes upon every note that may be indexed: no exact deny rule names a directory above one |
| IndexFollowing.CandidatesAreSeen | src/obsidian_mcp/domain/index.py:57-61 | the files a build indexes are the notes that may be indexed and that the walk comes upon, each once |
| IndexExamples.BuildMissesWhatUpdateIndexes | src/obsidian_mcp/domain/index.py:53-120 | a concrete deny rule and note that an update indexes and a build does not |
| IndexFollowing.AppearanceIsExact | src/obsidian_mcp/domain/index.py:95-120 | a directory that appears is indexed exactly when update may enter it and the walk comes upon all its notes, or nothing in it is to be indexed |
| IndexExamples.AppearanceIsMissed | src/obsidian_mcp/domain/index.py:105-107 | a concrete read scope under which the note of a new directory is missed |
| IndexExamples.BackslashIsNotIndexed | src/obsidian_mcp/domain/index.py:95-107 | a concrete note with a backslash in its name that passes the read check and is not indexed |
| IndexGuarantees.RemoveKeepsComplete | src/obsidian_mcp/domain/index.py:129-142 | removing a note leaves the others resolvable exactly when it held no key another note claims |
| IndexExamples.SharedAliasIsLost | src/obsidian_mcp/domain/index.py:129-191 | a concrete run: two notes share a key, one is removed, the sweep skips the other, and only a build gives the key back |
| IndexFollowing.LiveDirectoryKeepsStale | src/obsidian_mcp/domain/index.py:95-120 | updating a live directory adds the notes the walk comes upon to those indexed below it; they are exactly those on disk if and only if none is gone and the others were indexed before |
| IndexExamples.VanishedNoteStays | src/obsidian_mcp/domain/index.py:109-114 | a concrete directory whose vanished note stays in the index |
| VaultIndex.VaultIndex.Remove | src/obsidian_mcp/domain/index.py:129-142 | the seven fields in place are those of the specified removal |
| VaultIndex.VaultIndex.IndexNote | src/obsidian_mcp/domain/index.py:298-320 | the fields in place are those of the specified indexing |
| VaultIndex.VaultIndex.RemoveStale | src/obsidian_mcp/domain/index.py:122-127 | removing the collected notes one by one removes them all, in any order |
| VaultIndex.VaultIndex.Build | src/obsidian_mcp/domain/index.py:53-85 | the loop computes the specified build and publishes readiness only if asked |
| VaultIndex.VaultIndex.Update | src/obsidian_mcp/domain/index.py:91-120 | the fields in place are those of the specified update of the canonical path, or the removal of the raw one |
| VaultIndex.VaultIndex.Reconcile | src/obsidian_mcp/domain/index.py:149-191 | the two loops compute the specified sweep and count the failures; a failed listing changes only the telemetry |
| VaultIndex.VaultIndex.GetBacklinks | src/obsidian_mcp/domain/index.py:201-215 | the answer is what is recorded under the keys of the note, and on an exact index exactly the notes with a link whose text is, whatever the case, the path, the path without its extension, the stem or an alias of the note |
| VaultIndex.BacklinksAreScanned | src/obsidian_mcp/domain/index.py:201-215 | on an exact index the recorded backlinks are those of that scan, link by link |
| VaultIndex.VaultIndex.HasNote | src/obsidian_mcp/domain/index.py:322-335 | on an exact index the answer is yes exactly when the name is the stem, an alias, the path or the path without its extension of an indexed note |
| VaultIndex.VaultIndex.GetNotesByTag | src/obsidian_mcp/domain/index.py:217-220 | on a sound index the notes that carry the tag |
| VaultIndex.VaultIndex.GetBlock | src/obsidian_mcp/domain/index.py:246-249 | on a sound index the line of the last reference with this id, exactly when the note has one |
| VaultIndex.AliasesAreClaims | src/obsidian_mcp/domain/index.py:311-317 | on an exact index a key leads to a note exactly when the key is its stem or one of its aliases |
| VaultIndex.RemoveOneMore | src/obsidian_mcp/domain/index.py:122-142 | removals commute: one after the other they are one removal of the set |
| LinkGraph.SkipKeepsInv | src/obsidian_mcp/tools/query.py:95-103 | dropping a queue entry that is visited, too deep or out of scope forgets nothing |
| LinkGraph.VisitKeepsInv | src/obsidian_mcp/tools/query.py:104-120 | a visit keeps the queue ordered by level, each visit at its distance, and each link followed or queued |
| LinkGraph.NothingIsMissed | src/obsidian_mcp/tools/query.py:95-120 | with an empty queue everything near enough has been visited |
| LinkGraph.ResolvedLeads | src/obsidian_mcp/domain/index.py:337-340 | a link leads to the indexed note whose stem or alias is the stem of the link, or to its own text if there is none |
| LinkGraph.NearIsWithin | src/obsidian_mcp/tools/query.py:95-120 | a note is at distance at most n exactly when a chain of at most n links of the contents joins it to the root within the scope |
| LinkGraph.Explore | src/obsidian_mcp/tools/query.py:95-120 | the loop ends and visits exactly the notes near enough, nearest first, reporting exactly their incident edges |
| LinkGraph.Deduplicate | src/obsidian_mcp/tools/query.py:122-129 | exactly the first edge of each pair is kept, once |
| LinkGraph.GetLinkGraph | src/obsidian_mcp/tools/query.py:71-131 | exactly the notes at distance at most the depth, each once and nearest first, and exactly the linked pairs, each once, both ends in scope; on an exact index distance and links are those of the indexed contents |
| TagTree.InsertIsExact | src/obsidian_mcp/domain/index.py:269-286 | inserting a tag adds its notes at its place and changes no other tag, leaf or namespace |
| TagTree.FlattenIsLookup | src/obsidian_mcp/domain/index.py:251-287 | the tree speaks of exactly the tags that can be looked up in it |
| TagTree.FlattenIsPlain | src/obsidian_mcp/domain/index.py:262-287 | whatever was put in, no tag the tree speaks of has a component `_notes` |
| TagTree.BuildIsExact | src/obsidian_mcp/domain/index.py:262-287 | after all tags, each has its own notes and no other tag exists |
| TagTree.TreeRoundTrip | src/obsidian_mcp/domain/index.py:262-287 | for distinct tags the tree is built and flattening it gives back exactly the tags with their notes if and only if no tag has a component `_notes` |
| TagTree.OrderDoesNotMatter | src/obsidian_mcp/domain/index.py:262-287 | the order of the tags cannot be seen in the tree |
| TagTree.NotesComponentBreaksRoundTrip | src/obsidian_mcp/domain/index.py:269-286 | the tag `a/_notes` comes back as `a` |
| TagTree.GetTagTree | src/obsidian_mcp/domain/index.py:251-287 | the tree is built and flattens to each tag that keeps a visible note, with exactly its visible notes, if and only if none of these tags has a component `_notes` |
| Debounce.StepKeepsInv | src/obsidian_mcp/storage/watcher.py:50-82 | events, firings, deliveries and stop keep the invariant of the timers, also when a delivery removes a newer timer |
| Debounce.NoEventIsLost | src/obsidian_mcp/storage/watcher.py:50-68 | before stop every event has a live or delivered timer of its path armed no earlier; once nothing is live, a delivery has followed it |
| Debounce.DeliveriesNeverExceedEvents | src/obsidian_mcp/storage/watcher.py:50-68 | there are at most as many deliveries as events |
| Debounce.StopIsFinal | src/obsidian_mcp/storage/watcher.py:50-82 | after stop nothing is delivered, exactly unless debouncing is off and an event comes |
| DebounceBursts.BurstIsDeliveredOnce | src/obsidian_mcp/storage/watcher.py:50-68 | whatever comes before and after, of a burst of events on a path during which no timer of the path begins or clears the table, none but the last is ever delivered |
| DebounceBursts.FirstOfTwoIsDropped | src/obsidian_mcp/storage/watcher.py:50-68 | the first of two consecutive events on a path can still be delivered if and only if its timer has begun before the second, or an older one has taken it out of the table |
| DebounceBursts.StaleTimerLetsTwoThrough | src/obsidian_mcp/storage/watcher.py:59-63 | a concrete run in which two of a burst are delivered |
| DebounceBursts.UndebouncedDeliversAll | src/obsidian_mcp/storage/watcher.py:51-53 | with a debounce of zero every event is delivered, in order |
| Debounce.EventAfterStopIsDelivered | src/obsidian_mcp/storage/watcher.py:50-53 | a concrete run in which an event after stop is delivered |
| Debounce.VaultWatcher.OnEvent | src/obsidian_mcp/storage/watcher.py:50-68 | the code of an event is that step, of which the laws of a burst hold |
| Debounce.VaultWatcher.Deliver | src/obsidian_mcp/storage/watcher.py:59-63 | the code of a delivery is its two steps |
| Debounce.VaultWatcher.Stop | src/obsidian_mcp/storage/watcher.py:76-82 | the code of stop is a run of the steps, leaves no pending timer, and none that was pending armed |
| SectionEdits.ReplaceFrames | src/obsidian_mcp/tools/write.py:209-214 | everything up to the end of the heading and from the end of the section on is kept character for character, with the stripped text between |
| SectionEdits.EndsIsPattern | src/obsidian_mcp/tools/write.py:204 | a line ends a section exactly when it starts with at most as many hashes as the level and white space; a deeper heading does not |
| SectionEdits.SectionIsPattern | src/obsidian_mcp/tools/write.py:197-206 | the section reaches from a heading of its level and title down to the first line that the pattern of that level matches |
| SectionEdits.HeadingIsFoundAgain | src/obsidian_mcp/tools/write.py:197-202 | notes that agree up to the end of the first matching heading agree on where it is |
| SectionEdits.SectionIsFoundAgain | src/obsidian_mcp/tools/write.py:197-214 | after a replacement the same heading is found, and the section ends at the first new line that ends it, or where the rest begins |
| SectionEdits.ReplaceTwice | src/obsidian_mcp/tools/write.py:197-214 | on lines, a second replacement changes nothing exactly when no new line is a heading at or above the level |
| SectionEdits.PatchTwice | src/obsidian_mcp/tools/write.py:197-214 | the same on the text of the note |
| SectionEdits.ReplacingRepeats | src/obsidian_mcp/tools/write.py:197-214 | a concrete note on which the second replacement changes the text |
| Kanban.ParseColumns | src/obsidian_mcp/tools/kanban.py:229-244 | the loop, which appends to the last column, computes the columns of the recursive specification |
| Kanban.TextThenBlanksMeaning | src/obsidian_mcp/tools/kanban.py:249-286 | the patterns of the edits match a line exactly when it carries the text, trailing blanks apart |
| KanbanRefinement.MatchCarries | src/obsidian_mcp/tools/kanban.py:286-292 | a line the pattern of a move matches is parsed to a card with that text and tick |
| KanbanRefinement.MatchIsText | src/obsidian_mcp/tools/kanban.py:238-286 | on a line without further white space the pattern matches exactly when the parsed card has that text |
| KanbanExamples.TicksAndBlanks | src/obsidian_mcp/tools/kanban.py:22 | concrete lines: a cross of either case ticks a card, and blanks and tabs behind the text are no part of it |
| KanbanLines.DropTwins | src/obsidian_mcp/tools/kanban.py:229-244 | of two card lines it does not matter which is taken out if and only if no heading and no other card stands between them and they carry the same card |
| KanbanRefinement.ParsedIsExact | src/obsidian_mcp/tools/kanban.py:229-244 | the parsed column holds a card exactly when a line of it carries the text, and taking the first such line out takes its first such card out |
| KanbanRefinement.LocateIsExact | src/obsidian_mcp/tools/kanban.py:247-289 | what the search finds is a card with that text; below a heading it can stand in for the first one of the column if and only if they are twins, and otherwise it stands above all columns |
| KanbanRefinement.LocateOnTidyBoard | src/obsidian_mcp/tools/kanban.py:247-289 | without further white space the search finds the first such card of the column, and nothing if and only if there is none or a bare line cuts it off |
| KanbanRefinement.AddCardIsExact | src/obsidian_mcp/tools/kanban.py:263-269 | adding fails exactly for an unknown column; otherwise it prepends the card to the parsed column, and leaves all else and the start of the note alone, exactly when the heading does not end the note; else the card stands above all columns and the frontmatter is gone |
| KanbanExamples.AddingMissesLastHeading | src/obsidian_mcp/tools/kanban.py:247-269 | a concrete board on which the card misses its column |
| KanbanRefinement.MoveCardIsExact | src/obsidian_mcp/tools/kanban.py:272-310 | on any board, a move does to the columns what was asked, and answers so, if and only if the search finds what parsing finds or a twin of it and the heading of the target does not end the note, or neither finds anything |
| KanbanRefinement.MoveLeaves | src/obsidian_mcp/tools/kanban.py:272-310 | when the search finds a line, whether the move fails, and the whole board it leaves |
| KanbanRefinement.MovesOnTidyBoard | src/obsidian_mcp/tools/kanban.py:247-310 | without further white space that condition is: no bare line cuts the card off, and no heading involved ends the note |
| KanbanRefinement.MoveConserves | src/obsidian_mcp/tools/kanban.py:272-310 | a move loses no card line; the parsed board keeps its card texts exactly when the two headings are alike in ending the note or not, and loses or gains exactly that card otherwise |
| KanbanRefinement.HeadingAfterDrop | src/obsidian_mcp/tools/kanban.py:302-308 | taking a card out decides neither whether a column is there nor whether its heading ends the note |
| KanbanExamples.MovingHitsStray | src/obsidian_mcp/tools/kanban.py:247-310 | a concrete board on which a move out of an empty column claims to have moved a card |
| KanbanExamples.MovingLosesCard | src/obsidian_mcp/tools/kanban.py:272-310 | a concrete board that loses the moved card |
| KanbanExamples.BareLineCutsOff | src/obsidian_mcp/tools/kanban.py:247-260 | a concrete board whose column holds a card that no edit finds in it, because of a line of two hashes and a blank |
| KanbanExamples.UntidyCardIsMissed | src/obsidian_mcp/tools/kanban.py:238-289 | a concrete board whose column holds a card that no edit finds, because of a second blank |
| KanbanLines.TextsAreLines | src/obsidian_mcp/tools/kanban.py:229-244 | the texts of the parsed cards and of those above all columns are those of the card lines |
| KanbanDeletion.ParsedInIsExact | src/obsidian_mcp/tools/kanban.py:229-244 | the column, or the board, holds a card exactly when a line below its heading carries the text, and taking the first such line out takes its first such card out |
| KanbanDeletion.LeftoverIsAnotherCard | src/obsidian_mcp/tools/kanban.py:313-330 | what a match leaves of its line never has as long a text as the line |
| KanbanDeletion.DeleteCardIsExact | src/obsidian_mcp/tools/kanban.py:313-330 | on any board, a deletion, in a column or anywhere, removes the first card with the text and answers whether there was one if and only if the first line in scope that starts with the text lies below a heading, carries no longer card, and is what parsing finds or a twin of it, or neither finds anything |
| KanbanDeletion.DeletesOnTidyBoard | src/obsidian_mcp/tools/kanban.py:313-330 | without further white space that condition is: the line found carries no longer card and lies below a heading, and no bare line cuts the card off |
| KanbanExamples.DeletingOvershoots | src/obsidian_mcp/tools/kanban.py:313-330 | a concrete board on which deleting "call" destroys "call Bob" |
| KanbanExamples.DeletingHitsStray | src/obsidian_mcp/tools/kanban.py:313-319 | a concrete board on which a deletion hits a line above all columns |
| KanbanRuns.EditFollows | src/obsidian_mcp/tools/kanban.py:263-330 | an exact edit does to the columns what was asked for and leaves the cards above them alone |
| KanbanRuns.EditsFollow | src/obsidian_mcp/tools/kanban.py:263-330 | any number of exact edits in a row, on any board, does to the parsed board what the same edits of the columns do |
| KanbanText.SectionStartIsOffset | src/obsidian_mcp/tools/kanban.py:253 | the offset after the heading is the start of the line below it, or of the note when the heading ends it |
| KanbanText.AddTextIsAddCard | src/obsidian_mcp/tools/kanban.py:263-269 | the slices of the text are the insertion of a line |
| KanbanText.MoveTextIsMoveCard | src/obsidian_mcp/tools/kanban.py:272-310 | the slices of the text are the move of a line |
| KanbanText.DeleteTextIsDeleteCard | src/obsidian_mcp/tools/kanban.py:313-330 | the substitution in the text is the deletion or shortening of a line |

## Left out

- The server, its transports, authentication, prompts, audit log and configuration: plumbing around this core.
- Canvas, Bases, Excalidraw, tasks, periodic notes, similarity and search: maps, filters and floating point.
- Moving and renaming with link updates, and search-and-replace over the vault: they read before they lock, so they are not clients of the no-lost-updates theorem.
- Symbolic links, descriptors, file modes, `fsync` and crashes: a system call is one atomic step that works or raises.
- Lock time-outs and fairness: only safety is stated.
- Outside writers that change the file in place, and outsiders that delete temporary files: an outsider replaces or removes the target in one step.
- `normalize_revision_token`: tokens are compared as they are.
- Writers that pass an expected revision along with create-only through other tools than the two in `NoteEdits`.
- Sorting: query results are sets, or sequences in the order of the scan; `sorted` is a parameter of the tag tree.
- Case folding and lower-casing beyond what is assumed of them: folding is a homomorphism that fixes the slash, lower-casing is any function.
- Reading and parsing of notes: `decode` and `parse` are arbitrary functions of the content.
- The telemetry of a sweep beyond its error, and logging.
- Polling, observer threads and the periodic reconciliation thread of the watcher.
- Aliasing inside the tag tree: its dictionaries and lists are values here.
- Locking, reading and writing in the board tools: they go through the same helpers as the writers of `NoteEdits`.
- WriteNote: the frontmatter carried over is an arbitrary function of old and new text.
- The settings block and frontmatter of a board: boards are the lines of the note, without `%%`.
- AddCardIsExact: requires a column name and a card text that a heading and a card can carry: of one line, not empty, without white space around the text or behind the name.
- LocateIsExact: requires such a name and text.
- MoveCardIsExact: requires such names and such a text.
- DeleteCardIsExact: requires such a name and text.
- AddTextIsAddCard: requires a card text and a column name of one line.
- MoveTextIsMoveCard: requires a card text and column names of one line; the pattern of a text with a newline may match across lines.
- DeleteTextIsDeleteCard: requires a card text and a column name of one line, for the same reason.
- Section edits other than replacing.
- ReplaceFrames: requires a title of one line with something visible in it; the pattern may match any other at several places, and its heading may end in a line end that the source strips.
- HeadingIsFoundAgain: requires such a title.
- SectionIsFoundAgain: requires such a title.
- ReplaceTwice: requires such a title.
- PatchTwice: requires such a title.
