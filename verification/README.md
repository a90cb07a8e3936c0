# Models of One Link's release and operations scripts

Dafny models of the algorithms in One Link's scripts that carry a guarantee somebody relies on, with
proofs of those guarantees. `dafny verify dfyconfig.toml` checks everything. Each module opens with a
sentence on what it models.

| part | modules | main results |
|---|---|---|
| Quarantine move engine (`scripts/quarantine_manifest.py`) | QuarantineState, QuarantineSteps, QuarantineFaults, QuarantineLayout, QuarantineRun, QuarantineWitness, QuarantinePlan, QuarantineSamples | all or nothing for every choice of failing operations; conservation, no overwriting and write-ahead agreement at every moment of every run; what a rollback leaves behind as a function of the operations that fail; without failures a run completes exactly when its moves can be carried out |
| Release archive (`scripts/package_standalone_bundle.py`) | ArchiveLinks, ArchiveClimbs, ArchiveMembers, ArchiveExtraction, ArchiveTrees, ArchivePaths, BundleManifest, Decimal, TextLines, Digests | where ".." lead the targets, the lexical link resolver agrees with component-by-component pathname resolution (section 4.13 of POSIX.1-2017, Base Definitions), and the exact condition on other targets; an accepted archive can be extracted exactly when no member lies below another, and every link whose ".." lead can then be followed; accepted names are exactly the canonical ones; the manifest's round trip, with the exact condition |
| SBOM graphs (`scripts/gen_sbom.py`) | UvGraph, CargoGraph, StringOrder | the worklist computes the least graph closed under the dependency rules; Cargo targets stay in the lock; merging is canonical |
| Routing demonstration (`scripts/phase_e_live_demo.py`) | Routing | Dijkstra with early exit returns a cheapest walk over all walks |
| Source dump (`dump_project_sources.py`) | Tracer, PartRolling, LineNumbers | depth-cut breadth-first search is exact; part rolling conserves blocks and its offsets locate them; line numbering is reversible, with the exact condition |
| Bundle symlinks (`scripts/build_binary.py`) | SymlinkTree, Materialize | replacing links keeps the contents read through every path, with the exact condition |
| Path spelling (`scripts/verify_browser_argon2_wasm.py`) | PathSpelling | equal canonical bytes exactly for equal spelling |
| Benchmark gate (`scripts/bench_gate.py`) | BenchGate | the verdict's meaning, monotonicity, separation |

Bytes, Wrappers, Sets, Paths and PosixPath hold what several parts share.

## How failures are modelled

`QuarantineRun.Run` numbers its operations on the file system and the journal, and asks an arbitrary
function `faults` how each one fares: it works, raises without an effect, or raises although its effect
took place (a rename never does the last). A check made of several system calls counts as one operation.
Every statement holds for every `faults`, so for every choice of failing operations.

The ghost field `history` starts with the tree as found, grows by one state for each single effect, and
is never cut: every method promises `old(history) <= history`. `ExecuteMoves` promises that all its
states are safe (`SafeThroughout`), so what is said of safe states in QuarantineState holds at every
moment of every run. Because operations are numbered, the contracts also say how far a run gets before
its first failing operation, and `RollbackStep` and `RollbackMoves` say exactly what the rollback does:
QuarantineFaults computes it from `faults` alone.

## What the proofs brought to light

- Disk and journal can disagree on more than the step in progress: in
  `QuarantineWitness.TwoTargetsMisread` both targets are back at their sources, the journal has both
  moves complete and neither undone, and no step is in progress. `QuarantineRun.Run.AgreesAfterRollback`
  says exactly when disk and journal agree after a rollback, and `ExecuteMoves` bounds the disagreement
  at every moment by one target more than it reports errors.
- Closing the journal can raise after `execute_moves` has moved and verified everything; the caller
  then sees an error although every target lies at its destination
  (`QuarantineWitness.MovedButNotClosed`). The outcome is `CloseFailed` exactly when the last operation,
  closing, fails, and what it hides is completion exactly when every operation before worked
  (`QuarantineRun.Run.CompletesExactly`).
- `load_plan` accepts plans that no run can complete: one destination inside another, a place of the
  audit files, or the quarantine root itself. `QuarantinePlan.FeasibleExactly` says which ones, and
  QuarantineSamples holds a manifest of each kind.
- U+0085, U+2028 and U+2029 pass the packager's control-character check and break its manifest
  (`BundleManifest.HiddenBreaksGetPackaged`, `BundleManifest.RoundTripExactly`).
- The archive verifier and the operating system can resolve a link differently: when its target climbs
  out of another link (`ArchiveClimbs.ClimbingOutOfALinkDisagrees`), when it leaves the archive root and
  comes back (`ArchiveClimbs.LeavingTheRootDisagrees`, an archive with one link), and when it leads
  through a link of one of these kinds (`ArchiveClimbs.LinkOnTheWayDisagrees`). For every member and
  every relative target, `ArchiveClimbs.AgreesExactly` says whether the two agree in all archives with
  that member whose other links are `Passable`, as all links are whose ".." lead.
- The checks on names and links accept archives that no tree can hold, such as the files "one-link/a"
  and "one-link/a/b" (`ArchiveTrees.NestedFilesAreVerified`). An accepted archive can be extracted
  exactly when no member lies below another (`ArchiveTrees.ExtractableExactly`).
- The first dump part holds no block when its header and the first block together exceed the chunk
  limit, and only then (`PartRolling.Config.FirstPartIsEmpty`).
- The symlink check accepts a link that the operating system cannot open
  (`Materialize.UnreadableLinkIsAccepted`), and a pass over that bundle succeeds and makes it a readable
  file (`Materialize.MaterializeOddBundle`); the view is kept exactly when every link
  can be read.
- Line numbers come off again exactly when "\n" is the only line break in the text
  (`LineNumbers.NumberingIsReversible`).

## Model

| member | source | states |
|---|---|---|
| QuarantineRun.Run.constructor | scripts/quarantine_manifest.py:1284-1309 | a run starts with nothing moved or journaled; its history is the tree as found |
| QuarantineRun.Run.ExecuteMoves | scripts/quarantine_manifest.py:1284-1418 | whatever fails: at every moment of the run nothing is lost, duplicated or overwritten, and the journal runs ahead of the disk; at its end every target that was there lies, unchanged, at its source or its destination; every other path, preserved files included, is untouched; completion means that every target was the file the manifest pins, in size and digest, below the root approved for its kind, lies at its destination only, that the audit copies hold what was to be written and that the journal has every step in order; "every completed move was rolled back" means the original tree is intact, an incomplete rollback names every target not restored, and `CloseFailed` hides one of these, exactly when the last operation, closing the journal, fails; with no failing operation it completes exactly when no references are left, the root is new, every target is its pinned file and the destinations fit below the root, beside each other and beside the audit files |
| QuarantineRun.Run.Transact | scripts/quarantine_manifest.py:1300-1416 | the transaction settles in one of its outcomes, disagrees with its journal on at most one target more than it reports errors, and gets as far as its first failing operation lets it; closing fails exactly when the last operation does |
| QuarantineRun.Run.CompletesExactly | scripts/quarantine_manifest.py:1311-1396 | moves that can be carried out are completed exactly when every operation before the closing of the journal works |
| QuarantineRun.Run.DoableExactly | scripts/quarantine_manifest.py:551-569 | which moves can be carried out, field by field: size, digest and approved root of every source, a new root, and destinations that do not meet |
| QuarantineRun.ZeroReferencesExactly | scripts/quarantine_manifest.py:57-68 | only one set of counts passes: zero for each of the eight queries |
| QuarantineRun.Run.HistoryIsSafe | scripts/quarantine_manifest.py:1325-1416 | a run starts with nothing done, and each of its states is safe and follows from the one before by a single effect |
| QuarantineRun.Run.AccountableForErrors | scripts/quarantine_manifest.py:1270-1281 | at every moment disk and journal disagree on at most the step in progress and one target per reported error; at the end on reported ones only |
| QuarantineRun.Run.SettledFromHistory | scripts/quarantine_manifest.py:1396-1416 | each outcome's promise about the file tree follows from the history alone |
| QuarantineRun.Run.MoveAllOrRollBack | scripts/quarantine_manifest.py:1325-1416 | it completes, or every moved target is tried for rollback as the failures from then on have it; completing implies that the plan was doable; a doable plan is broken off only by its first failing operation, and one broken off after the last move had every target recorded complete |
| QuarantineRun.Run.CompletedWasDoable | scripts/quarantine_manifest.py:1325-1396 | from the final tree of a completed run: destinations were new, apart from each other and from the audit files, and every source was the pinned file below its approved root |
| QuarantineRun.Run.MoveAll | scripts/quarantine_manifest.py:1326-1396 | success moves every target, with a verified record for each and for all, in the number of operations counted; failure leaves exactly the moved ones at their destinations, ready to roll back; a doable plan raises only by a failing operation |
| QuarantineRun.Run.MoveOne | scripts/quarantine_manifest.py:1326-1366 | one more target is moved and confirmed, or what `moved` lists is exactly what lies at destinations |
| QuarantineRun.Run.PrepareMove | scripts/quarantine_manifest.py:1327-1335 | before the intent is recorded, the source is the pinned original below its approved root, and the rename to the new destination is possible |
| QuarantineRun.Run.AnnounceAndRename | scripts/quarantine_manifest.py:1336-1348 | intent, then rename: success places exactly this target, failure places nothing, and only a failing operation raises |
| QuarantineRun.Run.ConfirmAndVerify | scripts/quarantine_manifest.py:1349-1366 | completion and verification are recorded only for a placed target, moving nothing |
| QuarantineRun.Run.ValidateTargetSource | scripts/quarantine_manifest.py:551-569 | passes only for the pinned file below the root approved for its kind, and for that file raises only by a failing operation |
| QuarantineRun.Run.AssertExistingPathChain | scripts/quarantine_manifest.py:159-188 | passes only for existing paths inside the root; raises on those only by a failing operation |
| QuarantineRun.Run.VerifyMovedDestination | scripts/quarantine_manifest.py:1207-1217 | passes only when the source is gone and the pinned file lies at the destination; then raises only by a failing operation |
| QuarantineRun.Run.AtomicRenameNoReplace | scripts/quarantine_manifest.py:1121-1170 | happens in full onto a free path, or raises with no effect; raises where it was possible only by a failing operation |
| QuarantineRun.Run.Append | scripts/quarantine_manifest.py:1110-1118 | the journal only grows, by the one record or not at all |
| QuarantineRun.Run.MkdirExact | scripts/quarantine_manifest.py:1051-1058 | accepts an existing directory, otherwise makes exactly that directory; when the parent is there and nothing else is in the way, raises only by a failing operation |
| QuarantineRun.Run.CreateNewQuarantineRoot | scripts/quarantine_manifest.py:1061-1082 | makes nothing but the root and its missing ancestors; success means that the root did not exist and now does; a feasible root fails only by a failing operation |
| QuarantineRun.Run.DeepestExistingAncestor | scripts/quarantine_manifest.py:191-198 | finds the longest part of the path that exists |
| QuarantineRun.Run.MkdirDestinationParents | scripts/quarantine_manifest.py:1085-1093 | makes nothing but directories on the way to this destination; success leaves its directory in place; refuses unsafe components, and otherwise fails for a feasible plan only by a failing operation |
| QuarantineRun.Run.WriteExclusive | scripts/quarantine_manifest.py:1096-1107 | creates the file with exactly this data at a free path, and never overwrites |
| QuarantineRun.Run.Prepare | scripts/quarantine_manifest.py:1303-1324 | success leaves a new root holding both manifests and the journal, with no target touched |
| QuarantineRun.Run.RollbackMoves | scripts/quarantine_manifest.py:1220-1281 | every moved target is attempted, last moved first, and journal, places and errors are those that the failing operations determine; the loop never stops early |
| QuarantineRun.Run.RollbackOne | scripts/quarantine_manifest.py:1227-1269 | the five operations in order: which one fails first decides whether the rename happened, which records are written and whether it raises; nothing else can make it fail |
| QuarantineRun.Run.RollbackStep | scripts/quarantine_manifest.py:1227-1280 | a failed rollback is recorded as an error of that target and stops nothing; the target is left misread exactly when it stays without a completion record, or goes back with a completion record and no verified one |
| QuarantineRun.Run.MisreadAfterRollback | scripts/quarantine_manifest.py:1226-1281 | for every target and every course of failures, exactly when it ends misread |
| QuarantineRun.Run.AgreesAfterRollback | scripts/quarantine_manifest.py:1226-1281 | disk and journal agree after a rollback exactly when every rename back that undid a recorded move was recorded as verified, and every move not taken back had been recorded complete |
| QuarantineRun.Run.RestoredIsVerified | scripts/quarantine_manifest.py:1226-1281 | what is not reported is restored and journaled as verified |
| QuarantineWitness.TwoTargetsMisread | scripts/quarantine_manifest.py:1250-1281 | a whole run, its failing operations named, after which two targets are back, the journal has both moved, and no step is in progress |
| QuarantineWitness.MovedButNotClosed | scripts/quarantine_manifest.py:1311-1396 | a whole run whose only failing operation is the closing: both targets lie at their destinations, verified, and the caller sees a failure |
| QuarantineFaults.RolledBackInReverse | scripts/quarantine_manifest.py:1226 | rollback intents are recorded in the reverse order of the moves, whatever fails |
| QuarantineFaults.VerifiedInJournal | scripts/quarantine_manifest.py:1262-1269 | a target has a verified record exactly when its own five operations got that far |
| QuarantineFaults.RollbackStops | scripts/quarantine_manifest.py:1227-1269 | how far a rollback gets fixes its effects and its records |
| QuarantineState.EveryPrefixIsSafe | scripts/quarantine_manifest.py:1325-1416 | every state of a history is safe, the first is the tree as found, and each other one follows by one record, one creation or one rename to a free path |
| QuarantineState.EveryPathAccountedFor | scripts/quarantine_manifest.py:1325-1366 | the whole tree in every state: what was there less the placed sources, what the run made, and each placed target at its own destination |
| QuarantineState.JournalReadingIsSound | scripts/quarantine_manifest.py:1336-1366 | whoever reads only the journal concludes correctly where a target lies |
| QuarantineState.DisagreementIsBounded | scripts/quarantine_manifest.py:1242-1279 | in every safe state disk and journal differ on at most the step in progress and one target per rollback error |
| QuarantineState.MisreadExactly | scripts/quarantine_manifest.py:1336-1366 | a target is misread exactly when it lies at its destination without a completion record, or is back with one that no verified rollback takes back |
| QuarantineState.NeverMoreThanErrors | scripts/quarantine_manifest.py:1242-1281 | the bound holds at every moment of a run, counting the errors it ends with |
| QuarantineState.RenameKeepsTree | scripts/quarantine_manifest.py:1121-1170 | renaming a file to a free path keeps a file tree a tree |
| QuarantineState.NothingBelow | scripts/quarantine_manifest.py:1301-1302 | a root that does not exist has nothing below it, so a run can overwrite nothing there |
| QuarantineSteps.AnnounceIsSafe | scripts/quarantine_manifest.py:1336-1346 | recording an intent keeps every state safe |
| QuarantineSteps.PlaceConserves | scripts/quarantine_manifest.py:1347-1348 | the rename moves one target's contents and disturbs no other path or target |
| QuarantineSteps.PlaceIsSafe | scripts/quarantine_manifest.py:1347-1348 | a rename after its intent keeps every state safe |
| QuarantineSteps.SourceIsOriginal | scripts/quarantine_manifest.py:551-569 | a regular file found below an approved root is the one that was there before the run |
| QuarantineSteps.ConfirmIsSafe | scripts/quarantine_manifest.py:1352-1361 | recording completion of a placed target keeps every state safe |
| QuarantineSteps.AbandonIsSafe | scripts/quarantine_manifest.py:1397-1407 | an announced move that never happened leaves disk and journal in agreement |
| QuarantineSteps.UndoAnnounceIsSafe | scripts/quarantine_manifest.py:1242-1249 | recording a rollback intent keeps every state safe |
| QuarantineSteps.RestoreConserves | scripts/quarantine_manifest.py:1250 | renaming back restores one target's original and disturbs no other path or target |
| QuarantineSteps.SourceParentSurvives | scripts/quarantine_manifest.py:1250-1253 | the directory a target came from is still there when it goes back |
| QuarantineSteps.RestoreIsSafe | scripts/quarantine_manifest.py:1250 | a placed target can always go back, and going back keeps every state safe |
| QuarantineSteps.UndoConfirmIsSafe | scripts/quarantine_manifest.py:1262-1269 | recording a verified rollback keeps every state safe |
| QuarantineSteps.GiveUpIsSafe | scripts/quarantine_manifest.py:1270-1279 | a failed rollback keeps every state safe, at the price of one possible disagreement |
| QuarantineSteps.CreateConserves | scripts/quarantine_manifest.py:1051-1107 | making directories and audit files loses, moves and overwrites nothing |
| QuarantineSteps.CreateIsSafe | scripts/quarantine_manifest.py:1051-1107 | making a new directory or audit file keeps every state safe |
| QuarantineSteps.WrittenIsKept | scripts/quarantine_manifest.py:1096-1107 | an audit file stays as it was written at every later moment |
| QuarantineLayout.DestinationIsFree | scripts/quarantine_manifest.py:1332-1335 | of a feasible plan, the next destination is free whatever the run has built |
| QuarantineLayout.FeasibleExactlyWhen | scripts/quarantine_manifest.py:422-462 | whether a plan is feasible, said of the paths its manifest spells |
| QuarantineLayout.WayIsDirectory | scripts/quarantine_manifest.py:1085-1093 | of a feasible plan, what stands on the way to a destination is a directory |
| QuarantineLayout.AuditIsFree | scripts/quarantine_manifest.py:1304-1311 | of a feasible plan, no destination or directory takes an audit file's place |
| QuarantineLayout.PlacingStaysBuilt | scripts/quarantine_manifest.py:1347-1348 | a move leaves everything the run built standing |
| QuarantineLayout.FilledIsFeasible | scripts/quarantine_manifest.py:1373-1395 | a tree with every target and audit file in place is possible only for a feasible plan |
| QuarantinePlan.LoadPlan | scripts/quarantine_manifest.py:327-540 | accepts exactly the documents that meet the rules, field by field, keeps every entry in order, and hands the engine a valid plan |
| QuarantinePlan.LoadTargets | scripts/quarantine_manifest.py:422-462 | accepts exactly sound, pairwise distinct targets, and totals their bytes |
| QuarantinePlan.LoadPreserved | scripts/quarantine_manifest.py:498-525 | accepts exactly proved, pairwise distinct entries that are not targets |
| QuarantinePlan.NextIsDistinct | scripts/quarantine_manifest.py:450-457 | membership in the seen sets decides whether an entry repeats an earlier one |
| QuarantinePlan.DestinationExactly | scripts/quarantine_manifest.py:214-224 | exactly the relative spellings without backslash, colon, NUL and ".." are accepted, with the names they spell |
| QuarantinePlan.AcceptableExactly | scripts/quarantine_manifest.py:327-540 | the rules for roots, targets, entries to preserve and totals, field by field |
| QuarantinePlan.AcceptedDestinationStaysBelow | scripts/quarantine_manifest.py:214-232 | an accepted destination has plain components only, and its spelling splits back into them |
| QuarantinePlan.LoadedPlanIsValid | scripts/quarantine_manifest.py:327-540 | an acceptable document gives distinct sources and destinations, approved kinds and a root apart from the live data |
| QuarantinePlan.FeasibleExactly | scripts/quarantine_manifest.py:422-462 | when the destinations of an accepted document can be filled: the conflicts that loading does not look for |
| QuarantineSamples.NestedDestinations | scripts/quarantine_manifest.py:422-462 | a manifest with destinations "a" and "a/b" loads, and no run of its plan can complete |
| QuarantineSamples.AuditDestination | scripts/quarantine_manifest.py:422-462 | a manifest with destination "audit/completion.json" loads, and no run of its plan can complete |
| QuarantineSamples.RootDestination | scripts/quarantine_manifest.py:214-232 | a manifest with destination "." loads, and no run of its plan can complete |
| QuarantineSamples.SampleIsAcceptable | scripts/quarantine_manifest.py:409-462 | well-spelled destinations that differ are all that loading asks of them |
| ArchiveLinks.ResolveArchiveLink | scripts/package_standalone_bundle.py:317-361 | the loop computes the resolver function that the following rows are about |
| ArchiveLinks.ReturnsExactlyNormalForms | scripts/package_standalone_bundle.py:335-361 | it returns exactly when fewer substitutions than the bound, each staying below the root, reach a path without a link prefix; that path is the result |
| ArchiveLinks.ResolvesExactlyWithinEight | scripts/package_standalone_bundle.py:335-361 | a target resolves exactly when fewer than eight substitutions from its normalised path on, each below the root, reach a path without a link prefix |
| ArchiveLinks.RewritesIsShortest | scripts/package_standalone_bundle.py:342-358 | the inner loop finds the one substitution of a shortest link prefix |
| ArchiveLinks.CyclesAreRejected | scripts/package_standalone_bundle.py:63-66 | no path on a substitution cycle resolves, whatever the bound |
| ArchiveLinks.CollapseIsWalk | scripts/package_standalone_bundle.py:349-357 | collapsing ".." against a link-free directory is what walking does |
| ArchiveLinks.FirstLinkExpands | scripts/package_standalone_bundle.py:344-358 | expanding the first link met on a walk is substituting the shortest link prefix |
| ArchiveLinks.RewritingIsWalking | scripts/package_standalone_bundle.py:341-361 | from a path below the root, when every link's target collapses to what it walks to or leads nowhere either way, rewriting and walking accept the same inputs and end at the same path |
| ArchiveLinks.LeadingLinksCollapse | scripts/package_standalone_bundle.py:349-357 | leading ".." make every link's collapse sound |
| ArchiveLinks.ResolverIsPathnameResolution | scripts/package_standalone_bundle.py:317-361 | for targets whose ".." lead, the resolver returns a path exactly when pathname resolution with at most seven link expansions, never leaving the root, reaches it |
| ArchiveClimbs.AgreesExactly | scripts/package_standalone_bundle.py:317-361 | for every member and every relative target: resolver and pathname resolution agree in all archives with that member whose other links are passable, exactly when the target does not climb once it has left its directory's own path and does not leave the root, or when the resolver must reject it; passable are the targets that meet this condition themselves and, if they collapse to nothing at all, never leave their directory's path |
| ArchiveClimbs.LeadingDotsArePassable | scripts/package_standalone_bundle.py:349-357 | every relative target whose ".." lead is passable |
| ArchiveClimbs.LeadsNowhere | scripts/package_standalone_bundle.py:341-361 | a passable target that leaves the root, or climbs after meeting its own member, is reached by neither, whatever follows it |
| ArchiveClimbs.LinkOnTheWayDisagrees | scripts/package_standalone_bundle.py:341-358 | an archive of three links in which a target that meets the condition leads through one that is not passable, and the two end at different paths |
| ArchiveClimbs.DetourDisagrees | scripts/package_standalone_bundle.py:340-358 | where a target climbs over a name of its own, one more link there makes resolution succeed and the resolver answer otherwise |
| ArchiveClimbs.MemberAloneDisagrees | scripts/package_standalone_bundle.py:335-361 | where a target leaves the root, or climbs after meeting its own member, the resolver succeeds in an archive whose only link it is, and resolution does not |
| ArchiveClimbs.AgreesInTable | scripts/package_standalone_bundle.py:317-361 | in every archive with that member and otherwise passable links the two agree when the condition holds |
| ArchiveClimbs.MemberLoops | scripts/package_standalone_bundle.py:341-361 | a path through a member whose target leads through the member is never resolved |
| ArchiveClimbs.ClimbingOutOfALinkDisagrees | scripts/package_standalone_bundle.py:340 | an archive of two links in which a target climbs out of a link |
| ArchiveClimbs.LeavingTheRootDisagrees | scripts/package_standalone_bundle.py:340 | an archive of one link whose target leaves the root and comes back |
| ArchiveClimbs.WalkStaysBelow | scripts/package_standalone_bundle.py:330-332 | below a directory without links a walk with fewer climbs than its depth never leaves it |
| ArchiveClimbs.ResolvedIgnoresOrDescends | scripts/package_standalone_bundle.py:341-361 | with one link beside the member the resolver either ignores it or follows it all the way down |
| ArchiveMembers.VerifyLink | scripts/package_standalone_bundle.py:495-533 | accepts exactly the links whose target is not empty, holds no control character, starts at no root and names no drive, and resolves to a member or to a directory above one |
| ArchiveMembers.VerifyMembers | scripts/package_standalone_bundle.py:392-535 | accepts exactly the archives with one of the two roots and canonical names, none of which goes on after a link's name, whose links all lead to a member or above one |
| ArchiveMembers.PresentExactly | scripts/package_standalone_bundle.py:529-533 | among accepted names, a path is present exactly when it leads to a member or above one |
| ArchiveMembers.UnderLinkExactly | scripts/package_standalone_bundle.py:402-409 | a member lies below a link exactly when its name goes on after the link's name |
| ArchiveMembers.UnsafeTargetExactly | scripts/package_standalone_bundle.py:501-511 | which targets are safe, character by character |
| ArchiveMembers.VerifiedLinksLeadToMembers | scripts/package_standalone_bundle.py:402-409 | in an accepted archive whose links all lead with their ".." or are passable, every link, followed component by component, ends where the verifier resolved it to, at a member or a directory of members |
| ArchiveExtraction.LinksCanBeFollowed | scripts/package_standalone_bundle.py:402-409 | in a tree that holds an accepted archive whose link targets all lead with their "..", every link can be looked up through directories that exist, and is found where the verifier resolved it to, at something that is no link |
| ArchiveExtraction.LookupFollowsWalk | scripts/package_standalone_bundle.py:330-332 | on a tree that holds the archive's links, all leading with their ".." like the path still to resolve, the operating system's lookup follows the walk |
| ArchiveExtraction.PresentIsThere | scripts/package_standalone_bundle.py:529-533 | what the verifier found present is in the tree |
| ArchiveTrees.ExtractableExactly | scripts/package_standalone_bundle.py:388-409 | some tree holds an accepted archive, each file and link in its place, exactly when no member lies below another |
| ArchiveTrees.TreeHoldsMembers | scripts/package_standalone_bundle.py:388-409 | where none does, the members and the directories above them are such a tree |
| ArchiveTrees.NestedFilesAreVerified | scripts/package_standalone_bundle.py:388-409 | the files "one-link/a" and "one-link/a/b" pass the checks on names and links, and no tree holds both |
| ArchivePaths.AcceptsExactlyCanonicalNames | scripts/package_standalone_bundle.py:106-138 | a name is accepted exactly when it is the slash-join of valid components led by the root |
| ArchivePaths.PortableComponentExactly | scripts/package_standalone_bundle.py:106-120 | the component rules, character by character, with the reserved device names |
| ArchivePaths.BasenameExactly | scripts/package_standalone_bundle.py:118 | the reserved-name test looks at what stands before the first dot, without the spaces that end it |
| ArchivePaths.Utf8LengthExactly | scripts/package_standalone_bundle.py:107-113 | how many bytes the characters of a component take |
| ArchivePaths.AcceptedNamesAreCanonical | scripts/package_standalone_bundle.py:123-138 | splitting an accepted name and joining it again is the identity |
| ArchivePaths.CanonicalNamesAreAccepted | scripts/package_standalone_bundle.py:123-138 | joining valid components gives an accepted name that splits back into them |
| ArchivePaths.DistinctNamesHaveDistinctComponents | scripts/package_standalone_bundle.py:129-136 | no two accepted names extract to the same components |
| BundleManifest.WriteManifest | scripts/package_standalone_bundle.py:593-700 | the header and, for each entry, a line of its five fields |
| BundleManifest.ReadManifest | scripts/package_standalone_bundle.py:432-452 | accepts exactly the header and acceptable rows of different names, and gives each name its row |
| BundleManifest.ReadRowExactly | scripts/package_standalone_bundle.py:437-452 | a row is accepted, and means this entry, exactly when it is these five fields, each spelled by the rules |
| BundleManifest.ReadRowsMean | scripts/package_standalone_bundle.py:435-452 | the rows give each name its own row and nothing else |
| BundleManifest.RoundTripExactly | scripts/package_standalone_bundle.py:432-452 | reading what was written gives exactly the rows written if and only if no name or target holds U+0085, U+2028 or U+2029 |
| BundleManifest.CleanEntriesRoundTrip | scripts/package_standalone_bundle.py:593-700 | without those characters the rows come back |
| BundleManifest.HiddenBreaksAreRejected | scripts/package_standalone_bundle.py:436-439 | with one of them some row is malformed and the whole manifest is refused |
| BundleManifest.HiddenBreaksGetPackaged | scripts/package_standalone_bundle.py:85-86 | such a target passes the packager's control check |
| BundleManifest.ReadWrittenRow | scripts/package_standalone_bundle.py:437-452 | one written row reads back as its entry |
| BundleManifest.RowsDetermineEntries | scripts/package_standalone_bundle.py:435-452 | each entry's digest, kind, size and target can be looked up under its name |
| Decimal.ParsePrint | scripts/package_standalone_bundle.py:446-449 | the printed byte count parses to itself |
| Decimal.ParseExactly | scripts/package_standalone_bundle.py:446-449 | an optional sign and at least one digit, with the value of the digits |
| Decimal.ValueInTwo | scripts/package_standalone_bundle.py:446-449 | digits are positional |
| TextLines.SplitTerminated | scripts/package_standalone_bundle.py:432 | terminated lines without breaks split into themselves |
| TextLines.FirstLine | scripts/package_standalone_bundle.py:432 | a line ends at the first line break |
| TextLines.ReturnAndNewline | scripts/package_standalone_bundle.py:432 | a return followed by a newline is one break |
| TextLines.CountTerminated | scripts/package_standalone_bundle.py:432 | a break inside a line makes more lines than were written |
| UvGraph.LockGraph | scripts/gen_sbom.py:480-511 | the worklist returns the least graph closed under root specifications, dependencies of reached packages and specifications of activated extras; it fails exactly when that closure meets an unresolved specification or a missing extra |
| UvGraph.CommonIsLeast | scripts/gen_sbom.py:480-511 | every lockfile, broken or not, has such a least graph: what all closed graphs have in common |
| UvGraph.LeastIsUnique | scripts/gen_sbom.py:480-511 | so the result does not depend on queue order or on the visit that brings an extra |
| UvGraph.ClosedExactly | scripts/gen_sbom.py:455-511 | the closure rules one by one: the root's own list, the dependencies of what is reached, and what extras that are switched on bring |
| UvGraph.ProcessItem | scripts/gen_sbom.py:485-511 | one queue item keeps every rule satisfied or queued, adds only what is forced, and shrinks what is open |
| UvGraph.ProcessSpec | scripts/gen_sbom.py:487-511 | so does one specification, including extras that arrive on a later visit |
| UvGraph.ExtraSpecs | scripts/gen_sbom.py:506-510 | collects exactly the new extras' specifications, and fails exactly on an undeclared extra |
| UvGraph.StepCovers | scripts/gen_sbom.py:488-511 | after a step no rule instance is forgotten |
| UvGraph.StepForced | scripts/gen_sbom.py:488-511 | after a step nothing was added that some closed graph lacks |
| UvGraph.RecordingClosesSomething | scripts/gen_sbom.py:491-501 | queueing work again always closes a package or an extra, so the loop ends |
| UvGraph.EmptyWorkIsLeast | scripts/gen_sbom.py:484 | an empty queue means that the least graph is reached |
| UvGraph.ResolvesExactlyUniqueMatches | scripts/gen_sbom.py:416-436 | a specification resolves to a package exactly when that has its name, and its version and source where given, and no other package does |
| UvGraph.ResolvedIdentityIsUnique | scripts/gen_sbom.py:432-436 | a resolved package is the only one with its name, version and source |
| CargoGraph.ParsePackages | scripts/gen_sbom.py:159-205 | all packages in reference order, refused exactly when there are none, one is malformed, its checksum rules included, or an identity repeats |
| CargoGraph.TargetsStayInTheLock | scripts/gen_sbom.py:208-234 | a resolved entry leads to the one package of the same lock with its name, and its version and source where given |
| CargoGraph.EntriesParse | scripts/gen_sbom.py:209-221 | "name", "name version", "name (source)" and "name version (source)" parse into their parts |
| CargoGraph.ParsesUnlessBroken | scripts/gen_sbom.py:209-220 | only blank entries, and those that open a source and do not close it, are refused |
| CargoGraph.EntriesResolve | scripts/gen_sbom.py:208-234 | each of the four spellings resolves to a package exactly when that is the only one with the parts given |
| CargoGraph.ResolvesExactlyOnlyMatches | scripts/gen_sbom.py:222-234 | the same of every entry that parses |
| CargoGraph.FirstWord | scripts/gen_sbom.py:209 | words are what stands between spaces |
| CargoGraph.CargoInventory | scripts/gen_sbom.py:319-352 | one record per package with its targets sorted, every edge inside the lock; it fails exactly when an entry does not resolve |
| CargoGraph.InventoryIsClosed | scripts/gen_sbom.py:345-352 | records of resolved targets never point outside the lock |
| CargoGraph.MergeDependencies | scripts/gen_sbom.py:812-830 | the canonical records of exactly the union of both edge relations; it fails exactly on a missing name |
| CargoGraph.CanonicalIsUnique | scripts/gen_sbom.py:827-830 | canonical records of the same graph are the same list, so order and duplicates of the input do not matter |
| CargoGraph.MergingKeepsClosed | scripts/gen_sbom.py:812-852 | merging closed graphs loses no edge and stays closed in the joint components |
| CargoGraph.ValidateReferences | scripts/gen_sbom.py:844-852 | accepts exactly the graphs that are closed in the known components |
| CargoGraph.MergeComponents | scripts/gen_sbom.py:797-809 | the union in reference order; it fails exactly when a reference is missing or repeats |
| CargoGraph.OrderedComponentsAreUnique | scripts/gen_sbom.py:809 | so the result depends on the component set alone |
| StringOrder.Sorted | scripts/gen_sbom.py:828-829 | the strictly increasing list of the set |
| StringOrder.SortedIsUnique | scripts/gen_sbom.py:828-829 | a set has one sorted list |
| StringOrder.LessIsLexicographic | scripts/gen_sbom.py:809 | the order compares the first characters that differ |
| Routing.CheapestPath | scripts/phase_e_live_demo.py:149-180 | a genuine walk of least cost over all walks when one exists, and the lone destination otherwise |
| Routing.Network.CostIsTrapezoid | scripts/phase_e_live_demo.py:149-167 | a walk costs the sum of its nodes' numbers, its two ends counting half |
| Routing.Search | scripts/phase_e_live_demo.py:149-171 | the predecessor links spell walks back to the source, and the destination's is cheapest despite the early exit |
| Routing.RebuildPath | scripts/phase_e_live_demo.py:172-179 | following the links ends, and gives the walk they spell |
| Routing.Nearest | scripts/phase_e_live_demo.py:155-160 | an unvisited node of least finite distance, or none |
| Routing.RelaxNeighbours | scripts/phase_e_live_demo.py:164-171 | labels stay true, never get worse, and no unvisited neighbour is left unrelaxed |
| Routing.NearestIsFinal | scripts/phase_e_live_demo.py:155-163 | no walk to the nearest unvisited node is cheaper than its label |
| Routing.CrossingCosts | scripts/phase_e_live_demo.py:155-163 | a walk that leaves the visited nodes costs at least the label where it leaves |
| Routing.VisitKeepsSettled | scripts/phase_e_live_demo.py:163-171 | visited nodes keep final distances and relaxed edges |
| Routing.StoppedIsOptimal | scripts/phase_e_live_demo.py:161-162 | either reason to stop makes the destination's label final, or proves it unreachable |
| Tracer.TraceDependencies | dump_project_sources.py:618-656 | precisely the files outside the focus set whose shortest import chain from it has at most `max_depth` imports |
| Tracer.Expand | dump_project_sources.py:645-654 | expanding the head keeps the queue in depth order and every recorded depth the length of an import chain |
| Tracer.DiscoveryIsOrdered | dump_project_sources.py:650-654 | first in, first out keeps queued depths sorted and at most one level apart |
| Tracer.TrailsWereFollowed | dump_project_sources.py:631-654 | no import chain is shorter than the depth at which its file was found |
| Tracer.VisitedIsExact | dump_project_sources.py:631-656 | once the queue is empty, visited means within the depth |
| PartRolling.Config.RecordsLocateBlocks | dump_project_sources.py:1123-1131 | each recorded byte offset slices out exactly its block, and each line offset counts the newlines before it |
| PartRolling.NewlinesAreTens | dump_project_sources.py:1123-1131 | lines are counted by the newline bytes |
| PartRolling.Config.PartIsHeaderAndBlocks | dump_project_sources.py:892-943 | a part less its header is its blocks joined |
| PartRolling.Config.PlacingConserves | dump_project_sources.py:1116-1131 | the parts' blocks, in order, are the blocks emitted |
| PartRolling.Config.PlacingRollsWell | dump_project_sources.py:1116-1121 | every rolled part holds a block, and a part with two or more is within the limit |
| PartRolling.Config.PlacingRollsOnlyWhenFull | dump_project_sources.py:1116-1121 | a new part is started only for a block that does not fit the part before |
| PartRolling.Config.OnlyOneLayout | dump_project_sources.py:1116-1121 | the rules for starting parts leave only one layout of the blocks |
| PartRolling.Config.FirstPartIsEmpty | dump_project_sources.py:1116-1121 | when the first part is left with its header only |
| PartRolling.DumpWriter.constructor | dump_project_sources.py:945-946 | the first part holds its header and nothing else |
| PartRolling.DumpWriter.RollPart | dump_project_sources.py:931-943 | a new part with just its header, the others as they were |
| PartRolling.DumpWriter.AppendBlock | dump_project_sources.py:1028-1039 | the block goes to the current part and its record to that part's list |
| PartRolling.DumpWriter.WriteBlock | dump_project_sources.py:1116-1131 | the counters decide as the written bytes would |
| PartRolling.DumpAll | dump_project_sources.py:948-1131 | every part's file is its header and its blocks, every record locates its block, the parts' blocks are the blocks in order, and a part ends exactly when the next block would take it over the limit |
| LineNumbers.NumberingIsReversible | dump_project_sources.py:360-366 | cutting the fixed-width prefix recovers the text, final newline included, exactly when newlines are its only breaks |
| LineNumbers.AddLineNumbersExactly | dump_project_sources.py:360-366 | every line becomes its number, set to the right of the column, ": " and the line |
| LineNumbers.WidthExactly | dump_project_sources.py:362 | the column is the narrowest, of at least four, that holds the number of lines |
| LineNumbers.PrefixWidth | dump_project_sources.py:362 | no line number is wider than the computed column |
| LineNumbers.CuttingLeavesLines | dump_project_sources.py:360-366 | for any text, cutting leaves the lines joined by newlines |
| LineNumbers.LinesOf | dump_project_sources.py:361-365 | a text with newlines only is its lines joined, with one more at the end if it ends in one |
| SymlinkTree.LookupInTwo | scripts/build_binary.py:411-412 | resolving a path is resolving its front and going on from there |
| SymlinkTree.ReadsOnce | scripts/build_binary.py:416 | a path reads at most one contents |
| SymlinkTree.RealPathFollowsLookup | scripts/build_binary.py:411 | wherever the system gets through, the non-strict resolution ends at the same place |
| SymlinkTree.RealPathExactly | scripts/build_binary.py:411 | the non-strict resolution gives a path exactly when following the links ends, and ends there too |
| SymlinkTree.LinkLeads | scripts/build_binary.py:411 | an absolute link leads on from the top, a relative one from its own directory |
| Materialize.MaterializeBundleSymlinks | scripts/build_binary.py:399-421 | success leaves no link and counts those there were; only links change, each into contents of a bundle file; every path reads as before exactly when every link could be read; a bundle whose links all lead to its own files always succeeds, and any bundle exactly when each link passes its check in the tree that the replacements before it leave |
| Materialize.LinksTurn | scripts/build_binary.py:408-418 | a link becomes the file where following it ends if that is a regular file inside the bundle, and otherwise ends the pass |
| Materialize.FileEndsThePath | scripts/build_binary.py:411-418 | a link that leads to a file can only end a path |
| Materialize.ReplacingKeepsView | scripts/build_binary.py:416-418 | replacing one readable link changes what no path reads, chains through it included |
| Materialize.ReplacingKeepsSelfContained | scripts/build_binary.py:416-418 | the links that remain still lead into the bundle |
| Materialize.ReadableLink | scripts/build_binary.py:411-412 | the check finds the very file that a readable link leads to |
| Materialize.IterationProgresses | scripts/build_binary.py:408-420 | one iteration keeps what the loop promises about view, contents and remaining links |
| Materialize.NotSelfContained | scripts/build_binary.py:412-415 | the loop fails only on a bundle with a link that does not lead to a file inside it |
| Materialize.CopiesWereReadable | scripts/build_binary.py:412-418 | if the view was kept, every replaced link could be read |
| Materialize.UnreadableLinkIsAccepted | scripts/build_binary.py:411-415 | a link that passes the check and cannot be opened |
| Materialize.MaterializeOddBundle | scripts/build_binary.py:399-421 | the pass over the bundle with that link succeeds, and the path that could not be opened can be read |
| PathSpelling.SuffixIsNearest | scripts/verify_browser_argon2_wasm.py:52-53 | the lazy match ends at the nearest ".rs" after printable bytes only |
| PathSpelling.RunExactly | scripts/verify_browser_argon2_wasm.py:53 | a run is "/cargo", bytes from space to tilde, and the first ".rs" after it |
| PathSpelling.CanonicalFromFirstRun | scripts/verify_browser_argon2_wasm.py:52-56 | up to the first run nothing changes, in it backslashes become slashes, and so on after it |
| PathSpelling.CanonicalAt | scripts/verify_browser_argon2_wasm.py:52-56 | length and bytes outside runs are kept; inside, backslashes become slashes |
| PathSpelling.SameSpellingSameRuns | scripts/verify_browser_argon2_wasm.py:44-49 | blobs that differ in slash direction inside runs have the same runs, even where turning slashes spells a new "/cargo" |
| PathSpelling.CanonicalIsSameSpelling | scripts/verify_browser_argon2_wasm.py:52-56 | the substitution changes only slash direction inside runs |
| PathSpelling.CanonicalIsIdempotent | scripts/verify_browser_argon2_wasm.py:52-56 | doing it twice changes nothing more |
| PathSpelling.CanonicalDecidesSpelling | scripts/verify_browser_argon2_wasm.py:41-57 | canonical bytes are equal exactly for blobs of the same spelling |
| BenchGate.CollectSamples | scripts/bench_gate.py:46-59 | every observation of every metric is kept, in order |
| BenchGate.ObservationsExactly | scripts/bench_gate.py:46-59 | those observations are the values that the runs give the metric |
| BenchGate.Gate | scripts/bench_gate.py:210-340 | passes exactly when the comparison is allowed, the baseline is not empty and no metric is missing or regressed; names exactly the failing metrics |
| BenchGate.MetricPassesExactly | scripts/bench_gate.py:267-295 | some head observation is within the limit of the best base observation or reaches any base observation at all, or no base observation is positive |
| BenchGate.Limits.LimitForExactly | scripts/bench_gate.py:253-265 | an override for the very name, then the longest matching pattern, then the global limit |
| BenchGate.RegressionSeparates | scripts/bench_gate.py:282-295 | a regression means that every head observation is below every base observation |
| BenchGate.PassingIsMonotone | scripts/bench_gate.py:253-320 | better head results and a higher global limit never turn a pass into a failure |
| BenchGate.AddingARunImproves | scripts/bench_gate.py:46-59 | adding a head run counts as better |
| BenchGate.RaisingImproves | scripts/bench_gate.py:46-59 | raising one head observation counts as better |
| BenchGate.SelfComparisonPasses | scripts/bench_gate.py:267-320 | positive results pass against themselves under limits that are not negative |

## Left out

Quarantine (`scripts/quarantine_manifest.py`):

- QuarantineRun.Run.AssertExistingPathChain: has no symbolic links or reparse points to refuse, because the modelled live tree has none; stat identities and devices are left out too, and the same-volume check is an operation that may fail.
- Other processes changing files during a run, and interrupts that kill the process.
- QuarantineRun.Run.Append: takes a record whose write fails as lost or kept whole, for good. The journal is a buffered file: after a failing flush a part of the line may be written, and the rest, or a record taken as lost, may still be written by a later append's flush or by closing. `AgreesAfterRollback`, `MisreadAfterRollback` and the rows on what the journal says rest on that not happening.
- The platform's path normalisation: paths are compared as they are, as on POSIX.
- QuarantinePlan.LoadPlan: starts from the parsed manifest; type checks, the checks of the state database's path and of the root's ancestors, and the canonical text behind the target-set digest are left out or fields of `Document`.
- QuarantineRun.Run.ExecuteMoves: does not let the journal tell a completed run from a broken-off one whose every later record was lost; nothing in it could.
- Casefolding and the digest function are parameters, with nothing assumed about them.
- Runtime shutdown and the reference queries; the move engine receives the counts.

Release archive (`scripts/package_standalone_bundle.py`):

- ZIP and digest work, and byte and member budgets.
- ArchiveMembers.VerifyMembers: leaves out collision keys, the executable entry, directory members, and the agreement of member set and manifest.
- BundleManifest.ReadManifest: reads byte counts of ASCII digits with an optional sign; `int` also takes underscores, surrounding whitespace and other decimal digits, so manifests not written by the packager can be accepted more widely.
- ArchiveExtraction.LinksCanBeFollowed: reads targets with either slash as a separator, as the verifier does; on POSIX a target with a backslash would be one name.
- `str.upper` is a parameter. `posixpath.normpath` and PurePosixPath are modelled on components.
- ArchiveLinks.ResolverIsPathnameResolution: is stated for targets with leading ".." only; ArchiveClimbs.AgreesExactly covers every target of the member, among other links that are passable.

SBOM (`scripts/gen_sbom.py`):

- Reading TOML and JSON, type checks, licences, workspace members, and normalising Python names; `purl` is a parameter.
- Reconciling the uv graph with the components of the base document.

Routing (`scripts/phase_e_live_demo.py`):

- Floating-point rounding: costs are reals, `math.inf` is its own case.
- The field solver and the score; `nu` is any list of non-negative numbers.
- `phase_d_path`, a breadth-first search that needs only the argument of Tracer, and the loss simulation.

Source dump (`dump_project_sources.py`):

- Choosing, reading, decoding and redacting files, the markers and metadata inside a block, and resolving an import to a file.
- Headers are any non-empty texts.

Symlinks (`scripts/build_binary.py`):

- The operating system's limit on link expansions: a lookup may expand any finite number.
- Materialize.MaterializeBundleSymlinks: rejects a link whose resolution meets a loop; `Path.resolve` raises there or, in newer Python versions, normalises what follows the loop, so that such a link can pass the check although it cannot be opened.
- Copying file times and modes, and hard failures of reading or writing.

Path spelling and benchmark gate:

- The hash over the canonical bytes.
- Comparing hosts (a boolean here), reading result files, and parsing options; ratios are exact.
