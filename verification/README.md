# Verification model of the release, landing and worktree scripts

This project models the decision logic of the maintenance scripts in Dafny and proves what they are for.

- **Release** (`ReleaseBump`, `FloorGraph`, `StackPins`, `ReleaseTags`, `TagPrune`, `Versions`). A drifted package is
  bumped together with everything its new floor would rewrite, upstream first; the pins block of the anchor is
  regenerated; tags that outrank the current line block a release and can be pruned, mirror first.
- **Landing** (`Residual`, `Census`, `Footprint`, `Colouring`, `Measurement`, `MarkerScan`, `KillLoop`, `Processes`,
  `FailureIds`, `Gate`, `LandingGate`). Residual branches are grouped by shared files, candidates are coloured into
  classes that can land together, a bounded test run leaves authenticated evidence, and a gate compares two test logs.
- **Caches and safety checks** (`Snapshot`, `LiveState`, `ConflictLines`, `Worktree`). Two caches keyed by something
  cheaper than the content, a normaliser that must not hide edits, and the question whether deleting a worktree loses
  bytes.
- `Text` holds what the rest shares: code-point order, stable sort, listings of sets, decimals, whitespace.

Scripts that work by updating variables are methods with loops and classes with fields, each proved against a
specification function or predicate; properties over whole runs are lemmas about those specifications. The outside
world (git, ps, the clock, kill, the file system, other people) is an input, an oracle or a nondeterministic step.

## Main results

- `ReleaseBump.RunIsClean`: a coordinated bump moves floors only before their package's own bump **iff**, read off the
  manifest before the run, every floor matching the anchor is settled at the anchor's next version by the member bumps
  (`RunSettles`). The planner itself is exact: it refuses iff the floor graph has a cycle, and the order is the
  manifest-least topological one.
- `Residual.Components`: union-find with path halving computes exactly the classes of "linked by shared paths", over
  one row of each patch (`Residual.OneRowPerPatch`).
- `Footprint.CensusClasses`: two branches of one colour class are unrelated by containment and changed no equal or
  nested path under any name renames give it, or merged cleanly in both orders; and no branch waits without reason: it
  is barred by some branch of every lower class.
- `Measurement.CompleteIsBacked`: over every run of publish, begin, finish, issue, overwrite and crash steps, a side
  reported complete is backed by a returned run that executed tests on exactly these bytes; `IssuedStaysComplete` is
  the converse, over runs as well.
- `LandingGate.MergeableIsBacked`: a mergeable verdict, end to end over every run of that protocol: both logs are what
  good runs left, and every failure in the subject's is a known one of the baseline's (`Gate.MergeableMeans`). The
  report says of each id whether it is added, fixed or persistent (`FailureIds.DiffExact`).
- `Snapshot.ServedIsCurrent` and `LiveState.SameSignatureSamePaths`: an unchanged key means unchanged content;
  `Snapshot.FingerprintIsKeyIff` and `LiveState.SignatureIsKeyIff` say exactly when each is a key.
- `ConflictLines.NormalKernel` and `LabelsInvisibleIff`: the exact kernel of the conflict normaliser, and exactly when
  it forgets every label git wrote.
- `TagPrune.Clone.Prune` and `GuardedSyncIsHighest`: what every outcome of a prune and of a guarded release leaves.
- `StackPins.SyncSettles`: a synced file keeps its surroundings, reads back as the versions and is a fixed point.

Places where a promise does not hold on all inputs, each with its exact condition:

- A floor that some package carries on the anchor is rewritten by the anchor's bump, after that package's own, as in
  the manifest `a`, `b` with `b` requiring `a>=1.0.0` (`ReleaseBump.FloorOnAnchorExample`; `FloorOnAnchorIsRun` shows
  that the planner makes this run). `RunIsClean` is the condition on the manifest; where no floor matches two packages
  it is that nobody holds a floor on the anchor at anything but its next version (`RunIsCleanWhenOwned`).
- The fingerprint of `handoff_state` is a key exactly for writes stamped later than the newest row it was taken of
  (`Snapshot.FingerprintIsKeyIff`). At that row's own tick every nonempty table collides (`SharedTickCollides`).
- The mirror guard reads only the version part of the monorepo tag, so the guard function alone lets a tag shaped like
  a package's pass (`TagPrune.PackageShapedMonorepoTagSlipsPast`). The release command never gets there for ordinary
  names: its tag comes from the plan, which only suggests names starting with `v` and a digit
  (`SuggestionIsLikeVersion`), and for those every package not itself named so keeps its promise
  (`SuggestedTagKeepsPromise`); one that is so named is exposed (`PackageLikeVersionIsExposed`).
- When the end sentinel of the pins block abuts the begin sentinel, with nothing between them, a sync repeats one
  character (`StackPins.AbuttingSyncRepeats`; `SplitIsPartition` is the condition). When something other than a line
  break follows the begin sentinel, the first pin lands on the sentinel's comment line although check calls the file
  ok (`PinsAreLinesIff`; `SpaceAfterBegin` has such files).
- A status line whose id holds a dash after what could close its brackets is cut short, such as `t.py::f[x] - y]`
  (`FailureIds.DashedIdIsCutShort`; `NodeIdRoundTripIff` is the condition).
- Labels show after normalisation when content displaces a marker, such as a line `<<<<<<< quoted` above a conflict
  (`ConflictLines.QuotedOpenerShows`; `LabelsInvisibleIff` is the condition).
- A residual row with a patch id goes uncounted when an earlier row without one has a branch named like that id
  (`Residual.PatchNameTaken`; `RepresentativesExact` is the condition).
- The signature of a watched tree misses a file created in a directory at the very tick that directory is stamped with
  (`LiveState.UnseenCreate`; `SignatureIsKeyIff` is the condition).

## Model

| member | source | states |
|---|---|---|
| `Residual.ClimbEndsAtRoot` | scripts/landing_residual.py:115-121 | climbing parents from any name reaches its root and stays there, so the parent map never holds a cycle |
| `Residual.Forest.constructor` | scripts/landing_residual.py:115-115 | every name starts as its own root |
| `Residual.Forest.Find` | scripts/landing_residual.py:117-121 | returns the root; exactly every second node of the climb is re-hung on its grandparent, nothing else moves and no root changes |
| `Residual.Forest.Union` | scripts/landing_residual.py:128-128 | merges exactly the two trees named and leaves every other root alone |
| `Residual.HalvingKeepsForest` | scripts/landing_residual.py:117-121 | one halving step keeps the forest and strictly lowers the rank, which is why the climb ends |
| `Residual.Representatives` | scripts/landing_residual.py:108-114 | the loop over rows keeps the earliest non-identical row of each piece of work |
| `Residual.FirstPerKeyExact` | scripts/landing_residual.py:108-114 | one row per key, no two kept rows share a key, and the row kept is the earliest |
| `Residual.RepresentativesExact` | scripts/landing_residual.py:108-114 | told by patch ids and branches alone: kept are exactly the non-identical rows whose patch id, or whose branch where there is none, no earlier non-identical row has as its own |
| `Residual.OneRowPerPatch` | scripts/landing_residual.py:108-114 | no patch id is kept twice; every row with one is stood for by a row no later that has the same patch id, or has none and a branch of that name; a row without one is kept where nothing else bears its name |
| `Residual.PatchNameTaken` | scripts/landing_residual.py:108-114 | of two rows, a branch without a patch id that is named like the patch id of the other hides that other |
| `Residual.Absorb` | scripts/landing_residual.py:124-130 | one row joins the owner of every path it shares and claims the rest; roots are equal only where a chain of shared paths exists |
| `Residual.Link` | scripts/landing_residual.py:115-130 | after all rows, two branches have one root iff a chain of shared paths links them |
| `Residual.Group` | scripts/landing_residual.py:131-133 | the groups are exactly the rows selected by each root, none empty |
| `Residual.GroupingConserves` | scripts/landing_residual.py:131-143 | any weight summed over the groups equals its sum over the rows |
| `Residual.SortTotal` | scripts/landing_residual.py:135-135 | ordering the groups changes no total |
| `Residual.CountTouched` | scripts/landing_residual.py:136-139 | counts for each path the members that touch it, a path once per member |
| `Residual.Summarise` | scripts/landing_residual.py:136-146 | hubs are the paths of more than one member, files all paths, with the member names, insertions and conflicts of the group |
| `Residual.FilesDisjoint` | scripts/landing_residual.py:131-146 | different components have no file in common |
| `Residual.Components` | scripts/landing_residual.py:105-147 | components are the link classes of the rows that `RepresentativesExact` says are kept, larger ones first and equal ones by name, with disjoint files, none empty when the classes are those of the merges, and conserved insertions |
| `Residual.GroupTouchesSome` | scripts/landing_residual.py:162-167 | leaving out the branches classed identical leaves no component without a file |
| `FloorGraph.CycleFinder.Visit` | scripts/release_bump_drifted.py:105-115 | terminates; reports a genuine closed walk without repeats, or marks the name with everything below it finished |
| `FloorGraph.CycleFinder.FindCycle` | scripts/release_bump_drifted.py:101-118 | reports a cycle iff the floor graph has one |
| `FloorGraph.PostOrderMeansAcyclic` | scripts/release_bump_drifted.py:101-118 | if every name finished after its dependents, no closed walk exists |
| `FloorGraph.IncomingCounts` | scripts/release_bump_drifted.py:120-123 | each count is the number of floor edges from packages not placed yet |
| `FloorGraph.SomeReady` | scripts/release_bump_drifted.py:124-126 | on an acyclic graph some remaining package always has no pending upstream, so the search for it never fails |
| `FloorGraph.TopologicalOrder` | scripts/release_bump_drifted.py:120-130 | the order is a topological permutation that always takes the first ready package of the manifest |
| `FloorGraph.LeastTopological` | scripts/release_bump_drifted.py:80-86 | where another topological order first differs, it holds a package later in the manifest |
| `ReleaseBump.RewriteChangesMatching` | scripts/release_prepare.py:106-124 | a floor rewrite changes a package iff it has a matching floor at another version |
| `ReleaseBump.Graphs` | scripts/release_bump_drifted.py:87-99 | edges are the floors carried, rewrites the floors a bump would change |
| `ReleaseBump.GraphEdges` | scripts/release_bump_drifted.py:87-99 | what an edge of either graph says about two manifest entries |
| `ReleaseBump.Close` | scripts/release_bump_drifted.py:132-135 | one pass in topological order adds exactly what is reachable from the drifted names through rewrites |
| `ReleaseBump.KeepExact` | scripts/release_bump_drifted.py:136-136 | the plan lists the planned names once each, in order |
| `ReleaseBump.CascadeBumps` | scripts/release_bump_drifted.py:79-136 | raises iff the floor graph has a cycle; else the least topological order cut down to the least rewrite-closed set over the drifted names |
| `ReleaseBump.PlannedMembers` | scripts/release_bump_drifted.py:56-66 | the members to bump are the plan without the anchor |
| `ReleaseBump.VersionsAfter` | scripts/release_prepare.py:55-71 | after a run each bumped package has the major and minor part it had and a patch part one higher, every other package its version |
| `ReleaseBump.MembersOfPlan` | scripts/release_bump_drifted.py:56-66 | members are distinct and stand after every package whose floor they carry |
| `ReleaseBump.ChangedMeansPlanned` | scripts/release_bump_drifted.py:246-254 | no package outside the plan has a floor changed by the run |
| `ReleaseBump.RewriteBeforeBump` | scripts/release_bump_drifted.py:242-254 | whoever's floor a member's bump moves is bumped later in the run, or is the anchor |
| `ReleaseBump.SettledOnceBumped` | scripts/release_bump_drifted.py:242-254 | after its own bump a member's floors stay as they are until the anchor's bump |
| `ReleaseBump.UnbumpedUntouched` | scripts/release_bump_drifted.py:242-254 | a package that is not bumped is left exactly as it was |
| `ReleaseBump.RunSettles` | scripts/release_bump_drifted.py:242-254 | after the member bumps each floor holds what the initial manifest settles: the next version of the last other member it matches, or what it held |
| `ReleaseBump.RunIsClean` | scripts/release_bump_drifted.py:201-254 | the finished run moved no floor without, or after, its package's own bump iff, in the manifest before the run, every floor matching the anchor is one the member bumps leave at the anchor's next version |
| `ReleaseBump.RunIsCleanWhenOwned` | scripts/release_bump_drifted.py:201-254 | where no floor matches two packages: iff no other package holds a floor on the anchor at anything but its next version |
| `ReleaseBump.FloorOnAnchorIsRun` | scripts/release_bump_drifted.py:79-254 | for every two packages of which only the second carries a floor, on the anchor at its current version: when the second has drifted the planner does not refuse, plans exactly it before the anchor, and that run ends unclean |
| `ReleaseBump.FloorOnAnchorExample` | scripts/release_bump_drifted.py:242-254 | the smallest such manifest, `a` and `b` with `b` requiring `a>=1.0.0`; the run the planner makes for a drifted `b` is not clean |
| `ReleaseBump.Workspace.Prepare` | scripts/release_prepare.py:217-289 | bumps one package and rewrites the matching floors of all others, or changes nothing where a check before the writes refuses; where the lock update after the writes fails it reports failure with everything written |
| `ReleaseBump.Workspace.SyncPins` | scripts/stack_pins.py:183-204 | pins become the members' current versions, or nothing is written |
| `ReleaseBump.Workspace.PrepareAll` | scripts/release_bump_drifted.py:242-243 | the members are prepared in plan order; the run stops at the first member that fails, with exactly the members before it prepared, and that one too if only its lock update failed |
| `ReleaseBump.Workspace.Execute` | scripts/release_bump_drifted.py:242-254 | members, then pins, then anchor; succeeds iff every step passes and every name is known, with the pins left equal to the final member versions; a failed run stands exactly at the first failing member, at the pins or at the anchor, that step written if it failed late |
| `ReleaseBump.Workspace.BumpDrifted` | scripts/release_bump_drifted.py:201-254 | the whole command: refuses on a cycle without writing, answers nothing to bump, without writing, iff there is no cycle and no drifted name is a package, else ends in the state the plan determines, or after a failed step exactly where that step stopped it |
| `Versions.TripleOfText` | scripts/check_mcp_pin_drift.py:381-386 | a triple written as text reads back as that triple |
| `Versions.TriplePlain` | scripts/check_mcp_pin_drift.py:381-386 | what reads as a three-part version holds only digits and dots |
| `ReleaseTags.TagRoundTrip` | scripts/release_public.py:130-143 | a name reads as a given family and release iff it is that family's tag name |
| `ReleaseTags.StaleHigherTags` | scripts/release_public.py:146-211 | flags exactly the offending tags, sorted by family and version; fails iff some tag in scope has no comparable current version or an unreadable commit date that would decide it |
| `ReleaseTags.MonorepoCurrentCeiling` | scripts/release_public.py:747-768 | the highest bare release at or after the baseline, none iff there is none; an error iff the date of some bare tag cannot be read |
| `ReleaseTags.CeilingDecided` | scripts/release_public.py:747-768 | only tags at or after the baseline decide the ceiling |
| `ReleaseTags.AuditStaleTags` | scripts/release_public.py:771-804 | audits packages, retired families and the ceiling of the very tags audited, and fails where the date of a tag it needs cannot be read |
| `ReleaseTags.AuditAfterDeleting` | scripts/release_public.py:747-804 | deleting any of the offenders leaves the ceiling alone: the next audit finds exactly the offenders left |
| `TagPrune.Clone.PresentOnMirror` | scripts/prune_stale_tags.py:149-155 | every listed tag the mirror still has is reported, nothing else is; none if a read fails |
| `TagPrune.Clone.DeleteMirrorTags` | scripts/prune_stale_tags.py:153-174 | success means no listed tag is on the mirror, a failing exit that one still is, and where the first reads and every delete work it succeeds; in every outcome, a timed-out push included, only listed tags are removed |
| `TagPrune.Clone.DeleteLocalTags` | scripts/prune_stale_tags.py:177-192 | only listed tags go; success means all are gone; a timed-out delete raises part way |
| `TagPrune.Clone.ExecutePrune` | scripts/prune_stale_tags.py:195-212 | in every outcome an offender still on the mirror is still local; success clears both sides, and nothing but a failed or timed-out read or delete prevents it |
| `TagPrune.Clone.Prune` | scripts/prune_stale_tags.py:215-268 | whatever happens, offenders left on the mirror are found again by the next audit; after success it finds none |
| `TagPrune.GuardedSyncIsHighest` | scripts/release_public.py:1099-1186 | after a guarded sync a released version is its family's highest on the mirror iff the monorepo tag is not a higher tag of that family |
| `TagPrune.GuardKeepsPromise` | scripts/release_public.py:1099-1186 | with a bare monorepo tag every released family and the bare family end at the released version |
| `TagPrune.PackageShapedMonorepoTagSlipsPast` | scripts/release_public.py:1107-1109 | of the guard function alone: a monorepo tag shaped like a higher tag of a package passes it and tops that package |
| `TagPrune.SuggestionIsLikeVersion` | scripts/release.sh:130-144 | every tag the plan can suggest starts with `v` and a digit |
| `TagPrune.SuggestionIsNextPatch` | scripts/release.sh:134-144 | after a release tag of a family without a dot in its name the suggestion is the next patch of that family |
| `TagPrune.SuggestedTagKeepsPromise` | scripts/release_public.py:1099-1186 | with a suggested monorepo tag every released package whose name does not start with `v` and a digit ends highest in its family |
| `TagPrune.PackageLikeVersionIsExposed` | scripts/release.sh:134-144 | a package whose name does start so, without a dot, can be outranked by the suggested tag of its own family |
| `TagPrune.Publisher.Publish` | scripts/release_public.py:1037-1209 | a refused run exits 1, or raises where a version cannot be compared; main and tags move only after guard, export, install check and push passed, and a failed tag push lands no other tags; guarded success leaves every released version the highest of its family, for a suggested monorepo tag every one not named like a version |
| `StackPins.Find` | scripts/stack_pins.py:103-104 | the first occurrence, or none at all |
| `StackPins.SentinelsApart` | scripts/stack_pins.py:98-108 | the two sentinels cannot overlap in any text |
| `StackPins.SplitIsPartition` | scripts/stack_pins.py:98-108 | the three parts make up the text iff the sentinels do not abut |
| `StackPins.AbuttingSyncRepeats` | scripts/stack_pins.py:98-204 | in every file whose sentinels abut, a sync writes the first character of the end sentinel once more before the block |
| `StackPins.AbuttingText` | scripts/stack_pins.py:98-108 | there are such files: the two sentinels and nothing else |
| `StackPins.CurrentPins` | scripts/stack_pins.py:111-121 | the pins a file's block lists, later lines winning |
| `StackPins.PinLineReads` | scripts/stack_pins.py:118-126 | a written pin line reads back as its member and version |
| `StackPins.RenderReadsBack` | scripts/stack_pins.py:111-129 | parsing a rendered block gives exactly the versions of the members |
| `StackPins.RewriteSplits` | scripts/stack_pins.py:98-108 | a file with a new block splits into the same surroundings and that block |
| `StackPins.Pyproject.Check` | scripts/stack_pins.py:132-180 | ok iff every member is resolved and the block pins exactly the members at their versions |
| `StackPins.Pyproject.Sync` | scripts/stack_pins.py:183-204 | rewrites only the block, reports a change iff the file changed, refuses iff a version or the block is missing |
| `StackPins.SyncSettles` | scripts/stack_pins.py:98-204 | surroundings kept, block reads back as the versions, second sync is the identity |
| `StackPins.PinsAreLinesIff` | scripts/stack_pins.py:98-204 | every pin of a synced file is a line of its own iff a line break follows the begin sentinel; otherwise the first one continues the sentinel comment line |
| `StackPins.SpaceAfterBegin` | scripts/stack_pins.py:98-204 | in a file with a space and then a line break between the sentinels, the first pin of a sync is glued to the begin sentinel, whatever the versions |
| `StackPins.SyncCheckSync` | scripts/stack_pins.py:132-204 | sync, then check is ok, then sync changes nothing |
| `Colouring.BuildAdjacency` | scripts/landing_census.py:457-464 | neighbours are exactly the ends of well-formed edges between known, different branches |
| `Colouring.LeastUnused` | scripts/landing_census.py:467-470 | the search for a free colour ends at the least one unused, at most the number of neighbours |
| `Colouring.Colour` | scripts/landing_census.py:465-471 | each branch takes the least colour its already coloured neighbours leave |
| `Colouring.NoGaps` | scripts/landing_census.py:465-476 | every colour below a used one is used, and no colour exceeds the largest degree |
| `Colouring.SameColourNoEdge` | scripts/landing_census.py:465-471 | branches of one colour are not joined |
| `Colouring.ColourClasses` | scripts/landing_census.py:454-476 | a partition into sorted, gap-free classes without inner edges; the order is by falling number of neighbours, and each branch of a class meets an edge to some branch of every lower one |
| `Census.BuildOwners` | scripts/landing_census.py:607-610 | the index maps each path to exactly the branches touching it |
| `Census.FootprintPairs` | scripts/landing_census.py:604-624 | exactly the pairs of branches with an equal or nested path |
| `Census.IndexedIsBruteForce` | scripts/landing_census.py:604-624 | the pairs found through the index are those of the all-pairs comparison |
| `Census.ContainmentPairs` | scripts/landing_census.py:627-635 | exactly the ordered pairs of candidates related by containment |
| `Census.ExpandDirectoryAliases` | scripts/landing_census.py:638-656 | adds exactly the images of original paths under a directory alias, never images of images |
| `Census.AliasedPathsTouch` | scripts/landing_census.py:638-656 | two branches holding one file below the two names of a renamed directory are paired |
| `Census.Conflicts` | scripts/landing_census.py:426-451 | clean iff both landing orders merged cleanly; failed iff one is unavailable; observed conflicts are kept in either case |
| `Census.Edges` | scripts/landing_census.py:713-723 | which pairs become conflict and unknown edges |
| `Census.NoEdgeIsSafe` | scripts/landing_census.py:713-728 | candidates without an edge may land together |
| `Census.ColourCensus` | scripts/landing_census.py:659-728 | given the footprints, every candidate is coloured, any two of one class are safe together, and a candidate of a class has in every lower class one it must not land with |
| `Footprint.WithAliases` | scripts/landing_census.py:692-706 | one branch's footprint: its original paths, both names of any renamed one, and their images under a moved directory; what was added is never expanded again |
| `Footprint.BuildFootprints` | scripts/landing_census.py:688-715 | the footprint of every candidate holds exactly the names of the paths it changed: by the renames on the integration branch since its base, then by the directories any candidate moved |
| `Footprint.RenamesMeet` | scripts/landing_census.py:691-715 | two candidates that changed one file under two names meet, whichever side renamed the file or a directory above it |
| `Footprint.CensusClasses` | scripts/landing_census.py:659-728 | from the changes git reports to the classes: two candidates of one class are unrelated by containment and changed no path that is, under any of its names, equal to or nested with one the other changed, or merged cleanly in both orders; and a candidate of a class is barred by one of every lower class, contained either way or meeting without a clean merge in both orders, so candidates that are all safe together end in one class |
| `Measurement.SignedStatusMeansTestsRan` | scripts/landing_measurement.py:1596-1804 | over every run of the protocol, a verifying status that says attested, returned and a usable code comes from a run that returned with tests executed, and carries that run's token, id, code and digests |
| `Measurement.StatusSays` | scripts/landing_measurement.py:1460-1804 | what stands in the status of a bounded run, how it ended, what its log held and whether it is attested; it is signed iff the run came to an end |
| `Measurement.WriteCompletionReceipt` | scripts/landing_measurement.py:913-1007 | a signed receipt is written iff every item of evidence is present and bound and the exit code is none of 2, 3, 4, 127 and no signal; any gap downgrades it |
| `Measurement.ExitCodesDecide` | scripts/landing_measurement.py:678-682 | on that evidence the codes 0 and 1 are signed; 2, 3, 4, 127, a signal or no code never are, on any evidence |
| `Measurement.ReceiptSays` | scripts/landing_measurement.py:913-1007 | what stands in a receipt: its status is complete iff the evidence is there, an unbacked claim of completeness becomes incomplete, and only a complete one binds the id files and the scope |
| `Measurement.CheckCompleteness` | scripts/landing_measurement.py:1269-1304 | complete iff every label is supplied and passes the receipt checks, not measured iff none is supplied, else the answer names exactly the failing labels |
| `Measurement.SideCompleteIff` | scripts/landing_measurement.py:1023-1197 | a side passes the checks iff its receipt was issued as it stands, is complete with a usable code by the expected producer, and names the run of the attempt marker, the paths given and the bytes found |
| `Measurement.StepKeepsInv` | scripts/landing_measurement.py:693-1007 | every publish, begin, finish, issue and overwrite step keeps all issued tags backed, with any number of bounded runs under way on one log |
| `Measurement.RunKeepsInv` | scripts/landing_measurement.py:693-1007 | so does every run of steps |
| `Measurement.CompleteIsBacked` | scripts/landing_measurement.py:1023-1197 | a side judged complete has a returned run with tests executed, the attempt's run id and exactly these raw and scope bytes, and the ids bytes hashed at issue |
| `Measurement.IssuedStaysComplete` | scripts/landing_measurement.py:913-1197 | from an issue step that grants completion on, while every later step leaves the side's files, receipt and marker alone, the side read from the world is complete iff paths, marker and producer match |
| `MarkerScan.LinesClose` | scripts/landing_measurement.py:769-795 | fragments read in bounded pieces reassemble into the lines of the file |
| `MarkerScan.CountsIfWhole` | scripts/landing_measurement.py:781-790 | only a line read in one piece can count as a marker |
| `MarkerScan.HasSessionMarkers` | scripts/landing_measurement.py:769-795 | true iff some whole start line precedes the last whole finish line, lines longer than one read never counting |
| `KillLoop.Reaper.Signal` | scripts/landing_measurement.py:1411-1432 | one kill result: gone or killed leaves pending and is remembered, refused stays pending |
| `KillLoop.Reaper.Round` | scripts/landing_measurement.py:1434-1457 | one cleanup round signals every marked, pending and newly seen pid but itself, and keeps pending exactly those refused |
| `KillLoop.Reaper.Reap` | scripts/landing_measurement.py:1382-1457 | bounded; pending and signalled stay disjoint and cover every descendant seen; an early end leaves none pending, a late one only those the last round refused; of the calls on a pid that only snapshots name, all but the last were refused |
| `Processes.ClosedMeansAll` | scripts/landing_measurement.py:1360-1375 | a set of reachable pids closed under children is all of them, cyclic tables included |
| `Processes.Descendants` | scripts/landing_measurement.py:1352-1375 | exactly the pids other than root and self reachable from root without passing self |
| `Processes.SelectReachable` | scripts/measure_lane_host_cost.py:158-172 | the worklist selects exactly what is reachable through unblocked pids |
| `Processes.LaneProcesses` | scripts/measure_lane_host_cost.py:145-172 | refuses empty needles; else returns, in table order, the rows reachable from an unblocked match |
| `FailureIds.NormalizedHasNoMatch` | scripts/landing_gate_parsing.py:26-67 | after replacement no checkout parameter is left anywhere in the text |
| `FailureIds.NormalizeReads` | scripts/landing_gate_parsing.py:26-67 | a checkout parameter, whichever checkout it names, becomes the token, and every character that starts none stays |
| `FailureIds.NormalizeIdempotent` | scripts/landing_gate_parsing.py:65-67 | normalising twice is normalising once |
| `FailureIds.NormalizeFixesIff` | scripts/landing_gate_parsing.py:65-67 | a text is left alone iff it holds no checkout parameter |
| `FailureIds.ImageSize` | scripts/landing_gate_parsing.py:257-281 | normalisation loses no id iff it is injective on the set |
| `FailureIds.DiffPartitions` | scripts/landing_gate_parsing.py:164-281 | added, fixed and persistent split the union of both sides; collapsed counts what normalisation merged |
| `FailureIds.DiffExact` | scripts/landing_gate_parsing.py:164-281 | added are the ids some subject failure normalises to and no baseline failure does, fixed the converse, persistent those of both; where ids are compared and nothing errored, the outcome is regressed iff something is added |
| `FailureIds.ZeroRegressionIff` | scripts/landing_gate_parsing.py:164-281 | zero regression iff nothing errored, tests ran or failed, and every subject failure has a baseline failure of the same normal form |
| `FailureIds.NodeIdFromStatusRest` | scripts/landing_gate_parsing.py:294-310 | dash by dash, the first prefix that looks like a node id, else the whole |
| `FailureIds.NodeIdExact` | scripts/landing_gate_parsing.py:284-291 | what passes for a node id: parts without colons and blanks joined by double colons, with a double colon, a slash, a backslash or a `.py` ending, and perhaps a bracketed parameter |
| `FailureIds.NodeIdRoundTripIff` | scripts/landing_gate_parsing.py:284-310 | an id is recovered from its status line iff a message follows it and no earlier dash of the id itself ends a prefix that looks like a node id |
| `FailureIds.PrefixIsRead` | scripts/landing_gate_parsing.py:294-310 | a prefix that looks like a node id and ends at a dash of a longer id is what every status line of the longer id reads as |
| `FailureIds.DashedIdIsCutShort` | scripts/landing_gate_parsing.py:284-310 | every parametrised id whose parameters go on with a dash after a closing bracket is cut short there, under any message |
| `FailureIds.DashedIdExample` | scripts/landing_gate_parsing.py:284-310 | `t.py::f[x] - y]` is one: it always reads as `t.py::f[x]` |
| `Gate.IdsFromSummaryRegion` | scripts/landing_gate_parsing.py:346-370 | the loop over the summary region against its specification |
| `Gate.RegionExact` | scripts/landing_gate_parsing.py:346-370 | the ids are exactly those listed, once each; errored ones are those whose first listing is an ERROR line |
| `Gate.AnnouncedFailureCount` | scripts/landing_gate_parsing.py:329-343 | the number announced by a counts line: its last number of failed plus its last number of errors, none if it is no counts line, nought where no tests ran |
| `Gate.ListsIff` | scripts/landing_gate_parsing.py:318-370 | when a line of the summary lists an id |
| `Gate.ScanErrors` | scripts/landing_gate_parsing.py:415-471 | the first line that reports an internal error, none iff no line does, and exactly the explicit errors of the lines before the summary, once each |
| `Gate.EarlyErrorsExact` | scripts/landing_gate_parsing.py:415-471 | the explicit errors are those some line before the summary reports, without repeats |
| `Gate.FirstInternalExact` | scripts/landing_gate_parsing.py:415-471 | no internal error is found iff no line reports one, and the one found is of the first line that does |
| `Gate.ExtractFromLines` | scripts/landing_gate_parsing.py:415-471 | the extraction of a log against its specification |
| `Gate.ExtractExact` | scripts/landing_gate_parsing.py:415-471 | an extracted log ended with counts equal to its distinct listed ids, none malformed; every errored listing is reported |
| `Gate.WithIdBinding` | scripts/landing_gate.py:350-385 | the worst binding of any side decides the measurement outcome |
| `Gate.BindingExact` | scripts/landing_gate.py:289-308 | a side is bound iff its log could be extracted and the ids file names the same ids, and mismatched iff it names others |
| `Gate.ExecutedExact` | scripts/landing_gate_parsing.py:516-530 | the suite counts as executed iff its last counts line has a positive number of passed, failed, error, errors, xfailed or xpassed |
| `Gate.LauncherReasonIff` | scripts/landing_gate_parsing.py:393-403 | a log that did not finish has a launcher diagnostic iff one of its last three nonempty lines is one |
| `Gate.BothBound` | scripts/landing_gate.py:289-385 | measurement stays complete iff both sides' ids files match their logs |
| `Gate.RunGateReport` | scripts/landing_gate.py:449-504 | the gate is mergeable iff the four probes pass, both ids files match their logs, nothing errored in the subject and each of its failures is covered by the baseline; the report says of each id whether it is added, fixed or persistent, and its outcome is regressed, where all else passes, iff one is added |
| `Gate.MergeableIff` | scripts/landing_gate_policy.py:55-135 | mergeable iff the four probes pass, both logs bind, the subject has no error, and each failure is covered by the baseline |
| `Gate.MergeableMeans` | scripts/landing_gate.py:449-504 | mergeable implies that every id the subject log lists is a FAILED id the baseline lists, counts reconcile, no line before the summary reports an explicit error and none at all an internal one (whose pattern matches only visible lines), there is no ERROR line where as many failures are announced as there are status lines, and an empty list comes with executed tests |
| `Gate.TightMeansNoErrors` | scripts/landing_gate_parsing.py:346-370 | with as many distinct ids as status lines and none first listed as an error, no status line begins with ERROR |
| `LandingGate.CheckSides` | scripts/landing_measurement.py:1269-1304 | the measurement outcome of the two sides: complete iff both are given and pass the receipt checks |
| `LandingGate.RunGate` | scripts/landing_gate.py:449-504 | the whole gate on the sides read once: its report is the one determined by both texts and by that outcome, with the same exact sets and outcome |
| `LandingGate.MergeableIsBacked` | scripts/landing_gate.py:449-504 | over every run of the measurement protocol, a mergeable verdict means both logs are byte for byte what returned runs with executed tests left, under the run ids of the markers read, and all that `MergeableMeans` says of them |
| `Snapshot.FingerprintOf` | scripts/hooks/_active_task_context.py:366-397 | number of rows, sum of revisions and newest timestamp |
| `Snapshot.UnchangedFingerprintUnchangedTable` | scripts/hooks/_active_task_context.py:366-397 | over any run of writes stamped later than every row the table held, in any order and sharing ticks freely, equal fingerprints iff equal tables |
| `Snapshot.FingerprintIsKeyIff` | scripts/hooks/_active_task_context.py:366-397 | of every table: the fingerprint is a key for all runs of writes stamped from a tick on iff that tick is later than every row the table holds |
| `Snapshot.EveryWriteMovesFingerprint` | scripts/hooks/_active_task_context.py:366-397 | any single write changes the fingerprint, whatever the clock |
| `Snapshot.SharedTickCollides` | scripts/hooks/_active_task_context.py:366-397 | in every table that holds a row, a delete and an insert at the tick of its newest row cancel in the fingerprint |
| `Snapshot.RenderInjective` | scripts/hooks/_active_task_context.py:366-397 | the rendered fingerprint determines its three parts |
| `Snapshot.FreshEnough` | scripts/hooks/_active_task_context.py:444-544 | a stamped snapshot is accepted iff the present fingerprint is its own and its age is within the bound; a legacy one iff its file is readable, there is an authority file and none of them is newer |
| `Snapshot.ScanAmbiguous` | scripts/hooks/_active_task_context.py:277-363 | the scan of an ambiguous workspace against its specification |
| `Snapshot.ScanAnswerIff` | scripts/hooks/_active_task_context.py:277-363 | when an ambiguous workspace is answered, and with which entry |
| `Snapshot.ScanAnswersOwnLiveTask` | scripts/hooks/_active_task_context.py:277-363 | whatever is answered is a live task of this worktree that agrees with the pin |
| `Snapshot.AnswerRepeatsLiveEntry` | scripts/hooks/_active_task_context.py:231-363 | nothing in an answer is invented: it repeats the nonempty fields of one live entry of the payload, or says there is no task because the payload does |
| `Snapshot.TryLoad` | scripts/hooks/_active_task_context.py:547-618 | answers only from a snapshot that is fresh enough |
| `Snapshot.RunKeepsInv` | scripts/hooks/_active_task_context.py:366-544 | the stored snapshot always descends from an earlier table |
| `Snapshot.ServedIsCurrent` | scripts/hooks/_active_task_context.py:479-618 | whenever the hook reads the snapshot file and, any number of steps later, the fingerprint, an accepted stamped snapshot answers as a projection of the rows stored at the second reading would, provided commits between are stamped later than the rows published at the first |
| `LiveState.RunKeepsOld` | wb_live_state_guard.py:67-91 | over any run of creates, deletes, writes, mkdirs, rmdirs and renames stamped later than a time, in any order and sharing ticks, a directory that looks no younger than it was there all along with the same entries |
| `LiveState.SameSignatureSamePaths` | wb_live_state_guard.py:67-126 | an unchanged signature means the same files now, then and at every point between, where changes are stamped later than the times the signature records |
| `LiveState.SignatureIsKeyIff` | wb_live_state_guard.py:67-126 | of every tree: the signature is a key for all runs stamped later than a time iff no directory is stamped later than it |
| `LiveState.UnseenCreate` | wb_live_state_guard.py:67-126 | in every tree with a later directory, a file created there at that very tick leaves the signature as it was |
| `LiveState.WalkStep` | wb_live_state_guard.py:70-91 | visiting a directory moves exactly it from pending to visited, so every directory is visited once |
| `LiveState.DirSignature` | wb_live_state_guard.py:67-91 | every directory of the tree with its mtime |
| `LiveState.EnumerateWatchedFiles` | wb_live_state_guard.py:94-113 | exactly the files of the tree |
| `LiveState.WatchedFileCache.CachedWatchedFiles` | wb_live_state_guard.py:116-126 | the answer lists exactly the files present when asked, hit or miss, even if the tree moves between signature and listing |
| `LiveState.DiffLiveState` | wb_live_state_guard.py:176-187 | exactly the differences between two snapshots, none iff they are equal |
| `LiveState.Session.Teardown` | wb_live_state_guard.py:289-310 | a change is blamed on the test just finished, and the baseline advances in every case |
| `LiveState.Session.RunTests` | wb_live_state_guard.py:289-310 | a session's leaks and warnings are those of its tests in turn |
| `LiveState.QuietSession` | wb_live_state_guard.py:289-310 | no leak and no warning iff every unmarked test left the live state as it found it |
| `ConflictLines.NormalizeConflictLines` | scripts/worktree_reachability.py:90-123 | the walk with its state against its specification |
| `ConflictLines.NormalIdempotent` | scripts/worktree_reachability.py:90-123 | normalising twice is normalising once |
| `ConflictLines.NormalKernel` | scripts/worktree_reachability.py:90-123 | two texts normalise alike iff they have the same length and differ only in labels of structural markers of the same kind |
| `ConflictLines.EditsShow` | scripts/worktree_reachability.py:82-123 | a change to any line that is not such a marker is never hidden |
| `ConflictLines.LabelsForgottenIff` | scripts/worktree_reachability.py:76-123 | of every document: the normal form is the file written with bare markers, whatever labels git wrote, iff each marker git wrote is structural where it stands and no content line is a labelled marker where it would be |
| `ConflictLines.UnambiguousForgets` | scripts/worktree_reachability.py:76-123 | content that nowhere reads as a marker is enough for both conditions |
| `ConflictLines.LabelsInvisibleIff` | scripts/worktree_reachability.py:76-123 | of every document: no relabelling of its markers shows after normalisation iff each marker git wrote is structural where it stands |
| `ConflictLines.QuotedOpenerShows` | scripts/worktree_reachability.py:90-123 | in every document with a line that reads as an opener above a conflict, the labels of the real opener show |
| `ConflictLines.QuotedOpenerExample` | scripts/worktree_reachability.py:90-123 | `<<<<<<< quoted` above an empty conflict is one |
| `ConflictLines.IsUnresolvedConflictArtifact` | scripts/worktree_reachability.py:126-215 | true iff some conflicting re-merge equals the file up to marker labels and shows a marker |
| `Worktree.UncommittedPaths` | scripts/worktree_reachability.py:290-313 | the index loop over status fields against its specification |
| `Worktree.StatusRoundTrip` | scripts/worktree_reachability.py:290-313 | every reported path comes back once, in order, and no rename source is taken for a path |
| `Worktree.StagedBlobs` | scripts/worktree_reachability.py:346-371 | exactly the unmerged stages and the staged entries that differ from the working file |
| `Worktree.Inspection.Score` | scripts/worktree_reachability.py:386-398 | recoverable iff some commit holds the blob under any path |
| `Worktree.Inspection.Inspect` | scripts/worktree_reachability.py:316-422 | unknown iff the directory is missing, unreachable iff some content at stake is in no commit, clean iff nothing is uncommitted; everything at stake is scored |

## Left out

- Subprocess, git, ps, uv, sqlite, TOML, JSON and argument parsing: their answers are inputs, oracles or step results.
- Hashing and message authentication: a digest is its content, and only tags issued by a step verify.
- Human tables, JSON reports, message texts and exit-code wording; budget labelling of a probe error.
- General regular expressions: checkout token, conflict marker, pin line, release tag and node id are modelled by
  hand; the pytest line shapes (header, counts, internal error, launcher line) are arbitrary predicates of the log
  model.
- Unicode digits, whitespace and case: digits and stripped whitespace are the ASCII ones; line breaks of a pins block
  are Python's full set.
- Quarantine annotations of persistent failures; sorted id lists of the differential appear as sets.
- Manifest order is a list of distinct names, as the manifest loader enforces; dictionary insertion order is a key
  list.
- Changelog and lock file contents of a release preparation, and its opt-in environment sync: the checks before the
  writes may refuse and the lock update after them may fail, but what they write is not modelled. Nor is a write that
  fails half way.
- The origin push of the monorepo tag appears only as an exit status.
- Path resolution and symlinks: a path names one file. What git reports of a candidate (changed paths, renames,
  ancestry) is an input, so the ancestry probes and the parsing of `git diff` output behind a census are not part of
  this model.
- The session proof's checks of configuration, plugins and selection are one boolean of the proof.
- Files changing during a single walk of the watched directories; a change between signature and listing is modelled.
- The grep-style gates, the scrub transform, pytest plugin hooks other than teardown, and the sample loop of the lane
  cost measurement: each is a single pass that no property above depends on.
- The list of mirror-only offenders a prune prints: it is not acted on.
- TagPrune.SuggestionIsNextPatch: covers families without a dot in their name; with one, the added number may not be
  the patch.
- StackPins.SyncSettles: empty versions and those with a quote or a line break, which no pin line carries, and those
  holding the end sentinel itself are excluded.
- Census.ColourCensus: takes the footprints as given; `Footprint.CensusClasses` builds them from what git reports.
- Gate.MergeableMeans: an ERROR line that repeats an id already listed as FAILED is excluded only where the announced
  count is the number of status lines, as pytest prints it; other counts are accepted by the code.
