# Verified model of the noodles control plane

noodles schedules issues across repositories, claims one branch for each admitted issue, and drives the
result through handoff, repair and landing, all from small crash-prone scripts over provider state. This
project models the parts of it that hold state and must survive crashes, reordering or malformed input, and
proves what they keep. Dafny 4.11 verifies all of it with `dafny verify dfyconfig.toml`.

Where the Python updates things in place the model does too: the scheduler's union-find, the provider's
refs and issues, the session log, the receipt files, the persisted backlog record, a checkout's refs, the
object store and the attempt histories are fields of classes, and loops are loops with invariants. Each
such method is proved against a function of its inputs or old state, and the promises are lemmas about
those functions. A durable step is one assignment; a crash is a cut after any of them. The modules named
`Exact` say what those functions compute without naming them: each class, refusal, outcome and digest exactly
when the readings call for it, and each constant and text spelled out.

| module | what it models |
|---|---|
| `DisjointSets`, `Schedule`, `ScheduleTheorems`, `ScheduleExact` | the scheduling decision: union-find with path halving, components, frontier, winners, worker count |
| `Boundary`, `Admission`, `AdmissionTheorems`, `AdmissionExact` | write boundaries, the admission cycle and its reservation table, invariant I3 |
| `ClaimNames`, `DeadClaim`, `DeadClaimTheorems`, `DeadClaimExact` | dead-claim detection, the release protocol and the sweep |
| `Handoff`, `HandoffExact` | the handoff and rerun ceremony over a session log and the provider's runs |
| `Repair`, `RepairExact` | bounded repair over the session log and the receipt files |
| `Backlog`, `BacklogExact`, `Pagination` | the resumable backlog cycle, its hold, and the two-cursor page loop |
| `Heal` | the lossless heal of a control checkout over any commit DAG |
| `RouteBundle`, `RouteBundleTheorems`, `RouteBundleExact` | the length-framed route bundle: printer, parser, checker |
| `VerifiedBatch` | the content-addressed batch and the check that reconstructs it |
| `Dependencies`, `Intake`, `IntakeExact` | derived and parsed dependencies, the exact issue parser |
| `MarkerLines`, `Prose`, `IntakeTexts` | the marker patterns and the dependency-prose pattern as searches over text |
| `CureLoop`, `RepairLines`, `NamedBlocker`, `BlockedRepair`, `Normalization` | the one-shot intake repair, as text written and read back |
| `IntakeExamples`, `QuotedState` | two repairs that do not read as their comment says |
| `Struggle` | the struggle verdict and the monitor that stops a subject |
| `Ordering`, `Text`, `Wrappers` | sorting, Python string operations, option and result types |

Object ids in `VerifiedBatch` are an arbitrary function, assumed injective; `Heal` makes the same assumption
by identifying a commit with its tree, message and parents. sha256 is an arbitrary function of bytes to 64 hex
digits and is never assumed injective. Everything the provider answers, the clock, and where a call is cut are
parameters, so every result holds for all of them.

## What turned out differently from the documentation

- A repair that dies between logging its receipt and writing the receipt file is replayed from the log, as
  intended, except when another failure's receipt already holds the file: the file name carries only the
  session, the PR and twelve digits of the head, so every repetition then fails its readback and changes
  nothing. `Repair.CrashRecoveryExact` gives the exact condition for any log and files: the file is missing or
  holds this very receipt. `Repair.CrashRecoveryInRuns` reduces it, in every store that repairs can produce, to
  whether the file is missing. `Repair.SecondFailureAtOneHeadWedges` is a concrete input.
- A release whose salvage name is taken by another head with the same twelve digits is held for ever.
  `DeadClaimTheorems.SweepKeepsClaimSafe` frees a claim that is handled to the end exactly when the name is not
  taken, `DeadClaimTheorems.TakenSalvageHoldsForEver` shows that otherwise no run of sweeps changes anything
  the claim is judged by, and `DeadClaimTheorems.CollidingClaimIsHeld` is such a world.
- The intake comment tells the author that a repaired issue which is not a migration "is blocked". It reads
  blocked exactly when the author wrote a blocked state, or wrote no state and repeated no role, target or
  subject marker, and the last diagnostic does not quote another state ahead of an authored one
  (`Normalization.BlockedReadsAs`, and in the answer of `Normalization.IntakeNormalization`).
  `IntakeExamples.ReadyStaysReady` gives repairs that still read `ready`, `IntakeExamples.ReadyExampleIsOne` such
  an issue.
- The blocker line quotes diagnostics, and a diagnostic may quote a marker the author wrote. With
  `<!-- noodles-relation: <!-- noodles-state: blocked -->`, which the patterns read as a relation and as a state,
  the repaired body holds two state markers and the first is the diagnostic's own words
  (`QuotedState.QuotingRepairMisreads`, on the body of `QuotedState.QuotingExampleIsOne`). So an authored marker
  can come to be repeated, exactly by what the last diagnostic quotes; the parser then still objects.
- A manifest whose first member's head is the base itself is constructed with that commit as both parents, which
  `git commit-tree` keeps once; the identity check then rejects the manifest. `VerifiedBatch.MergingExact` says
  when a manifest has no such integration, and `VerifiedBatch.BaseAsHead` is one that has.
- A boundary segment may end in one newline, because the pattern's final `$` admits it: a token of an `a`, a
  newline and `/b` is declared (`Boundary.NewlineIsDeclared`). The declared prefixes keep to the documented
  alphabet exactly when no stripped token holds a newline (`Boundary.DeclaredCleanExact`). None of the
  disjointness results depends on it.

## Model

| member | source | states |
|---|---|---|
| `DisjointSets.ChainEndsInRoot` | schedule_domain.py:51-55 | every parent chain ends, after at most `top` steps, in the element's root, so `find` terminates |
| `DisjointSets.HalvingKeepsRoots` | schedule_domain.py:51-55 | one halving step keeps every element's root and strictly climbs |
| `DisjointSets.LinkMergesRoots` | schedule_domain.py:57-60 | pointing one root at another keeps the forest well founded and merges exactly the two classes |
| `DisjointSets.Forest.constructor` | schedule_domain.py:48-49 | each subject of the index starts as its own root |
| `DisjointSets.Forest.Find` | schedule_domain.py:51-55 | returns the root of its argument and changes nobody's root while rewriting parents |
| `DisjointSets.Forest.Link` | schedule_domain.py:57-60 | afterwards exactly the members of the first class have the second class's root |
| `Schedule.WalkKeepsLabel` | schedule_domain.py:57-60 | a labelling that agrees across every edge is constant along every walk |
| `Schedule.RootsSettle` | schedule_domain.py:57-60 | once every edge is linked, two subjects share a root iff they are connected in the undirected dependency graph |
| `Schedule.LinkDependencies` | schedule_domain.py:48-60 | after all unions sharing a root is being connected by edges whose two ends are both in the snapshot |
| `Schedule.ExcludedRoots` | schedule_domain.py:62-62 | the excluded roots are exactly the roots of claimed issues |
| `Schedule.GatherEligible` | schedule_domain.py:63-69 | each p0 schedulable issue of an unexcluded root is in its root's group once, and nothing else is |
| `Schedule.GroupIsComponent` | schedule_domain.py:62-73 | a sorted group is exactly the eligible issues connected to its head, by number |
| `Schedule.SortingComponents` | schedule_domain.py:71-74 | sorting the groups keeps them separate and complete and orders them by lowest number |
| `Schedule.RepositoryComponents` | schedule_domain.py:45-74 | one repository's list is its components with an eligible issue, each once; a malformed live claim leaves none |
| `Schedule.ByRepository` | schedule_domain.py:38-45 | the snapshot is partitioned by repository, repositories in sorted order, positions complete |
| `Schedule.AppendRepository` | schedule_domain.py:44-74 | components of a later repository extend the list without merging or reordering |
| `Schedule.Decide` | schedule_domain.py:32-84 | the decision describes the components of the plain dependency graphs of the whole snapshot: frontier, components, winners, worker count |
| `ScheduleTheorems.WinnersExact` | schedule_domain.py:44-84 | the winners are the lowest-numbered eligible issues, exactly one for each component with an eligible issue; none where a member is claimed or the repository holds a malformed claim |
| `ScheduleTheorems.WorkersBoundIndependentLanes` | schedule_domain.py:79-84 | no set of eligible, pairwise unconnected issues is larger than `max_useful_workers` |
| `ScheduleTheorems.WorkersAreAttained` | schedule_domain.py:79-84 | some set of eligible, pairwise unconnected issues has exactly that size |
| `ScheduleTheorems.LeastWins` | schedule_domain.py:62-84 | the least issue of a component is its winner in every snapshot that agrees on the repository |
| `ScheduleTheorems.StrictUnique` | schedule_domain.py:71-78 | a strictly sorted list is determined by its members |
| `ScheduleTheorems.OrderIndependent` | schedule_domain.py:32-84 | with unique numbers per repository, permuting the issues and each dependency tuple gives the identical decision |
| `ScheduleTheorems.ClaimRemovesComponent` | schedule_domain.py:62-69 | claiming any issue changes no component and makes exactly its own component ineligible, or its whole repository when its contract does not parse |
| `ScheduleTheorems.WinnersDoNotInterfere` | schedule_domain.py:62-84 | claiming any issue at all removes exactly the components it closes from the list; every other one stays, separate and complete |
| `ScheduleTheorems.SurvivingExact` | schedule_domain.py:62-69 | the components that stay keep their order, and are exactly those the claim leaves alone |
| `ScheduleTheorems.DecisionAfterClaim` | schedule_domain.py:62-84 | the decision recomputed after claiming any issue, frontier, winners and worker count, is the one of the surviving components |
| `ScheduleTheorems.DecisionAfterWinner` | schedule_domain.py:62-84 | after claiming a winner that is the old decision less its component, that winner and one worker; or, if the winner does not parse, the decision of the other repositories' components |
| `ScheduleTheorems.ClaimsKeepLeast` | noodles.py:5208-5216 | any number of claims in other components leave an issue the least of its component |
| `ScheduleTheorems.ClaimsKeepNamedWinner` | noodles.py:5208-5216 | a winner stays a winner in every later snapshot of its repository in which any of the other winners hold claims |
| `ScheduleTheorems.FrontierExact` | schedule_domain.py:76-80 | the frontier lists every eligible issue once, by repository and number |
| `ScheduleExact.LinksExact` | schedule_domain.py:57-60 | an edge of the graph is one issue of the repository naming another |
| `ScheduleExact.MayRunExact` | schedule_domain.py:43-68 | an issue is eligible iff it is p0 and schedulable, its repository holds no malformed claim and its component no claimed issue |
| `ScheduleExact.DecisionExact` | schedule_domain.py:71-84 | every field of the decision: each component lists all its issues that may run, by number, its winner is the first of them, and the workers are as many as the components |
| `ScheduleExact.FrontierOrder` | schedule_domain.py:76-80 | the frontier names every issue that may run, as many as there are, by repository and number |
| `Boundary.ParseWriteBoundary` | issue_contract.py:354-373 | the loop computes the declared surface: undeclared, empty, or the distinct normalized prefixes |
| `Boundary.DeclaredExact` | issue_contract.py:365-373 | a declaration is ambiguous iff some token is no prefix, and otherwise declares exactly its tokens' normalized prefixes |
| `Boundary.DeclaredAreRelativePaths` | issue_contract.py:337-373 | every declared prefix is a relative path of good segments that splitting recovers, and none is repeated |
| `Boundary.PathCleanExact` | issue_contract.py:139-139 | a declared prefix is of the documented segment alphabet iff it holds no newline |
| `Boundary.DeclaredCleanExact` | issue_contract.py:337-373 | every declared prefix is of the documented segment alphabet iff no stripped token holds a newline |
| `Boundary.NewlineIsDeclared` | issue_contract.py:139-139 | a declaration outside the documented alphabet that is accepted |
| `Boundary.MeetingExact` | issue_contract.py:381-387 | two prefixes meet iff some path lies under both, and what they report is such a path |
| `Boundary.ConflictExact` | issue_contract.py:376-388 | no conflict iff no path lies at or below a prefix of both declarations; a reported prefix lies under both |
| `Boundary.ConflictSymmetric` | issue_contract.py:376-388 | whether two declarations conflict does not depend on their order |
| `Boundary.SiblingsNeverMeet` | issue_contract.py:376-380 | containment is by whole segments: `tests` never meets `tests2` |
| `Boundary.SurfaceExact` | issue_contract.py:354-373 | a blank value is undeclared, the word `none` in any case declares nothing, anything else its tokens |
| `Boundary.DeclaredInOrder` | issue_contract.py:365-373 | the declared prefixes stand in the order the tokens first name them |
| `Boundary.PrefixExact` | issue_contract.py:337-351 | a token is a prefix iff, stripped and without trailing slashes, it is not empty, begins with no slash and all its segments are good words; the prefix is that text |
| `Boundary.WordChars` | issue_contract.py:139-139 | the characters of a good word, spelled out |
| `Boundary.ConflictNames` | issue_contract.py:376-388 | what is reported is the more specific of the first candidate prefix to meet anything and the first active prefix it meets |
| `Admission.AdmissionConflictExact` | noodles.py:5056-5070 | a candidate passes iff every reservation is declared and disjoint from it |
| `Admission.ClaimedBoundaryWidening` | noodles.py:5073-5102 | the loop computes each live claim's report against the declared claims before it |
| `Admission.NoWideningIffDisjoint` | noodles.py:5073-5102 | the report is empty iff the declared reservations are pairwise disjoint |
| `Admission.ReserveClaimed` | noodles.py:5191-5194 | the table holds, per repository, exactly the claimed issues in snapshot order |
| `Admission.CreatedIsClear` | noodles.py:5208-5348 | a ref is created only for a winner without a claim whose declared boundary is clear of the table |
| `Admission.ProgressNext` | noodles.py:5207-5348 | one more order keeps the loop's account: outcomes as judged, refs and published orders as recorded |
| `Admission.Publish` | noodles.py:5153-5352 | sorted orders judged against the scheduler's own decision, each with the outcome its readings and the reservations at that moment call for, every created ref disjoint, whether the cycle ends or an error cuts it; an error publishes nothing and leaves at most the ref of its own order |
| `AdmissionExact.ReservedExact` | noodles.py:5191-5194 | a repository reserves the declared surfaces of its claimed issues, in snapshot order |
| `AdmissionExact.WonInExact` | noodles.py:5347-5348 | and those of the claims this cycle won there, in order |
| `AdmissionExact.OthersExact` | noodles.py:5241-5242 | an orphan is judged against all of them but its own |
| `AdmissionExact.BlockerExact` | noodles.py:5056-5070 | the reservation reported is the first that is undeclared or shares a path, with `none` or that path |
| `AdmissionExact.RefusalsExact` | noodles.py:5208-5264 | `not_in_winners`, `frontier_changed`, `dependency_changed`, `executor_refused`, `boundary_undeclared`, `boundary_conflict` and `open_pr_exists`, each iff the readings call for it |
| `AdmissionExact.EndsExact` | noodles.py:5265-5346 | the ends behind them, each iff the readings call for it: adoption held, already published, claimed elsewhere, adopted, claimed, and the raise that leaves a created ref |
| `AdmissionExact.OpenPrStaysIn` | noodles.py:5259-5264 | an order whose issue has an open PR is neither claimed nor published, whatever the cycle did before it |
| `AdmissionExact.WonExact` | noodles.py:5319-5348 | the claims won are those of the orders that left as claimed, in order |
| `AdmissionExact.PublishedExact` | noodles.py:5345-5352 | the published schedule holds the orders claimed, adopted or published before, in order |
| `AdmissionExact.CreatedExact` | noodles.py:5319-5348 | a ruling leaves a ref iff it claims or raises past the claim, and that ref is the order's own, with its declared surface |
| `AdmissionExact.OrdersByNumber` | noodles.py:5208-5208 | the orders are the proposed ones, by repository and number |
| `AdmissionExact.WideningsExact` | noodles.py:5073-5102 | one report for each declared claim that shares a path with an earlier declared one, in order, naming it, the first it meets and a path under both |
| `AdmissionTheorems.ClaimedExact` | noodles.py:5208-5346 | the exact conditions under which an order wins a new claim |
| `AdmissionTheorems.AdoptedExact` | noodles.py:5240-5346 | the exact conditions under which an orphan is adopted, its own reservation set aside |
| `AdmissionTheorems.WonLanesAreDisjoint` | noodles.py:5236-5248 | each claim won is disjoint from every reservation read at the start, all declared, and from every other claim won there |
| `AdmissionTheorems.NoWinnerIsDropped` | noodles.py:5208-5216 | when the mid-cycle recheck reads the snapshot with the claims this cycle has won so far, no winner's order leaves as `frontier_changed` |
| `AdmissionTheorems.UndeclaredBlocksRepository` | noodles.py:5064-5066 | nothing is won in a repository where a reservation is undeclared |
| `AdmissionTheorems.CycleKeepsI3` | noodles.py:5191-5206 | I3 at the start of a cycle is I3 of what it leaves, and no widening is reported there |
| `AdmissionTheorems.RunKeepsI3` | noodles.py:5191-5206 | over any run of cycles with unedited bodies and any releases between them, live claims stay pairwise disjoint |
| `ClaimNames.ExecuteBranchInjective` | noodles.py:4859-4861 | two issues of a repository never share an execute branch |
| `ClaimNames.SalvageBranchInjective` | claim_contract.py:73-75 | a salvage name determines the issue and the first twelve digits of the head |
| `ClaimNames.SalvageIsNoExecuteBranch` | claim_contract.py:73-75 | no salvage branch is an execute branch of any repository |
| `ClaimNames.BranchOfClaimNumber` | noodles.py:4924-4931 | a ref the claim pattern matches is the execute branch of the number it carries |
| `ClaimNames.ClaimNumberOfBranch` | noodles.py:4924-4931 | the execute branch of an issue is matched by the claim pattern, with its number |
| `DeadClaim.ClaimHasBranch` | noodles.py:4924-4931 | the active claims are exactly the issues whose execute branch exists |
| `DeadClaim.Provider.Snapshot` | claim_contract.py:180-273 | one record per active claim, in ascending number, with the class its readings call for |
| `DeadClaimExact.SnapshotExact` | claim_contract.py:180-212 | a snapshot is every issue whose execute branch is there, by number, each with the head it is at, its class and its sessions |
| `DeadClaim.Provider.Free` | claim_contract.py:340-370 | however it is cut, what is durable is a prefix of: state flip, ref delete, receipt |
| `DeadClaim.Provider.Release` | claim_contract.py:297-370 | what is durable is exactly the written prefix of the plan; released iff not cut and the salvage name is free or at the head |
| `DeadClaim.Provider.Handle` | claim_contract.py:382-412 | a record is skipped, adopted, released or held as its class and the world say |
| `DeadClaim.Provider.Sweep` | claim_contract.py:373-413 | the sweep handles the snapshot's records in order, each against the world the earlier ones left, cut anywhere |
| `DeadClaimTheorems.OwnedExact` | claim_contract.py:213-272 | the exact readings that make a claim `dead_claim` or `released_residue` |
| `DeadClaimExact.ClassifyExact` | claim_contract.py:213-272 | each of the eight classes iff the readings call for it; a claim is `dead_claim` awaiting landing and `released_residue` ready with its head preserved, and either carries the number of its one open PR |
| `DeadClaimExact.ActionExact` | claim_contract.py:382-412 | skipped iff not owned; adopted iff a dead claim with a session whose adoption succeeds; released iff owned, not adopted, not cut and its salvage name not taken; held otherwise |
| `DeadClaimExact.SweepOneExact` | claim_contract.py:312-370 | a skip or an adoption writes nothing; a release leaves the head under its salvage name, the claim name free, the issue ready and the receipt filed with its blocker, and nothing else moved |
| `DeadClaimExact.BranchTexts` | claim_contract.py:73-75 | an execute branch and a salvage branch, spelled out |
| `DeadClaimTheorems.FreeingStaysOwned` | claim_contract.py:309-311 | from the preserved head on, every partial release stays owned until the delete |
| `DeadClaimTheorems.ReleaseNeverLosesTheClaim` | claim_contract.py:297-370 | cut anywhere: while the ref exists the next snapshot owns the claim; once it is gone the head is preserved and the issue ready |
| `DeadClaimTheorems.SweepOneKeepsOthers` | claim_contract.py:297-370 | releasing one claim touches no ref, issue or session another claim is judged by |
| `DeadClaimTheorems.SweepActsAlone` | claim_contract.py:373-413 | a sweep handles each claim as if it were alone |
| `DeadClaimTheorems.SweepKeepsClaimSafe` | claim_contract.py:373-413 | a cut sweep keeps every owned claim owned or freed; handled, unadopted and uncut, it is freed iff its salvage name is not taken |
| `DeadClaimTheorems.RunKeepsClaimSafe` | claim_contract.py:309-311 | over any run of cut sweeps a dead claim stays owned until it is freed |
| `DeadClaimTheorems.FreedStaysFreed` | claim_contract.py:297-370 | and then stays freed, its head preserved |
| `DeadClaimTheorems.TakenSalvageHoldsForEver` | claim_contract.py:326-331 | with the salvage name at another head, no run of sweeps changes what the claim is judged by: it stays owned and is never freed |
| `DeadClaimTheorems.CollidingClaimIsHeld` | claim_contract.py:326-331 | a well-formed world with an owned claim whose salvage name is taken |
| `Handoff.DisturbanceIsSafe` | noodles.py:1369-1424 | runs that only advance and other log events cannot break the ceremony's invariant |
| `Handoff.IntentIsSafe` | runtime_contract.py:988-1025 | the first intent for a run at or past its baseline keeps the invariant |
| `Handoff.MessageIsSafe` | runtime_contract.py:1028-1090 | the first blocking message for a run past its recorded baseline keeps the invariant |
| `Handoff.PostIsSafe` | noodles.py:1396-1411 | a POST for a run read at its recorded baseline is the first post and moves the run past it, whatever others did to runs and log between the readback and the POST |
| `Handoff.RerunIsAdopted` | noodles.py:1404-1424 | the ceremony that repeats one cut after its POST adopts that rerun, and however the run advances none posts for it again |
| `Handoff.Host.constructor` | noodles.py:1369-1374 | a session that has logged no intent and no blocking message starts safe |
| `Handoff.ReadbackExact` | runtime_contract.py:899-985 | a standing message or intent is the only one, is the one this call would log, and the message is the last stage message |
| `HandoffExact.IntentsExact` | runtime_contract.py:958-959 | the intents read are those of the session log, in order |
| `HandoffExact.MessagesExact` | runtime_contract.py:909-915 | the messages read are the log's stage messages of the subject, in order |
| `HandoffExact.ParksBlocked` | runtime_contract.py:1028-1090 | the message a ceremony parks on is blocking, is of this call, run and baseline, and says so in these words |
| `HandoffExact.RecordsInOrder` | noodles.py:1371-1434 | a ceremony that finishes logs its intent, unless one is on record, and then the message |
| `HandoffExact.OthersMay` | noodles.py:1396-1424 | what others may do in the meantime: give a run any state whose attempt does not fall, and log any event that is no record of the protocol |
| `HandoffExact.StandingExact` | runtime_contract.py:899-940 | a message stands iff it is the subject's only one, is blocking, matches the call to the word, and is the last stage message |
| `HandoffExact.CandidatesExact` | github_protection.py:1151-1160 | the runs a rerun may answer are those of this head and PR that completed as failures |
| `HandoffExact.VerdictExact` | noodles.py:1396-1424 | post iff the run stands failed at its baseline; adopt iff it is one attempt past it, active without a conclusion or completed with one |
| `HandoffExact.ImitatedExact` | runtime_contract.py:1049-1090 | a message is imitated iff some stage message, of any subject or none, holds its text, run and baseline |
| `Handoff.FinishExact` | noodles.py:1369-1434 | an undisturbed ceremony finishes, and posts, exactly as the verdict on the run of its intent says |
| `Handoff.Host.EmitIntent` | runtime_contract.py:988-1025 | appends exactly one intent when there is none, and otherwise appends nothing and accepts only that intent |
| `Handoff.Host.EmitMessage` | runtime_contract.py:1028-1090 | appends exactly one blocking message when none stands and no other message imitates it; succeeds only if it reads back |
| `Handoff.Host.ObtainIntent` | noodles.py:1371-1395 | the recorded intent, or a new one for the newest failed run at its present attempt |
| `Handoff.Host.Rerun` | noodles.py:1396-1424 | posts iff the run was read failed at the baseline and the provider accepts, others acting between the readback and the POST; any verdict but refusal leaves the run past its baseline |
| `Handoff.Host.RerunAndPark` | noodles.py:1396-1434 | a ready outcome reads back; undisturbed it parks iff the run was posted or adopted and no other message imitates the blocking one |
| `Handoff.Host.ExecuteHandoff` | noodles.py:1368-1434 | cut anywhere, with others acting before any step, it keeps the invariant; once a message stands it posts and records nothing; undisturbed it finishes iff it can, and logs exactly the intent it goes by, unless recorded, and the blocking message |
| `Handoff.AnyHistory` | noodles.py:1368-1434 | over any sequence of cut ceremonies, and outside events at any point, also between the run readback and the POST: at most one intent, one message per subject and one post, and no message before its run passed the baseline |
| `Repair.WithKeyExact` | repair_contract.py:129-137 | finds a receipt of the same head, run and job iff one is logged |
| `RepairExact.PriorExact` | repair_contract.py:121-128 | the prior receipts are those logged for the subject and PR, in order |
| `RepairExact.FirstIsFound` | repair_contract.py:129-137 | the receipt found is the first of this head, run and job |
| `Repair.Session.EnsureEvent` | repair_contract.py:48-70 | the event is logged exactly once, unless it already was more than once |
| `Repair.Session.RepairReview` | repair_contract.py:121-207 | log, files and outcome of one repair cut after any durable write |
| `Repair.ReviewStaysBounded` | repair_contract.py:121-207 | cut anywhere, attempts stay 1..n with n at most 3 and distinct failures; a logged failure logs nothing more |
| `Repair.RunStaysBounded` | repair_contract.py:121-207 | the same over any run of repairs of any subjects and PRs, and the log only grows |
| `Repair.ExhaustionExact` | repair_contract.py:183-201 | a new failure is refused iff three receipts are logged, and then exactly one escalation is |
| `RepairExact.LogExact` | repair_contract.py:138-202 | what is logged: the receipt of a failure not known, numbered one past those logged, while they are fewer than three; then an escalation that names subject, PR, head, attempts and blocker, unless it stands |
| `RepairExact.FilesExact` | repair_contract.py:174-207 | what is filed: that receipt under its path, once logged and unless a known failure's file is there |
| `RepairExact.OutcomeExact` | repair_contract.py:174-207 | done, exhausted and failed readback, each iff log and files call for it |
| `RepairExact.RunExact` | repair_contract.py:121-207 | a run goes on by whole repairs, each from the store the one before it left |
| `Repair.CrashAfterLog` | repair_contract.py:202-207 | dying between log and file leaves the receipt logged under the same attempt |
| `Repair.DoneIsReplayed` | repair_contract.py:175-182 | a finished repair returns the same receipt, and changes nothing, every time it is repeated |
| `Repair.PathExact` | repair_contract.py:44-45 | two failures of one session share a receipt file iff their PR and first twelve head digits agree |
| `Repair.CrashRecoveryExact` | repair_contract.py:175-207 | for any log and files: repeating the call recovers iff the file is missing or holds its own receipt; otherwise it fails and changes nothing |
| `Repair.RunStaysFiled` | repair_contract.py:121-207 | over any run of repairs every receipt file lies under its own path and its failure is logged under its attempt |
| `Repair.CrashRecoveryInRuns` | repair_contract.py:175-207 | in such a store repeating a call that died there recovers iff no receipt held the file before |
| `Repair.SecondFailureAtOneHeadWedges` | repair_contract.py:44-45 | a second failure at one head that dies there can never be replayed |
| `Backlog.BackoffDoublesToCeiling` | noodles.py:3596-3604 | the hold is min(180 * 2^(k-1), 3600) for every k >= 1, the exponent clamp never showing, and doubles to the ceiling |
| `Backlog.BacklogCycle.Sync` | noodles.py:3703-3750 | record, acts and items of one cycle cut at any durable write |
| `Backlog.ActsExact` | noodles.py:3716-3750 | what one cycle does and returns: while the hold lasts the items last finished; otherwise it asks unless a derivation is persisted, persists the answer and finishes what is persisted |
| `Backlog.HoldSeconds` | noodles.py:3596-3604 | the hold is 180 seconds after one empty cycle and 3600 from the sixth on |
| `BacklogExact.HistoryExact` | noodles.py:3736-3748 | what a history says: consecutive_empty is the number of latest finished cycles with nothing schedulable, and the hold runs from the last of them |
| `BacklogExact.PendingExact` | noodles.py:3722-3735 | and what is pending: the finalists persisted last, nothing persisted or finished since |
| `BacklogExact.ServedExact` | noodles.py:3719-3721 | and what a hold serves: the items of the last finished cycle |
| `BacklogExact.RunExact` | noodles.py:3703-3750 | a run starts without a record and goes on by whole cycles |
| `Backlog.CycleAccounts` | noodles.py:3703-3750 | one cycle keeps the record equal to what its history says: count, hold, pending derivation, and the items last finished |
| `Backlog.RunAccounts` | noodles.py:3703-3750 | over any run: consecutive_empty counts the empty cycles completed in a row, nothing is derived before the hold ends, a held cycle serves the items last finished, a persisted derivation is finished and never derived again |
| `Backlog.DerivedOnce` | noodles.py:3722-3735 | over any run a persisted derivation is finished, with its own finalists, before the provider is asked for another |
| `Pagination.ReadNext` | noodles.py:3545-3552 | consuming one served page of an unfinished connection takes exactly its next page and moves its cursor and end flag with it |
| `Pagination.ConcatExact` | noodles.py:3545-3552 | what the pages of a connection hold together is what they hold one after another |
| `Pagination.ServeExact` | noodles.py:3545-3552 | what the provider serves for a cursor: the page behind it, whether more follow, and that page's own cursor |
| `Pagination.Snapshot` | noodles.py:3506-3555 | each connection's pages exactly once and in order, whichever ends first; an error iff a round fails or either needs more than the limit |
| `Heal.Ancestors` | noodles.py:4009-4012 | the commits `rev-list` lists are exactly those reachable through parents |
| `Heal.ReachesExact` | noodles.py:4009-4012 | an ancestor is a commit reached by a way up through parents |
| `Heal.UnsavedExact` | noodles.py:4009-4012 | unsaved commits are reported iff the local head holds a commit that is no merge and that neither the provider head nor a tracking ref holds |
| `Heal.CanHealExact` | noodles.py:4015-4043 | when a heal can finish: on the default branch, clean, with a fast-forward fetch, and the local head held by the provider, its content saved, or a salvage push allowed, accepted and read back |
| `Heal.NothingUnsavedIsSaved` | noodles.py:4009-4012 | with the provider head tracked, no unsaved content commit is reported iff every non-merge commit of the local head is on a remote-tracking ref |
| `Heal.SavedStaysSaved` | noodles.py:4009-4012 | content saved once stays saved while tracking refs only move forward |
| `Heal.Checkout.Fetch` | noodles.py:4022-4023 | a tracking ref moves to the provider's commit iff that is a fast-forward |
| `Heal.Checkout.Salvage` | noodles.py:4033-4038 | succeeds iff the push is accepted and reads back at the local head; from an accepted push on the tracking ref holds the local head, wherever it dies |
| `Heal.Checkout.Reset` | noodles.py:4039-4040 | moves the branch to the provider head; dying before the working tree follows leaves it dirty iff the trees differ |
| `Heal.Checkout.HealHead` | noodles.py:4015-4047 | lossless at every cut, each command of salvage and reset being one; healed iff it can be, then at the provider head, with every old content commit on a tracking ref, a salvage push iff something was unsaved, a reset iff the heads diverged and a fast-forward iff the old head was behind; tracking refs move forward, the salvage ref forward or to the old head; a refusal moves no head, and a dirty checkout is refused unchanged |
| `RouteBundle.AssembleRouteBundle` | provider_contract.py:79-94 | the bundle of all files in order, or an error iff one is missing |
| `RouteBundleExact.BundleText` | provider_contract.py:79-94 | the text of a bundle, header lines and framed sections spelled out |
| `RouteBundle.ParseSections` | provider_contract.py:108-125 | the cursor loop yields the recursive reading of the body |
| `RouteBundle.ParseRouteBundle` | provider_contract.py:97-125 | header and sections, or an error |
| `RouteBundle.CheckSections` | provider_contract.py:160-171 | every fault of every section against its pinned file, and the live bytes found |
| `RouteBundle.CheckRouteBundle` | provider_contract.py:128-176 | the report of a payload: unparseable, another traversal, or all faults and both digests |
| `RouteBundleTheorems.SectionsFrame` | provider_contract.py:108-125 | a parsed body is header lines, bodies and newlines with nothing between or after |
| `RouteBundleExact.MatchHeadExact` | provider_contract.py:62-64 | a line is read as a section header iff it is those words, a number, a path, a digest and a length |
| `RouteBundleExact.PartitionExact` | provider_contract.py:103-104 | a header line is cut at its first colon and space, or not at all |
| `RouteBundleExact.HeaderExact` | provider_contract.py:97-107 | a header is its version line and the last field of each name; it is refused iff a line holds no field |
| `RouteBundleExact.ParseExact` | provider_contract.py:97-125 | a payload parses to a header and sections iff it is five header lines and those sections, each behind a header line with its number and length |
| `RouteBundleTheorems.HeaderFaultsExact` | provider_contract.py:141-151 | no header fault iff each of the five fields has its expected value |
| `RouteBundleTheorems.SectionFaultsExact` | provider_contract.py:160-171 | no section fault iff each section is its pinned file under its digest |
| `RouteBundleExact.ErrorsExact` | provider_contract.py:137-171 | the errors in full: unparseable; or those of the five fields in order, and behind them another traversal, or each section's missing file, digest and bytes in order |
| `RouteBundleExact.HeaderFaultsFive` | provider_contract.py:141-151 | the five fields, their expected values and their order |
| `RouteBundleExact.DigestsExact` | provider_contract.py:172-176 | the fed digest is that of the bodies the bundle carries, errors or not, once it parses and names the expected paths; the live one is there iff every path has a file too, and is then the digest of those files in order |
| `RouteBundleTheorems.CheckedBundleIsPinned` | provider_contract.py:128-176 | a payload without errors carries exactly the pinned bytes of the expected paths in order, and both digests agree |
| `RouteBundleTheorems.TakeSectionOfChunk` | provider_contract.py:75-76 | the parser takes an assembled section off the cursor whatever its body holds |
| `RouteBundleTheorems.BundleParses` | provider_contract.py:79-125 | an assembled bundle parses to its own header and sections |
| `RouteBundleTheorems.AssembledBundleChecks` | provider_contract.py:79-176 | an assembled bundle checks without errors and with equal digests, bodies that read like section headers included |
| `VerifiedBatch.Repository.CommitTree` | verified_batch.py:121-137 | the commit is stored under its name with its tree and its parents, one named twice kept once, and no object is lost |
| `VerifiedBatch.Repository.ConstructBatch` | verified_batch.py:88-118 | the manifest base and ordered members determine, or an error; every integration's commit is stored |
| `VerifiedBatch.Repository.VerifyCandidateIdentity` | verified_batch.py:140-165 | accepts a manifest iff it is exactly the construction of its own base and members and no member's head is the commit it is merged onto; loses no stored object |
| `VerifiedBatch.MergingExact` | verified_batch.py:158-163 | no integration names one parent twice iff no head is the base or the integration below it |
| `VerifiedBatch.BaseAsHead` | verified_batch.py:121-137 | a batch whose first head is its base is constructed, with an integration that does |
| `VerifiedBatch.MessageInjective` | verified_batch.py:84-85 | a message determines the position and the member |
| `VerifiedBatch.BuildIsChain` | verified_batch.py:93-111 | each integration commits its member, at its position and with its message, on top of the one before, from the base to the batch |
| `VerifiedBatch.ManifestIsChain` | verified_batch.py:63-118 | a manifest holds its own base and members and is such a chain of exactly three known members with distinct PRs and heads |
| `VerifiedBatch.ConstructExact` | verified_batch.py:63-118 | a base and its members construct a manifest iff it is that chain, so every field of it is determined |
| `VerifiedBatch.ChainCommitsToHistory` | verified_batch.py:93-111 | chains of any length ending in one commit have the same base, ordered members and trees |
| `VerifiedBatch.BatchIdIdentifiesManifest` | verified_batch.py:88-118 | equal batch ids mean equal manifests |
| `Struggle.StruggleVerdict` | schedule_domain.py:165-195 | refuses a threshold below two or mixed subjects, and otherwise judges the history |
| `Struggle.TrailingRunExact` | schedule_domain.py:188-194 | the trailing run reaches the threshold iff that many attempts in a row end the history with one signature |
| `Struggle.FiresExact` | schedule_domain.py:165-195 | the verdict fires after an attempt iff that attempt completes a run or returns to a head already left |
| `Struggle.VerdictExact` | schedule_domain.py:183-194 | the verdict names the last subject and signature, the oscillation iff the last head was already left, and otherwise the whole trailing run |
| `Struggle.RecordKeepsConsistent` | noodles.py:3940-3970 | recording an attempt keeps every history free of patterns but for a stopped subject's last attempt |
| `Struggle.Monitor.Observe` | noodles.py:3940-3970 | a receipt of a struggling subject or a counted attempt changes nothing; any other appends one attempt, with its own diagnostics, controls and head, to its subject's history, which is then judged |
| `Struggle.Generation` | noodles.py:3926-3970 | over any stream of receipts a subject's history is its receipts' attempts, the first of each number, in order, all of them or, if it struggles, up to the first that completes a pattern |
| `Dependencies.ParseDependencies` | issue_contract.py:525-544 | none, or the distinct exact subjects listed, none the issue's own, or an error |
| `Dependencies.AcceptedExact` | issue_contract.py:531-544 | listed tokens are accepted iff they are distinct exact subjects other than the issue's own, and then as they are |
| `Dependencies.DeriveDependencies` | issue_contract.py:500-522 | a value naming exactly what the declaration lines name, each once in the order of its first mention, or none iff some line is not mechanical |
| `Dependencies.FirstsExact` | issue_contract.py:507-522 | that order: the tokens kept are those at the places of first mention |
| `IntakeExact.MechanicalExact` | issue_contract.py:508-519 | a declaration is mechanical iff it names no dependency, or at least one issue, each of the subject's repository and other than the subject |
| `IntakeExact.TokenText` | issue_contract.py:515-522 | a reference without a repository is one of the subject's; no reference at all derives `none` |
| `Dependencies.DerivedIsAccepted` | issue_contract.py:500-544 | every derived value parses back to exactly the tokens it was derived from |
| `Intake.OtherChecksAreSettled` | noodles.py:302-345 | only the four head checks report a missing marker and only the blocker check asks for a blocker |
| `Intake.ParseExact` | noodles.py:302-345 | the parser accepts exactly the bodies whose markers fit: one of each head marker, the expected subject, known state, admitted tokens, exact dependencies, a fitting blocker |
| `IntakeExact.ValuesExact` | noodles.py:255-270 | the values of a name are those of its markers, in order |
| `IntakeExact.SubjectExact` | issue_contract.py:24-24 | a subject is an owner, a slash, a repository, a number sign and a number without leading zero |
| `IntakeExact.ParseDiagnosis` | noodles.py:302-345 | which diagnostic is raised: the first to fail of all the checks, spelled out in the parser's order |
| `IntakeExact.ParsedExact` | issue_contract.py:525-544 | a dependencies value is the word `none`, or subjects between commas, or an error |
| `Intake.BlockerExact` | issue_contract.py:881-897 | a blocked state needs an owner and a reason that is not dependency waiting, any other state no blocker |
| `Intake.CureHeaderIsShort` | noodles.py:3390-3407 | a header of cures has at most five lines |
| `IntakeExact.CureExact` | noodles.py:3390-3407 | which five diagnostics have a cure, the line of each, and which values are derived |
| `IntakeExact.DerivedHeadExact` | noodles.py:3390-3401 | the derivable head: role, target and subject, each if the author left it out |
| `Intake.PlaceholderIsRead` | noodles.py:3376-3377 | the placeholder blocker never calls for itself again |
| `Intake.CureIsNew` | noodles.py:3390-3407 | every cure adds a name the header and the body lack, a malformed blocker aside |
| `Intake.DependenciesFit` | noodles.py:323-324 | an accepted dependencies marker changes no other check |
| `Intake.HeaderIsPart` | noodles.py:3386-3407 | under derived lines the body reads as under the whole derived head, short of some head markers |
| `Intake.PartAsksForHead` | noodles.py:302-345 | where the whole head satisfies the parser, a part of it is asked only for a missing head marker |
| `MarkerLines.MarksAreScanned` | noodles.py:255-277 | a body's markers are what `findall` of their patterns gives on its text |
| `IntakeTexts.HeldExact` | noodles.py:76-98 | what a marker pattern matches: a comment with its key, in any case and behind any space, and a value before its closing dashes |
| `IntakeTexts.MatchExact` | noodles.py:76-98 | a match ends at the first `>` |
| `IntakeTexts.ScanExact` | noodles.py:255-270 | the values found are those of the leftmost matches, each behind the one before, and no match is left over |
| `IntakeTexts.NameTexts` | noodles.py:76-98 | the sixteen marker names |
| `IntakeTexts.LineText` | noodles.py:3390-3407 | the line a marker is written as |
| `IntakeTexts.BodyText` | noodles.py:3386-3387 | a repaired body is its lines, one blank line and the original text |
| `IntakeTexts.StripExact` | noodles.py:274-274 | stripping takes the whitespace at both ends and nothing else |
| `IntakeTexts.SpaceExact` | noodles.py:76-98 | the characters that are whitespace |
| `IntakeTexts.ProseExact` | issue_contract.py:33-33 | dependency prose is one of four words anywhere, in any case, or a number sign before a digit |
| `MarkerLines.ScanConcat` | noodles.py:76-98 | a piece of text in which every comment opened is closed is read by itself, whatever follows |
| `MarkerLines.CommentHolds` | noodles.py:76-98 | a marker comment matches the pattern it names and no other |
| `MarkerLines.LinesAreRead` | noodles.py:3386-3387 | lines whose values hold no bracket are read back as the markers they write |
| `MarkerLines.CuresArePlain` | noodles.py:3390-3407 | every cure line is such a line |
| `MarkerLines.WrittenReads` | noodles.py:3386-3387 | header lines and original text are each read by itself, whatever the lines quote |
| `MarkerLines.IntakeText` | noodles.py:3386-3387 | the original text is a verbatim suffix of the repaired one |
| `CureLoop.CureHead` | noodles.py:3417-3434 | the loop ends by itself within its limit; each diagnostic is the parser's under the cures of those before it; the lines are all derived iff the body parses under the derivable head alone |
| `CureLoop.StoppedReadsBlocked` | noodles.py:3417-3434 | where the loop stops, before its diagnostics are named, the body reads blocked iff the author wrote a blocked state, or wrote none and repeated no head marker before it |
| `CureLoop.NothingAfterBlocker` | noodles.py:3417-3434 | once the blocker is asked for nothing more is cured, so at most one diagnostic follows the demand |
| `RepairLines.DeclareDependencies` | noodles.py:3435-3440 | one dependencies line iff the author left it out and every declaration line is mechanical |
| `NamedBlocker.NamedBlockerFits` | noodles.py:3444-3450 | of the line naming the defects, the part read as the blocker passes the parser's blocker check, whatever the defects are and whatever their texts quote |
| `NamedBlocker.NamedLineIsRead` | noodles.py:3444-3450 | that line is read as one blocker, up to its first comment end, and as the markers its last diagnostic quotes, and as nothing else |
| `IntakeTexts.ReasonExact` | noodles.py:3443-3450 | the reason a repair names: its defects joined, or the words that stand for none or for prose |
| `IntakeTexts.DescriptionTexts` | issue_contract.py:881-893 | the two diagnostics whose words decide a cure |
| `NamedBlocker.InCommentIsCalm` | noodles.py:3445-3448 | the reason that falls back to the comment is no dependency prose |
| `BlockedRepair.NamingChangesNoVerdict` | noodles.py:3443-3451 | naming the defects in the placeholder's place changes no verdict of the parser, quoted markers aside |
| `BlockedRepair.ThinnerParses` | noodles.py:302-345 | markers added to a complete head and a blocker cure no diagnostic |
| `BlockedRepair.BlockedVerdict` | noodles.py:3443-3451 | so the repaired body is accepted iff every diagnostic has a cure, whatever is quoted |
| `Normalization.BlockedReadsAs` | noodles.py:3435-3452 | a repair that is not a migration leaves a diagnostic, a blocked state or undeclared dependencies, and exactly when each: blocked iff the author wrote a blocked state, or none and repeated no head marker, and no other state is quoted first; without dependencies iff none are authored, derivable or quoted; accepted iff every diagnostic has a cure |
| `Normalization.MigrationAnswers` | noodles.py:3453-3456 | the proof-parse never fails on a fully derived repair |
| `Normalization.IntakeNormalization` | noodles.py:3409-3457 | for any body, read as text: both raises are unreachable; a repair is made iff owed and is a migration iff derivable; the written body, read back, is for a migration accepted and as authored apart from the derived head and exact dependencies, and otherwise blocked, undeclared or accepted exactly as stated; an authored marker other than the blocker is repeated by what the last diagnostic quotes and by nothing else; and its lines are the cures of the diagnostics named, in order, the blocker naming them, the derived dependencies, and the receipt |
| `Normalization.WrittenOwesNothing` | noodles.py:3415-3416 | the repair applied to its own output owes nothing |
| `IntakeExamples.ReadyStaysReady` | noodles.py:3443-3464 | a ready issue without a role, its dependencies neither declared nor derivable, is repaired as blocked and still reads `ready` |
| `IntakeExamples.ReadyExampleIsOne` | noodles.py:3443-3464 | one such issue, for any subject |
| `QuotedState.NestedIsRead` | noodles.py:76-98 | a marker line written inside another's value is read as the outer marker and as the inner one |
| `QuotedState.QuotingExampleIsOne` | noodles.py:76-98 | a body whose one comment is a malformed relation and a blocked state |
| `QuotedState.QuotingRepairMisreads` | issue_contract.py:656-661 | its repair holds two state markers, the first the words of the relation's diagnostic |

## Left out

- `Schedule.Decide`: the order among equal-numbered issues of one repository is the snapshot's, and is not characterised beyond that; the provider numbers uniquely.
- `AdmissionTheorems.NoWinnerIsDropped`: assumes unique subjects and that an issue whose contract does not parse is unschedulable, as the snapshot builds them (noodles.py:4959-5021, not part of this model), and no other change of the repository between the cycle's start and the recheck.
- `Admission.Publish`: the widening report that leads the receipt, the identity and binding of the admitted lane, and the writing of the filtered candidate are left out; two schedulers running at once are not modelled, as the code makes no promise there.
- `AdmissionTheorems.RunKeepsI3`: assumes issue bodies are not edited between cycles; an edit is what the widening report is for.
- `DeadClaim.Provider.Sweep`: one repository; the effects of a successful adoption on the session ledger and of a PR that the provider closes when its branch is deleted are left out, and a receipt may be missing after a crash that follows the delete.
- `DeadClaim.Provider.Snapshot`: a ready claim without a pull request is one class; its further split by worktree (`pre_pr_claim_record`) is left out.
- `Handoff.Host.ExecuteHandoff`: the guards before the state change, the evidence fields of the returned receipt, and two simultaneous ceremonies on one session are left out; each log append is one step with the readback of the log around it, while reading the run and posting the rerun are two.
- `Repair.Session.RepairReview`: the guards that read the worktree, the PR and the failed run, and the control message that follows a receipt, are left out.
- `Backlog.BacklogCycle.Sync`: times are reals; an unreadable or foreign record reads as absent; the work inside `backlog_items` is a parameter.
- `Pagination.Snapshot`: a malformed response is one kind of failed round, and cursors are those of a provider whose pages do not change during the loop.
- `Heal.Checkout.HealHead`: ends at the head readback; the daemon lease and service restart after it are left out, the remote has the default fetch refspec, and the content of merge commits themselves is not preserved, as the code intends.
- `RouteBundle.ParseRouteBundle`: bytes are characters, so replacement decoding of invalid UTF-8 and non-ASCII decimal digits in a section header are not modelled.
- `VerifiedBatch.Repository.ConstructBatch`: the format of object ids, git's own failures and JSON canonicalisation are left out; merge-tree is a deterministic function that may fail.
- `Struggle.StruggleVerdict`: the normalisation of diagnostics into a signature is a parameter, and the results hold for every such reduction.
- `Dependencies.DeriveDependencies`: the patterns that find declaration lines and references in text are abstract; their references are well-formed values.
- `Normalization.IntakeNormalization`: the patterns for declaration lines and for claim, acceptance and evidence prose are abstract, and no repair line adds a match to them, as both begin at a line's start, every repair line begins a comment, and the diagnostics named in one hold no line break; token tables and the words of the diagnostics that are not spelled out are parameters; diagnostics never raised for the markers read here are left out.
- The write of the repaired body, its comment and the stale-snapshot check around it.
- Provider modes, lane health, verbs, feature and acceptance evidence, disposition receipts: each judges a single record against a fixed table.
- Workflow, policy and skill text checks, syntax-tree walks and metrics: they look for fixed strings and shapes in files.
- Subprocesses, HTTP, the filesystem and signals: replaced by parameters and atomic state changes.
- How long anything takes, access tokens, and a provider that shows a write to its readers late: a readback here sees every write made before it.
