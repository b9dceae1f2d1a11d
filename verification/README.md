# Verified models of the advising core

This project models the parts of the advising backend whose correctness is hardest to see from
their code, and proves what they promise. Each part keeps the shape of its source: methods with
loops, fields and ledgers where the program updates things step by step, functions and lemmas
where it computes. `dafny verify dfyconfig.toml` checks everything.

**Degree audit** (`audit_*.dfy`, `selections.dfy`). A rule tree (all of, choose k, credit
threshold) is matched against a student's attempts, each course being used at most once. An
independent notion of assignment (`AuditPlans.Secures`) says what it means that a rule can reach a
status. The lazy witness search is described by the events it gives off, ticks and results
(`WitnessTraces.Witnesses`), the exhaustive search by its list of options
(`OptionSearch.Options`). `AuditEngine.Engine` runs both as the program does, spending ticks from a
budget, and returns exactly `AuditRun.Run`. The results: the reported status is the best one any
assignment attains, the two searches agree, pruning and deduplication lose nothing, courses and
credits are conserved, more attempts never hurt, and the budget matters only when it is exceeded.
What is reported is also said without the searches and the status arithmetic: `AuditMeaning` gives,
over the fields of an attempt, what it counts as and what it is to fulfil a rule; `AuditRows` gives
what each row must say of its attempts and its children's rows; `AuditFillings` and `AuditOrder` give
the rows the lazy search comes upon and their order. So `AuditResults.StatusIsBest`, `RunIsTold` and
`RunTotals` state the reported status, rows and credit totals, `RunIsEarliest` which of the best
allocations is reported, and `OutstandingIsBest` that nothing beats the one reported where none
completes.

**Sequence planner** (`sequence_*.dfy`, `forest.dfy`). Requisite trees with their listed
alternatives and their evaluation, corequisite bundles by union-find with path halving, the
depth-first cycle search, the spreading of blocks, and the layering into stages. The depth-first
search need not mark every node on a cycle: `SearchTrees.MarkedIffReturns` says exactly which nodes
it marks, `CycleMarks.LoneCyclesAreMarked` a condition on the graph under which it marks them all,
and `SearchTrees.DetourMissesThree` shows one it does not. The whole still blocks exactly the least
set that must be blocked, stages every other course exactly once, never splits a bundle, puts
prerequisites into strictly earlier stages, and no schedule is shorter. Stage safety can fail: when
a requirement counts on a code for which only a selected course without a record stands
(`PlanTheorems.Stray`), as `PlanExamples.MissingRecordBreaksSafety` shows for prerequisites and for
corequisites. A requirement that counts on no such code (`PlanTheorems.StrayFree`) is always met in
time; where completed courses leave no choice open, only such a requirement is. Readiness itself is
not monotone in the selection, and `RequirementProofs.StaysReadyIffSingleChoices` says when it lasts.
`RequirementMeaning` says of a requirement, and `CourseMeaning` of a course's record, when it is ready,
what it depends on and what is reported against it, over their fields and without the evaluation.

**Cross-lists** (`crosslist.dfy`, `forest.dfy`). Union-find with full path compression over the
listed cross-list relations; the anchor of a course is the least code of its group.

**Requisite storage** (`catalog_*.dfy`). A tree is written as rows, one per node, and read back from
rows in any order. `CatalogReader.RestoreTree` answers with a tree exactly when the rows are those
written for that tree under some naming of its nodes and the tree is one that may be restored;
`CatalogFields` says both of these node by node and field by field.

**Transcript pages** (`research_pager.dfy`, `research_pager_json.dfy`). Pages of a saved conversation,
bounded in bytes and in turns, with a cursor inside a turn that was cut. Following cursors loses and
repeats nothing. The bytes are those of the page's JSON text in UTF-8 (`PageJson.PageBytesAreWritten`).

**Research register** (`research_register.dfy`, `research_store.dfy`, `research_meaning.dfy`). One
research run as a state machine whose steps are the locked transactions; checks made before the lock
are steps of their own, so a sequence of steps is an interleaving of any number of workers.
`ResearchMeaning` says what each step does over the fields of what is read, cited and stored.

**Inert markup** (`inert_html.dfy`, `inert_html_forest.dfy`, `inert_html_meaning.dfy`). The parser that
turns untrusted HTML events into allowlisted markup. `InertMeaning` says from the events alone which
elements are open after each of them and what comes out inside which elements; there is one properly
nested markup of which this is true, and it is the one rendered.

## Reading the model

* Course codes, condition texts and identifiers whose order matters are compared as strings in the
  program; in the planner, the cross-lists and the requisite trees a string is its place among the
  strings of the input, in their order (`Forest.Code`, `Requirements.Word`). Which texts are blank is
  a parameter of the requisite storage.
* Credits are real numbers, so rounding is not part of the model.
* Where the program reads clocks, databases or other modules, their answers are parameters: the
  chunks indexed now, the pinned sources, the size of a serialized state, which inline images are
  accepted, and what the raw requisite text of a course contains.
* A pinned source's revision, kind and metadata revision are one number in the research register;
  whether the programs of the scope are bound as they were is one flag.
* A path of child positions names a node of a requisite tree; node identifiers are any function of
  the path that is injective on the tree.
* `_aggregate` and the fallback search follow the code: an audit whose record cannot complete a
  rule is reported unresolved rather than outstanding whenever some allocation is unresolved.

## Model

| member | source | states |
|---|---|---|
| AuditRules.AggregateIsLeast | backend/app/advising/audit_engine.py:203-214 | over completed or unresolved members the aggregate is the worst of them |
| AuditRules.AggregateCompletion | backend/app/advising/audit_engine.py:203-214 | an aggregate reaches a completion rank exactly when nothing is missing, there is a member, and every member reaches it |
| AuditMeaning.AtLeastByPoints | backend/app/advising/audit_engine.py:23-26 | the point values order the letters as they are written out, from A+ down to F |
| AuditMeaning.StatusMeaning | backend/app/advising/audit_engine.py:182-201 | an attempt counts as satisfied exactly when it certainly passes and is verified, as in progress exactly when it is, as conditional exactly when it is planned or passes unverified, as unresolved exactly when the record leaves that undecided, and as outstanding exactly when it is finished with a letter below the minimum |
| AuditMeaning.CountsAtMeaning | backend/app/advising/audit_engine.py:372-379 | which attempts are good enough for each rank, over their fields |
| AuditMeaning.SecuresIsFulfils | backend/app/advising/audit_engine.py:319-404 | the assignments the searches are measured against are those that fulfil the rule, said over the fields of rules and attempts |
| AuditMeaning.MinimumGradeHolds | backend/app/advising/audit_engine.py:189-192 | a finished attempt that counts towards a completion under a minimum grade has a letter at or above it |
| WitnessProofs.PruneIsSafe | backend/app/advising/audit_engine.py:382-389 | neither the per-course maximum of credits nor the count of distinct courses ever discards a leaf that has a solution |
| WitnessProofs.BestBoundsCredits | backend/app/advising/audit_engine.py:383-387 | the credits of any choice of distinct courses stay within the sum of the best attempts per course |
| WitnessProofs.LeafSound | backend/app/advising/audit_engine.py:372-404 | every selection a leaf yields secures the leaf at the status reported, avoids used courses and is accounted for |
| WitnessProofs.LeafComplete | backend/app/advising/audit_engine.py:372-404 | for every way to secure a leaf with free courses the leaf yields a result that uses no more courses |
| WitnessProofs.WitnessSound | backend/app/advising/audit_engine.py:319-404 | every result of the lazy search is an assignment that secures its status, uses exactly the courses it says, none twice, and balances at every row |
| WitnessProofs.WitnessComplete | backend/app/advising/audit_engine.py:319-404 | for every assignment at a rank the lazy search yields a result at that rank that uses no courses outside it |
| OptionProofs.ScoreComparesTotals | backend/app/advising/audit_engine.py:104-113 | between candidates of one status and course set the score compares additive totals over the leaves |
| OptionProofs.DeduplicateKeepsBest | backend/app/advising/audit_engine.py:216-223 | deduplication invents nothing and keeps, for every candidate, one of the same courses and status that scores no less |
| OptionMeaning.OptionAccounted | backend/app/advising/audit_engine.py:225-317 | every option takes each course at most once, from the record, and every row's credits and attempts add up over its children |
| OptionMeaning.OptionSound | backend/app/advising/audit_engine.py:225-317 | every option of a completion rank is an assignment that secures the rank with exactly its courses |
| OptionMeaning.OptionComplete | backend/app/advising/audit_engine.py:225-317 | for every assignment at a completion rank there is an option of that rank that uses no courses outside it, after deduplication at every level |
| OptionMeaning.UnresolvedSound | backend/app/advising/audit_engine.py:225-317 | an unresolved option exists only where the rule tree and record can be unresolved |
| OptionMeaning.UnresolvedComplete | backend/app/advising/audit_engine.py:225-317 | and wherever they can be, there is such an option |
| OptionMeaning.Exchange | backend/app/advising/audit_engine.py:279-317 | replacing parts by better-scoring ones of the same courses and status: every option of the search without deduplication is matched by one of the search with it |
| OptionMeaning.MergedIsEnumerated | backend/app/advising/audit_engine.py:225-317 | the search with deduplication finds only what the search without it finds |
| OptionMeaning.MergeIsLossless | backend/app/advising/audit_engine.py:216-317 | deduplicating at every level keeps all reachable courses-and-status pairs and the best score of each |
| AuditRows.OptionsAreTold | backend/app/advising/audit_engine.py:225-317 | without deduplication the exhaustive search lists exactly the rows, all through the tree, whose status, attempts, credits and counts are what their attempts and children make them and which take no more than their rules ask for |
| AuditFillings.WitnessesAreFilled | backend/app/advising/audit_engine.py:319-404 | the lazy search finds exactly the rows that fill the rule at the rank asked for, with as many parts as it asks for, from courses not used yet |
| AuditOrder.CombinationsAscend | backend/app/advising/audit_engine.py:390-392 | combinations come with the earlier elements first |
| AuditOrder.WitnessesInOrder | backend/app/advising/audit_engine.py:319-404 | of two results the one found first takes fewer attempts or, of as many, the earlier ones of the record; at a container it engages the earlier children or, with the same ones, is first at the first child that differs |
| AuditOrder.EarlierAsymmetric | backend/app/advising/audit_engine.py:319-404 | and of two rows at most one comes first by this order |
| AuditRun.ConsumeMeaning | backend/app/advising/audit_engine.py:167-170 | taking the first result of a search under a budget returns one of its results, or says there is none, or stops one tick past the budget |
| AuditRun.BestIsMaximal | backend/app/advising/audit_engine.py:416 | the option chosen has the greatest score; what that is comes from `AuditResults.BestBeatsAll` |
| AuditRun.WitnessesDecideRank | backend/app/advising/audit_engine.py:319-404 | the lazy search has a result at a rank exactly when some course-disjoint assignment attains the rank |
| AuditRun.SearchesAgree | backend/app/advising/audit_engine.py:225-404 | the exhaustive search has an option of a completion rank exactly when the lazy search has a result of it |
| AuditRun.FallbackVerdict | backend/app/advising/audit_engine.py:415-416 | when nothing completes, the exhaustive fallback reports unresolved or outstanding and never a completion |
| AuditRun.RunIsExact | backend/app/advising/audit_engine.py:406-456 | a run within its budget reports the best status any assignment attains, over the fields in `AuditResults.StatusIsBest`; a run beyond it reports unresolved with nothing allocated |
| AuditRun.BudgetIrrelevant | backend/app/advising/audit_engine.py:167-170 | a run that ends within its budget is identical under every larger budget |
| AuditRun.RunIsMonotone | backend/app/advising/audit_engine.py:406-456 | adding valid attempts to the record never lowers the reported status |
| AuditRun.RunConserves | backend/app/advising/audit_engine.py:423-432 | no course is allocated twice, every row equals the sum over its children, and the credits are the completed plus the in-progress credits |
| AuditResults.StatusIsBest | backend/app/advising/audit_engine.py:406-456 | over the fields of rules and attempts: the reported status is the best any assignment gives; without one it is unresolved exactly when something is open to review, and outstanding otherwise |
| AuditResults.DoubtfulMeaning | backend/app/advising/audit_engine.py:225-317 | when some allocation runs into something that the rules and the record leave undecided, over the fields |
| AuditResults.RunIsTold | backend/app/advising/audit_engine.py:406-456 | every row of every report is what its own attempts and its children's rows make it, a row is listed exactly when it is in the tree, and the report's status, attempts and credits are those of the root |
| AuditResults.RunTotals | backend/app/advising/audit_engine.py:428-432 | completed, in-progress and unverified credits are each the sum over the attempts allocated |
| AuditResults.RunIsEarliest | backend/app/advising/audit_engine.py:406-414 | when the lazy search succeeds the report is the one row, earliest in the order, among all that fill the tree at the best rank |
| AuditResults.BestBeatsAll | backend/app/advising/audit_engine.py:104-113 | the exhaustive search's choice has the best status of all allocations, deduplicated or not, and of those with its status none has more satisfied leaves, then more attempts that satisfy, then more credits, then fewer courses, whatever courses it takes |
| AuditResults.OutstandingIsBest | backend/app/advising/audit_engine.py:415-416 | where nothing can be fulfilled the report is an allocation that no other of the tree beats in this sense |
| AuditResults.EnoughBudget | backend/app/advising/audit_engine.py:167-170 | every audit ends within some budget and within every larger one |
| AuditResults.CutOffBeyondBudget | backend/app/advising/audit_engine.py:167-170 | a run is cut off exactly when its count is one beyond the budget |
| AuditEngine.Engine.Solve | backend/app/advising/audit_engine.py:319-371 | the lazy search, stopped at its first result, gives the first result of the event sequence at the same cost |
| AuditEngine.Engine.SolveLeaf | backend/app/advising/audit_engine.py:372-404 | the same for a leaf, with its pruning and its selections in order of size |
| AuditEngine.Engine.SolveContainer | backend/app/advising/audit_engine.py:337-371 | the same for a container, choice by choice, with backtracking over its children |
| AuditEngine.Engine.Eligible | backend/app/advising/audit_engine.py:372-379 | the loop collects exactly the attempts a leaf may use at a rank |
| AuditEngine.Engine.CheckHopeless | backend/app/advising/audit_engine.py:381-389 | the dictionary of best credits decides the credit prune, the set of codes the count prune |
| AuditEngine.Engine.KeepBest | backend/app/advising/audit_engine.py:216-223 | the dictionary of best candidates, listed in insertion order, is the deduplicated list |
| AuditEngine.Engine.AllOptions | backend/app/advising/audit_engine.py:225-239 | the exhaustive search computes the options at exactly their cost in ticks, or stops past the budget |
| AuditEngine.Engine.AllLeafOptions | backend/app/advising/audit_engine.py:241-277 | the same for a leaf |
| AuditEngine.Engine.CombineAll | backend/app/advising/audit_engine.py:285-311 | the same for the recursive combination of child options |
| AuditEngine.Engine.FirstWitness | backend/app/advising/audit_engine.py:407-414 | ranks are tried from 5 down to 2 with one running count of ticks |
| AuditEngine.Engine.RunAudit | backend/app/advising/audit_engine.py:406-456 | the whole run returns the specified report for every budget; the rows on `AuditResults` say what it holds |
| Forest.RootsAreComponents | backend/app/atlas/records.py:126-141 | in the parent map two codes share a representative exactly when recorded links connect them |
| Forest.RootIsAnchor | backend/app/atlas/records.py:119-123 | the representative is the least code of its component |
| Forest.ShortcutRepresents | backend/app/atlas/records.py:133-134 | pointing a code at a later stop on its way changes no representative |
| Forest.JoinRepresents | backend/app/atlas/records.py:137-141 | hanging the greater representative under the smaller records exactly the new link |
| CrossLists.CodeGroups.Find | backend/app/atlas/records.py:128-135 | a lookup ends, returns the representative, admits a new code as its own group, and compresses without changing any group |
| CrossLists.CodeGroups.Union | backend/app/atlas/records.py:137-141 | a union records exactly one more link |
| CrossLists.CodeGroups.AddCourse | backend/app/atlas/records.py:143-146 | a course is entered with a link to each of its listed aliases |
| CrossLists.CanonicalCodeMap | backend/app/atlas/records.py:116-147 | every course, and nothing else, is mapped to the least code connected to it |
| CrossLists.SameCanonicalIffConnected | backend/app/atlas/records.py:116-147 | two courses get the same canonical code exactly when cross-list relations connect them |
| CrossLists.OrderIsIrrelevant | backend/app/atlas/records.py:116-147 | the mapping does not depend on the order of the import |
| RequirementProofs.ChoiceGroupsMeaning | backend/app/advising/sequence.py:114-155 | listed groups are at most 128, sorted and distinct; each makes the tree true; without truncation nothing else does |
| RequirementProofs.FlatChoicesMeaning | backend/app/advising/sequence.py:294-299 | the flat list of choices, when it is shown, is sorted and holds exactly the words any one of which makes the tree true |
| RequirementProofs.ReadyIffUnblocked | backend/app/advising/sequence.py:197-300 | a requirement is ready exactly when its evaluation lists no blockers |
| RequirementProofs.ReadyIsSound | backend/app/advising/sequence.py:197-300 | a ready requirement holds once its dependencies are counted beside completed courses and campus aliases |
| RequirementProofs.CompletedIsReady | backend/app/advising/sequence.py:303-316 | a requirement met by completed courses is ready and depends on nothing |
| RequirementProofs.DependenciesAreSelected | backend/app/advising/sequence.py:210-229 | a requirement depends on selected courses only |
| RequirementProofs.OneGroupIsAll | backend/app/advising/sequence.py:158-177 | when alternatives form one course group, the group holds all of them in order |
| RequirementProofs.StaysReadyIffSingleChoices | backend/app/advising/sequence.py:268-290 | when more is selected, a ready requirement stays ready exactly when every choice left open in it still comes down to one course |
| RequirementProofs.ConjunctiveStaysReady | backend/app/advising/sequence.py:233-260 | so a requirement without choices stays ready under every larger selection of recorded, current courses |
| RequirementProofs.SecondAlternativeBlocks | backend/app/advising/sequence.py:268-290 | over the same records, selecting the second alternative as well makes a ready choice unready |
| RequirementMeaning.ChoiceGroupsAreRoutes | backend/app/advising/sequence.py:114-155 | the groups listed are routes through the requirement, its words in the order they are named, in order, none twice and at most 128; unless cut short they are all of its routes |
| RequirementMeaning.FewRoutesAreListed | backend/app/advising/sequence.py:139-150 | a listing says it was cut short only where there are more routes than it has room for |
| RequirementMeaning.EvaluateMeaning | backend/app/advising/sequence.py:197-300 | over the tree and the context: exactly when a requirement is ready, exactly which selected courses it depends on, and exactly which blockers are reported against it |
| TreeSizes.FitsMeaning | backend/app/advising/sequence.py:68-96 | a tree is within the limits exactly when it has no more levels than allowed and nothing in it is an all-of or any-of of nothing |
| TreeSizes.PreorderNodes | backend/app/advising/sequence.py:68-96 | the walk goes through as many nodes as the tree has |
| RequirementLoops.Walk | backend/app/advising/sequence.py:68-96 | the bounded stack walk succeeds exactly on trees within depth and size and without empty groups, and returns their preorder |
| RequirementLoops.ListChoiceGroups | backend/app/advising/sequence.py:114-155 | the loops over children with their cap compute the specified groups and truncation flag |
| RequirementLoops.CombineUpToCap | backend/app/advising/sequence.py:139-150 | the product loop with its early exits adds left by left up to the cap |
| RequirementLoops.GroupAlternatives | backend/app/advising/sequence.py:158-177 | the grouping loop computes the specified groups |
| Bundles.Bundler.Find | backend/app/advising/sequence.py:456-460 | path halving ends, returns the representative and changes no bundle |
| Bundles.Bundler.Union | backend/app/advising/sequence.py:462-465 | a union records exactly one more corequisite link |
| Bundles.Bundler.Anchors | backend/app/advising/sequence.py:472-474 | every course is filed under the least course of its bundle |
| Cycles.CycleFinder.FollowOne | backend/app/advising/sequence.py:498-502 | a dependency is visited if new, and the stretch of the path it closes, no more and no less, is marked if it is on the path |
| Cycles.CycleFinder.Visit | backend/app/advising/sequence.py:495-504 | a visit finds, finishes and marks exactly what the search function does, and leaves the path as it was |
| Cycles.CycleFinder.SearchAll | backend/app/advising/sequence.py:506-508 | the search of the whole graph marks exactly the nodes the search function does |
| Cycles.BackEdgeCycle | backend/app/advising/sequence.py:501-502 | everything behind the target of a back edge lies on a cycle |
| Cycles.EveryCycleIsMarked | backend/app/advising/sequence.py:489-508 | every cycle contains a marked node |
| SearchTrees.SearchSettles | backend/app/advising/sequence.py:489-508 | the search finishes every node, puts every dependency before its dependent unless both are marked, and marks only nodes on cycles |
| SearchTrees.MarkedIffReturns | backend/app/advising/sequence.py:489-508 | a node is marked exactly when it or a node below it in the search tree depends on it or on a node above it |
| CycleMarks.LoneCyclesAreMarked | backend/app/advising/sequence.py:489-508 | where no node has two dependencies that lead back to it, exactly the nodes on cycles are marked, whatever the order of the search |
| SearchTrees.DetourMissesThree | backend/app/advising/sequence.py:489-508 | a graph with a node on a cycle that is not marked |
| Blocks.Ledger.BlockAll | backend/app/advising/sequence.py:520-534 | exactly the codes not blocked before are blocked and reported, with the reason given |
| Blocks.Ledger.Round | backend/app/advising/sequence.py:517-534 | a round blocks the rest of blocked bundles and what depends on one, reports each newly blocked course once, as a corequisite when its bundle held a blocked member and as a prerequisite otherwise, leaves bundles whole, and changes nothing only when both are done |
| Blocks.Ledger.Propagate | backend/app/advising/sequence.py:516-534 | the rounds end in the least set closed under bundles and dependents; each newly blocked course has exactly one blocker, a corequisite one exactly when its bundle held a blocked member before spreading began |
| Layers.SomeReady | backend/app/advising/sequence.py:543-546 | while anything is left something is ready, so the defensive exit is never taken |
| Layers.Layer | backend/app/advising/sequence.py:536-552 | every eligible bundle gets a stage, after all its dependencies and directly after one of them |
| Layers.StageIsEarliest | backend/app/advising/sequence.py:536-552 | no schedule that respects the dependencies reaches a bundle before its stage |
| Layers.LongestChain | backend/app/advising/sequence.py:536-552 | a bundle of stage k ends a dependency chain of k + 1 bundles |
| Layers.NoLongerChain | backend/app/advising/sequence.py:536-552 | and no chain beneath it is longer |
| SequencePlanner.HardIffBlocker | backend/app/advising/sequence.py:369-450 | a course is blocked on its own account exactly when it has a blocker of its own |
| SequencePlanner.AnchorsAreRoots | backend/app/advising/sequence.py:472-474 | a bundle is filed under one of its own members |
| PlannerSteps.Prepare | backend/app/advising/sequence.py:338-357 | the sets and alias tables are those of the input, whichever offering an alias is given to |
| PlannerSteps.AssessCourse | backend/app/advising/sequence.py:370-450 | the loop body assesses a course as specified; `CourseMeaning.AssessMeaning` spells out the specification |
| CourseMeaning.AssessMeaning | backend/app/advising/sequence.py:370-450 | over the fields of the record: exactly which reasons are reported against a course on record, exactly when it is blocked on its own account, and exactly which courses it depends on |
| CourseMeaning.ParsedMeaning | backend/app/advising/sequence.py:398-450 | in particular for a parsed record: a raw kind without its tree, a grade left unread, and what stands in the way of either tree |
| CourseMeaning.OwnMeaning | backend/app/advising/sequence.py:359-450 | the same for every selected course, unknown ones included |
| CourseMeaning.NeedsMeaning | backend/app/advising/sequence.py:433-434 | the prerequisites and corequisites a course is tied to are the selected courses its trees need |
| CourseMeaning.InputMeaning | backend/app/advising/sequence.py:338-357 | what counts as completed, what is selected and which course an alias stands for, over the input's lists |
| PlannerSteps.Gather | backend/app/advising/sequence.py:359-450 | exactly the unknown courses and those blocked on their own account are blocked, with exactly their blockers |
| PlannerSteps.Bundle | backend/app/advising/sequence.py:452-474 | the bundles are the components of the known corequisite links |
| PlannerSteps.LinkBundles | backend/app/advising/sequence.py:476-487 | the dependency graph holds exactly the prerequisites between different bundles; bundles that need themselves are blocked, and exactly the courses that need their own bundle are reported |
| PlannerSteps.BlockCycles | backend/app/advising/sequence.py:509-513 | every marked bundle is blocked whole, and exactly its members are reported, each with the bundle in order |
| PlannerSteps.ListStages | backend/app/advising/sequence.py:544-549 | each stage lists exactly the members of its bundles, in order |
| PlannerSteps.ListBlockers | backend/app/advising/sequence.py:554 | the blockers are listed by course, reason and alternatives, none twice |
| Planning.CyclesAreBlocked | backend/app/advising/sequence.py:489-534 | a set closed under dependents that holds the marks and the self-dependent bundles holds every bundle on any cycle |
| Planning.BlockedIsLeast | backend/app/advising/sequence.py:489-534 | what ends up blocked is the least closed set over the courses' own blocks and all nodes on cycles, whichever of those nodes are marked |
| Planning.BlockersAreOk | backend/app/advising/sequence.py:509-534 | reported are all blockers of the courses' own, all those of marked or self-dependent bundles, exactly one for each course blocked by others, naming its bundle exactly when a member of it is blocked on its own account, and nothing else |
| Planning.FindBlocked | backend/app/advising/sequence.py:476-534 | linking, cycle search and spreading together block exactly that set and report exactly those blockers |
| Planning.PlanSequence | backend/app/advising/sequence.py:319-555 | more than 100 courses on record, 50 selected or 100 completed are refused; every other input gets a plan with all promised properties |
| PlanTheorems.StagedExactlyOnce | backend/app/advising/sequence.py:536-555 | a course is staged exactly when it is known and its bundle is not blocked, and then in exactly one stage |
| PlanTheorems.StagedIsSound | backend/app/advising/sequence.py:369-450 | a staged course has a record and nothing against it, which is spelled out by `CourseMeaning.StagedIsTakeable` |
| CourseMeaning.StagedIsTakeable | backend/app/advising/sequence.py:369-450 | a staged course is on record, current, under its own code and not unparsed; without requisites it has no trees and no raw segments; parsed, each raw kind has its tree, no grade is unread, and both trees can be evaluated and are ready |
| CourseMeaning.StagedIsSelected | backend/app/advising/sequence.py:338-344 | nothing completed is staged, nor anything that was not selected |
| CourseMeaning.ReportedReasons | backend/app/advising/sequence.py:359-554 | a plan reports exactly the reasons of its selected courses, the cycles, and one blocker for each course blocked by others |
| CourseMeaning.ReasonsAreAlphabetical | backend/app/advising/sequence.py:554 | the reasons of one course are listed in the alphabetical order of their names |
| PlanTheorems.CompleteIffAllStaged | backend/app/advising/sequence.py:554-555 | a plan is complete exactly when its stages hold the whole selection |
| PlanTheorems.BundlesStayWhole | backend/app/advising/sequence.py:452-474 | courses tied by corequisites share a stage or none has one |
| PlanTheorems.PrerequisitesComeFirst | backend/app/advising/sequence.py:476-487 | the known courses that a staged course depends on are in strictly earlier stages |
| PlanTheorems.StrayFreeIffRecorded | backend/app/advising/sequence.py:216-229 | a ready requirement counts on no stray code exactly when everything it depends on is on record |
| PlanTheorems.StageSafety | backend/app/advising/sequence.py:364-552 | a requirement that counts on no stray code holds: prerequisites on completed courses and earlier stages, corequisites with the course's own stage added |
| PlanTheorems.StageSafetyWhenRecorded | backend/app/advising/sequence.py:364-552 | in particular whenever every selected course is on record |
| PlanTheorems.SafetyIffStrayFree | backend/app/advising/sequence.py:216-229 | where completed courses leave no choice open, prerequisites and corequisites each hold in time exactly when they count on no stray code |
| PlanExamples.MissingRecordBreaksSafety | backend/app/advising/sequence.py:220-224 | an input on which a staged course's requirement is never met, once as a prerequisite and once as a corequisite |
| PlanExamples.OpenChoiceMetByChance | backend/app/advising/sequence.py:268-290 | an input on which a requirement with an open choice counts on a stray code and is met all the same |
| PlanTheorems.StagesAreEarliest | backend/app/advising/sequence.py:536-552 | no schedule of the same courses takes a course before its stage |
| PlanTheorems.FewestStages | backend/app/advising/sequence.py:536-552 | no schedule has fewer stages |
| PlanTheorems.StagesSchedule | backend/app/advising/sequence.py:536-552 | and the stages are themselves such a schedule |
| PlanUniqueness.SameLayers | backend/app/advising/sequence.py:536-552 | a graph has one layering |
| PlanUniqueness.PlanIsDetermined | backend/app/advising/sequence.py:319-555 | the promises determine the stages, their order within, the blockers, each reported once, and completeness |
| CatalogTrees.EncodesUnique | backend/app/advising/catalog.py:77-105 | linked rows spell out at most one tree |
| CatalogProofs.EmitHas | backend/app/atlas/course_writer.py:25-53 | every node of a tree has its row, with its path's identifier, its parent and its position |
| CatalogProofs.EmitOnly | backend/app/atlas/course_writer.py:25-53 | and no other rows are written |
| CatalogProofs.EmitDistinct | backend/app/atlas/course_writer.py:21-27 | node identifiers injective in the path give every row its own |
| CatalogFields.FlattensMeaning | backend/app/atlas/course_writer.py:25-53 | rows are those written for a tree exactly when every node has one row, with its type, code or text, its own identifier, its parent's and its place, and there are no others |
| CatalogFields.RestorableMeaning | backend/app/advising/catalog.py:77-105 | a tree may be restored exactly when it has at most 64 levels and 2000 nodes, groups of two or more, and no blank leaf |
| CatalogProofs.WrittenPasses | backend/app/advising/catalog.py:47-73 | rows written for a tree, in any order, pass every check made before they are read |
| CatalogMeaning.WrittenIsSpelled | backend/app/advising/catalog.py:59-105 | such rows spell out their tree, all of them and none twice |
| CatalogMeaning.SpelledIsWritten | backend/app/advising/catalog.py:77-113 | checked rows that spell out a tree completely are that tree written out under some naming |
| CatalogRestore.NodeStore.InsertNodes | backend/app/atlas/course_writer.py:25-53 | the recursive walk appends exactly the rows of the tree |
| CatalogRestore.GroupByParent | backend/app/advising/catalog.py:59-69 | the children table holds each parent's rows; negative positions and unknown parents are rejected |
| CatalogRestore.SortChildren | backend/app/advising/catalog.py:70-73 | sorting yields the children in order, and is rejected exactly when some positions do not count up from 0 |
| CatalogReader.TreeBuilder.Build | backend/app/advising/catalog.py:77-105 | reading finds the one tree within depth, with groups of two or more and no blank leaf, that the rows spell out without repeating a node, or there is none |
| CatalogReader.RestoreTree | backend/app/advising/catalog.py:45-113 | rows are accepted as a tree exactly when they are that tree's rows under some naming and the tree may be restored |
| CatalogReader.FlattensUnique | backend/app/advising/catalog.py:45-113 | rows are those of at most one tree |
| CatalogReader.RoundTrip | backend/app/advising/catalog.py:45-113 | stored rows come back, in any order, as the same tree, or are rejected when the tree exceeds the limits |
| TranscriptPager.SliceGrows | backend/app/advising/research_workspace.py:115-118 | a longer slice is never smaller in bytes, although its flag becomes shorter when the turn is complete |
| PageJson.PageBytesAreWritten | backend/app/util/digest.py:15-20 | the size of a page is the number of bytes of its JSON text: keys in order, no spaces, quotes, backslashes and control characters escaped, in UTF-8 |
| TranscriptPager.LongestSlice | backend/app/advising/research_workspace.py:125-131 | the binary search finds the longest prefix that fits |
| TranscriptPager.HowMuch | backend/app/advising/research_workspace.py:111-134 | as much of a turn is taken as fits, and nothing only when the page is full or not a single character fits; an empty page always has room |
| TranscriptPager.ReadPage | backend/app/advising/research_workspace.py:99-140 | a page has at most 6 entries and 6000 bytes, reads on exactly from the cursor to the next one, stops only when no more fits, and advances |
| TranscriptPager.ReadingIsLossless | backend/app/advising/research_workspace.py:108-140 | the pages got by following cursors, put together, are exactly what was unread, characters, places and ends of turns |
| TranscriptPager.ReadingRecoversText | backend/app/advising/research_workspace.py:99-140 | from the start they recover the exact text of every turn |
| TranscriptPager.ReadAll | backend/app/advising/research_workspace.py:99-140 | following cursors from any place ends in a whole reading, whose pages together are exactly what was unread |
| ResearchRegister.AlwaysGood | backend/app/advising/research_store.py:194-425 | over every interleaving identifiers are e1 to en, one per text, steps name only existing ones, the bounds hold, and saved and pending state cites only issued evidence |
| ResearchRegister.StartedGood | backend/app/advising/research_store.py:139-173 | and all of that from a newly started run on |
| ResearchRegister.NeverReassigned | backend/app/advising/research_store.py:283-307 | a text keeps its identifier whatever happens later |
| ResearchRegister.AcquireAnswers | backend/app/advising/research_store.py:270-325 | a step registers exactly its reads beside what was there and answers each with its identifier, none twice |
| ResearchRegister.IssuedMeaning | backend/app/advising/research_store.py:290-310 | issued identifiers exist, are distinct, and answer every read |
| ResearchRegister.ReplayAddsNothing | backend/app/advising/research_store.py:274-278 | a repeated tool execution gets the same step and identifiers at any later time and changes nothing |
| ResearchRegister.EndedIsFrozen | backend/app/advising/research_store.py:194-217 | an ended run keeps its status, evidence, steps, state, revision and decisions |
| ResearchRegister.OneWriterPerRevision | backend/app/advising/research_store.py:219-248 | of the writers that read one revision at most one succeeds |
| ResearchRegister.BackedGrows | backend/app/advising/research_store.py:222-248 | what was checked before the lock stays backed, because the register only grows |
| ResearchMeaning.RegisterMeaning | backend/app/advising/research_store.py:290-310 | a step registers the new texts among its reads, each once, in the order they are first read, numbered on from the register, with their own bytes and the step's number |
| ResearchMeaning.IssuedInOrder | backend/app/advising/research_store.py:290-310 | and answers with the identifiers of its texts, each once, in the order they are first read |
| ResearchMeaning.AcquireOutcome | backend/app/advising/research_store.py:270-305 | exactly when an acquisition takes a new step, is answered from an earlier one, or is refused as closed or beyond 100 items or 256000 bytes; without a new step nothing changes |
| ResearchMeaning.AcquireEffect | backend/app/advising/research_store.py:280-325 | what a new step adds to the register and the steps, and that it changes nothing else |
| ResearchMeaning.CitesMeaning | backend/app/advising/research_store.py:222-228 | a state cites only issued evidence exactly when every identifier in its active list, its criteria, its candidates and its plan and notes items is on the register |
| ResearchMeaning.CheckStateMeaning | backend/app/advising/research_store.py:219-240 | a state passes the check exactly when that holds, the plan's and the notes' identifiers are unique and it has at most 8000 bytes |
| ResearchMeaning.SavedCitesEvidence | backend/app/advising/research_store.py:219-248 | after every interleaving all of that holds of the saved state |
| ResearchMeaning.SavedWasChecked | backend/app/advising/research_store.py:219-248 | a saved state was checked, against the evidence of that time, by the worker that later wrote it |
| ResearchMeaning.DecisionsCiteEvidence | backend/app/advising/research_store.py:402-425 | after every interleaving a recorded decision cites only identifiers it was supplied, or registered evidence |
| ResearchMeaning.FirstEndingStays | backend/app/advising/research_store.py:201-215 | over every interleaving a run ends with the first ending asked for, and with no other |
| ResearchStore.OverLimit | backend/app/advising/research_store.py:299-305 | exceeding the bounds part-way is exceeding them in the end: the whole step is refused and nothing kept |
| ResearchStore.RunStore.IssueIds | backend/app/advising/research_store.py:280-310 | the loop with its counters and key table issues the specified identifiers or stops past the bounds |
| ResearchStore.RunStore.VerifyReads | backend/app/advising/research_store.py:327-359 | reads pass exactly when each is pinned, its source unchanged and its text the indexed one; a changed scope is reported exactly when all are pinned and some source has moved on, with exactly those sources; otherwise exactly the offending reads are listed, in order |
| ResearchStore.RunStore.AcquireReads | backend/app/advising/research_store.py:270-325 | one transaction takes the specified step, on success and on every error |
| ResearchStore.RunStore.FinishRun | backend/app/advising/research_store.py:201-215 | a run ends once; the same ending again is nothing, any other is refused |
| ResearchStore.RunStore.CheckNewState | backend/app/advising/research_store.py:219-240 | a state is checked against the evidence issued by then, as `ResearchMeaning.CheckStateMeaning` spells out |
| ResearchStore.RunStore.WriteNewState | backend/app/advising/research_store.py:241-248 | the write is guarded by status and revision, however much happened since the check |
| ResearchStore.RunStore.CheckNewDecision | backend/app/advising/research_store.py:402-414 | a decision is checked against the register or the identifiers supplied |
| ResearchStore.RunStore.WriteNewDecision | backend/app/advising/research_store.py:415-425 | a checked decision is stored while the run is running and its whole scope is as it was pinned, and refused otherwise |
| InertHtml.InertParser.HandleStartTag | backend/app/artifacts/inert_html.py:44-75 | a start tag opens, drops or is passed over as specified, and counts against the limit |
| InertHtml.InertParser.HandleEndTag | backend/app/artifacts/inert_html.py:81-91 | an end tag ends dropping, or closes out to its element, or is passed over; `InertMeaning.FeedMeaning` says which elements that leaves open |
| InertHtml.InertParser.HandleStartEndTag | backend/app/artifacts/inert_html.py:77-79 | a self-closing tag is a start and an end |
| InertHtml.InertParser.FinishDocument | backend/app/artifacts/inert_html.py:97-101 | what is still open is closed, innermost first |
| InertHtml.TakeGood | backend/app/artifacts/inert_html.py:44-95 | every event keeps the output nested and inert and its text exactly the visible text |
| InertHtml.RenderIsInert | backend/app/artifacts/inert_html.py:36-107 | rendered markup is properly nested, has allowed elements and kept attributes only, and its text is exactly the data outside dropped elements, in order |
| InertHtml.ProgramKeepsItsLists | backend/app/artifacts/inert_html.py:12-75 | under the program's own lists only allowed elements come out, with only listed attributes, aria- ones and sources of accepted images |
| InertHtml.RenderIsIdempotent | backend/app/artifacts/inert_html.py:36-107 | rendered markup, parsed and rendered again, comes out the same |
| InertHtml.FailsIffTooMany | backend/app/artifacts/inert_html.py:45-47 | rendering fails exactly beyond 20000 elements |
| InertMeaning.CleanIsKept | backend/app/artifacts/inert_html.py:57-67 | an attribute is copied exactly when it is the first of its name with a value and the rules keep it |
| InertMeaning.FeedMeaning | backend/app/artifacts/inert_html.py:44-95 | after every event the elements open in the output are those open by the events alone, where an end tag of an open element cuts them off just before the innermost one of its name; every element and text so far stands inside exactly those |
| InertMeaning.RenderMeaning | backend/app/artifacts/inert_html.py:36-107 | rendered markup holds exactly the elements, with their copied attributes, and the texts that the events bring out, in order, each inside exactly the elements then open |
| InertMeaning.PlacesDetermine | backend/app/artifacts/inert_html.py:81-101 | properly nested markup is determined by its elements and texts and where they stand |
| InertMeaning.RenderIsDetermined | backend/app/artifacts/inert_html.py:36-107 | so there is one rendering of the events |
| InertHtml.CleanAttrsAgain | backend/app/artifacts/inert_html.py:59-70 | attributes cleaned once are not changed by cleaning again |
| InertHtml.RenderInertMarkup | backend/app/artifacts/inert_html.py:104-107 | feeding the events one by one and finishing gives the specified markup, which `InertMeaning.RenderMeaning` determines |
| InertForest.NestedIffForest | backend/app/artifacts/inert_html.py:81-101 | markup is properly nested exactly when it is a forest of elements written out |
| InertForest.RenderIsForest | backend/app/artifacts/inert_html.py:36-107 | rendered markup is such a forest |

## Left out

- Titles, reasons, summaries, blocker and assumption texts of the audit, and its counters per status: display only.
- AuditResults.OutstandingIsBest: which of several allocations that are equally good in every respect is reported follows from the order of the deduplicated options, and is not characterised.
- RequirementMeaning.ChoiceGroupsAreRoutes: which 128 of more routes are listed is fixed by the loops (`RequirementLoops.ListChoiceGroups`) and not characterised otherwise.
- AuditEngine.Engine.RunAudit: the count of search states is that of the events and costs written out for the searches; there is no closed form for it.
- Reading raw attempts (`_normalize`): parsing, and the sort that orders attempts; the audit takes a valid record in any order.
- The limits of 256 rule nodes and depth 32, and the uniqueness of rule identifiers: checked before the audit and not needed by it.
- PlannerSteps.AssessCourse: of a course's raw requisite text the model keeps which required kinds it has and whether it names a grade; reading them off the text is not modelled.
- RequirementLoops.Walk: trees are values, so the check for a node object met twice, and the checks of malformed leaves, have nothing to apply to.
- Planning.PlanSequence: the order between blockers that agree in course, reason and alternatives is left open, as it is in the program.
- PlanTheorems.SafetyIffStrayFree: with a choice left open, a requirement that counts on a stray code may still be met by an alternative it does not count on (`PlanExamples.OpenChoiceMetByChance`), so there the condition is sufficient only.
- CatalogReader.RestoreTree: rows are typed; a position that is a truth value, or an identifier of the wrong type, cannot be expressed.
- Text helpers of the catalog (merging overlapping chunks, finding cited requirement phrases): not part of this model.
- TranscriptPager.ReadPage: matching turns against the query is not modelled; a transcript is the list of the turns that match, the same for every page of a reading, and empty for a query of punctuation only.
- ResearchStore.RunStore.CheckNewDecision: the further structural checks of a decision are one flag.
- Run creation, workspaces, share locks, digests and stored snapshots of the register: each step is one atomic transaction on one run.
- InertHtml.RenderInertMarkup: starts from parsed events; tokenizing HTML and escaping text are not modelled, nor is the check of inline images.
- SQL, HTTP, storage, retrieval, document generation, scrapers and the frontend.
