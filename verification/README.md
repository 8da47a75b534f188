# Questspace backend: verified model

A Dafny model of the game logic of the Questspace backend, with proofs. `dafny verify dfyconfig.toml` checks
everything. It covers

- **reordering** (`Components`, `Permutations`, `Slots`, `Items`, `Placement`, `Stages`, `BulkUpdater`, `BulkRuns`,
  `Replace`): union-find with path halving, the split of index moves into chains and cycles, the in-place bulk
  updater that task groups and tasks share, and what it promises: items end sorted by target index and numbered
  0 to n - 1, or nothing changes. The two updaters have the same code up to names; the model has one, generic in
  the item's body, with the checks made while a row is stored as the `valid` part of a request;
- **tasks and their groups** (`Penalties`, `Tasks`, `GroupTasks`): the penalty check, and what runs of requests keep
  true of the groups of a quest together with the tasks inside them;
- **the linear clock** (`LinearClock`, `Polling`, `InOrder`, `OutOfOrder`): the reading of stored records and the
  two loops that decide which groups a team sees and when each opens and closes, shown equal to one walk; when
  polls leave the records a linear quest means, and when it matters at which times a team polled;
- **the ledger** (`Ledger`, `Game`, `GameRules`): answers, hints, penalties and group records over every run of
  requests, the bounds on scores, and what each request does or refuses in terms of the stored rows alone;
- **the result lists** (`Results`, `Ranking`, `Standings`, `Unsortable`): the admin table and the leaderboard,
  their agreement and order;
- **teams** (`Teams`, `TeamService`, `TeamRules`): membership, captains and acceptance;
- **invite paths** (`Base52`) and **page identifiers** (`Pages`).

Each stateful method is proved equal to a specification function of the old state; the theorems are about those
functions and about every run of them. What each request accepts, refuses and changes is also stated without them,
by comparing the rows before and after (`BulkRuns`, `GameRules`, `TeamRules`).

Conventions. Every request is one transaction: an error leaves the store unchanged. A panic (an index outside the
array, a dereferenced missing record) counts as an error too, because src/pkg/middleware/recovery.go:12-25 recovers
it and the handlers' deferred rollbacks run (src/internal/handlers/play/play.go:244-248). Identifiers are natural
numbers, new ones drawn from a counter; times are integers; an answer's comparison with the stored ones arrives as
the flag `correct`. Integers are unbounded except for page timestamps.

## What the code does not do

Properties one would expect but that fail are stated with an input and the exact condition:

- The penalty check runs on the row an update returns, whose hints are empty unless they were resent, so lowering
  a reward can leave stored hints worth more than it (`LoweredRewardEscapesTheCheck`). An update is safe exactly
  when it resends the hints or names no positive reward (`UpdateIsSafeIff`).
- A sticky group never gets a record, so the correct answer that would complete it panics and is rolled back. A
  first correct answer is refused exactly then, or when it comes to a closed group of a linear quest
  (`CorrectAnswerRefusedIff`); the only task of a sticky group cannot be solved (`StickyTaskCannotBeSolved`).
- New captains are not checked to be members: a captain can hand the team to an outsider
  (`OutsiderBecomesCaptain`). A request keeps the team invariant exactly when they are (`RequestKeepsIff`).
- Reading group records stores the address of one shared variable as every closing time, so every recorded group
  is seen to close when the last listed one did. A poll leaves the records a linear quest means exactly when the
  first group reached with two different opening times is not limited, or has not run out from the earlier of
  them (`SharingIsHarmlessIff`). That always holds while the recorded groups come first, which polls keep
  (`PollingIsPathIndependent`), and so does every run whose answers close only the first open timed group
  (`InOrderNeverShows`). But answers look a group up alone and can leave a gap (`AnswersLeaveAGap`); then a poll
  opens a group at the wrong time (`SharingShows`).
- With such a gap it also matters at which times a team polled (`SkippedPollShows`). A run of polls leaves the
  records of its last poll alone exactly when none of its times jumps (`PathIndependentIff`). A time jumps if the
  walk over the records stored before the run halts there at a limited group whose predecessor has just run out,
  at another time than the last row's closing, while a group listed after that predecessor has a record; and if
  the group, counted from the earlier of those two times, has run out by the end of the run.
- The ranking comparator puts an unanswered team before itself, so it is a strict weak order exactly when every
  team has answered (`StrictWeakIffAllAnswered`). Different rows it orders exactly when no team without an answer
  is caught by name between two answered teams on its score of which the earlier in name answered no later
  (`OrdersIffNoneBetween`). Otherwise no sorted list need exist (`CircleCannotBeSorted`), as after the run of
  `NoSortedLeaderboard`.

## Model

| member | source | states |
|---|---|---|
| Components.Merge | src/internal/questspace/permutations/permutations.go:104-110 | path halving terminates, returns the root, and changes no index's root |
| Components.RootsAreUnique | src/internal/questspace/permutations/permutations.go:104-110 | the parent array alone determines every root, so "the root" is well defined whatever ranks witness the forest |
| Components.UnionForest | src/internal/questspace/permutations/permutations.go:87-89 | linking one root under another is again a forest in which exactly the members of the first move to the second |
| Components.UnionLinks | src/internal/questspace/permutations/permutations.go:87-89 | joining the two roots of an edge keeps "same root" equal to "linked by the undirected closure" |
| Components.Flatten | src/internal/questspace/permutations/permutations.go:90-96 | afterwards every index points straight at its root |
| Components.CollectBuckets | src/internal/questspace/permutations/permutations.go:97-101 | every index is in the bucket of its root, buckets are ascending and hold nothing else |
| Components.FindConnectedComponents | src/internal/questspace/permutations/permutations.go:82-102 | the buckets partition 0..n-1, and two indices share one exactly when the edges link them |
| Permutations.ChainFrom | src/internal/questspace/permutations/permutations.go:64-79 | in a component where something is not entered, following the moves from it visits everything once and stops at an index nothing leaves |
| Permutations.NoSink | src/internal/questspace/permutations/permutations.go:53-62 | refutes a component in which everything is entered but something is not left: the cycle walk never dereferences nil |
| Permutations.CountInDegrees | src/internal/questspace/permutations/permutations.go:39-43 | the counters say exactly which indices some move enters |
| Permutations.WalkCycle | src/internal/questspace/permutations/permutations.go:53-62 | the walk lists the whole component once and closes |
| Permutations.SortChain | src/internal/questspace/permutations/permutations.go:64-79 | Kahn's loop lists the whole component in move order |
| Permutations.CheckCycleOrTopoSort | src/internal/questspace/permutations/permutations.go:38-80 | a component is a chain when something in it is not entered and a cycle otherwise, and is listed completely |
| Permutations.FindTreesAndCycles | src/internal/questspace/permutations/permutations.go:17-36 | node-disjoint chains and cycles that together cover exactly the touched indices, for any visiting order |
| Permutations.EveryEdgeExactlyOnce | src/internal/questspace/permutations/permutations.go:17-36 | each move is the step at exactly one place of exactly one chain or cycle |
| Permutations.EveryStepIsAnEdge | src/internal/questspace/permutations/permutations.go:17-36 | each step of a chain or cycle is a requested move |
| Slots.ShiftChain | src/internal/questspace/taskgroups/updater.go:133-137 | every item of the chain moves one element on, the first index is freed, nothing else changes |
| Slots.RotateCycle | src/internal/questspace/taskgroups/updater.go:143-149 | every item of the cycle moves one element on, the last to the first, nothing else changes |
| Slots.ShiftChains | src/internal/questspace/taskgroups/updater.go:128-141 | succeeds exactly when every chain's last index is free, and then all chains are shifted |
| Slots.RotateCycles | src/internal/questspace/tasks/updater.go:121-127 | all cycles are rotated and nothing outside them changes |
| Slots.Reorder | src/internal/questspace/tasks/updater.go:95-130 | every item moves along its own edge and the rest stays; refused exactly when a chain ends at a taken index |
| Slots.MovedIsUnique | src/internal/questspace/taskgroups/updater.go:127-149 | the moves alone fix the resulting array, so the map's iteration order cannot show in it |
| BulkUpdater.Store.GetAll | src/internal/pgdb/pgclient/task_group.go:104-148 | rows listed by order index; over dense rows position and index agree |
| BulkUpdater.Pack.constructor | src/internal/questspace/taskgroups/updater.go:46-57 | on entry the ID map holds the stored rows and each sits in the array at its stored index |
| BulkUpdater.Updater.Unlink | src/internal/questspace/taskgroups/updater.go:60-73 | succeeds exactly when all identifiers are known and different; the survivors keep their slots |
| BulkUpdater.Updater.DeleteItems | src/internal/questspace/tasks/updater.go:42-63 | on success the store and the pack hold exactly the survivors |
| BulkUpdater.Updater.Grow | src/internal/questspace/taskgroups/updater.go:231-235 | the array is longer and its new slots are free |
| BulkUpdater.Updater.GetOrderChanges | src/internal/questspace/taskgroups/updater.go:87-115 | refuses exactly when an item is unknown or two updates move items to one index, whatever the request repeats; otherwise the moves are those of exactly the updates that change an index, in order |
| BulkUpdater.Updater.ReorderUpdated | src/internal/questspace/taskgroups/updater.go:117-152 | for moves that take no item twice, as the split demands (permutations.go:14-16): succeeds exactly when the items are known, no two end at one index and none leaves the array; then each sits where it was moved |
| Stages.MovedToIsUpdated | src/internal/questspace/taskgroups/updater.go:87-115 | when no item is named twice, the moves lead exactly where the updates store the items |
| BulkUpdater.Updater.UpdateItems | src/internal/questspace/tasks/updater.go:143-162 | each named row is stored as edited, repeatedly if named repeatedly; succeeds exactly when every check on a returned row passes; the array still mirrors the rows if none is named twice |
| BulkUpdater.Updater.CreateItems | src/internal/questspace/taskgroups/updater.go:181-218 | succeeds exactly when every place was free and inside the array and the checks pass; then exactly the new rows are added, and the array still mirrors the rows if no place is named twice |
| BulkUpdater.Updater.ClapPack | src/internal/questspace/taskgroups/updater.go:289-317 | every row ends at its rank, packed at the front; exactly the rows whose index changed are written |
| Stages.StagedSize | src/internal/questspace/taskgroups/updater.go:231-231 | the computed new length is the number of remaining items |
| BulkUpdater.Updater.Cut | src/internal/questspace/taskgroups/updater.go:248-248 | cutting to that length drops only free slots, and every slot left holds the row of its index |
| Stages.StagesDecide | src/internal/questspace/taskgroups/updater.go:220-247 | for requests that name each item and each place once, the conditions the stages test one after another are together the acceptance condition |
| BulkUpdater.Updater.BulkUpdate | src/internal/questspace/tasks/updater.go:198-236 | among requests that name each item and each place once, accepts exactly the acceptable ones, stores the specified rows or none, keeps indices dense, and returns the rows in order |
| Items.CompactedSortsByTarget | src/internal/questspace/taskgroups/updater.go:289-317 | ranks are exactly 0..n-1 and order the items as their indices did |
| Items.DenseRank | src/internal/questspace/taskgroups/updater.go:289-317 | where indices are dense already every index is its own rank, so nothing is renumbered |
| BulkRuns.BulkSortsByTarget | src/internal/questspace/taskgroups/updater.go:220-255 | the final order of survivors and creates is that of their targets: requested index if named, stored one otherwise |
| BulkRuns.BulkKeepsBodies | src/internal/questspace/taskgroups/updater.go:154-218 | contents follow the items: untouched, edited once by their own update, or as created |
| BulkRuns.AcceptedIff | src/internal/questspace/taskgroups/updater.go:220-247 | among requests that name each item and each place once, exactly those are accepted that delete stored items once each, update only remaining ones, pass all checks, and want every remaining item at a different place below the old count or the new one |
| BulkRuns.RefusedIffTwoShareATarget | src/internal/questspace/taskgroups/updater.go:87-141 | otherwise valid requests, with every target below the old count or the new one, are refused exactly when two remaining items share a target |
| BulkRuns.AppendingIsAccepted | src/internal/questspace/taskgroups/updater.go:228-247 | creates at the end of dense rows are accepted exactly when their checks pass; the old rows stay as they were and the new ones come last, in order |
| BulkRuns.MoveLandsOnTargets | src/internal/questspace/taskgroups/updater.go:117-152 | over dense rows an accepted pure move puts every item exactly at its requested index |
| BulkRuns.MovingBackUndoes | src/internal/questspace/taskgroups/updater.go:117-152 | the move back to the old indices is accepted and restores the rows exactly |
| BulkRuns.EveryRunIsDense | src/internal/questspace/taskgroups/updater.go:220-255 | from an empty quest, over every run of requests that name each item and each place to create at once, the order indices are exactly 0..n-1 |
| Replace.CreatingInOrder | src/internal/questspace/taskgroups/create.go:46-80 | creating at 0, 1, ... into an empty quest never collides and keeps the list order |
| Replace.CreateAll | src/internal/questspace/taskgroups/create.go:29-88 | the stored rows become exactly the given items in list order, or stay as they were |
| Penalties.Truncated | src/pkg/storage/models.go:304-309 | the quotient rounds towards zero on either side |
| Penalties.PenaltyIsItsShare | src/pkg/storage/models.go:304-309 | a nonnegative percentage costs its share of the reward rounded down to whole points; a penalty in points costs them whatever the reward |
| Penalties.OneMoreHintCosts | src/internal/questspace/game/game.go:548-552 | each hint taken costs its own points once, on top of the others; no hint taken costs nothing |
| Penalties.ValidatePenalties | src/internal/questspace/tasks/updater.go:132-141 | accepts exactly when all hints together cost no more than the reward |
| Penalties.FitsIffNothingCostsMore | src/internal/questspace/tasks/updater.go:132-141 | for nonnegative penalties the check accepts exactly when no choice of hints can cost more than the reward |
| Penalties.TakingMoreCostsMore | src/pkg/storage/models.go:304-309 | with nonnegative penalties, taking more hints never costs fewer points |
| Penalties.ScoreStaysInRange | src/internal/questspace/game/game.go:548-553 | for a pair the check accepts, any set of taken hints leaves a score in [0, reward], and a further hint never raises it |
| Tasks.LoweredRewardEscapesTheCheck | src/internal/questspace/tasks/updater.go:143-157 | a fitting task, an accepted update, and a stored pair that no longer fits |
| Tasks.UpdateIsSafeIff | src/internal/questspace/tasks/updater.go:143-157 | an update keeps every fitting task fitting exactly when it resends the hints or names no positive reward |
| Tasks.TaskChecksPassIff | src/internal/questspace/tasks/updater.go:143-196 | the checks pass exactly when every update names a remaining task and the hints it resends cost at most the reward it leaves, and every created task's hints at most its reward |
| Tasks.TaskRequestStores | src/internal/questspace/tasks/updater.go:143-196 | an accepted request stores updated tasks as edited, 0 and absent hints standing for what was stored, created ones as given and the others as they were |
| Tasks.TaskTargets | src/internal/questspace/tasks/updater.go:65-93 | tasks are wanted where their create or update puts them, and otherwise where they are stored |
| Tasks.CarefulRunsKeepFitting | src/internal/questspace/tasks/updater.go:198-236 | over every run of such requests all stored tasks fit and stay dense |
| BulkRuns.BulkKeepsAll | src/internal/questspace/tasks/updater.go:143-190 | what the checks of every update and create keep true of a body, a request keeps true of all bodies |
| GroupTasks.GroupChecksPassIff | src/internal/questspace/taskgroups/updater.go:154-218 | the checks pass exactly when every update names a remaining group and its task request is accepted over that group's tasks, and every created group's tasks are accepted over none |
| GroupTasks.GroupRequestServesTasks | src/internal/questspace/taskgroups/updater.go:154-218 | an accepted group request serves each task request on its own group's tasks, fills created groups from no tasks, and leaves the other groups' tasks |
| GroupTasks.GroupTargets | src/internal/questspace/taskgroups/updater.go:87-115 | groups are wanted where their create or update puts them, and otherwise where they are stored |
| GroupTasks.EveryRunIsTidy | src/internal/questspace/taskgroups/updater.go:154-218 | over every run of group requests that carry task requests, the groups and the tasks of every group stay dense and every task's penalties within its reward |
| GroupTasks.OneRefusalRefusesAll | src/internal/questspace/taskgroups/updater.go:167-178 | one rejected task request undoes the whole group request |
| LinearClock.ReadRecords | src/internal/pgdb/pgclient/team_info.go:94-118 | after the scan every read closing time is that of the last listed row, since all point at one variable |
| LinearClock.FillTeamInfos | src/internal/pgdb/pgclient/team_info.go:94-166 | reading and scheduling compute the specified record of every group, for any stored records |
| LinearClock.FillAnswerData | src/internal/questspace/game/game.go:101-191 | the auto-close loop shows, closes, stops or dereferences nil exactly as specified |
| LinearClock.PollIsSchedule | src/internal/questspace/game/game.go:151-184 | over closed records the two loops never dereference nil and together are one walk: a group opens when the one before it is seen to close |
| Polling.SharingIsHarmlessIff | src/internal/pgdb/pgclient/team_info.go:94-118 | from any closed records, a poll leaves the records a linear quest means exactly when no gap shows: no limited group is first reached with two opening times and run out from the earlier |
| Polling.RecordedFirstIsHarmless | src/internal/pgdb/pgclient/team_info.go:94-118 | in particular while the recorded groups come first |
| Polling.PollingIsPathIndependent | src/internal/questspace/game/game.go:151-184 | from no records, or where the recorded groups come first, polls at nondecreasing times leave the records of the last one alone, and these are the ones a linear quest means |
| Polling.PollingTwiceIff | src/internal/pgdb/pgclient/team_info.go:94-166 | from any closed records, a poll before another changes what the other leaves exactly when its time jumps, a condition on the records before both |
| Polling.PathIndependentIff | src/internal/pgdb/pgclient/team_info.go:94-166 | from any closed records, a run of polls leaves the records of the last one alone exactly when none of its times jumps, judged from the records before the run |
| InOrder.EveryRunInOrder | src/internal/questspace/game/game.go:573-582 | over every run of requests whose answers close only the first open timed group, every team's recorded groups come first |
| InOrder.InOrderNeverShows | src/internal/pgdb/pgclient/team_info.go:94-166 | so after every such run polls leave the records a linear quest means, whatever polls were skipped |
| OutOfOrder.AnswersLeaveAGap | src/internal/pgdb/pgclient/task_group.go:93-99 | two answers out of order, in a run from the empty store, leave records with a gap |
| OutOfOrder.SharingShows | src/internal/pgdb/pgclient/team_info.go:94-118 | from those records a poll leaves a group open that opened, and by then ran out, when its predecessor closed |
| OutOfOrder.SkippedPollShows | src/internal/pgdb/pgclient/team_info.go:94-166 | and polling once or twice records different times for a group |
| Polling.PollChainsGroups | src/internal/questspace/game/game.go:165-181 | from no records, the closed groups are a prefix of the timed ones, each opened at its predecessor's close and closed at opening plus limit, and the next has not run out |
| LinearClock.PollShowsAPrefix | src/internal/questspace/game/game.go:105-184 | the shown groups are a prefix of the list with at most one open timed group, the last |
| LinearClock.PollShowsTimes | src/internal/questspace/game/game.go:151-184 | the times shown: of a recorded group, its opening and the shared closing; of any other, opening when the one before it is seen to close, and closed exactly as the poll records it; sticky groups none |
| LinearClock.ScheduleGrows | src/internal/pgdb/pgclient/team_info.go:14-31 | a poll only adds closed records in the past and never changes one |
| Ledger.OwnInfo | src/internal/pgdb/pgclient/task_group.go:93-99 | a group looked up alone gets what the scheduling loop gives a one-element list |
| Ledger.RequestKeeps | src/internal/questspace/game/game.go:369-617 | every request keeps the ledger consistent |
| Ledger.EveryRunIsConsistent | src/internal/questspace/game/game.go:417-441 | over every run: at most one accepted try per team and task, whose score equals the reward less all hints the team ever took for it |
| Ledger.ClosedForGood | src/internal/questspace/game/game.go:492-513 | in a linear quest a closed timed group keeps its record over every further run, and no try or hint is added to it |
| Ledger.SolvedGroupsAreClosed | src/internal/questspace/game/game.go:573-594 | over every run a completely solved group is closed, and a sticky group is never completely solved |
| Ledger.CorrectAnswerRefusedIff | src/internal/questspace/game/game.go:492-582 | a team's first correct answer is refused exactly when it completes a sticky group or comes to a closed group of a linear quest |
| Ledger.StickyTaskCannotBeSolved | src/internal/questspace/game/game.go:573-582 | the right answer to the only task of a sticky group, given in a fresh quest, is refused |
| Ledger.ScoresStayInRange | src/internal/questspace/game/game.go:544-571 | with fitting tasks every accepted score of every run lies in [0, reward] |
| Ledger.LateAnswersAreNotStored | src/internal/questspace/game/game.go:499-512 | past a group's own deadline answering and taking hints store no try and no hint for its tasks |
| Game.Service.GetAcceptedTasks | src/internal/pgdb/pgclient/answer_hint.go:122-150 | the accepted tasks of the team, the last accepted row of a task winning |
| Game.Service.TakenPenalty | src/internal/questspace/game/game.go:548-552 | the points of exactly the hints the team has taken |
| Game.Service.SolvedAll | src/internal/questspace/game/game.go:587-594 | whether every task of the group is among the accepted |
| Game.Service.UpsertTeamInfo | src/internal/pgdb/pgclient/team_info.go:14-31 | looking up the team and group finds the record just written, and every other lookup finds what it did before |
| Game.Service.PlayPage | src/internal/handlers/play/play.go:103-139 | one poll of the team's records in a linear quest, no change otherwise |
| Game.Service.TakeHint | src/internal/questspace/game/game.go:369-442 | the specified refusals, or one hint taken, idempotently |
| Game.Service.Answer | src/internal/questspace/game/game.go:457-585 | the specified reply and, unless refused, the specified rows |
| Game.Service.TryAnswer | src/internal/handlers/play/play.go:259-297 | answer and page refresh as one transaction: both or neither |
| Game.Service.AddPenalty | src/internal/questspace/game/game.go:602-617 | a known team's penalty is replaced |
| GameRules.PageStores | src/internal/handlers/play/play.go:103-139 | showing the page stores, in a linear quest, what the walk over the team's own records comes to, with reply Done; elsewhere and for everybody else it stores nothing; users without a team are refused |
| GameRules.PagesChain | src/internal/questspace/game/game.go:165-181 | over every run in which a team of a linear quest only shows its page, the recorded groups are a chained prefix of the timed ones at the last showing |
| GameRules.AnswerRefusedIff | src/internal/questspace/game/game.go:457-582 | an answer is refused exactly when the user plays for no accepted team, or the task is open and its group closed in a linear quest, or the right answer would complete a sticky group |
| GameRules.UnknownTaskRefused | src/internal/questspace/game/game.go:369-585 | answers and hints for tasks the quest does not have are refused and change nothing |
| GameRules.AnswerStores | src/internal/questspace/game/game.go:524-571 | an answer to an open task adds exactly its own row and replies with it: accepted only if right and automatic, then scored with the reward less the hints taken, and 0 otherwise |
| GameRules.WrongAnswersAcceptNothing | src/internal/questspace/game/game.go:531-541 | wrong answers and answers to manual tasks change no team's accepted tasks |
| GameRules.AnsweringAgain | src/internal/questspace/game/game.go:468-474 | answering an accepted task again stores no row and replies with the accepted one |
| GameRules.AnswerRecordsClosing | src/internal/questspace/game/game.go:573-582 | a right answer that completes a group closes it at that time, keeping the opening looked up alone; then the page refresh of a linear quest walks on; other teams' records stay |
| GameRules.AcceptedIffSolved | src/internal/questspace/game/game.go:457-585 | over every run a task is accepted for a team exactly when some member gave a right answer to it, automatic, that was not refused |
| GameRules.HintRefusedIff | src/internal/questspace/game/game.go:369-432 | a hint is refused exactly when the user plays for no accepted team, the group is sticky or closed in a linear quest, the task is accepted already, or there is no such hint |
| GameRules.HintTaken | src/internal/questspace/game/game.go:433-441 | a granted request adds exactly the hint asked for to what the team has taken for the task, and changes no other set; a refused one adds none |
| GameRules.HintsTakenIff | src/internal/questspace/game/game.go:369-442 | over every run the hints a team has taken for a task are exactly those its members asked for and were given |
| GameRules.PenaltyReplaces | src/internal/questspace/game/game.go:602-617 | a known team's penalty becomes the value given; other penalties and all other rows stay |
| Results.GetScoreResults | src/internal/pgdb/pgclient/answer_hint.go:194-211 | every team's accepted scores and times by task |
| Results.ScoresAreAccepted | src/internal/pgdb/pgclient/answer_hint.go:194-211 | with one accepted try per task the scores and times of a team are exactly those of its accepted tries |
| Results.LeaderboardRow | src/internal/questspace/game/game.go:334-349 | the sum over the map less penalties and the latest time, whatever order the map is walked in |
| Results.TableRow | src/internal/questspace/game/game.go:257-286 | the total over exactly the scored listed tasks less penalties, a cell per listed task, and the latest time |
| Results.CellsAddUp | src/internal/questspace/game/game.go:257-286 | without repeated tasks the cells of a row add up to its task score |
| Results.GetResults | src/internal/questspace/game/game.go:255-287 | one such row per team, in order |
| Results.GetLeaderboard | src/internal/questspace/game/game.go:330-350 | one such row per team, in order |
| Results.TableAgreesWithLeaderboard | src/internal/questspace/game/game.go:255-350 | the totals agree exactly when the unlisted scores sum to 0; with all scored tasks listed the times agree too |
| Results.ScoresSumTheRows | src/internal/pgdb/pgclient/answer_hint.go:194-211 | with one accepted try per task no row is overwritten: the map sums to the sum of the rows |
| Results.PenaltyIsTheLastOne | src/internal/pgdb/pgclient/answer_hint.go:393-406 | over every run the stored penalty is the last one given |
| Results.ListsAgreeAfterEveryRun | src/internal/questspace/game/game.go:234-361 | after every run both lists show the accepted rows' sum less the last penalty, and the same latest time |
| Ranking.NamesAreOrdered | src/internal/questspace/game/game.go:297-297 | name order is irreflexive, transitive and total |
| Ranking.UnansweredIsLessThanItself | src/internal/questspace/game/game.go:297-297 | the comparator puts a row before itself exactly when it has no answer |
| Ranking.StrictWeakIffAllAnswered | src/internal/questspace/game/game.go:289-298 | the comparator is a strict weak order exactly when every team has answered |
| Ranking.OrdersIffNoneBetween | src/internal/questspace/game/game.go:289-298 | for distinct names it is one on different rows exactly when no unanswered team is caught between two answered ones on its score of which the earlier in name answered no later |
| Ranking.UniformTiesAreOrdered | src/internal/questspace/game/game.go:351-359 | in particular, on different rows, when tied teams have either all answered or none |
| Ranking.SortedIffAdjacentStand | src/internal/questspace/game/game.go:289-298 | a list of teams that have all answered is sorted exactly if each row has a higher score than the next, or the same and no later time |
| Ranking.SortedIffAllStand | src/internal/questspace/game/game.go:289-298 | in general it is sorted exactly if that holds of every earlier and later row, names falling where one of two tied teams never answered |
| Ranking.SortedScoresNeverRise | src/internal/questspace/game/game.go:289-298 | in a sorted list scores never increase |
| Ranking.SortedListsDifferOnlyOnTies | src/internal/questspace/game/game.go:289-359 | two sorted lists order a pair differently only at equal score and equal time |
| Ranking.SortedListsAreLevel | src/internal/questspace/game/game.go:289-359 | at every place two sorted lists of the same rows have the same row, or rows that tie on score and time |
| Ranking.CircleCannotBeSorted | src/internal/questspace/game/game.go:289-298 | three teams that compare in a circle admit no sorted list |
| Unsortable.NoSortedLeaderboard | src/internal/questspace/game/game.go:351-359 | a run of two answers and two penalties after which no order of the leaderboard is sorted |
| Standings.ListsStandAlike | src/internal/questspace/game/game.go:234-361 | after every run the sorted table and the sorted leaderboard have at every place the same team or exactly tied ones, and scores never rise |
| Teams.WithoutKeeps | src/internal/questspace/teams/service.go:241-247 | the rebuilt member list has no repeats and is no longer |
| Teams.RequestKeepsIff | src/internal/questspace/teams/service.go:54-329 | a request keeps the team invariant exactly when a named new captain is a member who stays |
| Teams.LeaveKeepsIff | src/internal/questspace/teams/service.go:202-256 | the same for leaving, including the last member's leaving |
| Teams.ChangeLeaderKeepsIff | src/internal/questspace/teams/service.go:181-200 | the same for passing the captain's role on |
| Teams.OutsiderBecomesCaptain | src/internal/questspace/teams/service.go:181-200 | two requests after which a team does not hold its captain |
| Teams.EveryRunIsGood | src/internal/questspace/teams/service.go:54-329 | over every run with such captains: a user is in at most one team, team sizes and accepted teams stay within their limits, every team holds its captain |
| TeamService.Service.AlreadyRegistered | src/internal/questspace/teams/service.go:141-147 | whether some team of the quest has the user |
| TeamService.Service.GetRegistrationStatus | src/internal/questspace/teams/service.go:33-52 | accepted at once exactly under automatic registration with room left |
| TeamService.Service.CreateTeam | src/internal/questspace/teams/service.go:54-81 | the specified team for an unregistered user, or a refusal |
| TeamService.Service.JoinTeam | src/internal/questspace/teams/service.go:127-162 | the specified join, repeat or refusal |
| TeamService.Service.MembersWithout | src/internal/questspace/teams/service.go:277-283 | the member list without the user, in order |
| TeamService.Service.LeaveTeam | src/internal/questspace/teams/service.go:202-256 | the specified departure, succession or deletion |
| TeamService.Service.RemoveUser | src/internal/questspace/teams/service.go:258-288 | only the captain removes, and never the captain |
| TeamService.Service.ChangeLeader | src/internal/questspace/teams/service.go:181-200 | the captain names any new captain |
| TeamService.Service.AcceptTeam | src/internal/questspace/teams/service.go:290-329 | only the quest's creator accepts, unless the limit is reached; accepting again changes nothing |
| TeamService.Service.DeleteTeam | src/internal/questspace/teams/service.go:164-179 | the captain or the quest's creator deletes the team |
| TeamRules.CreateEffect | src/internal/questspace/teams/service.go:33-81 | refused exactly if the user is in a team; otherwise a new team of the user alone, its captain, accepted exactly under automatic registration with fewer accepted teams than the limit; the other teams stay |
| TeamRules.JoinEffect | src/internal/questspace/teams/service.go:127-162 | refused exactly if there is no such team, the user is in another, or the team is full; otherwise the members are the old ones and the user last, unless a member already, and nothing else changes |
| TeamRules.LeaveEffect | src/internal/questspace/teams/service.go:202-256 | refused exactly if there is no such team, or its captain leaves others without naming a successor; the last member takes the team away, otherwise exactly the user goes and the successor replaces a captain who leaves |
| TeamRules.RemoveEffect | src/internal/questspace/teams/service.go:258-288 | refused unless the captain removes somebody else; exactly the named member goes |
| TeamRules.ChangeLeaderEffect | src/internal/questspace/teams/service.go:181-200 | refused unless the captain asks; only the captain changes, to the one named |
| TeamRules.AcceptEffect | src/internal/questspace/teams/service.go:290-329 | refused exactly if not asked by the creator, there is no such team, or the team is not accepted and the limit is reached; then only its acceptance changes |
| TeamRules.DeleteEffect | src/internal/questspace/teams/service.go:164-179 | refused unless the captain or the creator asks; exactly that team goes |
| TeamRules.MemberIffCameAndStayed | src/internal/questspace/teams/service.go:54-288 | over every run a user is in a team exactly if some request put them into it and no later one took them out |
| Base52.StartConst | src/internal/questspace/teams/base52.go:32-36 | the start constant is 11055975780 |
| Base52.LinkIDToPath | src/internal/questspace/teams/base52.go:16-30 | the loop writes the digits of the shifted number, least significant first |
| Base52.LettersAreDigits | src/internal/questspace/teams/base52.go:12-27 | letter k of a path stands for digit k of the number in base 52, a to z before A to Z |
| Base52.PathsAreInjective | src/internal/questspace/teams/base52.go:16-30 | a decoder inverts the encoder on all link numbers, so paths are unique |
| Base52.PathLength | src/internal/questspace/teams/base52.go:10-30 | every path has at least 6 letters, and exactly 6 precisely below 8714633884 |
| Pages.ID | src/pkg/storage/models.go:184-194 | the flag letter and the decimal timestamp |
| Pages.DecimalDigits | src/pkg/storage/models.go:184-194 | the characters of a timestamp are its decimal digits, ones last |
| Pages.ParseOfFormat | src/pkg/storage/models.go:176-179 | parsing inverts formatting over the whole 64-bit range |
| Pages.PageRoundTrip | src/pkg/storage/models.go:159-194 | reading a page's identifier gives the page back, negative timestamps included |
| Pages.OtherSpellings | src/pkg/storage/models.go:159-182 | the converse fails: a plus sign and the empty identifier also name pages |

## Left out

- BulkUpdater.Updater.BulkUpdate: requires that a request names each updated item and each create index once, because the code relies on it and never checks it; the packing of an array that does not mirror the rows is not modelled. Nothing is claimed for other requests.
- BulkUpdater.Updater.ReorderUpdated: requires that no item is moved twice, which is what the split into chains and cycles asks of its callers.
- Stages.StagesDecide: requires that each item and each create index is named once, as the bulk update does.
- BulkRuns.EveryRunIsDense: is about runs of requests that name each item and each create index once, for the same reason.
- The task updater called inside the group updater is the same updater on the group's own tasks; `GroupTasks` nests its specification, and the calls themselves are not interleaved in one method.
- The database's unique order index per quest is deferred to the commit; the model shows the indices distinct there instead of modelling the constraint.
- Which error a refused request reports, and the joining of several errors into one.
- The three-hint limit and the task fields of a full replacement, image and URL validation, names, texts and media links.
- Whether a quest is running, finished or on registration: the handlers' gates before a request reaches the service.
- The current time is read several times within one request; the model uses one value per request.
- The opening time kept when a solved group closes is that of the group looked up alone, as in the code; it is not claimed to be when the group was first shown.
- Group order is not claimed for answers and hints: the code does not enforce it.
- Results.TableRow: requires listed task identifiers without repeats, which the database guarantees.
- Sorting itself is the library's; the statements are about any list it leaves sorted.
- Link numbers so large that adding the start constant overflows 64 bits; Go's `int` overflow elsewhere.
- Users deleted from the database, team renaming, invite-link storage, and requests naming a team of another quest.
- Concurrency and isolation levels: requests are served one after another.
- Answer logs and their paging, HTTP, authentication, storage plumbing and configuration.
