# Elimination bracket of cheesy-arena, modelled in Dafny

This project models the engine that maintains the elimination schedule of a FIRST
robotics event in cheesy-arena (`elimination_schedule.go`). Alliances from alliance
selection are placed into a single-elimination bracket of up to 16 alliances, seeded
by a fixed table. Each bracket node (final, semifinals, quarterfinals, eighthfinals) is
played as a best of three, and a tied match is replayed. Every call walks the bracket
from the final downwards. At each node it decides the node's two alliances, repairs
stale team slots, detects the winner, creates missing matches, replays ties and deletes
matches that are no longer needed. It then renumbers the kick-off times of every match
still to be played.

The match table is an in-memory sequence of records (`Types.Store`). Every operation is
a pure function from one store to the next, and it returns the store as written even
when it fails, because the database keeps writes made before an error. The random
permutation drawn for a side is a parameter (`Types.Shuffler`), and every property holds
for every shuffler.

Modules, in dependency order:

- `types.dfy` (`Types`): team slots, matches, bracket nodes, errors, the store.
- `seeding.dfy` (`Seeding`): the 16-entry seed table, a node's seeds, which sides come
  straight from alliance selection, and the sub-bracket ("block") of table entries
  under a node.
- `match_ops.dfy` (`MatchOps`): `teamInAlliance`, the slot shuffles, `createMatch`, and
  the repair of a match's team slots.
- `queries.dfy` (`Queries`): the order-preserving selections the reconciler reads: a
  node's matches, the completed, tied and unplayed ones, and the win tallies.
- `reconciler.dfy` (`Reconciler`): the per-node step. It covers the repair pass,
  winner detection with deletion, top-up to three matches, and tie replays.
- `resolver.dfy` (`Resolver`): the recursive walk of `buildEliminationMatchSet`.
- `schedule.dfy` (`Schedule`): time assignment and the top-level
  `UpdateEliminationSchedule`.
- `aswritten.dfy` (`AsWritten`): the deletion and tie replay exactly as the loop writes
  them, with inputs on which they differ from the intended behaviour (see Findings), and
  inputs on which the code, and the model with it, departs from the intended rules.

On these points the model follows the code:

- Slot repair is not independent per side. Blue is checked and repaired only when red
  needs no repair (`else if`).
- A side wins the node at exactly two wins (`== 2`), and red takes precedence. A side
  that reaches three wins after a revised result never wins the node
  (`AsWritten.ThreeWinsStall`).
- A roster with more than three teams is accepted; only its first three teams are
  used.
- The scheduler places matches in store order, which stands for the order of the
  match query.
- Every completed tie of a node is replayed each time the node runs out of unplayed
  matches, including a tie that already has a replay. The code keeps no record of which
  ties were replayed, so a tied replay brings a second replay of the tie before it
  (`AsWritten.TieReplayedAgain`). This departs from the intended rule of one new replay
  per tie not yet replayed.

The exceptions are the three behaviours listed under "## Findings": the deletion and the
tie replays through aliased loop pointers, and the shuffle of a replay before its slots
are overwritten. For these, `Reconciler` models the intended behaviour and `AsWritten`
models the code as written.

## Model

| member | source | states |
|---|---|---|
| Seeding.SeedSlots | elimination_schedule.go:67-70 | For every supported round and group, both seed indices lie in [0, 16), red is below blue, and both fall inside the node's own block of width 16/round. |
| Seeding.Width | elimination_schedule.go:68 | The factor is 16, 8, 4 and 2 for the final, semifinal, quarterfinal and eighthfinal rounds. |
| Seeding.LabelsDistinct | elimination_schedule.go:53-59 | Two distinct nodes get distinct round labels (F, SF1, QF3, ...), so display names never collide across nodes. |
| Seeding.LabelRoundTrip | elimination_schedule.go:53-59 | A node's round label reads back as that node, and any label that reads back as a node is that node's label. |
| Seeding.Child | elimination_schedule.go:89-96 | The node feeding a side lies one round down: round 2r, with a group inside that round. Above the eighthfinals it is again a named node. |
| Seeding.StandardPairing | elimination_schedule.go:67-70 | A node of round r pairs one of the r best seeds (red, 1..r) with one of the next r (blue, r+1..2r), and the two seeds sum to 2·r + 1. |
| Seeding.SemifinalPairing | elimination_schedule.go:67-70 | Semifinal g pairs seed g with seed 5 − g. |
| Seeding.QuarterfinalPairing | elimination_schedule.go:67-70 | Quarterfinals pair seed s with seed 9 − s, for s in 1..4. |
| Seeding.EighthfinalPairing | elimination_schedule.go:67-70 | Eighthfinals pair seed s with seed 17 − s, for s in 1..8. |
| Seeding.SubtreeTopSeeds | elimination_schedule.go:67-70 | A node's red seed is its red child's red seed, and its blue seed is its blue child's red seed: the favourite of each half climbs the tree. |
| Seeding.ChildStarts | elimination_schedule.go:67-70 | A child's block is half its parent's: the red child takes the first half and the blue child the second. |
| Seeding.BlockSplit | elimination_schedule.go:67-70 | A node's block is its red child's block followed by its blue child's block. |
| Seeding.BlockShape | elimination_schedule.go:67-70 | A block opens with the node's red seed, and every other entry is at least the node's blue seed. |
| Seeding.SeedsInBlock | elimination_schedule.go:69-70 | The red seed opens the block and the blue seed opens its second half. |
| Seeding.FinalBlock | elimination_schedule.go:67-70 | The final's block is the whole seed table. |
| Seeding.MatchupsIsPermutation | elimination_schedule.go:67 | The seed table holds each alliance number 1..16 exactly once. |
| Seeding.EightAlliancePairings | elimination_schedule.go:64-85 | With 8 alliances the final and both semifinals recurse. The quarterfinals pair 1 v 8, 4 v 5, 2 v 7 and 3 v 6, every side direct. |
| Seeding.EighthfinalsAreDirect | elimination_schedule.go:64-79 | With at most 16 alliances, both sides of every eighthfinal come from alliance selection. |
| Seeding.ChildPlayed | elimination_schedule.go:64-96 | A side that is not direct is fed by a child whose seeds both name existing alliances. |
| Seeding.DirectSeedExists | elimination_schedule.go:69-79 | In a node whose seeds both exist, a direct side's seed is an alliance number in 1..n. |
| Seeding.DirectIsBye | elimination_schedule.go:64-79 | Above the eighthfinals a side takes its seed from selection exactly when the seed has a bye: its opponent one round down is not an alliance. |
| Seeding.EntrantsOfPlayedNode | elimination_schedule.go:64-100 | Counted with multiplicity, the alliances the seeding rule takes from selection below a played node are the seeds ≤ n of its block. Resolver.ResolveFollowsSeeding shows the walk branches by this rule. |
| Seeding.EveryAllianceEntersOnce | elimination_schedule.go:64-100 | For 2 to 16 alliances, the seeding rule followed from the final takes every alliance 1..n from selection exactly once and no other number. |
| MatchOps.TeamInAlliance | elimination_schedule.go:239-246 | The linear scan finds a team exactly when it is in the roster. |
| MatchOps.Shuffle | elimination_schedule.go:223-236 | A side filled by any permutation holds exactly the roster's first three teams. |
| MatchOps.NewMatch | elimination_schedule.go:214-220 | A created match belongs to its node and instance and is unplayed. Each side holds its roster's first three teams. |
| MatchOps.Repair | elimination_schedule.go:115-125 | Repair changes only team slots. It can fail only with the index panic of a shuffle. |
| MatchOps.RepairFailsIff | elimination_schedule.go:115-125 | Repair fails exactly when the side it must reshuffle (red first, otherwise blue) has fewer than three teams. |
| MatchOps.RepairTouchesOneSide | elimination_schedule.go:115-125 | At most one side changes. A mismatched red is reshuffled and blue kept; blue is reshuffled only when red fits. A fitting match is unchanged. |
| MatchOps.RepairFixesFirstMismatch | elimination_schedule.go:115-125 | After repair, red fits its known alliance, and blue fits too whenever red needed nothing. |
| Queries.DropUnplayedEffect | elimination_schedule.go:147-153 | Deleting a won node's unplayed matches leaves exactly its completed ones and the rest of the store. No tally changes. |
| Queries.SameTallies | elimination_schedule.go:115-143 | Changing team slots changes none of a node's tallies, ties, completed matches or unplayed count. |
| Queries.InsertIntoNode | elimination_schedule.go:176-206 | Creating matches of a node appends them to the node's list and leaves every other record where it was. |
| Queries.AppendUnplayed | elimination_schedule.go:127-143 | Adding unplayed matches changes no tally and no tie list, and extends the unplayed list by them. |
| Reconciler.RepairAll | elimination_schedule.go:115-143 | The repair pass changes only team slots and only of the node's matches. It stops only on an invalid winner marker or an index panic. |
| Reconciler.RepairAllStops | elimination_schedule.go:115-143 | When some node match fails, the pass stops at the first one with its error. Records up to it are saved repaired and the rest are untouched. |
| Reconciler.RepairAllSucceeds | elimination_schedule.go:115-143 | The pass gets through exactly when every node match repairs and every completed one carries R, B or T. |
| Reconciler.RepairAllRepairs | elimination_schedule.go:115-125 | After a full pass, each node match is replaced by its own repair. |
| Reconciler.InvalidWinnerIsGenuine | elimination_schedule.go:134-142 | An invalid-winner error names the id and marker of a completed node match whose marker is not R, B or T. |
| Reconciler.RepairAllKeepsOthers | elimination_schedule.go:110-125 | The repair pass leaves the records of other nodes untouched. |
| Reconciler.Pad | elimination_schedule.go:166-171 | At most one side changes, and only an unknown one, which becomes three placeholders. Red is known afterwards, and blue too when red was known before. |
| Reconciler.Primaries | elimination_schedule.go:176-193 | Top-up creates instances k..3, each a new unplayed node match with the next id and each side's first three teams. |
| Reconciler.NeedsTopUpIffDecisive | elimination_schedule.go:163-165 | A node is topped up exactly when every match it has is complete and none is a tie, including when it has none. |
| Reconciler.TieReplays | elimination_schedule.go:198-207 | One replay per tie, numbered from the given instance with consecutive ids, unplayed, each with its tie's exact red and blue slots. |
| Reconciler.ReplayOf | elimination_schedule.go:199-202 | A replay is a new unplayed match of the node with the given instance and id and the tie's own red and blue slots. |
| Reconciler.ReplayTies | elimination_schedule.go:196-207 | Ties are replayed only when nothing of the node is unplayed. Then one replay per tie is appended after every existing record, numbered from len(matches)+1, each an unplayed match of the node with the next id and the tie's slots; otherwise nothing changes. |
| Reconciler.TopUp | elimination_schedule.go:165-194 | Top-up fails, writing nothing, exactly when a padded side has fewer than three teams. Otherwise it appends 3 − count new matches (none at 3 or more), with instances count+1, ... |
| Reconciler.Settle | elimination_schedule.go:146-210 | The node's result is its red alliance, its blue alliance or undecided. |
| Reconciler.Reconcile | elimination_schedule.go:107-210 | Errors are an invalid winner marker, a roster too small at creation, or an index panic. A result is one of the node's two alliances or undecided. |
| Reconciler.SettleWinner | elimination_schedule.go:147-161 | At exactly two wins for a side, red first, that alliance wins. The node keeps only its completed matches, the rest stays, and nothing is created. |
| Reconciler.SettleTopUp | elimination_schedule.go:165-194 | A node with no winner that has no matches, or no ties and nothing unplayed, is topped up and nothing else happens. |
| Reconciler.SettleReplays | elimination_schedule.go:196-207 | With no winner, ties, nothing unplayed and at least one match, exactly one replay per tie is appended and nothing fails. The i-th has instance len(matches)+i+1, the next id, and the tie's own slot order. |
| Reconciler.SettleWaits | elimination_schedule.go:165-208 | A node with no winner and an unplayed match is left as it is. |
| Reconciler.TopUpFills | elimination_schedule.go:176-193 | After a successful top-up the node has exactly three matches if it had fewer, otherwise its previous count. |
| Reconciler.NewMatchesAreUnplayed | elimination_schedule.go:176-193 | A successful top-up appends exactly as many matches as bring the node to three, all unplayed matches of the node, and keeps the earlier records in place. |
| Reconciler.AppendedToNode | elimination_schedule.go:176-206 | Appending unplayed node matches grows the node's list and its unplayed list by them. Tallies, ties and other nodes are unchanged. |
| Reconciler.ReconcileDecides | elimination_schedule.go:115-210 | When the pass gets through, the decision is taken on the repaired store. Results, tallies, ties and the unplayed count are those of the original. |
| Reconciler.ReconcileFails | elimination_schedule.go:115-143 | When a node match fails the pass, the call errs with the error of the first such match: its index panic, or else its invalid marker. Every record up to it stays saved as repaired, the failing one too when only its marker is wrong. Every later record is untouched and nothing is created or deleted. An InvalidWinner names a genuine offender. |
| Reconciler.SettleQuietCreatesNothing | elimination_schedule.go:147-208 | A node with a winner, an unplayed match, or three or more matches and no tie gets no new match. |
| Reconciler.SettleLeavesQuiet | elimination_schedule.go:147-208 | After a successful settlement the node is in such a state. |
| Reconciler.QuietSameOutcomes | elimination_schedule.go:115-125 | Repairing slots does not change whether a node needs new matches. |
| Reconciler.ReconcileSettles | elimination_schedule.go:107-210 | Reconciling a node again, with the same alliances and any permutations drawn, after a successful reconciliation creates no match. |
| Reconciler.SettleKeepsOthers | elimination_schedule.go:146-208 | Settling a node never touches another node's records and never takes an id back. |
| Reconciler.ReconcileKeepsOthers | elimination_schedule.go:107-210 | Whatever its outcome, reconciling a node leaves every other node's records unchanged and never takes an id back. |
| Resolver.Resolve | elimination_schedule.go:72-100 | Resolving one side never takes an id back. It fails with "too few alliances" only when there are fewer than two. |
| Resolver.DirectRosterKnown | elimination_schedule.go:64-85 | With every alliance non-empty and both seeds of the node existing, a side's direct roster is known exactly when the seeding rule calls it direct, and is then its seed's alliance. |
| Resolver.ResolveFollowsSeeding | elimination_schedule.go:64-96 | In such a node a direct side takes its seed's alliance and writes nothing; any other side is the winner of its child, whose seeds again exist above the eighthfinals. |
| Resolver.Build | elimination_schedule.go:49-105 | The walk fails with "too few alliances" exactly when there are fewer than two. With two or more, a round without a name (not 1, 2, 4 or 8) fails with depth 2·round and writes nothing. It never takes an id back. |
| Resolver.TooManyAlliances | elimination_schedule.go:53-96 | With 17 or more alliances the walk from the final reaches round 16 and fails with depth 32, writing nothing. |
| Resolver.DepthBound | elimination_schedule.go:54-100 | With 2 to 16 alliances, all non-empty, the walk from any node whose seeds exist never hits the depth error. |
| Resolver.RootDepthBound | elimination_schedule.go:49-100 | The same holds for the walk from the final. |
| Resolver.ChildBlockWithin | elimination_schedule.go:89-96 | What comes out of a child's block comes out of its parent's block. |
| Resolver.WinnerFromBlock | elimination_schedule.go:64-160 | A node's non-empty winner is the roster of a seed in the node's own block: no alliance reaches a node from outside the bracket below it. |
| Resolver.SideFromBlock | elimination_schedule.go:72-100 | The same holds for each side a node resolves. |
| Schedule.AssignTimes | elimination_schedule.go:34-42 | The loop gives the k-th pending elimination match (k from 0, list order) the time start + 600·k. Only times change, and completed or non-elimination matches are untouched. |
| Schedule.FirstAtStart | elimination_schedule.go:34-39 | The first pending match is scheduled at the start time. |
| Schedule.TimesIncrease | elimination_schedule.go:15-42 | Pending matches are scheduled in list order, at least 600 seconds apart. |
| Schedule.NextIsSpaced | elimination_schedule.go:15-42 | Consecutive pending matches are exactly 600 seconds apart. |
| Schedule.PendingCountGrows | elimination_schedule.go:36-41 | The running index never decreases and grows with every pending match. |
| Schedule.AssignTimesIdempotent | elimination_schedule.go:34-42 | Renumbering an already numbered schedule from the same start changes nothing. |
| Schedule.UpdateEliminationSchedule | elimination_schedule.go:19-45 | The update returns the final's result. On an error it keeps the store as the walk left it and assigns no times; otherwise it renumbers pending times. Under 2 alliances it errs; at 17 or more it fails on depth 32 and writes nothing. With 2..16 non-empty alliances no depth error occurs, and a decided winner is one of the alliances. |
| Schedule.WinnerIsAnAlliance | elimination_schedule.go:24-27 | A non-empty winner of the final is one of the alliance rosters. |
| AsWritten.ReplayAsWritten | elimination_schedule.go:199-220 | As written, a replay panics when a roster has fewer than three teams, and otherwise takes the slots of the node's last match. |
| AsWritten.DropUnplayedAsWritten | elimination_schedule.go:146-153 | As written, a won node with an unplayed match loses every record of the node carrying its last match's id, played or not, and keeps all others. |
| AsWritten.TieReplaysAsWritten | elimination_schedule.go:198-207 | As written, replays fail exactly when there is one to make and a roster is short. Every replay copies the last match's slots. |
| AsWritten.DeletesCompletedWin | elimination_schedule.go:115-153 | As written, a won semifinal whose first instance is unplayed loses its last completed red win and keeps the unplayed match. |
| AsWritten.ReplayCopiesLastMatch | elimination_schedule.go:115-207 | As written, the replay of a tie takes the slot order of a later red win. |
| AsWritten.ReplayPanicsOnUnknownSide | elimination_schedule.go:198-236 | As written, a node whose red side became unknown again panics while replaying its tie. |
| AsWritten.TieReplayedAgain | elimination_schedule.go:139-207 | Every completed tie is replayed whenever the node has nothing unplayed, including a tie replayed before: a semifinal with a tie, a red win, a blue win and a tied replay gets two new replays, instance 5 with the first tie's slots and instance 6 with the second's (with the intended slot copying). |
| AsWritten.ThreeWinsStall | elimination_schedule.go:147-194 | A semifinal whose three matches all went to red has no side at exactly two wins, nothing unplayed or tied and three matches already: the step reports no winner and leaves the store unchanged. |

## Left out

- Database I/O (`GetAllAlliances`, `GetTeamsByAlliance`, `GetMatchesByElimRoundGroup`, `GetMatchesByType`, `CreateMatch`, `SaveMatch`, `DeleteMatch`): replaced by the in-memory store. Their own error returns are not modelled, since they depend on the database.
- The alliance store is a sequence of rosters. An alliance number outside 1..n yields the empty roster, which is how an empty lookup behaves. The database code of `GetTeamsByAlliance` is not part of this model.
- Query order: both match queries are modelled in store order. The SQL ordering of the database layer is not part of this model.
- `DeleteMatch` is modelled as removing the record with the deleted match's id.
- `math/rand.Perm(3)` is a `Shuffler` parameter, keyed by match id and side. This is as general as a stream of fresh draws only while new ids are fresh, i.e. every id in the store is below `nextId`, as the database's auto-increment ensures; no predicate on `Store` states that assumption.
- `time.Time` and `time.Duration` are integer seconds.
- Error messages are tags of the `Error` datatype.
- Display names are kept as the round label plus the instance number, not as the formatted string.
- Team records (`AllianceTeam`) are reduced to team numbers.
- Resolver.Build: Go looks up both direct rosters before recursing into either child; the model resolves red completely, then blue. Lookups only read, so the stores and results are the same.
- Resolver.Build: a roster lookup that fails, as opposed to returning empty, is not modelled.
- Reconciler.ReconcileSettles: idempotence is proved per node, for a second reconciliation with the same alliances. It is not proved for a second walk of the whole bracket.
- Schedule.AssignTimes: does not model the int64 nanosecond overflow of `time.Duration`, because 600-second steps would need more than 10^7 pending matches to reach it.
- Whole-bracket progress is not proved: nothing here shows that completing matches with a consistent winner per node ends with exactly one winner of the final and no unplayed match. Under the exactly-two-wins rule it fails after a revision: a node whose three matches all went to one side stays undecided and gets no new match (`AsWritten.ThreeWinsStall`).
- Seeding.EveryAllianceEntersOnce: states which alliances the walk takes from selection when every roster is non-empty. An empty roster makes the source recurse into a child, which `Resolver.Build` models.

## Findings

| source | as written | input that shows it | evidently intended | confidence | as-written member | corrected member |
|---|---|---|---|---|---|---|
| elimination_schedule.go:115-153 | Every `&match` in the unplayed list points to the single loop variable of `range` (Go before 1.22). Each delete therefore removes the node's last match. | A semifinal whose instance 1 is unplayed and instances 2 and 3 are red wins: instance 3 is deleted and instance 1 kept. | Delete exactly the unplayed matches and keep both wins. | medium (depends on the Go version the code was built with); not executed | AsWritten.DeletesCompletedWin | Queries.DropUnplayedEffect |
| elimination_schedule.go:115-207 | Every tie pointer aliases the loop variable, so each replay copies the slots of the node's last match. | A node with a tie (red 1, 2, 3) followed by a red win (red 2, 1, 3) and nothing unplayed: the replay gets red 2, 1, 3. | The replay keeps the tied match's own slot order (comment at lines 196-197). | medium (depends on the Go version the code was built with); not executed | AsWritten.ReplayCopiesLastMatch | Reconciler.SettleReplays |
| elimination_schedule.go:198-236 | A replay is first built by `createMatch`, which shuffles both rosters and indexes past the end of an empty one. | A revised result below a semifinal makes its red side unknown again, while the semifinal holds a tie and a red win, both complete: replaying panics. | Copy the tie's slots without shuffling, so a replay cannot fail. | low (needs a revised result below the node); not executed | AsWritten.ReplayPanicsOnUnknownSide | Reconciler.SettleReplays |
