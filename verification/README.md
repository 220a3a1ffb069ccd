# Memory safety of the compactor

A Dafny model of the parts of `compactor/` that keep, move, merge, budget and back up a conversation's
memory, with proofs of what they promise. There is one module for each component:

| module | what it models |
|---|---|
| `RestoreProtocol` | restoring a backup over live data: set-asides, swaps, two rollback paths, the on-disk marker |
| `Retention`, `HighWater`, `BackupCycle` | which archives survive, when a loss is reported, and a whole run of backup cycles |
| `Clusters`, `RefusalMemo`, `DedupPass` | deduplication: union-find with path halving, bounded splitting, the LRU memo of refusals, the merge pass |
| `FactRows`, `FactBudget`, `ExtractionFit` | stored facts, which of them fit a token budget, and fitting an extraction request |
| `Duplicates`, `ColdStorage`, `Retire`, `FactMerge` | collapsing copies, the active store and its cold sidecar, moving memory between conversations |
| `TextClean`, `RetrievalBlock`, `EpisodicIndex` | decoration, the retrieval block, the episodic rows |
| `Options` | optional values |

Objects whose methods change state are classes (`Volume`, `BackupDir`, `UnionFind`, `Memo`, `Store`, `Pair`,
`Index`); loops are methods proved against functions, and the properties are lemmas about those functions or
invariants of the classes. What cannot be seen from the program is a parameter: which moves and writes fail or
are the last thing the process does, the model's verdict on a set of texts, the similarity of two facts, the
structural filters, the key of a text, the calendar.

A crash is modelled by recording the disk after every write: `Volume.history`, `Store.history` and
`Pair.history`. A statement about every entry is a statement about every point at which the process can die.

## What was found

* A full archive restored where no live database existed, followed by a failed swap of the store, is reported as
  rolled back and the marker is removed, while the new database stays beside the old store
  (`compactor/backup.py:2245`); `RestoreBackup` has this as a clause. A restore whose marker could not be written
  passes through a mixed state that nothing on disk gives away, unless it is a single rename: the archive covers
  at most one half and nothing of that half is live. `Protected` is the exact condition: under it every state without
  a marker is whole, whatever else happens, and where it fails one event is enough for a mixed state without a marker.
* With a query and no pins, a store that fits the budget can be left out of the prompt, even entirely: the walk
  charges 28 tokens for the header although a block can be rendered in 27 and a remainder.
  `InjectsAllExactly` says exactly when a store that fits is injected whole.
* Cutting an extraction request can make it dearer, because the trim note is longer than what it replaces
  (`CuttingCanCost`), so a request can end over a budget that would hold the extraction prompt itself.
  `FitsExactly` says exactly when it ends within; a pinned fact shorter than the words that stand for an empty store
  is one of the ways, and it has at most three characters (`OnlyShortPinsSuffice`).
* `/retire` loses the pin of an archived copy when an unpinned copy of the same text is active, since the active
  copy is chosen first (`ArchivedPinIsLost`); `NewRowPin`, `StandingRowPin` and `StandingArchivedPin` say exactly
  when a row of the destination ends pinned.
* The counts that `/retire` reads back notice a lost write exactly when it was to add rows. A lost write that only
  folds pins and recency into rows already there goes unnoticed, and the source is cleared: `Pair.Apply` gives the
  end for any fates of the five writes, and says that it is the planned one exactly if no fold was lost.
  `PinGoesUnnoticed` runs such a case, after which no pin is left on either side.
* With the recency floor, merging two sources in the other order can give another result (`FloorsDoNotCommute`);
  `FloorsCommuteExactly` says exactly when it does not. Without the floor the order does not matter.
* Two exchanges are stored as one row when one user message goes on, behind the separator, just as the reply to the
  other begins (`SameRowExactly`); user messages without the separator are told apart.
* Where the documentation and the code differ, the model follows the code. `strip_rule_decoration` keeps a blank
  line for a line of nothing but ASCII runs (`BlankOrGone` says which lines vanish), and does not preserve the spaces
  inside a kept line (`ColumnsCloseUp`), against its docstring. `SpacingKeptExactly` says when it does, for any line:
  exactly if, once its decoration is off, every space in it is one blank between two words.

## Model

| member | source | states |
|---|---|---|
| RestoreProtocol.Volume.RestoreBackup | compactor/backup.py:1842-2365 | for any set of things that go wrong the outcome is the one stated, and a rollback is clean exactly when no move back it needs fails; every part whose own move back works is live again as it was, even when another one is not, and a clean rollback is the old state except where it strands a new database beside the old store; which marker is left is stated, and no working copy is unless a set-aside failed; at every point at which it can be killed, each original and each earlier set-aside still exists, nothing is overwritten or nested, and no old journal lies beside a new database; when protected, a disk without a marker is wholly as before or wholly restored, and when not, a failed store swap or an unwritten marker alone leads through a mixed state without a marker; no restore starts under a marker |
| RestoreProtocol.LoneFailureRollsBack | compactor/backup.py:2061-2299 | a swap of either half that fails by itself, over a live database, is rolled back cleanly: every part is back and no marker is left |
| RestoreProtocol.Volume.RepeatedRestores | compactor/backup.py:1895-2365 | through any number of restores from any disk, each failing or killed anywhere and markers cleared by hand at will, no original is lost, an undisturbed attempt restores its archive, and a protected one mixes nothing without a marker; with a live database and markers written and left alone, every attempt that leaves no marker began without one and left the live paths as they were or restored from its own archive, so that they are what some sequence of whole restores leaves |
| RestoreProtocol.Volume.FreeName | compactor/backup.py:2386-2398 | the first numbered name that does not exist; the search ends |
| RestoreProtocol.Volume.SetAside | compactor/backup.py:2451-2494 | to the quarantine, beside the target only if the quarantine fails, under a name that was free; none exactly when both moves fail, and then nothing changed |
| RestoreProtocol.Volume.MoveBackNoNest | compactor/backup.py:2401-2432 | whatever occupies the live path is renamed aside, never nested into or overwritten, and the original is back, exactly when neither the rename nor the move back fails |
| RestoreProtocol.Volume.SetDatabaseAside | compactor/backup.py:2027-2058 | on success the database and all three sidecars have left their live paths before anything new lands |
| RestoreProtocol.Volume.SwapDatabase | compactor/backup.py:2015-2155 | either the new database is live without any sidecar, or the outcome says what failed, a blocked set-aside before the swap before the check; a rollback puts back every part that can move, and a clean one is the old state |
| RestoreProtocol.Volume.RollBackDatabaseSwap | compactor/backup.py:2061-2104 | clean exactly when no part that was live has a failing move back; each part whose own move back works is in its place again even when another one is not; if all are, database, sidecars and store are as before |
| RestoreProtocol.Volume.RollBackStoreSwap | compactor/backup.py:2162-2299 | store first, then the database before its sidecars; clean exactly when every obstacle can be renamed and every move back works, and then, if the database was set aside, all is as before |
| RestoreProtocol.Volume.SwapStore | compactor/backup.py:2156-2321 | either the archive is wholly restored, or the rollback's result and the marker are as stated, with the case of no live database told apart |
| Retention.KeepSet | compactor/backup.py:1440-1481 | the loop over tiers keeps exactly the archives that the floor, the age or the weekly tier claims |
| Retention.KeepIsEnough | compactor/backup.py:1440-1481 | never fewer survivors than the smaller of the floor and the number of archives |
| Retention.KeepAbsorbsPrune | compactor/backup.py:1440-1510 | pruning now what an earlier prune left, with anything published since, is pruning now all that was ever published |
| Retention.RetentionHasNoHistory | compactor/backup.py:1484-1514 | after any interleaving of publishing, skipping and pruning, what a prune leaves depends only on what was published and when it ran |
| Retention.NothingClaimedIsLost | compactor/backup.py:1484-1514 | through any such run, whatever retention claims now is still there |
| Retention.FloorAlwaysHolds | compactor/backup.py:1440-1481 | through any such run the floor is never undercut |
| HighWater.CensusHwmUpdate | compactor/backup.py:799-897 | every field of every conversation follows the one-field rule, exactly the falls below half are reported, and an emptied conversation leaves the table |
| HighWater.NoSilentBleed | compactor/backup.py:866-889 | in a stretch without alarms every value is at least half of every earlier one and of the mark, however slow the decline |
| HighWater.AlarmsAreFew | compactor/backup.py:866-889 | a reading that never rises above its mark raises at most floor(log2 (mark + 1)) alarms |
| HighWater.BoundIsReached | compactor/backup.py:866-889 | from every mark some readings raise exactly that many |
| HighWater.RunIsFieldwise | compactor/backup.py:799-897 | over a run of cycles each field of each conversation behaves as one field does by itself |
| HighWater.UnreportedFieldHasNotHalved | compactor/backup.py:799-897 | over a run of cycles that never reported a field, it has not fallen below half of any earlier reading |
| HighWater.MovingIsNoLoss | compactor/backup.py:464-550 | moving facts between the active file and the sidecar, in any number and order, changes no reading and raises no loss |
| HighWater.FallIsReported | compactor/backup.py:854-889 | each of the four measures that falls below half from one cycle to the next is reported under its own name, whatever went before |
| HighWater.VanishedIsReported | compactor/backup.py:854-889 | a conversation gone from the census is reported in every measure it had |
| BackupCycle.BackupDir.RunOnce | compactor/backup.py:1634-1795 | a cycle that reports a loss prunes nothing, one that fails changes nothing, a published archive carries the marks that follow from its predecessor's, and the survivors are what retention claims of everything published |
| BackupCycle.BackupDir.RunCycles | compactor/backup.py:1634-1795 | over any run of cycles, each report tells its own cycle's fate and losses against the marks before it, the marks follow from the censuses of the cycles that published, only cycles that reported no loss prune and their reports name everything that is gone, enough archives remain, and a field that no report named holds at least half of every earlier published reading |
| BackupCycle.BackupDir.PruneOldBackups | compactor/backup.py:1484-1514 | exactly the unclaimed archives that could be removed are gone and are named; the newest stays |
| BackupCycle.UnreportedHoldsHalf | compactor/backup.py:1726-1790 | reports that tell their cycles say enough to know which fields have not halved |
| Clusters.UnionFind.Find | compactor/dedup.py:415-419 | path halving changes the forest but no representative |
| Clusters.UnionFind.Union | compactor/dedup.py:421-424 | exactly the two classes are joined |
| Clusters.UniteSimilar | compactor/dedup.py:412-429 | two indices have one representative if and only if a chain of similar pairs connects them |
| Clusters.HalvingKeepsRoots | compactor/dedup.py:415-419 | hanging a node on its grandparent keeps the forest and every root |
| Clusters.GroupByRoot | compactor/dedup.py:431-433 | the groups are the classes, each in ascending order, keyed once |
| Clusters.SplitCluster | compactor/dedup.py:320-388 | chunking front to back and lending to a short last chunk is the splitting function |
| Clusters.SplitPartitions | compactor/dedup.py:320-388 | a split keeps every index in order and makes chunks of two to four |
| Clusters.SplitIsStable | compactor/dedup.py:320-388 | growing a group at its end leaves all but the last two chunks as they were |
| Clusters.FindCandidateClusters | compactor/dedup.py:391-446 | every index with a partner is in exactly one cluster and no other is in any; clusters have two to four members of one component |
| RefusalMemo.Memo.Get | compactor/dedup.py:235-252 | finds exactly what is held, loses nothing, and makes it the newest entry of the newest conversation with the others in their order |
| RefusalMemo.Memo.Record | compactor/dedup.py:255-269 | the new refusal is held and newest, the others keep their order, of a full dictionary, at either level, only the oldest makes way, and while the conversation's is not full no key of it is forgotten |
| RefusalMemo.WithoutCutsOut | compactor/dedup.py:245-269 | moving an entry to the end cuts it out of its place and leaves the others as they stood |
| DedupPass.MergePass | compactor/dedup.py:698-776 | whatever true refusals the memo holds and whichever calls fail in this pass, the pass merges a sub-list of what the model accepts and was asked, at least what an unmemoised pass merges under the same cap, and exactly that without a cap in the way; a failed call is not remembered, so the memo keeps holding only true refusals; while there is room, a cluster is asked about exactly if it is met with budget left and its refusal is neither held at the start nor learnt since, and the memo ends holding just these refusals |
| DedupPass.RefusalIsKept | compactor/dedup.py:733-769 | with room for what it can learn, a refusal of the four kinds that answer the question is known after the pass that was given it, and nothing known is forgotten |
| DedupPass.KnownIsNotAsked | compactor/dedup.py:733-738 | what is known when such a pass begins is not asked |
| DedupPass.KeyCounts | compactor/dedup.py:220-232 | the key of a cluster counts, for every text, the facts that carry it |
| DedupPass.SameKeyExactly | compactor/dedup.py:220-232 | two clusters have one key exactly when one's texts are the other's rearranged |
| DedupPass.NewClusterIsAsked | compactor/dedup.py:720-738 | a cluster met with budget left is asked about unless its very texts, as often and with no others, were refused before |
| DedupPass.NewClusterIsAskedLater | compactor/dedup.py:720-769 | the same of a cluster of the next pass, after the refusals of the first |
| DedupPass.NoAnswerIsKept | compactor/dedup.py:214-217 | a failed call or a reply in the wrong form is not remembered |
| DedupPass.MergedFactIs | compactor/dedup.py:600-625 | a merged fact is pinned if and only if some member is, and has the smallest added_turn and the greatest last_used of them |
| DedupPass.WorkOff | compactor/dedup.py:733-755 | passes over clusters that the model refuses ask each question once in all, as many in each pass as the cap allows, until none is left |
| DedupPass.AfterAnyPasses | compactor/dedup.py:214-269 | after any passes with any calls failing in them, a pass without failures and without a cap in the way merges exactly what the model accepts |
| DedupPass.DedupFacts | compactor/dedup.py:662-776 | clustering and merging together: every index with a partner is in exactly one cluster, the merges are those of `MergePass` for these clusters, and the result and counts follow from them |
| DedupPass.RemovedIsSaved | compactor/dedup.py:757-776 | the number removed is the sum of cluster sizes less one, and at most three for each merge |
| DedupPass.EveryFactAccountedFor | compactor/dedup.py:600-625 | every fact is unchanged or covered by exactly one merged fact that is no younger, no staler and no less pinned, and nothing else is in the result |
| DedupPass.ExtremesKept | compactor/dedup.py:600-625 | the smallest added_turn and the greatest last_used of the list do not change |
| DedupPass.MergesAreCandidates | compactor/dedup.py:733-755 | the merged clusters are disjoint candidates |
| FactRows.InsertKeeps | compactor/facts.py:713-716 | inserting behind all that is not greater keeps a list sorted, and its members |
| FactRows.SortIsStable | compactor/facts.py:713-746 | sorting arranges the elements by their order and leaves those that it does not tell apart as they stood |
| FactBudget.LruSplit | compactor/facts.py:652-746 | the method computes the working set and its overflow |
| FactBudget.SplitPartitions | compactor/facts.py:652-746 | the two halves are the list, each entry once |
| FactBudget.WorkingFits | compactor/facts.py:728-738 | the kept half, as really rendered, is within the budget |
| FactBudget.ChargesAreTexts | compactor/facts.py:1086-1109 | a block, the header and a line are charged a quarter of the characters of the text that is rendered |
| FactBudget.GreedySkips | compactor/facts.py:815-838 | what the walk skips did not fit beside what it had taken before it in the order of priority |
| FactBudget.PicksNearlyFit | compactor/facts.py:717-738 | the line-by-line charge undershoots the block by at most (3k - 1) / 4 tokens for k lines |
| FactBudget.PicksNearlyFitIsTight | compactor/facts.py:717-738 | for every k some k lines reach that bound |
| FactBudget.SurvivorsAreLongest | compactor/facts.py:728-738 | settling drops from the low end only, and no more than it must |
| FactBudget.SettlingDropsLowest | compactor/facts.py:713-738 | every pick that settling drops ranks behind everything it keeps, so a pin is dropped only when nothing unpinned is kept |
| FactBudget.FittingPinsStay | compactor/facts.py:690-738 | pins that fit by the charge and by the render all stay in an overfull store |
| FactBudget.StayingPinsFit | compactor/facts.py:690-738 | and only such pins all stay |
| FactBudget.EvictedDoNotFit | compactor/facts.py:713-726 | a fact that outranks a kept one is evicted only because it does not fit beside kept facts that outrank it |
| FactBudget.SelectForInjection | compactor/facts.py:901-1009 | the method computes the injected facts |
| FactBudget.InjectionSelects | compactor/facts.py:901-1009 | nothing is invented or repeated |
| FactBudget.InjectsByPriority | compactor/facts.py:815-1009 | beside the pins stands the longest stretch, oldest first, that renders within the budget of a walk by priority: what the walk leaves out did not fit beside what it took of the facts ahead of it, by the ranking under a query and otherwise by last_used and added_turn; settling drops an end of it |
| FactBudget.InjectionKeepsPins | compactor/facts.py:964-1009 | every pinned fact is injected, whatever the budget, query and ranking |
| FactBudget.InjectionFits | compactor/facts.py:992-1009 | the block exceeds the budget only when it is the pins alone and they exceed it |
| FactBudget.InjectsAllExactly | compactor/facts.py:901-1009 | exactly when a store that fits the budget is injected whole |
| FactBudget.FittingStoreLeftOut | compactor/facts.py:979-990 | a store that costs exactly the budget can be left out entirely when there is a query |
| ExtractionFit.FitExtractionInput | compactor/facts.py:1246-1329 | the method computes what is kept of the store, the reply and the user message, and reports whether the request is still over |
| ExtractionFit.AssembledIsContent | compactor/facts.py:1182-1216 | what a request is charged is the prompt and a quarter of the characters of the content as it is sent |
| ExtractionFit.EndsWithinBudget | compactor/facts.py:1246-1329 | a budget that covers the prompt with two bare notes and no facts is always met |
| ExtractionFit.FitsExactly | compactor/facts.py:1246-1329 | the request ends within the budget exactly when one of four forms of it would, or with the freshest pin alone in the store |
| ExtractionFit.KeptExactly | compactor/facts.py:1257-1290 | where the messages alone are over the budget, some of the store is kept exactly when the freshest pin alone fits |
| ExtractionFit.OnlyShortPinsSuffice | compactor/facts.py:1257-1290 | and such a pin has at most three characters |
| ExtractionFit.SheddingOrder | compactor/facts.py:1257-1314 | the reply is cut only when every fact is shed, the user message only when also the reply is the bare note, and a cut message ends with the note |
| ExtractionFit.CutExactly | compactor/facts.py:1293-1314 | two rounds end within the budget exactly when nothing had to be cut or the bare note fits; otherwise the bare note is left |
| ExtractionFit.TruncatedShape | compactor/facts.py:1227-1243 | a truncated message is never blank, ends with the note, and is within the requested size |
| ExtractionFit.TruncatedKeeps | compactor/facts.py:1227-1243 | a cut message goes on showing its opening, all but 14 of the requested tokens at four characters each, apart from blanks at its two ends |
| ExtractionFit.StoreLosesStalest | compactor/facts.py:1277-1290 | what the last step sheds of the store was used no later than anything that stays, and among equals was added no later |
| ExtractionFit.CuttingCanCost | compactor/facts.py:1246-1329 | a request one token over can end 26 tokens over |
| Duplicates.SurvivorIndex | compactor/commands.py:978-1008 | the chosen copy outlives every other by pin, last_used, added_turn and position |
| Duplicates.Survivors | compactor/commands.py:1011-1041 | rejecting, grouping by text and keeping the best of each group leaves exactly the keepers |
| Duplicates.OneKeeperEach | compactor/commands.py:1011-1041 | every text that is not rejected has exactly one keeper |
| Duplicates.KeeperIsBest | compactor/commands.py:978-1041 | the keeper is active where the other is not, or, of two that agree on that, pinned, used later, newer, or the first in position, in this order |
| ColdStorage.Run | compactor/facts.py:487-612 | over any interleaving of tails, backfills, sweeps, restores and tidies, with any write failing or killing the process, no text ever leaves the two files, what each completed section brought is there at the end, and the files are what the sections make of them one after another |
| ColdStorage.Store.ArchiveFacts | compactor/facts.py:487-514 | entries replace archived rows of the same text; the sidecar's texts only grow |
| ColdStorage.ArchivedReplaces | compactor/facts.py:487-514 | an archived row makes way for an entry of its text, the others keep their order, and the entries follow them |
| ColdStorage.Store.PruneFacts | compactor/facts.py:1012-1073 | for any fate of the write: a row leaves the list only once it is in the sidecar; a failed archive write evicts nothing |
| ColdStorage.Store.Tail | compactor/main.py:5593-5637 | for any fates of the two writes both files are as stated: the touched rows and the new ones, pruned to the budget; the new rows are remembered, and every row that was active survives with at most a later last_used |
| ColdStorage.Store.BackfillWrite | compactor/backfill.py:362-390 | for any fates of the two writes both files are as stated; every row that was active when the lock was taken survives unchanged; only missing texts are added |
| ColdStorage.MergeBackfilled | compactor/backfill.py:238-266 | the existing rows followed by the unseen ones |
| ColdStorage.UnseenIsTheDifference | compactor/backfill.py:257-266 | the merge adds exactly the texts the store lacks, each once |
| ColdStorage.Store.ArchiveStale | compactor/facts.py:517-555 | exactly the unpinned rows older than the cutoff leave the active set, for the sidecar, once they are written there; the others stand as they stood |
| ColdStorage.Store.RestoreFromArchive | compactor/facts.py:558-612 | behind the active rows stands every matching archived row, once and in its order, with its own text, turn and pin and used just now, and nothing else; it leaves the sidecar only when that write has landed, and the rows left there are exactly the others |
| ColdStorage.Store.TidyApply | compactor/commands.py:1263-1336 | rows leave only for the sidecar, and only when there are any, the code is confirmed, the snapshot is taken and they are at most five or half of the store; for any fates of the writes both files are as stated, and the best copy of each text stays |
| ColdStorage.SurvivorsKeepBest | compactor/commands.py:978-1008 | collapsing copies never moves a text forward in the eviction order |
| ColdStorage.TidiedIsTidy | compactor/commands.py:1011-1041 | a tidied store holds nothing that is rejected and each text once |
| ColdStorage.TidySplits | compactor/commands.py:1011-1041 | the rows that stay are the keepers and the rows that go are the others, each once and in the order of the store |
| Retire.RetirePlan | compactor/commands.py:1522-1690 | the updates and moves of the plan are the folds and additions of the specification, and every update changes its row |
| Retire.Pair.Apply | compactor/commands.py:2085-2244 | without the code or the snapshot, or with nothing at the source, nothing is written and nothing cleared; otherwise, for any fates of the five writes, each of the four files is left as stated and the source counts as cleared exactly when no write that is made stops the run and none that was to add rows is lost; the end is as planned exactly if no fold was lost; at every crash point the source is untouched or the destination holds every text that was not rejected, even if writes silently do not land; with honest writes every crash point is a stage of the run |
| Retire.Pair.Migrate | compactor/commands.py:2165-2226 | for any fates, what the destination is left with; the counts read back agree exactly when no write that is made stops the run and none that was to add rows is lost, and then the destination holds every text that was not rejected |
| Retire.OnlyLostFoldsShow | compactor/commands.py:2175-2226 | where the counts agree, the destination is as planned exactly if no write of folds was lost |
| Retire.PinGoesUnnoticed | compactor/commands.py:2175-2226 | a lost write of a folded pin ends with the source cleared and no pin left |
| Retire.ResumeEndsTheSame | compactor/commands.py:2165-2244 | resuming from any interruption ends with the same destination rows |
| Retire.Attempts | compactor/commands.py:2085-2244 | tries of which none is both confirmed and snapshotted leave both conversations as they were; through any number of interrupted attempts, whatever writes are silently lost, no text leaves both conversations, and one uninterrupted attempt empties the source; while no write is lost, the destination of an emptied source is what one uninterrupted run gives |
| Retire.AbsorbAgain | compactor/commands.py:1602-1640 | absorbing again any part of what has been absorbed changes nothing |
| Retire.ConsideredOnce | compactor/commands.py:1551-1580 | one row is considered for each text that is not rejected |
| Retire.RowIsCarried | compactor/commands.py:1606-1640 | the destination holds each considered text with at least its pin and last_used |
| Retire.NewRowPin | compactor/commands.py:1564-1580 | a text new to the destination arrives pinned exactly when a copy in the layer it comes from was pinned |
| Retire.StandingRowPin | compactor/commands.py:1606-1630 | an active row of the destination ends pinned exactly when it was, or it is the first of its text and is offered a pin |
| Retire.StandingArchivedPin | compactor/commands.py:1606-1640 | the same of an archived row, for a text that no active row of the destination has |
| Retire.ArchivedPinIsLost | compactor/commands.py:1564-1580 | an archived pin is lost when an unpinned copy is active |
| FactMerge.MergeFactLists | compactor/portability.py:1341-1431 | the loop with its key index computes the merge; the counts add up, and nothing added or updated means nothing changed |
| FactMerge.DestinationIsKept | compactor/portability.py:1281-1321 | the destination's rows are a prefix with their texts, order and added_turn, and no less protection |
| FactMerge.KeysAreTheUnion | compactor/portability.py:1341-1431 | the keys of the result are those of both lists |
| FactMerge.MergingAgainChangesNothing | compactor/portability.py:1341-1431 | merging a source again changes nothing, whatever the floors of the two merges |
| FactMerge.MergeIsJoin | compactor/portability.py:1281-1321 | without a floor, the protection of each key is the join of its protections |
| FactMerge.MergeMeets | compactor/portability.py:1281-1338 | with any floor, what a merge makes of the protection of each key |
| FactMerge.OrderDoesNotMatter | compactor/portability.py:1341-1431 | into a list without duplicates, two sources can be merged in either order |
| FactMerge.NewRowsAreRaised | compactor/portability.py:1324-1338 | with a floor, no merged-in row looks older than it |
| FactMerge.FloorsDoNotCommute | compactor/portability.py:1324-1338 | with the floor of each merge, the older of two rows is raised only if it comes second |
| FactMerge.FloorsCommuteExactly | compactor/portability.py:1324-1431 | with the floor of each merge, two sources can be merged in either order exactly when, for every new key that only one of them brings, its use there or the newest use in the destination is no older than any keyed row of the other |
| FactMerge.FloorAfter | compactor/portability.py:1324-1338 | the floor that a merge leaves for the next, from the rows that went into it |
| TextClean.RuleCharsAre | compactor/textclean.py:47-53 | the rule characters are the two blocks and the listed ones, the run characters the six listed |
| TextClean.RuleCharCount | compactor/textclean.py:73-88 | counts the characters of decoration by runs |
| TextClean.TwoCountsMakeOne | compactor/textclean.py:73-88 | rule characters and runs are counted apart and add up to decoration |
| TextClean.StripRuleDecoration | compactor/textclean.py:100-144 | the method computes the stripped text |
| TextClean.StripKeepsContent | compactor/textclean.py:100-144 | the non-space characters of the stripped text are those of the text less its decoration, in order |
| TextClean.StripTakesWhatIsCounted | compactor/textclean.py:63-144 | what stripping takes off is exactly what counting counts |
| TextClean.StrippedHasNoRules | compactor/textclean.py:63-144 | a stripped text measures zero |
| TextClean.StripIsIdempotent | compactor/textclean.py:100-144 | stripping again changes nothing |
| TextClean.BlankOrGone | compactor/textclean.py:112-133 | a line without words stays as a blank line exactly when it has no rule character, and vanishes exactly when it has one |
| TextClean.ColumnsCloseUp | compactor/textclean.py:130-135 | of a gap of any width between two undecorated words that make a line, one blank is left |
| TextClean.SpacingKeptExactly | compactor/textclean.py:117-135 | a line with words becomes its words with single blanks, which is what it was without its decoration exactly if every space was one blank between two words |
| TextClean.ProseOfPlain | compactor/textclean.py:117-135 | of an undecorated line the spacing between its edges is kept exactly under that condition |
| TextClean.LeftAloneExactly | compactor/textclean.py:114-135 | a line is left as it is exactly if it is undecorated and every space in it is one blank between two words |
| TextClean.StripLeavesExactly | compactor/textclean.py:100-144 | a text is left as it is exactly if its lines are such lines and single blank lines between them, and none at either end |
| RetrievalBlock.EstimateTokens | compactor/retrieval.py:688-757 | the counting loop computes the price by character class |
| RetrievalBlock.Utf8LengthIsLeast | compactor/retrieval.py:741-757 | a character that is neither ASCII nor a letter or mark counts the fewest bytes that have room for its code point |
| RetrievalBlock.JoinedPrice | compactor/retrieval.py:741-757 | pricing two texts apart loses at most two tokens to rounding and gains at most one |
| RetrievalBlock.PrefixIsCheaper | compactor/retrieval.py:760-778 | every prefix is at most as dear as the text |
| RetrievalBlock.LongestPrefixWithin | compactor/retrieval.py:760-778 | the bisection returns the longest affordable prefix |
| RetrievalBlock.FormatRetrievalBlock | compactor/retrieval.py:781-848 | the whole exchanges kept are the longest chronological prefix charged within the budget; the opening of the first is shown exactly when not even it fits and enough room is left |
| RetrievalBlock.RenderedShows | compactor/retrieval.py:781-848 | the text of a block is the header and every kept exchange, heading and document, one behind the other and nothing else |
| RetrievalBlock.BlockBound | compactor/retrieval.py:781-848 | a block of whole exchanges costs at most the budget and two tokens for each |
| RetrievalBlock.TruncatedBlockCost | compactor/retrieval.py:825-836 | a truncated block costs at most the budget, the note and six tokens |
| EpisodicIndex.Index.NextTurnIndex | compactor/retrieval.py:293-327 | the seed, or two past the greatest ordinal of the conversation if that is more; the seed alone when the store does not answer |
| EpisodicIndex.Index.IndexExchange | compactor/retrieval.py:377-414 | succeeds exactly when the store is there, both texts are, and the text is known or can be embedded and written; a stored text is not touched again, a new one gets the next ordinal and comes after every row of its conversation, and a failure changes nothing |
| EpisodicIndex.Index.ImportIndexedExchange | compactor/retrieval.py:615-658 | succeeds exactly when the store is there, the text is, and it is known or can be embedded and written; a new row keeps the bundle's ordinal, a known one is not touched |
| EpisodicIndex.Run | compactor/retrieval.py:205-327 | over any run of calls with any client numbers no row is lost, every working call's row is there and every new row is one call's; while the probes answer, rows keep their ordinals and the rows of live exchanges only move forward |
| EpisodicIndex.MergeExchanges | compactor/portability.py:1597-1734 | an exchange is copied exactly when its turn number is free in the destination or its text is there already; whatever fails, every row is as it was or a copy at the ordinal of the source |
| EpisodicIndex.SameRowExactly | compactor/retrieval.py:159-161 | two exchanges are one row exactly when they are the same, or one user message goes on just as the reply to the other begins |
| EpisodicIndex.RepliesAreToldApart | compactor/retrieval.py:159-161 | two replies to one user message are one row only if they are equal |
| EpisodicIndex.PlainExchangesAreToldApart | compactor/retrieval.py:159-161 | and so are any two exchanges whose user messages do not hold the separator |

## Left out

- Restore: `shutil.move` is one step even across file systems; nothing recreates the store between the two renames of one move back; a recreated store directory is not empty; staging, fsync, free space, writer probes, tar and the integrity check are events; listing and pruning old set-asides and resuming an interrupted restore are not modelled.
- Restore: between two restores nothing else writes to the live paths, except that markers may be cleared by hand.
- Backup: creating and verifying archives, the payload ratio, the one-cycle comparison of censuses and the database scan are booleans of a cycle; two archives never share a modification time, and a new one is newer than all before it.
- Retention: the calendar is any assignment of days and weeks to modification times; ages are exact rationals.
- Deduplication: the verdict is a function of the multiset of texts, and which calls fail to give one is arbitrary in each pass; embeddings and cosine are an arbitrary relation on pairs; the key is the multiset itself rather than its hash.
- Deduplication inside the tail of an exchange is not part of `ColdStorage`, since a merge replaces texts by design; `DedupPass` accounts for it.
- Forgetting by command removes texts by design and is not a step of `ColdStorage`.
- Pruning without a conversation id evicts into the log only and is not modelled; a backfill's refusal of a store that has facts is not either, and its rows are any list.
- A list of facts never holds one object twice.
- Prompt selection: the similarity ranking is any permutation of the unpinned facts, or none.
- `archived_at` is not modelled, so rows are compared without it.
- The lists of rows that `/tidy` and `/retire` flag for reading, and their confirmation codes, are not modelled.
- Retirement: the other layers of a conversation, the snapshot and the confirmation code are booleans; the structural filter is any predicate on texts.
- Merging conversations: casefolding is any key function; the lock checks, the dry run and the eviction preview by origin are not modelled.
- Text: regular-expression substitution, splitting and stripping are functions on character sets listed in `TextClean`.
- Retrieval: the letter and mark categories are any predicate; a caller's own token counter is not modelled; the factors 1.25 and 1.05 are exact rationals.
- The episodic store is a map from conversation and text to ordinal, so two texts never share an identity; embeddings and queries are not modelled.
- HTTP, the language model, the summaries, personas, health checks, alerts, logs and all report texts.
