# Verified model of the P4Runtime switch test libraries

This project models six pieces of logic from a library that tests P4Runtime switches, and proves what
each of them is for. `dafny verify dfyconfig.toml` checks everything.

| part | files | what is modelled |
|---|---|---|
| Switch state | `P4Entries`, `EntryForms`, `StateModel`, `Statistics`, `ResourcePrediction`, `StateComparison`, `SwitchState`, `Runs`, `StoredTotals`, `ExhaustionMeaning` | the fuzzer's record of what a switch stores: every table twice, incremental totals, high-water marks, and when a switch may answer RESOURCE_EXHAUSTED |
| Response oracle | `OracleModel`, `OracleCounting`, `PermutationSearch`, `ExhaustionCheck`, `RejectionCounting`, `RejectionPlanning`, `RejectionVerdict`, `AnswerCounts`, `Oracle` | whether the answers to a batch can be explained by some order of execution, and what the verdict on rejections is worth |
| Batch generator | `ByteStrings`, `BitMasking`, `ActionProfileGroups`, `BatchGenerator` | unmutated updates that every order of execution accepts, groups that the state's own check accepts, and the masking loops behind random bit strings |
| Failure minimizer | `FailureMinimizer` | delta debugging by bisection over a callback that removes entities and reruns a test |
| Traffic bookkeeping | `TrafficGenerator` | injected and collected packets moving between live, residual and taken buffers and the outcomes |
| Undo log | `ProgrammingContext` | a stack of inverse write requests |
| Bit-vector values | `Z3Values` | three decoders of the text in which Z3 prints a bit vector |

`Common` holds shared vocabulary (permutations, filters, sums and maxima over maps).

## How it is built

Code that changes objects in place is a class here too (`SwitchState`, `Testbed`,
`TrafficGeneratorWithGuaranteedRate`, `P4rtProgrammingContext`, `BitString`), with the same loops. Each
method is tied to a function of the old state (`Apply`, `BookUpdate`, `LegalRun`, `Bisect`, `Step`,
`InverseRequest`, ...), and the theorems are lemmas about those functions, so they hold over all inputs,
all orders and all runs. The main operations are in addition characterized by what a caller sees: which
entries translate (`EntryForms`), how many entries, members, units of weight and replicas are stored
(`StoredTotals`, `ExhaustionMeaning`), and the entries, kinds and status codes at each position of a batch
(`AnswerCounts`).

The main results:

* **Locality.** A batch without RESOURCE_EXHAUSTED answers has a legal order exactly when every per-key
  group has one (`OracleModel.Locality`), and whether a group has one is decided by counting five kinds of
  answer (`OracleCounting.CountingDecides`). The search by next-permutation is complete
  (`Oracle.FindLegalPermutation`).
* **Exhaustion.** The "all inserts first" test never rejects a batch that some order explains, but it accepts
  batches that nothing explains. Exactly which: an accepted batch has an explanation if and only if every
  rejection is of a well-formed INSERT whose key is absent at some time, and each table with rejections
  passes a counting test on the keys that are ever present in it
  (`RejectionVerdict.AcceptedBatchExplainedIffFits`). This holds for any number of rejections, whatever else
  happens to their keys and tables; the cases of one rejection, of tables that nothing leaves and of isolated
  rejections follow.
* **Comparison.** Exactly when the comparison with a switch's entries is wrong in either direction: it
  accepts wrongly only repeated keys without multicast groups, and rejects wrongly only repeated keys, or
  raw keys that are not canonical beside multicast groups.
* **Exact statistics.** After any run of accepted updates and clears, every total and every high-water mark
  is what the history of states says it is, although MODIFY is counted as DELETE and INSERT and clearing
  does not reset peaks.
* **Order independence** of generated batches and of `SetEntities`.
* **Minimality.** For monotone failures the minimizer's result is minimal against any set of removals.
  Started on a failure, removal one by one leaves no single removable entity, for all candidates, exactly when
  a rejected entity stays rejected after another one is removed; the table-based algorithm exactly when each
  table on its own is bisected so and a rejected entity stays rejected when another table loses some of its
  entities. The order in which entities are settled and the number of test runs are exact or tightly bounded.
* **Groups the generator makes** pass the state's own check, except exactly under SumOfMembers with negative
  limits, and under SumOfWeights with a size below the 32-bit range, where the conversions to `int` wrap around.
* **Conservation** of injected records and collected packets over every interleaving.
* **Undo.** The inverse of an accepted request restores the state if and only if every touched key is
  touched an odd number of times, every DELETE carries a complete entity, and the last DELETE of a key that
  was present carries the stored one.

## Assumptions

* Canonicalization is a concrete model of leading-zero removal (P4Runtime Specification, section 8.4,
  Bytestrings) plus the checks needed to translate an entry; it is proved idempotent and to commute with
  taking the key. The translation rejects group members with a weight below one (p4_infra/p4_pdpi/ir.cc:762),
  so high-water marks of weights need no further assumption.
* Match fields and action parameters are maps from id to value; table, action and profile ids are integers.
* `ApplyUpdate` is claimed to keep the statistics exact only when it returns Ok. The model shows slightly
  more than the interface promises: the two copies of the tables stay in step even on an error.
* The oracle is asked about table entries, INSERT or DELETE, whose keys are canonical.
* Random draws are parameters; a generator run is an arbitrary finite sequence of choices. Generated entries
  and actions that are not mutated are assumed to translate (`BatchGenerator.ValidChoice`): the fuzzer draws
  them from the program's own description and stops if they do not.
* The removal callback removes a group exactly when the failure persists without it.
* `Revert` is a pop from the end of the list. The code erases the element behind its reverse iterator and then
  advances that iterator (lib/p4rt/p4rt_programming_context.cc:71-79), which works where erasing the last
  element of a vector leaves the iterator's address usable; the language does not promise that.
* A switch behind the undo log carries out a write request completely or, when it answers with an error,
  not at all.
* One thread validates traffic; injection and collection run concurrently with it. Appending the outcomes
  and returning them is one step. Returned results are copies: the constructor of the result takes a
  reference to const (dvaas/validation_result.cc:36-38), so moving the outcomes into it does not empty them.

## Model

| member | source | states |
|---|---|---|
| P4Entries.CanonicalIdempotent | p4_fuzzer/switch_state.cc:218-251 | a canonical form is a fixed point, and its key survives key-only canonicalization |
| P4Entries.CanonicalKeyCommutes | p4_fuzzer/switch_state.h:78-85 | the key of the canonical form is the stripped key, with or without the rest of the entry |
| EntryForms.TranslatesIff | p4_fuzzer/switch_state.cc:236-251 | exactly which entries have a canonical form: known table, fields and parameters within their widths, mandatory fields, priority, an action the table takes, positive weights |
| EntryForms.KeyTranslatesIff | p4_fuzzer/switch_state.cc:236-251 | exactly which keys have one |
| EntryForms.SameFormIff | p4_fuzzer/switch_state.cc:236-251 | two entries have one canonical form exactly when they agree in table, priority, metadata, weights and ports, and in the numbers denoted by match values and parameters |
| EntryForms.FormIsSame | p4_fuzzer/switch_state.cc:236-251 | the canonical form is such an entry itself |
| EntryForms.FormHasNoLeadingZeros | p4_fuzzer/switch_state.h:78-85 | no match value of a canonical form has a leading zero |
| EntryForms.SameKeyIff | p4_fuzzer/switch_state.cc:489-512 | key-only forms coincide exactly for the same table, priority and numbers in the match values |
| EntryForms.KeysDiffer | p4_infra/p4_pdpi/entity_keys.cc:109-136 | entries have the same key exactly when table, priority and matches are the same |
| ByteStrings.CanonicalIffSameValue | p4_fuzzer/switch_state.h:78-85 | two non-empty byte strings have the same canonical form exactly when they denote the same number |
| StateModel.ApplyKeepsWellFormed | p4_fuzzer/switch_state.h:62-67 | every stored entity stays canonical and under its own key after any accepted update |
| StateModel.LookupApply | p4_fuzzer/switch_state.cc:795-909 | an accepted update changes the lookup of its own key to its effect and no other lookup |
| StateModel.TableUpdateMeans | p4_fuzzer/switch_state.cc:808-908 | on which states an update of a table entry applies, and the tables it leaves |
| StateModel.MulticastUpdateMeans | p4_fuzzer/switch_state.cc:689-793 | the same for multicast groups |
| StateModel.DistinctKeysApply | p4_fuzzer/switch_state.cc:795-909 | updates on distinct keys run to the end exactly when each applies on its own; the result holds each effect and nothing else changes |
| StateModel.OrderIndependence | p4_fuzzer/switch_state.cc:795-909 | all orders of updates on distinct keys are accepted together and reach the same state |
| SwitchStates.SwitchState.constructor | p4_fuzzer/switch_state.cc:253-265 | a new state is empty, with exact statistics and zero peaks |
| SwitchStates.SwitchState.Copy | p4_fuzzer/oracle_util.cc:121-122 | a copy has the same contents, statistics and history |
| SwitchStates.SwitchState.ApplyUpdate | p4_fuzzer/switch_state.cc:795-909 | succeeds exactly when the update applies; both copies of the tables become the updated state; entries, members and weight of the table move by what comes and what goes, peaks have seen it, other tables stay; exactness is kept |
| SwitchStates.SwitchState.ApplyTableUpdate | p4_fuzzer/switch_state.cc:808-908 | the same for table entries, including the error paths that leave the tables alone |
| SwitchStates.SwitchState.ApplyMulticastUpdate | p4_fuzzer/switch_state.cc:689-793 | the same for multicast groups |
| SwitchStates.SwitchState.UpdateResourceStatistics | p4_fuzzer/switch_state.cc:534-626 | the error conditions, and the booked totals and peaks for INSERT, DELETE of the stored group, and MODIFY as both |
| SwitchStates.SwitchState.UpdateMulticastResourceStatistics | p4_fuzzer/switch_state.cc:628-687 | the same for multicast groups |
| SwitchStates.SwitchState.ClearTableEntries | p4_fuzzer/switch_state.cc:267-277 | empties all tables and current totals, keeps the peaks, and keeps everything exact |
| SwitchStates.SwitchState.SetEntities | p4_fuzzer/switch_state.cc:911-923 | succeeds exactly when inserting all entities into an empty state does, and then holds that state |
| SwitchStates.SwitchState.GetTableEntry | p4_fuzzer/switch_state.cc:489-512 | the two-step lookup answers the canonical lookup for every query |
| SwitchStates.SwitchState.ResourceExhaustedIsAllowed | p4_fuzzer/switch_state.cc:302-443 | the verdict, computed from incremental totals, is the verdict on the stored groups themselves, in every branch |
| SwitchStates.SwitchState.CheckConsistency | p4_fuzzer/switch_state.cc:1059-1144 | for copies with canonical entries under their own keys, succeeds exactly when the two copies are equal |
| SwitchStates.SwitchState.AssertEntriesAreEqualToState | p4_fuzzer/switch_state.cc:1146-1283 | which status the comparison ends with; for canonical entries with distinct keys, whether they are what is stored, up to the order of members and the mask, and without groups or a mask whether the two sets of entries are equal |
| SwitchStates.SwitchState.CompareEntries | p4_fuzzer/switch_state.cc:1184-1251 | finds an entry that cannot be canonicalized, or decides whether every entry agrees with the stored one |
| SwitchStates.SwitchState.FuzzerHasMore | p4_fuzzer/switch_state.cc:1253-1278 | erasing what was found from a copy leaves something exactly when some stored key was not found |
| Statistics.PeakIsMaximum | p4_fuzzer/switch_state.cc:605-626 | the recursive peak is an upper bound of the statistic over the history and is attained |
| Common.MaxIsLargest | p4_fuzzer/switch_state.cc:613-622 | the largest group of a table bounds all of them and is one of them, or zero |
| Statistics.InsertKeepsExact | p4_fuzzer/switch_state.cc:534-626 | counting an INSERT keeps a table's totals and peaks exact |
| Statistics.DeleteKeepsExact | p4_fuzzer/switch_state.cc:534-626 | counting a DELETE of the stored entry does |
| Statistics.ModifyKeepsExact | p4_fuzzer/switch_state.cc:585-596 | DELETE then INSERT leaves the peaks of the direct replacement: the intermediate state never shows |
| Statistics.PeakSkipsRemoval | p4_fuzzer/switch_state.cc:585-596 | a removal in the middle of a history changes no peak |
| Statistics.MulticastModifyKeepsExact | p4_fuzzer/switch_state.cc:652-664 | the same for multicast groups |
| Statistics.BookExact | p4_fuzzer/switch_state.cc:795-909 | all statistics of all tables stay exact across any accepted update |
| Statistics.ClearedBooksExact | p4_fuzzer/switch_state.cc:267-277 | clearing keeps totals and peaks exact |
| Statistics.CurrentTotals | p4_fuzzer/switch_state.h:40-60 | for every table entries, weight and members are the number of its entries and the sums over their groups; for multicast groups their number and the sum of replica counts; the global count is their total |
| StoredTotals.FiguresCountStored | p4_fuzzer/switch_state.h:40-60 | every current figure is the number of stored entries, members of groups, units of weight, groups or replicas |
| StoredTotals.TablePeaksCountStored | p4_fuzzer/switch_state.cc:605-626 | after any run the peaks for entries, members and weight of a table are the largest numbers of those stored at any time |
| StoredTotals.GroupPeaksCountStored | p4_fuzzer/switch_state.cc:613-622 | and the peaks for one group the sizes of the largest groups stored at any time |
| StoredTotals.MulticastPeaksCountStored | p4_fuzzer/switch_state.cc:673-687 | the same for multicast groups and replicas |
| StoredTotals.GlobalPeakCountsStored | p4_fuzzer/switch_state.cc:605-606 | and for all entries together |
| Runs.StepExact | p4_fuzzer/switch_state.cc:795-909 | a step is refused only when the update does not apply, and exactness survives it |
| Runs.RunExact | p4_fuzzer/switch_state.cc:795-909 | every state of every run is well formed with exact books |
| Runs.HistoryOfRun | p4_fuzzer/switch_state.cc:795-909 | the history over which peaks are taken holds the state before the first operation and after each one |
| Runs.HighWaterMarks | p4_fuzzer/switch_state.cc:605-626 | after any run from a fresh state each of a table's five peaks, and the global one, is the maximum over all states of the run |
| Runs.MulticastHighWaterMarks | p4_fuzzer/switch_state.cc:673-687 | the same for the three multicast peaks |
| ResourcePrediction.ReasonActionProfileCanAccommodateTableEntry | p4_fuzzer/switch_state.cc:104-209 | room, exhaustion or invalid argument, by the sums over the stored groups under either size semantics |
| ResourcePrediction.PredictionAgreesWithExecution | p4_fuzzer/switch_state.cc:302-443 | exhaustion is allowed exactly when executing the INSERT or MODIFY takes the table past a guaranteed limit, multicast limits included, and a MODIFY names a stored key as it is stored, which a canonical update always does |
| ExhaustionMeaning.TableVerdictMeans | p4_fuzzer/switch_state.cc:302-378 | the status code for an INSERT or MODIFY of a table entry, from the entries, members and units of weight that are stored and the limits of the profile |
| ExhaustionMeaning.MulticastVerdictMeans | p4_fuzzer/switch_state.cc:379-443 | the same for multicast groups |
| ResourcePrediction.PaddedModifyNotExcused | p4_fuzzer/switch_state.cc:104-209 | a MODIFY that overflows is not excused when a leading zero is put into its key, although it executes the same |
| ResourcePrediction.UnexcusedModify | p4_fuzzer/switch_state.cc:104-209 | such a MODIFY exists: it doubles the weight of the only group of a full table |
| ResourcePrediction.DeleteNeverExhausts | p4_fuzzer/switch_state.cc:302-312 | a DELETE may not be answered with exhaustion, and no measure grows by it |
| StateComparison.RawKeyIsCanonical | p4_fuzzer/switch_state.cc:489-512 | a raw key that is stored is canonical, which justifies the fast path |
| StateComparison.ComparisonDecidesEquality | p4_fuzzer/switch_state.cc:1146-1283 | for canonical entries with distinct keys and no mask, the comparison succeeds exactly when the entries are the stored table entries, multicast groups present or not |
| StateComparison.ComparisonMeans | p4_fuzzer/switch_state.cc:1184-1251 | under any mask, canonical entries with distinct keys pass exactly when each is stored with equal metadata and an equal action (members in any order) or masked, and no stored key is missing |
| StateComparison.ComparisonMeansEquality | p4_fuzzer/switch_state.cc:1184-1251 | without groups and mask, exactly when the set of entries is the set of stored table entries |
| StateComparison.WronglyAccepted | p4_fuzzer/switch_state.cc:1146-1283 | entries that are not the stored ones pass exactly when no multicast group is stored, their number is right, each agrees with the stored one, and a key is repeated |
| StateComparison.WronglyRejected | p4_fuzzer/switch_state.cc:1146-1283 | entries that are the stored ones fail exactly when a key is repeated, or a multicast group is stored and a reported key is not canonical |
| StateComparison.ComparisonOfRawEntries | p4_fuzzer/switch_state.cc:1146-1283 | for distinct canonical keys, success means that the canonical forms are the stored entries and, if a multicast group is stored, that the reported keys are canonical |
| StateComparison.RepeatedEntryPasses | p4_fuzzer/switch_state.cc:1146-1283 | without multicast groups, one of at least two stored entries read as often as there are entries passes for all of them |
| StateComparison.PaddedKeyRejected | p4_fuzzer/switch_state.cc:1253-1278 | beside a multicast group the stored entries are rejected when one is reported with a leading zero in its key |
| StateComparison.SetSucceedsIffInstallable | p4_fuzzer/switch_state.cc:911-923 | setting succeeds exactly on entities that canonicalize to pairwise distinct keys |
| StateComparison.SetIsOrderIndependent | p4_fuzzer/switch_state.cc:911-923 | success and result do not depend on the order of the entities |
| Oracle.UpdateOracle | p4_fuzzer/oracle_util.cc:49-108 | one answer is judged as the abstract state says |
| OracleModel.StepIsLocal | p4_fuzzer/oracle_util.cc:66-108 | an answer is judged by, and changes, the presence of its own key only |
| OracleModel.RunDecomposes | p4_fuzzer/oracle_util.cc:115-153 | a sequence is legal exactly when its restriction to every key is |
| OracleModel.Projection | p4_fuzzer/oracle_util.cc:172-190 | a legal order of the batch restricts to a legal order of each group |
| OracleModel.Merging | p4_fuzzer/oracle_util.cc:172-226 | legal orders of all groups combine to one of the batch |
| OracleModel.Locality | p4_fuzzer/oracle_util.cc:115-258 | every per-key group is explainable exactly when the whole batch is |
| OracleCounting.LegalOrderCounts | p4_fuzzer/oracle_util.cc:66-108 | every legal order passes the counting test and ends with the presence the balance gives |
| OracleCounting.CountingDecides | p4_fuzzer/oracle_util.cc:193-226 | a group is explainable exactly when no answer is impossible, p+I-D is 0 or 1, and ALREADY_EXISTS and NOT_FOUND answers each have a moment at which they are right |
| AnswerCounts.KeyExplainedIff | p4_fuzzer/oracle_util.cc:156-258 | the answers to one key are explained exactly when untranslatable entries, and only those, are invalid arguments, the others suit their kinds, and the counts of successful INSERTs and DELETEs alternate and leave a moment for every ALREADY_EXISTS and NOT_FOUND |
| AnswerCounts.SingleAnswer | p4_fuzzer/oracle_util.cc:49-108 | the one right answer to a single update |
| AnswerCounts.SingleRejection | p4_fuzzer/oracle_util.cc:88-95 | RESOURCE_EXHAUSTED alone is right exactly for an INSERT of an absent key into a full table |
| AnswerCounts.ValidityUnexplained | p4_fuzzer/oracle_util.cc:35-60 | no order explains an invalid argument for an entry that translates, or another answer for one that does not |
| AnswerCounts.UnexcusedIff | p4_fuzzer/oracle_util.cc:260-298 | a rejection is not excused exactly when stored entries and successful INSERTs together leave room |
| OracleCounting.LegalOrdersAgree | p4_fuzzer/oracle_util.cc:193-226 | all legal orders of a group leave the key equally present |
| PermutationSearch.NextPermutation | p4_fuzzer/oracle_util.cc:223-226 | the next ordering in lexicographic order with nothing in between, or notice that there is none |
| PermutationSearch.LessIrreflexive | p4_fuzzer/oracle_util.cc:193-226 | no ordering precedes itself, so the search never returns to one |
| PermutationSearch.AscendingIsFirst | p4_fuzzer/oracle_util.cc:193-226 | the order in which a group is built precedes all others |
| PermutationSearch.LessRanks | p4_fuzzer/oracle_util.cc:193-226 | the rank that grows at every step, which bounds the search |
| Oracle.SequenceOfUpdatesOracle | p4_fuzzer/oracle_util.cc:115-153 | accepts exactly the legal sequences, on a copy of the state |
| Oracle.JudgeOrdering | p4_fuzzer/oracle_util.cc:199-217 | the shortcut for a single update gives the verdict of the general case |
| Oracle.FindLegalPermutation | p4_fuzzer/oracle_util.cc:193-226 | the search terminates and finds a legal order exactly when there is one |
| Oracle.GroupByKey | p4_fuzzer/oracle_util.cc:172-190 | each group holds exactly the non-exhausted updates of its key, in batch order |
| Oracle.CountInserts | p4_fuzzer/oracle_util.cc:260-276 | successful INSERTs per table |
| Oracle.WriteRequestOracle | p4_fuzzer/oracle_util.cc:156-302 | reports exactly the keys without an explanation, which are those whose answers do not add up, among them every wrong or missing INVALID_ARGUMENT, and exactly the rejections with room for one more entry |
| ExhaustionCheck.OccupancyBound | p4_fuzzer/oracle_util.cc:260-298 | in every order, a table holds at most its initial entries plus the successful INSERTs so far |
| ExhaustionCheck.ExcusedWhenFull | p4_fuzzer/oracle_util.cc:277-298 | a rejection is excused if in any order the table is full when it is processed |
| ExhaustionCheck.ExplainedBatchAccepted | p4_fuzzer/oracle_util.cc:156-302 | no false alarm: a batch that some order explains, rejections included, is accepted |
| ExhaustionCheck.AcceptedIffExplained | p4_fuzzer/oracle_util.cc:156-258 | without rejections the verdict is exact |
| RejectionCounting.ExplainedBatchFits | p4_fuzzer/oracle_util.cc:277-298 | if some order explains a batch, every rejection is of a well-formed INSERT whose key is absent at some time, and every table with rejections passes the counting test |
| RejectionPlanning.FittingBatchExplained | p4_fuzzer/oracle_util.cc:156-302 | if every group is explainable and the rejections pass that test, some order explains the whole batch |
| RejectionVerdict.AcceptedBatchExplainedIffFits | p4_fuzzer/oracle_util.cc:156-302 | a batch has an explanation exactly when it is accepted and its rejections pass the counting test |
| RejectionVerdict.OneRejection | p4_fuzzer/oracle_util.cc:277-298 | an accepted batch with one rejection has an explanation exactly when that is of a well-formed INSERT whose key is absent at some time while the other keys that are ever present fill the table |
| RejectionVerdict.RejectionsIntoGrowingTables | p4_fuzzer/oracle_util.cc:277-298 | when nothing leaves the tables with rejections: exactly when each rejection is of a well-formed INSERT of a key absent at first, and the keys inserted as well as rejected are few enough |
| RejectionVerdict.VerdictExactWhenIsolated | p4_fuzzer/oracle_util.cc:277-298 | the verdict is exact when each rejection is of an INSERT of an absent key that the batch does not insert or delete, into a table that nothing leaves |
| RejectionVerdict.MisplacedRejectionPasses | p4_fuzzer/oracle_util.cc:277-298 | a malformed update, a DELETE or an INSERT of a present key answered RESOURCE_EXHAUSTED on a full table passes although nothing explains it |
| RejectionVerdict.InsertedAndRejectedPasses | p4_fuzzer/oracle_util.cc:277-298 | so does a key inserted once and rejected once with one place left |
| BatchGenerator.UniqueReplicas | p4_fuzzer/fuzz_util.cc:723-751 | the replicas drawn, each once, in the order in which they first appear |
| BatchGenerator.FuzzNonKeyFields | p4_fuzzer/fuzz_util.cc:723-809 | exactly the chosen fields change: the key stays, the action is the old or the drawn one, replicas are unique |
| BatchGenerator.FuzzUpdate | p4_fuzzer/fuzz_util.cc:940-991 | the update its choices make: its kind, its key, what is kept of a stored entity; an unmutated one is canonical, and a MODIFY or DELETE aims at a stored key |
| BatchGenerator.StoredStaysOnTarget | p4_fuzzer/fuzz_util.cc:962-991 | changing non-key fields of a stored entity leaves its canonical key stored |
| BatchGenerator.IsAccidentallyInvalidUpdate | p4_fuzzer/fuzz_util.cc:468-538 | decides exactly the four reasons for which an unmutated update may not join the request; a canonical one is refused exactly when its key is taken, it is buggy, it inserts what is stored, or a guaranteed table has no room for one more |
| BatchGenerator.AcceptableIff | p4_fuzzer/fuzz_util.cc:468-538 | that, from what is stored and what the request holds |
| BatchGenerator.FirstFitJoins | p4_fuzzer/fuzz_util.cc:1646-1681 | a request that is not full grows by the first of ten thousand draws that may join |
| BatchGenerator.NoFitChangesNothing | p4_fuzzer/fuzz_util.cc:1658-1681 | and stays as it is when none may |
| BatchGenerator.FuzzWriteRequest | p4_fuzzer/fuzz_util.cc:1646-1681 | exactly the acceptable candidates join until the request is full; unmutated updates have distinct keys, each applies to the generating state, and guaranteed tables have room for all their INSERTs |
| BatchGenerator.FindCandidate | p4_fuzzer/fuzz_util.cc:1658-1671 | the first acceptable of ten thousand draws, or the last of them |
| BatchGenerator.AddingKeepsInvariant | p4_fuzzer/fuzz_util.cc:1646-1681 | the invariant of the generating loop |
| BatchGenerator.AnyOrderExecutes | p4_fuzzer/fuzz_util.cc:1646-1681 | every permutation of the unmutated updates runs to the end, to the same state and statistics |
| BatchGenerator.NeverOverfull | p4_fuzzer/fuzz_util.cc:503-527 | at no point of any order does a guaranteed table that receives an INSERT exceed its size |
| ActionProfileGroups.FuzzActionProfileAction | p4_fuzzer/fuzz_util.cc:442-459 | weights from 1 up to but not including the bound, or 1 |
| ActionProfileGroups.FuzzActionProfileActionSet | p4_fuzzer/fuzz_util.cc:1396-1489 | when a group is produced, how many members it has and which; whether it passes the per-group checks: under SumOfMembers exactly without negative limits, under SumOfWeights exactly when it meets the group limit, which sizes from -2^31 on ensure; and under SumOfWeights it fits an empty profile exactly for those sizes |
| ActionProfileGroups.FuzzWeights | p4_fuzzer/fuzz_util.cc:1471-1485 | the unallocated weight stays at least the number of remaining members, every member gets what its draw picks within that, and the budget is used up exactly when it equals the number of members |
| ActionProfileGroups.EveryGroupPassesIff | p4_fuzzer/fuzz_util.cc:1442-1486 | under SumOfWeights every group that can be drawn passes the per-group checks exactly when there is no group limit, the size is at least -2^31, or the heaviest possible group meets the limit |
| ActionProfileGroups.MembersDrawn | p4_fuzzer/fuzz_util.cc:1408-1430 | under SumOfMembers every number of members up to the limit can be drawn |
| ActionProfileGroups.MemberWeights | p4_fuzzer/fuzz_util.cc:1417-1428 | and exactly the weights below the member limit, or 4095 |
| ActionProfileGroups.WrappedSizeIsTooHeavy | p4_fuzzer/fuzz_util.cc:1442-1486 | a negative size that wraps around to 5: a group of weight 5 for a profile that allows 3 |
| ActionProfileGroups.WeightsDrawn | p4_fuzzer/fuzz_util.cc:442-459 | the weights that some draw gives are 1 and those below the bound, never the bound itself when it exceeds 1 |
| BitMasking.SetUnusedBitsToZero | p4_fuzzer/fuzz_util.cc:1143-1161 | the result denotes the argument modulo 2^k |
| BitMasking.ZeroNLeastSignificantBits | p4_fuzzer/fuzz_util.cc:1163-1182 | the result denotes the argument minus its remainder modulo 2^k |
| BitMasking.FuzzBits | p4_fuzzer/fuzz_util.cc:1189-1196 | the drawn bytes modulo 2^bits, in as few bytes as possible |
| BitMasking.FuzzBitsInBytes | p4_fuzzer/fuzz_util.cc:434-440 | the drawn bytes modulo 2^bits |
| BitMasking.FuzzLpmFieldMatch | p4_fuzzer/fuzz_util.cc:1270-1296 | the drawn value minus its remainder modulo 2^(bits-prefix): below 2^bits and divisible by 2^(bits-prefix), as section 9.1.1 of the P4Runtime Specification requires |
| BitMasking.PrefixLengthsDrawn | p4_fuzzer/fuzz_util.cc:1270-1285 | every prefix length but zero can be drawn, and every multiple of eight when those are favoured |
| BitMasking.LowMask | p4_fuzzer/fuzz_util.cc:1153-1158 | masking with 2^k-1 is the remainder modulo 2^k |
| BitMasking.HighMask | p4_fuzzer/fuzz_util.cc:1172-1180 | masking with the complement subtracts that remainder |
| FailureMinimizer.BisectAchieves | dvaas/failure_post_processing.cc:97-127 | one bisection removes candidates only, keeps the failure, rejected every remaining candidate on its own, and settles each candidate once, last first |
| FailureMinimizer.SecondHalfNext | dvaas/failure_post_processing.cc:97-127 | a group that cannot be removed is split in the middle, and the second half is tried next |
| FailureMinimizer.SweepAchieves | dvaas/failure_post_processing.cc:157-163 | the same for the groups of all tables, last table first |
| FailureMinimizer.OneByOneAchieves | dvaas/failure_post_processing.cc:63-95 | the same for removal one by one |
| FailureMinimizer.OneTrialEach | dvaas/failure_post_processing.cc:63-95 | one trial per entity, from the back |
| FailureMinimizer.RemainderIsMinimal | dvaas/failure_post_processing.h:27-41 | for a monotone failure no non-empty set of remaining candidates can be removed |
| FailureMinimizer.OneByOneMinimalIff | dvaas/failure_post_processing.cc:63-95 | started on a failing set, removal one by one leaves nothing removable, for all candidates, exactly when a rejected entity stays rejected after the removal of any other |
| FailureMinimizer.SweepMinimalIff | dvaas/failure_post_processing.cc:157-163 | bisection of arbitrary groups of a failing set leaves nothing removable exactly when a rejected entity stays rejected after the removal of any others |
| FailureMinimizer.BisectOneMinimal | dvaas/failure_post_processing.cc:97-127 | bisection of one group of a failing set leaves nothing removable if a rejected entity stays rejected after the removal of others, as far as it is among candidates that cannot go all together |
| FailureMinimizer.BisectNeedsLess | dvaas/failure_post_processing.cc:97-127 | that is strictly less than what removal one by one and bisection of arbitrary groups need |
| FailureMinimizer.BisectLeavesRemovable | dvaas/failure_post_processing.cc:97-127 | a rejected entity that becomes removable stays, in a single group too, if some other entity cannot be removed after the others, with it or without |
| FailureMinimizer.MonotoneStaysRejected | dvaas/failure_post_processing.h:27-41 | monotone failures keep rejected entities rejected |
| FailureMinimizer.RejectedBecomesRemovable | dvaas/failure_post_processing.cc:63-95 | a failure for which a rejected entity becomes removable, and stays |
| FailureMinimizer.BisectCost | dvaas/failure_post_processing.cc:97-127 | at most 2n-1 trials |
| FailureMinimizer.BisectCostIsTight | dvaas/failure_post_processing.cc:97-127 | exactly 2n-1 trials when nothing can be removed |
| FailureMinimizer.SweepByTable | dvaas/failure_post_processing.cc:129-165 | what the table-based algorithm achieves, within 2m-g trials for m entities of g tables |
| FailureMinimizer.SweepByTableMinimalIff | dvaas/failure_post_processing.cc:129-165 | started on a failing set, the table-based algorithm leaves nothing removable, for all groupable entities with named tables, exactly when bisection of each single table does and a rejected entity stays rejected when one other table loses entities |
| FailureMinimizer.ByTablePartitions | dvaas/failure_post_processing.cc:133-155 | the groups concatenate to the filtered input and each is of one table |
| FailureMinimizer.OneGroupPerTable | dvaas/failure_post_processing.cc:133-155 | there are as many groups as tables |
| FailureMinimizer.GroupsAreUniform | dvaas/failure_post_processing.cc:133-155 | a group holds table entries of one table, or multicast groups, or clone sessions |
| FailureMinimizer.GroupableExtends | dvaas/failure_post_processing.cc:143-153 | remembering the current and the seen names is enough to notice a table that recurs |
| FailureMinimizer.GroupByTable | dvaas/failure_post_processing.cc:129-155 | fails exactly when an entity has no table or a table recurs after a different one; otherwise the groups hold exactly the entities with any content |
| FailureMinimizer.Testbed.TestIfEntitiesCanBeRemoved | dvaas/failure_post_processing.h:21-31 | the contract of the callback: removed exactly when the failure persists, or an error |
| FailureMinimizer.Testbed.TryToDeleteAndBisect | dvaas/failure_post_processing.cc:97-127 | carries out the specified trials in order, or stops at the first call that ends in an error |
| FailureMinimizer.Testbed.TableBasedBisection | dvaas/failure_post_processing.cc:129-165 | refuses ungroupable input without a call; otherwise carries out the sweep over the reversed groups |
| FailureMinimizer.Testbed.RemoveEntitiesOneByOne | dvaas/failure_post_processing.cc:63-95 | carries out one trial per entity from the back |
| FailureMinimizer.Testbed.DoEntityMinimization | dvaas/failure_post_processing.cc:24-39 | on success the chosen algorithm's guarantees; always its bound on calls |
| TrafficGenerator.RunConserves | dvaas/traffic_generator.cc:252-503 | conservation after every run, whatever the interleaving |
| TrafficGenerator.StepConserves | dvaas/traffic_generator.cc:252-503 | every step keeps tags in order, records and packets conserved, and produced outcomes equal to returned plus pending ones |
| TrafficGenerator.JudgeKeepsRecords | dvaas/traffic_generator.cc:459-493 | judging splits the records by the cutoff time, losing none |
| TrafficGenerator.JudgeKeepsPackets | dvaas/traffic_generator.cc:459-503 | judging moves packets of a tag only to outcomes of that tag |
| TrafficGenerator.EachRecordInOnePlace | dvaas/traffic_generator.cc:252-503 | an injected record is in exactly one of live, residual and taken records and outcomes, once |
| TrafficGenerator.OneOutcomePerInjection | dvaas/traffic_generator.cc:459-503 | outcomes are those of injected records, with pairwise different tags |
| TrafficGenerator.OutcomeReportsOwnPackets | dvaas/traffic_generator.cc:470-475 | an outcome reports only packets that arrived with its tag |
| TrafficGenerator.JudgedTagIsFinal | dvaas/traffic_generator.cc:459-503 | once a tag has its outcome, packets that arrive for it later are never reported, whatever events follow |
| TrafficGenerator.EachOutcomeReturnedOnce | dvaas/traffic_generator.cc:604-611 | get-and-clear calls return every outcome exactly once, in order |
| TrafficGenerator.FinishSettles | dvaas/traffic_generator.cc:459-493 | each taken record from before the cutoff gets its outcome, which reports exactly the packets of its tag that had arrived when the outputs were taken; only later records remain |
| TrafficGenerator.ValidationSettles | dvaas/traffic_generator.cc:417-503 | over a whole validation, whatever the other threads do meanwhile: every record that was live or left over and was injected before it began has its outcome, with exactly the packets of its tag that had arrived when they were taken; every other is left over again, in order |
| TrafficGenerator.JudgeInOrder | dvaas/traffic_generator.cc:459-493 | outcomes and records left over are in the order of the records |
| TrafficGenerator.TrafficGeneratorWithGuaranteedRate.constructor | dvaas/traffic_generator.h:260-310 | tags start at 1 and all buffers are empty |
| TrafficGenerator.TrafficGeneratorWithGuaranteedRate.PrepareTestVector | dvaas/traffic_generator.cc:268-285 | a tag is consumed even when the vector is skipped, which is exactly a packet-out or submit-to-ingress vector while packet-ins are ignored; the others are in flight with the tag, their input and contents kept |
| TrafficGenerator.TrafficGeneratorWithGuaranteedRate.RecordInjection | dvaas/traffic_generator.cc:303-308 | appends the record with the tag that was sent |
| TrafficGenerator.TrafficGeneratorWithGuaranteedRate.RecordForwarded | dvaas/traffic_generator.cc:362-383 | appends the packet to the forwarded packets of its tag |
| TrafficGenerator.TrafficGeneratorWithGuaranteedRate.RecordPunted | dvaas/traffic_generator.cc:385-402 | appends the packet to the punted packets of its tag |
| TrafficGenerator.TrafficGeneratorWithGuaranteedRate.StartValidation | dvaas/traffic_generator.cc:417-436 | takes live records, then residual ones |
| TrafficGenerator.TrafficGeneratorWithGuaranteedRate.SwapCollected | dvaas/traffic_generator.cc:438-451 | takes live outputs and adds the residual ones per tag |
| TrafficGenerator.TrafficGeneratorWithGuaranteedRate.GetValidationResult | dvaas/traffic_generator.cc:459-503 | judges, keeps the rest as residual, appends the outcomes and returns all pending ones |
| TrafficGenerator.TrafficGeneratorWithGuaranteedRate.GetAndClearValidationResult | dvaas/traffic_generator.cc:604-611 | the same, and forgets what it returned |
| ProgrammingContext.InvertP4rtRequest | lib/p4rt/p4rt_programming_context.cc:31-47 | the updates in the same order with INSERT and DELETE exchanged |
| ProgrammingContext.InverseAccepted | lib/p4rt/p4rt_programming_context.cc:31-47 | from which states the inverse of an accepted request is itself accepted |
| ProgrammingContext.PresenceAlternates | lib/p4rt/p4rt_programming_context.cc:56-69 | accepted updates alternate on a key, so presence returns exactly after an even number |
| ProgrammingContext.InverseRestoresIffReversible | lib/p4rt/p4rt_programming_context.h:61-63 | the inverse restores the state if and only if the request is reversible |
| ProgrammingContext.DistinctKeysReversible | lib/p4rt/p4rt_programming_context.cc:56-69 | on distinct keys that means that each DELETE carries the stored entity |
| ProgrammingContext.InsertThenDeleteIsNotUndone | lib/p4rt/p4rt_programming_context.cc:31-47 | an INSERT followed by a DELETE of the same key in one request is never undone |
| ProgrammingContext.P4rtProgrammingContext.SendWriteRequest | lib/p4rt/p4rt_programming_context.cc:56-69 | refuses other update types before writing; pushes the inverse only after a successful write; the state that undoing leads to is unchanged by a reversible request |
| ProgrammingContext.P4rtProgrammingContext.Revert | lib/p4rt/p4rt_programming_context.cc:71-79 | on success the stack is empty and the switch is where undoing led; on an error the rest remains and undoing leads to the same state; it succeeds when no write is refused |
| ProgrammingContext.StepKeepsUnwinding | lib/p4rt/p4rt_programming_context.cc:56-79 | no write, accepted, refused or inverse, changes where unwinding leads |
| ProgrammingContext.SessionUnwinds | lib/p4rt/p4rt_programming_context.h:27-63 | over every session, partial reverts included, unwinding leads back to the first state |
| Z3Values.HexStringToByteString | p4_infra/string_encodings/hex_string.cc:73-101 | accepts exactly prefixed even-length hexadecimal strings; the bytes have the bits of the digits |
| Z3Values.DigitsInOrder | p4_infra/string_encodings/hex_string.cc:143-180 | the characters of both alphabets are the digits, in order |
| Z3Values.BitString.AppendBits | p4_infra/string_encodings/bit_string.h:52-57 | the eight bits of a byte, most significant first |
| Z3Values.BitString.AppendHexString | p4_infra/string_encodings/bit_string.h:65-70 | all bits of the string, or nothing |
| Z3Values.AppendBitCharStringToPDPIBitString | p4_symbolic/z3_util.cc:48-83 | when it succeeds, and what has been appended in every case, errors included |
| Z3Values.AppendHexCharStringToPDPIBitString | p4_symbolic/z3_util.cc:92-124 | the same for hexadecimal strings of even and odd length |
| Z3Values.AppendZ3ValueStringToBitString | p4_symbolic/z3_util.cc:266-281 | succeeds exactly on well-formed values of at most the width, and appends exactly that many bits denoting the value |
| Z3Values.HexBitsValue | p4_symbolic/z3_util.cc:107-124 | the bits of a hexadecimal string denote the number of its digits |
| Z3Values.IntAgrees | p4_symbolic/z3_util.cc:247-264 | the 64-bit decoder reads the same number, exactly when there is a digit and 64 bits suffice |
| Z3Values.UInt128Agrees | p4_symbolic/z3_util.cc:190-233 | the 128-bit decoder reads the same number, exactly when there is a digit |
| Z3Values.SplitHalves | p4_symbolic/z3_util.cc:215-226 | the high and low 64-bit halves recombine, and the high one overflows exactly when 128 bits do not suffice |
| Z3Values.DecodersAgree | p4_symbolic/z3_util.cc:48-281 | all three decoders agree on every value with a digit within their widths |
| Z3Values.EmptyValues | p4_symbolic/z3_util.cc:247-281 | text without a digit is accepted as zero bits but read as no integer |
| Z3Values.StoullReads | p4_symbolic/z3_util.cc:247-264 | an integer is read from the digits after spaces and a sign, whatever follows them; a negative one is its complement in 64 bits |
| Z3Values.StoullThrows | p4_symbolic/z3_util.cc:247-264 | text that does not start with a digit throws |
| Z3Values.SimpleHexAtoiReads | p4_symbolic/z3_util.cc:190-214 | 128-bit hexadecimal text may have spaces around it, a plus sign or "0x", but no minus sign |
| Z3Values.BooleanValues | p4_symbolic/z3_util.cc:255-260 | "true" is 1 and "false" is 0 |
| Z3Values.DecimalValues | p4_symbolic/z3_util.cc:260-263 | decimal digits are read as their number, below 2^64 |
| Z3Values.RefusedValues | p4_symbolic/z3_util.cc:170-233 | what is refused as too wide for 64 or 128 bits, or as no bit vector |

## Left out

* 32-bit and 64-bit integer limits of counters, statistics and tags, except the truncation of a profile size in the group generator and the 64-bit and 128-bit decoders.
* Translation between P4Runtime messages and their intermediate form beyond leading zeros, widths, mandatory fields, priorities, actions and weights: match kinds, string formats, backup replicas, meters and counters.
* Repeated match-field ids in a raw key, and the order of match fields.
* The second comparison in intermediate form inside `AssertEntriesAreEqualToState`, `GetEntity`, summaries and error texts.
* Clone sessions and other entities in the fuzzer's switch state.
- ResourcePrediction.PredictionAgreesWithExecution: an action profile is charged by its own table only, as the code does; profiles shared between tables are not added up.
* Mutated updates, references between entries, ports, probabilities and table constraints in the generator.
- BatchGenerator.FuzzWriteRequest: choices are total functions of the iteration and the attempt, so almost-sure termination and distributions are not modelled.
- FailureMinimizer.BisectOneMinimal: for a single group the condition is sufficient; `BisectLeavesRemovable` gives violations of it that do harm, but others need not, so it is not exact. `SweepByTableMinimalIff` is exact for what one table does to another and takes the bisection of each table as it is.
* Comparison of failures when minimizing, and the caller in which bisection is unreachable.
- FailureMinimizer.Testbed.TableBasedBisection: assumes non-empty table names, as the code does; with an empty first name the code would use an empty list.
* Thread lifecycle, sleeping, error states and error returns of the traffic generator, labels, packet traces, test artifacts and the verdict on each test run.
- TrafficGenerator.TrafficGeneratorWithGuaranteedRate.GetValidationResult: the function is three steps here because other threads run between its lock-protected sections; iteration over residual outputs is in arbitrary order.
- ProgrammingContext.P4rtProgrammingContext.SendWriteRequest: a request of which a switch carries out only a part before reporting an error is not modelled; the destructor, which calls Revert, is not either.
* Consuming bits from the front of a bit string, evaluation by the solver, and construction of solver expressions.
