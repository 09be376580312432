# Verified model of the prediction pipeline's core

The repository is a point-in-time prediction pipeline that refuses rather than guesses. This project
models the parts of it that decide something by their own logic, and proves what they promise.

| module | what it models |
|---|---|
| Prelude | options, results, filters, sorting and text order |
| EventAssignment, EventEvidence | which news events each decision may see, through which windows |
| EventFeatures, AssignmentIntegrity | features folded from that evidence, and the audit of saved evidence |
| Intervals, SymbolMaster, Membership | half-open validity intervals: symbol resolution, membership audit and join |
| ShadowLedger, LedgerText | the hash-chained evidence ledger, as lines and as the text of its file |
| PromotionWorkflow | the promotion protocol over that ledger |
| ReleaseStore, ReleaseInventory | the content-addressed release store with its one active pointer |
| RateLimiter | the token buckets of the API and their least-recently-used map |
| HttpRecords, PageReceipts | receipted collection of provider pages and its verification |
| PollChain | identity, quarantine and coverage along a chain of polls |
| BarrierPaths | target, stop and timeout outcomes, as columns and as a scan |
| WalkForward | the purged walk-forward splitter |

Time stamps are integers; prices, weights and tokens are reals; a missing value is `None`. Hashes are
uninterpreted functions, assumed injective only where a lemma says so. Clocks, provider answers,
randomly named directories and the outcomes of library checks (signatures, tokens, schemas) are
parameters. File systems are maps, a rename is atomic, and locks exclude each other and end with
their process.

Where the source changes state, the model is a class or a method with a loop, proved against a
specification function or predicate; the properties are then proved of that specification.

## What the proofs found

Each of these is a lemma with a concrete input or an exact condition.

- The rate bound over the elapsed time needs clock readings in lock order. The clock is read before
  the lock is taken, and a reading that goes back lets the same minute be earned again
  (`ReorderedReadingsBreakTheRate`). What holds of all runs is the bound by the forward motion of the
  clock (`AcceptedByForwardMotion`), and it is attained (`ForwardBoundIsAttained`).
- With repeated event ids, a revision that becomes available later but is listed first hides the one
  that was available in time (`LaterRevisionHidesEarlier`, exact condition in `NoLookAheadExactlyWhen`).
- A table in which two equal event rows both follow an earlier row with their id fails its own
  integrity audit (`RebuildIsCleanExactlyWhen`).
- The comment at outcome_bars.py:440-441 says a clock step can never make a stored receipt fail its
  own verification. It can, for a failed attempt without a page (`ClockStepBackBreaksAPagelessReceipt`,
  exact condition in `Collection.Collect`).
- The receipt loader accepts a page chain that starts over, although collection never writes one
  (`RestartedChainLoads`, exact condition in `CompleteReceiptWalksExactlyWhen`).
- A ledger file that lacks only its last newline, as a cut append can leave it, still loads; the next
  call appends to that line, reports success, and leaves a ledger that no longer loads
  (`AppendKeepsTheLedgerExactlyWhen`, `TornAppendExactlyWhen`).
- Along a poll chain, a blank security id is not remembered (`BlankIdentityIsForgotten`, exact condition
  in `EligibleAgainExactlyWhen`), and a ticker that is absent from one poll comes back without its
  quarantine (`AbsenceForgetsQuarantine`; `FirstSightIsFresh` and `QuarantineEndsOnlyByAbsence` say that
  absence always does this, and that nothing else does).
- Assignment ids identify assigned rows, but excluded duplicates of one event id share theirs
  (`AssignmentIdIdentifies`).
- With a negative target multiple the return can fall below the adverse excursion
  (`NegativeTargetBreaksTheBound`; exact condition in `ReturnLiesBetweenTheExcursions`).
- A promotion that crashed after consuming can be resumed and finished (`CrashedPromotionResumes`). Once
  its attestation is written, the same request is refused, because it is stamped with another promotion
  time (`RetryAfterAttestingIsRefused`; the exact condition is in `Registry.EvaluateShadowAndAttest`).

## Model

| member | source | states |
|---|---|---|
| EventAssignment.BuildEventAssignments | src/market_predictor/canonical/reconciliation.py:70-208 | fails exactly for unprepared decisions or no windows; otherwise the rows are, as a multiset, those of the all-pairs definition `AllRows`, in the order of the artifact |
| EventAssignment.PreparedExactlyWhen | src/market_predictor/canonical/reconciliation.py:745-765 | exactly the prepared decisions: none without a security, and as many ids as rows |
| EventAssignment.GroupBySecurity | src/market_predictor/canonical/reconciliation.py:117-136 | after the stable sort each security occupies exactly the positions of its range |
| EventAssignment.SearchLeft | src/market_predictor/canonical/reconciliation.py:163-169 | the number of times strictly before the value, on any sorted times |
| EventAssignment.SearchRight | src/market_predictor/canonical/reconciliation.py:173-179 | the number of times at or before the value |
| EventAssignment.MaxWindow | src/market_predictor/canonical/reconciliation.py:145 | the longest of the windows |
| EventAssignment.AssignSlice | src/market_predictor/canonical/reconciliation.py:183-199 | the rows the found slice owes to one event are its in-window pairs, in order; `assigned` is set exactly when there is one |
| EventAssignment.AssignInRange | src/market_predictor/canonical/reconciliation.py:160-201 | the two searches and the slice give the all-pairs rows of the event; the `if not assigned` branch is proved dead |
| EventAssignment.AssignEvent | src/market_predictor/canonical/reconciliation.py:153-201 | one iteration of the event loop gives the all-pairs rows or the one exclusion of the event |
| EventAssignment.RecordEvents | src/market_predictor/canonical/reconciliation.py:146-201 | the event loop with its `seen` set gives `AllRows`, row for row |
| EventAssignment.LongestWindowAssigns | src/market_predictor/canonical/reconciliation.py:180-201 | a decision within the longest window makes the event assigned, which is why the fallback is unreachable |
| EventAssignment.AllRowsPermutation | src/market_predictor/canonical/reconciliation.py:117-120 | the evidence does not depend on the order of the decisions |
| EventEvidence.AssignedExactly | src/market_predictor/canonical/reconciliation.py:146-199 | a row is assigned if and only if it carries, field by field, the first row of an event id, a decision of its security and a window with 0 <= decision time - availability <= window |
| EventEvidence.ExclusionReasonExactly | src/market_predictor/canonical/reconciliation.py:146-201 | an event row without an assigned row yields one exclusion, and each of its five reasons holds exactly under its own condition: repeated id, security unknown, no availability, no later decision, or outside all windows |
| EventEvidence.RecordsAre | src/market_predictor/canonical/reconciliation.py:825-881 | an assigned row carries, field by field, its event, decision and window; an excluded one its event and reason |
| EventEvidence.EvidenceOrderMeans | src/market_predictor/canonical/reconciliation.py:205-208 | the order of the artifact, key by key: event id, status, decision time with missing ones last, window seconds |
| EventEvidence.ExplainedExactlyOnce | src/market_predictor/canonical/reconciliation.py:146-201 | every event row yields assigned rows, or exactly one exclusion row, never both, and which of the two is decided by being first and reaching a window |
| EventEvidence.AssignedOnce | src/market_predictor/canonical/reconciliation.py:187-199 | no assigned row is recorded twice |
| EventEvidence.AssignmentIdIdentifies | src/market_predictor/canonical/reconciliation.py:825-881 | with an injective hash and no bar in decision ids and window names, the assignment id of an assigned row identifies it; excluded rows share one exactly when they share event id and status |
| EventEvidence.PairEvidence | src/market_predictor/canonical/reconciliation.py:187-199 | the rows of one decision and window are those of the events it must see, in event order |
| EventEvidence.NoLookAhead | src/market_predictor/canonical/reconciliation.py:163-199 | with distinct event ids a decision sees the same rows when everything available after it is removed |
| EventEvidence.NoLookAheadExactlyWhen | src/market_predictor/canonical/reconciliation.py:149-152 | for all tables: that holds if and only if no in-window row is hidden behind an earlier row with its id that is available only after the decision |
| EventEvidence.LaterRevisionHidesEarlier | src/market_predictor/canonical/reconciliation.py:149-152 | a concrete table where a later revision, listed first, hides the revision that was available in time |
| EventFeatures.AggregateEventAssignments | src/market_predictor/canonical/reconciliation.py:248-448 | refuses exactly unconfigured windows; the groups are the statistics of each (decision, window) part, and the latest availability is the maximum of the decision's assigned rows |
| EventFeatures.ConfiguredExactlyWhen | src/market_predictor/canonical/reconciliation.py:279-290 | what is refused, exactly: an assigned row whose window name is not one of the windows |
| EventFeatures.ColumnFamilies | src/market_predictor/canonical/reconciliation.py:255-261 | the source-count columns: the named families, else those of all evidence rows |
| EventFeatures.RowFamilies | src/market_predictor/canonical/reconciliation.py:255-261 | the evidence names exactly the families of the events |
| EventFeatures.ApplyEventFeatures | src/market_predictor/canonical/reconciliation.py:469-526 | refuses exactly unprepared decisions and aggregates of unknown ones; every decision gets the cell of its group, or the empty one |
| EventFeatures.StatsCountRows | src/market_predictor/canonical/reconciliation.py:301-350 | the counts of a group are the numbers of its rows of each kind (unknown, low, with sentiment, per family) |
| EventFeatures.StatsPermutation | src/market_predictor/canonical/reconciliation.py:327-350 | the statistics of a group do not depend on the order of its rows |
| EventFeatures.FoldIsDirectScan | src/market_predictor/canonical/reconciliation.py:327-350 | any table with the rows of the evidence folds, per decision and window, to a direct scan of the events |
| EventFeatures.CellIsDirectScan | src/market_predictor/canonical/reconciliation.py:360-438 | the cell of a decision and window is the feature of that direct scan, also where no group exists |
| EventFeatures.FeaturesDescribeTheRows | src/market_predictor/canonical/reconciliation.py:369-438 | what each feature says of the rows seen: each fraction times their number is the number with sentiment, unknown or low; the means times their denominators are the sums; family and source counts count; 0 where a denominator is not positive |
| EventFeatures.DescribedOnce | src/market_predictor/canonical/reconciliation.py:369-438 | no two different cells describe the same rows |
| EventFeatures.CellDescribesItsRows | src/market_predictor/canonical/reconciliation.py:301-438 | the cell of a decision and window describes exactly the rows of the events that the decision must see |
| EventFeatures.ReproduceEventFeatures | src/market_predictor/canonical/reconciliation.py:211-232 | build, fold and apply together: every feature equals the direct scan's and describes the rows its decision sees (see `FeaturesDescribeTheRows`), for named families or those of the events, and no recorded availability is after its decision |
| EventFeatures.WiderWindowSeesMore | src/market_predictor/canonical/reconciliation.py:189-190 | counts, also per family, are monotone over nested windows |
| EventFeatures.CountsSumToAssignedRows | src/market_predictor/canonical/reconciliation.py:328-334 | for each window the event counts of all decisions sum to the number of assigned rows |
| EventFeatures.FamilyCountsSum | src/market_predictor/canonical/reconciliation.py:407-438 | family counts never exceed the event count, and sum to it if and only if no seen family is blank and every one has a column |
| EventFeatures.FeatureLaws | src/market_predictor/canonical/reconciliation.py:369-384 | the fractions lie in [0, 1], and unknown relevance counts as low |
| EventFeatures.SentimentMeanInRange | src/market_predictor/canonical/reconciliation.py:385-398 | with non-negative relevance the weighted sentiment lies within the range of its inputs, and is 0 without weight |
| EventFeatures.FeaturesHaveNoLookAhead | src/market_predictor/canonical/reconciliation.py:248-448 | features depend only on what was available by the decision if and only if no in-window row is hidden; distinct ids suffice |
| AssignmentIntegrity.RowCounts | src/market_predictor/canonical/reconciliation.py:884-891 | the multiplicity of every row |
| AssignmentIntegrity.Shortfall | src/market_predictor/canonical/reconciliation.py:540-541 | the size of the multiset difference |
| AssignmentIntegrity.DuplicateRows | src/market_predictor/canonical/reconciliation.py:542 | the rows beyond the first of each kind |
| AssignmentIntegrity.IllegalRows | src/market_predictor/canonical/reconciliation.py:543-545 | the number of rows with an unknown status |
| AssignmentIntegrity.AssignmentIntegritySummary | src/market_predictor/canonical/reconciliation.py:529-557 | all counters, against the rebuilt evidence |
| AssignmentIntegrity.CountersAre | src/market_predictor/canonical/reconciliation.py:538-557 | which counter is which: the sizes of both tables, the rebuilt rows missing, the saved rows too many, those beyond the first of their kind, those with an illegal status, and their sum |
| AssignmentIntegrity.LegalExactlyWhen | src/market_predictor/canonical/reconciliation.py:23-30 | a status is legal if and only if it is one of the six |
| AssignmentIntegrity.CleanExactlyWhen | src/market_predictor/canonical/reconciliation.py:538-557 | zero errors if and only if saved rows equal the rebuild as multisets, no row repeats and every status is legal; unexpected - deleted = saved - rebuilt rows |
| AssignmentIntegrity.RebuildIsCleanExactlyWhen | src/market_predictor/canonical/reconciliation.py:538-557 | a faithful copy of the rebuild is clean if and only if no two equal event rows both follow an earlier row with their id |
| Intervals.NeighboursSuffice | src/market_predictor/canonical/symbol_master.py:70-78 | for non-empty half-open intervals in start order the neighbour checks hold if and only if all are pairwise disjoint |
| Intervals.DisjointExactlyWhenOneAtATime | src/market_predictor/canonical/symbol_master.py:61-68 | pairwise disjoint if and only if at most one interval contains any moment |
| Intervals.GroupBy | src/market_predictor/canonical/symbol_master.py:71-73 | each key's group is its records in table order |
| Intervals.GroupsDecide | src/market_predictor/canonical/symbol_master.py:67-68 | all groups are disjoint if and only if at any moment at most one record holds any key |
| Intervals.NonEmptyExactlyWhen | src/market_predictor/canonical/symbol_master.py:64-89 | an interval is non-empty if and only if it holds some moment; it holds its start and not its end |
| Intervals.OneAtATimeMeans | src/market_predictor/canonical/symbol_master.py:66-78 | at any moment at most one record holds a key if and only if no two records with one key share a moment |
| SymbolMaster.OrderedNeighbours | src/market_predictor/canonical/symbol_master.py:74-78 | sorting one group and checking neighbours decides its disjointness |
| SymbolMaster.AssertNonOverlapping | src/market_predictor/canonical/symbol_master.py:70-78 | accepts if and only if at any moment at most one record holds any key |
| SymbolMaster.Validate | src/market_predictor/canonical/symbol_master.py:60-68 | accepts if and only if statuses are known, intervals are non-empty, and symbols and securities are each one at a time |
| SymbolMaster.ValidExactlyWhen | src/market_predictor/canonical/symbol_master.py:60-78 | exactly the valid tables: active or delisted records that end after they begin, and two that are ever in effect together differ in symbol and in security |
| SymbolMaster.Resolve | src/market_predictor/canonical/symbol_master.py:80-91 | the loop returns the first record that holds the symbol |
| SymbolMaster.ResolveExactly | src/market_predictor/canonical/symbol_master.py:80-91 | on a validated table, the result is a security if and only if some record gives the symbol to it on that date |
| SymbolMaster.ResolveIsOneToOne | src/market_predictor/canonical/symbol_master.py:66-91 | on one date two symbols never resolve to the same security |
| SymbolMaster.OrderIsIrrelevant | src/market_predictor/canonical/symbol_master.py:60-91 | neither validity nor resolution depends on the order of the records |
| Membership.SweepTicker | src/market_predictor/canonical/audits.py:214-223 | the sweep over `prior_end` and `open_ended` counts zero if and only if the ticker's intervals are pairwise disjoint |
| Membership.OverlapsCount | src/market_predictor/canonical/audits.py:214-223 | what the sweep counts: the records that start before the one before them, in start order, has ended |
| Membership.SweepAll | src/market_predictor/canonical/audits.py:211-223 | over all tickers: the number of such records, zero if and only if one membership per ticker at a time |
| Membership.DuplicateKeys | src/market_predictor/canonical/audits.py:208-209 | the rows whose ticker, interval and snapshot occurred above |
| Membership.AuditMemberships | src/market_predictor/canonical/audits.py:199-267 | all counters: empty table, malformed rows, repeated keys, overlaps (records that start before the one before them of their ticker has ended; none if and only if one membership per ticker at a time), unobserved records, decisions without a match (or a readable time) and with several |
| Membership.MatchCount | src/market_predictor/canonical/audits.py:254-260 | counting matches within the ticker's own records equals counting over the whole table |
| Membership.MatchExactly | src/market_predictor/canonical/joins.py:112-125 | the matches of a decision are exactly the memberships of its ticker that had begun, not ended and were known, each as often as it is listed |
| Membership.CountMatches | src/market_predictor/canonical/audits.py:243-262 | decisions without a match or a readable time, and decisions with several |
| Membership.CountersCount | src/market_predictor/canonical/audits.py:199-267 | what the counters are numbers of: records under another policy than observed, decision rows that no record holds for (or without a time), and rows that two records hold for |
| Membership.SameKeyExactlyWhen | src/market_predictor/canonical/audits.py:208-209 | two rows repeat each other if and only if ticker, interval and snapshot agree |
| Membership.JoinTicker | src/market_predictor/canonical/joins.py:108-131 | one ticker's part counts each covering membership and leaves the last one in place |
| Membership.JoinRows | src/market_predictor/canonical/joins.py:106-137 | counting and overwriting succeed if and only if every decision has exactly one match, which each then carries |
| Membership.JoinUniverseMembership | src/market_predictor/canonical/joins.py:78-138 | succeeds if and only if every decision has exactly one match; the table pairs each decision with it, by time and ticker |
| Membership.NoOverlapNoAmbiguity | src/market_predictor/canonical/audits.py:211-223 | a table with one membership per ticker at a time gives every decision at most one match |
| Membership.AuditPredictsJoin | src/market_predictor/canonical/audits.py:260-267 | on well-formed rows the coverage check passes if and only if the join succeeds; without overlaps only a missing membership can fail it |
| ShadowLedger.LoadShadowLedger | src/market_predictor/shadow_ledger.py:141-177 | succeeds if and only if every line is an entry with the right schema, number, link and hash, and returns them in order |
| ShadowLedger.LedgerFile.constructor | src/market_predictor/shadow_ledger.py:144-145 | a missing file is the empty ledger |
| ShadowLedger.LedgerFile.Load | src/market_predictor/shadow_ledger.py:141-177 | loading does not change the file |
| ShadowLedger.LedgerFile.Consume | src/market_predictor/shadow_ledger.py:45-138 | on whole lines, one call does what the step function says; loading after an append gives the old entries and the new one |
| ShadowLedger.ConsumeKeepsSound | src/market_predictor/shadow_ledger.py:73-137 | one call keeps the chain verifying, fingerprints distinct, a failure last in its family, and all earlier lines |
| ShadowLedger.RunKeepsSound | src/market_predictor/shadow_ledger.py:73-137 | any sequence of calls does |
| ShadowLedger.ReachableLedgersAreSound | src/market_predictor/shadow_ledger.py:73-137 | so every ledger reachable from the empty one is sound |
| ShadowLedger.Sha256Is | src/market_predictor/shadow_ledger.py:189-191 | a digest is 64 hexadecimal digits of either case |
| ShadowLedger.AcceptableExactlyWhen | src/market_predictor/shadow_ledger.py:56-72 | the exact condition for a request to be considered |
| ShadowLedger.AcceptedExactlyWhen | src/market_predictor/shadow_ledger.py:73-138 | on a sound ledger a call succeeds if and only if its request is acceptable and either an entry was made for it, or its fingerprint is not there and no entry of its family failed; then the ledger grows by one entry with what the request says and the time of the call |
| ShadowLedger.SuccessIsRecorded | src/market_predictor/shadow_ledger.py:82-138 | a successful call returns an entry that is in the ledger and matches the request |
| ShadowLedger.RetryReturnsTheOldEntry | src/market_predictor/shadow_ledger.py:82-90 | a matching retry returns the old entry and leaves the ledger unchanged, at any later time, even after its family was retired |
| ShadowLedger.FailureRetiresTheFamily | src/market_predictor/shadow_ledger.py:94-100 | after a failed result the family takes no new fingerprint, whatever happened in between |
| ShadowLedger.FingerprintIsSpent | src/market_predictor/shadow_ledger.py:91-93 | a used fingerprint is never consumed under another transaction, result or attestation |
| ShadowLedger.LastHashDeterminesTheLedger | src/market_predictor/shadow_ledger.py:147-177 | with an injective hash, two verifying ledgers that share their last hash are equal in every entry |
| ShadowLedger.BrokenLedgerIsFrozen | src/market_predictor/shadow_ledger.py:73-82 | no sequence of calls changes a ledger that does not verify, and every call in it is refused |
| LedgerText.LedgerTextFile.constructor | src/market_predictor/shadow_ledger.py:144-145 | a missing file is the empty text |
| LedgerText.LedgerTextFile.Load | src/market_predictor/shadow_ledger.py:141-177 | succeeds if and only if the lines of the text verify |
| LedgerText.LedgerTextFile.Consume | src/market_predictor/shadow_ledger.py:45-138 | one call on the text; a call that appends reports success, and the file still loads if and only if it was empty or ended in a newline |
| LedgerText.AppendKeepsTheLedgerExactlyWhen | src/market_predictor/shadow_ledger.py:120-137 | the same as a law of the text: the exact condition for an append to keep the ledger loading |
| LedgerText.TornAppendExactlyWhen | src/market_predictor/shadow_ledger.py:120-137 | an append cut by a crash leaves a file that loads if and only if nothing or the whole entry arrived, and that takes a further entry if and only if nothing or the whole line did |
| LedgerText.TextRunIsLineRun | src/market_predictor/shadow_ledger.py:45-138 | runs of whole appends on the text are the runs on lines |
| PromotionWorkflow.ReauthenticationKeepsTheTransaction | src/market_predictor/promotion_workflow.py:218-253 | authenticating the same tokens at another time gives the same transaction id |
| PromotionWorkflow.TransactionIdentifiesTheRequest | src/market_predictor/promotion_workflow.py:218-243 | with an injective hash, one transaction id means one candidate, record, evidence, gates and pair of principals |
| PromotionWorkflow.StepKeepsInv | src/market_predictor/promotion_workflow.py:108-159 | every effect of every process, crashes included, keeps the protocol invariant and loses no ledger line and no attestation |
| PromotionWorkflow.RunKeepsInv | src/market_predictor/promotion_workflow.py:108-159 | so does every run |
| PromotionWorkflow.AttestationsAreBackedByTheLedger | src/market_predictor/promotion_attestation.py:592-618 | in every run, an attestation on disk carries a passed ledger entry with its fingerprint as its receipt, for good |
| PromotionWorkflow.AttestationsComeFromEvaluations | src/market_predictor/promotion_workflow.py:78-159 | in every run, an attestation on disk comes from an accepted evaluation whose gates passed, and says its model, candidate, evidence, principals (each in its place), receipt with hypothesis, family and transaction, and the time of an accepted build |
| PromotionWorkflow.GateOutcomeIsRecorded | src/market_predictor/promotion_workflow.py:108-146 | a consume that succeeds leaves the outcome of the gates in the ledger under the evidence and transaction of its job, and only passed gates lead on |
| PromotionWorkflow.RetryConsumesTheOldEntry | src/market_predictor/promotion_workflow.py:134-141 | after a crash behind the consume, a new attempt with the same tokens and inputs gets the entry that is there and adds none |
| PromotionWorkflow.CrashedPromotionResumes | src/market_predictor/promotion_workflow.py:134-159 | and it finishes: when the receipt checks out and the model has no attestation, consume, build and write leave the ledger as it is and put the attestation with that entry on disk |
| PromotionWorkflow.FreshReceiptIsOk | src/market_predictor/promotion_attestation.py:592-618 | the receipt of a call that appended its entry always checks out |
| PromotionWorkflow.ReceiptIsOkExactlyWhen | src/market_predictor/promotion_attestation.py:592-618 | the receipt of any successful consume of passed evidence checks out if and only if the entry is for the hypothesis and family of the call |
| PromotionWorkflow.AlteredReceiptIsRefused | src/market_predictor/promotion_attestation.py:600-616 | a receipt that was altered, or has no ledger schema, number or digests, is refused |
| PromotionWorkflow.RetryAfterAttestingIsRefused | src/market_predictor/promotion_attestation.py:235-239 | after a call has attested, the same request at another promotion time does not attest: its consume returns the old entry, and ledger and attestations stay as they are |
| PromotionWorkflow.WholeCallEffect | src/market_predictor/promotion_workflow.py:78-159 | the effects of one call that nothing interrupts, in terms of its ledger step and its checks |
| PromotionWorkflow.Registry.Consume | src/market_predictor/promotion_workflow.py:134-141 | the call on the ledger file is the ledger step |
| PromotionWorkflow.Registry.EvaluateShadowAndAttest | src/market_predictor/promotion_workflow.py:78-159 | the imperative call has the effect of the protocol's actions in order; it attests if and only if everything passes and the model has no attestation or this very one, fails the gate if and only if a failed result was consumed, and is refused otherwise; what it attests says what the evaluation was about |
| ReleaseStore.IdFixesTheContent | src/market_predictor/release.py:307-433 | with hashes that do not collide, two directories that verify under one id have the same manifest and the same bytes in every asset |
| ReleaseStore.StepKeepsInv | src/market_predictor/release.py:62-99 | every file-system step of every process, crashes included, keeps the store invariant and changes no published release |
| ReleaseStore.RunKeepsInv | src/market_predictor/release.py:62-99 | so does every run |
| ReleaseStore.StoreIsSafe | src/market_predictor/release.py:169-187 | in every run published releases stay as they are, each verifies under its id, and loading gives the release the active pointer names, or fails without a pointer |
| ReleaseStore.LoadedIsIntact | src/market_predictor/release.py:169-187 | in any state, however altered, what loads is the active release, and its pointer, manifest, identity and every listed file have their recorded hashes |
| ReleaseStore.WellFormedExactlyWhen | src/market_predictor/release.py:342-391 | exactly the inventories that verify: each required kind once and at its header path, otherwise only evidence files, no destination twice, a promotion time |
| ReleaseStore.PublishedReleaseVerifies | src/market_predictor/release.py:84-88 | verifying again right after the rename cannot fail |
| ReleaseStore.TwoRollbacksRestore | src/market_predictor/release.py:143-166 | in every reachable store two successive rollbacks succeed and restore the active and the previous release |
| ReleaseStore.CopiesFill | src/market_predictor/release.py:74-77 | the copy steps fill the staging directory with the bytes as they are read |
| ReleaseStore.SoloPublish | src/market_predictor/release.py:62-91 | the steps of one undisturbed publish have the effect of the `Publish` call: a verified release appears complete, or nothing changes; then the process goes on to activate it on request |
| ReleaseStore.SoloRepublish | src/market_predictor/release.py:63-68 | publishing again what is there stages nothing and goes on to activate it on request |
| ReleaseStore.IllFormedIsNotPublished | src/market_predictor/release.py:190-258 | the steps of a publish do nothing for an inventory that is not well formed |
| ReleaseStore.SoloActivate | src/market_predictor/release.py:122-166 | the steps of one undisturbed activation or rollback: a published release that may be activated and is not active gets the pointer, with its manifest, the release it replaces and the time; otherwise nothing changes |
| ReleaseStore.ActivationIs | src/market_predictor/release.py:272-304 | exactly what activation does: refuses an unpublished release, leaves the pointer to the active one as it is, with the release it remembers, and else makes a pointer that remembers the one it replaces |
| ReleaseStore.RollbackIs | src/market_predictor/release.py:143-166 | exactly what rollback does: only the remembered release is accepted, and the one it replaces is remembered in turn |
| ReleaseStore.StagedIs | src/market_predictor/release.py:70-78 | a staged release holds its identity, its id, the copied bytes at their destinations, and no other file |
| ReleaseStore.StagedIsVerifiedExactlyWhen | src/market_predictor/release.py:79-83 | it verifies if and only if its inventory is well formed, every file was copied as inventoried and its evidence is trusted |
| ReleaseStore.ChangedSourceIsNotPublished | src/market_predictor/release.py:79-83 | the staged copy passes if and only if every file still has the hash that was inventoried |
| ReleaseStore.ActivationSucceeds | src/market_predictor/release.py:272-304 | activating a published release always succeeds and names it |
| ReleaseStore.LocalReleases.constructor | src/market_predictor/release.py:47-49 | an empty store is valid |
| ReleaseStore.LocalReleases.Publish | src/market_predictor/release.py:51-91 | a verified release appears complete or not at all; publishing it again changes nothing |
| ReleaseStore.LocalReleases.PublishLocalRelease | src/market_predictor/release.py:37-99 | the whole call: publish, and on request make what was published the active release |
| ReleaseStore.LocalReleases.Activate | src/market_predictor/release.py:272-304 | a published release gets the pointer, unless it has it, and then the pointer stays as it is; an unpublished one is refused |
| ReleaseStore.LocalReleases.Rollback | src/market_predictor/release.py:143-166 | succeeds if and only if the target is the release the pointer remembers; the new pointer remembers the one it replaces |
| ReleaseInventory.SameSourcesSameIdentity | src/market_predictor/release.py:217-268 | the same files give the same identity, in whatever order they are listed |
| ReleaseInventory.InventoryIs | src/market_predictor/release.py:244-269 | an inventory is made if and only if no two files go to one destination; it keeps the header and lists each file once, with its kind, place and hash, and nothing else, in the order of destinations |
| ReleaseInventory.SameIdExactlyWhenSameSources | src/market_predictor/release.py:51-56 | with hashes that do not collide, two inventories get one release id if and only if they list the same files under the same header |
| RateLimiter.PrincipalRateLimiter.constructor | src/market_predictor/api_security.py:193-210 | a limiter starts with no bucket |
| RateLimiter.PrincipalRateLimiter.Acquire | src/market_predictor/api_security.py:212-240 | pop, refill, reinsert and evict have exactly the effect of the step function |
| RateLimiter.PrincipalRateLimiter.TrackedBucketCount | src/market_predictor/api_security.py:242-244 | the number of buckets, at most four per allowed principal |
| RateLimiter.AcquireEffect | src/market_predictor/api_security.py:217-240 | one attempt puts its bucket last, drops at most the least recently used key, and leaves every other bucket alone |
| RateLimiter.ReachableIsBounded | src/market_predictor/api_security.py:222-240 | in every run 0 <= tokens <= capacity and at most maximum_principals * 4 buckets |
| RateLimiter.AcceptedByForwardMotion | src/market_predictor/api_security.py:222-238 | for readings in any order: the accepted requests of a key within a span number at most capacity + F * capacity / 60, F being the forward motion of the clock within it, plus one capacity per eviction |
| RateLimiter.AcceptedWithinAnySpan | src/market_predictor/api_security.py:212-240 | with readings that do not run backwards within the span, F is the time T it covers: at most capacity + T * capacity / 60 |
| RateLimiter.ExactAccount | src/market_predictor/api_security.py:222-238 | the books of one key: accepted plus left never exceeds what was there plus what the clock's forward motion earns, and equals it if and only if the cap never binds on the way |
| RateLimiter.ForwardBoundIsAttained | src/market_predictor/api_security.py:222-238 | the forward-motion bound is tight, for readings in any order: a fresh key that never runs into the cap and uses up what it can gets exactly the bound, rounded down |
| RateLimiter.ShortStepsNeverBind | src/market_predictor/api_security.py:222-226 | with a capacity of two or more, forward steps of at most one token's time keep the cap from binding |
| RateLimiter.ReorderedReadingsBreakTheRate | src/market_predictor/api_security.py:216-227 | a concrete run, with readings out of lock order, that exceeds capacity + T * capacity / 60 |
| RateLimiter.IdleBucketIsAsNew | src/market_predictor/api_security.py:219-228 | forgetting a bucket that was idle for 60 seconds cannot be observed |
| RateLimiter.RefusalsAreOneRefill | src/market_predictor/api_security.py:222-231 | refilling through any number of refused attempts equals one lazy refill |
| RateLimiter.WaitingTheDelaySucceeds | src/market_predictor/api_security.py:229-236 | waiting the returned delay without another attempt on the key is always enough, whatever others do |
| RateLimiter.DelayIsTight | src/market_predictor/api_security.py:229-236 | an attempt made more than a second before the delay is over is refused again |
| RateLimiter.ForgottenOnlyAfterManyOthers | src/market_predictor/api_security.py:239-240 | a key is forgotten only after maximum_principals * 4 distinct other keys were used since its last use |
| HttpRecords.RecordRoundTrip | src/market_predictor/collection/http_records.py:13-54 | record and rebuild undo each other, exactly for responses whose length and hash describe their body |
| HttpRecords.RebuildRoundTrip | src/market_predictor/collection/http_records.py:32-54 | whatever rebuilds from a record has that record |
| HttpRecords.RecordSays | src/market_predictor/collection/http_records.py:13-29 | a record keeps everything but the body, each under its own name |
| PageReceipts.LoadReceiptFile | src/market_predictor/collection/outcome_bars.py:457-481 | a receipt file loads if and only if its name is its id, schema and session fit, its unit reads back and its content verifies |
| PageReceipts.LoadReceipt | src/market_predictor/collection/outcome_bars.py:304-358 | the content loads if and only if hash, status and attempt verify and a complete page chain does; it decodes its rows in page order |
| PageReceipts.LoadsExactlyWhen | src/market_predictor/collection/outcome_bars.py:457-513 | the receipt contents that load, spelled out: hash, status, attempt, and for a complete one a first page without token, pages within the attempt that decode and link, and no id twice |
| PageReceipts.DecodePages | src/market_predictor/collection/outcome_bars.py:484-513 | succeeds if and only if every page rebuilds, decodes, links to the next and lies within the attempt |
| PageReceipts.StoredPageDecodesExactlyWhen | src/market_predictor/collection/outcome_bars.py:484-513 | when a stored page decodes and to what: its body is stored under a digest that is its hash, has the recorded length, decodes, and holds accepted items only |
| PageReceipts.RowsAreTheKeptItems | src/market_predictor/collection/outcome_bars.py:323-358 | a complete receipt loads exactly the items that some page decodes to and that are kept at its retrieval time |
| PageReceipts.FinishIsUnique | src/market_predictor/collection/outcome_bars.py:222-256 | the provider's answers make at most one walk that finishes |
| PageReceipts.WindowSpans | src/market_predictor/collection/outcome_bars.py:440-450 | the attempt window is the least that spans the process clock and every page; it is ordered if and only if there is a page or the process clock did not step back |
| PageReceipts.LoadsForever | src/market_predictor/collection/outcome_bars.py:551-567 | what loads stays loadable with the same rows, whatever is written later |
| PageReceipts.CompleteReceiptWalksExactlyWhen | src/market_predictor/collection/outcome_bars.py:484-513 | a complete receipt that loads is one walk from no token to no token if and only if every later page records a token |
| PageReceipts.RestartedChainLoads | src/market_predictor/collection/outcome_bars.py:508-511 | a concrete receipt, two first pages in a row, that loads without being such a walk |
| PageReceipts.ReceiptIdFixesTheRows | src/market_predictor/collection/outcome_bars.py:462-481 | with hashes that do not collide, one receipt id means one page chain and one table of rows, in any two stores |
| PageReceipts.ClockStepBackBreaksAPagelessReceipt | src/market_predictor/collection/outcome_bars.py:440-450 | a failed receipt without a page does not load when the process clock stepped back |
| PageReceipts.NothingIsDropped | src/market_predictor/collection/outcome_bars.py:341-347 | for actions the loaded rows are all decoded items |
| PageReceipts.Collection.constructor | src/market_predictor/collection/outcome_bars.py:547-548 | an empty directory |
| PageReceipts.Collection.FetchPages | src/market_predictor/collection/outcome_bars.py:222-256 | the loop, for bars or actions, finishes if and only if the answers are a walk of at most twenty linked, decodable, accepted pages from no token to no token, with fitting bodies and distinct ids; its pages, items and stored bodies are those of that walk and read back linked |
| PageReceipts.Collection.Collect | src/market_predictor/collection/outcome_bars.py:215-301 | a receipt is published as complete if and only if such a walk exists, with its pages; then it loads from where it is filed, decodes to what was collected and is one walk; a receipt loads at all if and only if it has a page or the process clock did not step back |
| PollChain.BuildIdentityAudit | src/market_predictor/collection/prospective_broker_actions.py:1994-2084 | fails exactly without an active membership; otherwise one row per ticker, each the audit of its group, asset and previous row |
| PollChain.BuildSourceCollections | src/market_predictor/collection/prospective_broker_actions.py:2287-2356 | one coverage row per audited ticker, from this poll and its parent |
| PollChain.NothingSpeaksAgainstExactlyWhen | src/market_predictor/collection/prospective_broker_actions.py:2034-2046 | no reason speaks against a ticker if and only if the authority is fresh and its single active membership was available, for an asset that is active and tradable |
| PollChain.ReasonExactly | src/market_predictor/collection/prospective_broker_actions.py:2034-2046 | the reason recorded against a ticker is the first check that fails, in the order of the source; the candidate is the one security id of the group |
| PollChain.GroupIs | src/market_predictor/collection/prospective_broker_actions.py:2020-2031 | the group of a ticker is its memberships that have begun and not ended at the poll |
| PollChain.TickersAre | src/market_predictor/collection/prospective_broker_actions.py:2008-2031 | a poll of a chain audits exactly the tickers with an active membership, and there is at least one |
| PollChain.EligibleExactlyWhen | src/market_predictor/collection/prospective_broker_actions.py:2047-2067 | a row is eligible if and only if nothing speaks against the ticker, the row before is not quarantined, and its pair is the last one accepted, if there is one |
| PollChain.RowRecords | src/market_predictor/collection/prospective_broker_actions.py:2047-2083 | what a row records: candidate, number of intervals, asset, and as last accepted pair its own when it is eligible, else the one before |
| PollChain.EligibleIdentityIsConstant | src/market_predictor/collection/prospective_broker_actions.py:2047-2067 | while a ticker stays present, every eligible row carries the (security id, asset id) of an earlier eligible one, across ineligible polls in between, unless that security id is blank |
| PollChain.EligibleAgainExactlyWhen | src/market_predictor/collection/prospective_broker_actions.py:2047-2067 | the exact condition across any gap: a ticker that nothing else speaks against is eligible again if and only if it is not quarantined and keeps the pair or the accepted security id was blank |
| PollChain.BlankIdentityIsForgotten | src/market_predictor/collection/prospective_broker_actions.py:2057-2060 | a concrete chain in which a blank accepted security id is followed by another identity |
| PollChain.QuarantineIsPermanent | src/market_predictor/collection/prospective_broker_actions.py:2048-2067 | a quarantined ticker that stays present is never eligible again |
| PollChain.QuarantineStartsWithAChange | src/market_predictor/collection/prospective_broker_actions.py:2054-2067 | quarantine starts if and only if nothing else speaks against the ticker and it presents another pair than the last one accepted |
| PollChain.FirstSightIsFresh | src/market_predictor/collection/prospective_broker_actions.py:2047-2067 | a ticker absent from the poll before is not quarantined, and is eligible if and only if nothing else speaks against it |
| PollChain.QuarantineEndsOnlyByAbsence | src/market_predictor/collection/prospective_broker_actions.py:2047-2067 | between a quarantined and a later eligible row of a ticker lies a poll without it |
| PollChain.AbsenceForgetsQuarantine | src/market_predictor/collection/prospective_broker_actions.py:2029-2048 | a concrete chain: eligible, quarantined, absent, eligible as the other security |
| PollChain.CoverageDoesNotOverlap | src/market_predictor/collection/prospective_broker_actions.py:2297-2346 | along a chain one ticker's coverage intervals overlap at most in an end point |
| PollChain.ContinuousExactlyWhen | src/market_predictor/collection/prospective_broker_actions.py:2297-2346 | along a chain, a row is continuous if and only if the poll before is within the gap limit and covered the ticker, and both identity rows are eligible with one candidate and asset; it ends at its own poll and starts there too, or at the poll before when it is continuous |
| PollChain.StatusIs | src/market_predictor/collection/prospective_broker_actions.py:2333-2346 | the status is observed if and only if the poll counted an event of the ticker, else observed and empty |
| PollChain.ContinuousStep | src/market_predictor/collection/prospective_broker_actions.py:2299-2346 | a continuous interval starts where the previous one ends, within the gap limit, on the same eligible identity |
| PollChain.RunTilesItsSpan | src/market_predictor/collection/prospective_broker_actions.py:2297-2355 | a continuous run covers every moment of its span, each step within the gap limit, with one identity |
| PollChain.WalkLineage | src/market_predictor/collection/prospective_broker_actions.py:818-847 | the walk returns the lineage, and fails only when there is none (missing poll, cycle, times not increasing) |
| PollChain.LineageIsUnique | src/market_predictor/collection/prospective_broker_actions.py:818-847 | a directory has at most one lineage |
| PollChain.ReplayOnce | src/market_predictor/collection/prospective_broker_actions.py:1145-1183 | accepts if and only if both stored tables are what the inputs and the parent give |
| PollChain.LoadPoll | src/market_predictor/collection/prospective_broker_actions.py:813-860 | loads if and only if there is a lineage whose polls form a chain, and returns it |
| PollChain.CollectPoll | src/market_predictor/collection/prospective_broker_actions.py:425-692 | collecting on top of a poll is refused exactly when that poll does not load or is not earlier, or no membership is active; what it publishes loads |
| BarrierPaths.SetWhere | src/market_predictor/label_paths.py:138-140 | masked assignment writes exactly the masked elements |
| BarrierPaths.ExecutableFillPrices | src/market_predictor/execution_policy.py:76-99 | the masked column form gives each trade the fill of that trade alone |
| BarrierPaths.MasksAreScan | src/market_predictor/label_paths.py:117-137 | any, argmax and minimum give the outcome and offset of a bar-by-bar scan |
| BarrierPaths.EvaluateTouches | src/market_predictor/label_paths.py:117-140 | the outcome, offset and flag columns are those of the scans |
| BarrierPaths.EvaluateColumns | src/market_predictor/label_paths.py:117-167 | so are all columns, prices, returns and excursions included |
| BarrierPaths.EvaluateIntradayBarrierPaths | src/market_predictor/label_paths.py:75-167 | refuses exactly what is not accepted; otherwise every row is the scan of that path alone |
| BarrierPaths.ScanStopsAt | src/market_predictor/label_paths.py:130-140 | the scan ends at the first touched bar, a stop winning a shared bar |
| BarrierPaths.PricesAre | src/market_predictor/label_paths.py:113-148 | the prices of a path: both barriers from entry, ATR and multiples, and the exit at the target, at the stop or the bar's open if that is lower, or at the last close |
| BarrierPaths.ReturnsAre | src/market_predictor/label_paths.py:152-153 | gross and net return from entry, exit and cost |
| BarrierPaths.ExcursionsAre | src/market_predictor/label_paths.py:149-166 | the excursions from the highest high and the lowest low up to the exit |
| BarrierPaths.FillExactly | src/market_predictor/execution_policy.py:102-116 | the scalar fill: a stop at the barrier or a lower open, a target at the barrier, a timeout at the final price |
| BarrierPaths.EncodedIsAcceptedExactlyWhen | src/market_predictor/label_paths.py:87-116 | paths of one width are accepted if and only if there is a bar, an ATR for each, and entry, ATR and stop price are positive; they are then read back |
| BarrierPaths.AcceptedIsEncoded | src/market_predictor/label_paths.py:87-116 | nothing else is accepted: accepted matrices are the encoding of their own paths |
| BarrierPaths.OutcomeIsTheFirstTouch | src/market_predictor/label_paths.py:130-140 | the three flags partition the paths; timeout if and only if no bar is touched, and then the offset is the last bar, else it is the first touched bar |
| BarrierPaths.LaterBarsDoNotMatter | src/market_predictor/label_paths.py:134-167 | once a barrier is touched, other later bars (of any number) change no column |
| BarrierPaths.ReturnLiesBetweenTheExcursions | src/market_predictor/label_paths.py:149-166 | on coherent bars adverse <= 0 <= favourable and return <= favourable; adverse <= return if and only if the target multiple is not negative or the first low reaches a barrier |
| BarrierPaths.NegativeTargetBreaksTheBound | src/market_predictor/label_paths.py:113-166 | an accepted path with a negative target multiple whose return lies below its adverse excursion |
| BarrierPaths.FavorableBeforeStop | src/market_predictor/features.py:430-466 | each row is unlabelled, 1 or 0 as its path says |
| BarrierPaths.LabelledExactlyWhen | src/market_predictor/features.py:437-449 | a row is labelled if and only if the next row exists within the horizon and has an opening price, and the row has a positive range; its path reaches to the horizon or the last row |
| BarrierPaths.WalkPath | src/market_predictor/features.py:452-465 | the inner loop finds whether a row reaches the target alone before any other touch |
| BarrierPaths.TargetFirstIsFavorable | src/market_predictor/features.py:437-466 | on the same path the evaluator says target first if and only if the sequential form gives 1 |
| WalkForward.OrderedGroups | src/market_predictor/model.py:137 | the distinct groups in increasing order |
| WalkForward.Split | src/market_predictor/model.py:125-154 | refused exactly without groups or with a wrong number of them; empty with too few groups; else the kept folds in order |
| WalkForward.NothingIsClipped | src/market_predictor/model.py:138-144 | with more groups than splits, no bound is ever clipped, blocks are full and adjacent |
| WalkForward.FoldTestsFullBlock | src/market_predictor/model.py:140-150 | each fold tests exactly fold_size groups, each with all its rows |
| WalkForward.FoldIsPurged | src/market_predictor/model.py:142-150 | every test row is later than every training row of its fold, with at least the embargo of groups strictly in between |
| WalkForward.TestsExactly | src/market_predictor/model.py:138-150 | the test rows of a fold, exactly, by the number of groups before theirs |
| WalkForward.TrainsExactly | src/market_predictor/model.py:142-150 | the training rows of a fold, exactly: those that lie before every test row of the fold with at least the embargo of groups strictly in between |
| WalkForward.FoldRowsAscend | src/market_predictor/model.py:149-150 | a fold lists its rows in table order, each once |
| WalkForward.FoldsMoveForward | src/market_predictor/model.py:139-150 | later folds train on at least the same rows and test only later groups |
| WalkForward.TestBlocksLeaveNoGap | src/market_predictor/model.py:140-150 | a row whose group lies between two tested groups is tested by a fold in between |
| WalkForward.KeptFoldsAreASuffix | src/market_predictor/model.py:151-153 | the folds skipped for too little training come first; all later ones are yielded |
| WalkForward.SplitLaws | src/market_predictor/model.py:125-154 | for any two yielded folds: the purge, exact training, disjoint and forward-moving tests, growing training, full test blocks, rows in order |

## Left out

- Columns, types and normalisation of tables: missing-column errors, text and time parsing, ticker spelling; tables enter already normalised, and events and windows as sequences.
- EventAssignment.BuildEventAssignments: rows do not carry the assignment id and the schema column; the id is the hash of a text that EventEvidence derives from the row. Windows are taken in the given order, which the final sort makes irrelevant up to equal keys.
- Decision identity hashes: a decision carries its id, and the duplicate and blank checks on prepared decisions are kept.
- EventFeatures: the families are handed to the second stage, which in the source reads them back from column names; that needs window names without an underscore.
- Floating point: all arithmetic is on reals, so rounding, tolerances and the floor of a rounded quotient are not covered; infinities count as missing values.
- Membership.AuditMemberships: the field checks of a row other than the order of its interval, and the missing-column results.
- RateLimiter: bucket objects are values in the map (nothing else refers to them); integer capacities and real clock readings.
- ShadowLedger.LedgerFile.Consume: works on whole lines; LedgerText has the file as text and cut appends, with the newline as the only line break (others are escaped in the text that is written). A cut append is not an action of the promotion protocol.
- Lock files, leases and crash recovery of the operating system: mutual exclusion is assumed.
- PromotionWorkflow: hypothesis and shadow-bundle loading, gate arithmetic, token and signature verification and the attestation's field checks enter as given outcomes.
- ReleaseStore: verification of the released model, attestation and evidence is one uninterpreted predicate on the directory; the trust store does not change; assets are copied in manifest order instead of inventory order.
- ReleaseInventory: reading the evidence manifest for the list of files; the list is given.
- HttpRecords: conversions to and from JSON, and malformed records.
- PageReceipts: provider decoding and the reading of a unit are uninterpreted functions; quarantine of receipts, the selection of receipts for a path and memory guards are not modelled.
- PollChain.LoadPoll: manifests, registry commits, raw-page replay and observations are not modelled; a poll carries its inputs, its event counts and its two tables, and the calendar check on the membership cutoff is a given flag.
- PollChain.CollectPoll: fetching assets and pages, failed batches and resuming an incomplete poll are not modelled; the directory is new.
- BarrierPaths: the swing path evaluator and the cost model; NaN policy multiples.
- WalkForward.Split: conversion of group values to dates; the argument checks of the constructor are the predicate `Valid`.
- Statistics and tuning (bootstrap intervals, estimator fitting, cost calibration, sentiment and regime heuristics), configuration validators, the inference admission controller, routes and commands: they would only add easy members or have no exact claim.
