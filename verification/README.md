# Archbird development tools: a Dafny model

Archbird is an architecture analysis engine with a set of Python tools around it that evaluate it, package its C
sources, stage its releases, promote its builds and check its layering. This project models those tools and the output
buffer of the three language bindings, and proves what they promise:

* **Evaluation.** The Query selection (`QueryRankings`, `SelectionExact`, `RankingOrder`, `ProfileWidening`), the rank
  metrics (`RankingMetrics`), the terminal-cause ledger and its agreement with the metrics (`RetrievalLedger`,
  `TerminalCauses`), the greedy line budget (`LineBudget`), pooled statistics recovered by rounding (`PooledRecall`), the
  comparison of runs (`RunComparison`, `ComparisonLaws`, `ComparisonExact`) and the content-addressed store with its
  one-shot held-out protocol as a transition system of several processes over shared files, with exceptions, partial
  writes and kills between any two steps (`EvaluationStore`, `HeldOutSafety`, `StateGenerations`,
  `UndisturbedOperations`).
* **Source bundle.** The binary layout, a concrete JSON writer and reader for its header, the strict decoder, the round
  trip and the grammar it accepts (`PosixPath`, `JsonText`, `SourceBundle`, `BundleText`, `BundleRoundTrip`,
  `BundleGrammar`).
* **Source identity and snapshot.** The digest materials computed over the repository and rebuilt by the package
  (`SourceIdentity`, `SameIdentity`, `MaterialDetermines`, `PackageManifest`), and the directory swap (`SnapshotSync`,
  `SnapshotSwap`, `SnapshotExact`).
* **Release staging and promotion.** The staging record as a write-ahead log (`ReleaseStaging`, `StagingLog`,
  `StagingExact`) and the stable and candidate slots (`SelfHost`, `PromotionHistory`, `PromotionExact`).
* **Layering.** The source manifest (`SourceManifest`), the private include inventory (`NativeIncludes`,
  `IncludeGraph`, `InventoryReport`), the target declarations (`CoreTargets`, `TargetDeclarations`, `ManifestGrammar`),
  the theorem that an accepted project has no cycle across groups in the include graph the inventory reads (`Layering`,
  `AcyclicLayers`), and when a compiler follows that same graph (`OpenedHeaders`, `MisspeltInclude`).
* **Output buffer.** The doubling buffer as a class over an array with `size_t` limits (`OutputBuffer`).

Loops and objects of the programs are methods and classes, each proved against a specification function. The theorems are
lemmas about those functions; for each operation one of them states its answer on the input alone, without the
functions it is computed by. `Prelude`, `Ordering`, `Dedup` and `ManifestRows` hold shared vocabulary. SHA-256 is a function parameter; that it has no collisions is a hypothesis only where a lemma says so. Pattern matching, file presence,
subprocess results, the allocator and the clock of crashes are parameters too. `dafny verify dfyconfig.toml` checks
the whole project.

Where a promise does not hold as stated, the project says exactly when it does:

* the ledger and the metrics agree exactly when the truth among the first 20 is in the Map and not introduced
  (`LedgerAgreesWithMetrics`);
* a larger line budget keeps every selected file, and recall, exactly when files with lines are ranked by ascending
  length (`BudgetMonotoneExactly`, with `LargerBudgetCanLoseRecall`);
* swapping two runs mirrors a status exactly when its metrics do not both improve and regress (`StatusSwaps`,
  `MixedStatusStays`), a summary table exactly when no such case is counted in it (`SummariesSwap`), and keeps a timing
  verdict exactly when the difference is not between the two tolerances (`PerformanceSwapsExactly`,
  `PerformanceIsAsymmetric`);
* the generation of the state document counts its updates when operations do not overlap (`SequentialGenerations`);
  when they do, a write raises it, keeps the record of the opening and leaves a readable document exactly under the
  conditions of `UpdateRaisesGeneration` and `WriteLosesRecordExactly` (with `LateFreezeLosesRecord`);
* a compiler opens the headers the include inventory reads exactly when no directive spells a private header with empty
  or `.` components and none finds another one beside its own file (`ReadAsOpenedExactly`); `MisspeltCycleCrosses` is an
  accepted project with a cycle across groups through a misspelt header.

Three details follow the code: the bundle accepts the path `.` and stores it as `.`; JSON booleans count as integers
in a bundle row; a promotion checks the stable wheel of its gate and not the generation (`StaleGatePromotesAgain`).

## Model

| member | source | states |
|---|---|---|
| Dedup.Deduplicate | tools/evaluate.py:1605-1612 | The loop with a seen set returns the distinct values in order of first occurrence. |
| Dedup.DistinctMembers | tools/evaluate.py:1605-1612 | The distinct values are the values of the list, each once. |
| Dedup.DistinctInOrder | tools/evaluate.py:1605-1612 | Each value is taken at its first occurrence, when exactly the values before it were taken. |
| Dedup.DistinctConcat | tools/evaluate.py:1605-1612 | Appending values never moves what was already distinct. |
| Dedup.DistinctFixed | tools/evaluate.py:1605-1612 | A list without repeats is its own deduplication. |
| Dedup.DistinctOfDistincts | tools/evaluate.py:1934-1937 | Deduplicating three lists part by part and then together gives the same ranking as deduplicating their concatenation once. |
| QueryRankings.SelectFileRows | tools/evaluate.py:1816-1827 | The loop over file rows stops at the first row beyond the distance limit and refuses a row without a valid distance that it reaches. |
| QueryRankings.EligibleIsLongest | tools/evaluate.py:1816-1827 | The eligible rows are the longest leading stretch within the limit; the next row, if any, is beyond it. |
| QueryRankings.TestExclusions | tools/evaluate.py:1844-1881 | One exclusion per test row, refused exactly when some row has only part of its route axes. |
| QueryRankings.KeptMembers | tools/evaluate.py:1882-1886 | A test row is eligible exactly when some occurrence of it is not excluded. |
| QueryRankings.CollectSymbols | tools/evaluate.py:1914-1918 | The nested loop collects the symbol identities of the presented rows in row order. |
| QueryRankings.CountSymbols | tools/evaluate.py:1906-1913 | The loop counts the symbols of the canonical rows that have an identity. |
| QueryRankings.CollectTests | tools/evaluate.py:1929-1933 | The loop collects paths and identities of the presented tests in order. |
| QueryRankings.ExtractRankings | tools/evaluate.py:1737-1956 | The whole extraction: every refusal of the context, distances, counts and route axes in the order the code meets them, and otherwise the rankings, evidence counts and selection. |
| SelectionExact.SelectionExactly | tools/evaluate.py:1737-1895 | A query is accepted exactly when its context has no rejected value, every file row reached has a distance and every test row has all route axes or none; it then selects exactly what the document asks: profile, distance limit, evidence policies, quotas and offsets as named or by the defaults of the profile, over its rows in order. |
| RankingOrder.RankingsExactly | tools/evaluate.py:1896-1956 | Each ranking of an accepted query lists what its rows name, each value once, in order of first occurrence: files, context (files, matched symbols, tests), seeds, symbols, matched symbols and tests, with the counts of canonical evidence. |
| ProfileWidening.TestsAdmittedExactly | tools/evaluate.py:1844-1879 | A routed test is admitted exactly when its evidence is allowed, its distance within the limit and its confidence not collapsed; it falls at the projection boundary exactly when the evidence is allowed and the distance is not. |
| ProfileWidening.ProfileDefaults | tools/evaluate.py:1767-1836 | What each of the four profiles presents without overrides: distances, row counts, confidences, and everything under audit. |
| ProfileWidening.EligibleFilesGrow | tools/evaluate.py:1816-1827 | A more permissive distance limit only appends eligible files, and accepts no more queries. |
| ProfileWidening.TestAdmissionGrows | tools/evaluate.py:1844-1879 | A test a narrower setting admits is admitted by a wider one, and both refuse the same rows. |
| ProfileWidening.KeptGrows | tools/evaluate.py:1882-1886 | Excluding less gives a supersequence of the eligible rows. |
| ProfileWidening.WideningKeepsEvidence | tools/evaluate.py:1767-1895 | With overrides fixed, going from a narrower to a wider profile keeps every eligible file and test, and the narrower presented file rows are a prefix of the wider ones. |
| ProfileWidening.SlicesJoin | tools/evaluate.py:1834-1836 | Consecutive slices of one list join to its leading part. |
| ProfileWidening.PagesConcatenate | tools/evaluate.py:1828-1836 | File pages at offsets 0, q, 2q and so on join to exactly the leading eligible rows, and enough pages to all of them. |
| ProfileWidening.TestPagesConcatenate | tools/evaluate.py:1887-1895 | The same for test pages. |
| RankingMetrics.FirstHit | tools/evaluate.py:1615-1635 | The one-based rank of the first relevant value, absent exactly when nothing relevant was returned. |
| RankingMetrics.RecallGrowsWithCutoff | tools/evaluate.py:1626-1631 | Recall never drops from 5 to 10 to 20 to all returned values and never exceeds one. |
| RankingMetrics.ReciprocalRankWitnessesHits | tools/evaluate.py:1615-1635 | The reciprocal rank is positive exactly when something relevant was returned, and recall at 5 exactly when the first hit ranks within 5. |
| RankingMetrics.HitsAndDistractors | tools/evaluate.py:1615-1635 | The distractors counted are exactly the distinct returned values outside the truth, and hits and distractors together are all returned values. |
| RankingMetrics.RankMetricsExactly | tools/evaluate.py:1615-1635 | Every stored metric as a ratio of counts over the distinct returned values and the distinct truth, or absent. |
| RetrievalLedger.RankOf | tools/evaluate.py:2180-2181 | The one-based position of an identity, absent exactly when it is not ranked. |
| RetrievalLedger.ViewsNest | tools/evaluate.py:2110-2196 | For files, symbols and tests, presented identities are eligible and eligible ones canonical. |
| TerminalCauses.TestCauses | tools/evaluate.py:2110-2261 | The row of a truth test: its ranks among the presented and canonical tests, and each of the eight causes exactly under its own condition on the Map, the truth, the rows and their exclusions. |
| TerminalCauses.FileCauses | tools/evaluate.py:2110-2261 | The same for files, which count as excluded with the tests whose identity starts with them. |
| TerminalCauses.SymbolCauses | tools/evaluate.py:2110-2261 | The same for symbols, none of which is excluded by itself. |
| RetrievalLedger.AuditOmitsNothing | tools/evaluate.py:2249-2251 | Under audit without quotas and offsets nothing is omitted by the context budget. |
| RetrievalLedger.OneRowPerItem | tools/evaluate.py:2337-2351 | One row per truth item and kind; relevant and introduced tests share one list without repeats. |
| RetrievalLedger.PresentedMatchesRankings | tools/evaluate.py:2130-2138 | The ledger and the extraction, written separately, rank the same files and tests. |
| RetrievalLedger.HitsMatchRecall | tools/evaluate.py:2228-2237 | For one kind, the rows marked as hits number the recall numerator at 20 exactly when no truth item among the first 20 is missing from the Map or introduced. |
| RetrievalLedger.LedgerAgreesWithMetrics | tools/evaluate.py:2012-2352 | For any query, profile, quotas and offsets the ledger hits for files and tests equal the numerators of the two recall metrics exactly when each truth item among the first 20 is in the Map and not introduced. |
| LineBudget.SelectWithin | tools/evaluate.py:2375-2383 | The loop selects greedily in rank order and its running total is the sum of the selected line counts. |
| LineBudget.LineBudgetMetrics | tools/evaluate.py:2360-2390 | One row per budget, each reporting size, lines and recall of the greedy selection over the deduplicated ranking. |
| LineBudget.GreedyStep | tools/evaluate.py:2378-2383 | Taking or skipping one more file keeps the selection greedy. |
| LineBudget.GreedyUnique | tools/evaluate.py:2375-2383 | There is exactly one greedy selection, so the specification pins the loop. |
| LineBudget.GreedyFeasibleAndMaximal | tools/evaluate.py:2375-2383 | The selection is a subsequence of the ranking, within the budget, and no skipped existing file fits beside the final selection. |
| LineBudget.BudgetMonotoneExactly | tools/evaluate.py:2375-2389 | A larger budget never drops a selected file, and never lowers recall for any truth, exactly when the existing files that have lines are ranked in order of ascending length. |
| LineBudget.LargerBudgetCanLoseRecall | tools/evaluate.py:2375-2389 | The smallest ranking outside that condition: a longer file before a shorter relevant one, whose recall drops from one to zero when the budget grows by one line. |
| PooledRecall.RoundingRecoversHits | tools/evaluate.py:3623-3630 | With relative error at most 2^-53 per operation and truth sizes up to 2^50, rounding recall times truth gives back the hit count of a case. |
| PooledRecall.Pool | tools/evaluate.py:3611-3633 | The pooled row computed from stored recalls alone has the true sums of hits and truth, and there is none without truth. |
| PooledRecall.PooledAtLeast | tools/evaluate.py:3623-3632 | A lower bound on every case recall bounds the pooled recall. |
| PooledRecall.PooledAtMost | tools/evaluate.py:3623-3632 | An upper bound on every case recall bounds the pooled recall. |
| PooledRecall.PooledBetweenExtremes | tools/evaluate.py:3611-3632 | The pooled ratio lies between the smallest and the largest exact recall of the cases with truth. |
| PooledRecall.StoredRecallBetweenExtremes | tools/evaluate.py:3631-3632 | With monotone rounding the pooled recall a row stores lies between the smallest and the largest stored recall. |
| HeldOutSafety.PublishSound | tools/evaluate.py:1505-1519 | Publishing leaves every published document under the name it hashes to and removes nothing. |
| HeldOutSafety.ComparisonSound | tools/evaluate.py:1337-1353 | Publishing a comparison keeps every pointer good, the one to the new comparison included. |
| HeldOutSafety.StepKeepsInv | tools/evaluate.py:1458-1537 | One step of any process, exception, partial write or kill keeps the invariant of the store. |
| HeldOutSafety.BystanderSound | tools/evaluate.py:869-901 | What one process does to the shared files never invalidates what another one relies on. |
| HeldOutSafety.ExecuteKeepsInv | tools/evaluate.py:3641-3797 | The invariant holds after every interleaving of freezes, reservations and runs with crashes anywhere. |
| HeldOutSafety.HeldOutOpenedOnce | tools/evaluate.py:869-901 | In every interleaving at most one run scores held-out cases; it asked to, and it scores the published corpus named with its label in the claim file. |
| HeldOutSafety.ClaimRefuses | tools/evaluate.py:818-866 | A process that starts while the claim file exists, even half written, is refused and changes nothing. |
| HeldOutSafety.ClaimUntouched | tools/evaluate.py:880-892 | No step of any process changes a claim whose creator is past removing it. |
| HeldOutSafety.StandingClaimShutsOut | tools/evaluate.py:859-866 | Once the claim stands it stands for good, and no process that had not passed its guard by then ever does, in any continuation. |
| HeldOutSafety.OpeningStands | tools/evaluate.py:3714-3728 | When held-out cases have been scored the claim already stands. |
| HeldOutSafety.NoDanglingPointers | tools/evaluate.py:1484-1491 | In every interleaving each digest in the state document, comparisons included, names a published document that hashes to it. |
| HeldOutSafety.PublishedForGood | tools/evaluate.py:1465-1476 | What was published stays published with the same bytes. |
| StateGenerations.PublishAdds | tools/evaluate.py:1505-1519 | In every reachable store publishing succeeds, and a document already published stays. |
| StateGenerations.UpdateRaisesGeneration | tools/evaluate.py:1528-1535 | A write of the state document raises the generation exactly when no overlapping update has passed the one it was built on. |
| StateGenerations.SequentialUpToDate | tools/evaluate.py:792-815 | When operations never overlap, wherever each is cut off, a live one always holds the present state document and the document stays readable. |
| StateGenerations.SequentialGenerations | tools/evaluate.py:1484-1491 | Run one after another and cut off anywhere, each change of the state document raises the generation by exactly one. |
| StateGenerations.UndisturbedFreeze | tools/evaluate.py:1499-1537 | A freeze left alone publishes its corpus or finds it published, makes it current, keeps the previous one with the comparison to it when they differ, and counts one update. |
| StateGenerations.UndisturbedOpening | tools/evaluate.py:3641-3793 | An opening run on the current corpus left alone leaves the finished claim, its published result and a state document two updates on that names corpus, label and result. |
| UndisturbedOperations.UndisturbedReservation | tools/evaluate.py:1458-1496 | A reservation left alone publishes its document, makes it current, keeps the previous one with the comparison to it when they differ, and counts one update. |
| UndisturbedOperations.LoadsExactly | tools/evaluate.py:1540-1551 | In a reachable store a run loads the corpus named, or the current one, exactly when it is published. |
| UndisturbedOperations.UndisturbedRun | tools/evaluate.py:3641-3793 | An ordinary run left alone publishes and records its result with the comparison to the run before, marks it as no opening, counts one update and claims nothing. |
| UndisturbedOperations.OpeningNeedsCurrentCorpus | tools/evaluate.py:3656-3662 | An opening run that names a corpus other than the current one fails before it claims anything and changes no file. |
| UndisturbedOperations.FailedClaimIsRemoved | tools/evaluate.py:886-892 | A claim whose writing raises is taken back and the process fails. |
| StateGenerations.WriteLosesRecordExactly | tools/evaluate.py:1528-1535 | In every reachable system a write leaves the opening on record exactly when the snapshot it was built on had it or the write is the one that records it, and leaves a readable document exactly unless it is the result of an opening run over a snapshot without the record. |
| StateGenerations.LateFreezeLosesRecord | tools/evaluate.py:1499-1535 | A reachable run in which an overlapping freeze overwrites the record of the opening without raising the generation, and the state document ends unreadable, while the claim file survives. |
| RunComparison.CompareRuns | tools/evaluate.py:4078-4174 | The loop over all case ids with its counters returns the rows and tables of the specification, or the first ledger error. |
| RunComparison.CompareCase | tools/evaluate.py:4110-4173 | One case present in both runs: skipped when its digest changed, otherwise metrics, three statuses and ledger transitions. |
| RunComparison.CollectMetrics | tools/evaluate.py:4117-4135 | The loop over shared metric names keeps those that are numbers on both sides and marks ungated timings incomparable. |
| RunComparison.IndexCases | tools/evaluate.py:4078-4079 | The dictionary of cases by id, later ones replacing earlier ones. |
| RunComparison.RowsFail | tools/evaluate.py:4110-4173 | The first refused case decides the outcome of the comparison. |
| ComparisonExact.FamilyExactly | tools/evaluate.py:3800-3851 | The family a metric name decides, each with its own condition on the words it contains. |
| ComparisonExact.DirectionExactly | tools/evaluate.py:3807-3829 | The direction a metric name decides. |
| ComparisonExact.MetricExactly | tools/evaluate.py:3864-3885 | One metric: its values, difference, facts of its name, tolerance, and its verdict on the two values. |
| ComparisonExact.LedgersExactly | tools/evaluate.py:3997-4046 | Ledgers give no transitions unless both have the known contract and one cutoff; then they are accepted exactly when each kind has well-formed rows over the same identities, and give one transition per identity in order with both causes. |
| ComparisonExact.RowsExactly | tools/evaluate.py:4102-4173 | Each row of a comparison: skipped when the case is missing or its corpus entry changed; otherwise its metrics, the status of each family as the worst verdict on them, the labels of the later run and the transitions. |
| ComparisonExact.PerformanceCellsCount | tools/evaluate.py:4152-4161 | The performance counters and the counter of incomparable cases hold the number of rows that belong in them. |
| ComparisonLaws.MetricVerdicts | tools/evaluate.py:3864-3885 | Each verdict stated on the two values: improved and regressed exactly when a gain or loss moves by more than the fixed tolerance, unchanged exactly within the tolerance. |
| ComparisonLaws.MetricSwaps | tools/evaluate.py:3864-3885 | Outside the performance family, swapping the runs exchanges improved and regressed. |
| ComparisonLaws.PerformanceSwapsExactly | tools/evaluate.py:3864-3885 | For a cost the verdict survives swapping exactly when the difference does not lie between the two tolerances. |
| ComparisonLaws.PerformanceIsAsymmetric | tools/evaluate.py:3867-3870 | A duration that changes in one direction and is unchanged in the other. |
| ComparisonLaws.StatusSwaps | tools/evaluate.py:3854-3861 | A status is mirrored exactly when the metrics do not both improve and regress; otherwise both statuses are regressed. |
| ComparisonLaws.MixedStatusStays | tools/evaluate.py:3854-3861 | One metric that improves beside one that regresses gives a status that swapping does not mirror. |
| ComparisonLaws.LedgersSwap | tools/evaluate.py:3997-4046 | Comparing ledgers the other way round gives the same refusal or the transitions read backwards. |
| ComparisonLaws.KindComparesExactly | tools/evaluate.py:4009-4032 | Two row lists are accepted exactly when both are lists of well-formed rows without repeated identities over the same identities. |
| ComparisonLaws.CasesSwap | tools/evaluate.py:4110-4173 | One case seen from the other side: metrics, both statuses and transitions mirrored. |
| ComparisonLaws.RunsSwap | tools/evaluate.py:4049-4174 | Comparing two runs in the other order fails in the same way or gives the mirrored rows in the same order. |
| ComparisonLaws.TablesSwap | tools/evaluate.py:4158-4161 | Rows seen from the other side fill each table with improved and regressed exchanged, up to its mixed rows, which count as regressed on both sides. |
| ComparisonLaws.SummariesSwap | tools/evaluate.py:4049-4174 | When two runs agree on the review status and split of comparable cases, swapping them exchanges improved and regressed in each quality and context table up to its number of mixed cases, so a table is mirrored exactly when no mixed case is counted in it. |
| ComparisonLaws.OneRowPerCase | tools/evaluate.py:4102-4109 | One row per distinct case id in order, skipped exactly when the case is missing on a side or its digest changed. |
| ComparisonLaws.RowMetricsExactly | tools/evaluate.py:4110-4135 | A row holds exactly the metrics that are numbers on both sides, with both values; a cost is incomparable exactly when cache policy or environment is unknown or differs. |
| ComparisonLaws.TablesConserve | tools/evaluate.py:4152-4161 | Each counter table together with the incomparable count adds up to the number of rows. |
| ComparisonLaws.ComparisonConserves | tools/evaluate.py:4102-4161 | Every table, by review, by split and for performance, together with the incomparable count adds up to the number of distinct case ids. |
| ComparisonLaws.ReviewCellsCount | tools/evaluate.py:4158-4159 | Every cell of the review tables holds exactly the number of rows that belong in it. |
| ComparisonLaws.SplitCellsCount | tools/evaluate.py:4160-4161 | The same for the tables by split. |
| ComparisonLaws.RunAgainstItself | tools/evaluate.py:4049-4174 | A run compared with itself has no incomparable case, only unchanged quality, context and ledger rows, and counts nothing but unchanged. |
| Ordering.BelowExactly | tools/evaluate.py:4032-4032 | Sorting compares the first characters in which two texts differ; a prefix comes first. |
| PosixPath.SplitJoin | tools/csrc_bundle.py:19-29 | Joining and splitting path components are inverse. |
| PosixPath.ComponentsOfNormal | tools/csrc_bundle.py:19-29 | A normalised path has the components it was normalised from. |
| PosixPath.SafePathStable | tools/csrc_bundle.py:19-29 | What `_safe_path` returns passes it unchanged. |
| PosixPath.SafePathExactly | tools/csrc_bundle.py:19-29 | A path is refused exactly when it is empty or absolute, has a component `..` or holds a backslash; otherwise it becomes its named components joined. |
| JsonText.ReadWrite | tools/csrc_bundle.py:49-54 | Every document the JSON writer writes is read back, leaving what follows untouched. |
| JsonText.WriteIsAscii | tools/csrc_bundle.py:49-54 | The writer emits ASCII only. |
| JsonText.LoadsDumps | tools/csrc_bundle.py:49-54 | Writing a document as bytes and loading the bytes gives the document. |
| SourceBundle.BigEndianInverse | tools/csrc_bundle.py:55-55 | The big-endian length field reads back as the number written. |
| BundleText.LeadingByte | tools/csrc_bundle.py:55-55 | The first byte of the length field is the most significant. |
| BundleText.PayloadFrame | tools/csrc_bundle.py:15-55 | A payload is the 24 signature bytes, eight bytes of header length, the header text as bytes and the joined content. |
| BundleText.HeaderText | tools/csrc_bundle.py:49-54 | The header text is sorted by key, without spaces: the artifact name and the rows in order with bytes, offset, path and digest. |
| BundleText.ReadRowExactly | tools/csrc_bundle.py:83-91 | A row is read exactly from an object whose last values of the four keys give it, truth values counting as integers. |
| SourceBundle.ReadRowJson | tools/csrc_bundle.py:83-91 | A row document is read back as the row it was made from. |
| SourceBundle.LayOut | tools/csrc_bundle.py:33-48 | The loop over sorted members: rows and content grow together, each row at the offset where its member starts. |
| SourceBundle.EncodeBundle | tools/csrc_bundle.py:32-56 | Refuses exactly when some member path is unsafe or the header does not fit its length field, and otherwise returns the payload of the specification. |
| SourceBundle.DecodeBundle | tools/csrc_bundle.py:59-107 | The reader loop with its running offset returns the members of the specification or the refusal the code raises first. |
| BundleRoundTrip.RoundTrip | tools/csrc_bundle.py:32-107 | Reading what was written succeeds exactly when no two members share a normalised path, and returns every member under its normalised path and nothing else. |
| BundleRoundTrip.RoundTripCanonical | tools/csrc_bundle.py:32-107 | Members under canonical paths come back as they were, through the concrete JSON reader. |
| BundleRoundTrip.LoadsReadsRows | tools/csrc_bundle.py:71-79 | The concrete JSON reader reads every header the writer can produce. |
| BundleRoundTrip.DecodedIsTiling | tools/csrc_bundle.py:80-107 | In every accepted payload the rows tile the content in order with distinct safe paths and matching digests, and the result is the table they describe. |
| BundleRoundTrip.MembersCoverContent | tools/csrc_bundle.py:80-107 | Joining the accepted members in row order gives the whole content. |
| BundleRoundTrip.HeaderDeterminesContent | tools/csrc_bundle.py:71-107 | With a collision-free digest, two accepted payloads that agree up to the end of their headers are equal. |
| BundleGrammar.DecodesExactly | tools/csrc_bundle.py:59-107 | A payload decodes to a table exactly when it has signature, length and a header naming the artifact, every item is a row, and the rows cut the whole content into consecutive verified members with distinct safe paths, which are the table. |
| SourceIdentity.PackPaths | tools/sync_csrc.py:234-269 | The set grown by updates holds exactly the paths selected for the pack. |
| SourceIdentity.ValidateManifest | py/setup.py:98-125 | The manifest loop accepts and refuses rows as the specification does, in order, and refuses unsorted or repeated paths. |
| PackageManifest.ManifestAcceptedExactly | py/setup.py:98-125 | A manifest is accepted exactly when every row names a regular file of the snapshot inside it with its size and digest and a source inside its tree, and the paths ascend strictly; the build keeps these paths and sources. |
| MaterialDetermines.LineFormat | tools/sync_csrc.py:298-301 | The material of a list of identities joins, in order, name, colon, digest and newline of each. |
| MaterialDetermines.MaterialLists | tools/sync_csrc.py:146-148 | The material lists the identities of the selection, each once, in ascending order, whatever the visiting order. |
| MaterialDetermines.MaterialDeterminesSources | tools/sync_csrc.py:298-301 | With collision-free digests of one length two selections have the same material exactly when they have the same identities with the same bytes behind each. |
| MaterialDetermines.LexicalMeans | py/setup.py:187-223 | A lexical material is refused exactly when its shared list repeats a path or names one outside the inventory, and otherwise joins the digests of shared files, scanner source, scanner header and Python sources. |
| MaterialDetermines.LexicalDeterminesContents | py/setup.py:187-223 | Two accepted lexical materials are equal exactly when the files behind them hold the same bytes in the same places. |
| PackageManifest.CoreCoversSelections | tools/sync_csrc.py:234-297 | The C sources that a Tree-sitter pack or SCIP selects are core sources. |
| PackageManifest.EditsReach | tools/sync_csrc.py:218-290 | The identities an edit of a file reaches: shared model files the core, SCIP and every pack, scanner files and the Tree-sitter library every pack, and the ECMAScript, TypeScript and Python sources the packs built on them. |
| PackageManifest.CoreIdentityCovers | tools/sync_csrc.py:234-301 | Two states of one checkout with the same core material have the same material for every selection of core sources. |
| SameIdentity.AcceptedManifestMirrors | py/setup.py:101-125 | An accepted manifest mirrors the repository: each path with the bytes digest and identity of its source. |
| SameIdentity.CopyIsAccepted | py/setup.py:103-125 | A snapshot that copies the repository bytes is accepted. |
| SameIdentity.SameMaterial | tools/sync_csrc.py:298-301 | Over any accepted snapshot and any visiting orders the writer and the build compute the same material for a selection. |
| SameIdentity.SameIdentityFromTwoBuilds | tools/sync_csrc.py:181-307 | The same for any selection rule applied on both sides. |
| SameIdentity.NamedIdentitiesAgree | py/setup.py:228-316 | In particular for the core, every Tree-sitter pack and SCIP. |
| SameIdentity.CoreIgnoresBinding | tools/sync_csrc.py:292-301 | The core material is the same for the Python and the Node package. |
| SameIdentity.SameLexicalIdentity | py/setup.py:187-223 | The material of each lexical provider agrees too, including the refusal of its shared source list, when the digest does not collide on that list. |
| SnapshotSync.PackageRoot.Sync | tools/sync_csrc.py:479-513 | The directory steps of a synchronisation, cut off or raising at any of them, leave what the specification says. |
| SnapshotSync.PackageRoot.Fill | tools/sync_csrc.py:487-496 | The copying loops write the files one by one into the temporary directory only. |
| SnapshotSync.PackageRoot.SwapIn | tools/sync_csrc.py:502-509 | Removing the backup, retiring the live directory, renaming the new one in and dropping the backup, stopped anywhere. |
| SnapshotSwap.CurrentExactly | tools/sync_csrc.py:402-452 | With a collision-free digest the manifest rows pin the snapshot: a directory is current exactly when it carries the manifest and holds the bytes of every repository and generated file as a regular file. |
| SnapshotSwap.BuiltIsCurrent | tools/sync_csrc.py:439-452 | A finished build is accepted as current by a later run. |
| SnapshotExact.BuiltExactly | tools/sync_csrc.py:402-505 | A finished build holds exactly the repository and generated files with their bytes, and a manifest that names the artifact and lists both kinds of files apart. |
| SnapshotExact.SyncExactly | tools/sync_csrc.py:463-513 | A run left to finish does nothing when the live directory is up to date, refuses when it is foreign, and otherwise leaves the new snapshot with nothing beside it. |
| SnapshotSwap.SyncLeavesLiveWhole | tools/sync_csrc.py:485-512 | At every stopping point the live directory is the one found, absent, or the complete new one, with the old one intact as backup when it is absent. |
| SnapshotSwap.ForeignIsNeverReplaced | tools/sync_csrc.py:483-484 | A live directory with a foreign manifest survives any history of runs, whatever the repository becomes and wherever each is stopped. |
| SnapshotSwap.OnlyKillsLeaveTemporary | tools/sync_csrc.py:488-512 | Over any history of runs stopped by exceptions anywhere no temporary directory is left behind. |
| SnapshotSwap.LiveIsAlwaysWhole | tools/sync_csrc.py:463-513 | Over any history of runs, repositories and crashes the live directory is absent or complete. |
| SnapshotSwap.RerunConverges | tools/sync_csrc.py:481-513 | After any such history one undisturbed run ends with a current snapshot and a further one finds nothing to do. |
| ReleaseStaging.Release.StageNode | tools/stage_release_provenance.py:128-155 | Record, provenance and stamped package are written in this order and only when nothing refuses; a cut leaves exactly the writes before it. |
| ReleaseStaging.Release.CleanNode | tools/stage_release_provenance.py:158-195 | The original is put back only over the staged bytes, then provenance and record are dropped, with every refusal of the code. |
| ReleaseStaging.Release.DropProvenance | tools/stage_release_provenance.py:159-166 | Without a record only a recognised provenance file is removed. |
| StagingExact.StageExactly | tools/stage_release_provenance.py:128-155 | What a staging call leaves in the three files, wherever it is killed: nothing, the record, record and provenance, or all three, with the given part of the write cut off. |
| StagingExact.StageCompletesExactlyWhen | tools/stage_release_provenance.py:128-155 | An undisturbed staging completes exactly when there is no record, the provenance is absent or recognised and the package can be stamped; it leaves exactly the stamped bytes, the provenance, and a record of the original with both digests. |
| StagingExact.CleanExactly | tools/stage_release_provenance.py:158-195 | What a clean-up leaves, wherever it is killed. |
| StagingLog.OriginalNeverLost | tools/stage_release_provenance.py:128-195 | After any calls, each killed anywhere, even in mid-write, and any outside edits, the package file or the record holds the original bytes. |
| StagingLog.CompletedCleanRestores | tools/stage_release_provenance.py:173-195 | A clean-up that completes while a record exists restores the exact bytes and removes both side files. |
| StagingLog.EditedPackageIsLeftAlone | tools/stage_release_provenance.py:158-188 | After any history, while a record of any kind exists and the package is neither the original nor a stamped original, no number of clean-ups and stagings, killed anywhere, changes any of the three files. |
| StagingLog.NoStagingOverRecord | tools/stage_release_provenance.py:129-132 | While any record exists no second staging starts. |
| StagingLog.CleanCompletesExactlyWhen | tools/stage_release_provenance.py:158-195 | An undisturbed clean-up completes exactly when the record is absent or truthful, the package is the staged or the original one, and the provenance is recognised. |
| StagingLog.CleanAlwaysRecovers | tools/stage_release_provenance.py:158-195 | When kills fall between writes and nobody edits the package, one undisturbed clean-up always gets back to the original package without side files. |
| SelfHost.StateRoot.InstallSlot | tools/self_host.py:189-253 | An existing slot is validated; a new one is published last, undone by its handler, or left unfinished by a cut. |
| SelfHost.StateRoot.Seed | tools/self_host.py:271-288 | Generation 0 is recorded once, after a successful installation. |
| SelfHost.StateRoot.Check | tools/self_host.py:409-569 | A gate is produced exactly when the stable state loads, the candidate installs, its evidence directory is new and every measurement succeeds; it records the slots, maps, exit codes, source digests and stability. |
| SelfHost.StateRoot.Promote | tools/self_host.py:572-612 | The stable state is replaced exactly when the decision of the code allows it. |
| PromotionHistory.InstallKeepsFinished | tools/self_host.py:189-253 | Whatever becomes of an installation, finished slots stay as they are. |
| PromotionExact.InstallTwice | tools/self_host.py:189-253 | An installation that raised can be repeated as if it had not been made; a finished one answers with what it installed; a cut-off one never does. |
| PromotionExact.SeedExactly | tools/self_host.py:271-288 | The first recorded seed makes its slot the stable one of generation 0 without predecessor or promotion; with a stable slot a seed changes nothing. |
| PromotionExact.MeasureExactly | tools/self_host.py:409-565 | A measurement gives a gate exactly when its evidence is new, every command succeeds, the source evidence is unchanged and both bindings match; every field of the gate. |
| PromotionExact.PromoteExactly | tools/self_host.py:572-612 | Whoever wrote the gate, it is promoted exactly under the conditions on slots, seal, stable wheel, status or approved delta, verification, bindings and tests; the state it leaves. |
| PromotionHistory.NextKeepsInv | tools/self_host.py:572-612 | One command, cut off or not, keeps the history chained, justified and on finished slots. |
| PromotionHistory.PromotionsJustified | tools/self_host.py:572-612 | Over all command sequences generations count from 0, each value names its predecessor and is backed by a sealed gate on exactly that change with passing tests, verification and bindings and a pass or an approved delta with a rationale; every gate `check` wrote is truthful, names the stable slot of its generation and a finished candidate. |
| PromotionHistory.PromotionsMeasured | tools/self_host.py:409-612 | When promotions are given gates `check` wrote, every change of the stable slot over all histories is backed by a measurement of the replaced slot against the installed one, with all commands succeeding and maps that agree or whose exact delta was approved with a rationale. |
| PromotionHistory.MeasuredGatePromotes | tools/self_host.py:409-612 | A gate measured at any time promotes its candidate exactly when the wheel it was measured on is the stable one now and the maps agreed or its delta is approved with a rationale. |
| PromotionHistory.ContextDriftDecidesNothing | tools/self_host.py:370-612 | Two measurements that differ only in discovery context or producer before the tests are refused alike, or their gates promote alike from every state, with every approval and rationale. |
| PromotionHistory.StaleGatePromotesAgain | tools/self_host.py:576-577 | A gate is bound to the stable wheel and not to its generation: a history in which the gate of generation 0 promotes again at generation 2. |
| PromotionHistory.CutOffBlocksWheel | tools/self_host.py:192-193 | An installation cut off midway blocks its wheel in every continuation: the slot stays unfinished, is never stable and never the candidate of a gate. |
| SourceManifest.LoadManifest | tools/core_source_manifest.py:47-110 | The line loop accepts and refuses rows as the specification does, in order. |
| SourceManifest.AssignOwners | tools/core_source_manifest.py:202-206 | The loop pairs each path with its one reviewed owner or refuses. |
| SourceManifest.ValidateManifest | tools/core_source_manifest.py:182-206 | Loading, comparison with the tree and owner assignment in the order of the code. |
| ManifestGrammar.SourcesLoadExactly | tools/core_source_manifest.py:68-110 | A source manifest loads exactly when, empty rows and comments aside, it is one block of its variable listing existing legal paths in strictly ascending order. |
| ManifestGrammar.SourcesValidateExactly | tools/core_source_manifest.py:182-206 | It is valid exactly when it lists all native sources of the tree in order, each legal and with one owner; the entries are these paths with their owners. |
| NativeIncludes.RequireOwner | tools/core_source_manifest.py:153-179 | Returns the owner exactly when there is exactly one. |
| InventoryReport.OwnerExactly | tools/core_source_manifest.py:153-179 | A path has an owner exactly when that component alone claims it by one of its patterns. |
| NativeIncludes.ValidatePrivateIncludes | tools/private_include_boundaries.py:137-244 | The loops over files and lines collect relations and failures and refuse as the specification does. |
| NativeIncludes.LoadAllowedEdges | tools/private_include_boundaries.py:58-118 | The loop over the reviewed rows returns the set of allowed edges or the first refusal. |
| IncludeGraph.EdgeListExactly | tools/private_include_boundaries.py:58-118 | The edge list is accepted exactly when its rows are complete wildcard rows between known components and name no edge twice; it then gives exactly the edges they name. |
| IncludeGraph.CrossingsAreReviewed | tools/private_include_boundaries.py:45-55 | Every cross-component edge of an accepted inventory is named by a reviewed row between known components. |
| InventoryReport.CrossingsExactly | tools/private_include_boundaries.py:45-55 | The component edges of an accepted inventory are exactly those from a file of one component that includes a private header of another. |
| IncludeGraph.JudgeMeans | tools/private_include_boundaries.py:177-239 | A directive causes no failure exactly when it is permitted, and then adds its one relation if it names a private header. |
| InventoryReport.JudgeFailsExactly | tools/private_include_boundaries.py:177-239 | Each of the seven failures of a directive holds exactly under its own condition. |
| InventoryReport.ReportsExactly | tools/private_include_boundaries.py:164-242 | A refused inventory reports a failure exactly when some directive of some file has it. |
| IncludeGraph.ScanClean | tools/private_include_boundaries.py:164-242 | Failures are never taken back: a scan ends without any exactly when every file is clean, and then the relations are its include edges. |
| IncludeGraph.InventoryExact | tools/private_include_boundaries.py:137-244 | Accepted exactly when there are headers, each with one owner, and every file is clean; the relations are then the private include graph with reviewed owners and only allowed component edges. |
| CoreTargets.ParseSets | tools/core_target_manifest.py:67-99 | The row loop returns the variable table or the first refusal. |
| CoreTargets.LoadTargets | tools/core_target_manifest.py:132-196 | The loop over group names returns the group table or the first refusal. |
| CoreTargets.LoadOne | tools/core_target_manifest.py:135-193 | One group: its variables taken out, prefixes claimed, dependencies looked up among earlier groups. |
| TargetDeclarations.LoadedIsWellDeclared | tools/core_target_manifest.py:102-196 | An accepted table is well declared: unique names and prefixes, and dependencies on earlier groups only. |
| TargetDeclarations.WellDeclaredIsLoaded | tools/core_target_manifest.py:102-196 | The variables of every well-declared table are accepted and read back as it. |
| ManifestGrammar.TableLoadsExactly | tools/core_target_manifest.py:102-196 | The loader returns a table exactly for the variables that declare it, by name, when it is well declared. |
| TargetDeclarations.ParseInvertsRendering | tools/core_target_manifest.py:59-99 | Blocks written as rows parse back to their table. |
| ManifestGrammar.SetsParseExactly | tools/core_target_manifest.py:59-99 | The rows parse to a table exactly when, empty rows and comments aside, they spell out blocks with distinct one-word names and values without blanks, and the table holds exactly these. |
| Layering.ValidateTargets | tools/core_target_manifest.py:217-291 | The validation loops return the grouping and collapsed edges of the specification or the refusal the code raises first. |
| Layering.GroupPathsKeys | tools/core_target_manifest.py:230-243 | The grouping holds exactly the core paths, each with its one matching group. |
| AcyclicLayers.GroupOfPath | tools/core_target_manifest.py:199-214 | A path has a group exactly when it lies under `src/` and exactly one prefix of one group covers it. |
| AcyclicLayers.CoreIsPartitioned | tools/core_target_manifest.py:230-256 | When accepted, exactly the listed sources and the private headers have a group, that of the one prefix that covers them, and files of one component share a group. |
| AcyclicLayers.AcceptsExactly | tools/core_target_manifest.py:217-291 | A project is accepted with given layers exactly when its includes are, exactly its sources and headers are grouped by their one covering prefix, each has one owner and no component is split, and the crossings of its includes are the declared dependencies, both being the edges. |
| AcyclicLayers.IncludesAreDeclared | tools/core_target_manifest.py:258-284 | When accepted, an include from any listed source or private header into another group is a declared dependency. |
| AcyclicLayers.RankNeverRises | tools/core_target_manifest.py:258-271 | Along an include the group order never rises, and stays only inside a group. |
| AcyclicLayers.WalkDescends | tools/core_target_manifest.py:258-284 | The same along include walks of any length. |
| AcyclicLayers.CyclesStayInGroup | tools/core_target_manifest.py:258-284 | When accepted, every cycle of any length in the include graph the inventory reads stays inside one group. |
| AcyclicLayers.DependenciesAreUsed | tools/core_target_manifest.py:269-284 | Every declared dependency is witnessed by an include between the two groups. |
| OpenedHeaders.OpensWhatIsRead | tools/private_include_boundaries.py:186-222 | A permitted directive makes a compiler open the header the inventory reads, or none when it reads none, exactly when it neither names a private header with empty or `.` components nor finds another one beside its own file first. |
| OpenedHeaders.ReadAsOpenedExactly | tools/private_include_boundaries.py:137-244 | The same for all directives of an accepted inventory. |
| OpenedHeaders.OpenedCyclesStayInGroup | tools/core_target_manifest.py:217-291 | In an accepted project of plainly named headers every cycle of headers a compiler opens stays inside one group. |
| MisspeltInclude.MisspeltCycleCrosses | tools/private_include_boundaries.py:186-239 | Without that condition it fails: an accepted project in which two headers of different groups open each other, one under a name with a `.` component. |
| OutputBuffer.Output.constructor | bindings/python.c:23-27 | An empty buffer. |
| OutputBuffer.Grown | bindings/python.c:54-61 | The doubled capacity covers the need within `size_t` and stays below twice the need. |
| OutputBuffer.Output.Doubled | bindings/python.c:54-61 | The doubling loop terminates without overflow and arrives at that capacity. |
| OutputBuffer.Output.Write | bindings/python.c:46-73 | Appends the bytes, growing when needed, or fails and leaves contents and capacity unchanged. |
| OutputBuffer.Output.CopyIn | bindings/node.c:41-68 | The copy lands right behind the current contents. |
| OutputBuffer.Output.Reallocate | bindings/wasm.c:75-102 | The larger block starts with the old bytes. |
| OutputBuffer.WriteExactly | bindings/python.c:46-73 | A write is refused, changing nothing, exactly when the output would exceed `size_t` or the block must grow and the allocator refuses; otherwise the bytes are appended and the capacity is the first doubling that covers them, or the exact need past half of `size_t`. |
| OutputBuffer.RefinesConcatenation | bindings/node.c:41-68 | After any writes the buffer holds exactly the accepted bytes in order. |
| OutputBuffer.WrittenAmortised | bindings/wasm.c:75-102 | Each write keeps the bytes moved so far below the present capacity and that below twice the contents. |
| OutputBuffer.LinearCost | bindings/python.c:46-73 | While the output stays within half of `size_t`, reallocation moves at most twice the bytes written. |

## Left out

- The C engine under `src/`, the remaining binding code, the application and the JavaScript and release scripts: not
  part of this model.
- Compression of the bundle: the payload inside `gzip` is modelled; compressing is taken to be lossless.
- LoadsDumps: the concrete JSON reader covers the grammar the writer produces plus white space; fractions, exponents,
  non-ASCII input, `NaN` and escapes of lone surrogates are not part of it. The decoder theorems hold for any reader.
- SHA-256, `fnmatch`, the regular expressions of names and prefixes, UTF-8 decoding and JSON parsing of configuration
  files: given functions or predicates.
- TestCauses: the ledger's `origin`, `lexical_rank`, `confidence`, `evidence_state` and `seed_distance` columns,
  which decide no cause, are not modelled; the Map inventory is given as three sets.
- LedgerAgreesWithMetrics: the retrieval rankings, test tiers, exact path metrics and the case validators are not
  modelled, and the symbol rankings of the ledger and of the metrics differ by design.
- LineBudgetMetrics: line counts of files are given.
- Pool: the selection of cases by status and split and the plain means are not modelled; floating point enters through
  its relative error bound only.
- HeldOutOpenedOnce: what a corpus, result or comparison document says is given as its bytes; temporary files that a
  kill leaves behind are not modelled; an existence check and the rename after it are one step, a lost race there being
  one of the exceptions a step may raise.
- SequentialGenerations: for operations that overlap, no more is claimed of `state.json` than `UpdateRaisesGeneration`,
  `WriteLosesRecordExactly` and `NoDanglingPointers`, because its writers take no lock.
- CompareRuns: reading the two result files and their digests, the renaming of metrics in runs of schema 3 and the
  host and environment records behind the two comparability keys are not modelled; metric values are reals.
- `compare_corpora`, `compare_reservations`, `initialize` and the reports: they would only add easy members.
- NamedIdentitiesAgree: the rules that select files for an identity are the same text in both programs and are modelled
  once; the manifest's generated section and the Node build file are not modelled there.
- Sync: times of files, the copied licence, the package version and temporary directories of earlier killed runs, which
  have names of their own, are not modelled.
- PromotionsJustified: a promotion or check overlapping another writer of `stable.json` is not modelled; of the command
  records a gate keeps the exit codes, of the stability record whether context and evidence were equal.
- ValidatePrivateIncludes: which lines are include directives and what they name is given, as are the parsed component
  map and the parsed rows of the edge list.
- Opened: symbolic links and include directories other than `src` and that of the including file are not modelled.
- ValidateTargets: the source list and the header set are given as the validated manifest and the tree.
- Reallocate: memory is modelled as sequences of bytes; aliasing of the caller's bytes with the buffer is excluded.
