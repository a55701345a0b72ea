# singupy core, modelled in Dafny

This project models the pure logic at the heart of singupy, Energinet Singularity's helper
library for Kafka, kSQL and data checks. Each part is stated as immutable data and pure functions,
and the properties the code promises are proved about them.

- **Kafka snapshot bookkeeping** of the two near-duplicate classes `MessageHandler`
  (`singupy/messagebus.py`) and `KafkaHelper` (`singupy/kafka.py`). The broker is replaced by its
  answers:
  - a catalog from topic to partitions, each with a begin and an end offset;
  - the consumer's positions;
  - the finite sequence of batches the successive polls return.

  On top of these the model has:
  - the derived topic lists;
  - the topic-existence check;
  - the latest-value-per-topic reducer;
  - empty-topic detection, both the copying version and the in-place one;
  - the seek-to-latest targets;
  - both termination tests (consumer position against end offset, and last-read offset against
    end − 1);
  - the row projection, the key filter and value extraction over a data frame, modelled as a
    sequence of rows.

  Modules `Broker` and `Latest` hold what the two classes share. `MessageBus` and `KafkaHelper`
  hold what each class does its own way.
- **`kv_to_letter`** (`singupy/conversion.py`), module `Conversion`. It is total over integers,
  half-open at every boundary and monotone. A text argument behaves like the number `int()` reads
  from it (module `Decimal`).
- **`dataframe_columns`** (`singupy/verification.py`), module `Verification`. It is checked over
  the list of column names in both of its modes. `sorted` is modelled with Python's order on
  `str`.
- **The pure parts of `singupy/ksql.py`:**
  - **Broker parsing and normalisation** in `manager.__init__` (module `Ksql`). This includes the
    regular expression's groups and its `$`, which also matches before a final newline.
  - **`dict_dive`** (module `Ksql`).
  - **`config.add_child`** (module `KsqlConfig`).
  - **The create, keep or recreate decision** of `assert_configuration` (module `KsqlConfig`).
  - **The order of requests** that `create_configuration`, `delete_configuration` and
    `assert_configuration` send while walking a configuration tree (module `KsqlConfig`). Requests
    become actions in a plan. What the server holds is the set of names it knows.

Python exceptions and `sys.exit` become `Failure` values of a `Result`, and Python's `None` becomes
`Option`.

The model keeps to the behaviour of the code:
- the two classes are kept apart, each with its own empty-topic detection and termination test;
- the seek takes its partition from the topic's list by partition number, which is exact only when
  numbers follow list positions (`Broker.SeekFollowsListIndex`);
- the in-place removal skips topics (`KafkaHelper.AdjacentTopicSkipped`).

## Model

| member | source | states |
|---|---|---|
| Broker.DeriveTopicLists | singupy/messagebus.py:48-51 | The topic list is C ∪ P. Consumed-only is C \ P, produced-only is P \ C, and consumed-and-produced is C ∩ P. Each list is free of repeats. The three are pairwise disjoint, and together they make up the topic list. |
| Broker.MissingTopics | singupy/messagebus.py:127-131 | The collected unavailable topics are exactly the listed topics the broker lacks. |
| Broker.VerifyTopicExistence | singupy/messagebus.py:125-140 | Passes exactly when every listed topic exists. Otherwise it fails with a non-empty list of exactly the missing topics. |
| Broker.NonEmptyCount | singupy/messagebus.py:222-224 | The number of partitions with end > begin is at most the number of partitions, and it is zero exactly when none has data. |
| Broker.RemoveForPartitionsCounts | singupy/messagebus.py:222-224 | When the inner loop's removals succeed, they take out one copy of the topic per partition with data, and nothing else. |
| Broker.RemoveForPartitionsOnce | singupy/messagebus.py:222-224 | On a list holding the topic once: no partition with data leaves the list unchanged, and one removes that occurrence. Two or more make the second `remove` fail. |
| Broker.RemoveForPartitionsAbsent | singupy/kafka.py:203-205 | With the topic already gone, the loop changes nothing when no partition has data, and otherwise fails. |
| Broker.EmptyTopicsIn | singupy/messagebus.py:213-226 | The reference result: a subsequence of the list holding a topic exactly when it is listed and none of its partitions has end > begin. |
| Broker.SeekPartitionsOutcome | singupy/messagebus.py:250-256 | One topic's seek loop fails exactly when some partition with end > 0 carries a number past the end of the list, which is the IndexError of the indexed lookup. On success every seek is for that topic and to a non-negative offset. |
| Broker.SeekLatest | singupy/messagebus.py:248-256 | The seek loop over the consumed topics fails exactly when some consumed topic has such a partition. |
| Broker.LatestTargetsContents | singupy/messagebus.py:252-255 | The reference seeks: every partition with end > 0 is sought to end − 1, and nothing else is sought. |
| Broker.SeekPartitionsCanonical | singupy/messagebus.py:254 | When partition numbers follow list positions, the indexed lookup hands every partition its own seek, so the loop gives the reference seeks. |
| Broker.AllTargets | singupy/messagebus.py:248-256 | The reference seeks of all consumed topics are exactly one per partition with end > 0, to end − 1. |
| Broker.SeekLatestCanonical | singupy/kafka.py:231-239 | On canonical partition lists the seek loop succeeds with exactly the reference seeks. |
| Broker.NoSeekWithoutEnd | singupy/messagebus.py:248-256 | On a partition list numbered 0, 1, 2, … in list order, the seek loop succeeds and never seeks a partition whose end offset is 0. |
| Broker.SeekGuardIgnoresBegin | singupy/kafka.py:235 | The guard is end > 0 and not end > begin: a partition with begin = end = 5 is still sought, to offset 4. |
| Broker.SeekFollowsListIndex | singupy/kafka.py:237 | When partition numbers do not follow list positions, each seek goes to the partition at the list index of another's number, so a partition with end offset 0 can be sought in place of one with data. A number past the list's end fails. |
| Latest.Initial | singupy/messagebus.py:204-210 | The starting dictionaries track exactly the consumed topics, each at timestamp 0 with value `None`. |
| Latest.StepReplacesOnlyNewer | singupy/messagebus.py:283-286 | A record replaces its topic's entry exactly when its timestamp is strictly greater. Ties and older records change nothing, other topics are unchanged, and no timestamp decreases. |
| Latest.ReduceKeepsFirstMaximum | singupy/kafka.py:277-280 | After any records, a topic holds either its starting entry (no record is newer) or the first record attaining the topic's maximum timestamp. The stored timestamp bounds every record of the topic. |
| Latest.LatestFromInitial | singupy/messagebus.py:266-286 | From the initial dictionaries, a topic's value stays `None` exactly when none of its records has a timestamp above 0. Otherwise it is the value of its first record with the maximum timestamp. |
| Latest.ReduceAppend | singupy/messagebus.py:273-286 | Reducing two runs of records one after the other is the same as reducing their concatenation. |
| Latest.ReduceBatchesFlatten | singupy/kafka.py:266-280 | Reducing poll by poll is the same as reducing all the records in the order they are handled, so poll boundaries do not matter. |
| Latest.LatestValues | singupy/messagebus.py:262-291 | The value dictionary after the polls has exactly the consumed topics as keys. Each value is `None` exactly when no record of the topic is newer than 0. Otherwise it is the value of the first record with the maximum timestamp. |
| Latest.TieKeepsEarliest | singupy/messagebus.py:284 | With timestamps 5, 3, 7, 7, the first record with timestamp 7 wins over the later tie. |
| MessageBus.NewHandler | singupy/messagebus.py:48-62 | Construction succeeds exactly when every consumed and produced topic exists, and otherwise names exactly the missing ones. A handler built this way has the derived lists with all their set identities. |
| MessageBus.ListEmptyTopics | singupy/messagebus.py:213-226 | On a list without repeats, the copy is the list minus every topic with a partition holding data, in the original order. A topic with two partitions holding data makes the second `remove` fail. |
| MessageBus.ScanCopyGeneral | singupy/messagebus.py:218-224 | The loop over the argument, removing from the copy, keeps the already scanned prefix. What follows is the empty topics of the rest, or a failure when some topic of the rest has two partitions with data. |
| MessageBus.ScanHead | singupy/messagebus.py:220-224 | One step of the copying loop: a topic without data stays, a topic with data in one partition goes, and one with data in two or more partitions fails. |
| MessageBus.BusyTopicFails | singupy/messagebus.py:224 | A topic with two non-empty partitions fails on the second `remove`. |
| MessageBus.SeekTopicPartitionsLatest | singupy/messagebus.py:241-259 | The handler's seeks fail exactly on an out-of-range partition number. On canonical partition lists they are exactly one seek per partition with end > 0, to end − 1. |
| MessageBus.LatestTopicMessages | singupy/messagebus.py:257-291 | It fails exactly when the seek to the latest offsets fails, an out-of-range partition number. Otherwise the returned dictionary has exactly the consumed topics as keys. Each value is `None` exactly when no record polled for the topic is newer than 0, and otherwise the value of the first polled record with the topic's maximum timestamp. |
| MessageBus.NotReachedIn | singupy/messagebus.py:489-491 | For one topic, the comprehension fails exactly when a partition has no position. Otherwise it is empty exactly when every partition's position is at or past its end offset. |
| MessageBus.NotReached | singupy/messagebus.py:489-491 | Over all listed topics, the comprehension fails exactly when some partition is unassigned, and is otherwise empty exactly when all are drained. |
| MessageBus.PositionsReachedLastOffsets | singupy/messagebus.py:482-500 | True exactly when every partition of every listed topic has position ≥ end offset. It fails on an unassigned partition, which is the exit path, and holds for an empty topic list. |
| MessageBus.Rows | singupy/messagebus.py:439-445 | One row per record, in arrival order, carrying the record's fields. |
| MessageBus.WithKey | singupy/messagebus.py:465 | The key filter keeps exactly the rows with that key, in order, each as many times as it occurs. |
| MessageBus.MaxOffset | singupy/messagebus.py:468 | The maximum offset is absent (NaN) exactly for no rows. Otherwise it is the offset of some row and at least every row's offset. |
| MessageBus.AtOffset | singupy/messagebus.py:468 | The offset filter keeps exactly the rows at that offset, in order, each as many times as it occurs. Comparing with NaN keeps none. |
| MessageBus.FilterByKey | singupy/messagebus.py:462-470 | An empty frame comes back unchanged. Otherwise the result keeps exactly the rows with the key, in order. With latest-by-key it keeps exactly those at the key's maximum offset, however many share it. Every kept row is kept as many times as it occurs. The result is empty exactly when no row has the key. |
| MessageBus.AtOffsetWithKey | singupy/messagebus.py:465-468 | Filtering by key and then by offset keeps the same rows as filtering by both at once. |
| MessageBus.ExtractValue | singupy/messagebus.py:472-479 | `None` exactly when no row has the key. Otherwise it is the value of the first row holding the key at its maximum offset. There is never an error. |
| MessageBus.DataFrame | singupy/messagebus.py:424-459 | Without a key filter, the frame has one row per polled record, row i projecting record i. With a filter, a row is in the frame exactly when it is a polled row with that key; with `latestByKey`, exactly when it is also at the largest offset among the rows with that key. A kept row appears as many times as it was polled. The frame is always a subsequence of the rows in arrival order. |
| MessageBus.LatestByKeyExample | singupy/messagebus.py:462-479 | With offsets 1 (k1), 2 (k2) and 3 (k1), the latest row with key k1 is the third alone. |
| MessageBus.AbsentKeyExtractsNone | singupy/messagebus.py:472-479 | On the same rows, the key k3, which no row has, extracts `None`. |
| MessageBus.LatestAtMax | singupy/messagebus.py:465-468 | A row with the key is among the latest exactly when its offset is the maximum offset of the rows with that key. |
| MessageBus.FirstLatest | singupy/messagebus.py:472-479 | When latest-by-key keeps some row, its first row is the first row of the frame that is latest for the key. |
| KafkaHelper.NewHelper | singupy/kafka.py:41-58 | Construction succeeds exactly when every topic exists, and otherwise names exactly the missing ones. The derived lists satisfy the union, difference and intersection identities and are pairwise disjoint. |
| KafkaHelper.SkipRef | singupy/kafka.py:201-205 | The structural description of the in-place loop. When it succeeds, the result is a subsequence of the list that keeps every topic without data. It fails only on a listed topic with two or more partitions holding data. |
| KafkaHelper.SweepGeneral | singupy/kafka.py:201-205 | The loop that removes from the list it iterates, resumed at any position of a list without repeats, keeps the prefix and does to the rest what the structural description says. |
| KafkaHelper.ListEmptyTopics | singupy/kafka.py:194-207 | On a list without repeats, the in-place result is the structural description: a topic with data in one partition goes, the topic right after it is never examined and stays, and a topic with two goes twice and fails. |
| KafkaHelper.SpacedGivesEmptyTopics | singupy/kafka.py:201-205 | When no two topics with data stand next to each other and none has two partitions with data, the in-place result is exactly the list of empty topics. |
| KafkaHelper.AdjacentTopicSkipped | singupy/kafka.py:201-205 | For ["a", "b"], each with one non-empty partition, the result is ["b"]: the second topic is skipped over. |
| KafkaHelper.BusyTopicFails | singupy/kafka.py:205 | A topic with two non-empty partitions is removed twice, and the second removal fails. |
| KafkaHelper.ListEmptyOf | singupy/kafka.py:199-222 | On success the returned list is the helper's own attribute, so afterwards the helper holds the shrunk list there and nothing else changes. The result is a subsequence that keeps every empty topic. It succeeds when no topic has two partitions holding data, and a failure names such a topic. It asks only that the chosen list be known to the broker and free of repeats, so it also runs on a helper an earlier call left with a shrunk list. |
| KafkaHelper.ListEmptyOfRepeats | singupy/kafka.py:199-222 | After a successful call the helper still meets what the next call and the polling loop ask: the shrunk list is known and free of repeats, and the full topic list is unchanged. |
| KafkaHelper.ReadyListEmptyOf | singupy/kafka.py:209-222 | A freshly built helper can empty-check each of its three derived lists, and can seek and poll. |
| KafkaHelper.ShrunkListRepeats | singupy/kafka.py:199-212 | With consumed-only topics a and b, each with one partition holding data, the first call leaves ["b"] in the helper and the second call, on that list, leaves []. |
| KafkaHelper.StartOffsetsValue | singupy/kafka.py:176-180 | Both branches give the same starting last-read offset: begin − 1 for every partition. |
| KafkaHelper.InitialLastRead | singupy/kafka.py:168-182 | The starting last-read map covers every partition of every listed topic, and has keys only for listed topics. |
| KafkaHelper.StartOffsetsKeys | singupy/kafka.py:174-180 | Every key of a topic's starting map is one of the topic's listed partitions. |
| KafkaHelper.InitialLastReadKeys | singupy/kafka.py:168-182 | Every key of the starting last-read map is a listed partition of a listed topic, so together with `InitialLastRead` the map holds exactly the listed partitions. |
| KafkaHelper.InitialLastReadValue | singupy/kafka.py:174-180 | Every listed partition starts at begin − 1. |
| KafkaHelper.NotReachedIn | singupy/kafka.py:288-290 | For one topic, the list of unfinished partitions is empty exactly when every partition's last read is ≥ end − 1. Everything in it is an unfinished partition of the topic. |
| KafkaHelper.NotReached | singupy/kafka.py:286-290 | Over all consumed topics, the list is empty exactly when every partition has been read to end − 1. |
| KafkaHelper.Finished | singupy/kafka.py:293-294 | Polling stops exactly when every partition of every consumed topic has last read ≥ end − 1. It always stops with no consumed topic. |
| KafkaHelper.EmptyPartitionDoneAtStart | singupy/kafka.py:177-180 | Before any read, a partition counts as finished exactly when it holds no message (begin ≥ end). |
| KafkaHelper.FinishedAtStart | singupy/kafka.py:289 | Before any read, the exit test holds exactly when no partition of a consumed topic has data. |
| KafkaHelper.ReadOffsets | singupy/kafka.py:282 | Reading only adds the partitions records came from to the last-read map. |
| KafkaHelper.ReadOffsetsLastRecord | singupy/kafka.py:277-282 | After reading, a partition holds the offset of its last record read, whatever that record's timestamp. |
| KafkaHelper.ReadOffsetsUntouched | singupy/kafka.py:282 | A partition that no record came from keeps its last-read offset. |
| KafkaHelper.ExitTests | singupy/kafka.py:284-294 | After each poll, the exit test holds exactly when every consumed partition has been read to end − 1. |
| KafkaHelper.StopPoll | singupy/kafka.py:266-294 | The loop exits after the first poll following which every consumed partition has been read to end − 1. No earlier poll satisfies the test. It reads only the full topic list, so it accepts a helper whose other lists an earlier call shrank. |
| KafkaHelper.GetLatestTopicMessages | singupy/kafka.py:240-296 | It fails exactly when the seek to the latest offsets fails. Otherwise there is a result exactly when some given poll satisfies the exit test. Its keys are then the consumed topics. Each value is `None` exactly when no record read up to the exit has a timestamp above 0, and otherwise the value of the first record read with the maximum timestamp. |
| Conversion.FirstRangeIsBand | singupy/conversion.py:21-34 | The ranges tile [1, 420) without gaps or overlaps. The loop finds a range exactly for those levels, and its letter is the independently written region's letter. |
| Conversion.Classify | singupy/conversion.py:21-41 | Every integer gets its region's letter, which is always one of B–H and J–N. The final ValueError is unreachable for integers. |
| Conversion.KvToLetter | singupy/conversion.py:16-41 | An integer gets its region's letter. A text fails with the ValueError exactly when `int()` rejects it, and otherwise gets the letter of the number read. |
| Conversion.Monotone | singupy/conversion.py:21-39 | A higher level never gets a later letter. |
| Conversion.Boundaries | singupy/conversion.py:33-39 | Lower bounds are inclusive and upper bounds exclusive: 380 → C, 379 → D, 420 → B, 419 → C, 1 → M, 0 → N and −5 → N. |
| Conversion.TestTable | tests/conversion_test.py:10-21 | 400 → C, 220 → D, 150 → E, 132 → E, 60 → F, 50 → G, 33 → H, 20 → J and 10 → K. |
| Conversion.TextArguments | tests/conversion_test.py:24-28 | "380" → C, and "fejl" fails with the ValueError. |
| Conversion.TextOfLevel | singupy/conversion.py:16-17 | Passing `str(kv)` gives the same letter as passing `kv`. |
| Decimal.ParseShowRoundTrip | singupy/conversion.py:17 | `int(str(n)) == n` for every integer. |
| Verification.Sort | singupy/verification.py:35 | `sorted` gives a sorted permutation. |
| Verification.SortEqualIffPermutation | singupy/verification.py:35 | Two lists sort to the same list exactly when they hold the same columns with the same multiplicities. |
| Verification.DataframeColumns | singupy/verification.py:24-39 | With extra columns allowed, it passes exactly when every expected column is present, and otherwise reports the non-empty set of expected columns missing from the frame. In strict mode it passes exactly when both lists are equal as multisets, and otherwise reports both lists. |
| Verification.StrictImpliesExtra | singupy/verification.py:27-39 | Whatever passes strict mode passes with extra columns allowed. |
| Verification.OrderIndependent | singupy/verification.py:28-35 | In both modes the verdict does not depend on column order. |
| Verification.TestCases | tests/verification_test.py:13-28 | On a frame with col1 and col2: the same list passes strict mode, and ["col1"] passes with extras allowed but fails strict mode. ["col1", "col3"] fails both modes, reporting col3 missing. |
| Ksql.ParseAddress | singupy/ksql.py:51 | The host and port groups, when found, are a host without ':' and a port of three to seven ASCII digits. The rest of the text is exactly host, then ':' and the port, with a final newline allowed only after a port. |
| Ksql.ParseBroker | singupy/ksql.py:51 | A match yields valid groups, and the broker string is exactly their rendering, possibly followed by one newline after a port. |
| Ksql.SchemeOfRender | singupy/ksql.py:51 | The scheme group of a rendered broker, with or without a final newline, is the scheme it was rendered with. |
| Ksql.ParseAddressRender | singupy/ksql.py:51 | The host and port groups are read back from their own text. |
| Ksql.ParseRender | singupy/ksql.py:51 | Every valid set of groups is read back from its text, so the broker pattern is unambiguous. |
| Ksql.ParseRenderNewline | singupy/ksql.py:51 | With an explicit port, one trailing newline is also accepted and left out of the port group. |
| Ksql.Normalize | singupy/ksql.py:50-60 | Fails with the ValueError exactly when the pattern does not match. Otherwise the broker holds exactly one ':'. |
| Ksql.NormalizeRender | singupy/ksql.py:57-60 | The scheme is dropped and the host kept, followed by ':' and the explicit port, or else by `str(port)`. |
| Ksql.PortTextDigits | singupy/ksql.py:60 | `str(port)` of a port from 100 to 9999999 has three to seven digits. |
| Ksql.NormalizeReadsBack | singupy/ksql.py:51-60 | A normalised broker matches the pattern again, as the same host with no scheme and the port that was filled in. |
| Ksql.NormalizeIdempotent | singupy/ksql.py:51-60 | Normalising an already normalised broker with the same port changes nothing. |
| Ksql.NormalizeDefaultPort | singupy/ksql.py:50-60 | "http://localhost" becomes "localhost:8088". |
| Ksql.NormalizeExplicitPort | singupy/ksql.py:57-58 | "https://ksql:8089" becomes "ksql:8089". |
| Ksql.NormalizeShortPort | singupy/ksql.py:51-53 | "ksql:80" is rejected, because a two-digit port does not fit the pattern. |
| Ksql.DictDiveAsWritten | singupy/ksql.py:73-76 | As written, `dict_dive` fails on every call: a non-dict argument trips the first assertion and a list of keys trips the second. |
| Ksql.DictDive | singupy/ksql.py:73-86 | Fails exactly when the argument is not a dict or the key list is empty. |
| Ksql.DictDiveIsLookup | singupy/ksql.py:78-86 | Gives the value at the end of the key path when every step exists and that value is not `None`. A missing key, a non-dict met with keys left or a final `None` gives the default. |
| Ksql.DictDiveComposes | singupy/ksql.py:80-81 | Diving along a + b is diving along b from the dict that a leads to. |
| Ksql.GetTopicsAsWritten | singupy/ksql.py:129-130 | As written, `get_topics` fails on every reply. With the key list accepted, it returns the reply's topics, and `[]` when the reply has none. |
| Ksql.ReadStatus | singupy/ksql.py:140 | The status read under `commandStatus` and the given key is what the key path leads to in the reply, or the fallback when it leads nowhere; the read never fails on a dict reply. |
| Ksql.StatusKey | singupy/ksql.py:140-141 | With the trailing-space key, every reply reads as the fallback, so a create is never seen to succeed. With `status`, the reported status comes back. |
| KsqlConfig.AddChild | singupy/ksql.py:35-43 | Neither argument raises the first ValueError and both raise the second. A failing constructor fails. Otherwise exactly the given or constructed child is appended at the end, and nothing else changes. |
| KsqlConfig.AddChildInOrder | singupy/ksql.py:36-37 | Children added one after the other keep the order they were added in. |
| KsqlConfig.Decide | singupy/ksql.py:179-188 | A missing statement means create. A statement equal to the requested or the built one means keep. Any other means delete, then create. |
| KsqlConfig.CreatePlan | singupy/ksql.py:138-154 | The create walk starts with the node's own CREATE and sends only CREATEs, each for a node of the tree. |
| KsqlConfig.DeletePlan | singupy/ksql.py:157-169 | The delete walk ends with the node's own DROP and sends only DROPs, each for a node of the tree. |
| KsqlConfig.Own | singupy/ksql.py:179-188 | A node's own decision sends nothing exactly when it keeps the node. It sends a DROP only when it recreates, and only requests for the node's tree. No CREATE is followed by a DROP: a recreate deletes before it creates. |
| KsqlConfig.AssertPlan | singupy/ksql.py:172-188 | An assert walk sends requests only for nodes of the tree it asserts. |
| KsqlConfig.CreateAtPrePos | singupy/ksql.py:138-154 | The create walk sends a CREATE for every node of the tree. |
| KsqlConfig.DropAtPostPos | singupy/ksql.py:157-169 | The delete walk sends a DROP for every node of the tree. |
| KsqlConfig.PrePosAncestor | singupy/ksql.py:153-154 | Creating is top-down: each node is created before every node below it. |
| KsqlConfig.PostPosAncestor | singupy/ksql.py:158-161 | Deleting is bottom-up: each node is dropped after every node below it. |
| KsqlConfig.PrePosSiblings | singupy/ksql.py:153-154 | Creating visits children in list order: every node in the subtree of child i is created before child j, for i < j. |
| KsqlConfig.PostPosSiblings | singupy/ksql.py:158-159 | Deleting visits children in list order: every node in the subtree of child i is dropped before child j, for i < j. |
| KsqlConfig.WalkHasBlock | singupy/ksql.py:172-177 | A post-order walk holds the block of every node of the tree, whole and contiguous, at the node's position. |
| KsqlConfig.WalkPosAncestor | singupy/ksql.py:173-177 | In a post-order walk, the blocks of all nodes below a node end before that node's block starts. |
| KsqlConfig.WalkPosSiblings | singupy/ksql.py:173-174 | A post-order walk visits children in list order: every block in the subtree of child i ends before the block of child j starts, for i < j. |
| KsqlConfig.DeletePlanIsWalk | singupy/ksql.py:157-169 | The delete walk is the post-order walk whose block for each node is that node's DROP alone. |
| KsqlConfig.PostPosIsWalkPos | singupy/ksql.py:157-161 | The position of a node's DROP in the delete walk is the position of its block in that post-order walk. |
| KsqlConfig.OneChildPlans | singupy/ksql.py:153-174 | For a node with a single child, the create walk is the node's CREATE before the child's walk, the delete walk is the child's walk before the node's DROP, and the assert walk is the child's assert walk before the node's own decision. |
| KsqlConfig.AssertPlanIsWalk | singupy/ksql.py:172-188 | The assert walk is the post-order walk whose block for each node is that node's own decision. |
| KsqlConfig.OwnAtOwnPos | singupy/ksql.py:172-188 | The assert walk sends the own decision of every node of the tree as one contiguous block, at the node's position. |
| KsqlConfig.OwnPosAncestor | singupy/ksql.py:173-188 | Asserting is bottom-up: the whole own decision of every node below a node is sent before that node's own decision starts. |
| KsqlConfig.OwnPosSiblings | singupy/ksql.py:173-188 | Asserting visits children in list order: the whole own decision of every node in the subtree of child i is sent before the own decision of child j starts, for i < j. |
| KsqlConfig.RunCreatePlan | singupy/ksql.py:138-154 | Running the create walk adds the names of the whole subtree to the server. |
| KsqlConfig.RunDeletePlan | singupy/ksql.py:157-169 | Running the delete walk removes the names of the whole subtree. |
| KsqlConfig.RunAssertPlan | singupy/ksql.py:172-188 | Asserting a tree, starting from any name set that includes what the server reported, adds exactly the tree's names. |
| KsqlConfig.AssertEstablishesTree | singupy/ksql.py:172-188 | After asserting, the server knows every name of the tree and no other name has changed. This relies on the modelled server accepting a CREATE for a name it already knows, which happens on an empty server (`KsqlConfig.MissingTreeCreatesChildTwice`). |
| KsqlConfig.AssertIdleWhenConfigured | singupy/ksql.py:182-184 | A tree the server already holds as requested or built gets no CREATE or DROP request. The DESCRIBE of each node is still sent. |
| KsqlConfig.MissingTreeCreatesChildTwice | singupy/ksql.py:173-181 | On an empty server, a parent with one child gets CREATE k, CREATE p, CREATE k: children are asserted first, then the parent's create walks into them again. |
| KsqlConfig.ChangedParentRecreatesSubtree | singupy/ksql.py:173-188 | When the parent's statement changed and the child's did not, the child is kept. Then DROP k, DROP p, CREATE p, CREATE k are sent. |
| KsqlConfig.DropStatementAsWritten | singupy/ksql.py:161 | As written, the statement is "DROP ", the type, a space, the type again and ";": the name never appears. |
| KsqlConfig.DropStatement | singupy/ksql.py:161 | The DROP statement is "DROP ", the type, a space, the name and ";". |
| KsqlConfig.DropStatementNamesNode | singupy/ksql.py:161 | Between nodes of one type, the statements are equal exactly when the names are. |
| KsqlConfig.DropStatementIgnoresName | singupy/ksql.py:161 | As written, two differently named nodes of one type get the same DROP statement, which the corrected statement tells apart. |
| KsqlConfig.PostQueryCall | singupy/ksql.py:115 | A call binds exactly when it passes two or three positional arguments, the first as the host and the second as the query. With fewer it fails naming the missing parameters, the last always being `query`. |
| KsqlConfig.RequestWithoutHost | singupy/ksql.py:139 | As written, the statement binds to `host` and the call fails for the missing `query`, so no request reaches the server. With the host passed first, the statement reaches the server. |

## Left out

- Broker I/O: consumer and producer construction, the `KAFKA_HOST` environment lookup, subscribe, the dummy poll of `init_topic_partitions` and `produce_message`. The broker's answers are given as a catalog of partitions with begin and end offsets, a map of consumer positions, and a finite sequence of poll batches. The begin and end offsets are one snapshot, whereas the source queries them at separate moments.
- The unbounded polling loops: the source polls until the broker satisfies the exit test, with no deadline. The model takes a finite sequence of polls. `KafkaHelper.GetLatestTopicMessages` gives `None` when none of them satisfies the test.
- MessageBus.LatestTopicMessages: values are non-null strings. The consumers decode every value as JSON (messagebus.py:85), so a payload `null` stores `None` under a timestamp above 0, and "`None` exactly when no record is newer than 0" holds only for non-null payloads.
- MessageBus.ExtractValue: values are non-null strings, so a row whose value decoded to JSON `null` is not modelled, and "`None` exactly when no row has the key" holds only for non-null values.
- Latest.LatestValues: values are non-null strings, so a record whose payload decodes to JSON `null` is not modelled, and "`None` exactly when no record is newer than 0" holds only for non-null payloads.
- KafkaHelper.GetLatestTopicMessages: values are non-null strings. The consumer decodes every value as JSON (kafka.py:70), so "`None` exactly when no record read has a timestamp above 0" holds only for non-null payloads.
- MessageBus.LatestTopicMessages: takes the polls that ran before the position test succeeded as given, and does not tie them to `PositionsReachedLastOffsets`, because consumer positions are broker state.
- The order within a poll: a poll returns a dict from partition to records. The model takes the records in the order the loops handle them, one batch per poll, with an empty batch for an empty poll.
- `sys.exit` and the exceptions it follows become `Failure` values; logging and timing are dropped.
- JSON decoding of record keys and values (messagebus.py:443) and the float rounding of `get_latest_msg_val_from_topic`: keys and values are opaque strings.
- The loop-based and single-topic readers of both classes (`get_latest_topic_messages_to_dict_loop_based`, `get_latest_msg_from_topic`, `get_latest_msg_val_from_topic`, `get_latest_msg_from_consumed_topics_to_dict`) are not part of this model.
- pandas: a data frame is a sequence of rows with the fields topic, partition, offset, timestamp, key and value. The column list `dataframe_columns` reads is a sequence of strings.
- Hash order: `list(set(...))` has no specified order. The derived lists are modelled in first-occurrence order, and every property about them is stated as sets.
- MessageBus.ListEmptyTopics: the outcome is stated only for lists without repeats, which all the lists passed to it are, being built from sets.
- KafkaHelper.ListEmptyTopics: the outcome is stated only for lists without repeats, for the same reason.
- KafkaHelper.ListEmptyOf: a failure returns only the error. In the source the first `remove` of the offending topic has already shrunk the helper's own list (kafka.py:199, 205), and the helper keeps that shrunk list after the exception; the model does not return it.
- Broker.NoSeekWithoutEnd: stated for partition lists numbered 0, 1, 2, … in list order. The lists come from `partitions_for_topic`, a set of small integers, which CPython iterates in ascending order, so the lists are numbered that way in practice; on a list that is not, the indexed lookup can seek an empty partition (`Broker.SeekFollowsListIndex`).
- KafkaHelper.StartOffsetsValue: assumes no two partitions of a topic share a number, as Kafka's partition listing guarantees. `UniquePartitions` states this.
- Ksql.NormalizeReadsBack: stated for ports from 100 to 9999999, the ports whose `str()` the pattern accepts back. A port outside that range normalises to a broker the pattern rejects.
- Ksql.NormalizeIdempotent: stated for ports from 100 to 9999999, for the same reason.
- Ksql.ParseAddress: the port group's `\d` is modelled as the ASCII digits 0 to 9. On a `str` pattern Python's `\d` also matches other Unicode decimal digits, so a broker such as "h:٣٣٣" matches in the source and not in the model.
- Ksql.ParseBroker: ASCII port digits only, for the same reason.
- Ksql.Normalize: ASCII port digits only, for the same reason; the source accepts "h:٣٣٣" and the model rejects it.
- `int()` is modelled on ASCII decimal digits with surrounding ASCII whitespace and an optional sign. It does not model underscores, other Unicode digits or float arguments to `kv_to_letter`.
- `str` ordering in `sorted` is code point by code point, which is Python's order on `str`.
- `config.__init__` calls `re.search` without a subject (ksql.py:25), so it always raises. Its parse is not modelled, and `add_child` takes the constructor's outcome as a parameter.
- The class-level `children` list (ksql.py:19) is one list shared by every `config`, so every `add_child` appends to all nodes at once. The model gives each node its own children, which is evidently intended, and the traversal order is stated for that.
- HTTP requests: `test_connection`, the request `post_query` sends, and the replies inside `get_topics` and the create, drop and assert walks are not modelled; only the binding of `post_query`'s arguments is. Its `raise` of a string at ksql.py:124 is not modelled either.
- KsqlConfig.PostQueryCall: `properties` is not carried; a third positional argument binds to it and is dropped.
- KsqlConfig.RunDeletePlan: runs the corrected delete walk. It assumes that each DROP names its node (the statement at ksql.py:161 names the type twice) and that `post_query` is passed the host (ksql.py:161). As written, every DROP fails before it reaches the server.
- KsqlConfig.RunAssertPlan: runs the corrected walks. It assumes that `post_query` is passed the host (ksql.py:139, 161), that DROP names the node (ksql.py:161), that `dict_dive` accepts the key list (ksql.py:76) and that the status key has no trailing space (ksql.py:140, 162). As written, the first CREATE or DROP fails.
- KsqlConfig.AssertEstablishesTree: holds for the corrected walks, for the reasons given for `KsqlConfig.RunAssertPlan`. It also relies on the modelled server accepting a CREATE for a name it already has, which a real server refuses.
- The plans model the requests and their order, and the server as the set of names it knows: a CREATE adds a name, a DROP removes one. A status other than SUCCESS raising midway is not modelled, nor is the server's own refusal of a CREATE for a name it already has.
- The DESCRIBE answers an assert walk reads are one snapshot, taken before the walk. The model does not re-read the server after its own requests.
- `manager.validate` and the configuration-list type check of `manager.__init__` (ksql.py:54-55) are not modelled.
- The messages of the ValueErrors, including the second line of the create and drop messages missing its `f` prefix (ksql.py:143-144, 165-166), are not modelled.
- `create_built` and `create_actual` updates after a request (ksql.py:146, 168-169, 177) are not modelled; `Decide` takes the statement the server reports as an argument.
- singupy/api.py, the greeting modules and setup.py are not part of this model.

## Findings

| source | as written | input that shows it | evidently intended | confidence | as-written member | corrected member |
|---|---|---|---|---|---|---|
| singupy/ksql.py:76 | `dict_dive` asserts that the key list is a dict, so every call with a list of keys fails | `dict_dive({"topics": []}, ["topics"], [])`, which is what `get_topics` sends | assert that the key list is a list, then follow the keys | not executed | Ksql.DictDiveAsWritten, Ksql.GetTopicsAsWritten | Ksql.DictDive, Ksql.DictDiveIsLookup |
| singupy/ksql.py:140 | the status is read with the key `'status '`, ending in a space (also at 162) | the reply `{"commandStatus": {"status": "SUCCESS"}}` reads as `'ERROR'`, even with `dict_dive` accepting the key list | the key `'status'` | not executed | Ksql.StatusKey | Ksql.ReadStatus, Ksql.StatusKey |
| singupy/ksql.py:161 | the DROP statement repeats the type where the name belongs: `DROP <type> <type>;` | two STREAM nodes named a and b both get `DROP STREAM STREAM;` | `DROP <type> <name>;` | not executed | KsqlConfig.DropStatementAsWritten, KsqlConfig.DropStatementIgnoresName | KsqlConfig.DropStatement, KsqlConfig.DropStatementNamesNode |
| singupy/ksql.py:139 | `post_query` is called with the statement alone, leaving out the host (also at 161) | every create or drop: `post_query("CREATE STREAM …;")` binds the statement to `host` and raises TypeError for the missing `query` | `post_query(host, statement)` | not executed | KsqlConfig.RequestWithoutHost | KsqlConfig.PostQueryCall, KsqlConfig.RequestWithoutHost |
