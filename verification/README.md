# Nemo runtime and compiler core, modelled in Dafny

This project models three pieces of the Nemo (formerly Vortex) data-processing system:

- **The executor's local-file partition store** (`local_file_store.dfy`, module `LocalFileStore`).
  - A store maps partition ids to partitions. A partition is the sequence of serialized blocks written to its file.
  - `putDataAsPartition` encodes an element stream into a byte buffer. It flushes a block whenever the buffer reaches the block threshold, and writes any non-empty remainder as a last block.
  - `putSortedDataAsPartition` writes one block per hash-sorted sub-stream.
  - Both puts are write-once per partition id.
  - `getPartition` and `retrieveDataFromPartition` look a partition up.
  - `removePartition` deletes it and reports whether it existed.
  - The threshold is the configured block size times 1000.
- **The compile-time `CompressionPass`** (`compression_pass.dfy`, module `CompressionPass`). It sets the `Compression` execution property on every DAG edge whose endpoints carry different `StageId` properties.
- **The job / stage / task-group completion bookkeeping** exercised by the master's `JobStateManagerTest` (`job_state_manager.dfy`, module `JobStateManager`).
  - Reports move the states along their transition tables.
  - A stage completes when all its task groups are COMPLETE.
  - The job completes when its last stage does.

`wrappers.dfy` holds the `Option` and `Result` types shared by all modules.

How the model treats the system's inputs and failures:

- The element coder is a parameter `enc: E -> seq<byte>`. The partition file is represented by the block sequence it would hold.
- A thrown exception becomes a `Failure` result:
  - "Trying to overwrite an existing partition" becomes `OverwriteExisting`.
  - The pass's null dereference on a vertex without a `StageId` becomes `NullStageId`.
  - An illegal state transition becomes an `Illegal…Transition` error.
- `topologicalDo` takes the visiting order as a parameter. The model proves the pass gives the same result for every order that reaches all edge destinations.

The `JobStateManager` class itself is not part of this model. Only its test is. The state machine is therefore modelled as the test exercises it:

- Stages are reported READY → EXECUTING.
- Task groups are reported READY → EXECUTING → COMPLETE.
- Stage COMPLETE and job COMPLETE are derived, never reported by the test. The one exception is the explicit job COMPLETE report in the wait test.

## Model

| member | source | states |
|---|---|---|
| LocalFileStore.NewStore | src/main/java/edu/snu/vortex/runtime/executor/data/LocalFileStore.java:49-58 | a new store holds no partitions, and its threshold is exactly 1000 times the configured block size, computed without the 32-bit wrap-around of line 54 (see "## Left out") |
| LocalFileStore.ScaledBlockSize | src/main/java/edu/snu/vortex/runtime/executor/data/LocalFileStore.java:54 | the intended threshold is a multiple of 1000 whose quotient is the configured size; it is positive exactly when the configured size is |
| LocalFileStore.ScaledBlockSizeAsWritten | src/main/java/edu/snu/vortex/runtime/executor/data/LocalFileStore.java:54 | Java's `int` product equals the true product modulo 2^32 |
| LocalFileStore.BlockSizeOverflow | src/main/java/edu/snu/vortex/runtime/executor/data/LocalFileStore.java:54 | a configured size of 2147484 yields the negative threshold -2147483296, and every element then becomes a block of its own |
| LocalFileStore.ScaledBlockSizeAgrees | src/main/java/edu/snu/vortex/runtime/executor/data/LocalFileStore.java:54 | wherever the product fits in 32 bits, the written and intended thresholds coincide |
| LocalFileStore.WriteBlock | src/main/java/edu/snu/vortex/runtime/executor/data/LocalFileStore.java:68-81 | appends exactly one block (the buffer and its element count) after the existing ones and returns the buffer's length; total size grows by that length |
| LocalFileStore.GetPartition | src/main/java/edu/snu/vortex/runtime/executor/data/LocalFileStore.java:89-98 | empty exactly when the id is absent; otherwise the stored partition |
| LocalFileStore.RetrieveDataFromPartition | src/main/java/edu/snu/vortex/runtime/executor/data/LocalFileStore.java:103-116 | empty exactly when the id is absent; otherwise a range read of the stored partition with the given hash bounds |
| LocalFileStore.SplitBlocks | src/main/java/edu/snu/vortex/runtime/executor/data/LocalFileStore.java:140-159 | the flush-on-threshold loop produces a split satisfying the declarative block-split description `Tiles` |
| LocalFileStore.TilesUnique | src/main/java/edu/snu/vortex/runtime/executor/data/LocalFileStore.java:143-159 | at most one block sequence satisfies the block-split description of a stream, so the description determines the blocks |
| LocalFileStore.NoBlockAfterSilentTail | src/main/java/edu/snu/vortex/runtime/executor/data/LocalFileStore.java:156-159 | when a stream encodes to no bytes at all (nothing is flushed and no remainder is written), its only split is the empty one |
| LocalFileStore.TilesConcat | src/main/java/edu/snu/vortex/runtime/executor/data/LocalFileStore.java:143-159 | the blocks of a split, concatenated, are exactly the encoded stream: no byte lost, duplicated or reordered |
| LocalFileStore.TilesTotalSize | src/main/java/edu/snu/vortex/runtime/executor/data/LocalFileStore.java:142-162 | the block lengths add up to the length of the encoded stream |
| LocalFileStore.TilesTotalCount | src/main/java/edu/snu/vortex/runtime/executor/data/LocalFileStore.java:141-158 | when no element encodes to nothing, the block element counts add up to the number of elements |
| LocalFileStore.TilesEachBlock | src/main/java/edu/snu/vortex/runtime/executor/data/LocalFileStore.java:143-159 | block i holds the encoding of the run of elements that starts at the sum of the earlier counts; for a block of two or more elements, the run without its last element stayed below the threshold; each block reached the threshold, except a non-empty remainder that ends the stream as the last block |
| LocalFileStore.TilesNoEmptyBlock | src/main/java/edu/snu/vortex/runtime/executor/data/LocalFileStore.java:147-158 | with a positive threshold no zero-length block is written |
| LocalFileStore.NonPositiveThresholdIsolatesElements | src/main/java/edu/snu/vortex/runtime/executor/data/LocalFileStore.java:147-153 | with a threshold of zero or less every element is flushed as a block of its own |
| LocalFileStore.PutData | src/main/java/edu/snu/vortex/runtime/executor/data/LocalFileStore.java:126-163 | fails exactly when the id is already stored; otherwise adds one non-hashed partition whose blocks are a split of the stream, leaves the other partitions alone, and returns the encoded length |
| LocalFileStore.PutDataAsPartition | src/main/java/edu/snu/vortex/runtime/executor/data/LocalFileStore.java:126-163 | the single-pass loop with a byte buffer computes exactly the result described by `PutData` |
| LocalFileStore.StreamBlocks | src/main/java/edu/snu/vortex/runtime/executor/data/LocalFileStore.java:140-159 | the buffer loop writes exactly the blocks of the fold `SplitBlocks`, and the size it accumulates is the length of the encoded stream |
| LocalFileStore.PutSortedData | src/main/java/edu/snu/vortex/runtime/executor/data/LocalFileStore.java:176-207 | fails exactly when the id is stored; otherwise adds one hashed partition with one block per sub-stream, empty ones included, each holding that sub-stream's encoding and element count, and returns the list of block lengths |
| LocalFileStore.PutSortedDataAsPartition | src/main/java/edu/snu/vortex/runtime/executor/data/LocalFileStore.java:176-207 | the nested loops compute exactly the result described by `PutSortedData` |
| LocalFileStore.RemovePartition | src/main/java/edu/snu/vortex/runtime/executor/data/LocalFileStore.java:216-224 | reports true exactly when the id was stored; removes that id and nothing else |
| LocalFileStore.SecondPutFails | src/main/java/edu/snu/vortex/runtime/executor/data/LocalFileStore.java:133-136 | after a successful put, both kinds of put to the same id fail with the overwrite error, and the first partition stays |
| LocalFileStore.GetAfterPutData | src/main/java/edu/snu/vortex/runtime/executor/data/LocalFileStore.java:89-163 | reading back a written partition yields blocks whose bytes concatenate to the encoded elements and whose sizes add up to the returned size |
| LocalFileStore.GetAfterPutSortedData | src/main/java/edu/snu/vortex/runtime/executor/data/LocalFileStore.java:176-207 | reading back a sorted partition yields the encoding of all sub-streams in order; the counts add up to the element count and the sizes to the encoded length |
| LocalFileStore.SortedBlocksStream | src/main/java/edu/snu/vortex/runtime/executor/data/LocalFileStore.java:193-203 | the per-hash blocks, concatenated, encode the flattened stream, and their counts add up to its length |
| LocalFileStore.RemoveAfterPut | src/main/java/edu/snu/vortex/runtime/executor/data/LocalFileStore.java:126-163 | removing a partition just written reports true and restores the previous store; lookups then find nothing |
| LocalFileStore.RemoveTwice | src/main/java/edu/snu/vortex/runtime/executor/data/LocalFileStore.java:216-224 | a second removal of the same id reports false and changes nothing |
| CompressionPass.DefaultPass | compiler/optimizer/src/main/java/edu/snu/nemo/compiler/optimizer/pass/compiletime/annotating/CompressionPass.java:34-37 | the pass is registered under the Compression key and applies LZ4 |
| CompressionPass.PassWith | compiler/optimizer/src/main/java/edu/snu/nemo/compiler/optimizer/pass/compiletime/annotating/CompressionPass.java:43-46 | the pass is registered under the Compression key and applies the given algorithm |
| CompressionPass.Apply | compiler/optimizer/src/main/java/edu/snu/nemo/compiler/optimizer/pass/compiletime/annotating/CompressionPass.java:49-56 | vertices and edge endpoints unchanged; each cross-stage edge gains the configured Compression with its other properties kept; each same-stage edge untouched; fails exactly when some edge ends at a vertex without StageId |
| CompressionPass.TopologicalDoMatchesApply | compiler/optimizer/src/main/java/edu/snu/nemo/compiler/optimizer/pass/compiletime/annotating/CompressionPass.java:50-53 | visiting vertices one by one in any order that reaches every edge destination gives the edge-by-edge result of `Apply`, failure included |
| CompressionPass.ApplyIdempotent | compiler/optimizer/src/main/java/edu/snu/nemo/compiler/optimizer/pass/compiletime/annotating/CompressionPass.java:49-56 | running the pass on its own output changes nothing |
| JobStateManager.New | tests/src/test/java/edu/snu/nemo/tests/runtime/master/JobStateManagerTest.java:127-131 | a new manager takes the plan's name as job id; the job is EXECUTING (not terminated); every stage and task group of the plan is READY, and no other task group is known |
| JobStateManager.StageTaskGroupCount | tests/src/test/java/edu/snu/nemo/tests/runtime/master/JobStateManagerTest.java:138-144 | a stage has exactly as many task groups as its parallelism, and the one with index count - 1 exists and has the largest index, so it is the last one the test looks for |
| JobStateManager.OnJobStateChanged | tests/src/test/java/edu/snu/nemo/tests/runtime/master/JobStateManagerTest.java:179 | accepted exactly on EXECUTING → COMPLETE, changing only the job state; otherwise fails naming the transition |
| JobStateManager.OnStageStateChanged | tests/src/test/java/edu/snu/nemo/tests/runtime/master/JobStateManagerTest.java:137 | accepted exactly for a known stage on READY → EXECUTING, changing only that stage; otherwise fails with an unknown-stage error or an error naming the stage, its state and the target |
| JobStateManager.OnTaskGroupStateChanged | tests/src/test/java/edu/snu/nemo/tests/runtime/master/JobStateManagerTest.java:140-144 | accepted exactly when the task group is known, the step is in its table, and any stage or job completion it triggers is itself legal (stage EXECUTING, and job EXECUTING if every stage then is COMPLETE); an unknown id or an illegal step fails with an error naming the task group, its state and the target; an accepted report updates that task group, completes its stage exactly when this COMPLETE report finishes the stage, and then completes the job exactly when every stage is now COMPLETE (otherwise the job state is kept); a report that does not finish its stage changes no stage or job state |
| JobStateManager.RunAppend | tests/src/test/java/edu/snu/nemo/tests/runtime/master/JobStateManagerTest.java:135-155 | running two report sequences one after the other equals running their concatenation |
| JobStateManager.NewIsValid | tests/src/test/java/edu/snu/nemo/tests/runtime/master/JobStateManagerTest.java:127-131 | a fresh manager of a well-formed plan satisfies the completion invariant |
| JobStateManager.RunPreservesValid | tests/src/test/java/edu/snu/nemo/tests/runtime/master/JobStateManagerTest.java:139-153 | in every state reached by accepted reports, a stage is COMPLETE exactly when it has task groups and all are COMPLETE, and the job is COMPLETE once all stages are |
| JobStateManager.TaskGroupStep | tests/src/test/java/edu/snu/nemo/tests/runtime/master/JobStateManagerTest.java:140-144 | reporting a task group EXECUTING then COMPLETE is accepted; it completes the stage exactly at the last index, and the job exactly when that stage is the last |
| JobStateManager.DriveStage | tests/src/test/java/edu/snu/nemo/tests/runtime/master/JobStateManagerTest.java:136-150 | driving one stage is accepted; afterwards its completion check holds and the task-group map shows all its task groups COMPLETE |
| JobStateManager.DrivingEveryStageCompletesJob | tests/src/test/java/edu/snu/nemo/tests/runtime/master/JobStateManagerTest.java:133-155 | driving every stage in topological order is accepted throughout; afterwards every task group, every stage and the job are COMPLETE, though no stage or job completion was reported |
| JobStateManager.WaitUntilFinishTrace | tests/src/test/java/edu/snu/nemo/tests/runtime/master/JobStateManagerTest.java:161-182 | a fresh job, even of an empty plan, is not terminated and waiting returns EXECUTING; after an explicit job COMPLETE report, waiting returns COMPLETE and the job counts as terminated |

## Left out

- File I/O: opening, appending to, finishing and deleting the partition file, and the directory creation in the constructor. A partition is its block sequence, and `removePartition`'s file deletion is not modelled.
- The coder and the partition-id parsing: `parsePartitionId` and the worker's coder lookup are replaced by the parameter `enc`, a total function from elements to bytes.
- `LocalFilePartition.asIterable` and `retrieveInHashRange`: decoding blocks back into elements and selecting blocks by hash range belong to the partition class, which is not part of this model. The read functions return the stored blocks, or the blocks plus the bounds.
- Concurrency: the `ConcurrentHashMap` is a plain map, and `putIfAbsent` is one atomic step.
- Partial writes: in the source, a coder exception in the middle of a put leaves a half-written partition registered. The model treats coding as total.
- `long` overflow of `elementsInBlock`, `partitionSize` and the block sizes: these are unbounded `nat`s here, since overflow needs more than 2^63 bytes.
- LocalFileStore.TilesTotalCount: is proved under the hypothesis that no element encodes to zero bytes. The counts can fail to add up only when zero-byte elements trail the stream, because the source drops elements whose encodings leave the buffer empty at the end; the lemma does not cover the non-trailing case either.
- CompressionPass.Apply: models a missing `StageId` on an edge's destination as a failure of the whole pass. In the source, the edges annotated before the null dereference stay changed in the caller's DAG.
- LocalFileStore.NewStore: uses the corrected threshold `ScaledBlockSize`, the configured size times 1000 without overflow. Line 54 computes the product in 32-bit `int` arithmetic, which wraps for configured sizes outside ±2147483; that behaviour is modelled by `ScaledBlockSizeAsWritten` and recorded under "## Findings".
- `topologicalDo`'s order computation: the order is a parameter, and the equivalence lemma covers every order reaching all destinations.
- The `JobStateManager` class is not part of this model. The modelled transitions are those its test exercises:
  - the full state tables, FAILED and ON_HOLD handling and `maxScheduleAttempt` are left out;
  - blocking and timeouts in `waitUntilFinish` are left out;
  - the metric and block-manager interactions are left out.
- JobStateManager.OnTaskGroupStateChanged: a task-group COMPLETE report that its own table allows is rejected as a whole when the stage or job completion it triggers is not a legal transition. Examples are a stage still READY, or the last stage finishing after an explicit job COMPLETE. The task-group update is then discarded as well. The `JobStateManager` source is not available to decide these cases, and the test never reaches them.
- A stage with zero task groups never completes in this model. Its plans are excluded from `JobStateManager.DrivingEveryStageCompletesJob`.
- The physical-plan generation that the test performs before the traces (`CompiletimeOptimizer`, `PhysicalPlanGenerator`) is left out. The plan is a parameter: stage order and parallelism.
- `DataTransferTest`, `MapReduceDisaggregationOptimization` and `ScheduledTaskGroup` are not modelled.

## Findings

| source | as written | input that shows it | evidently intended | confidence | as-written member | corrected member |
|---|---|---|---|---|---|---|
| src/main/java/edu/snu/vortex/runtime/executor/data/LocalFileStore.java:54 | `blockSize * 1000` is evaluated in 32-bit `int` arithmetic and wraps | configured block size 2147484 gives threshold -2147483296, so every element is flushed as its own block | the configured kilobytes times 1000, without overflow | low; not executed (needs a configuration above about 2 GB per block) | LocalFileStore.BlockSizeOverflow | LocalFileStore.ScaledBlockSize |
