# LinearBlockAllocator, modelled in Dafny

This is a model of the core of `LinearBlockAllocator`, a Hibernate identifier generator. An instance hands out identifiers from an in-memory window `[allocNext, allocHi)`. When the window is used up, it claims the next block of `blockSize` identifiers from a shared allocator table (`KEY_ALLOC`, one row `SEQ -> NEXT_VAL` per sequence name). The claim is optimistic: read `NEXT_VAL`, then `UPDATE ... SET NEXT_VAL = v + blockSize WHERE SEQ = name AND NEXT_VAL = v`, repeated while the update changes no row. When the sequence has no row yet, the allocator inserts `(name, blockSize)` first. That bootstrap falls through to the same guarded update.

Files:

- `wrappers.dfy`: `Option` and `Result`.
- `store.dfy` (module `Store`): the shared table as a class `AllocTable`.
  - Its mutable field `rows: map<string, int>` stands for the table.
  - Its three methods are the three SQL statements the allocator issues. Each is atomic, as one statement is.
  - A ghost map `claims` records which instance each identifier was handed to by a successful update.
  - The table invariant is that every claimed identifier lies below its sequence's row.
- `allocator.dfy` (module `Allocator`):
  - configuration (`configure`'s sequence-name and block-size rules);
  - the fetch loop, as the methods `ReadOrBootstrap`, `Pass` and `FetchAndAdvance`;
  - the class `LinearBlockAllocator`, with the window, the statistics counter, `AllocateBlock`, `Generate` and the getter.
- `scenarios.dfy` (module `Scenarios`): whole runs that use the class and the table:
  - one instance alone, including the 20-identifiers-at-block-size-10 run;
  - an instance refilling from a row that holds 300;
  - two instances of one sequence under any interleaving of calls, rivals and failures.

What happens around each pass of the fetch loop is an input, `turns: seq<Turn>`, with one entry per pass:

- `Calm`: nothing else happens.
- `Rival(b)`: another instance with block size `b` runs the whole claim protocol after our read and before our next write. The rival is the same `FetchAndAdvance`, called recursively with a calm schedule.
- `Fails(stage)`: the read, the insert or the update raises an SQL error.

Once the list is used up, every pass is calm. A pass can fail its guarded update only when a rival acted in it, so the loop ends after at most `|turns| + 1` passes.

Each instance keeps a ghost set `issued` of the identifiers it has returned. Its `Valid()` says three things:

- the window and every returned identifier were claimed for this instance in the table's `claims`;
- every returned identifier lies below `allocNext`;
- the window holds fewer than `blockSize` identifiers.

Uniqueness across instances follows because a claim, once made, stands and names a single instance.

When two processes create the same sequence's row at once, the second insert (`LinearBlockAllocator.java` line 336) raises a duplicate-key error. It is caught at lines 339-341 only to be rethrown, so the fetch ends with that error and is not retried. In the model, a `Rival` turn on a sequence with no row makes the fetch fail with `DuplicateKey`. The default block size is 100 (line 142), although the class comment (line 101) says 20. The model uses 100.

## Model

| member | source | states |
|---|---|---|
| Store.AllocTable.Read | src/main/java/com/literatejava/hibernate/allocator/LinearBlockAllocator.java:325-332 | The read answers the row's value exactly when the sequence has a row. |
| Store.AllocTable.Insert | src/main/java/com/literatejava/hibernate/allocator/LinearBlockAllocator.java:382-416 | The insert succeeds exactly when the sequence has no row, and then adds `(name, value)`. Otherwise it fails with DuplicateKey and changes nothing. No other row changes and no identifier is claimed. |
| Store.AllocTable.CasUpdate | src/main/java/com/literatejava/hibernate/allocator/LinearBlockAllocator.java:346-359 | It changes at most one row, and exactly when the row still holds the value read. It then sets the row to the new value and claims `[expected, newValue)` for the caller, none of which was claimed before. With 0 rows changed nothing changes. No other row ever changes, and earlier claims stand. |
| Allocator.ClampBlockSize | src/main/java/com/literatejava/hibernate/allocator/LinearBlockAllocator.java:197-200 | The result is at least 1. It equals the input when the input is at least 1, and is 1 otherwise. |
| Allocator.ResolveSequenceName | src/main/java/com/literatejava/hibernate/allocator/LinearBlockAllocator.java:192-195 | The name is the `sequenceName` parameter, else the entity's table name. It is absent exactly when both are missing. |
| Allocator.ResolveBlockSize | src/main/java/com/literatejava/hibernate/allocator/LinearBlockAllocator.java:197-200 | The block size is at least 1. It is 100 when none is configured, the configured value when that is valid, and 1 otherwise. |
| Allocator.ReadOrBootstrap | src/main/java/com/literatejava/hibernate/allocator/LinearBlockAllocator.java:325-344 | The value read is the row's value, or blockSize when there was no row, in which case the row is inserted. A failed read changes nothing. A failed insert on a sequence with no row gives InsertFailed and changes nothing; with a row, no insert is issued and the read succeeds. A rival creating the row first gives DuplicateKey. A rival on an existing row leaves it above the value read. Without a rival the table's claims do not change. |
| Allocator.Pass | src/main/java/com/literatejava/hibernate/allocator/LinearBlockAllocator.java:320-359 | A claim is of `[start, start + blockSize)` for the caller, with the row left at `start + blockSize` and `start` not below the old row. The outcome for each turn: calm (or a failing insert that is never issued) claims from the old row, or from blockSize on a fresh sequence; a rival on an existing row makes it contended; a rival creating the row gives DuplicateKey; a failing read, insert or update aborts with ReadFailed, InsertFailed or UpdateFailed, claiming nothing. Other rows are untouched, the row never decreases, and claims stand. |
| Allocator.FetchAndAdvance | src/main/java/com/literatejava/hibernate/allocator/LinearBlockAllocator.java:318-359 | The retry loop ends, and it returns the claimed block's start as at line 366. On success the caller holds a fresh block `[v, v + blockSize)`, the row is `v + blockSize` and `v` is not below the old row. A calm fetch returns the old row, or blockSize when bootstrapping. It fails exactly when `ScheduledError` names an error, and then with that error: every SQL error a pass reaches ends the loop, contention is retried. A read failing in the first pass changes nothing. |
| Allocator.ContentionNeverFails | src/main/java/com/literatejava/hibernate/allocator/LinearBlockAllocator.java:346-359 | On a sequence that has a row, a schedule without SQL failures never makes the fetch fail: an update that changed no row is retried. |
| Allocator.ErrorHasCause | src/main/java/com/literatejava/hibernate/allocator/LinearBlockAllocator.java:336-355 | A fetch error has a cause in the schedule: DuplicateKey only from a rival in the first pass on a sequence with no row, any other error only from a scheduled SQL failure. |
| Allocator.HoldsAfterTake | src/main/java/com/literatejava/hibernate/allocator/LinearBlockAllocator.java:291 | Taking `allocNext` from a non-empty window yields an identifier above every earlier one and keeps the instance's holdings. |
| Allocator.HoldsAfterRefill | src/main/java/com/literatejava/hibernate/allocator/LinearBlockAllocator.java:284-287 | Moving the window to a block just claimed above every returned identifier keeps the holdings. |
| Allocator.HoldsExtends | src/main/java/com/literatejava/hibernate/allocator/LinearBlockAllocator.java:346-359 | Claims made later, by anyone, leave an instance's holdings intact. |
| Allocator.LinearBlockAllocator.constructor | src/main/java/com/literatejava/hibernate/allocator/LinearBlockAllocator.java:167-172 | A new instance is over the given table and not configured. Its window `[allocNext, allocHi)` is empty at 0 and its access count is 0, so the first `Generate` must claim a block. |
| Allocator.LinearBlockAllocator.Configure | src/main/java/com/literatejava/hibernate/allocator/LinearBlockAllocator.java:192-200 | A missing sequence name is an error. Otherwise the name and the clamped block size are set, and the instance is valid on a valid table. |
| Allocator.LinearBlockAllocator.AllocateBlock | src/main/java/com/literatejava/hibernate/allocator/LinearBlockAllocator.java:308-374 | The fetch's guarantees, with the block claimed for this instance: it fails exactly with the error `ScheduledError` names, and a read failing in the first pass changes nothing. The access count grows by exactly one per successful claim and is unchanged on error. |
| Allocator.LinearBlockAllocator.Refill | src/main/java/com/literatejava/hibernate/allocator/LinearBlockAllocator.java:280-290 | On an exhausted window, a successful claim of `v` sets the window to `[v, v + blockSize)` and the row to its end. It fails exactly with the error `ScheduledError` names, leaving the window and the count unchanged. |
| Allocator.LinearBlockAllocator.Generate | src/main/java/com/literatejava/hibernate/allocator/LinearBlockAllocator.java:278-303 | Fast path: returns the old `allocNext`, advances it by one, and leaves `allocHi`, the table and the count unchanged. Refill: returns `v`, with `allocNext == v + 1` and `allocHi == v + blockSize`. An error happens only on an exhausted window, exactly when `ScheduledError` names one, and changes no field. Every identifier returned is new and above all earlier ones, and the instance stays valid. |
| Allocator.LinearBlockAllocator.GetStatsTableAccessCount | src/main/java/com/literatejava/hibernate/allocator/LinearBlockAllocator.java:471-473 | Answers the number of successful block claims. |
| Allocator.RowAboveIssued | src/main/java/com/literatejava/hibernate/allocator/LinearBlockAllocator.java:284-291 | The sequence's row lies above every identifier the instance returned or holds in its window. |
| Allocator.InstancesIssueDisjointIds | src/main/java/com/literatejava/hibernate/allocator/LinearBlockAllocator.java:346-359 | Two instances of one sequence on one table never return the same identifier. Neither returns one in the other's window. |
| Scenarios.CoveredBy | src/main/java/com/literatejava/hibernate/allocator/LinearBlockAllocator.java:280-291 | The blocks needed for `n > 0` identifiers hold at least `n` and fewer than `n + blockSize` of them. |
| Scenarios.BlocksForBounds | src/main/java/com/literatejava/hibernate/allocator/LinearBlockAllocator.java:280-291 | `c = BlocksFor(n, bs)` blocks hold `c * bs` identifiers, and `(c - 1) * bs < n <= c * bs`: one table access per block started. |
| Scenarios.BlocksForStep | src/main/java/com/literatejava/hibernate/allocator/LinearBlockAllocator.java:280-287 | Identifier number `i + 1` needs a new block exactly when the first `i` used up the blocks claimed. |
| Scenarios.SequentialIds | src/test/java/com/literatejava/hibernate/allocator/LinearBlockAllocator_FunctionalTest.java:73-89 | An instance alone on an empty table returns `bs, bs + 1, ...`: the bootstrap block comes first, never 0. It counts `BlocksFor(n, bs)` accesses and leaves the row one block past the covered ones. |
| Scenarios.BlockAllocationRun | src/test/java/com/literatejava/hibernate/allocator/LinearBlockAllocator_FunctionalTest.java:73-89 | Twenty identifiers at block size 10 are 10..29, with two table accesses and the row at 30. |
| Scenarios.CustomerRefill | src/test/java/com/literatejava/hibernate/allocator/LinearBlockAllocator_MockedJdbcTest.java:201-216 | With "Customer" at 300 and block size 10, the first identifier is 300, the row moves from 300 to 310, and one access is counted. |
| Scenarios.PairCall | src/test/java/com/literatejava/hibernate/allocator/LinearBlockAllocator_FunctionalTest.java:121-161 | A call on either of two instances sharing a sequence returns an identifier neither returned before. Both stay valid. |
| Scenarios.TwoInstances | src/test/java/com/literatejava/hibernate/allocator/LinearBlockAllocator_FunctionalTest.java:121-161 | Under any interleaving of calls, rivals and SQL failures, all identifiers two instances return are pairwise distinct. |

## Left out

- SQL text, dialect lock hints and `getForUpdateString`. The statements are modelled by what they do to the table.
- Schema export (`registerExportables`, `sqlCreateStrings`, `sqlDropStrings`) and qualified table names. They are DDL text and play no part in allocation.
- JDBC plumbing: prepared statements, result sets, closing, statement logging and listener callbacks.
- The isolated transaction around the fetch (lines 371-372): the fetch runs directly against the table. If an update fails after this pass's own bootstrap insert, the model keeps the inserted row, whereas the transaction's rollback would remove it.
- `synchronized` and thread interleaving inside one instance: `Generate` is one sequential step. Other processes appear only as rivals acting between a read and the next write.
- Rivals acting between our insert and our update are not modelled: a rival always acts right after our read.
- A rival always runs with a calm schedule, so it does not meet contention of its own.
- `IntegralDataTypeHolder` result conversion (lines 299-300), return types and logging.
- 64-bit overflow of `long` arithmetic: identifiers and row values are unbounded integers.
- Number-format errors in reading the `blockSize` parameter: the parameter arrives as an integer or is absent.
- Allocator.FetchAndAdvance: the source loop has no bound on its passes. The model lets contention happen only in passes that `turns` schedules, so every fetch ends.
- Allocator.LinearBlockAllocator.Configure: requires a fresh instance (no identifiers issued, window empty). Hibernate configures a generator once, right after constructing it.
- Store.AllocTable.CasUpdate: requires `expected < newValue`. Every writer in the system only ever advances a row by a block size of at least 1.
