# Durable timers: a verified model of the shard pipeline

A durable timer service keeps its timers in a sharded table ordered by `(execute_at, uuid)`. One instance at a
time owns a shard. Its batch reader pages forward from a committed offset and hands due rows to a queue, its
batch deleter commits the offsets the queue announces and range-deletes up to them, and its timer gate decides
when the reader wakes up. Ownership is a version number that moves by compare-and-set; an instance that lost a
shard does not know it at once and goes on reading and deleting.

This project models that pipeline, the stores below it and the retry arithmetic they rely on, and proves:

- **MinTimerDuration** (`MinTimerDurationIsExact`): over all runs of any number of instances with skewed clocks,
  two-step claims, stale owners, and commits and deletes that take effect late or repeatedly, no range delete
  removes a live row, no reader skips one and no offset has one behind it, *if and only if* the minimum timer
  duration exceeds clock skew plus insert latency. The comment at the configuration asks for clock skew only;
  the proof of the other direction is a run that loses a timer.
- **Fencing**: claims get versions 1, 2, 3, ..., fenced writes stay inside the window of their version, a claim
  returns metadata no older than the claim before it, and losing a shard is neither spurious nor revocable nor
  ever unnoticed.
- **ReaderLoop**, **BatchReader**, **TimerGate**: the reader's whole output is the table, a backlog drains in a
  bounded number of reads, the gate loses no wake-up, and the reader never oversleeps after a read that produced
  a look-ahead: it wakes for every row it saw or was told of, and within the larger look-ahead for rows that
  other instances insert silently. These results speak of reads whose queries count as successes, which takes nil
  errors for successes as said below. After a page of nothing but due rows the gate stays unarmed. A read from an
  idle gate makes the gate wake for every row left exactly when its page holds a future row or nothing is left
  (`WakesForEveryRowExactly`), and without a future row the reader sleeps until it is told of an insert
  (`SleepLasts`). So the run loop never makes the second read of a backlog by itself: the drain bound counts
  reads, and `BacklogWaitsForANotice` shows that a backlog larger than the limit stops after its first page.
- **PostgresStore**, **MongoQuery**, **DynamoStore**: transactions under two unique keys refine map updates by name
  and are all or nothing; expanded range filters select a slice of the sorted table; range reads and deletes over
  the string-ordered index take exactly the items within the bounds; over-reading by one is exact, while a
  limited delete is exact only when the shard record is not among the items it cuts to, and from the start of
  the table it always spends one place on it.
- **TimerKey**, **Chronology**, **KeyText**: string sort keys sort by time in milliseconds and then by uuid bytes;
  every character of a key has its place; timestamps and uuids are parsed exactly as specified, and formatting
  undoes parsing exactly for canonical timestamps.
- **RetryPolicy**, **RetryRuns**, **Retry**: when delays are granted, how they grow and spread, which phase serves an
  attempt, exactly which policies end every retry loop (`PolicyEndsExactly`), and when the loop ends, after how many
  attempts and with which error.

## How the model is built

Values and orders are datatypes and functions. What the program updates in place is a class with those fields:
`CassandraTimerStore`, `PostgreSQLTimerStore`, `DynamoDBTimerStore`, `ShardOwnershipImpl`, `LocalTimerGateImpl`,
`BatchReaderImpl`, `BatchDeleterImpl`, `Retrier`. Their contracts also say, field by field, what the new state is. Where several goroutines or instances interleave, a module
describes one step of the whole system (`Fencing`, `TimerGate`, `ReaderLoop`, `Pipeline`) using the same
functions the class methods are specified by, and proves properties of all runs.

- Times are integers (nanoseconds). A uuid is its rank in the store's uuid order, except in `TimerKey`, where it
  is its 16 bytes and a time is its UTC calendar fields.
- Reads, writes and clocks that may fail or vary are arguments: the row sets two queries saw, whether a commit or
  a request got through, how many batch writes succeed, every random number.
- The queue is its documented contract: it announces the offset of a row it was handed once it saw every handed
  row up to there completed.
- A new timer may be announced to the reader or not: other instances insert without telling it.
- Clocks of the instances do not run backwards and differ by at most `maxSkew`; an insert takes effect at most
  `maxLatency`, on its node's clock, after its `execute_at` was chosen at least `minTimer` ahead of that clock.
  A row's position is the one stored, so a store that cuts times to milliseconds uses up one of `minTimer`.
- A read of the store that returns a nil `*DbError` is a success. The code assigns it to an `error` variable and
  compares that with nil, which in Go is never equal; the model follows the evident intent. As written, the first
  query of every read counts as failed, so every result of `BatchReader` and `ReaderLoop` about a successful
  query is about that intent.
- `TimerGate` covers both semantics of Go's timer channels; `sync` is the one since Go 1.23.

## Model

| member | source | states |
|---|---|---|
| MinTimerDuration.MinTimerDurationIsExact | server/config/engine.go:6-11 | Deletes touch completed rows only, readers skip no live row, and offsets have no live row behind them, in every run exactly when skew plus insert latency is below the minimum timer duration. |
| MinTimerDuration.LosesTheSlowInsert | server/config/engine.go:6-11 | The losing run for every configuration at or below the bound: a late insert lands behind an announced offset and is range-deleted. |
| Pipeline.RangeDeletesAreSafe | server/engine/batch_deleter.go:113-137 | Unfenced prefix deletes by current and stale owners remove only rows already completed, in every run. |
| Pipeline.HandoverIsSafe | server/engine/batch_reader.go:33-37 | In every state of every run, rows left at or before any stored, claimed or sent offset are completed, and no reader has a live row behind its cursor that the queue is not given. |
| Pipeline.NewOwnerStartsSafe | server/databases/cassandra/cassandra_timer_store_impl.go:117-154 | The cursor of a new owner, taken from a read that may be stale by the time of the compare-and-set, has only completed rows behind it. |
| Pipeline.AnnouncedIsSafe | server/engine/interfaces.go:26-38 | The queue's announcement contract makes the offset safe although the queue never saw the rows before the owner's start. |
| Pipeline.InsertLandsAhead | server/config/engine.go:6-11 | An insert decided far enough ahead lands beyond every instance's clock. |
| Pipeline.ReadKeepsOwnerInv | server/engine/batch_reader.go:119-183 | Finishing a read keeps the reader's promise that everything behind its cursor is completed, handed over or buffered. |
| Fencing.ClaimsAreConsecutive | server/databases/cassandra/cassandra_timer_store_impl.go:65-155 | Claims of any interleaving get versions 1, 2, 3, ... without gap, each by a different claim. |
| Fencing.WritesStayInTheirWindow | server/databases/cassandra/cassandra_timer_store_impl.go:223-266 | A version-checked write that succeeded under v lies after claim v and before any later claim. |
| Fencing.ClaimsReturnRecentMetadata | server/databases/cassandra/cassandra_timer_store_impl.go:109-154 | The stored offset is always the last one committed, and a claim returns one that was stored after the previous claim. |
| Fencing.LossIsNeverSpurious | server/engine/shard_ownership.go:74-84 | An owner whose update failed on the version has signalled the loss, and another claim with a larger version took effect. |
| Fencing.LossIsFinal | server/engine/shard_ownership.go:74-95 | After that no update of the same owner changes the store or its cached metadata. |
| Fencing.LossIsNoticed | server/engine/shard_ownership.go:74-84 | Once a larger claim took effect, every update of the old owner leaves the store alone and signals the loss. |
| Fencing.OwnerWrites | server/engine/shard_ownership.go:74-90 | Until a larger claim, an owner's updates take effect in store and cache and signal nothing. |
| CassandraStore.ExecuteIsConditional | server/databases/cassandra/cassandra_timer_store_impl.go:223-268 | A refused conditional batch changes nothing; an applied one found its version and leaves version and owner in place. |
| CassandraStore.CassandraTimerStore.ClaimShardOwnership | server/databases/cassandra/cassandra_timer_store_impl.go:72-154 | The conditional insert or update that ends a claim, with the record it returns. |
| CassandraStore.CassandraTimerStore.UpdateShardMetadata | server/databases/cassandra/cassandra_timer_store_impl.go:157-195 | Sets the metadata under the caller's version or reports a failed condition. |
| CassandraStore.CassandraTimerStore.CreateTimer | server/databases/cassandra/cassandra_timer_store_impl.go:197-269 | Puts the row at its position if the version matches; a missing shard is a generic error. |
| CassandraStore.CassandraTimerStore.RangeDeleteWithBatchInsertTxn | server/databases/cassandra/cassandra_timer_store_impl.go:406-495 | Under the caller's version, a position of the batch holds its last insert there, and any other position what it held, unless it lay in the range. |
| CassandraStore.UpsertExactly | server/databases/cassandra/cassandra_timer_store_impl.go:440-480 | After a batch of inserts a position holds the last of them there, or what it held before. |
| CassandraStore.CassandraTimerStore.Lookup | server/databases/cassandra/cassandra_timer_store_impl.go:546-576 | Finds the first row with the id and namespace, or none exactly when there is none. |
| CassandraStore.CassandraTimerStore.UpdateFound | server/databases/cassandra/cassandra_timer_store_impl.go:578-663 | The update batch for the row the lookup found: in place or moved, attempts reset, refused if the row is gone. |
| CassandraStore.CassandraTimerStore.DeleteFound | server/databases/cassandra/cassandra_timer_store_impl.go:775-823 | The delete batch for the row the lookup found, refused if it is gone. |
| CassandraStore.CassandraTimerStore.RangeDeleteWithLimit | server/databases/cassandra/cassandra_timer_store_impl.go:497-517 | Removes exactly the rows of the range, without version and without limit. |
| ShardOwnership.NewShardOwnership | server/engine/shard_ownership.go:26-56 | An owner exists only after a claim that took effect, with that claim's version and metadata. |
| ShardOwnership.ShardOwnershipImpl.UpdateShardMetadata | server/engine/shard_ownership.go:74-90 | Under its version it sets store and cache; a request that meets another version or no record fails on the version and signals the loss; any other failure changes nothing. |
| ShardOwnership.ShardOwnershipImpl.ReleaseOwnership | server/engine/shard_ownership.go:41-44 | Closes the loss channel at most once. |
| BatchDeleter.BatchDeleterImpl.ReceiveOffset | server/engine/batch_deleter.go:68-73 | Keeps the last announced offset and ignores nil. |
| BatchDeleter.BatchDeleterImpl.CommitOffset | server/engine/batch_deleter.go:89-110 | Commits the received offset fenced, and moves the committed offset only on success. |
| BatchDeleter.BatchDeleterImpl.DeleteTimers | server/engine/batch_deleter.go:113-137 | Deletes exactly the rows from the start of the table to the received offset. |
| BatchReader.BatchReaderImpl.TakeReady | server/engine/batch_reader.go:165-183 | The row loop returns the due prefix of the page, the first future time, and the cursor at the last due row. |
| BatchReader.BatchReaderImpl.FindNextWakeupTime | server/engine/batch_reader.go:203-227 | The further look: the first row's time, or the far horizon when there is none or the query fails. |
| BatchReader.BatchReaderImpl.ReadTimersAndLookAhead | server/engine/batch_reader.go:119-200 | One read: due rows, wake-up time and new cursor; nothing changes when the query fails. |
| BatchReader.ReadIsGapless | server/engine/batch_reader.go:165-183 | A read hands over, in order, all rows of the table from the old cursor to the new one and no others. |
| BatchReader.LookAheadMissesNothing | server/engine/batch_reader.go:165-227 | On an unchanged store a wake-up time is after now, within the larger look-ahead, and no later than any row left unread. |
| BatchReader.FurtherLookMissesNothing | server/engine/batch_reader.go:192-227 | In case 1 the one-row query finds the earliest row left, which lies beyond the near look-ahead and so was never returned before. |
| BatchReader.UnarmedExactly | server/engine/batch_reader.go:185-200 | A read yields no wake-up time exactly when its page is nonempty and all due. |
| BatchReader.DrainBound | server/engine/batch_reader.go:128-183 | With limit L at least 2, k reads with k(L-1) at least n hand over a backlog of n due rows, if that many reads are made. |
| BatchReader.ReadAdvancesExactly | server/databases/db_unified_models.go:85-94 | While rows are due a read advances exactly when L is at least 2, or L is 1 and the row at the inclusive start is gone. |
| BatchReader.OutputIsOrdered | server/engine/batch_reader.go:64-113 | Whatever happens to the table, the whole output is ordered, and a row read again is the one at the cursor. |
| BatchReader.OutputIsTheTable | server/engine/batch_reader.go:128-183 | Without deletions the output without repeats is exactly the table from start to cursor. |
| ReaderLoop.NeverOversleeps | server/engine/batch_reader.go:64-113 | Whenever the reader waits, the gate covers the last look-ahead and all notices since, after an exact look-ahead every row beyond the cursor that was seen or announced. |
| ReaderLoop.LookAheadBoundsTheSleep | server/config/engine.go:80-84 | While an armed reader waits, the gate covers the last read's clock plus the larger look-ahead, and so every row, also those other instances inserted without telling the reader, by that or its own time. |
| ReaderLoop.HandsOverItsOutput | server/engine/batch_reader.go:104-106 | Rows sent to the channel followed by rows still to send are the output of the reads so far, in order and complete. |
| ReaderLoop.WakesForEveryRowExactly | server/engine/batch_reader.go:185-200 | A read from an idle gate that finds rows makes the gate wake for every row left exactly when its page holds a future row or nothing is left; without a future row, and with no notice under way, the reader sleeps. |
| ReaderLoop.SleepLasts | server/engine/batch_reader.go:72-111 | In any run, until an announced insert, that sleep lasts: the cursor and the rows given out stay as they are, whatever else happens. |
| ReaderLoop.BacklogWaitsForANotice | server/engine/batch_reader.go:85-88 | A due row left behind by a read from an idle gate is not handed over before the next announced insert. |
| ReaderLoop.SleepsThroughADueRow | server/engine/batch_reader.go:85-88 | From any start a run with working queries ends asleep beside an overdue row. |
| TimerGate.NoLostWakeup | server/engine/timer_gate.go:114-137 | After Update(t), until a signal is consumed or Stop is called, a wake-up at or before t is armed, expired or signalled. |
| TimerGate.ArmedAtEarliestRequest | server/engine/timer_gate.go:114-137 | In any run an armed timer is armed at the earliest time that calls of Update asked for since it was last idle. |
| TimerGate.NoSpuriousWakeup | server/engine/timer_gate.go:68-90 | In any run there are no more signals consumed than relayed, than expiries, than requests. |
| TimerGate.LocalTimerGateImpl.Update | server/engine/timer_gate.go:114-137 | Keeps the earlier of the armed and the requested time and tells whether it changed. |
| TimerGate.LocalTimerGateImpl.Stop | server/engine/timer_gate.go:93-96 | Disarms the timer and leaves a waiting signal alone. |
| TimerGate.LocalTimerGateImpl.RelaySignal | server/engine/timer_gate.go:76-81 | The non-blocking send: one signal waits, however many expiries there were. |
| Chronology.KeysSortByTime | server/databases/timer_uuid.go:19-23 | String order of keys is the order of (milliseconds since year 0, uuid bytes), as the timestamp format of section 5.1 of RFC 3339 promises for times; equal keys mean equal milliseconds and uuids. |
| Chronology.MonthsAreGregorian | server/databases/timer_uuid.go:19-23 | The days those milliseconds count are those of the Gregorian calendar. |
| KeyText.TimestampText | server/databases/timer_uuid.go:22 | Year, month, day, hour, minute, second and millisecond stand digit by digit where the layout has them. |
| KeyText.UuidTextAt | server/databases/timer_uuid.go:19-23 | Each byte of a uuid stands as two lower-case hexadecimal digits in its place, with four hyphens. |
| KeyText.ParseTimeExactly | server/databases/timer_uuid.go:44-48 | A timestamp is read, as a time of whole milliseconds, exactly when it is that time's text up to the leniencies. |
| KeyText.LenientTimes | server/databases/timer_uuid.go:44-48 | A one-digit hour, a comma, and a sign for the first millisecond digit are read like the canonical text. |
| KeyText.UuidParsesExactly | server/databases/timer_uuid.go:50-54 | A text is accepted as a uuid exactly when it is the text of one, in any case, as a urn, between two characters, or without hyphens. |
| TimerKey.ParseUndoesFormat | server/databases/timer_uuid.go:25-57 | Parsing a formatted key gives the time cut to milliseconds and the same uuid text. |
| TimerKey.FormatUndoesParse | server/databases/timer_uuid.go:25-57 | Formatting what was parsed gives the key back exactly when its timestamp was canonical: no one-digit hour, comma or sign. |
| TimerKey.ParseExecuteAtWithUuid | server/databases/timer_uuid.go:26-57 | Splits at the first separator; each of the three errors is reported exactly when its part is at fault. |
| DynamoStore.BoundsAreTupleBounds | server/databases/dynamodb/dynamodb_timer_store_impl.go:475-483 | A timer's key is not below a formatted lower bound, nor above an upper one, exactly when (milliseconds, uuid) is not. |
| DynamoStore.BetweenExactly | server/databases/dynamodb/dynamodb_timer_store_impl.go:478-490 | A range takes exactly the items whose key is neither below the lower nor above the upper bound, each as often as it is there, in index order. |
| DynamoStore.OverReadIsExact | server/databases/dynamodb/dynamodb_timer_store_impl.go:491-495 | Reading limit+1 items, filtering and cutting gives the first limit timers when at most one shard record is in the range. |
| DynamoStore.RangeGetTimers | server/databases/dynamodb/dynamodb_timer_store_impl.go:474-576 | Returns timers of the index within the bounds, in index order; with one shard record in the range, a timer left out comes after a full page. |
| DynamoStore.DynamoDBTimerStore.RangeDeleteWithLimit | server/databases/dynamodb/dynamodb_timer_store_impl.go:728-812 | Deletes only timers within the bounds, in chunks of 25; a failing chunk leaves the earlier ones deleted and reports an error; on success a timer left within the bounds comes after limit items. |
| DynamoStore.WithoutExactly | server/databases/dynamodb/dynamodb_timer_store_impl.go:775-805 | A deletion leaves exactly the items not asked for, in index order. |
| DynamoStore.DeleteLosesOnePlace | server/databases/dynamodb/dynamodb_timer_store_impl.go:748-760 | From the start of the table a delete limited to L takes the first L-1 timers, and none at all for L = 1. |
| DynamoStore.LimitedQueryExactly | server/databases/dynamodb/dynamodb_timer_store_impl.go:748-760 | For any range with at most one shard record, a query limited to L returns the first L timers exactly when the record is not among the first L items or the range is no longer than L; otherwise the first L-1. |
| PostgresStore.PostgreSQLTimerStore.CreateTimer | server/databases/postgresql/postgresql_timer_store_impl.go:225-312 | An upsert by name that fails, changing nothing, exactly when another timer sits at the new position or the version or commit fails. |
| PostgresStore.PostgreSQLTimerStore.UpdateTimer | server/databases/postgresql/postgresql_timer_store_impl.go:611-748 | A map update by name keeping uuid, creation time and attempts, both unique keys, and the whole table on any failure. |
| PostgresStore.PostgreSQLTimerStore.DeleteTimer | server/databases/postgresql/postgresql_timer_store_impl.go:823-884 | Removes exactly the named timer, or nothing. |
| PostgresStore.PostgreSQLTimerStore.RangeDeleteWithBatchInsertTxn | server/databases/postgresql/postgresql_timer_store_impl.go:462-577 | Old table minus range plus batch with the sizes adding up, or no change; succeeds exactly when the batch is insertable. |
| PostgresStore.PostgreSQLTimerStore.RangeDeleteWithLimit | server/databases/postgresql/postgresql_timer_store_impl.go:579-609 | Removes exactly the first limit rows of the range and counts them. |
| PostgresStore.InsertAllExactly | server/databases/postgresql/postgresql_timer_store_impl.go:520-566 | A batch goes in exactly when no timer clashes with the table or the batch in either key; then every old and new row is there. |
| PostgresStore.ReplaceByName | server/databases/postgresql/postgresql_timer_store_impl.go:683-716 | Deleting a row and inserting its successor under the same name is a map update by name and keeps both keys unique. |
| MongoQuery.FilterIsRange | server/databases/mongodb/mongodb_timer_store_impl.go:499-555 | The expanded filter selects exactly the positions between the bounds, both included. |
| MongoQuery.RangeIsSlice | server/databases/mongodb/mongodb_timer_store_impl.go:547-563 | What the filter selects is one contiguous slice of the sorted table. |
| MongoQuery.PageIsStartOfSlice | server/databases/mongodb/mongodb_timer_store_impl.go:557-565 | Sort and limit return the start of that slice. |
| MongoQuery.RangeGetTimers | server/databases/mongodb/mongodb_timer_store_impl.go:539-622 | Filter, sort and limit return the range in order, cut to the limit; zero means no limit. |
| RetryPolicy.DoneExactly | server/engine/backoff/retrypolicy.go:155-195 | A delay is granted exactly while attempts, caps and remaining time allow one first interval; it then stays within the maximum and the expiration. |
| RetryPolicy.DelayFollowsIntervals | server/engine/backoff/retrypolicy.go:155-195 | With intervals that start at the first one and each time grow by the coefficient, a delay is granted exactly when the interval, cut by maximum and remaining time, is no shorter than the first, and lies between four fifths of the cut interval and all of it. |
| RetryPolicy.JitterIsExact | server/engine/backoff/retrypolicy.go:186-194 | The random part is a whole number below a fifth of the interval, and every such number can come up. |
| RetryPolicy.JitterBounds | server/engine/backoff/retrypolicy.go:186-194 | Jitter keeps a delay between four fifths of its interval and the interval. |
| RetryPolicy.ServedByItsPhase | server/engine/backoff/retrypolicy.go:197-208 | Attempt n gets the delay of the phase whose cumulative range holds n, counted from that phase's start: between four fifths and all of that phase's growing interval, cut by its maximum. |
| RetryPolicy.PhaseIsUnique | server/engine/backoff/retrypolicy.go:96-106 | That phase is unique. |
| RetryPolicy.NoPhaseLeft | server/engine/backoff/retrypolicy.go:197-208 | An attempt beyond all phases gets no delay. |
| RetryPolicy.ComputePhasesDelay | server/engine/backoff/retrypolicy.go:198-208 | The loop over phases computes the phase delay. |
| RetryPolicy.Retrier.NextBackOff | server/engine/backoff/retrypolicy.go:217-223 | Computes from the attempts so far and counts one more. |
| RetryPolicy.ShrinkingStops | server/engine/backoff/retrypolicy.go:166-184 | A coefficient below 1 leaves room for one delay only. |
| RetryPolicy.LastNanosecond | server/engine/backoff/retrypolicy.go:175-194 | A nanosecond before its expiration, a policy with a first interval of one nanosecond grants a delay of zero. |
| Retry.Do | server/engine/backoff/retry.go:171-225 | Ends whenever its policy, its throttling or its environment ends it, having run an execution in which each retry follows a retryable failure after exactly the longer of retry and throttle delay; it stops only on success, a final error, no delay left or cancellation; the error is the one before the last when there were two failures. |
| Retry.NextWait | server/engine/backoff/retry.go:201-214 | Both retriers count, and the wait is the retry delay or a longer throttle delay. |
| Retry.RetryProgresses | server/engine/backoff/retry.go:201-222 | A granted retry keeps the run an execution. |
| RetryRuns.WaitIsTheLonger | server/engine/backoff/retry.go:201-214 | The wait is granted exactly when the retry delay is, and is the longer of the granted delays that apply. |
| RetryRuns.ThrottlesExactly | server/engine/backoff/retry.go:207-209 | The throttle retrier counts exactly the failures that asked for throttling. |
| RetryRuns.RetriesAreInTime | server/engine/backoff/retry.go:201-222 | A retry waits at least four fifths of the first interval, and starts no later than max(E, E - I + throttle maximum) plus its own overshoot. |
| RetryRuns.AttemptBound | server/engine/backoff/retry.go:179-224 | The operation runs at most (E - I) / w + 2 times, w being four fifths of I. |
| RetryRuns.AttemptsAreLimited | server/engine/backoff/retrypolicy.go:156-158 | A policy limited to m attempts lets the operation run at most m + 1 times. |
| RetryRuns.RunsAreBounded | server/engine/backoff/retrypolicy.go:155-195 | Every ending policy has its bound on the attempts: one without room for a first interval, two with a shrinking one, m + 1, or (E - I) / w + 2. |
| RetryRuns.NoDeadlineNeverEnds | server/engine/backoff/retrypolicy.go:155-195 | Without limits and expiration every environment that keeps failing has executions of every length. |
| RetryRuns.ZeroWaitsNeverEnd | server/engine/backoff/retrypolicy.go:175-194 | With a first interval of one nanosecond and any coefficient of at least 1, a deadline bounds nothing: once the first attempt has lasted until a nanosecond before it, waits are zero and executions of every length fit. |
| RetryRuns.PolicyEndsExactly | server/engine/backoff/retrypolicy.go:155-195 | A policy ends every loop in every environment exactly when its first interval is not positive, its coefficient is below 1, its attempts are limited, a cap leaves no room for the first interval, or it expires and its first interval is at least two nanoseconds. |
| RetryRuns.RetryEndsExactly | server/engine/backoff/retry.go:171-225 | The same for one configured loop, if some error is retried, and not throttled when the first interval is one nanosecond. |
| RetryRuns.ThrottlingEndsIt | server/engine/backoff/retry.go:208-214 | If every retryable error is throttled for good, a deadline E ends the loop after at most E + 2 attempts even with a first interval of one nanosecond. |

## Left out

- Drivers, query texts, JSON, contexts, timeouts, logging, HTTP, configuration loading, membership: table operations either take effect at once or fail without effect.
- SQL and MongoDB isolation: a transaction's check and write are one step.
- MySQL: the same algebra as PostgreSQL.
- MongoDB writes: the same algebra as PostgreSQL; only its range query differs and is modelled.
- The unlocked create, update and delete variants: the same row changes without the version check; in `Pipeline` every insert, move and user delete is unlocked.
- Cassandra's two insert paths of equal name and different time: (namespace, id) is not unique there, so updates by name are proved for PostgreSQL.
- DynamoDB's locked update and delete, which raise the version, and result pagination.
- Negative limits of PostgreSQL, which the database rejects.
- MD5 uuids: any function; PostgreSQL keeps both keys unique whatever the uuids are.
- Payloads in the reader: a row is its position.
- Years beyond 9999 and times not in UTC: the key format is not of fixed width or not UTC there.
- The conversion between Go's clock and UTC calendar fields.
- Float rounding and overflow in backoff, and the mutex-guarded concurrent retrier.
- Retry.Do: a loop that nothing ends, whose environment fails retryably for ever and whose policy is not an ending one, is described by its executions only.
- RetryRuns.RetryEndsExactly: when the first interval is one nanosecond and every retryable error is throttled, only the direction from an ending policy is proved, and ThrottlingEndsIt for throttle delays that never run out.
- The gate's isActive flag under races, and closing the gate, the reader or the deleter.
- When the deleter's loop picks which branch: whether deletion happens is not claimed, only that it is safe.
- Clocks that run backwards.
