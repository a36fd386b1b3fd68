# DuckDB writer service: a verified model

`DuckDBWriterService` is a background writer. Producers put batches on a
shared queue. Each batch is a table name plus a list of rows. A single consumer
thread takes them off in order and bulk-appends each one to DuckDB.
`stop()` clears a `running` flag and enqueues a poison-pill batch, which is
recognised by the reserved table name `POISON_PILL_TABLE`. The consumer's
`run()` does these things in order:

1. It opens the connection and gives up if the connection is not a DuckDB one.
2. It loops while `running || !queue.isEmpty()`. Each pass polls the queue with
   a timeout.
3. It leaves the loop on the pill or on an interrupt.
4. It skips a batch whose table check or append fails.
5. For a good batch it calls `append` for every value in column order and
   `endRow` after each row, then `flush`, and reports the row count.
6. Its `finally` block always reports that the service stopped.

The model has four modules:

- `Batch` (batch.dfy): the data. `Item` is a batch, `Value` a column value,
  `PoisonPill` the shutdown item. `Event` is what the service does that can
  be seen from outside: the appender calls `Append(v)`, `EndRow` and `Flush`,
  and the reports `Wrote(table, n)`, `Failed(table)` and `Stopped`.
- `AppendSpec` (append_spec.dfy): the sequence of appender calls for one
  batch, and the log events one batch produces under a given fault. It also
  gives three independent readings of a call sequence (rows decoded at each
  `EndRow`, the appended values, the number of `EndRow`s), and lemmas that
  tie each reading back to the batch.
- `DrainSpec` (drain_spec.dfy): the consumer as a pure state machine over
  `State(running, queue, log)`. It has one loop iteration (`StepSpec`), the
  loop with its `finally` report (`LoopSpec`) and `run()` (`RunSpec`). Lemmas
  cover FIFO order, how the loop ends, termination after stop, draining up
  to the pill, the order of success reports, and exit reporting.
- `DuckDBWriter` (writer_service.dfy): the class `DuckDBWriterService` with
  fields `running`, `queue` and `log`. Its methods change these fields in place
  and use the source's loops. Each method's `ensures` ties the new state
  to the old one or to the `DrainSpec` function it implements. So every
  `DrainSpec` lemma also holds of the class.

Whatever the outside world decides is passed in as an input:

- `Connection`: the connect attempt threw, the connection came from another
  driver, or it is a DuckDB connection.
- `Tick`, one per loop iteration. It says whether the wait in `poll` is
  interrupted and whether the table check throws. It also carries `writeFault`.
  `None` means no appender call throws. `Some(k)` means the first `k` calls
  succeed and the next one throws. `Some(0)` covers both `createAppender`
  throwing and the first `append` (or, for a batch with no rows, the `flush`)
  throwing: neither leaves a call in the log. When `k` is past the last call,
  the call that throws is the appender's `close()`.

`Run` takes a finite list of ticks. It returns `None` when the list runs out
while the loop would still go on, which means the service is still running.
Producers and `stop()` can be interleaved with the consumer by calling
`Offer`, `Stop` and `Step` on the same object in any order. `Stop` is
`ClearRunning` followed by `Offer(PoisonPill)`, and the two halves can also be
called separately with the consumer running in between.

Notes on the source:

- When the appender's `close()` throws after a successful `flush`, the
  source prints both the success line and an error line for the same batch.
  The model keeps this: that batch logs `Wrote` and then `Failed`.
- A data batch whose table is named `POISON_PILL_TABLE` is treated as the
  pill. Its rows are dropped and the consumer stops. Nothing in the source
  stops a producer from using that name.
- Nothing in `stop()` (DuckDBWriterService.java:20-35) guards against a
  repeated call: each call enqueues another pill. The model follows the code. `DrainSpec.DrainsUpToPill` shows that the
  consumer stops at the first pill and leaves a second one in the queue.

## Model

| member | source | states |
|---|---|---|
| `DuckDBWriter.DuckDBWriterService.constructor` | DuckDBWriterService.java:13-18 | a new service is running on the given queue and has logged nothing |
| `DuckDBWriter.DuckDBWriterService.Offer` | DuckDBWriterService.java:28 | `offer` on the unbounded queue puts the item at the tail; the flag and log are unchanged |
| `DuckDBWriter.DuckDBWriterService.ClearRunning` | DuckDBWriterService.java:21 | the first half of `stop()`: the flag becomes false and the queue and log are unchanged, so a consumer can run before the pill is offered |
| `DuckDBWriter.DuckDBWriterService.Stop` | DuckDBWriterService.java:20-35 | the flag becomes false and exactly one pill (reserved table name, no rows) is added at the tail; earlier queue contents and the log are unchanged; a repeated call adds another pill |
| `DuckDBWriter.DuckDBWriterService.Poll` | DuckDBWriterService.java:51-59 | an uninterrupted poll takes the head of a non-empty queue; on an empty queue it returns nothing and changes nothing |
| `DuckDBWriter.DuckDBWriterService.AppendRow` | DuckDBWriterService.java:86-89 | one row: `append` for each value in column order, then `endRow`; a throwing call stops it, and the log then holds exactly the calls made before it |
| `DuckDBWriter.DuckDBWriterService.AppendRows` | DuckDBWriterService.java:85-90 | all rows in order; on a throwing call the log holds exactly the prefix of the batch's calls made before it |
| `DuckDBWriter.DuckDBWriterService.WriteItem` | DuckDBWriterService.java:83-96 | the log grows by exactly `WriteEvents(item, fault)`: the calls, `Flush` and `Wrote(table, rows)` on success; the calls up to the failing one and `Failed(table)` on a fault |
| `DuckDBWriter.DuckDBWriterService.Step` | DuckDBWriterService.java:50-98 | one loop iteration changes the fields exactly as `StepSpec` says |
| `DuckDBWriter.DuckDBWriterService.Run` | DuckDBWriterService.java:38-105 | `run()` changes the fields and returns the exit reason exactly as `RunSpec` says |
| `DrainSpec.StepSpec` | DuckDBWriterService.java:50-98 | an iteration leaves `running` alone; it ends the loop iff it is interrupted or the head is the pill, with reason `Interrupted` if it was interrupted and `PillReceived` otherwise, and ending logs nothing (the pill is never written); an interrupt or an empty queue changes nothing; otherwise exactly the head is removed, and a data item's events are appended; a failing item never ends the loop |
| `DrainSpec.Taken` | DuckDBWriterService.java:50-66 | the number of items the consumer takes is at most the queue length and at most one per iteration |
| `DrainSpec.LoopFifo` | DuckDBWriterService.java:50-97 | the loop removes a prefix of the queue, each item once; the log grows by exactly those items' events in queue order, then `Stopped` if the loop ended; the flag is only read |
| `DrainSpec.LoopExit` | DuckDBWriterService.java:50-66 | only the last item taken can be a pill, so nothing behind the first pill is processed; the loop ends on a pill iff it took one; it ends `Drained` iff the flag is clear and every queued item was a data item and taken; it never reports a connection problem |
| `DrainSpec.LoopInterrupted` | DuckDBWriterService.java:50-61 | the loop ends `Interrupted` only if some tick at or after the items taken was interrupted, and, when items were left queued, exactly the tick that would have taken the next one |
| `DrainSpec.QueuedPillPreventsDrained` | DuckDBWriterService.java:50-66 | with a pill anywhere in the queue the loop never ends `Drained`; so a run started after `stop()` has queued its pill never does |
| `DrainSpec.DrainedBeforePill` | DuckDBWriterService.java:21-50 | with the flag clear and only data items queued, a consumer that meets no interrupt takes every item, logs their events then `Stopped`, and ends `Drained` with the queue empty, so a pill offered afterwards stays queued |
| `DrainSpec.LoopTerminates` | DuckDBWriterService.java:50-61 | with the flag clear, the loop ends within one iteration per queued item, whatever fails |
| `DrainSpec.DrainsUpToPill` | DuckDBWriterService.java:20-66 | with data items queued ahead of a pill and no interrupt, every item is processed in order with its own outcome; the loop then ends at the pill with `Stopped` last and leaves what follows the pill (a second pill included) in the queue |
| `DrainSpec.ReportsOfItem` | DuckDBWriterService.java:76-96 | a data item earns exactly one success report, with its row count, iff its table check passes and every call up to `flush` succeeds, and none otherwise |
| `DrainSpec.WrittenInQueueOrder` | DuckDBWriterService.java:50-97 | the success reports in the log are those of the committed items, one each, in queue order |
| `DrainSpec.RunReports` | DuckDBWriterService.java:39-104 | the log only grows; whenever `run()` returns, its last event is `Stopped`; while it has not returned, it has logged no `Stopped`; a failed connection or a non-DuckDB connection takes nothing off the queue and logs only `Stopped` |
| `AppendSpec.EndRowsCountRows` | DuckDBWriterService.java:85-92 | a batch makes as many `endRow` calls as it has rows, which is the count it reports |
| `AppendSpec.ValuesInPositionalOrder` | DuckDBWriterService.java:85-88 | the appended values are all values of all rows, row by row and in column order within a row |
| `AppendSpec.CallsRoundTrip` | DuckDBWriterService.java:85-91 | grouping the appended values at each `endRow` gives back exactly the batch's rows |
| `AppendSpec.WriteOutcome` | DuckDBWriterService.java:84-96 | a batch's events end with `Wrote` iff nothing throws and with `Failed` iff something does; `Wrote` appears iff every call up to `flush` succeeded; the calls made are a prefix of the batch's calls |
| `AppendSpec.WriteSuccess` | DuckDBWriterService.java:84-92 | on success the events carry exactly the batch's rows and values, and the reported count equals the number of `endRow` calls |

## Left out

- JDBC and DuckDB themselves (`DriverManager.getConnection`, `createStatement`,
  `createAppender`, `append`, `endRow`, `flush`, `close`) are foreign calls.
  The `Connection` and `Tick` inputs decide where they throw. `append`,
  `endRow` and `flush` are kept as log events. `getConnection`,
  `createStatement`, `createAppender` and `close` are not logged: they appear
  only as places where an exception can be thrown.
- Console output is kept only as the `Wrote`, `Failed` and `Stopped` events.
  The start, "ensuring table", interrupt and pill messages are not logged.
- The database path (`dbPath`) only names the database, so the model leaves it out.
- Threads, the `volatile` flag and the one-second timeout are left out. So is
  `Thread.interrupt`: an interrupt is a `Tick` input. Each method runs as
  one step, so `Stop` is atomic and a consumer never sees the state between
  its two halves. A `Run` started after a single `Stop` therefore never ends
  `Drained` (`DrainSpec.QueuedPillPreventsDrained`), and calling `Stop` twice
  leaves the second pill queued (`DrainSpec.DrainsUpToPill`). In the source
  the consumer can see the flag clear and the queue empty before the pill
  arrives, then exit and leave the pill queued. The model replays that race
  only when `ClearRunning`, `Run` and `Offer(PoisonPill)` are called in that
  order (`DrainSpec.DrainedBeforePill`).
- A bounded queue whose `offer` fails when full is left out. The queue is
  taken to be unbounded, so `Offer` always succeeds. The queue is also
  assumed to be FIFO, with a timed `poll` that returns the head at once when
  the queue is not empty, as `LinkedBlockingQueue` does. `Poll`, `Taken` and
  `LoopFifo` depend on this.
- The schema statement is commented out in the source and is left out. Only
  the table check's pass or fail is modelled.
- Exceptions other than `SQLException` (runtime errors from the driver) would
  end the thread through the `finally` block. They are not modelled.
- `DuckDBWriter.DuckDBWriterService.Run` takes a finite list of ticks. A
  service that is still running when the list runs out is reported as `None`,
  so the model does not describe a loop that never ends.
