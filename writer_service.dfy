/** DuckDBWriterService (DuckDBWriterService.java:10-106) as a class: the
    running flag and the shared queue are fields its methods update in place,
    and `log` records the appender calls and the reports the service makes.
    Every method is proved against the state machine in DrainSpec, so the
    lemmas proved there hold of the class. */
module DuckDBWriter {
  import opened Batch
  import opened AppendSpec
  import opened DrainSpec

  class DuckDBWriterService {
    var running: bool
    var queue: seq<Item>
    var log: seq<Event>

    /** The fields as a DrainSpec state. */
    function Snapshot(): State
      reads this
    {
      State(running, queue, log)
    }

    /** A new service is running, on the queue it is given, and has done nothing. */
    constructor (queue: seq<Item>)
      ensures running && this.queue == queue && log == []
    {
      running := true;
      this.queue := queue;
      log := [];
    }

    /** queue.offer(item), by a producer or by Stop. The queue is unbounded, so
        the offer always succeeds and the item goes to the tail. */
    method Offer(item: Item)
      modifies this
      ensures queue == old(queue) + [item]
      ensures running == old(running) && log == old(log)
    {
      queue := queue + [item];
    }

    /** The first half of stop() (DuckDBWriterService.java:21): the flag is
        cleared before the pill is offered, so a consumer may run in between. */
    method ClearRunning()
      modifies this
      ensures !running
      ensures queue == old(queue) && log == old(log)
    {
      running := false;
    }

    /** stop(): clear the flag, then put one more pill at the tail; nothing
        guards against a repeated call. Calling ClearRunning, then Run, then
        Offer(PoisonPill) replays a consumer running between the two halves. */
    method Stop()
      modifies this
      ensures !running
      ensures queue == old(queue) + [PoisonPill]
      ensures log == old(log)
    {
      ClearRunning();
      Offer(PoisonPill);
    }

    /** queue.poll(1, SECONDS) when it is not interrupted: the head if there is
        one, otherwise nothing after the timeout, with nothing changed. */
    method Poll() returns (item: Option<Item>)
      modifies this
      ensures old(queue) == [] ==> item == None && queue == old(queue)
      ensures old(queue) != [] ==> item == Some(old(queue)[0]) && queue == old(queue)[1..]
      ensures running == old(running) && log == old(log)
    {
      if queue == [] {
        item := None;
      } else {
        item := Some(queue[0]);
        queue := queue[1..];
      }
    }

    /** The n-th call on the appender for the current item; it throws when the
        fault oracle names it. */
    method Call(e: Event, fault: Option<nat>, n: nat) returns (ok: bool)
      modifies this
      ensures ok == (fault != Some(n))
      ensures log == if ok then old(log) + [e] else old(log)
      ensures running == old(running) && queue == old(queue)
    {
      ok := fault != Some(n);
      if ok {
        log := log + [e];
      }
    }

    /** The inner loop of the appender block (DuckDBWriterService.java:86-89)
        for one row, whose first call is the item's n-th: append() for each
        value in column order, then endRow(). Stops at the first call that
        throws; `ok` says whether none did. */
    method AppendRow(row: seq<Value>, fault: Option<nat>, n: nat) returns (ok: bool)
      requires fault.Some? ==> fault.value >= n
      modifies this
      ensures ok ==> log == old(log) + RowCalls(row) && (fault.Some? ==> fault.value >= n + |RowCalls(row)|)
      ensures !ok ==> fault.Some? && n <= fault.value < n + |RowCalls(row)| &&
                      log == old(log) + RowCalls(row)[..fault.value - n]
      ensures running == old(running) && queue == old(queue)
    {
      var c := 0;
      while c < |row|
        invariant 0 <= c <= |row|
        invariant log == old(log) + Appends(row[..c])
        invariant fault.Some? ==> fault.value >= n + c
        invariant running == old(running) && queue == old(queue)
      {
        ok := Call(Append(row[c]), fault, n + c);
        if !ok {
          assert RowCalls(row)[..c] == Appends(row[..c]);
          return;
        }
        assert row[..c + 1] == row[..c] + [row[c]];
        c := c + 1;
      }
      assert row[..c] == row;
      ok := Call(EndRow, fault, n + c);
      if !ok {
        assert RowCalls(row)[..c] == Appends(row);
      }
    }

    /** The outer loop of the appender block (DuckDBWriterService.java:85-90):
        every row in order. Stops at the first call that throws; `ok` says
        whether none did. */
    method AppendRows(rows: seq<seq<Value>>, fault: Option<nat>) returns (ok: bool)
      modifies this
      ensures ok ==> log == old(log) + RowsCalls(rows) && (fault.Some? ==> fault.value >= |RowsCalls(rows)|)
      ensures !ok ==> fault.Some? && fault.value < |RowsCalls(rows)| &&
                      log == old(log) + RowsCalls(rows)[..fault.value]
      ensures running == old(running) && queue == old(queue)
    {
      var r := 0;
      while r < |rows|
        invariant 0 <= r <= |rows|
        invariant log == old(log) + RowsCalls(rows[..r])
        invariant fault.Some? ==> fault.value >= |RowsCalls(rows[..r])|
        invariant running == old(running) && queue == old(queue)
      {
        var n := |RowsCalls(rows[..r])|;
        ok := AppendRow(rows[r], fault, n);
        if !ok {
          RowsCallsThroughRow(rows, r, fault.value - n);
          RowsCallsThroughRow(rows, r, |RowCalls(rows[r])|);
          return;
        }
        assert rows[..r + 1][..r] == rows[..r];
        r := r + 1;
      }
      assert rows[..r] == rows;
      ok := true;
    }

    /** The appender block (DuckDBWriterService.java:84-96): all rows, one
        flush(), then the success report; on the first call that throws, the
        error report instead and nothing more. */
    method WriteItem(item: Item, fault: Option<nat>)
      modifies this
      ensures log == old(log) + WriteEvents(item, fault)
      ensures running == old(running) && queue == old(queue)
    {
      var calls := Calls(item.rows);
      var ok := AppendRows(item.rows, fault);
      if ok {
        ok := Call(Flush, fault, |RowsCalls(item.rows)|);
      }
      if !ok {
        assert log == old(log) + calls[..fault.value];
        log := log + [Failed(item.table)];
        return;
      }
      log := log + [Wrote(item.table, |item.rows|)];
      if fault.Some? {
        // every call succeeded, so the fault lies in the appender's close()
        log := log + [Failed(item.table)];
      }
    }

    /** One iteration of the loop at DuckDBWriterService.java:50-98: poll (or
        be interrupted), stop at a pill, skip an item whose table check fails,
        otherwise write it. */
    method Step(t: Tick) returns (outcome: Outcome)
      modifies this
      ensures (Snapshot(), outcome) == StepSpec(old(Snapshot()), t)
    {
      if t.interrupted {
        return Halt(Interrupted);
      }
      var polled := Poll();
      if polled.None? {
        return Continue;
      }
      var item := polled.value;
      if IsPill(item) {
        return Halt(PillReceived);
      }
      if t.tableCheckFails {
        log := log + [Failed(item.table)];
        return Continue;
      }
      WriteItem(item, t.writeFault);
      return Continue;
    }

    /** run() (DuckDBWriterService.java:38-105), iteration i of its loop
        deciding by ticks[i]. Returns None if the ticks run out while the loop
        would go on, otherwise why it returned; every return is preceded by
        the stop report of the `finally` block. */
    method Run(conn: Connection, ticks: seq<Tick>) returns (exit: Option<ExitReason>)
      modifies this
      ensures (Snapshot(), exit) == RunSpec(old(Snapshot()), conn, ticks)
    {
      if conn == ConnectError {
        log := log + [Stopped];
        return Some(ConnectFailed);
      }
      if conn == PlainJdbc {
        log := log + [Stopped];
        return Some(NotDuckDb);
      }
      var i := 0;
      while running || queue != []
        invariant 0 <= i <= |ticks|
        invariant LoopSpec(Snapshot(), ticks[i..]) == LoopSpec(old(Snapshot()), ticks)
        decreases |ticks| - i
      {
        if i == |ticks| {
          return None;
        }
        assert ticks[i..][1..] == ticks[i + 1..];
        var outcome := Step(ticks[i]);
        if outcome.Halt? {
          log := log + [Stopped];
          return Some(outcome.reason);
        }
        i := i + 1;
      }
      log := log + [Stopped];
      return Some(Drained);
    }
  }
}
