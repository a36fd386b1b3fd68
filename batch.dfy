/** The values that flow through the writer: batches of rows, the reserved
    poison pill, and the events the writer leaves in its observable log. */
module Batch {

  datatype Option<T> = None | Some(value: T)

  /** A column value. The writer hands each value to the store's appender
      untouched, so only its identity matters here. */
  datatype Value = Null | Int(i: int) | Float(f: real) | Bool(b: bool) | Str(s: string)

  /** One unit of work: a destination table and its rows, each row a list of
      values in column order. */
  datatype Item = Item(table: string, rows: seq<seq<Value>>)

  /** The reserved table name that marks the shutdown item. */
  const PoisonPillTable: string := "POISON_PILL_TABLE"

  /** The item that stop() places on the queue. */
  const PoisonPill: Item := Item(PoisonPillTable, [])

  /** The consumer recognises the pill by its table name alone. */
  predicate IsPill(item: Item) {
    item.table == PoisonPillTable
  }

  /** What the writer does that can be observed from outside: the calls made
      on the store's appender, and the reports it prints. */
  datatype Event =
    | Append(v: Value)                   // appender.append(value)
    | EndRow                             // appender.endRow()
    | Flush                              // appender.flush()
    | Wrote(table: string, count: nat)   // "Wrote <count> rows to <table>"
    | Failed(table: string)              // an error report naming the table
    | Stopped                            // "DuckDB Writer Service stopped."
}
