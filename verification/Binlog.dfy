/** Row images, changes and transactions as the binlog analysis stores them. */
module Binlog {
  import opened Wrappers

  /** One transport value; a float keeps its printed text and whether it is finite. */
  datatype CellValue =
    | NullValue
    | BooleanValue(truth: bool)
    | IntegerValue(text: string)
    | DecimalValue(text: string)
    | FloatValue(text: string, finite: bool)
    | TextValue(text: string)
    | DateTimeValue(text: string)
    | JsonValue(text: string)
    | BinaryValue(base64: string)

  datatype Cell =
    | NotLogged
    | Null
    | Value(value: CellValue)
    | UnixTimestamp(seconds: string)
    | DecodeError
    | Partial(partial: CellValue)

  type Image = map<string, Cell>

  datatype RowChange = RowChange(before: Option<Image>, after: Option<Image>)

  datatype Operation = Insert | Update | Delete | Ddl

  datatype Confidence = Exact | SqlParsed | Unattributed

  datatype Change = Change(
    database: string,
    table: string,
    operation: Operation,
    rowCount: nat,
    columns: seq<string>,
    rows: seq<RowChange>,
    confidence: Confidence,
    sql: Option<string>)

  type TableKey = (string, string)

  function Key(change: Change): TableKey { (change.database, change.table) }

  datatype Status = Committed | RolledBack | Incomplete | UnknownStatus

  /** Row counts of one table: inserts, updates, deletes, DDL statements, and rows in total. */
  datatype Counts = Counts(inserts: nat, updates: nat, deletes: nat, ddl: nat, rows: nat)

  /** Header metadata and physical range of a transaction or of one event. */
  datatype Location = Location(timestamp: string, serverId: nat, fileName: string, start: nat, end: nat)

  datatype Transaction = Transaction(
    sequence: nat,
    gtid: Option<string>,
    xid: Option<nat>,
    location: Location,
    status: Status,
    rowChangeCount: nat,
    tables: map<TableKey, Counts>,
    changes: seq<Change>)

  function SumRows(changes: seq<Change>): nat
  {
    if changes == [] then 0 else SumRows(changes[..|changes| - 1]) + changes[|changes| - 1].rowCount
  }
}
