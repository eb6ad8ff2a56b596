/** The request records of `core::request_types` as the command parser builds
    them, and the parser's own tagged value. */
module Requests {
  import opened Wrappers
  import opened Columns

  /** The parser's value: null, a 64-bit integer, a float (kept as the literal
      text that parsed as one), a boolean or a string. */
  datatype Value = Null | Int(i: int) | Float(literal: string) | Bool(b: bool) | Str(s: string)

  /** A row as the parser builds it: only the values, in order. */
  datatype Row = Row(values: seq<Value>)

  datatype CreateRequests = CreateRequests(name: string)

  datatype CreateTableRequests = CreateTableRequests(name: string, insertColumnRequests: seq<InsertColumnRequest>)

  datatype DropTableRequest = DropTableRequest(name: string)

  datatype RenameTableRequest = RenameTableRequest(currentName: string, newName: string)

  datatype InsertColumnRequest = InsertColumnRequest(
    tableName: string,
    key: string,
    primaryKey: bool,
    nonNull: bool,
    unique: bool,
    foreignKey: Option<seq<Column>>)

  datatype InsertRowRequest = InsertRowRequest(tableName: string, row: Row)

  /** `columns == None` stands for `SELECT *`. */
  datatype SelectRequest = SelectRequest(columns: Option<seq<string>>, tableName: string, condition: Option<Condition>)

  datatype Condition = Condition(column: string, value: string)

  datatype UpdateRequest = UpdateRequest(tableName: string, condition: Option<Condition>, updates: seq<UpdateColumnRequest>)

  datatype UpdateColumnRequest = UpdateColumnRequest(column: string, value: string)
}
