# Rust-Database core, modelled in Dafny

This project models the small data-model crates and the text-command parser of
the Rust-Database repository. Each piece is its own module:

- **Table, Row and Column of `core`.** `Tables.Table` and `Rows.Row` are
  classes whose methods append in place. `Columns.Column` is a value whose
  foreign key is an owned tree of sub-columns.
- **The validating `Entry` constructor of `core`** (`Entries.NewEntry`). It
  returns an error where the source panics.
- **`DatabaseDummy` of `core`** (`Dummy.DatabaseDummy`). It is an append-only
  store of strings with a query for the strings that start with `a`.
- **The legacy key-value `Table` of the `server` crate** (`LegacyServer`). It
  offers a first-match lookup by key and the value lookup derived from it.
- **The command parser of the `sql_parser_client` crate** (`CommandParser`).
  Each parser turns one command line into the request record the client would
  send for CREATE TABLE, INSERT INTO, SELECT, UPDATE, RENAME TABLE, DROP TABLE
  or EXIT. When a command is malformed it returns the error the client reports
  instead.
  - The network call that follows each parse is not modelled.
  - The Rust standard-library string functions the parser uses are modelled
    in `Text`: `split_whitespace`, `trim`, `trim_matches`, `find`, `split`,
    `join`, `to_uppercase` and `position`.
  - `IntLiteral` models `parse::<i64>`.
  - `CanonicalCommands` writes each command in a canonical form. It proves
    that the parser reads each such text back as the request it spells out.

The parser keeps the source's unchecked slicing as a distinct error,
`SlicePanic`, which is not one of the reported errors. It arises at three
slicing sites:

- The column list of an INSERT, when the first `)` of the command comes before
  its first `(`.
- The value list of an INSERT, when the first `)` after `VALUES` comes before
  the first `(` after it. An example is `INSERT INTO t (a) VALUES )1(`.
- The SET list of an UPDATE, when its `WHERE` comes before its `SET`.

The lemmas `ParenthesizedListErrors` (for both INSERT lists) and
`UpdatePanicsIffWhereBeforeSet` characterise exactly when it happens.

The model follows the code also where it checks less than a database would be
expected to:

- `Column::new` never rejects a primary key that is nullable or not unique,
  although `Entry::new` rejects such a key.
- `Table::add_column` does not look for a column with the same key.
- `Table::add_row` neither rejects an over-long row nor pads a short one with
  nulls. It takes the row by value, so the model's table keeps the row's
  values, which later changes to the caller's `Row` object cannot reach.
- The `core` `Value` holds only a string. The parser has its own tagged value
  (null, integer, float, boolean, string).

## Model

| member | source | states |
|---|---|---|
| Columns.NewColumn | core/src/column.rs:13-27 | the key, the three flags and the whole foreign-key tree are stored as given; a primary key that is nullable or not unique is accepted too |
| Columns.KeysOfTree | core/src/column.rs:9 | the foreign key is a finite tree: every column in it contributes one key, its own first, and the tree is no deeper than it has columns |
| Rows.Row.constructor | core/src/row.rs:16-18 | the row holds exactly the given values |
| Rows.Row.AddValue | core/src/row.rs:25-30 | one value more, the new one last, every earlier value unchanged in place |
| Tables.KeyCountAppend | core/src/table.rs:22-24 | appending a column adds one to the number of columns with its key, whatever that number was |
| Tables.Table.constructor | core/src/table.rs:14-20 | the given name, no columns, no rows |
| Tables.Table.AddColumn | core/src/table.rs:22-24 | the column is appended, name and rows unchanged, and its key is counted once more even if already present |
| Tables.Table.AddRow | core/src/table.rs:26-28 | the row's values are appended as they are, whatever their number, name and columns unchanged; the table holds the values, not the caller's row |
| Entries.NewEntry | core/src/entry.rs:14-38 | fails with the null-or-empty error exactly for a primary key that is nullable or empty, with the uniqueness error exactly for a non-null, non-empty, non-unique primary key, and otherwise builds the entry from all six arguments, which then has a valid primary key |
| Entries.NewEntryRebuilds | core/src/entry.rs:22-37 | rebuilding an entry from its own fields succeeds, giving it back, exactly when its primary key is valid |
| Dummy.StartingWithA | core/src/lib.rs:17-21 | the filter result is an order-preserving subsequence of the data, holds only strings starting with 'a', keeps each such string as often as the data does, and never holds the empty string |
| Dummy.StartingWithAAppend | core/src/lib.rs:17-21 | the filter distributes over concatenation |
| Dummy.DatabaseDummy.Store | core/src/lib.rs:11-13 | appends the string; the query gains it at the end exactly when it starts with 'a' |
| Dummy.DatabaseDummy.GetData | core/src/lib.rs:15-22 | reads the store only; a string is in the result exactly when it is stored and starts with 'a'; the result is a subsequence of the store |
| LegacyServer.NewEntry | server/src/main.rs:31-37 | the four arguments are stored unchecked |
| LegacyServer.FirstWithKey | server/src/main.rs:12-14 | the index of the first entry with the key, None exactly when no entry has it |
| LegacyServer.GetEntryFromKey | server/src/main.rs:11-15 | the lowest-index entry with the key, None exactly when no entry has it |
| LegacyServer.GetValueFromKey | server/src/main.rs:17-21 | the value of exactly the entry the entry lookup finds, None when it finds none |
| LegacyServer.LaterDuplicateShadowed | server/src/main.rs:11-21 | an entry added after one with the same key is never found |
| Wrappers.Collect | sql_parser_client/src/main.rs:152-179 | collecting results succeeds exactly when every element does, with the values in order, and otherwise gives the error of the first failing element |
| IntLiteral.ParseI64 | sql_parser_client/src/main.rs:244 | a literal is accepted exactly when it is an optional `+` or `-` followed by one or more decimal digits and nothing else, denoting a number in the range of `i64`; the value is that number, negative exactly after `-` (so `+5`, `007` and `-0` are accepted, `1.5`, `5x`, `-` and the empty text are not) |
| IntLiteral.ParseShowInt | sql_parser_client/src/main.rs:244 | the decimal form of every `i64` parses back to it |
| Text.TrimMatchesSpec | sql_parser_client/src/main.rs:253 | `trim_matches` removes exactly the maximal leading and trailing runs of the given characters and keeps the middle |
| Text.TrimMatchesIdempotent | sql_parser_client/src/main.rs:326-328 | trimming twice removes nothing more |
| Text.TrimMatchesUnique | sql_parser_client/src/main.rs:386 | a core that neither starts nor ends with a trimmed character is what trimming it with any surrounding run of such characters gives |
| Text.FindFirst | sql_parser_client/src/main.rs:217-222 | `find` of a character gives its first occurrence |
| Text.FindStrFirst | sql_parser_client/src/main.rs:215 | `find` of a pattern gives its first occurrence, None only when it occurs nowhere |
| Text.FirstOccurrence | sql_parser_client/src/main.rs:215 | a pattern placed after text that does not contain it, and whose last character is not in the pattern, is found right there |
| Text.SplitStrSecondSpec | sql_parser_client/src/main.rs:215 | the piece after the first `VALUES` holds no further `VALUES`, no later `VALUES` of the text starts inside it, and it is all the text after the first `VALUES` or stops exactly where `VALUES` occurs again |
| Text.PositionIgnoringCaseFirst | sql_parser_client/src/main.rs:305-308 | `position` gives the first word that upper-cases to the keyword, None only when no word does |
| Text.SplitSpec | sql_parser_client/src/main.rs:151 | no piece of `split` holds the separator, and the pieces joined by it give the text back |
| Text.SplitCount | sql_parser_client/src/main.rs:379-380 | `split` gives one piece more than the text has separators |
| Text.SplitJoin | sql_parser_client/src/main.rs:303 | pieces without the separator, joined by it, split back into themselves |
| Text.SplitWhitespaceWords | sql_parser_client/src/main.rs:107 | every token of `split_whitespace` is non-empty and holds no whitespace |
| Text.SplitWhitespaceJoin | sql_parser_client/src/main.rs:107 | words joined by single spaces split back into themselves |
| Text.SplitWhitespaceCollapse | sql_parser_client/src/main.rs:107 | the tokens joined by single spaces are the text with leading and trailing whitespace dropped and every inner whitespace run made one space, per a character-by-character reference |
| Text.SplitWhitespaceUnique | sql_parser_client/src/main.rs:107 | the tokens are the only words that join to that collapsed text, so they are the maximal non-whitespace runs, in order |
| CommandParser.ParseCommand | sql_parser_client/src/main.rs:106-122 | an empty line is "Invalid command", an unknown first word "Unknown command", and each kind of command comes only from its keyword, matched in any case |
| CommandParser.DispatchCreate | sql_parser_client/src/main.rs:112-113 | a first word CREATE in any case makes the command exactly the CREATE TABLE parser's outcome: its request wrapped as the command, or its error unchanged |
| CommandParser.DispatchInsert | sql_parser_client/src/main.rs:112-114 | a first word INSERT in any case makes the command exactly the INSERT parser's outcome: its request wrapped as the command, or its error unchanged |
| CommandParser.DispatchSelect | sql_parser_client/src/main.rs:112-115 | a first word SELECT in any case makes the command exactly the SELECT parser's outcome: its request wrapped as the command, or its error unchanged |
| CommandParser.DispatchUpdate | sql_parser_client/src/main.rs:112-116 | a first word UPDATE in any case makes the command exactly the UPDATE parser's outcome: its request wrapped as the command, or its error unchanged |
| CommandParser.DispatchRename | sql_parser_client/src/main.rs:112-117 | a first word RENAME in any case makes the command exactly the RENAME TABLE parser's outcome: its request wrapped as the command, or its error unchanged |
| CommandParser.DispatchDrop | sql_parser_client/src/main.rs:112-118 | a first word DROP in any case makes the command exactly the DROP TABLE parser's outcome: its request wrapped as the command, or its error unchanged |
| CommandParser.DispatchExit | sql_parser_client/src/main.rs:112-119 | a first word EXIT in any case is the exit command, whatever follows |
| CommandParser.WhereConditionSpec | sql_parser_client/src/main.rs:315-333 | no WHERE gives no condition; fewer than three words after the first WHERE is the incomplete-WHERE error; otherwise the column is the next word and the value the words from the third on, joined and stripped of the given quotes |
| CommandParser.CreateColumnsPartSpec | sql_parser_client/src/main.rs:149 | the parenthesised part is absent exactly when there is no '(', and is otherwise the longest parenthesis-free run after the first '(' |
| CommandParser.ColumnRequestErrors | sql_parser_client/src/main.rs:154-176 | a column definition fails with the syntax error exactly when it has fewer than two words, with the type error exactly when its second word is not INT, FLOAT, STRING or BOOL in any case, and otherwise asks for a column keyed by its first word, every flag false and no foreign key |
| CommandParser.CreateTableCommandSpec | sql_parser_client/src/main.rs:141-193 | the usage error exactly when the second word is not TABLE or the name or the '(' is missing; otherwise success exactly when every definition succeeds, one request per definition in order, else the error of the first bad definition |
| CommandParser.ClassifyValue | sql_parser_client/src/main.rs:239-255 | exactly NULL is null; else an `i64` literal is an integer, taking precedence over the float reading; else a float literal is a float; else exactly true/false is a boolean; else a string stripped of both quote kinds |
| CommandParser.ParenthesizedListErrors | sql_parser_client/src/main.rs:217-232 | a missing '(' is reported before a missing ')', and the slice panics exactly when the first ')' precedes the first '(' |
| CommandParser.ParenthesizedListSpec | sql_parser_client/src/main.rs:217-233 | the list succeeds exactly when both parentheses occur in order, and is the trimmed comma-split text between the first of each |
| CommandParser.InsertRowValuesSpec | sql_parser_client/src/main.rs:217-258 | column-list errors first, then value-list errors, then the count mismatch; a row holds one classified value per listed value, in order, the column names dropped |
| CommandParser.InsertIntoCommandSpec | sql_parser_client/src/main.rs:211-272 | the usage error for a second word other than INTO, a missing table name or a missing VALUES; otherwise the row decides, and the request names the third word |
| CommandParser.SelectColumnWordsSpec | sql_parser_client/src/main.rs:292-298 | the column words are a prefix of the words after the first holding no FROM, stopping only at one |
| CommandParser.JoinWordsEmpty | sql_parser_client/src/main.rs:299-302 | the joined column words are empty only when there are none |
| CommandParser.SelectCommandSpec | sql_parser_client/src/main.rs:290-340 | missing columns, then missing FROM, then missing table name, then a bad WHERE; a request names the word after the first FROM, lists the comma-split columns (at least one) and the condition with both quote kinds stripped |
| CommandParser.UpdateItemSpec | sql_parser_client/src/main.rs:378-389 | an item is well formed exactly when it holds one '='; the column is the trimmed text before it and the value the trimmed text after it stripped of both quote kinds |
| CommandParser.UpdateAssignmentsSpec | sql_parser_client/src/main.rs:373-390 | the SET list succeeds exactly when every item does, one request per item in order, and otherwise fails with the item error |
| CommandParser.UpdateCommand | sql_parser_client/src/main.rs:365-416 | a successful update names the second word |
| CommandParser.UpdateSyntaxError | sql_parser_client/src/main.rs:365-430 | the usage error exactly when the second word or SET is missing |
| CommandParser.UpdatePanicsIffWhereBeforeSet | sql_parser_client/src/main.rs:369-373 | the slice panics exactly when a WHERE comes before SET |
| CommandParser.UpdateErrorOrder | sql_parser_client/src/main.rs:376-415 | a bad WHERE clause is reported before a bad SET item, and the command fails only for one of the two |
| CommandParser.UpdateResult | sql_parser_client/src/main.rs:363-416 | a successful update carries the WHERE condition with only `"` stripped and the SET items in order |
| CommandParser.RenameTableCommand | sql_parser_client/src/main.rs:449-461 | success exactly with at least five words, naming the third and fifth, the second and fourth unchecked; otherwise the usage error |
| CommandParser.DropTableCommand | sql_parser_client/src/main.rs:479-494 | success exactly when the second word is TABLE and a third exists, naming it; otherwise the usage error |
| CanonicalCommands.ParseDropTable | sql_parser_client/src/main.rs:479-494 | `DROP TABLE name` asks to drop `name` |
| CanonicalCommands.ParseRenameTable | sql_parser_client/src/main.rs:449-461 | `RENAME TABLE old TO new` asks to rename `old` to `new` |
| CanonicalCommands.DefinitionRequest | sql_parser_client/src/main.rs:154-176 | a definition `name TYPE` makes a request for `name` with every flag false and no foreign key |
| CanonicalCommands.CreateTableOfCanonical | sql_parser_client/src/main.rs:141-183 | the CREATE TABLE parser reads a canonical CREATE TABLE text back as its columns, in order, for any one-word table name without `(` (a `)` or a comma in it is read back too) |
| CanonicalCommands.ParseCreateTable | sql_parser_client/src/main.rs:106-183 | `CREATE TABLE t (name TYPE,...)` asks to create `t` with those columns, for any one-word `t` without `(` |
| CanonicalCommands.ClassifyShowInt | sql_parser_client/src/main.rs:242-245 | the decimal form of any `i64` is read as that integer, whatever the float reading says |
| CanonicalCommands.ClassifyQuoted | sql_parser_client/src/main.rs:248-253 | a text that neither starts nor ends with a quote, wrapped in quotes and not a float literal, is read as that text |
| CanonicalCommands.ListOf | sql_parser_client/src/main.rs:217-233 | the first parenthesised list of comma-joined items is those items, each non-empty, without whitespace at either end and without a parenthesis or comma, inner whitespace included |
| CanonicalCommands.InsertValuesPart | sql_parser_client/src/main.rs:215 | the text after the first VALUES of a canonical INSERT is its value list |
| CanonicalCommands.InsertOfCanonical | sql_parser_client/src/main.rs:211-262 | the INSERT parser reads a canonical INSERT text back as the row of its classified values; column names and values may hold inner whitespace, such as `'Alice Smith'` |
| CanonicalCommands.ParseInsert | sql_parser_client/src/main.rs:106-262 | `INSERT INTO t (c,...) VALUES (v,...)` asks to insert into `t` the row of the classified values, inner whitespace in names and values included |
| CanonicalCommands.WhereOfCanonical | sql_parser_client/src/main.rs:315-333 | a canonical WHERE clause after words without WHERE gives its condition |
| CanonicalCommands.SelectOfCanonical | sql_parser_client/src/main.rs:290-340 | the SELECT parser reads a canonical SELECT text back as its columns, table and condition |
| CanonicalCommands.ParseSelect | sql_parser_client/src/main.rs:106-340 | `SELECT c,... FROM t [WHERE c op v]` asks for those columns of `t` under that condition |
| CanonicalCommands.AssignmentRequest | sql_parser_client/src/main.rs:378-389 | an item `column=value` makes the update of `column` to `value` stripped of both quote kinds |
| CanonicalCommands.AssignmentsCollect | sql_parser_client/src/main.rs:376-390 | a canonical SET list makes its updates, in order |
| CanonicalCommands.UpdateOfCanonical | sql_parser_client/src/main.rs:363-416 | the UPDATE parser reads a canonical UPDATE text back as its table, condition and updates |
| CanonicalCommands.ParseUpdate | sql_parser_client/src/main.rs:106-416 | `UPDATE t SET c=v,... [WHERE c op v]` asks to update `t` with those items under that condition |

## Left out

- The HTTP wrappers in `core/src/client_functions.rs` and in the `client`
  crate. They post a request and log the status, with no logic of their own.
- The HTTP call at the end of every command handler, the client's read-eval
  loop, the greeting and syntax help, and logging. Each parser stops at the
  request it would send.
- `exit_command` ends the process. The model's dispatch returns an `Exit`
  command instead.
- Float literal recognition (`parse::<f64>`) is a parameter `isFloat` of the
  parser. The model states only that the integer reading takes precedence
  over it. A float value keeps its literal text, not an `f64`.
- Upper-casing, whitespace splitting and trimming are modelled on ASCII only.
  Whitespace here means space, tab, line feed, vertical tab, form feed and
  carriage return.
- `SlicePanic` stands for the panic of an out-of-range string or slice index.
  Its message is not the one Rust prints, and the process abort is not
  modelled.
- The serde derives (serialisation) on every struct. No round trip through
  JSON is claimed.
- `core/src/value.rs` and `core/src/request_types.rs` are transcribed as plain
  datatypes without contracts.
- The legacy server's borrowed `foreign_key` becomes an optional index of
  another entry. Nothing validates it, and lifetimes are not modelled.
- The server's `Table::new` has an empty body, so it has no counterpart.
- `DatabaseDummy` has no constructor in the source, so the class declares none.
- The query/mutation engine, the state manager, persistence and locking are
  not part of this model. They do not appear in the modelled files.
- CanonicalCommands.InsertOfCanonical: the round trip covers column names and
  values that are non-empty, hold no parenthesis, comma or text `VALUES`, and
  neither start nor end with whitespace; whitespace inside them is covered.
  A `)` ends the list early, a comma splits the item, `VALUES` moves where
  the value list is cut, and whitespace at either end is trimmed away, so such
  items do not read back as written. A `(` inside an item and empty items
  read back as written but are left out for brevity. The table name must be
  one word, because the source takes the third whitespace-separated word as
  the name. It must hold no `(` or `)`, because both lists are cut at the
  first of each in the text. It must not hold `VALUES`, because the value
  list is cut at the first `VALUES`. A comma in it is covered.
- CanonicalCommands.ParseInsert: covers the same texts as
  `InsertOfCanonical`, for the same reasons.
