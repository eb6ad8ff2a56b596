/** The text-command parser of the `sql_parser_client` crate: it turns one line
    of the client's command language into the request record the client would
    send to the server. The network call that follows each parse is not part
    of this model: each command function here stops at the request. */
module CommandParser {
  import opened Wrappers
  import opened Text
  import opened IntLiteral
  import opened Requests

  /** The errors the client reports, each with the message the source gives it,
      and the panic of an out-of-range string slice, which the source does not
      catch. */
  datatype ParseError =
    | InvalidCommand
    | UnknownCommand
    | CreateSyntax
    | ColumnDefinitionSyntax
    | UnsupportedColumnType
    | InsertSyntax
    | MissingOpeningParenthesis
    | MissingClosingParenthesis
    | MissingValuesOpeningParenthesis
    | MissingValuesClosingParenthesis
    | ColumnCountMismatch
    | MissingColumns
    | MissingFrom
    | MissingTableName
    | IncompleteWhere
    | UpdateItemSyntax
    | UpdateSyntax
    | RenameSyntax
    | DropSyntax
    | SlicePanic
  {
    /** The panic is not a reported error. */
    predicate IsPanic() {
      SlicePanic?
    }

    /** The text of the error, as the source writes it. */
    function Message(): string {
      match this
      case InvalidCommand => "Invalid command"
      case UnknownCommand => "Unknown command"
      case CreateSyntax => "Syntax error: CREATE TABLE table_name (column_definitions)"
      case ColumnDefinitionSyntax => "Syntax error in column definition"
      case UnsupportedColumnType => "Unsupported column type"
      case InsertSyntax => "Syntax error: INSERT INTO table_name (columns) VALUES (values)"
      case MissingOpeningParenthesis => "Syntax error: Missing opening parenthesis"
      case MissingClosingParenthesis => "Syntax error: Missing closing parenthesis"
      case MissingValuesOpeningParenthesis => "Syntax error: Missing opening parenthesis for values"
      case MissingValuesClosingParenthesis => "Syntax error: Missing closing parenthesis for values"
      case ColumnCountMismatch => "Column count does not match value count"
      case MissingColumns => "Syntax error: Missing columns"
      case MissingFrom => "Syntax error: Missing FROM keyword"
      case MissingTableName => "Syntax error: Missing table name"
      case IncompleteWhere => "Syntax error: Incomplete WHERE clause"
      case UpdateItemSyntax => "Syntax error in UPDATE clause"
      case UpdateSyntax => "Syntax error: UPDATE table_name SET column=value[,column2=value2] [WHERE condition]"
      case RenameSyntax => "Syntax error: RENAME TABLE old_table_name TO new_table_name"
      case DropSyntax => "Syntax error: DROP TABLE table_name"
      case SlicePanic => "panic: a slice starts after its end"
    }
  }

  /** What a command line asks for. `Exit` ends the client. */
  datatype Command =
    | CreateTable(createTable: CreateTableRequests)
    | InsertRow(insertRow: InsertRowRequest)
    | Select(select: SelectRequest)
    | Update(update: UpdateRequest)
    | RenameTable(renameTable: RenameTableRequest)
    | DropTable(dropTable: DropTableRequest)
    | Exit
  {
    /** The upper-cased first word that selects this kind of command. */
    function Keyword(): string {
      match this
      case CreateTable(_) => "CREATE"
      case InsertRow(_) => "INSERT"
      case Select(_) => "SELECT"
      case Update(_) => "UPDATE"
      case RenameTable(_) => "RENAME"
      case DropTable(_) => "DROP"
      case Exit => "EXIT"
    }
  }

  const KEYWORDS: set<string> := {"CREATE", "INSERT", "SELECT", "UPDATE", "RENAME", "DROP", "EXIT"}

  const COLUMN_TYPES: set<string> := {"INT", "FLOAT", "STRING", "BOOL"}


  // ---------------------------------------------------------------------------
  // Dispatch

  /** `parse_and_execute_command` without the network call: the first
      whitespace-separated word, upper-cased, selects the command, so keywords
      are matched case-insensitively. `isFloat` is `str::parse::<f64>` succeeding. */
  function ParseCommand(command: string, isFloat: string -> bool): (r: Result<Command, ParseError>)
    ensures SplitWhitespace(command) == [] ==> r == Failure(InvalidCommand)
    ensures SplitWhitespace(command) != [] && Upper(SplitWhitespace(command)[0]) !in KEYWORDS ==>
      r == Failure(UnknownCommand)
    ensures r.Success? ==> SplitWhitespace(command) != []
    ensures r.Success? && r.value.CreateTable? ==> Upper(SplitWhitespace(command)[0]) == "CREATE"
    ensures r.Success? && r.value.InsertRow? ==> Upper(SplitWhitespace(command)[0]) == "INSERT"
    ensures r.Success? && r.value.Select? ==> Upper(SplitWhitespace(command)[0]) == "SELECT"
    ensures r.Success? && r.value.Update? ==> Upper(SplitWhitespace(command)[0]) == "UPDATE"
    ensures r.Success? && r.value.RenameTable? ==> Upper(SplitWhitespace(command)[0]) == "RENAME"
    ensures r.Success? && r.value.DropTable? ==> Upper(SplitWhitespace(command)[0]) == "DROP"
    ensures r.Success? && r.value.Exit? ==> Upper(SplitWhitespace(command)[0]) == "EXIT"
  {
    var parts := SplitWhitespace(command);
    if parts == [] then Failure(InvalidCommand)
    else
      var keyword := Upper(parts[0]);
      if keyword == "CREATE" then
        var request :- CreateTableCommand(parts, command);
        Success(CreateTable(request))
      else if keyword == "INSERT" then
        var request :- InsertIntoCommand(command, isFloat);
        Success(InsertRow(request))
      else if keyword == "SELECT" then
        var request :- SelectCommand(command);
        Success(Select(request))
      else if keyword == "UPDATE" then
        var request :- UpdateCommand(command);
        Success(Update(request))
      else if keyword == "RENAME" then
        var request :- RenameTableCommand(parts);
        Success(RenameTable(request))
      else if keyword == "DROP" then
        var request :- DropTableCommand(parts);
        Success(DropTable(request))
      else if keyword == "EXIT" then
        Success(Exit)
      else
        Failure(UnknownCommand)
  }

  // The first word selects the command function, and the command is exactly
  // what that function gives: its request wrapped as a command, or its error
  // passed on unchanged. One lemma per keyword keeps each of these facts small.

  lemma DispatchCreate(command: string, isFloat: string -> bool)
    requires SplitWhitespace(command) != [] && Upper(SplitWhitespace(command)[0]) == "CREATE"
    ensures var sub := CreateTableCommand(SplitWhitespace(command), command);
      ParseCommand(command, isFloat) == if sub.Success? then Success(CreateTable(sub.value)) else Failure(sub.error)
  {
  }

  lemma DispatchInsert(command: string, isFloat: string -> bool)
    requires SplitWhitespace(command) != [] && Upper(SplitWhitespace(command)[0]) == "INSERT"
    ensures var sub := InsertIntoCommand(command, isFloat);
      ParseCommand(command, isFloat) == if sub.Success? then Success(InsertRow(sub.value)) else Failure(sub.error)
  {
    assert "INSERT" != "CREATE";
  }

  lemma DispatchSelect(command: string, isFloat: string -> bool)
    requires SplitWhitespace(command) != [] && Upper(SplitWhitespace(command)[0]) == "SELECT"
    ensures var sub := SelectCommand(command);
      ParseCommand(command, isFloat) == if sub.Success? then Success(Select(sub.value)) else Failure(sub.error)
  {
    assert "SELECT" != "CREATE" && "SELECT" != "INSERT";
  }

  lemma DispatchUpdate(command: string, isFloat: string -> bool)
    requires SplitWhitespace(command) != [] && Upper(SplitWhitespace(command)[0]) == "UPDATE"
    ensures var sub := UpdateCommand(command);
      ParseCommand(command, isFloat) == if sub.Success? then Success(Update(sub.value)) else Failure(sub.error)
  {
    assert "UPDATE" != "CREATE" && "UPDATE" != "INSERT" && "UPDATE" != "SELECT";
  }

  lemma DispatchRename(command: string, isFloat: string -> bool)
    requires SplitWhitespace(command) != [] && Upper(SplitWhitespace(command)[0]) == "RENAME"
    ensures var sub := RenameTableCommand(SplitWhitespace(command));
      ParseCommand(command, isFloat) == if sub.Success? then Success(RenameTable(sub.value)) else Failure(sub.error)
  {
    assert "RENAME" != "CREATE" && "RENAME" != "INSERT" && "RENAME" != "SELECT" && "RENAME" != "UPDATE";
  }

  lemma DispatchDrop(command: string, isFloat: string -> bool)
    requires SplitWhitespace(command) != [] && Upper(SplitWhitespace(command)[0]) == "DROP"
    ensures var sub := DropTableCommand(SplitWhitespace(command));
      ParseCommand(command, isFloat) == if sub.Success? then Success(DropTable(sub.value)) else Failure(sub.error)
  {
    assert "DROP" != "CREATE" && "DROP" != "INSERT" && "DROP" != "SELECT" && "DROP" != "UPDATE" && "DROP" != "RENAME";
  }

  /** EXIT in any case is the exit command, whatever follows it. */
  lemma DispatchExit(command: string, isFloat: string -> bool)
    requires SplitWhitespace(command) != [] && Upper(SplitWhitespace(command)[0]) == "EXIT"
    ensures ParseCommand(command, isFloat) == Success(Exit)
  {
    assert "EXIT" != "CREATE" && "EXIT" != "INSERT" && "EXIT" != "SELECT" && "EXIT" != "UPDATE" && "EXIT" != "RENAME" && "EXIT" != "DROP";
  }

  // ---------------------------------------------------------------------------
  // Shared pieces

  /** `.map(|s| s.trim())`. */
  function TrimAll(xs: seq<string>): (ys: seq<string>)
    ensures |ys| == |xs| && forall i :: 0 <= i < |xs| ==> ys[i] == Trim(xs[i])
  {
    seq(|xs|, i requires 0 <= i < |xs| => Trim(xs[i]))
  }

  /** The optional WHERE clause shared by SELECT and UPDATE. Without a WHERE
      word there is no condition. Otherwise at least three words must follow it:
      the column, an operator that is ignored, and the value, which is the rest
      of the words joined by single spaces with the characters `strip` accepts
      trimmed from both ends. */
  function WhereCondition(parts: seq<string>, strip: CharClass): Result<Option<Condition>, ParseError> {
    match PositionIgnoringCase(parts, "WHERE")
    case None => Success(None)
    case Some(w) =>
      var whereParts := parts[w + 1..];
      if |whereParts| < 3 then Failure(IncompleteWhere)
      else Success(Some(Condition(whereParts[0], TrimMatches(Join(whereParts[2..], " "), strip))))
  }

  /** Without `WHERE` there is no condition; with it, fewer than three words
      after the first `WHERE` is the only error, and otherwise the column is the
      word after it and the value the words from the third on. */
  lemma WhereConditionSpec(parts: seq<string>, strip: CharClass)
    ensures var r := WhereCondition(parts, strip);
      && (PositionIgnoringCase(parts, "WHERE").None? ==> r == Success(None))
      && (PositionIgnoringCase(parts, "WHERE").Some? ==>
            var w := PositionIgnoringCase(parts, "WHERE").value;
            if |parts| - (w + 1) < 3 then r == Failure(IncompleteWhere)
            else r == Success(Some(Condition(parts[w + 1], TrimMatches(Join(parts[w + 3..], " "), strip)))))
  {
    var position := PositionIgnoringCase(parts, "WHERE");
    if position.Some? {
      WhereConditionAt(parts, strip, position.value);
    }
  }

  lemma WhereConditionAt(parts: seq<string>, strip: CharClass, w: nat)
    requires PositionIgnoringCase(parts, "WHERE") == Some(w)
    ensures |parts| < w + 4 ==> WhereCondition(parts, strip) == Failure(IncompleteWhere)
    ensures |parts| >= w + 4 ==>
      WhereCondition(parts, strip) == Success(Some(Condition(parts[w + 1], TrimMatches(Join(parts[w + 3..], " "), strip))))
  {
    var whereParts := parts[w + 1..];
    assert WhereCondition(parts, strip) ==
      if |whereParts| < 3 then Failure(IncompleteWhere)
      else Success(Some(Condition(whereParts[0], TrimMatches(Join(whereParts[2..], " "), strip))));
    if |parts| >= w + 4 {
      assert whereParts[0] == parts[w + 1];
      assert whereParts[2..] == parts[w + 3..];
    }
  }

  // ---------------------------------------------------------------------------
  // CREATE TABLE name (column TYPE, ...)

  /** `command.split('(').nth(1).and_then(|s| s.split(')').next())`: the text
      after the first '(' up to the next ')' or '('. */
  function CreateColumnsPart(command: string): Option<string> {
    var pieces := Split(command, '(');
    if |pieces| < 2 then None
    else Some(Split(pieces[1], ')')[0])
  }

  /** `v` is the text of `s` that starts at `start` and runs up to the next
      parenthesis of either kind, or to the end. */
  predicate ParenthesisFreeRun(s: string, start: nat, v: string) {
    && start + |v| <= |s| && v == s[start..start + |v|]
    && '(' !in v && ')' !in v
    && (start + |v| == |s| || s[start + |v|] == '(' || s[start + |v|] == ')')
  }

  /** There is a columns part exactly when the command holds a '('; it is the
      text that starts right after the first '(' and runs up to the next
      parenthesis of either kind, or to the end. */
  lemma CreateColumnsPartSpec(command: string)
    ensures CreateColumnsPart(command).None? <==> '(' !in command
    ensures CreateColumnsPart(command).Some? ==>
      ParenthesisFreeRun(command, Find(command, '(').value + 1, CreateColumnsPart(command).value)
  {
    CreateColumnsPartPresent(command);
    if '(' in command {
      CreateColumnsPartRun(command);
    }
  }

  lemma CreateColumnsPartRun(command: string)
    requires '(' in command
    ensures CreateColumnsPart(command).Some?
    ensures ParenthesisFreeRun(command, Find(command, '(').value + 1, CreateColumnsPart(command).value)
  {
    SplitSecondPiece(command, '(');
    assert CreateColumnsPart(command) == Some(Split(Split(command[Find(command, '(').value + 1..], '(')[0], ')')[0]);
    RunAfterOpening(command, Find(command, '(').value + 1, Split(command[Find(command, '(').value + 1..], '(')[0],
      Split(Split(command[Find(command, '(').value + 1..], '(')[0], ')')[0]);
  }

  /** The piece up to ')' of the piece up to '(' of the text from `start` on. */
  lemma RunAfterOpening(command: string, start: nat, q: string, v: string)
    requires start <= |command|
    requires q == Split(command[start..], '(')[0]
    requires v == Split(q, ')')[0]
    ensures ParenthesisFreeRun(command, start, v)
  {
    SplitHeadAt(command, start, '(');
    SplitHead(q, ')');
    RunOfPieces(command, start, q, v);
  }

  lemma CreateColumnsPartPresent(command: string)
    ensures CreateColumnsPart(command).None? <==> '(' !in command
  {
    SplitHead(command, '(');
  }

  /** A piece up to ')' of a piece up to '(' is a parenthesis-free run. */
  lemma RunOfPieces(s: string, start: nat, q: string, v: string)
    requires start + |q| <= |s| && q == s[start..start + |q|]
    requires '(' !in q && (start + |q| < |s| ==> s[start + |q|] == '(')
    requires |v| <= |q| && v == q[..|v|]
    requires ')' !in v && (|v| < |q| ==> q[|v|] == ')')
    ensures ParenthesisFreeRun(s, start, v)
  {
    if |v| < |q| {
      assert s[start + |v|] == q[|v|];
    }
  }

  /** One column definition: at least two words, the second a supported type
      in any case. The type is checked and then dropped; every flag is false and
      there is no foreign key. */
  function ColumnRequest(tableName: string, definition: string): Result<InsertColumnRequest, ParseError> {
    var words := SplitWhitespace(definition);
    if |words| < 2 then Failure(ColumnDefinitionSyntax)
    else if Upper(words[1]) !in COLUMN_TYPES then Failure(UnsupportedColumnType)
    else Success(InsertColumnRequest(tableName, words[0], false, false, false, None))
  }

  /** A definition fails with the syntax error exactly when it has fewer than
      two words, with the type error exactly when its second word is not a
      supported type in any case, and for no other reason; a good definition
      asks for a column keyed by its first word, every flag false and no
      foreign key. */
  lemma ColumnRequestErrors(tableName: string, definition: string)
    ensures var r := ColumnRequest(tableName, definition);
      var words := SplitWhitespace(definition);
      && (r == Failure(ColumnDefinitionSyntax) <==> |words| < 2)
      && (r == Failure(UnsupportedColumnType) <==> |words| >= 2 && Upper(words[1]) !in COLUMN_TYPES)
      && (r.Success? <==> |words| >= 2 && Upper(words[1]) in COLUMN_TYPES)
      && (r.Success? ==> r.value == InsertColumnRequest(tableName, words[0], false, false, false, None))
  {
  }

  /** The requests of all definitions, or the error of the first bad one. */
  function CollectColumnRequests(tableName: string, defs: seq<string>): Result<seq<InsertColumnRequest>, ParseError> {
    Collect(defs, d => ColumnRequest(tableName, d))
  }

  /** The column definitions of a CREATE TABLE command: the comma-separated,
      trimmed pieces of the parenthesised part. */
  function ColumnDefinitions(columnsPart: string): seq<string> {
    TrimAll(Split(columnsPart, ','))
  }

  /** `create_table_command` without the network call. The second word must be
      exactly `TABLE` and a third word (the table name) and a '(' must exist;
      the column requests then come out in definition order, the first bad
      definition failing the whole command. */
  function CreateTableCommand(parts: seq<string>, command: string): Result<CreateTableRequests, ParseError> {
    if |parts| < 2 || parts[1] != "TABLE" then Failure(CreateSyntax)
    else
      match CreateColumnsPart(command)
      case None => Failure(CreateSyntax)
      case Some(columnsPart) =>
        if |parts| < 3 then Failure(CreateSyntax)
        else
          var defs := ColumnDefinitions(columnsPart);
          var requests :- CollectColumnRequests(parts[2], defs);
          Success(CreateTableRequests(parts[2], requests))
  }

  /** The usage error is reported exactly when the second word is not `TABLE`
      or the name or the '(' is missing. Otherwise the command succeeds exactly
      when every definition does, with one request per definition in order, and
      fails with the error of the first bad definition. */
  lemma CreateTableCommandSpec(parts: seq<string>, command: string)
    ensures var r := CreateTableCommand(parts, command);
      r == Failure(CreateSyntax) <==> (|parts| < 3 || parts[1] != "TABLE" || '(' !in command)
    ensures var r := CreateTableCommand(parts, command);
      r.Success? ==>
        && |parts| >= 3 && parts[1] == "TABLE" && CreateColumnsPart(command).Some?
        && r.value.name == parts[2]
        && var defs := ColumnDefinitions(CreateColumnsPart(command).value);
        && |r.value.insertColumnRequests| == |defs|
        && forall i :: 0 <= i < |defs| ==>
             Success(r.value.insertColumnRequests[i]) == ColumnRequest(parts[2], defs[i])
    ensures var r := CreateTableCommand(parts, command);
      |parts| >= 3 && parts[1] == "TABLE" && CreateColumnsPart(command).Some? ==>
        var defs := ColumnDefinitions(CreateColumnsPart(command).value);
        && (r.Success? <==> forall i :: 0 <= i < |defs| ==> ColumnRequest(parts[2], defs[i]).Success?)
        && (r.Failure? ==>
              exists i :: 0 <= i < |defs| && ColumnRequest(parts[2], defs[i]) == Failure(r.error) &&
                forall j :: 0 <= j < i ==> ColumnRequest(parts[2], defs[j]).Success?)
  {
    CreateColumnsPartPresent(command);
    if |parts| >= 3 && parts[1] == "TABLE" && CreateColumnsPart(command).Some? {
      var defs := ColumnDefinitions(CreateColumnsPart(command).value);
      var collected := CollectColumnRequests(parts[2], defs);
      if collected.Failure? {
        var i :| 0 <= i < |defs| && ColumnRequest(parts[2], defs[i]) == Failure(collected.error);
        ColumnRequestErrors(parts[2], defs[i]);
      }
    }
  }

  /** A well-formed head and definitions that all succeed make the request. */
  lemma CreateTableCommandOf(parts: seq<string>, command: string, columnsPart: string, requests: seq<InsertColumnRequest>)
    requires |parts| >= 3 && parts[1] == "TABLE"
    requires CreateColumnsPart(command) == Some(columnsPart)
    requires CollectColumnRequests(parts[2], ColumnDefinitions(columnsPart)) == Success(requests)
    ensures CreateTableCommand(parts, command) == Success(CreateTableRequests(parts[2], requests))
  {
  }

  // ---------------------------------------------------------------------------
  // INSERT INTO name (columns) VALUES (values)

  /** How a value of an INSERT is read: exactly `NULL` is null; otherwise an
      `i64` literal is an integer, and the integer reading wins over the float
      one; otherwise a float literal is a float; otherwise exactly `true` or
      `false` is a boolean; anything else is a string with every leading and
      trailing `"` and `'` removed. */
  function ClassifyValue(v: string, isFloat: string -> bool): (r: Value)
    ensures r == Null <==> v == "NULL"
    ensures r.Int? <==> v != "NULL" && ParseI64(v).Some?
    ensures r.Int? ==> ParseI64(v) == Some(r.i) && I64_MIN <= r.i <= I64_MAX
    ensures r.Float? <==> v != "NULL" && ParseI64(v).None? && isFloat(v)
    ensures r.Float? ==> r.literal == v
    ensures r.Bool? <==> v != "NULL" && ParseI64(v).None? && !isFloat(v) && (v == "true" || v == "false")
    ensures r.Bool? ==> r.b == (v == "true")
    ensures r.Str? <==> v != "NULL" && ParseI64(v).None? && !isFloat(v) && v != "true" && v != "false"
    ensures r.Str? ==> r.s == TrimMatches(v, Quotes)
  {
    if v == "NULL" then Null
    else
      match ParseI64(v)
      case Some(n) => Int(n)
      case None =>
        if isFloat(v) then Float(v)
        else if v == "true" then Bool(true)
        else if v == "false" then Bool(false)
        else Str(TrimMatches(v, Quotes))
  }

  /** The items of a list: trimmed, split on commas, each piece trimmed. */
  function ListItems(inner: string): seq<string> {
    TrimAll(Split(Trim(inner), ','))
  }

  /** The list between the first '(' and the first ')' of `s`, trimmed, split on
      commas, each piece trimmed. The source slices the string between the two
      and panics when the ')' comes first. */
  function ParenthesizedList(s: string, missingOpen: ParseError, missingClose: ParseError): Result<seq<string>, ParseError> {
    match Find(s, '(')
    case None => Failure(missingOpen)
    case Some(open) =>
      match Find(s, ')')
      case None => Failure(missingClose)
      case Some(close) =>
        if close < open + 1 then Failure(SlicePanic)
        else Success(ListItems(s[open + 1..close]))
  }

  /** A missing '(' is reported before a missing ')', and the source panics
      exactly when the first ')' comes before the first '('. */
  lemma ParenthesizedListErrors(s: string, missingOpen: ParseError, missingClose: ParseError)
    requires !missingOpen.IsPanic() && !missingClose.IsPanic()
    ensures var r := ParenthesizedList(s, missingOpen, missingClose);
      && ('(' !in s ==> r == Failure(missingOpen))
      && ('(' in s && ')' !in s ==> r == Failure(missingClose))
      && (r.Failure? && r.error.SlicePanic? <==> '(' in s && ')' in s && Find(s, ')').value < Find(s, '(').value)
  {
  }

  /** The list succeeds exactly when both parentheses occur, the first '('
      before the first ')', and it is what lies between them. */
  lemma ParenthesizedListSpec(s: string, missingOpen: ParseError, missingClose: ParseError)
    ensures ParenthesizedList(s, missingOpen, missingClose).Success? <==>
      '(' in s && ')' in s && Find(s, '(').value < Find(s, ')').value
    ensures ParenthesizedList(s, missingOpen, missingClose).Success? ==>
      ParenthesizedList(s, missingOpen, missingClose).value == ListItems(s[Find(s, '(').value + 1..Find(s, ')').value])
  {
    ParenthesizedListSucceeds(s, missingOpen, missingClose);
    ParenthesizedListValue(s, missingOpen, missingClose);
  }

  lemma ParenthesizedListSucceeds(s: string, missingOpen: ParseError, missingClose: ParseError)
    ensures ParenthesizedList(s, missingOpen, missingClose).Success? <==>
      '(' in s && ')' in s && Find(s, '(').value < Find(s, ')').value
  {
  }

  lemma ParenthesizedListValue(s: string, missingOpen: ParseError, missingClose: ParseError)
    ensures ParenthesizedList(s, missingOpen, missingClose).Success? ==>
      ParenthesizedList(s, missingOpen, missingClose).value == ListItems(s[Find(s, '(').value + 1..Find(s, ')').value])
  {
    if '(' in s && ')' in s && Find(s, '(').value < Find(s, ')').value {
      ParenthesizedListAt(s, Find(s, '(').value, Find(s, ')').value, missingOpen, missingClose);
    }
  }

  /** The list between a first '(' and a first ')' after it. */
  lemma ParenthesizedListAt(s: string, open: nat, close: nat, missingOpen: ParseError, missingClose: ParseError)
    requires Find(s, '(') == Some(open) && Find(s, ')') == Some(close) && open < close
    ensures ParenthesizedList(s, missingOpen, missingClose) == Success(ListItems(s[open + 1..close]))
  {
    assert ParenthesizedList(s, missingOpen, missingClose) ==
      Success(ListItems(s[Find(s, '(').value + 1..Find(s, ')').value]));
  }

  /** The row of an INSERT: the column list is the first parenthesised list of
      the command, the value list the first one of `valuesPart`; a missing
      parenthesis of the column list is reported first, and the lists must have
      the same length. The row holds only the values, each read by
      `ClassifyValue`, in order; the column names are dropped. */
  function InsertRowValues(command: string, valuesPart: string, isFloat: string -> bool): Result<Row, ParseError> {
    var columns :- ParenthesizedList(command, MissingOpeningParenthesis, MissingClosingParenthesis);
    var values :- ParenthesizedList(valuesPart, MissingValuesOpeningParenthesis, MissingValuesClosingParenthesis);
    if |columns| != |values| then Failure(ColumnCountMismatch)
    else Success(ClassifyRow(values, isFloat))
  }

  /** One classified value per listed value, in order. */
  function ClassifyRow(values: seq<string>, isFloat: string -> bool): Row {
    Row(seq(|values|, i requires 0 <= i < |values| => ClassifyValue(values[i], isFloat)))
  }

  /** Errors of the column list come first, then those of the value list, then
      a length mismatch; a row holds one classified value per listed value. */
  lemma InsertRowValuesSpec(command: string, valuesPart: string, isFloat: string -> bool)
    ensures var r := InsertRowValues(command, valuesPart, isFloat);
      var columns := ParenthesizedList(command, MissingOpeningParenthesis, MissingClosingParenthesis);
      columns.Failure? ==> r == Failure(columns.error)
    ensures var r := InsertRowValues(command, valuesPart, isFloat);
      var columns := ParenthesizedList(command, MissingOpeningParenthesis, MissingClosingParenthesis);
      var values := ParenthesizedList(valuesPart, MissingValuesOpeningParenthesis, MissingValuesClosingParenthesis);
      columns.Success? && values.Failure? ==> r == Failure(values.error)
    ensures var r := InsertRowValues(command, valuesPart, isFloat);
      var columns := ParenthesizedList(command, MissingOpeningParenthesis, MissingClosingParenthesis);
      var values := ParenthesizedList(valuesPart, MissingValuesOpeningParenthesis, MissingValuesClosingParenthesis);
      columns.Success? && values.Success? && |columns.value| != |values.value| ==> r == Failure(ColumnCountMismatch)
    ensures var r := InsertRowValues(command, valuesPart, isFloat);
      r.Success? ==>
      var columns := ParenthesizedList(command, MissingOpeningParenthesis, MissingClosingParenthesis);
      var values := ParenthesizedList(valuesPart, MissingValuesOpeningParenthesis, MissingValuesClosingParenthesis);
      && columns.Success? && values.Success?
      && |r.value.values| == |columns.value| == |values.value|
      && forall i :: 0 <= i < |values.value| ==> r.value.values[i] == ClassifyValue(values.value[i], isFloat)
  {
  }

  /** `insert_into_command` without the network call. The second word must be
      exactly `INTO`, and a third word (the table name) and the text `VALUES` must
      exist; the values are those after the first `VALUES`, up to the next one. */
  function InsertIntoCommand(command: string, isFloat: string -> bool): Result<InsertRowRequest, ParseError> {
    var parts := SplitWhitespace(command);
    if |parts| < 2 || parts[1] != "INTO" then Failure(InsertSyntax)
    else
      match SplitStrSecond(command, "VALUES")
      case None => Failure(InsertSyntax)
      case Some(valuesPart) =>
        if |parts| < 3 then Failure(InsertSyntax)
        else
          var row :- InsertRowValues(command, valuesPart, isFloat);
          Success(InsertRowRequest(parts[2], row))
  }

  /** The usage error covers a second word other than `INTO`, a missing table
      name and a missing `VALUES`; otherwise the row decides the result. */
  lemma InsertIntoCommandSpec(command: string, isFloat: string -> bool)
    ensures var parts := SplitWhitespace(command);
      (|parts| < 3 || parts[1] != "INTO" || FindStr(command, "VALUES").None?) ==>
        InsertIntoCommand(command, isFloat) == Failure(InsertSyntax)
    ensures var parts := SplitWhitespace(command);
      |parts| >= 3 && parts[1] == "INTO" && SplitStrSecond(command, "VALUES").Some? ==>
        match InsertRowValues(command, SplitStrSecond(command, "VALUES").value, isFloat)
        case Failure(e) => InsertIntoCommand(command, isFloat) == Failure(e)
        case Success(row) => InsertIntoCommand(command, isFloat) == Success(InsertRowRequest(parts[2], row))
  {
  }

  /** `INTO` as the second word, a `VALUES` and two lists of the same length make the request. */
  lemma InsertIntoCommandOf(command: string, valuesPart: string, columns: seq<string>, values: seq<string>,
                            isFloat: string -> bool)
    requires |SplitWhitespace(command)| >= 3 && SplitWhitespace(command)[1] == "INTO"
    requires SplitStrSecond(command, "VALUES") == Some(valuesPart)
    requires ParenthesizedList(command, MissingOpeningParenthesis, MissingClosingParenthesis) == Success(columns)
    requires ParenthesizedList(valuesPart, MissingValuesOpeningParenthesis, MissingValuesClosingParenthesis) == Success(values)
    requires |columns| == |values|
    ensures InsertIntoCommand(command, isFloat) ==
      Success(InsertRowRequest(SplitWhitespace(command)[2], ClassifyRow(values, isFloat)))
  {
  }

  // ---------------------------------------------------------------------------
  // SELECT columns FROM name [WHERE column op value]

  /** The words after the first one and before the first `FROM` in any case. */
  function SelectColumnWords(parts: seq<string>): seq<string> {
    var rest := if parts == [] then [] else parts[1..];
    match PositionIgnoringCase(rest, "FROM")
    case None => rest
    case Some(k) => rest[..k]
  }

  /** `take_while(|w| w.to_uppercase() != "FROM")` on the words after the
      first: a prefix of them holding no `FROM`, which stops only at one. */
  lemma SelectColumnWordsSpec(parts: seq<string>)
    ensures var ws := SelectColumnWords(parts);
      && (parts == [] ==> ws == [])
      && (parts != [] ==> ws <= parts[1..])
      && (forall i :: 0 <= i < |ws| ==> Upper(ws[i]) != "FROM")
      && (parts != [] && |ws| < |parts| - 1 ==> Upper(parts[|ws| + 1]) == "FROM")
  {
    var rest := if parts == [] then [] else parts[1..];
    PositionIgnoringCaseFirst(rest, "FROM");
  }

  /** `select_command` without the network call. The columns are the words
      before `FROM`, joined, split on commas and trimmed; there must be at least
      one such word. `columns` is always present, so `*` is a one-element list.
      The table is the word after the first `FROM`. Both quote kinds are trimmed
      from the condition value. */
  function SelectCommand(command: string): Result<SelectRequest, ParseError> {
    var parts := SplitWhitespace(command);
    var columnsPart := Join(SelectColumnWords(parts), " ");
    if columnsPart == [] then Failure(MissingColumns)
    else
      var columns := TrimAll(Split(columnsPart, ','));
      match PositionIgnoringCase(parts, "FROM")
      case None => Failure(MissingFrom)
      case Some(from) =>
        if from + 1 >= |parts| then Failure(MissingTableName)
        else
          var condition :- WhereCondition(parts, Quotes);
          Success(SelectRequest(Some(columns), parts[from + 1], condition))
  }

  /** No column word is `MissingColumns`, then no `FROM` is `MissingFrom`, then
      no word after it is `MissingTableName`, then a bad WHERE clause; a
      request names the table after the first `FROM` and lists the columns. */
  lemma SelectCommandSpec(command: string)
    ensures var parts := SplitWhitespace(command);
      SelectColumnWords(parts) == [] ==> SelectCommand(command) == Failure(MissingColumns)
    ensures var parts := SplitWhitespace(command);
      SelectColumnWords(parts) != [] && PositionIgnoringCase(parts, "FROM").None? ==>
        SelectCommand(command) == Failure(MissingFrom)
    ensures var parts := SplitWhitespace(command);
      SelectColumnWords(parts) != [] && PositionIgnoringCase(parts, "FROM").Some? &&
      PositionIgnoringCase(parts, "FROM").value + 1 >= |parts| ==>
        SelectCommand(command) == Failure(MissingTableName)
    ensures var parts := SplitWhitespace(command);
      var r := SelectCommand(command);
      SelectColumnWords(parts) != [] && PositionIgnoringCase(parts, "FROM").Some? &&
      PositionIgnoringCase(parts, "FROM").value + 1 < |parts| ==>
        && (WhereCondition(parts, Quotes).Failure? ==> r == Failure(WhereCondition(parts, Quotes).error))
        && (WhereCondition(parts, Quotes).Success? ==>
              r == Success(SelectRequest(
                Some(TrimAll(Split(Join(SelectColumnWords(parts), " "), ','))),
                parts[PositionIgnoringCase(parts, "FROM").value + 1],
                WhereCondition(parts, Quotes).value)))
    ensures SelectCommand(command).Success? ==> |SelectCommand(command).value.columns.value| >= 1
  {
    var parts := SplitWhitespace(command);
    SplitWhitespaceWords(command);
    SelectColumnWordsSpec(parts);
    JoinWordsEmpty(SelectColumnWords(parts));
  }

  /** Joining words gives the empty string only when there are none. */
  lemma JoinWordsEmpty(ws: seq<string>)
    requires forall i :: 0 <= i < |ws| ==> IsWord(ws[i])
    ensures Join(ws, " ") == [] <==> ws == []
  {
    if |ws| > 1 {
      assert Join(ws, " ")[0] == ws[0][0];
    }
  }

  // ---------------------------------------------------------------------------
  // UPDATE name SET column=value, ... [WHERE column op value]

  /** One `column=value` item: it must split on '=' into exactly two pieces;
      both are trimmed and both quote kinds are trimmed from the value. */
  function UpdateItem(item: string): Result<UpdateColumnRequest, ParseError> {
    var kv := TrimAll(Split(item, '='));
    if |kv| != 2 then Failure(UpdateItemSyntax)
    else Success(UpdateColumnRequest(kv[0], TrimMatches(kv[1], Quotes)))
  }

  /** An item is well formed exactly when it holds one '='; the column is the
      trimmed text before it and the value the trimmed text after it. */
  lemma UpdateItemSpec(item: string)
    ensures var kv := Split(item, '=');
      var r := UpdateItem(item);
      && (|kv| != 2 <==> r.Failure?)
      && (r.Success? <==> multiset(item)['='] == 1)
      && (r.Failure? ==> r.error == UpdateItemSyntax)
      && (|kv| == 2 ==> r == Success(UpdateColumnRequest(Trim(kv[0]), TrimMatches(Trim(kv[1]), Quotes))))
  {
    SplitCount(item, '=');
  }

  /** The index that ends the SET list: that of the first `WHERE`, or the end. */
  function ConditionIndex(parts: seq<string>): (k: nat)
    ensures k <= |parts|
  {
    match PositionIgnoringCase(parts, "WHERE")
    case None => |parts|
    case Some(w) => w
  }

  /** The items of the SET list: the words between `SET` and `WHERE`, joined,
      split on commas and trimmed. */
  function UpdateItems(parts: seq<string>, setIndex: nat): seq<string>
    requires setIndex + 1 <= ConditionIndex(parts)
  {
    TrimAll(Split(Join(parts[setIndex + 1..ConditionIndex(parts)], " "), ','))
  }

  /** The SET list read item by item; the first malformed item fails it. */
  function UpdateAssignments(parts: seq<string>, setIndex: nat): Result<seq<UpdateColumnRequest>, ParseError>
    requires setIndex + 1 <= ConditionIndex(parts)
  {
    Collect(UpdateItems(parts, setIndex), UpdateItem)
  }

  /** The SET list succeeds exactly when every item does, with one request per
      item in order; otherwise the error is the item error. */
  lemma UpdateAssignmentsSpec(parts: seq<string>, setIndex: nat)
    requires setIndex + 1 <= ConditionIndex(parts)
    ensures var items := UpdateItems(parts, setIndex);
      var r := UpdateAssignments(parts, setIndex);
      && (r.Success? <==> forall i :: 0 <= i < |items| ==> UpdateItem(items[i]).Success?)
      && (r.Success? ==> |r.value| == |items| && forall i :: 0 <= i < |items| ==> UpdateItem(items[i]) == Success(r.value[i]))
      && (r.Failure? ==> r.error == UpdateItemSyntax)
  {
    var items := UpdateItems(parts, setIndex);
    var r := UpdateAssignments(parts, setIndex);
    if r.Failure? {
      var i :| 0 <= i < |items| && UpdateItem(items[i]) == Failure(r.error);
      UpdateItemSpec(items[i]);
    }
  }

  /** `update_command` without the network call. A second word (the table name)
      and a `SET` word must exist; a `WHERE` before `SET` makes the source slice
      out of range and panic. Only `"` is trimmed from the condition value. The
      lemmas below state its error cases and its result. */
  function UpdateCommand(command: string): (r: Result<UpdateRequest, ParseError>)
    ensures r.Success? ==> |SplitWhitespace(command)| >= 2 && r.value.tableName == SplitWhitespace(command)[1]
  {
    var parts := SplitWhitespace(command);
    match PositionIgnoringCase(parts, "SET")
    case None => Failure(UpdateSyntax)
    case Some(setIndex) =>
      if |parts| < 2 then Failure(UpdateSyntax)
      else if ConditionIndex(parts) < setIndex + 1 then Failure(SlicePanic)
      else
        var updates := UpdateAssignments(parts, setIndex);
        var condition :- WhereCondition(parts, DoubleQuote);
        var requests :- updates;
        Success(UpdateRequest(parts[1], condition, requests))
  }

  /** `SET` before any `WHERE`, a good WHERE clause and good SET items make the request. */
  lemma UpdateCommandOf(command: string, parts: seq<string>, setIndex: nat, condition: Option<Condition>,
                        updates: seq<UpdateColumnRequest>)
    requires parts == SplitWhitespace(command)
    requires |parts| >= 2 && PositionIgnoringCase(parts, "SET") == Some(setIndex)
    requires setIndex < ConditionIndex(parts)
    requires WhereCondition(parts, DoubleQuote) == Success(condition)
    requires UpdateAssignments(parts, setIndex) == Success(updates)
    ensures UpdateCommand(command) == Success(UpdateRequest(parts[1], condition, updates))
  {
  }

  /** The usage error is reported exactly when the table name or `SET` is missing. */
  lemma UpdateSyntaxError(command: string)
    ensures var parts := SplitWhitespace(command);
      UpdateCommand(command) == Failure(UpdateSyntax) <==>
        |parts| < 2 || PositionIgnoringCase(parts, "SET").None?
  {
  }

  /** The source panics exactly when a `WHERE` comes before `SET`. */
  lemma UpdatePanicsIffWhereBeforeSet(command: string)
    ensures var parts := SplitWhitespace(command);
      UpdateCommand(command).Failure? && UpdateCommand(command).error.SlicePanic? <==>
        && |parts| >= 2
        && PositionIgnoringCase(parts, "SET").Some?
        && PositionIgnoringCase(parts, "WHERE").Some?
        && PositionIgnoringCase(parts, "WHERE").value < PositionIgnoringCase(parts, "SET").value
  {
    var parts := SplitWhitespace(command);
    var setPosition := PositionIgnoringCase(parts, "SET");
    var wherePosition := PositionIgnoringCase(parts, "WHERE");
    if setPosition.Some? && |parts| >= 2 {
      var setIndex := setPosition.value;
      if wherePosition.Some? {
        assert wherePosition.value != setIndex by {
          assert |Upper(parts[setIndex])| == 3;
        }
      }
      if setIndex < ConditionIndex(parts) {
        UpdateAssignmentsSpec(parts, setIndex);
        WhereConditionSpec(parts, DoubleQuote);
      }
    }
  }

  /** With `SET` before any `WHERE`, a malformed WHERE clause is reported before
      a malformed SET item, and the command fails only for one of the two. */
  lemma UpdateErrorOrder(command: string)
    requires var parts := SplitWhitespace(command);
      && |parts| >= 2 && PositionIgnoringCase(parts, "SET").Some?
      && PositionIgnoringCase(parts, "SET").value < ConditionIndex(parts)
    ensures var parts := SplitWhitespace(command);
      var setIndex := PositionIgnoringCase(parts, "SET").value;
      var r := UpdateCommand(command);
      if WhereCondition(parts, DoubleQuote).Failure? then r == Failure(IncompleteWhere)
      else if UpdateAssignments(parts, setIndex).Failure? then r == Failure(UpdateItemSyntax)
      else r.Success?
  {
  }

  /** A successful UPDATE carries the table name, the WHERE condition and the SET
      items in order. */
  lemma UpdateResult(command: string)
    requires UpdateCommand(command).Success?
    ensures var parts := SplitWhitespace(command);
      var r := UpdateCommand(command).value;
      && PositionIgnoringCase(parts, "SET").Some?
      && var setIndex := PositionIgnoringCase(parts, "SET").value;
      && setIndex < ConditionIndex(parts)
      && WhereCondition(parts, DoubleQuote) == Success(r.condition)
      && UpdateAssignments(parts, setIndex) == Success(r.updates)
  {
    var parts := SplitWhitespace(command);
    assert PositionIgnoringCase(parts, "SET").Some?;
    assert PositionIgnoringCase(parts, "SET").value < ConditionIndex(parts);
  }

  // ---------------------------------------------------------------------------
  // RENAME TABLE old TO new, DROP TABLE name

  /** `rename_table_command` without the network call: the old name is the third
      word and the new name the fifth; the second and fourth are not checked. */
  function RenameTableCommand(parts: seq<string>): (r: Result<RenameTableRequest, ParseError>)
    ensures r.Success? <==> |parts| >= 5
    ensures r.Success? ==> r.value == RenameTableRequest(parts[2], parts[4])
    ensures r.Failure? ==> r.error == RenameSyntax
  {
    if |parts| >= 5 then Success(RenameTableRequest(parts[2], parts[4]))
    else Failure(RenameSyntax)
  }

  /** `drop_table_command` without the network call: the second word must be
      exactly `TABLE`, in upper case, and the name is the third word. */
  function DropTableCommand(parts: seq<string>): (r: Result<DropTableRequest, ParseError>)
    ensures r.Success? <==> |parts| >= 3 && parts[1] == "TABLE"
    ensures r.Success? ==> r.value == DropTableRequest(parts[2])
    ensures r.Failure? ==> r.error == DropSyntax
  {
    if |parts| >= 2 && parts[1] == "TABLE" then
      if |parts| >= 3 then Success(DropTableRequest(parts[2]))
      else Failure(DropSyntax)
    else Failure(DropSyntax)
  }
}
