/** The command language written out in its canonical form, one space between
    words and no spaces around the items of a list, and the proof that the
    parser reads each such text back as the request it spells out. */
module CanonicalCommands {
  import opened Wrappers
  import opened Text
  import opened IntLiteral
  import opened Requests
  import opened CommandParser

  /** A name or value the canonical form can hold in a list: one word without
      parentheses or commas. */
  predicate Plain(w: string) {
    IsWord(w) && '(' !in w && ')' !in w && ',' !in w
  }

  predicate AllPlain(ws: seq<string>) {
    forall i :: 0 <= i < |ws| ==> Plain(ws[i])
  }

  /** `name TYPE` inside the parentheses of CREATE TABLE. */
  datatype ColumnDefinition = ColumnDefinition(name: string, columnType: string) {
    predicate Valid() {
      Plain(name) && Plain(columnType) && Upper(columnType) in COLUMN_TYPES
    }

    function Text(): string {
      name + " " + columnType
    }
  }

  /** `column=value` in the SET list of UPDATE. */
  datatype Assignment = Assignment(column: string, value: string) {
    predicate Valid() {
      Plain(column) && Plain(value) && '=' !in column && '=' !in value
    }

    function Text(): string {
      column + "=" + value
    }
  }

  /** `WHERE column operator value`. */
  datatype WhereClause = WhereClause(column: string, operator: string, value: string) {
    predicate Valid() {
      IsWord(column) && IsWord(operator) && IsWord(value)
    }
  }

  function WhereWords(condition: Option<WhereClause>): seq<string> {
    match condition
    case None => []
    case Some(w) => ["WHERE", w.column, w.operator, w.value]
  }

  predicate ValidWhere(condition: Option<WhereClause>) {
    condition.Some? ==> condition.value.Valid()
  }

  function DefinitionTexts(columns: seq<ColumnDefinition>): seq<string> {
    seq(|columns|, i requires 0 <= i < |columns| => columns[i].Text())
  }

  function AssignmentTexts(assignments: seq<Assignment>): seq<string> {
    seq(|assignments|, i requires 0 <= i < |assignments| => assignments[i].Text())
  }

  /** `CREATE TABLE table (name TYPE,name TYPE)`. */
  function CreateText(table: string, columns: seq<ColumnDefinition>): string {
    Join(["CREATE", "TABLE", table], " ") + " (" + Join(DefinitionTexts(columns), ",") + ")"
  }

  /** A name or value a parenthesised list reads back unchanged: non-empty,
      without whitespace at either end (each item is trimmed) and without a
      parenthesis or comma (those end the list or split it). Whitespace inside
      is kept. */
  predicate ListItem(w: string) {
    w != [] && !IsWhitespace(w[0]) && !IsWhitespace(w[|w| - 1]) && '(' !in w && ')' !in w && ',' !in w
  }

  predicate AllListItems(ws: seq<string>) {
    forall i :: 0 <= i < |ws| ==> ListItem(ws[i])
  }

  /** The table name of an INSERT: one word, without a parenthesis (the lists
      are cut at the first of each) and without the text `VALUES`, which the
      command function looks for anywhere in the text. */
  predicate InsertPlain(w: string) {
    IsWord(w) && '(' !in w && ')' !in w && Absent(w, "VALUES")
  }

  /** A column name or value of an INSERT: a list item without `VALUES`. */
  predicate InsertItem(w: string) {
    ListItem(w) && Absent(w, "VALUES")
  }

  predicate AllInsertItems(ws: seq<string>) {
    forall i :: 0 <= i < |ws| ==> InsertItem(ws[i])
  }

  /** `(item,item)`. */
  function ListText(ws: seq<string>): string {
    "(" + Join(ws, ",") + ")"
  }

  /** `INSERT INTO table (column,column) VALUES (value,value)`. */
  function InsertText(table: string, columns: seq<string>, values: seq<string>): string {
    Join(["INSERT", "INTO", table], " ") + " " + ListText(columns) + " " + "VALUES" + " " + ListText(values)
  }

  /** No string of `ws` upper-cases to `keyword`. */
  predicate Avoids(ws: seq<string>, keyword: string) {
    forall j :: 0 <= j < |ws| ==> Upper(ws[j]) != keyword
  }

  function SelectWords(columns: seq<string>, table: string, condition: Option<WhereClause>): seq<string> {
    ["SELECT", Join(columns, ","), "FROM", table] + WhereWords(condition)
  }

  /** `SELECT column,column FROM table [WHERE column operator value]`. */
  function SelectText(columns: seq<string>, table: string, condition: Option<WhereClause>): string {
    Join(SelectWords(columns, table, condition), " ")
  }

  function UpdateWords(table: string, assignments: seq<Assignment>, condition: Option<WhereClause>): seq<string> {
    ["UPDATE", table, "SET", Join(AssignmentTexts(assignments), ",")] + WhereWords(condition)
  }

  /** `UPDATE table SET column=value,column=value [WHERE column operator value]`. */
  function UpdateText(table: string, assignments: seq<Assignment>, condition: Option<WhereClause>): string {
    Join(UpdateWords(table, assignments, condition), " ")
  }

  /** The update requests a SET list asks for: the values lose quotes of both kinds. */
  function AssignmentRequests(assignments: seq<Assignment>): seq<UpdateColumnRequest> {
    seq(|assignments|, i requires 0 <= i < |assignments| =>
      UpdateColumnRequest(assignments[i].column, TrimMatches(assignments[i].value, Quotes)))
  }

  // ---------------------------------------------------------------------------
  // Pieces

  // Each keyword is an upper-case word, and differs from the keywords it is
  // compared with before it; one small lemma each keeps these facts cheap.

  lemma CreateKeyword()
    ensures IsWord("CREATE") && Upper("CREATE") == "CREATE"
    ensures "CREATE" != "INSERT"
  {
    UpperNoLower("CREATE");
  }

  lemma InsertKeyword()
    ensures IsWord("INSERT") && Upper("INSERT") == "INSERT"
    ensures IsWord("INTO") && Upper("INTO") == "INTO"
    ensures 'V' !in "INSERT" && 'V' !in "INTO" && 'V' in "VALUES"
  {
    UpperNoLower("INSERT");
    UpperNoLower("INTO");
  }

  lemma TableKeyword()
    ensures IsWord("TABLE") && Upper("TABLE") == "TABLE"
  {
    UpperNoLower("TABLE");
  }

  lemma SelectKeyword()
    ensures IsWord("SELECT") && Upper("SELECT") == "SELECT"
    ensures "SELECT" != "CREATE" && "SELECT" != "INSERT" && "SELECT" != "FROM" && "SELECT" != "WHERE"
  {
    UpperNoLower("SELECT");
  }

  lemma FromKeyword()
    ensures IsWord("FROM") && Upper("FROM") == "FROM"
    ensures "FROM" != "WHERE"
  {
    UpperNoLower("FROM");
  }

  lemma WhereKeyword()
    ensures IsWord("WHERE") && Upper("WHERE") == "WHERE"
  {
    UpperNoLower("WHERE");
  }

  lemma UpdateKeyword()
    ensures IsWord("UPDATE") && Upper("UPDATE") == "UPDATE"
    ensures "UPDATE" != "CREATE" && "UPDATE" != "INSERT" && "UPDATE" != "SELECT" && "UPDATE" != "SET" && "UPDATE" != "WHERE"
  {
    UpperNoLower("UPDATE");
  }

  lemma SetKeyword()
    ensures IsWord("SET") && Upper("SET") == "SET"
    ensures "SET" != "WHERE"
  {
    UpperNoLower("SET");
  }

  lemma DropKeyword()
    ensures IsWord("DROP") && Upper("DROP") == "DROP"
    ensures "DROP" != "CREATE" && "DROP" != "INSERT" && "DROP" != "SELECT" && "DROP" != "UPDATE" && "DROP" != "RENAME"
  {
    UpperNoLower("DROP");
  }

  lemma RenameKeyword()
    ensures IsWord("RENAME") && Upper("RENAME") == "RENAME"
    ensures "RENAME" != "CREATE" && "RENAME" != "INSERT" && "RENAME" != "SELECT" && "RENAME" != "UPDATE"
  {
    UpperNoLower("RENAME");
  }

  lemma ToKeyword()
    ensures IsWord("TO") && Upper("TO") == "TO"
  {
    UpperNoLower("TO");
  }

  /** Four words, none of them `WHERE`, followed by the words of a WHERE clause. */
  lemma WordsBeforeWhere(w0: string, w1: string, w2: string, w3: string, condition: Option<WhereClause>)
    requires IsWord(w0) && IsWord(w1) && IsWord(w2) && IsWord(w3)
    requires Upper(w0) != "WHERE" && Upper(w1) != "WHERE" && Upper(w2) != "WHERE" && Upper(w3) != "WHERE"
    requires ValidWhere(condition)
    ensures AllWords([w0, w1, w2, w3] + WhereWords(condition))
    ensures Avoids([w0, w1, w2, w3], "WHERE")
  {
    var parts := [w0, w1, w2, w3] + WhereWords(condition);
    WhereKeyword();
    forall i | 0 <= i < |parts| ensures IsWord(parts[i]) {
      if i >= 4 {
        assert parts[i] == WhereWords(condition)[i - 4];
      }
    }
  }

  /** Words trim to themselves. */
  lemma TrimAllWords(ws: seq<string>)
    requires AllWords(ws)
    ensures TrimAll(ws) == ws
  {
    forall i | 0 <= i < |ws| ensures Trim(ws[i]) == ws[i] {
      TrimUnchanged(ws[i]);
    }
  }

  /** Plain words joined by commas make one word, which splits back into them. */
  lemma {:induction false} CommaList(ws: seq<string>)
    requires ws != [] && AllPlain(ws)
    ensures IsWord(Join(ws, ","))
    ensures TrimAll(Split(Join(ws, ","), ',')) == ws
  {
    JoinIsWord(ws, ",");
    SplitJoin(ws, ',');
    TrimAllWords(ws);
  }

  /** The first string of `parts` that upper-cases to `keyword` is the one at
      `k` when none before it does. */
  lemma PositionAt(parts: seq<string>, keyword: string, k: nat)
    requires k < |parts| && Upper(parts[k]) == keyword
    requires forall j :: 0 <= j < k ==> Upper(parts[j]) != keyword
    ensures PositionIgnoringCase(parts, keyword) == Some(k)
  {
    PositionIgnoringCaseFirst(parts, keyword);
  }

  /** The WHERE clause of a canonical command whose words before it hold no `WHERE`. */
  lemma WhereOfCanonical(head: seq<string>, condition: Option<WhereClause>, strip: CharClass)
    requires ValidWhere(condition)
    requires Avoids(head, "WHERE")
    ensures var parts := head + WhereWords(condition);
      && ConditionIndex(parts) == |head|
      && WhereCondition(parts, strip) == Success(
           match condition
           case None => None
           case Some(w) => Some(Condition(w.column, TrimMatches(w.value, strip))))
  {
    var parts := head + WhereWords(condition);
    PositionIgnoringCaseFirst(parts, "WHERE");
    if condition.Some? {
      WhereKeyword();
      PositionAt(parts, "WHERE", |head|);
      assert parts[|head| + 3..] == [condition.value.value];
    }
  }

  // ---------------------------------------------------------------------------
  // DROP TABLE and RENAME TABLE

  /** `DROP TABLE name` asks to drop `name`. */
  lemma {:induction false} ParseDropTable(name: string, isFloat: string -> bool)
    requires IsWord(name)
    ensures ParseCommand(Join(["DROP", "TABLE", name], " "), isFloat) == Success(DropTable(DropTableRequest(name)))
  {
    var ws := ["DROP", "TABLE", name];
    DropKeyword();
    TableKeyword();
    SplitWhitespaceJoin(ws);
    assert DropTableCommand(SplitWhitespace(Join(ws, " "))) == Success(DropTableRequest(name));
    DispatchDrop(Join(ws, " "), isFloat);
  }

  /** `RENAME TABLE oldName TO newName` asks to rename `oldName` to `newName`. */
  lemma {:induction false} ParseRenameTable(oldName: string, newName: string, isFloat: string -> bool)
    requires IsWord(oldName) && IsWord(newName)
    ensures ParseCommand(Join(["RENAME", "TABLE", oldName, "TO", newName], " "), isFloat) ==
      Success(RenameTable(RenameTableRequest(oldName, newName)))
  {
    var ws := ["RENAME", "TABLE", oldName, "TO", newName];
    RenameKeyword();
    TableKeyword();
    ToKeyword();
    SplitWhitespaceJoin(ws);
    assert RenameTableCommand(SplitWhitespace(Join(ws, " "))) == Success(RenameTableRequest(oldName, newName));
    DispatchRename(Join(ws, " "), isFloat);
  }

  // ---------------------------------------------------------------------------
  // CREATE TABLE

  /** The parenthesised part of a text with one '(' and a ')' after it. */
  lemma ColumnsPartOf(head: string, body: string)
    requires '(' !in head && '(' !in body && ')' !in body
    ensures CreateColumnsPart(head + "(" + body + ")") == Some(body)
  {
    var tail := body + ")";
    assert Join([body, ""], [')']) == tail;
    SplitJoin([body, ""], ')');
    assert '(' !in tail;
    assert Join([head, tail], ['(']) == head + "(" + body + ")";
    SplitJoin([head, tail], '(');
  }

  /** A valid definition makes a column request with every flag false. */
  lemma DefinitionRequest(table: string, d: ColumnDefinition)
    requires d.Valid()
    ensures ColumnRequest(table, d.Text()) == Success(InsertColumnRequest(table, d.name, false, false, false, None))
  {
    assert AllWords([d.name, d.columnType]);
    assert Join([d.name, d.columnType], " ") == d.Text();
    SplitWhitespaceJoin([d.name, d.columnType]);
  }

  /** The definition texts hold no list punctuation and start and end with a word character. */
  lemma DefinitionTextsPlain(columns: seq<ColumnDefinition>)
    requires forall i :: 0 <= i < |columns| ==> columns[i].Valid()
    ensures var texts := DefinitionTexts(columns);
      && (forall i :: 0 <= i < |texts| ==> ',' !in texts[i] && '(' !in texts[i] && ')' !in texts[i])
      && (forall i :: 0 <= i < |texts| ==> !IsWhitespace(texts[i][0]) && !IsWhitespace(texts[i][|texts[i]| - 1]))
  {
    var texts := DefinitionTexts(columns);
    forall i | 0 <= i < |texts|
      ensures ',' !in texts[i] && '(' !in texts[i] && ')' !in texts[i]
      ensures !IsWhitespace(texts[i][0]) && !IsWhitespace(texts[i][|texts[i]| - 1])
    {
      var d := columns[i];
      assert texts[i] == d.name + " " + d.columnType;
      assert texts[i][0] == d.name[0];
      assert texts[i][|texts[i]| - 1] == d.columnType[|d.columnType| - 1];
    }
  }

  /** The first three words of a canonical CREATE TABLE text. */
  lemma CreateWordsFacts(table: string, columns: seq<ColumnDefinition>)
    requires IsWord(table)
    ensures var parts := SplitWhitespace(CreateText(table, columns));
      |parts| >= 3 && parts[0] == "CREATE" && parts[1] == "TABLE" && parts[2] == table
  {
    var headWords := ["CREATE", "TABLE", table];
    var rest := "(" + Join(DefinitionTexts(columns), ",") + ")";
    CreateKeyword();
    TableKeyword();
    assert CreateText(table, columns) == Join(headWords, " ") + " " + rest;
    SplitWhitespaceLeading(headWords, rest);
    assert SplitWhitespace(CreateText(table, columns))[..3] == headWords;
  }

  /** The parenthesised part of a canonical CREATE TABLE text is its definition list. */
  lemma CreateColumnsFacts(table: string, columns: seq<ColumnDefinition>)
    requires IsWord(table) && '(' !in table
    requires forall i :: 0 <= i < |columns| ==> columns[i].Valid()
    ensures CreateColumnsPart(CreateText(table, columns)) == Some(Join(DefinitionTexts(columns), ","))
  {
    var texts := DefinitionTexts(columns);
    var body := Join(texts, ",");
    var headWords := ["CREATE", "TABLE", table];
    var head := Join(headWords, " ");
    DefinitionTextsPlain(columns);
    assert '(' !in head + " " by {
      assert '(' !in "CREATE" && '(' !in "TABLE";
      JoinExcludes(headWords, " ", '(');
    }
    JoinExcludes(texts, ",", '(');
    JoinExcludes(texts, ",", ')');
    assert CreateText(table, columns) == (head + " ") + "(" + body + ")";
    ColumnsPartOf(head + " ", body);
  }

  /** A canonical definition list splits into its definitions. */
  lemma DefinitionsFacts(columns: seq<ColumnDefinition>)
    requires columns != []
    requires forall i :: 0 <= i < |columns| ==> columns[i].Valid()
    ensures ColumnDefinitions(Join(DefinitionTexts(columns), ",")) == DefinitionTexts(columns)
  {
    var texts := DefinitionTexts(columns);
    DefinitionTextsPlain(columns);
    SplitJoin(texts, ',');
    forall i | 0 <= i < |texts| ensures Trim(texts[i]) == texts[i] {
      TrimUnchanged(texts[i]);
    }
  }

  /** The column requests a canonical definition list asks for. */
  function ColumnRequests(table: string, columns: seq<ColumnDefinition>): seq<InsertColumnRequest> {
    seq(|columns|, i requires 0 <= i < |columns| => InsertColumnRequest(table, columns[i].name, false, false, false, None))
  }

  lemma DefinitionItems(table: string, columns: seq<ColumnDefinition>)
    requires forall i :: 0 <= i < |columns| ==> columns[i].Valid()
    ensures var texts := DefinitionTexts(columns);
      forall i :: 0 <= i < |texts| ==> ColumnRequest(table, texts[i]) == Success(ColumnRequests(table, columns)[i])
  {
    var texts := DefinitionTexts(columns);
    forall i | 0 <= i < |texts| ensures ColumnRequest(table, texts[i]) == Success(ColumnRequests(table, columns)[i]) {
      DefinitionRequest(table, columns[i]);
    }
  }

  /** A canonical definition list makes the requests of its columns, in order. */
  lemma DefinitionsCollect(table: string, columns: seq<ColumnDefinition>)
    requires forall i :: 0 <= i < |columns| ==> columns[i].Valid()
    ensures CollectColumnRequests(table, DefinitionTexts(columns)) == Success(ColumnRequests(table, columns))
  {
    var texts := DefinitionTexts(columns);
    var requests := ColumnRequests(table, columns);
    var r := CollectColumnRequests(table, texts);
    DefinitionItems(table, columns);
    assert r.Success?;
    assert |r.value| == |requests|;
    forall i | 0 <= i < |requests| ensures r.value[i] == requests[i] {
      assert ColumnRequest(table, texts[i]) == Success(r.value[i]);
    }
    assert r.value == requests;
  }

  /** The CREATE TABLE command function reads a canonical CREATE TABLE text. */
  lemma CreateTableOfCanonical(table: string, columns: seq<ColumnDefinition>)
    requires IsWord(table) && '(' !in table && columns != []
    requires forall i :: 0 <= i < |columns| ==> columns[i].Valid()
    ensures var command := CreateText(table, columns);
      var parts := SplitWhitespace(command);
      && |parts| >= 3 && parts[0] == "CREATE"
      && CreateTableCommand(parts, command) == Success(CreateTableRequests(table, ColumnRequests(table, columns)))
  {
    CreateWordsFacts(table, columns);
    CreateColumnsFacts(table, columns);
    DefinitionsFacts(columns);
    DefinitionsCollect(table, columns);
    CreateTableCommandOf(SplitWhitespace(CreateText(table, columns)), CreateText(table, columns),
      Join(DefinitionTexts(columns), ","), ColumnRequests(table, columns));
  }

  /** `CREATE TABLE table (name TYPE,...)` asks to create `table` with those
      columns, in order, every flag false and no foreign key. */
  lemma ParseCreateTable(table: string, columns: seq<ColumnDefinition>, isFloat: string -> bool)
    requires IsWord(table) && '(' !in table && columns != []
    requires forall i :: 0 <= i < |columns| ==> columns[i].Valid()
    ensures ParseCommand(CreateText(table, columns), isFloat) ==
      Success(CreateTable(CreateTableRequests(table, ColumnRequests(table, columns))))
  {
    CreateTableOfCanonical(table, columns);
    CreateKeyword();
    DispatchCreate(CreateText(table, columns), isFloat);
  }

  // ---------------------------------------------------------------------------
  // INSERT INTO

  /** The first three words of a canonical INSERT text. */
  lemma InsertWordsFacts(table: string, columns: seq<string>, values: seq<string>)
    requires IsWord(table)
    ensures var parts := SplitWhitespace(InsertText(table, columns, values));
      |parts| >= 3 && parts[0] == "INSERT" && parts[1] == "INTO" && parts[2] == table
  {
    var headWords := ["INSERT", "INTO", table];
    var rest := ListText(columns) + " " + "VALUES" + " " + ListText(values);
    InsertKeyword();
    assert InsertText(table, columns, values) == Join(headWords, " ") + " " + rest;
    SplitWhitespaceLeading(headWords, rest);
    assert SplitWhitespace(InsertText(table, columns, values))[..3] == headWords;
  }

  /** A parenthesised list of items without `VALUES` holds no `VALUES`. */
  lemma ListAbsent(ws: seq<string>)
    requires AllInsertItems(ws)
    ensures Absent(ListText(ws), "VALUES")
  {
    var body := Join(ws, ",");
    AbsentJoin(ws, ',', "VALUES");
    AbsentAround(body, ')', [], "VALUES");
    assert body + [')'] + [] == body + ")";
    AbsentAround([], '(', body + ")", "VALUES");
    assert [] + ['('] + (body + ")") == ListText(ws);
  }

  /** The text of a canonical INSERT before its `VALUES` holds none. */
  lemma InsertHeadAbsent(table: string, columns: seq<string>)
    requires InsertPlain(table) && AllInsertItems(columns)
    ensures Absent(Join(["INSERT", "INTO", table], " ") + " " + ListText(columns) + " ", "VALUES")
  {
    var headWords := ["INSERT", "INTO", table];
    InsertKeyword();
    AbsentByChar("INSERT", "VALUES", 'V');
    AbsentByChar("INTO", "VALUES", 'V');
    AbsentJoin(headWords, ' ', "VALUES");
    ListAbsent(columns);
    AbsentAround(ListText(columns), ' ', [], "VALUES");
    assert ListText(columns) + [' '] + [] == ListText(columns) + " ";
    AbsentAround(Join(headWords, " "), ' ', ListText(columns) + " ", "VALUES");
    assert Join(headWords, " ") + [' '] + (ListText(columns) + " ") ==
      Join(headWords, " ") + " " + ListText(columns) + " ";
  }

  /** The text after the first `VALUES` of a canonical INSERT text is its value list. */
  lemma InsertValuesPart(table: string, columns: seq<string>, values: seq<string>)
    requires InsertPlain(table) && AllInsertItems(columns) && AllInsertItems(values)
    ensures SplitStrSecond(InsertText(table, columns, values), "VALUES") == Some(" " + ListText(values))
  {
    var command := InsertText(table, columns, values);
    var before := Join(["INSERT", "INTO", table], " ") + " " + ListText(columns) + " ";
    var after := " " + ListText(values);
    assert command == before + "VALUES" + after;
    InsertHeadAbsent(table, columns);
    FirstOccurrence(before, "VALUES", after);
    ListAbsent(values);
    AbsentAround([], ' ', ListText(values), "VALUES");
    assert [] + [' '] + ListText(values) == after;
    AbsentFindStr(after, "VALUES");
    assert command[|before| + |"VALUES"|..] == after;
  }

  /** In a text whose head and body hold no parenthesis, the first '(' opens
      the body and the first ')' closes it. */
  lemma ListPositions(s: string, head: string, body: string, tail: string)
    requires s == head + ("(" + body + ")") + tail
    requires '(' !in head && ')' !in head && '(' !in body && ')' !in body
    ensures Find(s, '(') == Some(|head|)
    ensures Find(s, ')') == Some(|head| + 1 + |body|)
    ensures s[|head| + 1..|head| + 1 + |body|] == body
  {
    var close := |head| + 1 + |body|;
    assert s[..|head|] == head && s[|head|] == '(';
    FindAt(s, '(', |head|);
    assert s[..close] == head + "(" + body && s[close] == ')';
    FindAt(s, ')', close);
    assert s[|head| + 1..close] == body;
  }

  /** The items of list items joined by commas are those items. */
  lemma ListBody(ws: seq<string>)
    requires ws != [] && AllListItems(ws)
    ensures '(' !in Join(ws, ",") && ')' !in Join(ws, ",")
    ensures ListItems(Join(ws, ",")) == ws
  {
    JoinExcludes(ws, ",", '(');
    JoinExcludes(ws, ",", ')');
    JoinEnds(ws, ",");
    TrimUnchanged(Join(ws, ","));
    SplitJoin(ws, ',');
    forall i | 0 <= i < |ws| ensures Trim(ws[i]) == ws[i] {
      TrimUnchanged(ws[i]);
    }
  }

  /** The first parenthesised list of a text whose head holds no parenthesis. */
  lemma ListOf(s: string, head: string, ws: seq<string>, tail: string, missingOpen: ParseError, missingClose: ParseError)
    requires s == head + ListText(ws) + tail
    requires '(' !in head && ')' !in head
    requires ws != [] && AllListItems(ws)
    ensures ParenthesizedList(s, missingOpen, missingClose) == Success(ws)
  {
    ListBody(ws);
    ListAt(s, head, Join(ws, ","), tail, missingOpen, missingClose);
  }

  /** The list of a text with a parenthesis-free head and body is the body's items. */
  lemma ListAt(s: string, head: string, body: string, tail: string, missingOpen: ParseError, missingClose: ParseError)
    requires s == head + ("(" + body + ")") + tail
    requires '(' !in head && ')' !in head && '(' !in body && ')' !in body
    ensures ParenthesizedList(s, missingOpen, missingClose) == Success(ListItems(body))
  {
    ListPositions(s, head, body, tail);
    ParenthesizedListAt(s, |head|, |head| + 1 + |body|, missingOpen, missingClose);
  }

  /** The column list of a canonical INSERT text. */
  lemma InsertColumnsFacts(table: string, columns: seq<string>, values: seq<string>)
    requires IsWord(table) && '(' !in table && ')' !in table && columns != [] && AllListItems(columns)
    ensures ParenthesizedList(InsertText(table, columns, values), MissingOpeningParenthesis, MissingClosingParenthesis) ==
      Success(columns)
  {
    var head := Join(["INSERT", "INTO", table], " ") + " ";
    var tail := " " + "VALUES" + " " + ListText(values);
    assert '(' !in head && ')' !in head by {
      JoinExcludes(["INSERT", "INTO", table], " ", '(');
      JoinExcludes(["INSERT", "INTO", table], " ", ')');
    }
    ListOf(InsertText(table, columns, values), head, columns, tail, MissingOpeningParenthesis, MissingClosingParenthesis);
  }

  /** The value list of the text after `VALUES`. */
  lemma InsertValuesFacts(values: seq<string>)
    requires values != [] && AllListItems(values)
    ensures ParenthesizedList(" " + ListText(values), MissingValuesOpeningParenthesis, MissingValuesClosingParenthesis) ==
      Success(values)
  {
    ListOf(" " + ListText(values), " ", values, "", MissingValuesOpeningParenthesis, MissingValuesClosingParenthesis);
  }

  /** The INSERT command function reads a canonical INSERT text. */
  lemma InsertOfCanonical(table: string, columns: seq<string>, values: seq<string>, isFloat: string -> bool)
    requires InsertPlain(table) && columns != [] && |columns| == |values|
    requires AllInsertItems(columns) && AllInsertItems(values)
    ensures var command := InsertText(table, columns, values);
      var parts := SplitWhitespace(command);
      && parts != [] && parts[0] == "INSERT"
      && InsertIntoCommand(command, isFloat) == Success(InsertRowRequest(table, ClassifyRow(values, isFloat)))
  {
    InsertWordsFacts(table, columns, values);
    InsertValuesPart(table, columns, values);
    InsertColumnsFacts(table, columns, values);
    InsertValuesFacts(values);
    InsertIntoCommandOf(InsertText(table, columns, values), " " + ListText(values), columns, values, isFloat);
  }

  /** The decimal form of any `i64` reads back as that integer, whatever the
      float reading says. */
  lemma ClassifyShowInt(n: int, isFloat: string -> bool)
    requires I64_MIN <= n <= I64_MAX
    ensures ClassifyValue(ShowInt(n), isFloat) == Int(n)
  {
    ParseShowInt(n);
    assert ShowInt(n)[0] != "NULL"[0];
  }

  /** A text in quotes that is not a float reads back as the text, its quotes
      removed, provided the text itself neither starts nor ends with a quote. */
  lemma ClassifyQuoted(quote: char, text: string, isFloat: string -> bool)
    requires IsQuote(quote)
    requires text == [] || (!IsQuote(text[0]) && !IsQuote(text[|text| - 1]))
    requires !isFloat([quote] + text + [quote])
    ensures ClassifyValue([quote] + text + [quote], isFloat) == Str(text)
  {
    var v := [quote] + text + [quote];
    assert v[0] != "NULL"[0] && v[0] != "true"[0] && v[0] != "false"[0];
    TrimMatchesUnique([quote], text, [quote], Quotes);
  }

  /** `INSERT INTO table (column,...) VALUES (value,...)` asks to insert into
      `table` the row of the values, each classified; the column names are dropped. */
  lemma ParseInsert(table: string, columns: seq<string>, values: seq<string>, isFloat: string -> bool)
    requires InsertPlain(table) && columns != [] && |columns| == |values|
    requires AllInsertItems(columns) && AllInsertItems(values)
    ensures ParseCommand(InsertText(table, columns, values), isFloat) ==
      Success(InsertRow(InsertRowRequest(table, ClassifyRow(values, isFloat))))
  {
    InsertOfCanonical(table, columns, values, isFloat);
    InsertKeyword();
    DispatchInsert(InsertText(table, columns, values), isFloat);
  }

  // ---------------------------------------------------------------------------
  // SELECT

  /** Words whose third is the first to upper-case to `FROM`: the second is the
      only one before it. */
  lemma FromThird(parts: seq<string>)
    requires |parts| >= 3 && Upper(parts[0]) != "FROM" && Upper(parts[1]) != "FROM" && Upper(parts[2]) == "FROM"
    ensures SelectColumnWords(parts) == [parts[1]]
    ensures PositionIgnoringCase(parts, "FROM") == Some(2)
  {
    PositionAt(parts[1..], "FROM", 1);
    PositionAt(parts, "FROM", 2);
  }

  /** The words of a canonical SELECT text: the column list is the only word
      before `FROM`, which is the third word, and `WHERE` comes after the table. */
  lemma SelectWordsFacts(list: string, table: string, condition: Option<WhereClause>)
    requires IsWord(list) && Upper(list) != "FROM" && Upper(list) != "WHERE"
    requires IsWord(table) && Upper(table) != "WHERE"
    requires ValidWhere(condition)
    ensures var parts := ["SELECT", list, "FROM", table] + WhereWords(condition);
      && AllWords(parts)
      && SelectColumnWords(parts) == [list]
      && PositionIgnoringCase(parts, "FROM") == Some(2)
      && Avoids(["SELECT", list, "FROM", table], "WHERE")
  {
    SelectKeyword();
    FromKeyword();
    WordsBeforeWhere("SELECT", list, "FROM", table, condition);
    FromThird(["SELECT", list, "FROM", table] + WhereWords(condition));
  }

  /** The SELECT command function reads a canonical SELECT text. */
  lemma SelectOfCanonical(columns: seq<string>, table: string, condition: Option<WhereClause>)
    requires columns != [] && AllPlain(columns)
    requires Upper(Join(columns, ",")) != "FROM" && Upper(Join(columns, ",")) != "WHERE"
    requires IsWord(table) && Upper(table) != "WHERE"
    requires ValidWhere(condition)
    ensures var command := SelectText(columns, table, condition);
      var parts := SplitWhitespace(command);
      && parts != [] && parts[0] == "SELECT"
      && SelectCommand(command) == Success(SelectRequest(Some(columns), table,
           match condition
           case None => None
           case Some(w) => Some(Condition(w.column, TrimMatches(w.value, Quotes)))))
  {
    var list := Join(columns, ",");
    CommaList(columns);
    SelectWordsFacts(list, table, condition);
    SplitWhitespaceJoin(SelectWords(columns, table, condition));
    WhereOfCanonical(["SELECT", list, "FROM", table], condition, Quotes);
    SelectCommandSpec(SelectText(columns, table, condition));
  }

  /** `SELECT columns FROM table [WHERE column operator value]` asks for those
      columns of `table`, with the value's quotes of both kinds removed. */
  lemma ParseSelect(columns: seq<string>, table: string, condition: Option<WhereClause>, isFloat: string -> bool)
    requires columns != [] && AllPlain(columns)
    requires Upper(Join(columns, ",")) != "FROM" && Upper(Join(columns, ",")) != "WHERE"
    requires IsWord(table) && Upper(table) != "WHERE"
    requires ValidWhere(condition)
    ensures ParseCommand(SelectText(columns, table, condition), isFloat) == Success(Select(SelectRequest(Some(columns), table,
      match condition
      case None => None
      case Some(w) => Some(Condition(w.column, TrimMatches(w.value, Quotes))))))
  {
    SelectOfCanonical(columns, table, condition);
    SelectKeyword();
    DispatchSelect(SelectText(columns, table, condition), isFloat);
  }

  // ---------------------------------------------------------------------------
  // UPDATE

  /** Assignment texts are plain words. */
  lemma AssignmentTextsPlain(assignments: seq<Assignment>)
    requires forall i :: 0 <= i < |assignments| ==> assignments[i].Valid()
    ensures AllPlain(AssignmentTexts(assignments))
  {
    var texts := AssignmentTexts(assignments);
    forall i | 0 <= i < |texts| ensures Plain(texts[i]) {
      var a := assignments[i];
      assert texts[i] == a.column + "=" + a.value;
      forall k | 0 <= k < |texts[i]| ensures IsWordChar(texts[i][k]) {
        if k < |a.column| {
          assert texts[i][k] == a.column[k];
        } else if k > |a.column| {
          assert texts[i][k] == a.value[k - |a.column| - 1];
        }
      }
    }
  }

  /** A valid assignment makes the update request of its column and its value
      with the quotes of both kinds removed. */
  lemma AssignmentRequest(a: Assignment)
    requires a.Valid()
    ensures UpdateItem(a.Text()) == Success(UpdateColumnRequest(a.column, TrimMatches(a.value, Quotes)))
  {
    assert Join([a.column, a.value], "=") == a.Text();
    SplitJoin([a.column, a.value], '=');
    TrimUnchanged(a.column);
    TrimUnchanged(a.value);
  }

  /** Every item of a canonical SET list makes its request. */
  lemma AssignmentItems(assignments: seq<Assignment>)
    requires forall i :: 0 <= i < |assignments| ==> assignments[i].Valid()
    ensures var texts := AssignmentTexts(assignments);
      forall i :: 0 <= i < |texts| ==> UpdateItem(texts[i]) == Success(AssignmentRequests(assignments)[i])
  {
    var texts := AssignmentTexts(assignments);
    forall i | 0 <= i < |texts| ensures UpdateItem(texts[i]) == Success(AssignmentRequests(assignments)[i]) {
      AssignmentRequest(assignments[i]);
    }
  }

  /** A canonical SET list makes the requests of its assignments, in order. */
  lemma AssignmentsCollect(assignments: seq<Assignment>)
    requires forall i :: 0 <= i < |assignments| ==> assignments[i].Valid()
    ensures Collect(AssignmentTexts(assignments), UpdateItem) == Success(AssignmentRequests(assignments))
  {
    var texts := AssignmentTexts(assignments);
    var requests := AssignmentRequests(assignments);
    var r := Collect(texts, UpdateItem);
    AssignmentItems(assignments);
    assert r.Success?;
    assert |r.value| == |requests|;
    forall i | 0 <= i < |requests| ensures r.value[i] == requests[i] {
      assert UpdateItem(texts[i]) == Success(r.value[i]);
    }
    assert r.value == requests;
  }

  /** The words of a canonical UPDATE text: `SET` is the third word and `WHERE`
      comes after the SET list, which is one word. */
  lemma UpdateWordsFacts(table: string, list: string, condition: Option<WhereClause>)
    requires IsWord(table) && Upper(table) != "SET" && Upper(table) != "WHERE"
    requires IsWord(list) && Upper(list) != "WHERE"
    requires ValidWhere(condition)
    ensures var parts := ["UPDATE", table, "SET", list] + WhereWords(condition);
      && AllWords(parts)
      && PositionIgnoringCase(parts, "SET") == Some(2)
      && Avoids(["UPDATE", table, "SET", list], "WHERE")
  {
    UpdateKeyword();
    SetKeyword();
    WordsBeforeWhere("UPDATE", table, "SET", list, condition);
    PositionAt(["UPDATE", table, "SET", list] + WhereWords(condition), "SET", 2);
  }

  /** The UPDATE command function reads a canonical UPDATE text. */
  lemma UpdateOfCanonical(table: string, assignments: seq<Assignment>, condition: Option<WhereClause>)
    requires IsWord(table) && Upper(table) != "SET" && Upper(table) != "WHERE"
    requires assignments != [] && forall i :: 0 <= i < |assignments| ==> assignments[i].Valid()
    requires Upper(Join(AssignmentTexts(assignments), ",")) != "WHERE"
    requires ValidWhere(condition)
    ensures var command := UpdateText(table, assignments, condition);
      var parts := SplitWhitespace(command);
      && parts != [] && parts[0] == "UPDATE"
      && UpdateCommand(command) == Success(UpdateRequest(table,
           match condition
           case None => None
           case Some(w) => Some(Condition(w.column, TrimMatches(w.value, DoubleQuote))),
           AssignmentRequests(assignments)))
  {
    var list := Join(AssignmentTexts(assignments), ",");
    AssignmentTextsPlain(assignments);
    CommaList(AssignmentTexts(assignments));
    UpdateWordsFacts(table, list, condition);
    SplitWhitespaceJoin(UpdateWords(table, assignments, condition));
    WhereOfCanonical(["UPDATE", table, "SET", list], condition, DoubleQuote);
    UpdateAssignmentsOfCanonical(table, assignments, condition);
    UpdateCommandOf(UpdateText(table, assignments, condition), UpdateWords(table, assignments, condition), 2,
      match condition
      case None => None
      case Some(w) => Some(Condition(w.column, TrimMatches(w.value, DoubleQuote))),
      AssignmentRequests(assignments));
  }

  /** The SET list of a canonical UPDATE text is read item by item. */
  lemma UpdateAssignmentsOfCanonical(table: string, assignments: seq<Assignment>, condition: Option<WhereClause>)
    requires assignments != [] && forall i :: 0 <= i < |assignments| ==> assignments[i].Valid()
    requires ConditionIndex(UpdateWords(table, assignments, condition)) == 4
    requires TrimAll(Split(Join(AssignmentTexts(assignments), ","), ',')) == AssignmentTexts(assignments)
    ensures UpdateAssignments(UpdateWords(table, assignments, condition), 2) == Success(AssignmentRequests(assignments))
  {
    var parts := UpdateWords(table, assignments, condition);
    assert parts[3..4] == [Join(AssignmentTexts(assignments), ",")];
    assert UpdateItems(parts, 2) == AssignmentTexts(assignments);
    AssignmentsCollect(assignments);
  }

  /** `UPDATE table SET column=value,... [WHERE column operator value]` asks to
      set those columns of `table`; the SET values lose quotes of both kinds,
      the WHERE value only `"`. */
  lemma ParseUpdate(table: string, assignments: seq<Assignment>, condition: Option<WhereClause>, isFloat: string -> bool)
    requires IsWord(table) && Upper(table) != "SET" && Upper(table) != "WHERE"
    requires assignments != [] && forall i :: 0 <= i < |assignments| ==> assignments[i].Valid()
    requires Upper(Join(AssignmentTexts(assignments), ",")) != "WHERE"
    requires ValidWhere(condition)
    ensures ParseCommand(UpdateText(table, assignments, condition), isFloat) == Success(Update(UpdateRequest(table,
      match condition
      case None => None
      case Some(w) => Some(Condition(w.column, TrimMatches(w.value, DoubleQuote))),
      AssignmentRequests(assignments))))
  {
    UpdateOfCanonical(table, assignments, condition);
    UpdateKeyword();
    DispatchUpdate(UpdateText(table, assignments, condition), isFloat);
  }
}
