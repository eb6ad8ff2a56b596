/** A table of `core`: a name, an ordered list of columns and an ordered list
    of rows, both extended in place. `add_row` takes its row by value, so the
    table owns what it stores: a row is kept as the values it held when it was
    added, and nothing the caller does to its `Row` afterwards reaches the table. */
module Tables {
  import opened Columns
  import opened Rows

  /** How many of `columns` have the key `key`. */
  function KeyCount(columns: seq<Column>, key: string): nat {
    if columns == [] then 0
    else (if columns[0].key == key then 1 else 0) + KeyCount(columns[1..], key)
  }

  /** Appending a column adds one to the count of its key, whatever the count was. */
  lemma {:induction false} KeyCountAppend(columns: seq<Column>, c: Column)
    ensures KeyCount(columns + [c], c.key) == KeyCount(columns, c.key) + 1
  {
    if columns != [] {
      assert (columns + [c])[1..] == columns[1..] + [c];
      KeyCountAppend(columns[1..], c);
    } else {
      assert [c][1..] == [];
    }
  }

  class Table {
    var name: string
    var columns: seq<Column>
    var rows: seq<seq<Value>>

    /** `Table::new`: the given name, no columns and no rows. */
    constructor (name: string)
      ensures this.name == name && columns == [] && rows == []
    {
      this.name := name;
      columns := [];
      rows := [];
    }

    /** `Table::add_column`: appends without looking for a column of the same
        key, so a key already present ends up there twice. */
    method AddColumn(column: Column)
      modifies this
      ensures columns == old(columns) + [column]
      ensures name == old(name) && rows == old(rows)
      ensures KeyCount(columns, column.key) == KeyCount(old(columns), column.key) + 1
    {
      KeyCountAppend(columns, column);
      columns := columns + [column];
    }

    /** `Table::add_row`: appends the row as it is, whatever its length: an
        over-long row is not rejected and a short one is not padded. The row
        is moved in, so its values are what the table keeps. */
    method AddRow(row: Row)
      modifies this
      ensures rows == old(rows) + [row.values]
      ensures name == old(name) && columns == old(columns)
      ensures row.values == old(row.values)
    {
      rows := rows + [row.values];
    }
  }

  /** A table built with the same key twice and a row longer than its column
      list; growing the `Row` after adding it leaves the table's copy as it was. */
  method UncheckedTable(key: string) returns (t: Table)
    ensures t.name == "t"
    ensures |t.columns| == 2 && t.columns[0].key == key && t.columns[1].key == key
    ensures KeyCount(t.columns, key) == 2
    ensures |t.rows| == 1 && |t.rows[0]| == 3 > |t.columns|
  {
    t := new Table("t");
    var c := NewColumn(key, false, false, false, NoForeignKey);
    t.AddColumn(c);
    t.AddColumn(c);
    var r := new Row([Value("1"), Value("2"), Value("3")]);
    t.AddRow(r);
    r.AddValue(Value("4"));
  }
}
