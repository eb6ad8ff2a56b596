/** The column descriptor of `core`: a key, three constraint flags and an
    optional foreign key, which is an owned list of boxed sub-columns. */
module Columns {
  datatype Column = Column(
    key: string,
    primaryKey: bool,
    nonNull: bool,
    unique: bool,
    foreignKey: ForeignKey)

  /** `Option<Vec<Box<Column>>>`: no foreign key, or the owned list of the
      sub-columns it refers to. */
  datatype ForeignKey = NoForeignKey | ForeignKey(columns: seq<Column>)

  /** The constraint `Entry::new` (core/src/entry.rs) enforces on a primary
      key, minus the non-empty value; `Column::new` does not enforce it. */
  predicate PrimaryKeyConsistent(c: Column) {
    c.primaryKey ==> c.nonNull && c.unique
  }

  /** `Column::new`: copies its arguments and never rejects. The key, the flags
      and every nested sub-column of the foreign key are kept as given, in order;
      a primary key that is nullable or not unique is accepted as well. */
  function NewColumn(
    key: string,
    primaryKey: bool,
    nonNull: bool,
    unique: bool,
    foreignKey: ForeignKey): (c: Column)
    ensures c.key == key
    ensures c.primaryKey == primaryKey && c.nonNull == nonNull && c.unique == unique
    ensures c.foreignKey == foreignKey
    ensures PrimaryKeyConsistent(c) <==> (primaryKey ==> nonNull && unique)
  {
    Column(key, primaryKey, nonNull, unique, foreignKey)
  }

  // ---------------------------------------------------------------------------
  // The foreign key is a finite tree: recursion over it terminates.

  /** The sub-columns of the foreign key, none when there is no foreign key. */
  function Children(c: Column): seq<Column> {
    match c.foreignKey
    case NoForeignKey => []
    case ForeignKey(cs) => cs
  }

  /** The keys of the tree rooted at `c`, in pre-order. */
  function Keys(c: Column): seq<string>
    decreases c, |Children(c)| + 1
  {
    [c.key] + ChildKeys(c, 0)
  }

  /** The keys of the trees rooted at `Children(c)[i..]`, in order. */
  function ChildKeys(c: Column, i: nat): seq<string>
    requires i <= |Children(c)|
    decreases c, |Children(c)| - i
  {
    if i == |Children(c)| then [] else Keys(c.foreignKey.columns[i]) + ChildKeys(c, i + 1)
  }

  /** The number of columns in the tree rooted at `c`, itself included. */
  function Size(c: Column): nat
    decreases c, |Children(c)| + 1
  {
    1 + ChildSize(c, 0)
  }

  function ChildSize(c: Column, i: nat): nat
    requires i <= |Children(c)|
    decreases c, |Children(c)| - i
  {
    if i == |Children(c)| then 0 else Size(c.foreignKey.columns[i]) + ChildSize(c, i + 1)
  }

  /** The height of the tree rooted at `c`: 1 for a column without a foreign key. */
  function Depth(c: Column): nat
    decreases c, |Children(c)| + 1
  {
    1 + ChildDepth(c, 0)
  }

  function ChildDepth(c: Column, i: nat): nat
    requires i <= |Children(c)|
    decreases c, |Children(c)| - i
  {
    if i == |Children(c)| then 0
    else
      var d := Depth(c.foreignKey.columns[i]);
      var e := ChildDepth(c, i + 1);
      if d < e then e else d
  }

  /** Every column of the tree contributes exactly one key, its own key first,
      and the tree is no deeper than it has columns. */
  lemma {:induction false} KeysOfTree(c: Column)
    ensures |Keys(c)| == Size(c)
    ensures Keys(c)[0] == c.key
    ensures 1 <= Depth(c) <= Size(c)
    decreases c, |Children(c)| + 1
  {
    KeysOfChildren(c, 0);
  }

  lemma {:induction false} KeysOfChildren(c: Column, i: nat)
    requires i <= |Children(c)|
    ensures |ChildKeys(c, i)| == ChildSize(c, i)
    ensures ChildDepth(c, i) <= ChildSize(c, i)
    decreases c, |Children(c)| - i
  {
    if i < |Children(c)| {
      KeysOfTree(c.foreignKey.columns[i]);
      KeysOfChildren(c, i + 1);
    }
  }
}
