/** The older record type of `core`: a key-value entry with constraint flags,
    whose constructor rejects a primary key that may be null, empty or
    repeated. The source aborts the process there; here the constructor
    returns the error instead. */
module Entries {
  import opened Wrappers

  datatype Entry = Entry(
    key: string,
    value: string,
    primaryKey: bool,
    nonNull: bool,
    unique: bool,
    foreignKey: EntryForeignKey)

  /** `Option<Vec<Box<Entry>>>`. */
  datatype EntryForeignKey = NoForeignKey | ForeignKey(entries: seq<Entry>)

  /** The two reasons `Entry::new` rejects its arguments. */
  datatype EntryError = NullOrEmptyPrimaryKey | NonUniquePrimaryKey {
    /** The message the source panics with. */
    function Message(): string {
      match this
      case NullOrEmptyPrimaryKey => "Primary Key cannot be null or empty!"
      case NonUniquePrimaryKey => "Primary Key has to be unique!"
    }
  }

  /** What every constructed entry satisfies: a primary key is non-null,
      non-empty and unique. */
  predicate ValidPrimaryKey(e: Entry) {
    e.primaryKey ==> e.nonNull && e.value != [] && e.unique
  }

  /** `Entry::new`. A primary key that is nullable or has an empty value is
      rejected first; otherwise one that is not unique; anything else, and every
      entry that is not a primary key, is built from exactly the arguments. */
  function NewEntry(
    key: string,
    value: string,
    primaryKey: bool,
    nonNull: bool,
    unique: bool,
    foreignKey: EntryForeignKey): (r: Result<Entry, EntryError>)
    ensures r == Failure(NullOrEmptyPrimaryKey) <==> primaryKey && (!nonNull || value == [])
    ensures r == Failure(NonUniquePrimaryKey) <==> primaryKey && nonNull && value != [] && !unique
    ensures r.Success? <==> !primaryKey || (nonNull && value != [] && unique)
    ensures r.Success? ==> r.value == Entry(key, value, primaryKey, nonNull, unique, foreignKey)
    ensures r.Success? ==> ValidPrimaryKey(r.value)
  {
    if primaryKey && (!nonNull || value == []) then
      Failure(NullOrEmptyPrimaryKey)
    else if primaryKey && !unique then
      Failure(NonUniquePrimaryKey)
    else
      Success(Entry(key, value, primaryKey, nonNull, unique, foreignKey))
  }

  /** The constructor accepts exactly the entries with a valid primary key:
      rebuilding such an entry from its fields gives it back. */
  lemma NewEntryRebuilds(e: Entry)
    ensures NewEntry(e.key, e.value, e.primaryKey, e.nonNull, e.unique, e.foreignKey) == Success(e)
            <==> ValidPrimaryKey(e)
  {
  }
}
