/** The legacy key-value `Table` of the `server` crate: a named list of
    entries searched by key. */
module LegacyServer {
  import opened Wrappers

  /** An entry. The source's `foreign_key` borrows another entry; here it is
      the optional index of that entry, which nothing validates. */
  datatype Entry = Entry(key: string, value: seq<string>, primaryKey: bool, foreignKey: Option<nat>)

  datatype Table = Table(name: string, entries: seq<Entry>)

  /** `Entry::new`: the four arguments, unchecked. */
  function NewEntry(key: string, value: seq<string>, primaryKey: bool, foreignKey: Option<nat>): (e: Entry)
    ensures e.key == key && e.value == value && e.primaryKey == primaryKey && e.foreignKey == foreignKey
  {
    Entry(key, value, primaryKey, foreignKey)
  }

  /** The index of the first entry whose key is `key`, or None when there is none:
      `entries.iter().find(|entry| entry.key == key)`. */
  function FirstWithKey(entries: seq<Entry>, key: string): (r: Option<nat>)
    ensures r.None? <==> forall i :: 0 <= i < |entries| ==> entries[i].key != key
    ensures r.Some? ==>
      r.value < |entries| && entries[r.value].key == key &&
      forall j :: 0 <= j < r.value ==> entries[j].key != key
  {
    if entries == [] then None
    else if entries[0].key == key then Some(0)
    else
      match FirstWithKey(entries[1..], key)
      case None =>
        assert forall i :: 1 <= i < |entries| ==> entries[i] == entries[1..][i - 1];
        None
      case Some(i) => Some(i + 1)
  }

  /** `Table::get_entry_from_key`: the lowest-index entry with the key, None
      exactly when no entry has it. */
  function GetEntryFromKey(t: Table, key: string): (r: Option<Entry>)
    ensures r.None? <==> forall i :: 0 <= i < |t.entries| ==> t.entries[i].key != key
    ensures r.Some? ==>
      exists i :: 0 <= i < |t.entries| && t.entries[i] == r.value && r.value.key == key &&
        forall j :: 0 <= j < i ==> t.entries[j].key != key
  {
    match FirstWithKey(t.entries, key)
    case None => None
    case Some(i) => Some(t.entries[i])
  }

  /** `Table::get_value_from_key`: the value of the entry `get_entry_from_key`
      finds, None when it finds none. */
  function GetValueFromKey(t: Table, key: string): (r: Option<seq<string>>)
    ensures r.None? <==> GetEntryFromKey(t, key).None?
    ensures r.Some? ==> r.value == GetEntryFromKey(t, key).value.value
    ensures r.Some? ==> exists i :: 0 <= i < |t.entries| && t.entries[i].key == key && t.entries[i].value == r.value
  {
    match FirstWithKey(t.entries, key)
    case None => None
    case Some(i) => Some(t.entries[i].value)
  }

  /** Only the first entry with a key is ever found: an entry placed after one
      with the same key is invisible to both lookups. */
  lemma {:induction false} LaterDuplicateShadowed(t: Table, key: string, e: Entry)
    requires GetEntryFromKey(t, key).Some?
    ensures GetEntryFromKey(Table(t.name, t.entries + [e]), key) == GetEntryFromKey(t, key)
  {
    var i := FirstWithKey(t.entries, key).value;
    var t' := Table(t.name, t.entries + [e]);
    assert forall j :: 0 <= j < |t.entries| ==> t'.entries[j] == t.entries[j];
    var k := FirstWithKey(t'.entries, key);
    assert k == Some(i) by {
      if k.Some? && k.value != i {
        assert k.value < i || i < k.value;
      }
    }
  }
}
