/**
 * The insertion-ordered, unique-key map the reconciler accumulates records in
 * (an `IndexMap<String, CostRecord>` in the Rust program): the key order as a
 * sequence plus a map from test name to record.
 */
module RecordMaps {
  import opened Wrappers
  import opened Text
  import opened CostFile

  /** A value of the ordered map: the key order and the entries. */
  datatype Table = Table(keys: seq<string>, entries: map<string, CostRecord>)

  /** Keys are distinct, are exactly the map's domain, and each record sits under its own name. */
  ghost predicate ValidTable(t: Table) {
    && Distinct(t.keys)
    && (forall i :: 0 <= i < |t.keys| ==> t.keys[i] in t.entries)
    && (forall k :: k in t.entries ==> k in t.keys)
    && (forall k :: k in t.entries ==> t.entries[k].testName == k)
  }

  const EmptyTable: Table := Table([], map[])

  /**
   * `IndexMap::insert` keyed by the record's name: a present key keeps its
   * position and gets the new record; a new key goes to the end.
   */
  function InsertTable(t: Table, r: CostRecord): (u: Table)
    ensures r.testName in u.entries && u.entries[r.testName] == r
    ensures t.keys <= u.keys
  {
    if r.testName in t.entries then Table(t.keys, t.entries[r.testName := r])
    else Table(t.keys + [r.testName], t.entries[r.testName := r])
  }

  /** Inserting keeps the keys distinct and the order in step with the entries. */
  lemma InsertTableValid(t: Table, r: CostRecord)
    requires ValidTable(t)
    ensures ValidTable(InsertTable(t, r))
  {
    var u := InsertTable(t, r);
    if r.testName !in t.entries {
      assert r.testName !in t.keys;
      forall i | 0 <= i < |u.keys| ensures u.keys[i] in u.entries {
        if i < |t.keys| { assert u.keys[i] == t.keys[i]; }
      }
    }
  }

  /** The records in key order: what iterating the map yields. */
  function TableRows(t: Table): seq<CostRecord> {
    RowsOf(t.keys, t.entries)
  }

  /** The entries of `keys` that are present, in the order of `keys`. */
  function RowsOf(keys: seq<string>, entries: map<string, CostRecord>): seq<CostRecord>
    decreases |keys|
  {
    if keys == [] then []
    else
      var last := keys[|keys| - 1];
      RowsOf(keys[..|keys| - 1], entries) + (if last in entries then [entries[last]] else [])
  }

  lemma {:induction false} RowsOfPresent(keys: seq<string>, entries: map<string, CostRecord>)
    requires forall i :: 0 <= i < |keys| ==> keys[i] in entries
    ensures |RowsOf(keys, entries)| == |keys|
    ensures forall i :: 0 <= i < |keys| ==> RowsOf(keys, entries)[i] == entries[keys[i]]
    decreases |keys|
  {
    if keys != [] {
      RowsOfPresent(keys[..|keys| - 1], entries);
    }
  }

  /** Iterating a well-formed table yields one row per key, in key order, each under its own name. */
  lemma TableRowsSpec(t: Table)
    requires ValidTable(t)
    ensures |TableRows(t)| == |t.keys|
    ensures forall i :: 0 <= i < |t.keys| ==> TableRows(t)[i] == t.entries[t.keys[i]]
    ensures Names(TableRows(t)) == t.keys
  {
    RowsOfPresent(t.keys, t.entries);
    forall i | 0 <= i < |t.keys| ensures Names(TableRows(t))[i] == t.keys[i] {
      assert t.keys[i] in t.entries;
    }
  }

  /** Inserting a new name adds its record as the last row. */
  lemma TableRowsInsertNew(t: Table, r: CostRecord)
    requires ValidTable(t) && r.testName !in t.entries
    ensures TableRows(InsertTable(t, r)) == TableRows(t) + [r]
  {
    var u := InsertTable(t, r);
    assert u.keys[..|u.keys| - 1] == t.keys;
    RowsOfFresh(t.keys, t.entries, r);
  }

  /** Inserting a present name replaces its row in place and leaves every other row as it was. */
  lemma TableRowsReplace(t: Table, r: CostRecord, i: int)
    requires ValidTable(t) && 0 <= i < |t.keys| && t.keys[i] == r.testName
    ensures |TableRows(t)| == |t.keys|
    ensures TableRows(InsertTable(t, r)) == TableRows(t)[i := r]
  {
    var u := InsertTable(t, r);
    InsertTableValid(t, r);
    TableRowsSpec(t);
    TableRowsSpec(u);
    forall k | 0 <= k < |t.keys| ensures TableRows(u)[k] == TableRows(t)[i := r][k] {
      if k != i {
        assert t.keys[k] != t.keys[i];
      }
    }
  }

  /** An entry for a name outside `keys` does not affect the rows of `keys`. */
  lemma {:induction false} RowsOfFresh(keys: seq<string>, entries: map<string, CostRecord>, r: CostRecord)
    requires r.testName !in keys
    ensures RowsOf(keys, entries[r.testName := r]) == RowsOf(keys, entries)
    decreases |keys|
  {
    if keys != [] {
      RowsOfFresh(keys[..|keys| - 1], entries, r);
    }
  }

  /** The mutable ordered map filled and updated in place while merging. */
  class RecordMap {
    var keys: seq<string>
    var entries: map<string, CostRecord>

    function Snapshot(): Table
      reads this
    {
      Table(keys, entries)
    }

    ghost predicate Valid()
      reads this
    {
      ValidTable(Snapshot())
    }

    constructor ()
      ensures Valid() && Snapshot() == EmptyTable
    {
      keys := [];
      entries := map[];
    }

    /** `IndexMap::get`: the record stored under `name`, if any. */
    function Get(name: string): (r: Option<CostRecord>)
      reads this
      requires Valid()
      ensures r.Some? <==> name in keys
      ensures r.Some? ==> r.value == entries[name] && r.value.testName == name
    {
      if name in entries then Some(entries[name]) else None
    }

    /** `IndexMap::insert`: returns the record previously stored under the name. */
    method Insert(record: CostRecord) returns (previous: Option<CostRecord>)
      requires Valid()
      modifies this
      ensures Valid()
      ensures previous == old(Get(record.testName))
      ensures Snapshot() == InsertTable(old(Snapshot()), record)
    {
      InsertTableValid(Snapshot(), record);
      previous := Get(record.testName);
      if record.testName in entries {
        entries := entries[record.testName := record];
      } else {
        keys := keys + [record.testName];
        entries := entries[record.testName := record];
      }
    }

    /** Iteration in insertion order: one record per key, the one stored under it. */
    function Records(): (rows: seq<CostRecord>)
      reads this
      requires Valid()
      ensures |rows| == |keys|
      ensures forall i :: 0 <= i < |keys| ==> rows[i] == entries[keys[i]]
      ensures Names(rows) == keys
    {
      TableRowsSpec(Snapshot());
      TableRows(Snapshot())
    }
  }
}
