/**
 * The reconciliation itself: load the baseline into the ordered map (a
 * duplicate name is fatal), fold every update record in with the
 * freshest-wins rule, and write the map back out with its trailer.
 *
 * `Merge` is the specification as a pure fold; `MergeCostUpdates` is the
 * step-by-step procedure over a mutable `RecordMap`, proved equal to it.
 */
module Reconcile {
  import opened Wrappers
  import opened Text
  import opened CostFile
  import opened RecordMaps

  /** Why a merge fails. File contents are given, so reading cannot fail here. */
  datatype MergeError =
    | MalformedBaseline            // a baseline row does not deserialize
    | DuplicateTest(name: string)  // the baseline names a test twice
    | MalformedUpdate(index: nat)  // update file number `index` does not deserialize

  /**
   * Freshest wins for one record: a new name is appended; a known name is
   * replaced in place only by a strictly greater count.
   */
  function MergeRecord(t: Table, r: CostRecord): (m: Table)
    ensures r.testName in m.entries && m.entries[r.testName].count >= r.count
    ensures t.keys <= m.keys
  {
    if r.testName in t.entries then
      if r.count > t.entries[r.testName].count then InsertTable(t, r) else t
    else InsertTable(t, r)
  }

  /**
   * One step on the rows the map iterates: a new name adds its record as the
   * last row; a present name's row is replaced in place by a record with a
   * strictly greater count and kept otherwise; no other name's entry changes.
   */
  lemma MergeRecordSpec(t: Table, r: CostRecord)
    requires ValidTable(t)
    ensures |TableRows(t)| == |t.keys|
    ensures r.testName !in Names(TableRows(t)) ==> TableRows(MergeRecord(t, r)) == TableRows(t) + [r]
    ensures forall i :: 0 <= i < |TableRows(t)| && TableRows(t)[i].testName == r.testName ==>
              TableRows(MergeRecord(t, r)) == if r.count > TableRows(t)[i].count then TableRows(t)[i := r] else TableRows(t)
    ensures forall n :: n != r.testName ==> (n in MergeRecord(t, r).entries <==> n in t.entries)
    ensures forall n :: n != r.testName && n in t.entries ==> MergeRecord(t, r).entries[n] == t.entries[n]
  {
    TableRowsSpec(t);
    if r.testName !in t.entries {
      TableRowsInsertNew(t, r);
    }
    forall i | 0 <= i < |TableRows(t)| && TableRows(t)[i].testName == r.testName
      ensures TableRows(MergeRecord(t, r)) == if r.count > TableRows(t)[i].count then TableRows(t)[i := r] else TableRows(t)
    {
      assert t.keys[i] == r.testName;
      TableRowsReplace(t, r, i);
    }
  }

  /** Folds the records of `seen` into `t`, first record first. */
  function MergeAll(t: Table, seen: seq<CostRecord>): (m: Table)
    ensures t.keys <= m.keys
    decreases |seen|
  {
    if seen == [] then t
    else MergeRecord(MergeAll(t, seen[..|seen| - 1]), seen[|seen| - 1])
  }

  /** Folding keeps the table well formed. */
  lemma {:induction false} MergeAllValid(t: Table, seen: seq<CostRecord>)
    requires ValidTable(t)
    ensures ValidTable(MergeAll(t, seen))
    decreases |seen|
  {
    if seen != [] {
      MergeAllValid(t, seen[..|seen| - 1]);
      InsertTableValid(MergeAll(t, seen[..|seen| - 1]), seen[|seen| - 1]);
    }
  }

  /** Each element of `s` once, at the place it first occurs. */
  function FirstOccurrences(s: seq<string>): seq<string>
    decreases |s|
  {
    if s == [] then []
    else
      var d := FirstOccurrences(s[..|s| - 1]);
      if s[|s| - 1] in d then d else d + [s[|s| - 1]]
  }

  /** First occurrences hold every element of `s` once, and nothing else. */
  lemma {:induction false} FirstOccurrencesSpec(s: seq<string>)
    ensures Distinct(FirstOccurrences(s))
    ensures forall x :: x in FirstOccurrences(s) <==> x in s
    decreases |s|
  {
    if s != [] {
      var p := s[..|s| - 1];
      FirstOccurrencesSpec(p);
      assert s == p + [s[|s| - 1]];
    }
  }

  /**
   * `seen[j]` is the freshest record for its name: no record of that name
   * has a greater count, and every earlier one has a smaller count.
   */
  ghost predicate IsFreshest(seen: seq<CostRecord>, j: int) {
    && 0 <= j < |seen|
    && (forall i :: 0 <= i < |seen| && seen[i].testName == seen[j].testName ==> seen[i].count <= seen[j].count)
    && (forall i :: 0 <= i < j && seen[i].testName == seen[j].testName ==> seen[i].count < seen[j].count)
  }

  /** Each baseline line parsed on its own, in file order. */
  function ParseEach(rows: seq<string>): seq<Option<CostRecord>> {
    seq(|rows|, i requires 0 <= i < |rows| => ReadRow(rows[i], FirstWidth(rows)))
  }

  predicate AllParsed(parsed: seq<Option<CostRecord>>) {
    forall i :: 0 <= i < |parsed| ==> parsed[i].Some?
  }

  /** The records of lines that all parsed. */
  function Parsed(parsed: seq<Option<CostRecord>>): (rs: seq<CostRecord>)
    requires AllParsed(parsed)
    ensures |rs| == |parsed|
    ensures forall i :: 0 <= i < |parsed| ==> Some(rs[i]) == parsed[i]
  {
    seq(|parsed|, i requires 0 <= i < |parsed| => parsed[i].value)
  }

  /**
   * Loading the baseline: rows are inserted in order; a malformed row or a
   * name already present ends the load with an error.
   */
  function LoadRows(t: Table, parsed: seq<Option<CostRecord>>): (r: Result<Table, MergeError>)
    ensures r.Ok? ==> t.keys <= r.value.keys && |r.value.keys| == |t.keys| + |parsed|
    ensures r.Err? ==> !r.error.MalformedUpdate?
    decreases |parsed|
  {
    if parsed == [] then Ok(t)
    else match parsed[0]
      case None => Err(MalformedBaseline)
      case Some(record) =>
        if record.testName in t.entries then Err(DuplicateTest(record.testName))
        else LoadRows(InsertTable(t, record), parsed[1..])
  }

  /** Each update file's records, or `None` where the file does not deserialize. */
  function ReadUpdates(updates: seq<string>): seq<Option<seq<CostRecord>>> {
    seq(|updates|, i requires 0 <= i < |updates| => ReadRecordFile(updates[i]))
  }

  /** Folds each update file in turn; `index` numbers the first of `files`. */
  function MergeUpdates(t: Table, files: seq<Option<seq<CostRecord>>>, index: nat): (r: Result<Table, MergeError>)
    ensures r.Ok? ==> t.keys <= r.value.keys
    ensures r.Err? ==> r.error.MalformedUpdate? && index <= r.error.index < index + |files|
    decreases |files|
  {
    if files == [] then Ok(t)
    else match files[0]
      case None => Err(MalformedUpdate(index))
      case Some(records) => MergeUpdates(MergeAll(t, records), files[1..], index + 1)
  }

  /** The baseline file loaded into an empty map. */
  function Baseline(original: string): (r: Result<Table, MergeError>)
    ensures r.Ok? ==> |r.value.keys| == |Lines(StripTrailer(original))|
    ensures r.Err? ==> r.error.MalformedBaseline? || r.error.DuplicateTest?
  {
    LoadRows(EmptyTable, ParseEach(Lines(StripTrailer(original))))
  }

  /** The whole reconciliation on file contents: the output file's text, or why it failed. */
  function Merge(original: string, updates: seq<string>): (r: Result<string, MergeError>)
    ensures r.Ok? ==> |r.value| >= |Trailer| && r.value[|r.value| - |Trailer|..] == Trailer
    ensures r.Err? && r.error.MalformedUpdate? ==> r.error.index < |updates|
  {
    match Baseline(original)
    case Err(e) => Err(e)
    case Ok(base) =>
      match MergeUpdates(base, ReadUpdates(updates), 0)
      case Err(e) => Err(e)
      case Ok(merged) => Ok(Serialize(TableRows(merged)))
  }

  predicate AllReadable(files: seq<Option<seq<CostRecord>>>) {
    forall i :: 0 <= i < |files| ==> files[i].Some?
  }

  /** File `i` is the first one that does not deserialize. */
  predicate FirstUnreadable(files: seq<Option<seq<CostRecord>>>, i: int) {
    && 0 <= i < |files|
    && files[i].None?
    && forall k :: 0 <= k < i ==> files[k].Some?
  }

  /** The records of all files, file by file and row by row. */
  function UpdateRecords(files: seq<Option<seq<CostRecord>>>): seq<CostRecord>
    requires AllReadable(files)
    decreases |files|
  {
    if files == [] then [] else files[0].value + UpdateRecords(files[1..])
  }

  /** Every input deserializes and the baseline has no repeated name. */
  predicate CanMerge(original: string, updates: seq<string>) {
    && ReadRecordFile(original).Some?
    && Distinct(Names(ReadRecordFile(original).value))
    && AllReadable(ReadUpdates(updates))
  }

  /** Every record the reconciler sees, in the order it sees them. */
  function Seen(original: string, updates: seq<string>): seq<CostRecord>
    requires CanMerge(original, updates)
  {
    ReadRecordFile(original).value + UpdateRecords(ReadUpdates(updates))
  }

  lemma NamesAppend(a: seq<CostRecord>, b: seq<CostRecord>)
    ensures Names(a + b) == Names(a) + Names(b)
  {
  }

  /** Folding `a + b` is folding `a`, then `b`. */
  lemma {:induction false} MergeAllAppend(t: Table, a: seq<CostRecord>, b: seq<CostRecord>)
    ensures MergeAll(t, a + b) == MergeAll(MergeAll(t, a), b)
    decreases |b|
  {
    if b == [] {
      assert a + b == a;
    } else {
      var ab := a + b;
      assert ab[..|ab| - 1] == a + b[..|b| - 1];
      assert ab[|ab| - 1] == b[|b| - 1];
      MergeAllAppend(t, a, b[..|b| - 1]);
    }
  }

  /** A sequence without repetitions is its own first occurrences. */
  lemma {:induction false} FirstOccurrencesOfDistinct(s: seq<string>)
    requires Distinct(s)
    ensures FirstOccurrences(s) == s
    decreases |s|
  {
    if s != [] {
      var p := s[..|s| - 1];
      FirstOccurrencesOfDistinct(p);
      assert s[|s| - 1] !in p;
      assert p + [s[|s| - 1]] == s;
    }
  }

  /** Appending never reorders or removes what was first seen before. */
  lemma {:induction false} FirstOccurrencesPrefix(a: seq<string>, b: seq<string>)
    ensures FirstOccurrences(a) <= FirstOccurrences(a + b)
    decreases |b|
  {
    if b == [] {
      assert a + b == a;
    } else {
      var ab := a + b;
      assert ab[..|ab| - 1] == a + b[..|b| - 1];
      FirstOccurrencesPrefix(a, b[..|b| - 1]);
    }
  }

  /** The key order after folding: the names in the order they were first seen. */
  lemma {:induction false} MergeAllKeys(t: Table, seen: seq<CostRecord>)
    requires ValidTable(t)
    ensures MergeAll(t, seen).keys == FirstOccurrences(t.keys + Names(seen))
    decreases |seen|
  {
    if seen == [] {
      assert t.keys + Names(seen) == t.keys;
      FirstOccurrencesOfDistinct(t.keys);
    } else {
      var s := seen[..|seen| - 1];
      var r := seen[|seen| - 1];
      MergeAllKeys(t, s);
      var u := MergeAll(t, s);
      assert MergeAll(t, seen).keys == if r.testName in u.keys then u.keys else u.keys + [r.testName] by {
        MergeAllValid(t, s);
        MergeRecordKeys(u, r);
      }
      KeysThenNamesLast(t.keys, seen);
    }
  }

  /** Splitting the last record off `seen` splits its name off the keys followed by the names. */
  lemma KeysThenNamesLast(keys: seq<string>, seen: seq<CostRecord>)
    requires |seen| > 0
    ensures var all := keys + Names(seen);
            all[..|all| - 1] == keys + Names(seen[..|seen| - 1]) && all[|all| - 1] == seen[|seen| - 1].testName
  {
    var s := seen[..|seen| - 1];
    assert seen == s + [seen[|seen| - 1]];
    NamesAppend(s, [seen[|seen| - 1]]);
  }

  /** Merging a record adds its name as the last key when it is new, and otherwise keeps the keys. */
  lemma MergeRecordKeys(t: Table, r: CostRecord)
    requires ValidTable(t)
    ensures MergeRecord(t, r).keys == if r.testName in t.keys then t.keys else t.keys + [r.testName]
  {
  }

  /** A later record that is not fresher does not displace the freshest one. */
  lemma FreshestExtend(s: seq<CostRecord>, r: CostRecord, j: int)
    requires IsFreshest(s, j)
    requires r.testName == s[j].testName ==> r.count <= s[j].count
    ensures IsFreshest(s + [r], j)
  {
    var seen := s + [r];
    forall i | 0 <= i < |seen| && seen[i].testName == seen[j].testName
      ensures seen[i].count <= seen[j].count
    {
      if i < |s| { assert seen[i] == s[i]; }
    }
  }

  /** The last record is the freshest for its name when no earlier one reaches its count. */
  lemma FreshestLast(s: seq<CostRecord>, r: CostRecord)
    requires forall i :: 0 <= i < |s| && s[i].testName == r.testName ==> s[i].count < r.count
    ensures IsFreshest(s + [r], |s|)
  {
    var seen := s + [r];
    forall i | 0 <= i < |seen| && seen[i].testName == r.testName
      ensures seen[i].count <= r.count
    {
      if i < |s| { assert seen[i] == s[i]; }
    }
  }

  /**
   * Freshest wins over any sequence of records: the names kept are exactly
   * the names seen, and each is stored with the first record that reaches
   * the greatest count seen for that name.
   */
  lemma {:induction false} MergeAllFreshest(seen: seq<CostRecord>)
    ensures forall n :: n in MergeAll(EmptyTable, seen).entries <==> n in Names(seen)
    ensures forall n :: n in MergeAll(EmptyTable, seen).entries ==>
              exists j :: IsFreshest(seen, j) && seen[j] == MergeAll(EmptyTable, seen).entries[n]
    decreases |seen|
  {
    if seen != [] {
      var s := seen[..|seen| - 1];
      var r := seen[|seen| - 1];
      assert seen == s + [r];
      MergeAllFreshest(s);
      var u := MergeAll(EmptyTable, s);
      var w := MergeAll(EmptyTable, seen);
      assert w == MergeRecord(u, r);
      assert forall n :: n in w.entries <==> n in Names(seen) by {
        NamesAppend(s, [r]);
      }
      MergeAllValid(EmptyTable, s);
      forall n | n in w.entries
        ensures exists j :: IsFreshest(seen, j) && seen[j] == w.entries[n]
      {
        FreshestStep(s, r, u, n);
      }
    }
  }

  /** One step of `MergeAllFreshest`: the entry for `n` after folding in `r`. */
  lemma FreshestStep(s: seq<CostRecord>, r: CostRecord, u: Table, n: string)
    requires ValidTable(u)
    requires forall n :: n in u.entries <==> n in Names(s)
    requires forall n :: n in u.entries ==> exists j :: IsFreshest(s, j) && s[j] == u.entries[n]
    requires n in MergeRecord(u, r).entries
    ensures exists j :: IsFreshest(s + [r], j) && (s + [r])[j] == MergeRecord(u, r).entries[n]
  {
    var seen := s + [r];
    if n != r.testName {
      var j :| IsFreshest(s, j) && s[j] == u.entries[n];
      FreshestExtend(s, r, j);
      assert seen[j] == s[j];
    } else if n !in u.entries {
      forall i | 0 <= i < |s| ensures s[i].testName != r.testName {
        assert Names(s)[i] == s[i].testName;
      }
      FreshestLast(s, r);
    } else {
      var j :| IsFreshest(s, j) && s[j] == u.entries[n];
      if r.count > u.entries[n].count {
        FreshestLast(s, r);
      } else {
        FreshestExtend(s, r, j);
        assert seen[j] == s[j];
      }
    }
  }

  /**
   * Loading the baseline succeeds exactly when every row parses and no name
   * repeats (nor clashes with `t`).
   */
  lemma {:induction false} LoadRowsOk(t: Table, parsed: seq<Option<CostRecord>>)
    requires ValidTable(t)
    ensures LoadRows(t, parsed).Ok? <==> AllParsed(parsed) && Distinct(t.keys + Names(Parsed(parsed)))
    decreases |parsed|
  {
    if parsed != [] && parsed[0].Some? {
      var r0 := parsed[0].value;
      var rest := parsed[1..];
      assert AllParsed(parsed) <==> AllParsed(rest) by {
        assert forall i :: 0 < i < |parsed| ==> parsed[i] == rest[i - 1];
      }
      if r0.testName in t.entries {
        if AllParsed(parsed) {
          var ks := t.keys + Names(Parsed(parsed));
          assert !Distinct(ks) by {
            var k :| 0 <= k < |t.keys| && t.keys[k] == r0.testName;
            assert ks[k] == ks[|t.keys|];
          }
        }
      } else {
        var t1 := InsertTable(t, r0);
        assert ValidTable(t1) by {
          InsertTableValid(t, r0);
        }
        LoadRowsOk(t1, rest);
        if AllParsed(rest) {
          LoadStep(t, parsed);
        }
      }
    }
  }

  /** One baseline row loaded: the name sequence and the fold both advance by that row. */
  lemma LoadStep(t: Table, parsed: seq<Option<CostRecord>>)
    requires ValidTable(t) && parsed != [] && AllParsed(parsed)
    requires parsed[0].value.testName !in t.entries
    ensures AllParsed(parsed[1..])
    ensures t.keys + Names(Parsed(parsed)) == InsertTable(t, parsed[0].value).keys + Names(Parsed(parsed[1..]))
    ensures MergeAll(t, Parsed(parsed)) == MergeAll(InsertTable(t, parsed[0].value), Parsed(parsed[1..]))
  {
    var r0 := parsed[0].value;
    var rest := parsed[1..];
    assert forall i :: 0 <= i < |rest| ==> rest[i] == parsed[i + 1];
    var names := Names(Parsed(rest));
    assert Parsed(parsed) == [r0] + Parsed(rest);
    assert t.keys + Names(Parsed(parsed)) == InsertTable(t, r0).keys + names by {
      NamesAppend([r0], Parsed(rest));
      assert Names([r0]) == [r0.testName];
      assert t.keys + ([r0.testName] + names) == (t.keys + [r0.testName]) + names;
    }
    MergeAllAppend(t, [r0], Parsed(rest));
    assert MergeAll(t, [r0]) == MergeRecord(MergeAll(t, []), r0);
  }

  /** A loaded baseline holds the rows in row order: the fold of the parsed records. */
  lemma {:induction false} LoadRowsValue(t: Table, parsed: seq<Option<CostRecord>>)
    requires ValidTable(t) && LoadRows(t, parsed).Ok?
    ensures AllParsed(parsed)
    ensures LoadRows(t, parsed).value.keys == t.keys + Names(Parsed(parsed))
    ensures LoadRows(t, parsed).value == MergeAll(t, Parsed(parsed))
    decreases |parsed|
  {
    if parsed == [] {
      assert t.keys + Names(Parsed(parsed)) == t.keys;
    } else {
      var r0 := parsed[0].value;
      var t1 := InsertTable(t, r0);
      assert ValidTable(t1) by {
        InsertTableValid(t, r0);
      }
      LoadRowsValue(t1, parsed[1..]);
      assert AllParsed(parsed) by {
        assert forall i :: 0 < i < |parsed| ==> parsed[i] == parsed[1..][i - 1];
      }
      LoadStep(t, parsed);
    }
  }

  /** Rows that all parse but repeat a name fail with `DuplicateTest`. */
  lemma {:induction false} LoadRowsDuplicate(t: Table, parsed: seq<Option<CostRecord>>)
    requires ValidTable(t)
    requires AllParsed(parsed) && !Distinct(t.keys + Names(Parsed(parsed)))
    ensures LoadRows(t, parsed).Err? && LoadRows(t, parsed).error.DuplicateTest?
    decreases |parsed|
  {
    if parsed[0].value.testName !in t.entries {
      var t1 := InsertTable(t, parsed[0].value);
      assert ValidTable(t1) by {
        InsertTableValid(t, parsed[0].value);
      }
      LoadStep(t, parsed);
      LoadRowsDuplicate(t1, parsed[1..]);
    }
  }

  lemma {:induction false} LoadRowsValid(t: Table, parsed: seq<Option<CostRecord>>)
    requires ValidTable(t) && LoadRows(t, parsed).Ok?
    ensures ValidTable(LoadRows(t, parsed).value)
    decreases |parsed|
  {
    if parsed != [] {
      InsertTableValid(t, parsed[0].value);
      LoadRowsValid(InsertTable(t, parsed[0].value), parsed[1..]);
    }
  }

  /** Parsing line by line and parsing the whole file agree. */
  lemma ParseEachRows(rows: seq<string>)
    ensures AllParsed(ParseEach(rows)) <==> ReadRows(rows).Some?
    ensures AllParsed(ParseEach(rows)) ==> Parsed(ParseEach(rows)) == ReadRows(rows).value
  {
    ParseRowsSpec(rows, FirstWidth(rows));
    var parsed := ParseEach(rows);
    if AllParsed(parsed) {
      assert forall i :: 0 <= i < |rows| ==> ReadRow(rows[i], FirstWidth(rows)).Some? by {
        forall i | 0 <= i < |rows| ensures ReadRow(rows[i], FirstWidth(rows)).Some? {
          assert parsed[i] == ReadRow(rows[i], FirstWidth(rows));
        }
      }
      assert Parsed(parsed) == ReadRows(rows).value;
    }
  }

  /**
   * The baseline loads exactly when it deserializes and names no test twice;
   * the map then holds its rows in file order. A baseline that deserializes
   * but repeats a name fails with `DuplicateTest`.
   */
  lemma BaselineSpec(original: string)
    ensures Baseline(original).Ok? <==>
              ReadRecordFile(original).Some? && Distinct(Names(ReadRecordFile(original).value))
    ensures Baseline(original).Ok? ==>
              && ValidTable(Baseline(original).value)
              && Baseline(original).value.keys == Names(ReadRecordFile(original).value)
              && Baseline(original).value == MergeAll(EmptyTable, ReadRecordFile(original).value)
    ensures ReadRecordFile(original).Some? && !Distinct(Names(ReadRecordFile(original).value)) ==>
              Baseline(original).Err? && Baseline(original).error.DuplicateTest?
  {
    BaselineRows(Lines(StripTrailer(original)));
  }

  /** `BaselineSpec` on the baseline's lines. */
  lemma BaselineRows(rows: seq<string>)
    ensures LoadRows(EmptyTable, ParseEach(rows)).Ok? <==>
              ReadRows(rows).Some? && Distinct(Names(ReadRows(rows).value))
    ensures LoadRows(EmptyTable, ParseEach(rows)).Ok? ==>
              && ValidTable(LoadRows(EmptyTable, ParseEach(rows)).value)
              && LoadRows(EmptyTable, ParseEach(rows)).value.keys == Names(ReadRows(rows).value)
              && LoadRows(EmptyTable, ParseEach(rows)).value == MergeAll(EmptyTable, ReadRows(rows).value)
    ensures ReadRows(rows).Some? && !Distinct(Names(ReadRows(rows).value)) ==>
              LoadRows(EmptyTable, ParseEach(rows)).Err? && LoadRows(EmptyTable, ParseEach(rows)).error.DuplicateTest?
  {
    var parsed := ParseEach(rows);
    ParseEachRows(rows);
    LoadRowsOk(EmptyTable, parsed);
    if AllParsed(parsed) {
      assert EmptyTable.keys + Names(Parsed(parsed)) == Names(Parsed(parsed));
      if LoadRows(EmptyTable, parsed).Ok? {
        LoadRowsValue(EmptyTable, parsed);
        LoadRowsValid(EmptyTable, parsed);
      } else {
        LoadRowsDuplicate(EmptyTable, parsed);
      }
    }
  }

  /**
   * The update files merge exactly when all of them deserialize; the result
   * is then the fold of all their records.
   */
  lemma {:induction false} MergeUpdatesSpec(t: Table, files: seq<Option<seq<CostRecord>>>, index: nat)
    requires ValidTable(t)
    ensures MergeUpdates(t, files, index).Ok? <==> AllReadable(files)
    ensures AllReadable(files) ==>
              MergeUpdates(t, files, index) == Ok(MergeAll(t, UpdateRecords(files)))
    decreases |files|
  {
    if files != [] && files[0].Some? {
      var records := files[0].value;
      var rest := files[1..];
      MergeAllValid(t, records);
      MergeUpdatesSpec(MergeAll(t, records), rest, index + 1);
      assert AllReadable(files) <==> AllReadable(rest) by {
        assert forall i :: 0 < i < |files| ==> files[i] == rest[i - 1];
      }
      if AllReadable(files) {
        MergeAllAppend(t, records, UpdateRecords(rest));
      }
    }
  }

  /** The error names the first update file that does not deserialize. */
  lemma {:induction false} MergeUpdatesFailure(t: Table, files: seq<Option<seq<CostRecord>>>, index: nat, i: nat)
    requires FirstUnreadable(files, i)
    ensures MergeUpdates(t, files, index) == Err(MalformedUpdate(index + i))
    decreases i
  {
    if i > 0 {
      var rest := files[1..];
      assert FirstUnreadable(rest, i - 1) by {
        assert forall k :: 0 <= k < |rest| ==> rest[k] == files[k + 1];
      }
      MergeUpdatesFailure(MergeAll(t, files[0].value), rest, index + 1, i - 1);
    }
  }

  /**
   * A merge succeeds exactly when every file deserializes and the baseline
   * has no repeated name; its output is then the serialised fold of every
   * record seen, baseline first.
   */
  lemma MergeSucceeds(original: string, updates: seq<string>)
    ensures Merge(original, updates).Ok? <==> CanMerge(original, updates)
    ensures CanMerge(original, updates) ==>
              && ValidTable(MergeAll(EmptyTable, Seen(original, updates)))
              && Merge(original, updates) == Ok(Serialize(TableRows(MergeAll(EmptyTable, Seen(original, updates)))))
  {
    BaselineSpec(original);
    if Baseline(original).Ok? {
      var files := ReadUpdates(updates);
      MergeUpdatesSpec(Baseline(original).value, files, 0);
      if AllReadable(files) {
        var seen := ReadRecordFile(original).value + UpdateRecords(files);
        MergeAllAppend(EmptyTable, ReadRecordFile(original).value, UpdateRecords(files));
        MergeAllValid(EmptyTable, seen);
      }
    }
  }

  /** A baseline that deserializes but names a test twice is rejected before anything is written. */
  lemma BaselineDuplicateRejected(original: string, updates: seq<string>)
    requires ReadRecordFile(original).Some? && !Distinct(Names(ReadRecordFile(original).value))
    ensures Merge(original, updates).Err? && Merge(original, updates).error.DuplicateTest?
  {
    BaselineSpec(original);
  }

  /** With a sound baseline, the first update file that does not deserialize is the one reported. */
  lemma UpdateRejected(original: string, updates: seq<string>, i: nat)
    requires ReadRecordFile(original).Some? && Distinct(Names(ReadRecordFile(original).value))
    requires FirstUnreadable(ReadUpdates(updates), i)
    ensures Merge(original, updates) == Err(MalformedUpdate(i))
  {
    assert Baseline(original).Ok? by {
      BaselineSpec(original);
    }
    var base := Baseline(original).value;
    FirstUnreadableReported(base, ReadUpdates(updates), i);
    MergeAfterBaseline(original, updates, base, MalformedUpdate(i));
  }

  /** Folding update files from index 0 reports the first one that does not deserialize. */
  lemma FirstUnreadableReported(t: Table, files: seq<Option<seq<CostRecord>>>, i: nat)
    requires FirstUnreadable(files, i)
    ensures MergeUpdates(t, files, 0) == Err(MalformedUpdate(i))
  {
    MergeUpdatesFailure(t, files, 0, i);
  }

  /** Once the baseline has loaded, the merge reports what folding the updates reports. */
  lemma MergeAfterBaseline(original: string, updates: seq<string>, base: Table, e: MergeError)
    requires Baseline(original) == Ok(base) && MergeUpdates(base, ReadUpdates(updates), 0) == Err(e)
    ensures Merge(original, updates) == Err(e)
  {
  }

  /**
   * The rows a fold over records leaves: the names in the order first seen,
   * each with the first record that reaches the greatest count seen for it.
   */
  lemma MergeAllRows(seen: seq<CostRecord>)
    ensures var rows := TableRows(MergeAll(EmptyTable, seen));
            && Names(rows) == FirstOccurrences(Names(seen))
            && forall i :: 0 <= i < |rows| ==> exists j :: IsFreshest(seen, j) && seen[j] == rows[i]
  {
    var t := MergeAll(EmptyTable, seen);
    var rows := TableRows(t);
    assert Names(rows) == t.keys && forall i :: 0 <= i < |rows| ==> t.keys[i] in t.entries && rows[i] == t.entries[t.keys[i]] by {
      MergeAllValid(EmptyTable, seen);
      TableRowsSpec(t);
    }
    assert t.keys == FirstOccurrences(Names(seen)) by {
      MergeAllKeys(EmptyTable, seen);
      assert EmptyTable.keys + Names(seen) == Names(seen);
    }
    forall i | 0 <= i < |rows|
      ensures exists j :: IsFreshest(seen, j) && seen[j] == rows[i]
    {
      MergeAllFreshest(seen);
    }
  }

  lemma {:induction false} UpdateRecordsPlain(files: seq<Option<seq<CostRecord>>>)
    requires AllReadable(files)
    requires forall i :: 0 <= i < |files| ==> forall k :: 0 <= k < |files[i].value| ==> Plain(files[i].value[k])
    ensures forall i :: 0 <= i < |UpdateRecords(files)| ==> Plain(UpdateRecords(files)[i])
    decreases |files|
  {
    if files != [] {
      assert forall i :: 0 < i < |files| ==> files[i] == files[1..][i - 1];
      UpdateRecordsPlain(files[1..]);
    }
  }

  /** Every record seen came out of a parsed row, so it has plain fields. */
  lemma SeenPlain(original: string, updates: seq<string>)
    requires CanMerge(original, updates)
    ensures forall i :: 0 <= i < |Seen(original, updates)| ==> Plain(Seen(original, updates)[i])
  {
    var files := ReadUpdates(updates);
    ReadRecordsPlain(original);
    forall i | 0 <= i < |files|
      ensures forall k :: 0 <= k < |files[i].value| ==> Plain(files[i].value[k])
    {
      ReadRecordsPlain(updates[i]);
    }
    UpdateRecordsPlain(files);
  }

  /** The merged rows have plain fields, so the written file reads back as exactly those rows. */
  lemma MergedReadsBack(original: string, updates: seq<string>)
    requires CanMerge(original, updates)
    ensures Merge(original, updates).Ok?
    ensures ReadRecordFile(Merge(original, updates).value) ==
              Some(TableRows(MergeAll(EmptyTable, Seen(original, updates))))
  {
    var seen := Seen(original, updates);
    var rows := TableRows(MergeAll(EmptyTable, seen));
    MergeSucceeds(original, updates);
    SeenPlain(original, updates);
    MergeAllRows(seen);
    forall i | 0 <= i < |rows| ensures Plain(rows[i]) {
      var j :| IsFreshest(seen, j) && seen[j] == rows[i];
    }
    SerializeRoundTrip(rows);
  }

  /** Names the baseline already holds keep their places, ahead of any name the updates add. */
  lemma BaselineFirst(base: seq<CostRecord>, more: seq<CostRecord>)
    requires Distinct(Names(base))
    ensures Names(base) <= Names(TableRows(MergeAll(EmptyTable, base + more)))
  {
    MergeAllRows(base + more);
    NamesAppend(base, more);
    FirstOccurrencesPrefix(Names(base), Names(more));
    FirstOccurrencesOfDistinct(Names(base));
  }

  /** Records with distinct names load back into exactly those rows, in order. */
  lemma {:induction false} ReloadRows(rs: seq<CostRecord>)
    requires Distinct(Names(rs))
    ensures TableRows(MergeAll(EmptyTable, rs)) == rs
    decreases |rs|
  {
    if rs != [] {
      var s := rs[..|rs| - 1];
      var r := rs[|rs| - 1];
      assert Distinct(Names(s)) by {
        assert forall i :: 0 <= i < |s| ==> Names(s)[i] == Names(rs)[i];
      }
      ReloadRows(s);
      var u := MergeAll(EmptyTable, s);
      assert r.testName !in Names(TableRows(u)) by {
        forall i | 0 <= i < |s| ensures Names(s)[i] != r.testName {
          assert Names(s)[i] == Names(rs)[i] && Names(rs)[|s|] == r.testName;
        }
      }
      assert TableRows(MergeAll(EmptyTable, rs)) == TableRows(u) + [r] by {
        MergeAllValid(EmptyTable, s);
        MergeRecordSpec(u, r);
      }
      assert rs == s + [r];
    }
  }

  /**
   * The merged file is a valid baseline: reloading it with no updates writes
   * the very same file again.
   */
  lemma ReloadMerged(original: string, updates: seq<string>)
    requires Merge(original, updates).Ok?
    ensures Merge(Merge(original, updates).value, []) == Merge(original, updates)
  {
    MergeSucceeds(original, updates);
    MergedReadsBack(original, updates);
    var out := Merge(original, updates).value;
    var t := MergeAll(EmptyTable, Seen(original, updates));
    var rows := TableRows(t);
    TableRowsSpec(t);
    assert ReadUpdates([]) == [];
    assert CanMerge(out, []);
    MergeSucceeds(out, []);
    assert Seen(out, []) == rows;
    ReloadRows(rows);
  }

  /** Records of one name that share a count are the same record. */
  ghost predicate NoTies(seen: seq<CostRecord>) {
    forall i, j ::
      0 <= i < |seen| && 0 <= j < |seen| && seen[i].testName == seen[j].testName && seen[i].count == seen[j].count
      ==> seen[i] == seen[j]
  }

  /** Sequences with the same elements have the same names. */
  lemma NamesOfSameElements(a: seq<CostRecord>, b: seq<CostRecord>, n: string)
    requires forall x :: x in a <==> x in b
    ensures n in Names(a) <==> n in Names(b)
  {
    if n in Names(a) {
      var i :| 0 <= i < |a| && Names(a)[i] == n;
      assert a[i] in b;
      var k :| 0 <= k < |b| && b[k] == a[i];
      assert Names(b)[k] == n;
    }
    if n in Names(b) {
      var k :| 0 <= k < |b| && Names(b)[k] == n;
      assert b[k] in a;
      var i :| 0 <= i < |a| && a[i] == b[k];
      assert Names(a)[i] == n;
    }
  }

  /**
   * Which record ends up stored under each name does not depend on the order
   * the records arrive in, such as the order of the update files, as long as
   * no two records of a name tie on count. The key order can differ
   * (`ArrivalOrderShows`).
   */
  lemma MergeAllReordered(a: seq<CostRecord>, b: seq<CostRecord>)
    requires multiset(a) == multiset(b) && NoTies(a)
    ensures MergeAll(EmptyTable, a).entries == MergeAll(EmptyTable, b).entries
  {
    assert forall x :: x in a <==> x in b by {
      forall x ensures x in a <==> x in b {
        assert x in a <==> x in multiset(a);
        assert x in b <==> x in multiset(b);
      }
    }
    var ea := MergeAll(EmptyTable, a).entries;
    var eb := MergeAll(EmptyTable, b).entries;
    assert ea.Keys == eb.Keys by {
      MergeAllSameNames(a, b);
    }
    forall n | n in ea ensures ea[n] == eb[n] {
      MergeAllSameRecord(a, b, n);
    }
  }

  lemma MergeAllSameNames(a: seq<CostRecord>, b: seq<CostRecord>)
    requires forall x :: x in a <==> x in b
    ensures MergeAll(EmptyTable, a).entries.Keys == MergeAll(EmptyTable, b).entries.Keys
  {
    MergeAllFreshest(a);
    MergeAllFreshest(b);
    forall n ensures n in MergeAll(EmptyTable, a).entries <==> n in MergeAll(EmptyTable, b).entries {
      NamesOfSameElements(a, b, n);
    }
  }

  lemma MergeAllSameRecord(a: seq<CostRecord>, b: seq<CostRecord>, n: string)
    requires forall x :: x in a <==> x in b
    requires NoTies(a)
    requires n in MergeAll(EmptyTable, a).entries && n in MergeAll(EmptyTable, b).entries
    ensures MergeAll(EmptyTable, a).entries[n] == MergeAll(EmptyTable, b).entries[n]
  {
    var ea := MergeAll(EmptyTable, a).entries;
    var eb := MergeAll(EmptyTable, b).entries;
    var j, k;
    assert exists j :: IsFreshest(a, j) && a[j] == ea[n] by {
      MergeAllFreshest(a);
    }
    j :| IsFreshest(a, j) && a[j] == ea[n];
    assert exists k :: IsFreshest(b, k) && b[k] == eb[n] by {
      MergeAllFreshest(b);
    }
    k :| IsFreshest(b, k) && b[k] == eb[n];
    assert ea[n].testName == n && eb[n].testName == n by {
      MergeAllValid(EmptyTable, a);
      MergeAllValid(EmptyTable, b);
    }
    FreshestAgree(a, b, j, k);
  }

  /** Two orders of the same records without ties agree on the freshest record of a name. */
  lemma FreshestAgree(a: seq<CostRecord>, b: seq<CostRecord>, j: int, k: int)
    requires forall x :: x in a <==> x in b
    requires NoTies(a) && IsFreshest(a, j) && IsFreshest(b, k)
    requires a[j].testName == b[k].testName
    ensures a[j] == b[k]
  {
    assert a[j] in b;
    var k2 :| 0 <= k2 < |b| && b[k2] == a[j];
    assert b[k] in a;
    var j2 :| 0 <= j2 < |a| && a[j2] == b[k];
    assert a[j].count == a[j2].count;
  }

  /**
   * The output does depend on arrival order: two update files holding one
   * new test each, merged in either order, write their rows in that order.
   */
  lemma ArrivalOrderShows(x: CostRecord, y: CostRecord)
    requires Plain(x) && Plain(y) && x.testName != y.testName
    ensures Merge(Serialize([]), [Serialize([x]), Serialize([y])]) == Ok(Serialize([x, y]))
    ensures Merge(Serialize([]), [Serialize([y]), Serialize([x])]) == Ok(Serialize([y, x]))
    ensures Serialize([x, y]) != Serialize([y, x])
  {
    SerializeRoundTrip([]);
    SerializeRoundTrip([x]);
    SerializeRoundTrip([y]);
    SerializeRoundTrip([x, y]);
    SerializeRoundTrip([y, x]);
    MergedInOrder(x, y);
    MergedInOrder(y, x);
  }

  lemma MergedInOrder(x: CostRecord, y: CostRecord)
    requires x.testName != y.testName
    requires ReadRecordFile(Serialize([])) == Some([])
    requires ReadRecordFile(Serialize([x])) == Some([x]) && ReadRecordFile(Serialize([y])) == Some([y])
    ensures Merge(Serialize([]), [Serialize([x]), Serialize([y])]) == Ok(Serialize([x, y]))
  {
    var original := Serialize([]);
    var updates := [Serialize([x]), Serialize([y])];
    assert CanMerge(original, updates) && Seen(original, updates) == [x, y] by {
      assert ReadUpdates(updates) == [Some([x]), Some([y])];
      UpdateRecordsOfTwo([x], [y]);
      assert Distinct(Names([]));
    }
    assert TableRows(MergeAll(EmptyTable, [x, y])) == [x, y] by {
      assert Distinct(Names([x, y]));
      ReloadRows([x, y]);
    }
    MergeSucceeds(original, updates);
  }

  /** The records of two readable files: the first file's, then the second's. */
  lemma UpdateRecordsOfTwo(p: seq<CostRecord>, q: seq<CostRecord>)
    ensures UpdateRecords([Some(p), Some(q)]) == p + q
  {
    assert [Some(p), Some(q)][1..] == [Some(q)];
    assert [Some(q)][1..] == [];
    assert UpdateRecords([Some(q)]) == q + UpdateRecords([]);
  }

  /** Folding one more record is one more freshest-wins step. */
  lemma MergeAllSnoc(t: Table, s: seq<CostRecord>, r: CostRecord)
    ensures MergeAll(t, s + [r]) == MergeRecord(MergeAll(t, s), r)
  {
    assert (s + [r])[..|s|] == s;
  }

  /** Folding in a record whose name has row `i` replaces that row when it is fresher, and keeps it otherwise. */
  lemma FoldReplaces(s: seq<CostRecord>, r: CostRecord, rows: seq<CostRecord>, i: nat)
    requires TableRows(MergeAll(EmptyTable, s)) == rows
    requires i < |rows| && rows[i].testName == r.testName
    ensures TableRows(MergeAll(EmptyTable, s + [r])) == if r.count > rows[i].count then rows[i := r] else rows
  {
    MergeAllValid(EmptyTable, s);
    MergeAllSnoc(EmptyTable, s, r);
    MergeRecordSpec(MergeAll(EmptyTable, s), r);
  }

  /** Folding in a record with a new name appends it as the last row. */
  lemma FoldAppends(s: seq<CostRecord>, r: CostRecord, rows: seq<CostRecord>)
    requires TableRows(MergeAll(EmptyTable, s)) == rows && r.testName !in Names(rows)
    ensures TableRows(MergeAll(EmptyTable, s + [r])) == rows + [r]
  {
    MergeAllValid(EmptyTable, s);
    MergeAllSnoc(EmptyTable, s, r);
    MergeRecordSpec(MergeAll(EmptyTable, s), r);
  }

  lemma ThirdReplacesFirst(a: CostRecord, b: CostRecord, a2: CostRecord)
    ensures [a, b] + [a2] == [a, b, a2] && [a, b][0 := a2] == [a2, b]
  {
  }

  lemma AppendFourth(a: CostRecord, b: CostRecord, a2: CostRecord, b2: CostRecord)
    ensures [a, b, a2] + [b2] == [a, b, a2, b2]
  {
  }

  lemma AppendFifth(a: CostRecord, b: CostRecord, a2: CostRecord, b2: CostRecord, c: CostRecord)
    ensures [a, b, a2, b2] + [c] == [a, b, a2, b2, c]
  {
  }

  /** First step of the scenario below: the fresher `a2` takes `a`'s row. */
  lemma FreshestFresherReplaces(a: CostRecord, b: CostRecord, a2: CostRecord)
    requires a2.testName == a.testName && a.testName != b.testName && a2.count > a.count
    ensures TableRows(MergeAll(EmptyTable, [a, b, a2])) == [a2, b]
  {
    assert TableRows(MergeAll(EmptyTable, [a, b])) == [a, b] by {
      assert Distinct(Names([a, b]));
      ReloadRows([a, b]);
    }
    FoldReplaces([a, b], a2, [a, b], 0);
    ThirdReplacesFirst(a, b, a2);
  }

  /** Second step of the scenario below: the staler `b2` leaves `b`'s row alone. */
  lemma FreshestStalerKept(a: CostRecord, b: CostRecord, a2: CostRecord, b2: CostRecord)
    requires TableRows(MergeAll(EmptyTable, [a, b, a2])) == [a2, b]
    requires b2.testName == b.testName && b2.count <= b.count
    ensures TableRows(MergeAll(EmptyTable, [a, b, a2, b2])) == [a2, b]
  {
    FoldReplaces([a, b, a2], b2, [a2, b], 1);
    AppendFourth(a, b, a2, b2);
  }

  lemma ReadUpdatesOfTwo(u: string, v: string)
    ensures ReadUpdates([u, v]) == [ReadRecordFile(u), ReadRecordFile(v)]
  {
  }

  lemma ConcatAssoc(a: seq<CostRecord>, b: seq<CostRecord>, c: seq<CostRecord>)
    ensures a + (b + c) == a + b + c
  {
  }

  /** Two update files that read back as records yield those records in file order. */
  lemma UpdatesOfTwo(u: string, v: string, p: seq<CostRecord>, q: seq<CostRecord>)
    requires ReadRecordFile(u) == Some(p) && ReadRecordFile(v) == Some(q)
    ensures AllReadable(ReadUpdates([u, v])) && UpdateRecords(ReadUpdates([u, v])) == p + q
  {
    var files := ReadUpdates([u, v]);
    assert files == [Some(p), Some(q)] by {
      ReadUpdatesOfTwo(u, v);
    }
    UpdateRecordsOfTwo(p, q);
  }

  /** A baseline and two update files that read back as records are seen baseline first. */
  lemma SeenOfTwoUpdates(original: string, u: string, v: string, base: seq<CostRecord>, p: seq<CostRecord>, q: seq<CostRecord>)
    requires ReadRecordFile(original) == Some(base) && Distinct(Names(base))
    requires ReadRecordFile(u) == Some(p) && ReadRecordFile(v) == Some(q)
    ensures CanMerge(original, [u, v]) && Seen(original, [u, v]) == base + p + q
  {
    UpdatesOfTwo(u, v, p, q);
    ConcatAssoc(base, p, q);
  }

  /**
   * Written baseline and update files merge into the written fold of their
   * records, baseline first, when every record is plain and the baseline
   * repeats no name.
   */
  lemma MergeOfTwoUpdates(base: seq<CostRecord>, p: seq<CostRecord>, q: seq<CostRecord>)
    requires forall i :: 0 <= i < |base| ==> Plain(base[i])
    requires forall i :: 0 <= i < |p| ==> Plain(p[i])
    requires forall i :: 0 <= i < |q| ==> Plain(q[i])
    requires Distinct(Names(base))
    ensures Merge(Serialize(base), [Serialize(p), Serialize(q)]) == Ok(Serialize(TableRows(MergeAll(EmptyTable, base + p + q))))
  {
    SerializeRoundTrip(base);
    SerializeRoundTrip(p);
    SerializeRoundTrip(q);
    SeenOfTwoUpdates(Serialize(base), Serialize(p), Serialize(q), base, p, q);
    MergeSucceeds(Serialize(base), [Serialize(p), Serialize(q)]);
  }

  /**
   * The freshest-wins scenario: a baseline holds `a` and `b`; the updates
   * bring a fresher `a2`, a staler `b2` and a new `c`. The output keeps the
   * baseline's order, takes `a2`, keeps `b` and appends `c`.
   */
  lemma FreshestScenario(a: CostRecord, b: CostRecord, a2: CostRecord, b2: CostRecord, c: CostRecord)
    requires a2.testName == a.testName && b2.testName == b.testName
    requires a.testName != b.testName && c.testName != a.testName && c.testName != b.testName
    requires a2.count > a.count && b2.count <= b.count
    ensures TableRows(MergeAll(EmptyTable, [a, b, a2, b2, c])) == [a2, b, c]
  {
    FreshestFresherReplaces(a, b, a2);
    FreshestStalerKept(a, b, a2, b2);
    assert c.testName !in Names([a2, b]);
    FoldAppends([a, b, a2, b2], c, [a2, b]);
    AppendFifth(a, b, a2, b2, c);
  }

  lemma FiveInOrder(a: CostRecord, b: CostRecord, a2: CostRecord, b2: CostRecord, c: CostRecord)
    ensures [a, b] + [a2] + [b2, c] == [a, b, a2, b2, c]
  {
  }

  /** The same scenario on files: each file written by the tool and read back. */
  lemma FreshestScenarioFiles(a: CostRecord, b: CostRecord, a2: CostRecord, b2: CostRecord, c: CostRecord)
    requires Plain(a) && Plain(b) && Plain(a2) && Plain(b2) && Plain(c)
    requires a2.testName == a.testName && b2.testName == b.testName
    requires a.testName != b.testName && c.testName != a.testName && c.testName != b.testName
    requires a2.count > a.count && b2.count <= b.count
    ensures Merge(Serialize([a, b]), [Serialize([a2]), Serialize([b2, c])]) == Ok(Serialize([a2, b, c]))
  {
    MergeOfTwoUpdates([a, b], [a2], [b2, c]);
    FiveInOrder(a, b, a2, b2, c);
    FreshestScenario(a, b, a2, b2, c);
  }

  /**
   * A worked example: the baseline has A run 5 times and B run 3 times; one
   * update ran A 7 times, another ran B twice and the new test C once. A
   * takes the fresher row, B keeps the baseline row, C is appended. The
   * files are `A 5 1.0`, `B 3 2.0`, then `---`; `A 7 1.5`, `---`; and
   * `B 2 9.9`, `C 1 0.1`, `---`; the output is `A 7 1.5`, `B 3 2.0`,
   * `C 1 0.1`, `---`.
   */
  lemma WorkedExample()
    ensures var a5, b3 := CostRecord("A", 5, "1.0"), CostRecord("B", 3, "2.0");
            var a7, b2, c1 := CostRecord("A", 7, "1.5"), CostRecord("B", 2, "9.9"), CostRecord("C", 1, "0.1");
            Merge(Serialize([a5, b3]), [Serialize([a7]), Serialize([b2, c1])]) == Ok(Serialize([a7, b3, c1]))
  {
    var a5, b3 := CostRecord("A", 5, "1.0"), CostRecord("B", 3, "2.0");
    var a7, b2, c1 := CostRecord("A", 7, "1.5"), CostRecord("B", 2, "9.9"), CostRecord("C", 1, "0.1");
    assert Plain(a5) && Plain(b3) && Plain(a7) && Plain(b2) && Plain(c1);
    FreshestScenarioFiles(a5, b3, a7, b2, c1);
  }

  /** The example's records as lines of a cost file. */
  lemma WorkedExampleLines()
    ensures FormatLine(CostRecord("A", 5, "1.0")) == "A 5 1.0" && FormatLine(CostRecord("B", 3, "2.0")) == "B 3 2.0"
    ensures FormatLine(CostRecord("A", 7, "1.5")) == "A 7 1.5" && FormatLine(CostRecord("B", 2, "9.9")) == "B 2 9.9"
    ensures FormatLine(CostRecord("C", 1, "0.1")) == "C 1 0.1"
  {
    ExampleLine(CostRecord("A", 5, "1.0"), "A 5 1.0");
    ExampleLine(CostRecord("B", 3, "2.0"), "B 3 2.0");
    ExampleLine(CostRecord("A", 7, "1.5"), "A 7 1.5");
    ExampleLine(CostRecord("B", 2, "9.9"), "B 2 9.9");
    ExampleLine(CostRecord("C", 1, "0.1"), "C 1 0.1");
  }

  /** A record of the example, one-digit count, and its written line. */
  lemma ExampleLine(r: CostRecord, line: string)
    requires r.count < 10 && |r.testName| == 1 && |r.cost| == 3 && |line| == 7
    requires line[0] == r.testName[0] && line[1] == ' ' && line[2] == (r.count + '0' as int) as char && line[3] == ' '
    requires line[4..] == r.cost
    ensures FormatLine(r) == line
  {
    FormatLineFields(r);
  }

  /** A written line: name, count in decimal and cost, separated by single spaces. */
  lemma FormatLineFields(r: CostRecord)
    ensures FormatLine(r) == r.testName + " " + Decimal(r.count) + " " + r.cost
  {
    var parts := [r.testName, Decimal(r.count), r.cost];
    assert parts[1..] == [Decimal(r.count), r.cost] && parts[1..][1..] == [r.cost];
    assert Join(parts[1..], Delimiter) == Decimal(r.count) + [Delimiter] + r.cost;
  }

  /** Inserts the baseline rows one by one; a repeated name is fatal. */
  method LoadBaseline(recordMap: RecordMap, rows: seq<string>) returns (failure: Option<MergeError>)
    requires recordMap.Valid()
    modifies recordMap
    ensures recordMap.Valid()
    ensures failure.None? ==> LoadRows(old(recordMap.Snapshot()), ParseEach(rows)) == Ok(recordMap.Snapshot())
    ensures failure.Some? ==> LoadRows(old(recordMap.Snapshot()), ParseEach(rows)) == Err(failure.value)
  {
    ghost var parsed := ParseEach(rows);
    var width := FirstWidth(rows);
    for i := 0 to |rows|
      invariant recordMap.Valid()
      invariant LoadRows(recordMap.Snapshot(), parsed[i..]) == LoadRows(old(recordMap.Snapshot()), parsed)
    {
      assert parsed[i..][0] == parsed[i] && parsed[i..][1..] == parsed[i + 1..];
      var row := ReadRow(rows[i], width);
      if row.None? {
        return Some(MalformedBaseline);
      }
      var record := row.value;
      ghost var before := recordMap.Snapshot();
      var previous := recordMap.Insert(record);
      if previous.Some? {
        assert LoadRows(before, parsed[i..]) == Err(DuplicateTest(record.testName));
        return Some(DuplicateTest(record.testName));
      }
    }
    assert parsed[|rows|..] == [];
    return None;
  }

  /** Folds the records of one update file into the map, freshest wins. */
  method MergeRecords(recordMap: RecordMap, records: seq<CostRecord>)
    requires recordMap.Valid()
    modifies recordMap
    ensures recordMap.Valid()
    ensures recordMap.Snapshot() == MergeAll(old(recordMap.Snapshot()), records)
  {
    for j := 0 to |records|
      invariant recordMap.Valid()
      invariant recordMap.Snapshot() == MergeAll(old(recordMap.Snapshot()), records[..j])
    {
      var record := records[j];
      assert records[..j + 1][..j] == records[..j];
      var existing := recordMap.Get(record.testName);
      if existing.Some? {
        if record.count > existing.value.count {
          var _ := recordMap.Insert(record);
        }
      } else {
        var _ := recordMap.Insert(record);
      }
    }
    assert records[..|records|] == records;
  }

  /** The reconciler: the same steps as the specification, on a mutable ordered map. */
  method MergeCostUpdates(original: string, updates: seq<string>) returns (result: Result<string, MergeError>)
    ensures result == Merge(original, updates)
  {
    var recordMap := new RecordMap();
    var failure := LoadBaseline(recordMap, Lines(StripTrailer(original)));
    if failure.Some? {
      return Err(failure.value);
    }
    ghost var base := recordMap.Snapshot();
    ghost var files := ReadUpdates(updates);
    for f := 0 to |updates|
      invariant recordMap.Valid()
      invariant MergeUpdates(recordMap.Snapshot(), files[f..], f) == MergeUpdates(base, files, 0)
    {
      assert files[f..][0] == files[f] && files[f..][1..] == files[f + 1..];
      var read := ReadRecordFile(updates[f]);
      if read.None? {
        return Err(MalformedUpdate(f));
      }
      MergeRecords(recordMap, read.value);
    }
    assert files[|updates|..] == [];
    var out := WriteCostFile(recordMap.Records());
    return Ok(out);
  }
}
