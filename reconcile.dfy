/** One run of the reconcile-and-merge engine: the checks that stop a run, key
    construction on both tables, duplicate reporting and the last-wins collapse of the
    secondary table, the merge loop over the primary rows, and the append step. */
module Reconcile {
  import opened Values
  import opened Keys
  import opened Mapping
  import opened Duplicates
  import opened Merge
  import opened Append

  /** Why a run stops before merging. */
  datatype ConfigError =
    | EmptyInput        // one of the tables has no rows or no columns
    | NoCommonColumns   // the tables share no column
    | NoKeyColumns      // no key column chosen yet
    | KeyColumnMissing  // a key column is not a column of both tables
    | NoValidMapping    // the manual mapping is switched on but empty

  /** The user's choices: key columns in order, merge mode, whether to append missing
      records, and the manual mapping (None when the manual mapping is switched off). */
  datatype Settings = Settings(keyCols: seq<string>, mode: Mode, addMissing: bool, manual: Option<seq<Pair>>)

  /** The result table's rows, the four counters, and the duplicate keys reported for
      the primary and the secondary table. */
  datatype Outcome = Outcome(rows: seq<Record>, updated: nat, filled: nat, overwritten: nat, added: nat,
                             dupPrimary: set<string>, dupSecondary: set<string>)

  predicate IsEmpty(t: Table) {
    |t.rows| == 0 || |t.columns| == 0
  }

  predicate KeysInBoth(keyCols: seq<string>, t1: Table, t2: Table) {
    forall i :: 0 <= i < |keyCols| ==> keyCols[i] in t1.columns && keyCols[i] in t2.columns
  }

  /** The checks made before the merge, in the order the run makes them, and the
      mapping the run then uses: the manual one, or the identity over the common
      non-key columns. */
  function Prepare(t1: Table, t2: Table, s: Settings): (r: Result<seq<Pair>, ConfigError>)
    ensures r == Err(EmptyInput) <==> IsEmpty(t1) || IsEmpty(t2)
    ensures r == Err(NoCommonColumns) <==> !IsEmpty(t1) && !IsEmpty(t2) && CommonColumns(t1.columns, t2.columns) == []
    ensures r == Err(NoKeyColumns)
            <==> !IsEmpty(t1) && !IsEmpty(t2) && CommonColumns(t1.columns, t2.columns) != [] && s.keyCols == []
    ensures r == Err(KeyColumnMissing)
            <==> !IsEmpty(t1) && !IsEmpty(t2) && CommonColumns(t1.columns, t2.columns) != [] && s.keyCols != []
                 && !KeysInBoth(s.keyCols, t1, t2)
    ensures r == Err(NoValidMapping)
            <==> !IsEmpty(t1) && !IsEmpty(t2) && CommonColumns(t1.columns, t2.columns) != [] && s.keyCols != []
                 && KeysInBoth(s.keyCols, t1, t2) && s.manual == Some([])
    ensures r.Ok?
            <==> !IsEmpty(t1) && !IsEmpty(t2) && CommonColumns(t1.columns, t2.columns) != [] && s.keyCols != []
                 && KeysInBoth(s.keyCols, t1, t2) && s.manual != Some([])
    ensures r.Ok? && s.manual.None? ==> r.value == DefaultMapping(t1.columns, t2.columns, s.keyCols)
    ensures r.Ok? && s.manual.Some? ==> r.value == s.manual.value && r.value != []
  {
    if IsEmpty(t1) || IsEmpty(t2) then Err(EmptyInput)
    else if CommonColumns(t1.columns, t2.columns) == [] then Err(NoCommonColumns)
    else if s.keyCols == [] then Err(NoKeyColumns)
    else if !KeysInBoth(s.keyCols, t1, t2) then Err(KeyColumnMissing)
    else
      match s.manual
      case None => Ok(DefaultMapping(t1.columns, t2.columns, s.keyCols))
      case Some(m) => if m == [] then Err(NoValidMapping) else Ok(m)
  }

  lemma KeyColumnsPresent(t: Table, keyCols: seq<string>)
    requires t.Rectangular()
    requires forall i :: 0 <= i < |keyCols| ==> keyCols[i] in t.columns
    ensures forall i :: 0 <= i < |t.rows| ==> HasKeyColumns(t.rows[i], keyCols)
  {
  }

  /** The merge keys of a table's rows, in row order. */
  function TableKeys(t: Table, keyCols: seq<string>): (keys: seq<string>)
    requires t.Rectangular()
    requires forall i :: 0 <= i < |keyCols| ==> keyCols[i] in t.columns
    ensures |keys| == |t.rows|
    ensures forall i :: 0 <= i < |t.rows| ==> HasKeyColumns(t.rows[i], keyCols) && keys[i] == MergeKey(t.rows[i], keyCols, t.textColumns)
  {
    KeyColumnsPresent(t, keyCols);
    MergeKeys(t.rows, keyCols, t.textColumns)
  }

  /** The secondary records with their merge keys, in order. */
  function Entries(rows: seq<Record>, keys: seq<string>): (e: seq<Entry>)
    requires |keys| == |rows|
    ensures KeysOf(e) == keys
  {
    seq(|rows|, i requires 0 <= i < |rows| => (keys[i], rows[i]))
  }

  /** The secondary table the merge consults: collapsed to the last record per key when
      it has duplicate keys. */
  function Resolve(entries: seq<Entry>): seq<Entry> {
    if DuplicateKeys(KeysOf(entries)) != {} then LastWins(entries) else entries
  }

  function PrimaryKeys(keys: seq<string>): set<string> {
    set k | k in keys
  }

  function ColumnSet(cols: seq<string>): set<string> {
    set c | c in cols
  }

  /** A whole run on parsed tables. */
  function Run(t1: Table, t2: Table, s: Settings): Result<Outcome, ConfigError>
    requires t1.Rectangular() && t2.Rectangular()
  {
    match Prepare(t1, t2, s)
    case Err(e) => Err(e)
    case Ok(pairs) =>
      var keys1 := TableKeys(t1, s.keyCols);
      var keys2 := TableKeys(t2, s.keyCols);
      var resolved := Resolve(Entries(t2.rows, keys2));
      var m := MergeRows(t1.rows, keys1, Lookup(resolved), pairs, s.mode, t1.columns, t2.columns);
      var a := AppendSpec(m.rows, PrimaryKeys(keys1), resolved, ColumnSet(t2.columns), pairs, t1.columns, s.addMissing);
      Ok(Outcome(a.rows, m.updated, m.filled, m.overwritten, a.added, DuplicateKeys(keys1), DuplicateKeys(keys2)))
  }

  /** A run: the merge loop works in place on a copy of the primary rows. */
  method Reconcile(t1: Table, t2: Table, s: Settings) returns (r: Result<Outcome, ConfigError>)
    requires t1.Rectangular() && t2.Rectangular()
    ensures r == Run(t1, t2, s)
  {
    var prepared := Prepare(t1, t2, s);
    if prepared.Err? {
      return Err(prepared.error);
    }
    var pairs := prepared.value;
    var keys1 := TableKeys(t1, s.keyCols);
    var keys2 := TableKeys(t2, s.keyCols);
    var dup1, dup2 := DuplicateKeys(keys1), DuplicateKeys(keys2);
    var resolved := Entries(t2.rows, keys2);
    if dup2 != {} {
      resolved := LastWins(resolved);
    }
    assert resolved == Resolve(Entries(t2.rows, keys2));
    var lookup := Lookup(resolved);
    var table := CopyRows(t1.rows);
    var updated, filled, overwritten := MergeMatched(table, keys1, lookup, pairs, s.mode, t1.columns, t2.columns);
    ghost var m := MergeRows(t1.rows, keys1, lookup, pairs, s.mode, t1.columns, t2.columns);
    assert table[..] == m.rows;
    var a := AppendMissing(table[..], PrimaryKeys(keys1), resolved, ColumnSet(t2.columns), pairs, t1.columns, s.addMissing);
    r := Ok(Outcome(a.rows, updated, filled, overwritten, a.added, dup1, dup2));
  }

  /** A fresh array holding `rows`: the run works on a copy of the primary table. */
  method CopyRows(rows: seq<Record>) returns (table: array<Record>)
    ensures fresh(table) && table[..] == rows
  {
    table := new Record[|rows|](i requires 0 <= i < |rows| => rows[i]);
  }

  // ---------------------------------------------------------------------------
  // Properties of a whole run

  /** The secondary table the merge consults keeps, for every key, its last record, so
      the lookup answers each secondary key with its last record. */
  lemma ResolvedIsLastWins(entries: seq<Entry>)
    ensures Resolve(entries) == LastWins(entries)
    ensures Lookup(Resolve(entries)) == Lookup(entries)
    ensures DistinctKeys(Resolve(entries))
  {
    CollapseIffDuplicates(entries);
    LookupAfterCollapse(entries);
    LastWinsSpec(entries);
  }

  /** A successful run keeps the primary rows first, in their order and count; each is
      merged with the last secondary record of its key when that key is a secondary key
      and unchanged otherwise; the appended rows follow. */
  lemma RunKeepsPrimaryRows(t1: Table, t2: Table, s: Settings, i: int)
    requires t1.Rectangular() && t2.Rectangular()
    requires Prepare(t1, t2, s).Ok? && 0 <= i < |t1.rows|
    ensures var o := Run(t1, t2, s).value;
            var keys1 := TableKeys(t1, s.keyCols);
            var lookup := Lookup(Entries(t2.rows, TableKeys(t2, s.keyCols)));
            |o.rows| == |t1.rows| + o.added
            && o.rows[i] == if keys1[i] in lookup then MergeRow(t1.rows[i], lookup[keys1[i]], Prepare(t1, t2, s).value, s.mode, t1.columns, t2.columns).row
                            else t1.rows[i]
  {
    var pairs := Prepare(t1, t2, s).value;
    var keys1 := TableKeys(t1, s.keyCols);
    var entries := Entries(t2.rows, TableKeys(t2, s.keyCols));
    var resolved := Resolve(entries);
    ResolvedIsLastWins(entries);
    var m := MergeRows(t1.rows, keys1, Lookup(resolved), pairs, s.mode, t1.columns, t2.columns);
    MergeRowsAt(t1.rows, keys1, Lookup(resolved), pairs, s.mode, t1.columns, t2.columns, i);
    AppendShape(m.rows, PrimaryKeys(keys1), resolved, ColumnSet(t2.columns), pairs, t1.columns, s.addMissing);
    var a := AppendSpec(m.rows, PrimaryKeys(keys1), resolved, ColumnSet(t2.columns), pairs, t1.columns, s.addMissing);
    assert a.rows[i] == a.rows[..|m.rows|][i];
  }

  /** With append switched on, the appended keys are exactly the secondary keys that are
      not primary keys, each once; with it switched off nothing is appended. */
  lemma RunAppendsMissingKeys(t1: Table, t2: Table, s: Settings)
    requires t1.Rectangular() && t2.Rectangular()
    requires Prepare(t1, t2, s).Ok?
    ensures var o := Run(t1, t2, s).value;
            var keys1 := TableKeys(t1, s.keyCols);
            var entries := Entries(t2.rows, TableKeys(t2, s.keyCols));
            var missing := MissingEntries(LastWins(entries), PrimaryKeys(keys1));
            (s.addMissing ==> o.added == |missing| && KeySet(missing) == KeySet(entries) - PrimaryKeys(keys1)
                              && DistinctKeys(missing) && Subseq(missing, entries)
                              && o.rows[|t1.rows|..]
                                 == CopyMapped(Frame(RecordsOf(missing), ColumnSet(t2.columns)),
                                               Prepare(t1, t2, s).value, t1.columns).records)
            && (!s.addMissing ==> o.added == 0 && |o.rows| == |t1.rows|)
  {
    var pairs := Prepare(t1, t2, s).value;
    var keys1 := TableKeys(t1, s.keyCols);
    var entries := Entries(t2.rows, TableKeys(t2, s.keyCols));
    var resolved := Resolve(entries);
    ResolvedIsLastWins(entries);
    LastWinsSpec(entries);
    MissingKeys(resolved, PrimaryKeys(keys1));
    var m := MergeRows(t1.rows, keys1, Lookup(resolved), pairs, s.mode, t1.columns, t2.columns);
    AppendShape(m.rows, PrimaryKeys(keys1), resolved, ColumnSet(t2.columns), pairs, t1.columns, s.addMissing);
    MissingEntriesInOrder(resolved, PrimaryKeys(keys1));
    SubseqTrans(MissingEntries(resolved, PrimaryKeys(keys1)), resolved, entries);
  }

  /** With a mapping whose destinations are distinct and a primary table whose columns
      are distinct, the counters of a run mean what they report: changed primary rows,
      cells filled, cells overwritten; in "fill empty only" mode nothing is overwritten. */
  lemma RunCounters(t1: Table, t2: Table, s: Settings)
    requires t1.Rectangular() && t2.Rectangular()
    requires NoRepeats(t1.columns)
    requires s.manual.Some? ==> DistinctDests(s.manual.value)
    requires Prepare(t1, t2, s).Ok?
    ensures var o := Run(t1, t2, s).value;
            var merged := o.rows[..|t1.rows|];
            |o.rows| >= |t1.rows|
            && o.updated == |ChangedRows(t1.rows, merged)|
            && o.filled == TotalFilled(t1.rows, merged)
            && o.overwritten == TotalOverwritten(t1.rows, merged)
            && (s.mode == FillEmptyOnly ==> o.overwritten == 0)
  {
    var pairs := Prepare(t1, t2, s).value;
    if s.manual.None? {
      DefaultMappingDistinct(t1.columns, t2.columns, s.keyCols);
    }
    var keys1 := TableKeys(t1, s.keyCols);
    var entries := Entries(t2.rows, TableKeys(t2, s.keyCols));
    var resolved := Resolve(entries);
    var lookup := Lookup(resolved);
    assert HasColumns(t1.rows, t1.columns);
    var m := MergeRows(t1.rows, keys1, lookup, pairs, s.mode, t1.columns, t2.columns);
    UpdatedCountsChangedRows(t1.rows, keys1, lookup, pairs, s.mode, t1.columns, t2.columns);
    CellCountersMeaning(t1.rows, keys1, lookup, pairs, s.mode, t1.columns, t2.columns);
    FillModeNeverOverwrites(t1.rows, keys1, lookup, pairs, t1.columns, t2.columns);
    AppendShape(m.rows, PrimaryKeys(keys1), resolved, ColumnSet(t2.columns), pairs, t1.columns, s.addMissing);
  }

  /** A successful run, phase by phase. */
  lemma RunSteps(t1: Table, t2: Table, s: Settings, pairs: seq<Pair>, keys1: seq<string>, keys2: seq<string>,
                 resolved: seq<Entry>, m: MergeResult, a: Appended)
    requires t1.Rectangular() && t2.Rectangular()
    requires Prepare(t1, t2, s) == Ok(pairs)
    requires keys1 == TableKeys(t1, s.keyCols) && keys2 == TableKeys(t2, s.keyCols)
    requires resolved == Resolve(Entries(t2.rows, keys2))
    requires m == MergeRows(t1.rows, keys1, Lookup(resolved), pairs, s.mode, t1.columns, t2.columns)
    requires a == AppendSpec(m.rows, PrimaryKeys(keys1), resolved, ColumnSet(t2.columns), pairs, t1.columns, s.addMissing)
    ensures Run(t1, t2, s) == Ok(Outcome(a.rows, m.updated, m.filled, m.overwritten, a.added, DuplicateKeys(keys1), DuplicateKeys(keys2)))
  {
  }

  // ---------------------------------------------------------------------------
  // A worked example: primary ids 1 and 2, secondary ids 1 and 3, key `id`

  const ExCols: seq<string> := ["id", "name", "city"]
  const ExP1: Record := map["id" := Number(1), "name" := Text(""), "city" := Text("Hanoi")]
  const ExP2: Record := map["id" := Number(2), "name" := Text("Bao"), "city" := Text("")]
  const ExQ1: Record := map["id" := Number(1), "name" := Text("An"), "city" := Text("HN")]
  const ExQ3: Record := map["id" := Number(3), "name" := Text("Chi"), "city" := Text("HCM")]
  const ExPrimary: Table := Table(ExCols, {"name", "city"}, [ExP1, ExP2])
  const ExSecondary: Table := Table(ExCols, {"name", "city"}, [ExQ1, ExQ3])
  const ExSettings: Settings := Settings(["id"], FillEmptyOnly, true, None)
  const ExPairs: seq<Pair> := [("name", "name"), ("city", "city")]
  const ExEntries: seq<Entry> := [("1", ExQ1), ("3", ExQ3)]

  lemma ExampleColumns()
    ensures CommonColumns(ExCols, ExCols) == ExCols
    ensures NonKey(ExCols, ["id"]) == ["name", "city"]
  {
    var c := ["city"];
    var nc := ["name", "city"];
    assert ExCols[1..] == nc && nc[1..] == c && c[1..] == [];
    assert "city" in ExCols && "name" in ExCols && "id" in ExCols;
    assert CommonColumns(c, ExCols) == c;
    assert CommonColumns(nc, ExCols) == nc;
    assert "city" !in ["id"] && "name" !in ["id"];
    assert NonKey(c, ["id"]) == c;
    assert NonKey(nc, ["id"]) == nc;
  }

  lemma ExampleDefaultMapping()
    ensures DefaultMapping(ExCols, ExCols, ["id"]) == ExPairs
  {
    ExampleColumns();
  }

  lemma ExampleChecks()
    ensures !IsEmpty(ExPrimary) && !IsEmpty(ExSecondary)
    ensures CommonColumns(ExPrimary.columns, ExSecondary.columns) != []
    ensures KeysInBoth(ExSettings.keyCols, ExPrimary, ExSecondary)
  {
    assert ExPrimary.columns == ExCols && ExSecondary.columns == ExCols;
    assert |ExPrimary.rows| == 2 && |ExSecondary.rows| == 2;
    ExampleColumns();
    assert ExSettings.keyCols == ["id"] && "id" in ExCols;
  }

  lemma ExampleMapping()
    ensures Prepare(ExPrimary, ExSecondary, ExSettings) == Ok(ExPairs)
  {
    ExampleChecks();
    ExampleDefaultMapping();
  }

  lemma ExampleKey(r: Record, n: nat, text: string)
    requires "id" in r && r["id"] == Number(n) && NatToString(n) == text
    ensures HasKeyColumns(r, ["id"]) && MergeKey(r, ["id"], {"name", "city"}) == text
  {
    var nr := NormalizeRecord(r, ["id"], {"name", "city"});
    assert "id" !in {"name", "city"};
    assert nr["id"] == Number(n);
    assert Rendered(nr, ["id"]) == [text];
  }

  lemma ExampleRecordKeys(a: Value, b: Value, c: Value)
    ensures map["id" := a, "name" := b, "city" := c].Keys == ColumnSet(ExCols)
  {
    assert ColumnSet(ExCols) == {"id", "name", "city"};
  }

  lemma ExampleRectangular()
    ensures ExPrimary.Rectangular() && ExSecondary.Rectangular()
  {
    ExampleRecordKeys(Number(1), Text(""), Text("Hanoi"));
    ExampleRecordKeys(Number(2), Text("Bao"), Text(""));
    ExampleRecordKeys(Number(1), Text("An"), Text("HN"));
    ExampleRecordKeys(Number(3), Text("Chi"), Text("HCM"));
  }

  /** The keys of a two-row table. */
  lemma TableKeysOfTwo(t: Table, keyCols: seq<string>, k0: string, k1: string)
    requires t.Rectangular() && |t.rows| == 2
    requires forall i :: 0 <= i < |keyCols| ==> keyCols[i] in t.columns
    requires MergeKey(t.rows[0], keyCols, t.textColumns) == k0 && MergeKey(t.rows[1], keyCols, t.textColumns) == k1
    ensures TableKeys(t, keyCols) == [k0, k1]
  {
  }

  lemma ExampleKeys()
    ensures ExPrimary.Rectangular() && ExSecondary.Rectangular()
    ensures TableKeys(ExPrimary, ["id"]) == ["1", "2"]
    ensures TableKeys(ExSecondary, ["id"]) == ["1", "3"]
  {
    ExampleRectangular();
    assert "id" in ExCols;
    assert NatToString(1) == "1" && NatToString(2) == "2" && NatToString(3) == "3";
    ExampleKey(ExP1, 1, "1");
    ExampleKey(ExP2, 2, "2");
    ExampleKey(ExQ1, 1, "1");
    ExampleKey(ExQ3, 3, "3");
    TableKeysOfTwo(ExPrimary, ["id"], "1", "2");
    TableKeysOfTwo(ExSecondary, ["id"], "1", "3");
  }

  lemma ExampleLookup()
    ensures Entries(ExSecondary.rows, ["1", "3"]) == ExEntries
    ensures DuplicateKeys(["1", "2"]) == {} && DuplicateKeys(["1", "3"]) == {}
    ensures Resolve(ExEntries) == ExEntries
    ensures Lookup(ExEntries) == map["1" := ExQ1, "3" := ExQ3]
  {
    assert KeysOf(ExEntries) == ["1", "3"];
    assert ExEntries[..1] == [("1", ExQ1)];
  }

  /** Two mapping pairs applied in order. */
  lemma MergeRowOfTwo(row: Record, row2: Record, p: Pair, q: Pair, mode: Mode, cols1: seq<string>, cols2: seq<string>)
    ensures MergeRow(row, row2, [p, q], mode, cols1, cols2)
            == Step(Step(RowResult(row, 0, 0), row2, p, mode, cols1, cols2), row2, q, mode, cols1, cols2)
  {
    assert [p, q][..1] == [p] && [p][..0] == [];
    assert MergeRow(row, row2, [p], mode, cols1, cols2) == Step(RowResult(row, 0, 0), row2, p, mode, cols1, cols2);
  }

  /** The merge loop over two rows of which only the first has a secondary match. */
  lemma MergeRowsOfTwo(a: Record, b: Record, k0: string, k1: string, lookup: map<string, Record>, pairs: seq<Pair>,
                       mode: Mode, cols1: seq<string>, cols2: seq<string>, rr: RowResult)
    requires k0 in lookup && k1 !in lookup
    requires rr == MergeRow(a, lookup[k0], pairs, mode, cols1, cols2)
    ensures MergeRows([a, b], [k0, k1], lookup, pairs, mode, cols1, cols2)
            == MergeResult([rr.row, b], if rr.filled + rr.overwritten > 0 then 1 else 0, rr.filled, rr.overwritten)
  {
    var rows := [a, b];
    var keys := [k0, k1];
    var up := if rr.filled + rr.overwritten > 0 then 1 else 0;
    assert MergeRows(rows[..1], keys[..1], lookup, pairs, mode, cols1, cols2)
           == MergeResult([rr.row], up, rr.filled, rr.overwritten) by {
      assert rows[..0] == [] && keys[..0] == [];
      MergeRowsNext(rows, keys, lookup, pairs, mode, cols1, cols2, 0);
    }
    assert rows[..2] == rows && keys[..2] == keys;
    MergeRowsNext(rows, keys, lookup, pairs, mode, cols1, cols2, 1);
  }

  /** The empty primary name is filled from the secondary one. */
  lemma ExampleNameStep()
    ensures Step(RowResult(ExP1, 0, 0), ExQ1, ("name", "name"), FillEmptyOnly, ExCols, ExCols)
            == RowResult(ExP1["name" := Text("An")], 1, 0)
  {
    assert Applies(("name", "name"), ExCols, ExCols) by { assert ExCols[1] == "name"; }
    assert Cell(ExP1, "name") == Text("") && Cell(ExQ1, "name") == Text("An");
    assert !IsBlankSource(Text("An")) by {
      assert !IsSpace("An"[0]);
      assert !AllSpace("An");
    }
  }

  /** The non-empty primary city is kept in "fill empty only" mode. */
  lemma ExampleCityStep(r1: Record)
    requires r1 == ExP1["name" := Text("An")]
    ensures Step(RowResult(r1, 1, 0), ExQ1, ("city", "city"), FillEmptyOnly, ExCols, ExCols) == RowResult(r1, 1, 0)
  {
    assert Cell(r1, "city") == Text("Hanoi");
    assert !IsEmptyCell(Text("Hanoi"));
  }

  lemma ExampleRowMerge()
    ensures MergeRow(ExP1, ExQ1, ExPairs, FillEmptyOnly, ExCols, ExCols) == RowResult(ExP1["name" := Text("An")], 1, 0)
  {
    MergeRowOfTwo(ExP1, ExQ1, ("name", "name"), ("city", "city"), FillEmptyOnly, ExCols, ExCols);
    ExampleNameStep();
    ExampleCityStep(ExP1["name" := Text("An")]);
  }

  lemma ExampleMerge()
    ensures MergeRows([ExP1, ExP2], ["1", "2"], map["1" := ExQ1, "3" := ExQ3], ExPairs, FillEmptyOnly, ExCols, ExCols)
            == MergeResult([ExP1["name" := Text("An")], ExP2], 1, 1, 0)
  {
    var lookup := map["1" := ExQ1, "3" := ExQ3];
    assert "1" in lookup && "2" !in lookup && lookup["1"] == ExQ1;
    ExampleRowMerge();
    MergeRowsOfTwo(ExP1, ExP2, "1", "2", lookup, ExPairs, FillEmptyOnly, ExCols, ExCols,
                   RowResult(ExP1["name" := Text("An")], 1, 0));
  }

  lemma ExampleAppend(merged: seq<Record>)
    ensures AppendSpec(merged, PrimaryKeys(["1", "2"]), ExEntries, ColumnSet(ExCols), ExPairs, ExCols, true)
            == Appended(merged + [ExQ3], 1)
  {
    assert PrimaryKeys(["1", "2"]) == {"1", "2"};
    assert MissingEntries(ExEntries, {"1", "2"}) == [("3", ExQ3)] by {
      assert ExEntries[0].0 == "1" && ExEntries[1..] == [("3", ExQ3)];
      assert "3" !in {"1", "2"};
      assert MissingEntries([("3", ExQ3)], {"1", "2"}) == [("3", ExQ3)] by {
        assert [("3", ExQ3)][1..] == [];
      }
    }
    var f := Frame([ExQ3], ColumnSet(ExCols));
    assert RecordsOf([("3", ExQ3)]) == [ExQ3];
    assert ExPairs[..1] == [("name", "name")];
    assert CopyMapped(f, ExPairs[..1], ExCols).records == [ExQ3] by {
      assert ExQ3["name" := Cell(ExQ3, "name")] == ExQ3;
    }
    assert CopyMapped(f, ExPairs, ExCols).records == [ExQ3] by {
      assert ExQ3["city" := Cell(ExQ3, "city")] == ExQ3;
    }
  }

  lemma ExampleRun()
    ensures ExPrimary.Rectangular() && ExSecondary.Rectangular()
    ensures Run(ExPrimary, ExSecondary, ExSettings)
            == Ok(Outcome([ExP1["name" := Text("An")], ExP2] + [ExQ3], 1, 1, 0, 1, DuplicateKeys(["1", "2"]), DuplicateKeys(["1", "3"])))
  {
    ExampleMapping();
    ExampleKeys();
    ExampleLookup();
    var merged := [ExP1["name" := Text("An")], ExP2];
    ExampleMerge();
    ExampleAppend(merged);
    RunSteps(ExPrimary, ExSecondary, ExSettings, ExPairs, ["1", "2"], ["1", "3"], ExEntries,
             MergeResult(merged, 1, 1, 0), Appended(merged + [ExQ3], 1));
  }

  lemma ExampleRows()
    ensures [ExP1["name" := Text("An")], ExP2] + [ExQ3] == [ExP1["name" := Text("An")], ExP2, ExQ3]
  {
  }

  /** Row 1 gets its empty name filled and keeps its non-empty city, row 2 has no
      secondary match and is unchanged, the record with id 3 is appended, and the
      counters are 1 updated, 1 filled, 0 overwritten, 1 added, with no duplicate key
      reported on either side. */
  lemma WorkedExample()
    ensures ExPrimary.Rectangular() && ExSecondary.Rectangular()
    ensures Run(ExPrimary, ExSecondary, ExSettings)
            == Ok(Outcome([ExP1["name" := Text("An")], ExP2, ExQ3], 1, 1, 0, 1, {}, {}))
  {
    ExampleRun();
    ExampleRows();
    ExampleLookup();
  }
}
