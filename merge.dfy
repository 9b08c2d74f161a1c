/** The merge executor: walks the primary rows in order and, for each row whose merge
    key is in the secondary lookup, applies the mapping pairs one cell at a time in
    "fill empty only" or "overwrite if different" mode, counting filled cells,
    overwritten cells and updated rows. */
module Merge {
  import opened Values
  import opened Mapping

  datatype Mode = FillEmptyOnly | OverwriteIfDifferent

  /** What happens to one destination cell. */
  datatype Action = Keep | Fill | Overwrite

  /** The decision for destination cell `val1` and source cell `val2`: a blank source
      is never copied; an empty destination is filled in either mode; otherwise the
      overwrite mode replaces a value that is not `==` to the source. */
  function Decide(mode: Mode, val1: Value, val2: Value): Action {
    if IsBlankSource(val2) then Keep
    else if IsEmptyCell(val1) then Fill
    else if mode == OverwriteIfDifferent && !PyEq(val1, val2) then Overwrite
    else Keep
  }

  function Apply(a: Action, val1: Value, val2: Value): Value {
    if a == Keep then val1 else val2
  }

  /** A pair takes part when its destination is a primary column and its source a
      secondary column; the others are skipped. */
  predicate Applies(p: Pair, cols1: seq<string>, cols2: seq<string>) {
    p.0 in cols1 && p.1 in cols2
  }

  /** A row being merged, with the cells filled and overwritten in it so far. */
  datatype RowResult = RowResult(row: Record, filled: nat, overwritten: nat)

  /** Applies one mapping pair to a row being merged against secondary record `row2`. */
  function Step(prev: RowResult, row2: Record, p: Pair, mode: Mode, cols1: seq<string>, cols2: seq<string>): RowResult {
    if !Applies(p, cols1, cols2) then prev
    else
      var val2 := Cell(row2, p.1);
      match Decide(mode, Cell(prev.row, p.0), val2)
      case Keep => prev
      case Fill => RowResult(prev.row[p.0 := val2], prev.filled + 1, prev.overwritten)
      case Overwrite => RowResult(prev.row[p.0 := val2], prev.filled, prev.overwritten + 1)
  }

  /** A matched primary row after all mapping pairs, in order. */
  function MergeRow(row: Record, row2: Record, pairs: seq<Pair>, mode: Mode, cols1: seq<string>, cols2: seq<string>): RowResult
    decreases |pairs|
  {
    if pairs == [] then RowResult(row, 0, 0)
    else Step(MergeRow(row, row2, pairs[..|pairs| - 1], mode, cols1, cols2), row2, pairs[|pairs| - 1], mode, cols1, cols2)
  }

  /** The merged primary rows and the three counters of the merge loop. */
  datatype MergeResult = MergeResult(rows: seq<Record>, updated: nat, filled: nat, overwritten: nat)

  /** The merge loop over the primary rows `rows`, whose merge keys are `keys`. */
  function MergeRows(rows: seq<Record>, keys: seq<string>, lookup: map<string, Record>, pairs: seq<Pair>,
                     mode: Mode, cols1: seq<string>, cols2: seq<string>): (r: MergeResult)
    requires |keys| == |rows|
    ensures |r.rows| == |rows|
    ensures r.updated <= |rows|
    decreases |rows|
  {
    if rows == [] then MergeResult([], 0, 0, 0)
    else
      var n := |rows| - 1;
      var prev := MergeRows(rows[..n], keys[..n], lookup, pairs, mode, cols1, cols2);
      if keys[n] in lookup then
        var rr := MergeRow(rows[n], lookup[keys[n]], pairs, mode, cols1, cols2);
        MergeResult(prev.rows + [rr.row], prev.updated + (if rr.filled + rr.overwritten > 0 then 1 else 0),
                    prev.filled + rr.filled, prev.overwritten + rr.overwritten)
      else MergeResult(prev.rows + [rows[n]], prev.updated, prev.filled, prev.overwritten)
  }

  /** Merges one matched row in place: applies the mapping pairs in order to `table[i]`
      against the secondary record `row2`, writing one cell at a time. */
  method MergeRowInPlace(table: array<Record>, i: nat, row2: Record, pairs: seq<Pair>,
                         mode: Mode, cols1: seq<string>, cols2: seq<string>)
    returns (filled: nat, overwritten: nat)
    requires i < table.Length
    modifies table
    ensures var rr := MergeRow(old(table[i]), row2, pairs, mode, cols1, cols2);
            table[..] == old(table[..])[i := rr.row] && filled == rr.filled && overwritten == rr.overwritten
  {
    ghost var orig := table[..];
    filled, overwritten := 0, 0;
    var j := 0;
    while j < |pairs|
      invariant 0 <= j <= |pairs|
      invariant var rr := MergeRow(orig[i], row2, pairs[..j], mode, cols1, cols2);
                table[..] == orig[i := rr.row] && filled == rr.filled && overwritten == rr.overwritten
    {
      assert pairs[..j + 1][..j] == pairs[..j];
      var dest, src := pairs[j].0, pairs[j].1;
      if dest in cols1 && src in cols2 {
        var val1 := Cell(table[i], dest);
        var val2 := Cell(row2, src);
        if !IsBlankSource(val2) {
          if IsEmptyCell(val1) {
            table[i] := table[i][dest := val2];
            filled := filled + 1;
          } else if mode == OverwriteIfDifferent && !PyEq(val1, val2) {
            table[i] := table[i][dest := val2];
            overwritten := overwritten + 1;
          }
        }
      }
      j := j + 1;
    }
    assert pairs[..|pairs|] == pairs;
  }

  /** One more primary row extends the merge loop by that row's outcome. */
  lemma MergeRowsNext(rows: seq<Record>, keys: seq<string>, lookup: map<string, Record>, pairs: seq<Pair>,
                      mode: Mode, cols1: seq<string>, cols2: seq<string>, i: nat)
    requires |keys| == |rows| && i < |rows|
    ensures var prev := MergeRows(rows[..i], keys[..i], lookup, pairs, mode, cols1, cols2);
            var next := MergeRows(rows[..i + 1], keys[..i + 1], lookup, pairs, mode, cols1, cols2);
            if keys[i] in lookup then
              var rr := MergeRow(rows[i], lookup[keys[i]], pairs, mode, cols1, cols2);
              next.rows == prev.rows + [rr.row] && next.filled == prev.filled + rr.filled
              && next.overwritten == prev.overwritten + rr.overwritten
              && next.updated == prev.updated + (if rr.filled + rr.overwritten > 0 then 1 else 0)
            else next == MergeResult(prev.rows + [rows[i]], prev.updated, prev.filled, prev.overwritten)
  {
    assert rows[..i + 1][..i] == rows[..i] && keys[..i + 1][..i] == keys[..i];
  }

  /** A primary row with a secondary match adds its merged row and its counts. */
  lemma MergeRowsHit(rows: seq<Record>, keys: seq<string>, lookup: map<string, Record>, pairs: seq<Pair>,
                     mode: Mode, cols1: seq<string>, cols2: seq<string>, i: nat, rr: RowResult)
    requires |keys| == |rows| && i < |rows| && keys[i] in lookup
    requires rr == MergeRow(rows[i], lookup[keys[i]], pairs, mode, cols1, cols2)
    ensures var prev := MergeRows(rows[..i], keys[..i], lookup, pairs, mode, cols1, cols2);
            MergeRows(rows[..i + 1], keys[..i + 1], lookup, pairs, mode, cols1, cols2)
            == MergeResult(prev.rows + [rr.row], prev.updated + (if rr.filled + rr.overwritten > 0 then 1 else 0),
                           prev.filled + rr.filled, prev.overwritten + rr.overwritten)
  {
    assert rows[..i + 1][..i] == rows[..i] && keys[..i + 1][..i] == keys[..i];
  }

  /** A primary row without a secondary match is kept as it is. */
  lemma MergeRowsMiss(rows: seq<Record>, keys: seq<string>, lookup: map<string, Record>, pairs: seq<Pair>,
                      mode: Mode, cols1: seq<string>, cols2: seq<string>, i: nat)
    requires |keys| == |rows| && i < |rows| && keys[i] !in lookup
    ensures var prev := MergeRows(rows[..i], keys[..i], lookup, pairs, mode, cols1, cols2);
            MergeRows(rows[..i + 1], keys[..i + 1], lookup, pairs, mode, cols1, cols2)
            == MergeResult(prev.rows + [rows[i]], prev.updated, prev.filled, prev.overwritten)
  {
    assert rows[..i + 1][..i] == rows[..i] && keys[..i + 1][..i] == keys[..i];
  }

  lemma SliceHead(before: seq<Record>, orig: seq<Record>, i: nat)
    requires i < |before| == |orig| && before[i..] == orig[i..]
    ensures before[i] == orig[i]
  {
    assert before[i] == before[i..][0];
  }

  /** Replacing position `i` extends the processed prefix by one row. */
  lemma SliceStep(before: seq<Record>, after: seq<Record>, orig: seq<Record>, i: nat, x: Record)
    requires i < |before| == |orig| && before[i..] == orig[i..] && after == before[i := x]
    ensures after[..i + 1] == before[..i] + [x] && after[i + 1..] == orig[i + 1..]
  {
    assert after[i + 1..] == before[i + 1..] == before[i..][1..];
  }

  /** The merge loop, in place on the primary table: `table[i]` is the row at position
      `i` and `keys[i]` its merge key; a row counts as updated when at least one of its
      cells was filled or overwritten. */
  method MergeMatched(table: array<Record>, keys: seq<string>, lookup: map<string, Record>, pairs: seq<Pair>,
                      mode: Mode, cols1: seq<string>, cols2: seq<string>)
    returns (updated: nat, filled: nat, overwritten: nat)
    requires table.Length == |keys|
    modifies table
    ensures var m := MergeRows(old(table[..]), keys, lookup, pairs, mode, cols1, cols2);
            table[..] == m.rows && updated == m.updated && filled == m.filled && overwritten == m.overwritten
  {
    ghost var orig := table[..];
    ghost var m := MergeRows(orig[..0], keys[..0], lookup, pairs, mode, cols1, cols2);
    updated, filled, overwritten := 0, 0, 0;
    var i := 0;
    while i < table.Length
      invariant 0 <= i <= table.Length
      invariant m == MergeRows(orig[..i], keys[..i], lookup, pairs, mode, cols1, cols2)
      invariant table[..i] == m.rows && updated == m.updated && filled == m.filled && overwritten == m.overwritten
      invariant table[i..] == orig[i..]
    {
      ghost var before := table[..];
      SliceHead(before, orig, i);
      var key := keys[i];
      if key in lookup {
        ghost var rr := MergeRow(orig[i], lookup[key], pairs, mode, cols1, cols2);
        MergeRowsHit(orig, keys, lookup, pairs, mode, cols1, cols2, i, rr);
        var f, o := MergeRowInPlace(table, i, lookup[key], pairs, mode, cols1, cols2);
        filled := filled + f;
        overwritten := overwritten + o;
        if f + o > 0 {
          updated := updated + 1;
        }
        SliceStep(before, table[..], orig, i, rr.row);
      } else {
        MergeRowsMiss(orig, keys, lookup, pairs, mode, cols1, cols2, i);
        SliceStep(before, before, orig, i, orig[i]);
      }
      m := MergeRows(orig[..i + 1], keys[..i + 1], lookup, pairs, mode, cols1, cols2);
      i := i + 1;
    }
    assert orig[..table.Length] == orig && keys[..table.Length] == keys;
  }

  // ---------------------------------------------------------------------------
  // What one merged row holds

  /** The source column of the last taking-part pair whose destination is `c`. */
  function SourceOf(pairs: seq<Pair>, cols1: seq<string>, cols2: seq<string>, c: string): Option<string>
    decreases |pairs|
  {
    if pairs == [] then None
    else
      var p := pairs[|pairs| - 1];
      if p.0 == c && Applies(p, cols1, cols2) then Some(p.1) else SourceOf(pairs[..|pairs| - 1], cols1, cols2, c)
  }

  /** The value column `c` of `row` ends up with: the decision for its own source cell. */
  function CellAfter(mode: Mode, row: Record, row2: Record, pairs: seq<Pair>, cols1: seq<string>, cols2: seq<string>, c: string): Value {
    match SourceOf(pairs, cols1, cols2, c)
    case None => Cell(row, c)
    case Some(s) => Apply(Decide(mode, Cell(row, c), Cell(row2, s)), Cell(row, c), Cell(row2, s))
  }

  lemma {:induction false} SourceOfFound(pairs: seq<Pair>, cols1: seq<string>, cols2: seq<string>, j: int)
    requires DistinctDests(pairs) && 0 <= j < |pairs| && Applies(pairs[j], cols1, cols2)
    ensures SourceOf(pairs, cols1, cols2, pairs[j].0) == Some(pairs[j].1)
    decreases |pairs|
  {
    if j < |pairs| - 1 {
      var prefix := pairs[..|pairs| - 1];
      assert prefix[j] == pairs[j];
      SourceOfFound(prefix, cols1, cols2, j);
    }
  }

  /** A column that no pair writes keeps its value. */
  lemma {:induction false} MergeRowUntouched(row: Record, row2: Record, pairs: seq<Pair>, mode: Mode, cols1: seq<string>, cols2: seq<string>, c: string)
    requires forall k :: 0 <= k < |pairs| ==> pairs[k].0 != c
    ensures Cell(MergeRow(row, row2, pairs, mode, cols1, cols2).row, c) == Cell(row, c)
    ensures SourceOf(pairs, cols1, cols2, c) == None
    decreases |pairs|
  {
    if pairs != [] {
      var prefix := pairs[..|pairs| - 1];
      assert forall k :: 0 <= k < |prefix| ==> prefix[k] == pairs[k];
      MergeRowUntouched(row, row2, prefix, mode, cols1, cols2, c);
    }
  }

  /** With distinct destinations every cell of a merged row is decided on its own: the
      row's value if no pair writes that column, otherwise the decision between the
      row's original value and the secondary value of the pair's source column. */
  lemma {:induction false} MergeRowCells(row: Record, row2: Record, pairs: seq<Pair>, mode: Mode, cols1: seq<string>, cols2: seq<string>)
    requires DistinctDests(pairs)
    ensures forall c :: Cell(MergeRow(row, row2, pairs, mode, cols1, cols2).row, c) == CellAfter(mode, row, row2, pairs, cols1, cols2, c)
    decreases |pairs|
  {
    if pairs != [] {
      var n := |pairs| - 1;
      var prefix, p := pairs[..n], pairs[n];
      assert forall k :: 0 <= k < n ==> prefix[k] == pairs[k];
      var prev := MergeRow(row, row2, prefix, mode, cols1, cols2);
      MergeRowCells(row, row2, prefix, mode, cols1, cols2);
      MergeRowUntouched(row, row2, prefix, mode, cols1, cols2, p.0);
      forall c ensures Cell(MergeRow(row, row2, pairs, mode, cols1, cols2).row, c) == CellAfter(mode, row, row2, pairs, cols1, cols2, c) {
        if c != p.0 {
          assert SourceOf(pairs, cols1, cols2, c) == SourceOf(prefix, cols1, cols2, c);
          assert Cell(Step(prev, row2, p, mode, cols1, cols2).row, c) == Cell(prev.row, c);
        }
      }
    }
  }

  /** The cells of `row` a merge filled: empty before and changed after. */
  function FilledCells(row: Record, merged: Record): set<string> {
    set c | c in row && Cell(merged, c) != row[c] && IsEmptyCell(row[c])
  }

  /** The cells of `row` a merge overwrote: not empty before and changed after. */
  function OverwrittenCells(row: Record, merged: Record): set<string> {
    set c | c in row && Cell(merged, c) != row[c] && !IsEmptyCell(row[c])
  }

  /** Writing a new value into a cell not written before adds that cell to the filled
      cells when it was empty, and to the overwritten cells otherwise. */
  lemma WriteCellSets(row: Record, prev: Record, d: string, v: Value)
    requires d in row && Cell(prev, d) == row[d] && v != row[d]
    ensures d !in FilledCells(row, prev) && d !in OverwrittenCells(row, prev)
    ensures IsEmptyCell(row[d]) ==> FilledCells(row, prev[d := v]) == FilledCells(row, prev) + {d}
                                    && OverwrittenCells(row, prev[d := v]) == OverwrittenCells(row, prev)
    ensures !IsEmptyCell(row[d]) ==> FilledCells(row, prev[d := v]) == FilledCells(row, prev)
                                     && OverwrittenCells(row, prev[d := v]) == OverwrittenCells(row, prev) + {d}
  {
  }

  /** On a row that has every primary column, the merge adds no column, and its two
      counters are exactly the number of cells it filled and the number it overwrote:
      each counted write changes its cell, and no cell is counted twice. */
  lemma {:induction false} MergeRowCounts(row: Record, row2: Record, pairs: seq<Pair>, mode: Mode, cols1: seq<string>, cols2: seq<string>)
    requires DistinctDests(pairs)
    requires forall c :: c in cols1 ==> c in row
    ensures var rr := MergeRow(row, row2, pairs, mode, cols1, cols2);
            rr.row.Keys == row.Keys && rr.filled == |FilledCells(row, rr.row)|
            && rr.overwritten == |OverwrittenCells(row, rr.row)|
    decreases |pairs|
  {
    var rr := MergeRow(row, row2, pairs, mode, cols1, cols2);
    if pairs == [] {
      assert FilledCells(row, rr.row) == {};
      assert OverwrittenCells(row, rr.row) == {};
    } else {
      var n := |pairs| - 1;
      var prefix, p := pairs[..n], pairs[n];
      assert forall k :: 0 <= k < n ==> prefix[k] == pairs[k];
      var prev := MergeRow(row, row2, prefix, mode, cols1, cols2);
      MergeRowCounts(row, row2, prefix, mode, cols1, cols2);
      MergeRowUntouched(row, row2, prefix, mode, cols1, cols2, p.0);
      StepCounts(row, prev, row2, p, mode, cols1, cols2);
    }
  }

  /** One pair keeps the counters equal to the numbers of filled and overwritten cells,
      provided its destination has not been written before. */
  lemma StepCounts(row: Record, prev: RowResult, row2: Record, p: Pair, mode: Mode, cols1: seq<string>, cols2: seq<string>)
    requires forall c :: c in cols1 ==> c in row
    requires prev.row.Keys == row.Keys && Cell(prev.row, p.0) == Cell(row, p.0)
    requires prev.filled == |FilledCells(row, prev.row)| && prev.overwritten == |OverwrittenCells(row, prev.row)|
    ensures var next := Step(prev, row2, p, mode, cols1, cols2);
            next.row.Keys == row.Keys && next.filled == |FilledCells(row, next.row)|
            && next.overwritten == |OverwrittenCells(row, next.row)|
  {
    if Applies(p, cols1, cols2) {
      var d, v2 := p.0, Cell(row2, p.1);
      var a := Decide(mode, Cell(prev.row, d), v2);
      if a == Fill {
        NonBlankIsNotEmpty(v2);
        CountsAfterWrite(row, prev, d, v2, Step(prev, row2, p, mode, cols1, cols2));
      } else if a == Overwrite {
        PyEqReflexive(row[d]);
        CountsAfterWrite(row, prev, d, v2, Step(prev, row2, p, mode, cols1, cols2));
      }
    }
  }

  lemma CountsAfterWrite(row: Record, prev: RowResult, d: string, v: Value, next: RowResult)
    requires d in row && prev.row.Keys == row.Keys && Cell(prev.row, d) == row[d] && v != row[d]
    requires prev.filled == |FilledCells(row, prev.row)| && prev.overwritten == |OverwrittenCells(row, prev.row)|
    requires next == if IsEmptyCell(row[d]) then RowResult(prev.row[d := v], prev.filled + 1, prev.overwritten)
                     else RowResult(prev.row[d := v], prev.filled, prev.overwritten + 1)
    ensures next.row.Keys == row.Keys && next.filled == |FilledCells(row, next.row)|
            && next.overwritten == |OverwrittenCells(row, next.row)|
  {
    WriteCellSets(row, prev.row, d, v);
  }

  /** A merged row differs from the original exactly when one of its counters is
      positive, which is when the merge loop counts it as updated. */
  lemma RowChangedIffCounted(row: Record, row2: Record, pairs: seq<Pair>, mode: Mode, cols1: seq<string>, cols2: seq<string>)
    requires DistinctDests(pairs)
    requires forall c :: c in cols1 ==> c in row
    ensures var rr := MergeRow(row, row2, pairs, mode, cols1, cols2);
            rr.row != row <==> rr.filled + rr.overwritten > 0
  {
    var rr := MergeRow(row, row2, pairs, mode, cols1, cols2);
    MergeRowCounts(row, row2, pairs, mode, cols1, cols2);
    if rr.row != row {
      var c :| c in row && rr.row[c] != row[c];
      assert c in FilledCells(row, rr.row) + OverwrittenCells(row, rr.row);
    } else {
      assert FilledCells(row, rr.row) == {};
      assert OverwrittenCells(row, rr.row) == {};
    }
  }

  /** In "fill empty only" mode nothing is overwritten. */
  lemma {:induction false} FillModeNeverOverwritesRow(row: Record, row2: Record, pairs: seq<Pair>, cols1: seq<string>, cols2: seq<string>)
    ensures MergeRow(row, row2, pairs, FillEmptyOnly, cols1, cols2).overwritten == 0
    decreases |pairs|
  {
    if pairs != [] {
      FillModeNeverOverwritesRow(row, row2, pairs[..|pairs| - 1], cols1, cols2);
    }
  }

  /** The two modes fill the same empty cells, and every cell the "fill empty only"
      mode changes the "overwrite if different" mode changes in the same way. */
  lemma ModesAgreeOnEmptyCells(row: Record, row2: Record, pairs: seq<Pair>, cols1: seq<string>, cols2: seq<string>)
    requires DistinctDests(pairs)
    ensures var f := MergeRow(row, row2, pairs, FillEmptyOnly, cols1, cols2);
            var o := MergeRow(row, row2, pairs, OverwriteIfDifferent, cols1, cols2);
            (forall c :: IsEmptyCell(Cell(row, c)) ==> Cell(f.row, c) == Cell(o.row, c))
            && (forall c :: Cell(f.row, c) != Cell(row, c) ==> Cell(o.row, c) == Cell(f.row, c))
  {
    MergeRowCells(row, row2, pairs, FillEmptyOnly, cols1, cols2);
    MergeRowCells(row, row2, pairs, OverwriteIfDifferent, cols1, cols2);
  }

  /** The filled counter does not depend on the mode. */
  lemma FilledSameInBothModes(row: Record, row2: Record, pairs: seq<Pair>, cols1: seq<string>, cols2: seq<string>)
    requires DistinctDests(pairs)
    requires forall c :: c in cols1 ==> c in row
    ensures MergeRow(row, row2, pairs, FillEmptyOnly, cols1, cols2).filled
            == MergeRow(row, row2, pairs, OverwriteIfDifferent, cols1, cols2).filled
  {
    var f := MergeRow(row, row2, pairs, FillEmptyOnly, cols1, cols2);
    var o := MergeRow(row, row2, pairs, OverwriteIfDifferent, cols1, cols2);
    ModesAgreeOnEmptyCells(row, row2, pairs, cols1, cols2);
    MergeRowCounts(row, row2, pairs, FillEmptyOnly, cols1, cols2);
    MergeRowCounts(row, row2, pairs, OverwriteIfDifferent, cols1, cols2);
    assert FilledCells(row, f.row) == FilledCells(row, o.row);
  }

  /** A pair that does not take part, or whose source cell is blank, changes nothing:
      removing it from the mapping gives the same row and counters. */
  lemma {:induction false} InertPairChangesNothing(row: Record, row2: Record, a: seq<Pair>, p: Pair, b: seq<Pair>,
                                                   mode: Mode, cols1: seq<string>, cols2: seq<string>)
    requires !Applies(p, cols1, cols2) || IsBlankSource(Cell(row2, p.1))
    ensures MergeRow(row, row2, a + [p] + b, mode, cols1, cols2) == MergeRow(row, row2, a + b, mode, cols1, cols2)
    decreases |b|
  {
    if b == [] {
      assert a + [p] + b == a + [p] && (a + [p])[..|a|] == a && a + b == a;
    } else {
      var b' := b[..|b| - 1];
      assert (a + [p] + b)[..|a + [p] + b| - 1] == a + [p] + b';
      assert (a + b)[..|a + b| - 1] == a + b';
      InertPairChangesNothing(row, row2, a, p, b', mode, cols1, cols2);
    }
  }

  /** Merging an already merged row against the same secondary record changes nothing:
      every filled or overwritten cell now holds a value `==` to its source. */
  lemma MergeRowIdempotent(row: Record, row2: Record, pairs: seq<Pair>, mode: Mode, cols1: seq<string>, cols2: seq<string>)
    requires DistinctDests(pairs)
    ensures var rr := MergeRow(row, row2, pairs, mode, cols1, cols2);
            MergeRow(rr.row, row2, pairs, mode, cols1, cols2) == RowResult(rr.row, 0, 0)
  {
    var rr := MergeRow(row, row2, pairs, mode, cols1, cols2);
    MergeRowCells(row, row2, pairs, mode, cols1, cols2);
    SecondPassKeeps(row, row2, pairs, mode, cols1, cols2, |pairs|);
    assert pairs[..|pairs|] == pairs;
  }

  lemma {:induction false} SecondPassKeeps(row: Record, row2: Record, pairs: seq<Pair>, mode: Mode, cols1: seq<string>, cols2: seq<string>, j: nat)
    requires DistinctDests(pairs) && j <= |pairs|
    requires forall c :: Cell(MergeRow(row, row2, pairs, mode, cols1, cols2).row, c) == CellAfter(mode, row, row2, pairs, cols1, cols2, c)
    ensures var rr := MergeRow(row, row2, pairs, mode, cols1, cols2);
            MergeRow(rr.row, row2, pairs[..j], mode, cols1, cols2) == RowResult(rr.row, 0, 0)
    decreases j
  {
    var rr := MergeRow(row, row2, pairs, mode, cols1, cols2);
    if j > 0 {
      SecondPassKeeps(row, row2, pairs, mode, cols1, cols2, j - 1);
      assert pairs[..j][..j - 1] == pairs[..j - 1];
      var p := pairs[j - 1];
      if Applies(p, cols1, cols2) {
        SourceOfFound(pairs, cols1, cols2, j - 1);
        var v1, v2 := Cell(row, p.0), Cell(row2, p.1);
        if Decide(mode, v1, v2) != Keep {
          PyEqReflexive(v2);
        }
      }
    }
  }

  // ---------------------------------------------------------------------------
  // The merge loop as a whole

  /** Each primary row after the loop: merged if its key is in the lookup, unchanged
      otherwise. */
  lemma {:induction false} MergeRowsAt(rows: seq<Record>, keys: seq<string>, lookup: map<string, Record>, pairs: seq<Pair>,
                                       mode: Mode, cols1: seq<string>, cols2: seq<string>, i: int)
    requires |keys| == |rows| && 0 <= i < |rows|
    ensures MergeRows(rows, keys, lookup, pairs, mode, cols1, cols2).rows[i]
            == if keys[i] in lookup then MergeRow(rows[i], lookup[keys[i]], pairs, mode, cols1, cols2).row else rows[i]
    decreases |rows|
  {
    var n := |rows| - 1;
    if i < n {
      assert rows[..n][i] == rows[i] && keys[..n][i] == keys[i];
      MergeRowsAt(rows[..n], keys[..n], lookup, pairs, mode, cols1, cols2, i);
    }
  }

  /** In "fill empty only" mode the overwritten counter stays 0. */
  lemma {:induction false} FillModeNeverOverwrites(rows: seq<Record>, keys: seq<string>, lookup: map<string, Record>, pairs: seq<Pair>,
                                                   cols1: seq<string>, cols2: seq<string>)
    requires |keys| == |rows|
    ensures MergeRows(rows, keys, lookup, pairs, FillEmptyOnly, cols1, cols2).overwritten == 0
    decreases |rows|
  {
    if rows != [] {
      var n := |rows| - 1;
      FillModeNeverOverwrites(rows[..n], keys[..n], lookup, pairs, cols1, cols2);
      if keys[n] in lookup {
        FillModeNeverOverwritesRow(rows[n], lookup[keys[n]], pairs, cols1, cols2);
      }
    }
  }

  /** Every primary row has every primary column. */
  predicate HasColumns(rows: seq<Record>, cols1: seq<string>) {
    forall i, c :: 0 <= i < |rows| && c in cols1 ==> c in rows[i]
  }

  /** The positions at which two row sequences differ. */
  function ChangedRows(before: seq<Record>, after: seq<Record>): set<int> {
    set i | 0 <= i < |before| && i < |after| && before[i] != after[i]
  }

  /** Sum over the rows of the number of filled cells. */
  function TotalFilled(before: seq<Record>, after: seq<Record>): nat
    requires |before| == |after|
    decreases |before|
  {
    if before == [] then 0
    else
      var n := |before| - 1;
      TotalFilled(before[..n], after[..n]) + |FilledCells(before[n], after[n])|
  }

  /** Sum over the rows of the number of overwritten cells. */
  function TotalOverwritten(before: seq<Record>, after: seq<Record>): nat
    requires |before| == |after|
    decreases |before|
  {
    if before == [] then 0
    else
      var n := |before| - 1;
      TotalOverwritten(before[..n], after[..n]) + |OverwrittenCells(before[n], after[n])|
  }

  lemma ChangedRowsNext(before: seq<Record>, after: seq<Record>)
    requires |before| == |after| && before != []
    ensures var n := |before| - 1;
            |ChangedRows(before, after)| == |ChangedRows(before[..n], after[..n])| + (if before[n] != after[n] then 1 else 0)
  {
    var n := |before| - 1;
    var small := ChangedRows(before[..n], after[..n]);
    assert n !in small;
    assert ChangedRows(before, after) == small + (if before[n] != after[n] then {n} else {});
  }

  lemma HasColumnsPrefix(rows: seq<Record>, cols1: seq<string>, n: nat)
    requires HasColumns(rows, cols1) && n <= |rows|
    ensures HasColumns(rows[..n], cols1)
  {
    assert forall i :: 0 <= i < n ==> rows[..n][i] == rows[i];
  }

  /** The updated counter is the number of primary rows that changed. */
  lemma {:induction false} UpdatedCountsChangedRows(rows: seq<Record>, keys: seq<string>, lookup: map<string, Record>, pairs: seq<Pair>,
                                                    mode: Mode, cols1: seq<string>, cols2: seq<string>)
    requires |keys| == |rows| && DistinctDests(pairs) && HasColumns(rows, cols1)
    ensures var m := MergeRows(rows, keys, lookup, pairs, mode, cols1, cols2);
            m.updated == |ChangedRows(rows, m.rows)|
    decreases |rows|
  {
    var m := MergeRows(rows, keys, lookup, pairs, mode, cols1, cols2);
    if rows == [] {
      assert ChangedRows(rows, m.rows) == {};
    } else {
      var n := |rows| - 1;
      var prev := MergeRows(rows[..n], keys[..n], lookup, pairs, mode, cols1, cols2);
      HasColumnsPrefix(rows, cols1, n);
      UpdatedCountsChangedRows(rows[..n], keys[..n], lookup, pairs, mode, cols1, cols2);
      assert m.rows[..n] == prev.rows;
      ChangedRowsNext(rows, m.rows);
      if keys[n] in lookup {
        RowChangedIffCounted(rows[n], lookup[keys[n]], pairs, mode, cols1, cols2);
      }
    }
  }

  /** The filled and overwritten counters are the numbers of cells, over all primary
      rows, that were empty and changed, and that were not empty and changed. */
  lemma {:induction false} CellCountersMeaning(rows: seq<Record>, keys: seq<string>, lookup: map<string, Record>, pairs: seq<Pair>,
                                               mode: Mode, cols1: seq<string>, cols2: seq<string>)
    requires |keys| == |rows| && DistinctDests(pairs) && HasColumns(rows, cols1)
    ensures var m := MergeRows(rows, keys, lookup, pairs, mode, cols1, cols2);
            m.filled == TotalFilled(rows, m.rows) && m.overwritten == TotalOverwritten(rows, m.rows)
    decreases |rows|
  {
    var m := MergeRows(rows, keys, lookup, pairs, mode, cols1, cols2);
    if rows != [] {
      var n := |rows| - 1;
      var prev := MergeRows(rows[..n], keys[..n], lookup, pairs, mode, cols1, cols2);
      HasColumnsPrefix(rows, cols1, n);
      CellCountersMeaning(rows[..n], keys[..n], lookup, pairs, mode, cols1, cols2);
      assert m.rows[..n] == prev.rows;
      if keys[n] in lookup {
        MergeRowCounts(rows[n], lookup[keys[n]], pairs, mode, cols1, cols2);
      } else {
        assert FilledCells(rows[n], m.rows[n]) == {};
        assert OverwrittenCells(rows[n], m.rows[n]) == {};
      }
    }
  }

  /** Over the whole table, every cell the "fill empty only" mode changes is changed the
      same way by the "overwrite if different" mode. */
  lemma FillChangesAreOverwriteChanges(rows: seq<Record>, keys: seq<string>, lookup: map<string, Record>, pairs: seq<Pair>,
                                       cols1: seq<string>, cols2: seq<string>)
    requires |keys| == |rows| && DistinctDests(pairs)
    ensures var f := MergeRows(rows, keys, lookup, pairs, FillEmptyOnly, cols1, cols2);
            var o := MergeRows(rows, keys, lookup, pairs, OverwriteIfDifferent, cols1, cols2);
            forall i, c :: 0 <= i < |rows| && Cell(f.rows[i], c) != Cell(rows[i], c) ==> Cell(o.rows[i], c) == Cell(f.rows[i], c)
  {
    var f := MergeRows(rows, keys, lookup, pairs, FillEmptyOnly, cols1, cols2);
    var o := MergeRows(rows, keys, lookup, pairs, OverwriteIfDifferent, cols1, cols2);
    forall i, c | 0 <= i < |rows| && Cell(f.rows[i], c) != Cell(rows[i], c)
      ensures Cell(o.rows[i], c) == Cell(f.rows[i], c)
    {
      MergeRowsAt(rows, keys, lookup, pairs, FillEmptyOnly, cols1, cols2, i);
      MergeRowsAt(rows, keys, lookup, pairs, OverwriteIfDifferent, cols1, cols2, i);
      if keys[i] in lookup {
        ModesAgreeOnEmptyCells(rows[i], lookup[keys[i]], pairs, cols1, cols2);
      }
    }
  }

  /** Over the whole table, the filled counter does not depend on the mode. */
  lemma {:induction false} FilledTotalSameInBothModes(rows: seq<Record>, keys: seq<string>, lookup: map<string, Record>, pairs: seq<Pair>,
                                                      cols1: seq<string>, cols2: seq<string>)
    requires |keys| == |rows| && DistinctDests(pairs) && HasColumns(rows, cols1)
    ensures MergeRows(rows, keys, lookup, pairs, FillEmptyOnly, cols1, cols2).filled
            == MergeRows(rows, keys, lookup, pairs, OverwriteIfDifferent, cols1, cols2).filled
    decreases |rows|
  {
    if rows != [] {
      var n := |rows| - 1;
      HasColumnsPrefix(rows, cols1, n);
      FilledTotalSameInBothModes(rows[..n], keys[..n], lookup, pairs, cols1, cols2);
      if keys[n] in lookup {
        FilledSameInBothModes(rows[n], lookup[keys[n]], pairs, cols1, cols2);
      }
    }
  }
}
