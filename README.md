# Excel merge and enrichment engine, modelled in Dafny

The engine enriches a primary table ("File 1") from a secondary table ("File 2"). A run has five steps:

- **Merge keys.** Both tables get a merge key per row. Text key columns are stripped and lower-cased. Every key value is then rendered with `str()`, and the renderings are joined with `|` in key-column order.
- **Secondary collapse.** Duplicate keys of either table are reported. The secondary table then keeps only its last record per key.
- **Merge pass.** Each primary row whose key occurs in the secondary table copies cells along a mapping of (destination, source) column pairs. Mode "fill empty only" writes only into empty cells. Mode "overwrite if different" also replaces differing values. Three counters track the work: updated rows, filled cells and overwritten cells.
- **Append.** Optionally, secondary records whose key is absent from the primary table are appended, after their mapped destination columns are copied from the source columns.
- **The mapping.** It is the identity over the shared non-key columns, or a manual mapping. A manual mapping may be imported from JSON and exported back.

Modules:

- `Values`: cell values (text, integer, boolean, NaN), records, tables, and the Python built-ins the engine relies on (`str()`, `str.strip()`, `str.lower()`, `==`).
- `Keys`: the key normalizer.
- `Duplicates`: duplicate detection and the last-wins collapse.
- `Mapping`: candidate columns, the default mapping, and JSON import and export.
- `Merge`: the merge pass.
  - It is a `method` that changes an `array` of primary rows cell by cell and counts as it goes.
  - It is proved equal to its specification functions `MergeRows`/`MergeRow`.
  - The lemmas state what those functions mean.
- `Append`: the append step, a loop over the mapping pairs that rewrites the rows to append.
- `Reconcile`: a whole run.
  - The checks that stop a run come first.
  - The method `Reconcile` is proved equal to the function `Run`.
  - The end-to-end lemmas close the module, among them a worked example with two primary and two secondary rows.

Three behaviours of the code that the model keeps:

- **Appended rows keep every secondary column.** `pd.concat` aligns columns by name, so the same-named columns of an appended record carry over even without a mapping pair; they are not reset to the primary column shape.
- **Empty table.** A run with an empty primary or secondary table stops with a warning (app.py:59-61): nothing is merged and nothing is appended.
- **Export format.** The mapping is exported as a JSON object (`json.dumps` of the dict), not as a list of pairs. The round trip proved is import(export(m)) == m.

## Model

| member | source | states |
|---|---|---|
| Values.Strip | app.py:92 | `str.strip()` returns the slice of the text between a whitespace prefix and a whitespace suffix, and the slice neither starts nor ends with whitespace; the result is empty exactly when the text is all whitespace |
| Keys.NormalizeTextIdempotent | app.py:88-93 | normalizing a text key segment twice gives the same segment as normalizing it once |
| Keys.NormalizeTextIgnoresPadding | app.py:92 | surrounding whitespace does not change a normalized segment |
| Keys.NormalizeTextIgnoresCase | app.py:92 | texts that agree after lower-casing normalize to the same segment |
| Keys.NormalizeTextExample | app.py:92 | `"  AbC "` and `"abc"` both normalize to `"abc"` |
| Keys.NormalizeRecordIdempotent | app.py:88-96 | normalizing the key columns of a row twice is the same as once, and the merge key of a normalized row is unchanged |
| Keys.MergeKeyIsJoin | app.py:97-99 | the merge key is the `\|`-join of the per-column segments in key-column order, text columns normalized and other values rendered by `str()` |
| Keys.Split | app.py:98 | splitting at `\|` gives separator-free segments whose join is the input |
| Keys.SplitJoin | app.py:98 | separator-free segments are recovered from their join |
| Keys.JoinInjective | app.py:98 | on separator-free segments, equal joins come from equal segment lists and conversely |
| Keys.SameKeyIff | app.py:97-99 | when no key value contains `\|`, two rows have the same merge key exactly when every key segment agrees |
| Keys.KeyCollision | app.py:98 | the tuples ("x\|y", "z") and ("x", "y\|z") get the same merge key, so the `\|` join is not injective |
| Keys.MissingKeyIsNan | app.py:92 | a missing value in a text key column becomes the segment "nan", the same as the text "NaN" |
| Duplicates.DuplicateKeys | app.py:249-254 | a key is reported exactly when it occurs at two different positions |
| Duplicates.Lookup | app.py:263-265 | the lookup's keys are exactly the secondary keys |
| Duplicates.LastWinsInOrder | app.py:263-265 | the collapsed entries are a subsequence of the table's entries |
| Duplicates.LastWinsSpec | app.py:263-265 | the collapse keeps every key, keeps each key once, keeps only last occurrences and keeps every last occurrence, in their order in the table |
| Duplicates.LookupLast | app.py:263-265 | the lookup answers every key with the record of its last occurrence |
| Duplicates.LookupAfterCollapse | app.py:263-265 | consulting the collapsed table gives the same answers as consulting the lookup of the whole secondary table |
| Duplicates.LastWinsExample | app.py:263-265 | for the secondary records [A(k), B(k)], the collapse keeps only B and the lookup of k is B |
| Duplicates.CollapseIffDuplicates | app.py:259-265 | the collapse changes the table exactly when duplicate keys were reported, so collapsing only then equals collapsing always |
| Mapping.NonKey | app.py:120-122 | a candidate column is a column of the table that is not a key column; the candidates are a subsequence of the columns, so table order is kept |
| Mapping.CommonColumns | app.py:69 | a common column is a column of both tables |
| Mapping.DefaultMapping | app.py:217 | the default mapping pairs each column with itself, contains (c, c) exactly for the columns that are candidates on both sides, and stays within the candidates |
| Mapping.DefaultMappingDistinct | app.py:217 | the default mapping has distinct destinations |
| Mapping.Put | app.py:132-138 | a dict insertion: the key then maps to the new value; other keys are unchanged; a new key goes at the end; with an existing key the length and every position's key stay the same |
| Mapping.FromList | app.py:130-136 | the list form fails exactly when some list item is an object with `dest` and `src` and an unhashable `dest` |
| Mapping.KeepValid | app.py:144-148 | the filter keeps exactly the pairs whose destination and source are candidates, with their values; the kept pairs are a subsequence of the loaded entries |
| Mapping.ImportMapping | app.py:126-148 | a list or an object is accepted and any other payload is rejected; an unhashable list destination raises; an accepted mapping is within the candidates and has distinct destinations |
| Mapping.ExportMapping | app.py:207 | the export is a JSON object with one string member per pair, in order |
| Mapping.ImportExportRoundTrip | app.py:126-148 | importing the export of a valid mapping against the same candidates gives that mapping back |
| Mapping.ImportListLastWins | app.py:130-148 | in the list form, (d, s) is in the result exactly when the last item for d has source s and both are candidates |
| Mapping.ImportListOverrideExample | app.py:132-136 | two items with the same destination keep the later source |
| Merge.MergeRowInPlace | app.py:281-306 | the inner loop changes only row i, leaving it equal to the specification row, and returns that row's fill and overwrite counts |
| Merge.MergeMatched | app.py:277-308 | the merge loop on the array equals `MergeRows`: the same rows and the same three counters |
| Merge.MergeRowCells | app.py:287-306 | with distinct destinations, each cell after the merge is decided on its own: blank source keeps; empty destination fills; in overwrite mode a differing value is replaced; otherwise kept |
| Merge.MergeRowCounts | app.py:293-306 | the merge adds no column to a row, and its filled and overwritten counts are exactly the numbers of changed cells that were empty and that were not empty |
| Merge.RowChangedIffCounted | app.py:293-308 | a merged row differs from the original exactly when one of its counts is positive |
| Merge.FillModeNeverOverwritesRow | app.py:293-297 | in "fill empty only" mode a row's overwrite count is 0 |
| Merge.FillModeNeverOverwrites | app.py:293-297 | in "fill empty only" mode the total overwrite count is 0 |
| Merge.ModesAgreeOnEmptyCells | app.py:293-306 | both modes write the same value into empty cells, and every change "fill empty only" makes, "overwrite if different" makes identically |
| Merge.FilledSameInBothModes | app.py:293-302 | a row's fill count does not depend on the mode |
| Merge.InertPairChangesNothing | app.py:282-292 | a pair whose columns are absent, or whose source cell is blank, changes neither the row nor a counter: removing it gives the same result in either mode |
| Merge.MergeRowIdempotent | app.py:287-306 | merging an already merged row against the same secondary record changes nothing and counts nothing |
| Merge.MergeRowsAt | app.py:277-279 | each primary row keeps its position; it is merged when its key is in the lookup and left unchanged otherwise |
| Merge.UpdatedCountsChangedRows | app.py:277-308 | the updated counter is the number of primary rows that changed, so it grows by at most one per row |
| Merge.CellCountersMeaning | app.py:293-306 | the filled and overwritten counters are the totals of changed empty cells and of changed non-empty cells |
| Merge.FillChangesAreOverwriteChanges | app.py:293-306 | over the whole table, cells changed in "fill empty only" mode are changed identically in "overwrite if different" mode |
| Merge.FilledTotalSameInBothModes | app.py:293-302 | the total fill count does not depend on the mode |
| Append.CopyMappedColumns | app.py:320-326 | the loop over the mapping pairs equals `CopyMapped` on the rows to append and their columns |
| Append.AppendMissing | app.py:310-330 | the append step equals `AppendSpec` |
| Append.MissingEntriesMembers | app.py:311-313 | an entry is appended exactly when it is a resolved secondary entry whose key is not a primary key |
| Append.MissingEntriesDistinct | app.py:311-315 | over entries with distinct keys, the appended entries have distinct keys |
| Append.MissingEntriesInOrder | app.py:311-315 | the appended entries are a subsequence of the resolved secondary entries, so the secondary order is kept |
| Append.MissingKeys | app.py:311-315 | the appended keys are exactly the secondary keys missing from the primary table, each once |
| Append.AppendShape | app.py:310-330 | the primary rows come first, unchanged in count and order; with append on, the rows after them are exactly the missing records after the mapped column copies; `added` is the number of missing entries when append is on, and 0 otherwise |
| Append.CopyMappedCells | app.py:320-326 | with distinct destinations and no pair reading another's destination, a mapped destination of an appended row holds its source value, and every other column keeps its secondary value |
| Append.DefaultMappingNoChaining | app.py:320-326 | the default mapping never reads a column another pair writes |
| Reconcile.Prepare | app.py:59-85 | each check that stops a run fails exactly when the earlier ones pass and its own condition holds: an empty table, no common column, no key column, a key column missing from a table, an empty manual mapping (app.py:271-273); the run proceeds exactly when all pass, with the manual mapping or otherwise the default one of app.py:217 |
| Reconcile.TableKeys | app.py:95-99 | every row has the key columns, and its key is the merge key of that row |
| Reconcile.Reconcile | app.py:236-330 | a run equals `Run`: prepare, build keys, collapse secondary duplicates, merge in place, append |
| Reconcile.ResolvedIsLastWins | app.py:259-265 | the secondary table the merge consults is the last-wins collapse, with distinct keys and the same lookup |
| Reconcile.RunKeepsPrimaryRows | app.py:277-330 | a run keeps the primary rows first; each is merged with the last secondary record of its key or left unchanged; appended rows follow |
| Reconcile.RunAppendsMissingKeys | app.py:310-330 | with append on, the appended keys are exactly the secondary keys that are not primary keys, each once, in secondary order, and the appended rows are those records after the mapped column copies; with append off nothing is appended |
| Reconcile.RunCounters | app.py:267-308 | a run's counters count the changed primary rows, the filled cells and the overwritten cells, and overwritten is 0 in "fill empty only" mode |
| Reconcile.WorkedExample | app.py:236-330 | primary ids 1 and 2 against secondary ids 1 and 3 in "fill empty only" mode: row 1's empty name is filled, its city kept, row 2 unchanged, id 3 appended, counters 1/1/0/1 |

## Left out

- The Streamlit interface: page layout, uploaders, previews, widgets, session state, warnings, spinners and download buttons. The mode, the append flag, the key columns and the manual mapping are parameters of `Reconcile.Reconcile`.
- Excel input and output, caching, and the timestamped output file name. Tables are given already parsed.
- UTF-8 decoding and `json.loads` byte parsing. A parsed JSON value is the datatype `Mapping.Json`.
- An import error shows a message and leaves no loaded mapping; that message and its effect on the widgets are not modelled.
- pandas dtype inference. Each table carries the set of its `object` (text) columns, and a cell value is text, an integer, a boolean or NaN.
- Floating-point numbers. Integers stand in for numbers, so `1 == 1.0` and float rendering in keys are not modelled.
- `pd.concat`'s column union (NaN for columns a row lacks) is not modelled as a column list. A record simply lacks the column, and `Values.Cell` reads an absent column as NaN. The order of the result's columns is not modelled.
- Type coercion when a value is written into a pandas column (for example an integer column becoming float) is not modelled.
- `Values.Lower`: only ASCII letters are lower-cased; Python's full Unicode case mapping is not modelled.
- `Mapping.CommonColumns`: Python takes the common columns from a set, whose order is unspecified; the model lists them in primary column order, so the default mapping's order is one possible order.
- `Mapping.ImportMapping`: in the object form, `str()` of a nested array or object value is not rendered. Such an entry is left out. This assumes that no candidate column name is the repr of a list or dict; without that assumption a column with such a name could be mapped by the source but not by the model.
- The interactive default-source chain (app.py:179-183) only seeds a selection widget; the manual mapping reaches the model already chosen.
- The merge loop addresses the primary rows by position (`.at[row_idx, …]`), which agrees with the row labels for the RangeIndex that `read_excel` produces; other indexes are not modelled.
- A table that already has a column named `__merge_key__` would clash with the technical key column; this is not modelled.
- `Append.CopyMappedCells`, `Merge.MergeRowCells` and the lemmas built on them assume distinct mapping destinations, which a Python dict guarantees.
- `Append.CopyMappedCells` assumes that no pair reads another pair's destination. With such chaining, the copy step still follows `Append.CopyMapped`, which copies in mapping order, but no cell-level statement is proved.
