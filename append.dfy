/** The row appender: the resolved secondary records whose key is not among the
    primary keys get their mapped destination columns copied from their source columns
    and are appended after the primary rows. */
module Append {
  import opened Values
  import opened Mapping
  import opened Duplicates

  /** The resolved secondary entries whose key is not a primary key, in their order. */
  function MissingEntries(resolved: seq<Entry>, primaryKeys: set<string>): seq<Entry>
    decreases |resolved|
  {
    if resolved == [] then []
    else if resolved[0].0 in primaryKeys then MissingEntries(resolved[1..], primaryKeys)
    else [resolved[0]] + MissingEntries(resolved[1..], primaryKeys)
  }

  function RecordsOf(s: seq<Entry>): seq<Record> {
    seq(|s|, i requires 0 <= i < |s| => s[i].1)
  }

  /** The rows to append and the columns they have. */
  datatype Frame = Frame(records: seq<Record>, columns: set<string>)

  /** `frame[d] = frame[s]`: every record receives its own `s` value in column `d`. */
  function CopyColumn(recs: seq<Record>, d: string, s: string): seq<Record> {
    seq(|recs|, i requires 0 <= i < |recs| => recs[i][d := Cell(recs[i], s)])
  }

  /** One mapping pair: copied when its destination is a primary column and its source
      a column of the rows to append (which may be a destination copied earlier). */
  function CopyStep(f: Frame, p: Pair, cols1: seq<string>): Frame {
    if p.0 in cols1 && p.1 in f.columns then Frame(CopyColumn(f.records, p.0, p.1), f.columns + {p.0}) else f
  }

  /** All mapping pairs, in order. */
  function CopyMapped(f: Frame, pairs: seq<Pair>, cols1: seq<string>): Frame
    decreases |pairs|
  {
    if pairs == [] then f else CopyStep(CopyMapped(f, pairs[..|pairs| - 1], cols1), pairs[|pairs| - 1], cols1)
  }

  /** The loop over the mapping pairs that rewrites the columns of the rows to append;
      `cols2` are the secondary columns the rows start with. */
  method CopyMappedColumns(records: seq<Record>, cols2: set<string>, pairs: seq<Pair>, cols1: seq<string>)
    returns (out: seq<Record>, columns: set<string>)
    ensures Frame(out, columns) == CopyMapped(Frame(records, cols2), pairs, cols1)
  {
    out, columns := records, cols2;
    var j := 0;
    while j < |pairs|
      invariant 0 <= j <= |pairs|
      invariant Frame(out, columns) == CopyMapped(Frame(records, cols2), pairs[..j], cols1)
    {
      assert pairs[..j + 1][..j] == pairs[..j];
      var dest, src := pairs[j].0, pairs[j].1;
      if dest in cols1 && src in columns {
        out := CopyColumn(out, dest, src);
        columns := columns + {dest};
      }
      j := j + 1;
    }
    assert pairs[..|pairs|] == pairs;
  }

  /** The table after the append step and the number of rows it added. */
  datatype Appended = Appended(rows: seq<Record>, added: nat)

  /** The append step: when enabled and some resolved key is missing from the primary
      rows, the missing records, with their mapped columns copied, follow the merged
      primary rows. */
  function AppendSpec(merged: seq<Record>, primaryKeys: set<string>, resolved: seq<Entry>, cols2: set<string>,
                      pairs: seq<Pair>, cols1: seq<string>, enabled: bool): Appended
  {
    if !enabled then Appended(merged, 0)
    else
      var missing := MissingEntries(resolved, primaryKeys);
      if missing == [] then Appended(merged, 0)
      else
        var recs := CopyMapped(Frame(RecordsOf(missing), cols2), pairs, cols1).records;
        Appended(merged + recs, |recs|)
  }

  method AppendMissing(merged: seq<Record>, primaryKeys: set<string>, resolved: seq<Entry>, cols2: set<string>,
                       pairs: seq<Pair>, cols1: seq<string>, enabled: bool)
    returns (r: Appended)
    ensures r == AppendSpec(merged, primaryKeys, resolved, cols2, pairs, cols1, enabled)
  {
    r := Appended(merged, 0);
    if enabled {
      var missing := MissingEntries(resolved, primaryKeys);
      if missing != [] {
        var recs, _ := CopyMappedColumns(RecordsOf(missing), cols2, pairs, cols1);
        r := Appended(merged + recs, |recs|);
      }
    }
  }

  // ---------------------------------------------------------------------------
  // Which rows are appended

  /** An entry is appended exactly when it is a resolved entry whose key is not a
      primary key. */
  lemma {:induction false} MissingEntriesMembers(resolved: seq<Entry>, primaryKeys: set<string>)
    ensures forall e :: e in MissingEntries(resolved, primaryKeys) <==> e in resolved && e.0 !in primaryKeys
    decreases |resolved|
  {
    if resolved != [] {
      MissingEntriesMembers(resolved[1..], primaryKeys);
      assert forall e :: e in resolved <==> e == resolved[0] || e in resolved[1..];
    }
  }

  /** The appended entries keep the secondary order. */
  lemma {:induction false} MissingEntriesInOrder(resolved: seq<Entry>, primaryKeys: set<string>)
    ensures Subseq(MissingEntries(resolved, primaryKeys), resolved)
    decreases |resolved|
  {
    if resolved == [] {
      assert MissingEntries(resolved, primaryKeys) == [];
    } else {
      var t := resolved[1..];
      var m := MissingEntries(resolved, primaryKeys);
      MissingEntriesInOrder(t, primaryKeys);
      if resolved[0].0 in primaryKeys {
        assert m == MissingEntries(t, primaryKeys);
        if m != [] {
          assert Subseq(m, t);
        }
      } else {
        assert m[0] == resolved[0] && m[1..] == MissingEntries(t, primaryKeys);
      }
    }
  }

  /** Over entries with distinct keys, the appended entries have distinct keys. */
  lemma {:induction false} MissingEntriesDistinct(resolved: seq<Entry>, primaryKeys: set<string>)
    requires DistinctKeys(resolved)
    ensures DistinctKeys(MissingEntries(resolved, primaryKeys))
    decreases |resolved|
  {
    if resolved != [] {
      var t := resolved[1..];
      assert DistinctKeys(t) by {
        forall a, b | 0 <= a < b < |t| ensures t[a].0 != t[b].0 {
          assert resolved[a + 1] == t[a] && resolved[b + 1] == t[b];
        }
      }
      MissingEntriesDistinct(t, primaryKeys);
      if resolved[0].0 !in primaryKeys {
        var rest := MissingEntries(t, primaryKeys);
        var m := [resolved[0]] + rest;
        MissingEntriesMembers(t, primaryKeys);
        forall a, b | 0 <= a < b < |m| ensures m[a].0 != m[b].0 {
          if a == 0 {
            assert m[b] == rest[b - 1] && rest[b - 1] in rest;
            var j :| 0 <= j < |t| && t[j] == rest[b - 1];
            assert resolved[j + 1] == t[j];
          } else {
            assert m[a] == rest[a - 1] && m[b] == rest[b - 1];
          }
        }
      }
    }
  }

  /** Over resolved entries with distinct keys, the appended keys are exactly the
      secondary keys missing from the primary table, each once. */
  lemma MissingKeys(resolved: seq<Entry>, primaryKeys: set<string>)
    requires DistinctKeys(resolved)
    ensures KeySet(MissingEntries(resolved, primaryKeys)) == KeySet(resolved) - primaryKeys
    ensures DistinctKeys(MissingEntries(resolved, primaryKeys))
  {
    var m := MissingEntries(resolved, primaryKeys);
    MissingEntriesMembers(resolved, primaryKeys);
    MissingEntriesDistinct(resolved, primaryKeys);
    forall k | k in KeySet(resolved) - primaryKeys ensures k in KeySet(m) {
      var i :| 0 <= i < |resolved| && resolved[i].0 == k;
      assert resolved[i] in m;
    }
    assert KeySet(m) <= KeySet(resolved) - primaryKeys by {
      forall k | k in KeySet(m) ensures k in KeySet(resolved) - primaryKeys {
        var a :| 0 <= a < |m| && m[a].0 == k;
        assert m[a] in m;
      }
    }
  }

  /** The primary rows keep their count and order and come first; the appended rows
      follow them, and `added` counts them: none when the step is disabled, otherwise
      one per missing entry. */
  lemma AppendShape(merged: seq<Record>, primaryKeys: set<string>, resolved: seq<Entry>, cols2: set<string>,
                    pairs: seq<Pair>, cols1: seq<string>, enabled: bool)
    ensures var r := AppendSpec(merged, primaryKeys, resolved, cols2, pairs, cols1, enabled);
            |r.rows| == |merged| + r.added && r.rows[..|merged|] == merged
            && r.added == (if enabled then |MissingEntries(resolved, primaryKeys)| else 0)
            && (enabled ==> r.rows[|merged|..]
                            == CopyMapped(Frame(RecordsOf(MissingEntries(resolved, primaryKeys)), cols2), pairs, cols1).records)
  {
    var r := AppendSpec(merged, primaryKeys, resolved, cols2, pairs, cols1, enabled);
    var copied := CopyMapped(Frame(RecordsOf(MissingEntries(resolved, primaryKeys)), cols2), pairs, cols1).records;
    CopyMappedLength(Frame(RecordsOf(MissingEntries(resolved, primaryKeys)), cols2), pairs, cols1);
    if enabled && MissingEntries(resolved, primaryKeys) != [] {
      assert r.rows == merged + copied;
      assert r.rows[..|merged|] == merged && r.rows[|merged|..] == copied;
    } else if enabled {
      assert copied == [];
    }
  }

  lemma {:induction false} CopyMappedLength(f: Frame, pairs: seq<Pair>, cols1: seq<string>)
    ensures |CopyMapped(f, pairs, cols1).records| == |f.records|
    decreases |pairs|
  {
    if pairs != [] {
      CopyMappedLength(f, pairs[..|pairs| - 1], cols1);
    }
  }

  // ---------------------------------------------------------------------------
  // What the appended rows hold

  /** No pair reads a column that another pair writes. */
  predicate NoChaining(pairs: seq<Pair>) {
    forall a, b :: 0 <= a < |pairs| && 0 <= b < |pairs| && a != b ==> pairs[a].1 != pairs[b].0
  }

  /** The source column copied into column `c`, if a pair with destination `c` takes part. */
  function CopySource(pairs: seq<Pair>, cols1: seq<string>, cols2: set<string>, c: string): Option<string>
    decreases |pairs|
  {
    if pairs == [] then None
    else
      var p := pairs[|pairs| - 1];
      if p.0 == c && p.0 in cols1 && p.1 in cols2 then Some(p.1) else CopySource(pairs[..|pairs| - 1], cols1, cols2, c)
  }

  /** The destinations of the pairs that take part. */
  function CopiedDests(pairs: seq<Pair>, cols1: seq<string>, cols2: set<string>): set<string> {
    set k | 0 <= k < |pairs| && pairs[k].0 in cols1 && pairs[k].1 in cols2 :: pairs[k].0
  }

  /** Column `c` of an appended record: its source column's secondary value when a pair
      copies into `c`, its own secondary value otherwise. */
  function MappedCell(rec: Record, pairs: seq<Pair>, cols1: seq<string>, cols2: set<string>, c: string): Value {
    match CopySource(pairs, cols1, cols2, c)
    case None => Cell(rec, c)
    case Some(s) => Cell(rec, s)
  }

  lemma NoChainingPrefix(pairs: seq<Pair>, n: nat)
    requires NoChaining(pairs) && DistinctDests(pairs) && n <= |pairs|
    ensures NoChaining(pairs[..n]) && DistinctDests(pairs[..n])
  {
    assert forall k :: 0 <= k < n ==> pairs[..n][k] == pairs[k];
  }

  /** When the destinations are distinct and no pair reads another pair's destination,
      every mapped destination of an appended row holds that row's secondary value of
      the pair's source column, and every other column keeps its secondary value. */
  lemma {:induction false} CopyMappedCells(f: Frame, pairs: seq<Pair>, cols1: seq<string>)
    requires DistinctDests(pairs) && NoChaining(pairs)
    ensures var g := CopyMapped(f, pairs, cols1);
            |g.records| == |f.records| && g.columns == f.columns + CopiedDests(pairs, cols1, f.columns)
            && forall i, c :: 0 <= i < |f.records| ==>
                 Cell(g.records[i], c) == MappedCell(f.records[i], pairs, cols1, f.columns, c)
    decreases |pairs|
  {
    var g := CopyMapped(f, pairs, cols1);
    if pairs == [] {
      assert CopiedDests(pairs, cols1, f.columns) == {};
    } else {
      var n := |pairs| - 1;
      var prefix, p := pairs[..n], pairs[n];
      NoChainingPrefix(pairs, n);
      CopyMappedCells(f, prefix, cols1);
      var h := CopyMapped(f, prefix, cols1);
      assert forall k :: 0 <= k < n ==> prefix[k] == pairs[k];
      assert CopiedDests(pairs, cols1, f.columns)
             == CopiedDests(prefix, cols1, f.columns) + (if p.0 in cols1 && p.1 in f.columns then {p.0} else {});
      assert p.1 in h.columns <==> p.1 in f.columns by {
        forall k | 0 <= k < n ensures prefix[k].0 != p.1 {
          assert pairs[n].1 != pairs[k].0;
        }
      }
      forall i, c | 0 <= i < |f.records|
        ensures Cell(g.records[i], c) == MappedCell(f.records[i], pairs, cols1, f.columns, c)
      {
        if c == p.0 && p.0 in cols1 && p.1 in f.columns {
          assert Cell(g.records[i], c) == Cell(h.records[i], p.1);
          assert CopySource(prefix, cols1, f.columns, p.1) == None by {
            PrefixNotCopied(prefix, cols1, f.columns, p.1);
            forall k | 0 <= k < n ensures prefix[k].0 != p.1 {
              assert pairs[n].1 != pairs[k].0;
            }
          }
        } else if c == p.0 {
          assert g == h;
          assert CopySource(prefix, cols1, f.columns, c) == None by {
            PrefixNotCopied(prefix, cols1, f.columns, c);
          }
        } else {
          assert Cell(g.records[i], c) == Cell(h.records[i], c);
        }
      }
    }
  }

  lemma {:induction false} PrefixNotCopied(pairs: seq<Pair>, cols1: seq<string>, cols2: set<string>, c: string)
    requires forall k :: 0 <= k < |pairs| ==> pairs[k].0 != c
    ensures CopySource(pairs, cols1, cols2, c) == None
    decreases |pairs|
  {
    if pairs != [] {
      var prefix := pairs[..|pairs| - 1];
      assert forall k :: 0 <= k < |prefix| ==> prefix[k] == pairs[k];
      PrefixNotCopied(prefix, cols1, cols2, c);
    }
  }

  /** The identity mapping of the default mode never chains. */
  lemma DefaultMappingNoChaining(cols1: seq<string>, cols2: seq<string>, keyCols: seq<string>)
    requires NoRepeats(cols1)
    ensures NoChaining(DefaultMapping(cols1, cols2, keyCols))
  {
    DefaultMappingDistinct(cols1, cols2, keyCols);
  }
}
