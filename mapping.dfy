/** The field mapper: which destination column of the primary table is filled from
    which source column of the secondary table. A mapping is an ordered list of
    (destination, source) pairs with distinct destinations, as a Python dict is. */
module Mapping {
  import opened Values

  /** (destination column, source column) */
  type Pair = (string, string)

  predicate DistinctDests(m: seq<Pair>) {
    forall i, j :: 0 <= i < j < |m| ==> m[i].0 != m[j].0
  }

  /** Every destination is a destination candidate and every source a source candidate. */
  predicate Within(m: seq<Pair>, destCandidates: seq<string>, sourceCandidates: seq<string>) {
    forall i :: 0 <= i < |m| ==> m[i].0 in destCandidates && m[i].1 in sourceCandidates
  }

  // ---------------------------------------------------------------------------
  // Candidate columns and the default mapping

  /** The columns of `cols` that are not key columns, in their order. */
  function NonKey(cols: seq<string>, keyCols: seq<string>): (r: seq<string>)
    ensures forall c :: c in r <==> c in cols && c !in keyCols
    ensures |r| <= |cols|
    ensures Subseq(r, cols)
    decreases |cols|
  {
    if cols == [] then []
    else
      var rest := NonKey(cols[1..], keyCols);
      if cols[0] in keyCols then
        assert rest == [] || Subseq(rest, cols[1..]);
        rest
      else
        assert ([cols[0]] + rest)[1..] == rest;
        [cols[0]] + rest
  }

  /** The columns the two tables share. Python takes them from a set, whose order is
      unspecified; this model lists them in the primary table's order. */
  function CommonColumns(cols1: seq<string>, cols2: seq<string>): (r: seq<string>)
    ensures forall c :: c in r <==> c in cols1 && c in cols2
    decreases |cols1|
  {
    if cols1 == [] then []
    else (if cols1[0] in cols2 then [cols1[0]] else []) + CommonColumns(cols1[1..], cols2)
  }

  function DestCandidates(cols1: seq<string>, keyCols: seq<string>): seq<string> {
    NonKey(cols1, keyCols)
  }

  function SourceCandidates(cols2: seq<string>, keyCols: seq<string>): seq<string> {
    NonKey(cols2, keyCols)
  }

  /** Without a custom mapping every shared non-key column is filled from the column
      of the same name. */
  function DefaultMapping(cols1: seq<string>, cols2: seq<string>, keyCols: seq<string>): (m: seq<Pair>)
    ensures forall i :: 0 <= i < |m| ==> m[i].0 == m[i].1
    ensures forall c :: (c, c) in m <==> c in DestCandidates(cols1, keyCols) && c in SourceCandidates(cols2, keyCols)
    ensures Within(m, DestCandidates(cols1, keyCols), SourceCandidates(cols2, keyCols))
  {
    var common := NonKey(CommonColumns(cols1, cols2), keyCols);
    var m := seq(|common|, i requires 0 <= i < |common| => (common[i], common[i]));
    assert forall c :: (c, c) in m <==> c in common by {
      forall c | c in common ensures (c, c) in m {
        var i :| 0 <= i < |common| && common[i] == c;
        assert m[i] == (c, c);
      }
    }
    m
  }

  predicate NoRepeats(cols: seq<string>) {
    forall i, j :: 0 <= i < j < |cols| ==> cols[i] != cols[j]
  }

  lemma {:induction false} NonKeyNoRepeats(cols: seq<string>, keyCols: seq<string>)
    requires NoRepeats(cols)
    ensures NoRepeats(NonKey(cols, keyCols))
    decreases |cols|
  {
    if cols != [] {
      NonKeyNoRepeats(cols[1..], keyCols);
      assert cols[0] !in cols[1..];
    }
  }

  lemma {:induction false} CommonColumnsNoRepeats(cols1: seq<string>, cols2: seq<string>)
    requires NoRepeats(cols1)
    ensures NoRepeats(CommonColumns(cols1, cols2))
    decreases |cols1|
  {
    if cols1 != [] {
      CommonColumnsNoRepeats(cols1[1..], cols2);
      assert cols1[0] !in cols1[1..];
    }
  }

  /** The default mapping is a mapping: a primary table whose column labels are
      distinct gives it distinct destinations. */
  lemma DefaultMappingDistinct(cols1: seq<string>, cols2: seq<string>, keyCols: seq<string>)
    requires NoRepeats(cols1)
    ensures DistinctDests(DefaultMapping(cols1, cols2, keyCols))
  {
    CommonColumnsNoRepeats(cols1, cols2);
    NonKeyNoRepeats(CommonColumns(cols1, cols2), keyCols);
  }

  // ---------------------------------------------------------------------------
  // JSON import and export of a mapping

  /** A JSON document after parsing. An object lists its members as written. */
  datatype Json = JNull | JBool(b: bool) | JNum(n: int) | JStr(s: string)
                | JArr(items: seq<Json>) | JObj(fields: seq<(string, Json)>)

  datatype ImportError =
    | NotListOrObject   // the document is neither a list nor an object
    | UnhashableDest    // a list item's "dest" is a list or an object

  /** The value of member `k` of an object: the last member of that name, as the JSON
      parser keeps it. */
  function Get(fields: seq<(string, Json)>, k: string): Option<Json>
    decreases |fields|
  {
    if fields == [] then None
    else if fields[|fields| - 1].0 == k then Some(fields[|fields| - 1].1)
    else Get(fields[..|fields| - 1], k)
  }

  /** A dict of loaded pairs. A value is the source column text, or None for a value
      that is not text and so can never name a source column. */
  type Loaded = seq<(string, Option<string>)>

  predicate DistinctLoaded(d: Loaded) {
    forall i, j :: 0 <= i < j < |d| ==> d[i].0 != d[j].0
  }

  /** The value stored under `k`. */
  function Find(d: Loaded, k: string): Option<Option<string>>
    decreases |d|
  {
    if d == [] then None else if d[0].0 == k then Some(d[0].1) else Find(d[1..], k)
  }

  /** Storing into a Python dict: a new key is appended, an existing key keeps its
      place and takes the new value. */
  function Put(d: Loaded, k: string, v: Option<string>): (r: Loaded)
    ensures Find(r, k) == Some(v)
    ensures forall k' :: k' != k ==> Find(r, k') == Find(d, k')
    ensures DistinctLoaded(d) ==> DistinctLoaded(r)
    ensures Find(d, k) == None ==> r == d + [(k, v)]
    ensures Find(d, k).Some? ==> |r| == |d| && forall j :: 0 <= j < |d| ==> r[j].0 == d[j].0
    decreases |d|
  {
    if d == [] then [(k, v)]
    else if d[0].0 == k then [(k, v)] + d[1..]
    else
      var rest := Put(d[1..], k, v);
      assert DistinctLoaded(d) ==> forall j :: 0 <= j < |rest| ==> rest[j].0 != d[0].0 by {
        if DistinctLoaded(d) {
          forall j | 0 <= j < |rest| ensures rest[j].0 != d[0].0 {
            if rest[j].0 == d[0].0 {
              FindAbsent(d[1..], d[0].0);
              assert Find(rest, d[0].0).Some? by { FindPresent(rest, j); }
            }
          }
        }
      }
      var r := [d[0]] + rest;
      assert Find(d, k).Some? ==> |r| == |d| && forall j :: 0 <= j < |d| ==> r[j].0 == d[j].0 by {
        if Find(d, k).Some? {
          assert Find(d[1..], k).Some?;
          forall j | 0 <= j < |d| ensures r[j].0 == d[j].0 {
            if j > 0 {
              assert r[j] == rest[j - 1] && d[1..][j - 1] == d[j];
            }
          }
        }
      }
      r
  }

  lemma {:induction false} FindPresent(d: Loaded, j: int)
    requires 0 <= j < |d|
    ensures Find(d, d[j].0).Some?
    decreases |d|
  {
    if j > 0 && d[0].0 != d[j].0 {
      FindPresent(d[1..], j - 1);
    }
  }

  lemma {:induction false} FindAbsent(d: Loaded, k: string)
    requires forall j :: 0 <= j < |d| ==> d[j].0 != k
    ensures Find(d, k) == None
    decreases |d|
  {
    if d != [] {
      FindAbsent(d[1..], k);
    }
  }

  /** A list item that names a destination and a source. */
  predicate IsPairItem(item: Json) {
    item.JObj? && Get(item.fields, "dest").Some? && Get(item.fields, "src").Some?
  }

  /** A pair item whose destination cannot be a dict key (a list or an object). */
  predicate IsUnhashableItem(item: Json) {
    IsPairItem(item) && (Get(item.fields, "dest").value.JArr? || Get(item.fields, "dest").value.JObj?)
  }

  /** The source text of a list item, if it is text. */
  function ItemSource(item: Json): Option<string>
    requires IsPairItem(item)
  {
    var v := Get(item.fields, "src").value;
    if v.JStr? then Some(v.s) else None
  }

  /** The list form: a dict from each item's "dest" to its "src", later items
      overriding earlier ones; items without both members are ignored. A destination
      that is a number, a boolean or null can never be a destination candidate and is
      not stored. */
  function FromList(items: seq<Json>, acc: Loaded): (r: Result<Loaded, ImportError>)
    ensures r.Err? <==> exists i :: 0 <= i < |items| && IsUnhashableItem(items[i])
    ensures r.Err? ==> r.error == UnhashableDest
    ensures DistinctLoaded(acc) && r.Ok? ==> DistinctLoaded(r.value)
    decreases |items|
  {
    if items == [] then Ok(acc)
    else
      var item := items[0];
      assert forall i :: 1 <= i < |items| ==> items[i] == items[1..][i - 1];
      if IsPairItem(item) then
        var d := Get(item.fields, "dest").value;
        if d.JArr? || d.JObj? then Err(UnhashableDest)
        else if d.JStr? then FromList(items[1..], Put(acc, d.s, ItemSource(item)))
        else FromList(items[1..], acc)
      else FromList(items[1..], acc)
  }

  /** `str()` of a JSON value, for the scalars; None for a list or an object. */
  function JsonText(v: Json): Option<string> {
    match v
    case JNull => Some("None")
    case JBool(b) => Some(BoolToString(b))
    case JNum(n) => Some(IntToString(n))
    case JStr(s) => Some(s)
    case _ => None
  }

  /** The object form: every member, its value turned into text. */
  function FromObject(fields: seq<(string, Json)>, acc: Loaded): (r: Loaded)
    ensures DistinctLoaded(acc) ==> DistinctLoaded(r)
    decreases |fields|
  {
    if fields == [] then acc
    else FromObject(fields[1..], Put(acc, fields[0].0, JsonText(fields[0].1)))
  }

  /** The loaded pairs whose destination is a destination candidate and whose source
      is a source candidate. */
  function KeepValid(d: Loaded, destCandidates: seq<string>, sourceCandidates: seq<string>): (m: seq<Pair>)
    ensures Within(m, destCandidates, sourceCandidates)
    ensures DistinctLoaded(d) ==> DistinctDests(m)
    ensures DistinctLoaded(d) ==> forall i :: 0 <= i < |m| ==> Find(d, m[i].0) == Some(Some(m[i].1))
    ensures Subseq(AsLoaded(m), d)
    decreases |d|
  {
    if d == [] then []
    else
      var rest := KeepValid(d[1..], destCandidates, sourceCandidates);
      assert DistinctLoaded(d) ==> forall i :: 0 <= i < |rest| ==> rest[i].0 != d[0].0 by {
        if DistinctLoaded(d) {
          FindAbsent(d[1..], d[0].0);
        }
      }
      var (k, v) := d[0];
      if k in destCandidates && v.Some? && v.value in sourceCandidates then
        assert AsLoaded([(k, v.value)] + rest)[1..] == AsLoaded(rest);
        [(k, v.value)] + rest
      else
        assert AsLoaded(rest) == [] || Subseq(AsLoaded(rest), d[1..]);
        rest
  }

  /** The members of an object with their values turned into text. */
  function Texts(fields: seq<(string, Json)>): Loaded
    decreases |fields|
  {
    if fields == [] then [] else [(fields[0].0, JsonText(fields[0].1))] + Texts(fields[1..])
  }

  /** Loading a mapping from its JSON form: a list of {"dest", "src"} objects or an
      object from destination to source; anything else is rejected. Only the pairs
      that fit the current candidate columns are kept. */
  function ImportMapping(payload: Json, destCandidates: seq<string>, sourceCandidates: seq<string>)
    : (r: Result<seq<Pair>, ImportError>)
    ensures r.Ok? ==> Within(r.value, destCandidates, sourceCandidates) && DistinctDests(r.value)
    ensures r == Err(NotListOrObject) <==> !(payload.JArr? || payload.JObj?)
    ensures r == Err(UnhashableDest) <==>
              payload.JArr? && exists i :: 0 <= i < |payload.items| && IsUnhashableItem(payload.items[i])
  {
    match payload
    case JArr(items) =>
      (match FromList(items, [])
       case Ok(d) => Ok(KeepValid(d, destCandidates, sourceCandidates))
       case Err(e) => Err(e))
    case JObj(fields) => Ok(KeepValid(FromObject(fields, []), destCandidates, sourceCandidates))
    case _ => Err(NotListOrObject)
  }

  /** `json.dumps(mapping)`: an object from destination to source. */
  function ExportMapping(m: seq<Pair>): (j: Json)
    ensures j.JObj? && |j.fields| == |m|
    ensures forall i :: 0 <= i < |m| ==> j.fields[i] == (m[i].0, JStr(m[i].1))
    decreases |m|
  {
    if m == [] then JObj([])
    else JObj([(m[0].0, JStr(m[0].1))] + ExportMapping(m[1..]).fields)
  }

  // ---------------------------------------------------------------------------
  // Properties of import and export

  /** The members have distinct names, none of them already loaded. */
  predicate FreshFields(fields: seq<(string, Json)>, acc: Loaded) {
    (forall i, j :: 0 <= i < j < |fields| ==> fields[i].0 != fields[j].0)
    && (forall i :: 0 <= i < |fields| ==> Find(acc, fields[i].0) == None)
  }

  lemma FreshFieldsTail(fields: seq<(string, Json)>, acc: Loaded)
    requires fields != [] && FreshFields(fields, acc)
    ensures FreshFields(fields[1..], acc + [(fields[0].0, JsonText(fields[0].1))])
  {
    var tail := fields[1..];
    var acc' := Put(acc, fields[0].0, JsonText(fields[0].1));
    assert acc' == acc + [(fields[0].0, JsonText(fields[0].1))];
    forall i | 0 <= i < |tail| ensures Find(acc', tail[i].0) == None {
      assert tail[i] == fields[i + 1];
    }
    forall i, j | 0 <= i < j < |tail| ensures tail[i].0 != tail[j].0 {
      assert tail[i] == fields[i + 1] && tail[j] == fields[j + 1];
    }
  }

  /** Loading a member whose name is new appends it. */
  lemma FromObjectStep(fields: seq<(string, Json)>, acc: Loaded)
    requires fields != [] && Find(acc, fields[0].0) == None
    ensures FromObject(fields, acc) == FromObject(fields[1..], acc + [(fields[0].0, JsonText(fields[0].1))])
  {
  }

  lemma TextsStep(fields: seq<(string, Json)>, acc: Loaded)
    requires fields != []
    ensures acc + Texts(fields) == (acc + [(fields[0].0, JsonText(fields[0].1))]) + Texts(fields[1..])
  {
  }

  lemma {:induction false} FromObjectFresh(fields: seq<(string, Json)>, acc: Loaded)
    requires FreshFields(fields, acc)
    ensures FromObject(fields, acc) == acc + Texts(fields)
    decreases |fields|
  {
    if fields == [] {
      assert acc + [] == acc;
    } else {
      var acc' := acc + [(fields[0].0, JsonText(fields[0].1))];
      FreshFieldsTail(fields, acc);
      FromObjectStep(fields, acc);
      TextsStep(fields, acc);
      FromObjectFresh(fields[1..], acc');
    }
  }

  /** A mapping as loaded pairs. */
  function AsLoaded(m: seq<Pair>): Loaded
    decreases |m|
  {
    if m == [] then [] else [(m[0].0, Some(m[0].1))] + AsLoaded(m[1..])
  }

  lemma {:induction false} TextsOfExport(m: seq<Pair>)
    ensures Texts(ExportMapping(m).fields) == AsLoaded(m)
    decreases |m|
  {
    if m != [] {
      TextsOfExport(m[1..]);
      assert ExportMapping(m).fields[1..] == ExportMapping(m[1..]).fields;
    }
  }

  lemma {:induction false} KeepValidAll(m: seq<Pair>, destCandidates: seq<string>, sourceCandidates: seq<string>)
    requires Within(m, destCandidates, sourceCandidates)
    ensures KeepValid(AsLoaded(m), destCandidates, sourceCandidates) == m
    decreases |m|
  {
    if m != [] {
      KeepValidAll(m[1..], destCandidates, sourceCandidates);
      assert AsLoaded(m)[1..] == AsLoaded(m[1..]);
      assert m == [m[0]] + m[1..];
    }
  }

  /** Re-importing an exported mapping against the same candidate columns gives back the
      same mapping, pair for pair and in order. */
  lemma ImportExportRoundTrip(m: seq<Pair>, destCandidates: seq<string>, sourceCandidates: seq<string>)
    requires DistinctDests(m) && Within(m, destCandidates, sourceCandidates)
    ensures ImportMapping(ExportMapping(m), destCandidates, sourceCandidates) == Ok(m)
  {
    var fields := ExportMapping(m).fields;
    assert FreshFields(fields, []);
    FromObjectFresh(fields, []);
    assert [] + Texts(fields) == Texts(fields);
    TextsOfExport(m);
    KeepValidAll(m, destCandidates, sourceCandidates);
  }

  /** The source text of the last pair item whose destination is the text `d`. */
  function LastSource(items: seq<Json>, d: string): Option<Option<string>>
    decreases |items|
  {
    if items == [] then None
    else
      var rest := LastSource(items[1..], d);
      if rest.Some? then rest
      else if IsPairItem(items[0]) && Get(items[0].fields, "dest").value == JStr(d) then Some(ItemSource(items[0]))
      else None
  }

  lemma {:induction false} FromListFind(items: seq<Json>, acc: Loaded, d: string)
    requires FromList(items, acc).Ok?
    ensures Find(FromList(items, acc).value, d) == if LastSource(items, d).Some? then LastSource(items, d) else Find(acc, d)
    decreases |items|
  {
    if items != [] {
      var item := items[0];
      if IsPairItem(item) && Get(item.fields, "dest").value.JStr? {
        FromListFind(items[1..], Put(acc, Get(item.fields, "dest").value.s, ItemSource(item)), d);
      } else {
        FromListFind(items[1..], acc, d);
      }
    }
  }

  lemma {:induction false} KeepValidFind(d: Loaded, destCandidates: seq<string>, sourceCandidates: seq<string>, k: string, s: string)
    requires DistinctLoaded(d)
    ensures (k, s) in KeepValid(d, destCandidates, sourceCandidates)
            <==> Find(d, k) == Some(Some(s)) && k in destCandidates && s in sourceCandidates
    decreases |d|
  {
    if d != [] {
      KeepValidFind(d[1..], destCandidates, sourceCandidates, k, s);
      if d[0].0 == k {
        FindAbsent(d[1..], k);
      }
    }
  }

  /** In the list form a later item overrides an earlier one with the same destination:
      a pair is imported exactly when it comes from the last item for its destination
      and fits the candidate columns. */
  lemma ImportListLastWins(items: seq<Json>, destCandidates: seq<string>, sourceCandidates: seq<string>, k: string, s: string)
    requires forall i :: 0 <= i < |items| ==> !IsUnhashableItem(items[i])
    ensures ImportMapping(JArr(items), destCandidates, sourceCandidates).Ok?
    ensures (k, s) in ImportMapping(JArr(items), destCandidates, sourceCandidates).value
            <==> LastSource(items, k) == Some(Some(s)) && k in destCandidates && s in sourceCandidates
  {
    var d := FromList(items, []).value;
    FromListFind(items, [], k);
    KeepValidFind(d, destCandidates, sourceCandidates, k, s);
  }

  /** Two list items with the same destination: the second one's source is kept. */
  lemma ImportListOverrideExample(d: string, s1: string, s2: string)
    requires s1 != s2
    ensures var item1 := JObj([("dest", JStr(d)), ("src", JStr(s1))]);
            var item2 := JObj([("dest", JStr(d)), ("src", JStr(s2))]);
            ImportMapping(JArr([item1, item2]), [d], [s1, s2]) == Ok([(d, s2)])
  {
    var item1 := JObj([("dest", JStr(d)), ("src", JStr(s1))]);
    var item2 := JObj([("dest", JStr(d)), ("src", JStr(s2))]);
    assert Get(item1.fields, "dest") == Some(JStr(d));
    assert Get(item1.fields, "src") == Some(JStr(s1));
    assert Get(item2.fields, "dest") == Some(JStr(d));
    assert Get(item2.fields, "src") == Some(JStr(s2));
    assert [item1, item2][1..] == [item2];
    var acc := Put([], d, Some(s1));
    assert FromList([item1, item2], []) == FromList([item2], acc);
    assert [item2][1..] == [];
    assert FromList([item2], acc) == FromList([], Put(acc, d, Some(s2)));
    assert Put(acc, d, Some(s2)) == [(d, Some(s2))];
    assert KeepValid([(d, Some(s2))], [d], [s1, s2]) == [(d, s2)];
  }
}
