/** The key normalizer: every record of either table gets a merge key built from its
    key columns. Text (object-dtype) key columns are stripped and lower-cased first;
    then every key cell is rendered with `str()` and the renderings are joined with
    '|' in key-column order. */
module Keys {
  import opened Values

  const Separator: char := '|'

  /** strip() then lower(), as applied to a text key column. */
  function NormalizeText(s: string): string {
    Lower(Strip(s))
  }

  /** The copy of a record in which each text key column holds its normalized text. */
  function NormalizeRecord(r: Record, keyCols: seq<string>, textCols: set<string>): Record {
    map c | c in r :: if c in keyCols && c in textCols then Text(NormalizeText(PyStr(r[c]))) else r[c]
  }

  /** The string one key cell contributes to the merge key. */
  function Segment(v: Value, isText: bool): string {
    if isText then NormalizeText(PyStr(v)) else PyStr(v)
  }

  /** `"|".join(segs)`. */
  function Join(segs: seq<string>): string
    decreases |segs|
  {
    if |segs| == 0 then [] else if |segs| == 1 then segs[0]
    else segs[0] + [Separator] + Join(segs[1..])
  }

  predicate HasKeyColumns(r: Record, keyCols: seq<string>) {
    forall i :: 0 <= i < |keyCols| ==> keyCols[i] in r
  }

  /** The `str()` renderings of a record's key cells, in key-column order. */
  function Rendered(r: Record, keyCols: seq<string>): seq<string>
    requires HasKeyColumns(r, keyCols)
  {
    seq(|keyCols|, i requires 0 <= i < |keyCols| => PyStr(r[keyCols[i]]))
  }

  /** The merge key of one record: its key cells normalized, rendered and joined. */
  function MergeKey(r: Record, keyCols: seq<string>, textCols: set<string>): string
    requires HasKeyColumns(r, keyCols)
  {
    Join(Rendered(NormalizeRecord(r, keyCols, textCols), keyCols))
  }

  /** The merge keys of a whole table, parallel to its rows. */
  function MergeKeys(rows: seq<Record>, keyCols: seq<string>, textCols: set<string>): seq<string>
    requires forall i :: 0 <= i < |rows| ==> HasKeyColumns(rows[i], keyCols)
  {
    seq(|rows|, i requires 0 <= i < |rows| => MergeKey(rows[i], keyCols, textCols))
  }

  // ---------------------------------------------------------------------------
  // Splitting a key back into its segments: the inverse of Join where it exists

  function IndexOf(s: string, ch: char): (i: nat)
    requires ch in s
    ensures i < |s| && s[i] == ch && ch !in s[..i]
  {
    if s[0] == ch then 0 else 1 + IndexOf(s[1..], ch)
  }

  /** The segments of a key, cut at every separator. */
  function Split(s: string): (segs: seq<string>)
    ensures |segs| >= 1
    ensures forall i :: 0 <= i < |segs| ==> Separator !in segs[i]
    ensures Join(segs) == s
    decreases |s|
  {
    if Separator !in s then [s]
    else
      var i := IndexOf(s, Separator);
      assert s == s[..i] + [Separator] + s[i + 1..];
      [s[..i]] + Split(s[i + 1..])
  }

  predicate SeparatorFree(segs: seq<string>) {
    forall i :: 0 <= i < |segs| ==> Separator !in segs[i]
  }

  /** Splitting a joined key gives back its segments when none of them holds a '|'. */
  lemma {:induction false} SplitJoin(segs: seq<string>)
    requires |segs| >= 1 && SeparatorFree(segs)
    ensures Split(Join(segs)) == segs
    decreases |segs|
  {
    if |segs| > 1 {
      var a, rest := segs[0], Join(segs[1..]);
      var s := a + [Separator] + rest;
      assert Join(segs) == s;
      assert Separator in s by { assert s[|a|] == Separator; }
      var i := IndexOf(s, Separator);
      assert s[..i] == a;
      assert s[i + 1..] == rest;
      SplitJoin(segs[1..]);
    }
  }

  /** The '|' join is one-to-one on segments that contain no '|'. */
  lemma JoinInjective(a: seq<string>, b: seq<string>)
    requires |a| >= 1 && |b| >= 1 && SeparatorFree(a) && SeparatorFree(b)
    ensures Join(a) == Join(b) <==> a == b
  {
    if Join(a) == Join(b) {
      SplitJoin(a);
      SplitJoin(b);
    }
  }

  // ---------------------------------------------------------------------------
  // Properties of the normalization

  lemma {:induction false} StripLeading(p: string, s: string)
    requires AllSpace(p)
    ensures Strip(p + s) == Strip(s)
    decreases |p|
  {
    if p == [] {
      assert p + s == s;
    } else {
      assert (p + s)[0] == p[0] && IsSpace(p[0]);
      assert (p + s)[1..] == p[1..] + s;
      calc {
        Strip(p + s);
        Strip((p + s)[1..]);
        Strip(p[1..] + s);
        { StripLeading(p[1..], s); }
        Strip(s);
      }
    }
  }

  lemma {:induction false} StripTrailing(s: string, q: string)
    requires AllSpace(q)
    ensures Strip(s + q) == Strip(s)
    decreases |s| + |q|
  {
    if q == [] {
      assert s + q == s;
    } else if s == [] {
      assert s + q == q;
      StripTrailing(s, q[1..]);
      assert s + q[1..] == q[1..];
    } else if IsSpace(s[0]) {
      assert (s + q)[1..] == s[1..] + q;
      StripTrailing(s[1..], q);
    } else {
      assert (s + q)[..|s + q| - 1] == s + q[..|q| - 1];
      StripTrailing(s, q[..|q| - 1]);
    }
  }

  lemma LowerCharKeepsSpace(ch: char)
    ensures IsSpace(LowerChar(ch)) <==> IsSpace(ch)
  {
  }

  lemma {:induction false} StripLower(s: string)
    ensures Strip(Lower(s)) == Lower(Strip(s))
    decreases |s|
  {
    if s != [] {
      LowerCharKeepsSpace(s[0]);
      LowerCharKeepsSpace(s[|s| - 1]);
      if IsSpace(s[0]) {
        assert Lower(s)[1..] == Lower(s[1..]);
        StripLower(s[1..]);
      } else if IsSpace(s[|s| - 1]) {
        assert Lower(s)[..|s| - 1] == Lower(s[..|s| - 1]);
        StripLower(s[..|s| - 1]);
      }
    }
  }

  lemma LowerIdempotent(s: string)
    ensures Lower(Lower(s)) == Lower(s)
  {
  }

  /** Normalizing an already normalized key text changes nothing. */
  lemma NormalizeTextIdempotent(s: string)
    ensures NormalizeText(NormalizeText(s)) == NormalizeText(s)
  {
    var t := Strip(s);
    StripLower(t);
    assert Strip(t) == t;
    LowerIdempotent(t);
  }

  /** Surrounding whitespace never changes a normalized key text. */
  lemma NormalizeTextIgnoresPadding(p: string, s: string, q: string)
    requires AllSpace(p) && AllSpace(q)
    ensures NormalizeText(p + s + q) == NormalizeText(s)
  {
    StripLeading(p, s + q);
    assert p + s + q == p + (s + q);
    StripTrailing(s, q);
  }

  /** Texts that agree once lower-cased normalize to the same key text. */
  lemma NormalizeTextIgnoresCase(s: string, t: string)
    requires Lower(s) == Lower(t)
    ensures NormalizeText(s) == NormalizeText(t)
  {
    StripLower(s);
    StripLower(t);
  }

  /** "  AbC " and "abc" give the same key segment. */
  lemma NormalizeTextExample()
    ensures NormalizeText("  AbC ") == NormalizeText("abc") == "abc"
  {
    ExamplePadding();
    NormalizeTextIgnoresPadding("  ", "AbC", " ");
    ExampleLower();
    NormalizeTextIgnoresCase("AbC", "abc");
    ExampleStrip();
  }

  lemma ExamplePadding()
    ensures "  " + "AbC" + " " == "  AbC "
    ensures AllSpace("  ") && AllSpace(" ")
  {
    assert IsSpace(' ');
  }

  lemma ExampleLower()
    ensures Lower("AbC") == Lower("abc") == "abc"
  {
    assert LowerChar('A') == 'a' && LowerChar('C') == 'c';
    assert LowerChar('a') == 'a' && LowerChar('b') == 'b' && LowerChar('c') == 'c';
  }

  lemma ExampleStrip()
    ensures Strip("abc") == "abc"
  {
    assert !IsSpace('a') && !IsSpace('c');
    StripUnpadded("abc");
  }

  /** Normalizing the key columns of an already normalized record changes nothing, and
      so neither does its merge key. */
  lemma NormalizeRecordIdempotent(r: Record, keyCols: seq<string>, textCols: set<string>)
    requires HasKeyColumns(r, keyCols)
    ensures NormalizeRecord(NormalizeRecord(r, keyCols, textCols), keyCols, textCols)
            == NormalizeRecord(r, keyCols, textCols)
    ensures MergeKey(NormalizeRecord(r, keyCols, textCols), keyCols, textCols) == MergeKey(r, keyCols, textCols)
  {
    var n := NormalizeRecord(r, keyCols, textCols);
    forall c | c in n && c in keyCols && c in textCols
      ensures NormalizeText(PyStr(n[c])) == NormalizeText(PyStr(r[c]))
    {
      NormalizeTextIdempotent(PyStr(r[c]));
    }
    assert NormalizeRecord(n, keyCols, textCols) == n;
  }

  /** The merge key is the '|' join of one segment per key column, in key-column
      order: the normalized text for a text column, the plain `str()` otherwise. */
  lemma MergeKeyIsJoin(r: Record, keyCols: seq<string>, textCols: set<string>)
    requires HasKeyColumns(r, keyCols)
    ensures MergeKey(r, keyCols, textCols)
            == Join(seq(|keyCols|, i requires 0 <= i < |keyCols| => Segment(r[keyCols[i]], keyCols[i] in textCols)))
  {
    var n := NormalizeRecord(r, keyCols, textCols);
    assert Rendered(n, keyCols)
           == seq(|keyCols|, i requires 0 <= i < |keyCols| => Segment(r[keyCols[i]], keyCols[i] in textCols));
  }

  /** Two records whose key segments contain no '|' get the same merge key exactly
      when every key column gives the same segment. */
  lemma SameKeyIff(r1: Record, r2: Record, keyCols: seq<string>, textCols: set<string>)
    requires |keyCols| >= 1
    requires HasKeyColumns(r1, keyCols) && HasKeyColumns(r2, keyCols)
    requires forall i :: 0 <= i < |keyCols| ==> Separator !in Segment(r1[keyCols[i]], keyCols[i] in textCols)
    requires forall i :: 0 <= i < |keyCols| ==> Separator !in Segment(r2[keyCols[i]], keyCols[i] in textCols)
    ensures MergeKey(r1, keyCols, textCols) == MergeKey(r2, keyCols, textCols)
            <==> forall i :: 0 <= i < |keyCols| ==>
                   Segment(r1[keyCols[i]], keyCols[i] in textCols) == Segment(r2[keyCols[i]], keyCols[i] in textCols)
  {
    var a := seq(|keyCols|, i requires 0 <= i < |keyCols| => Segment(r1[keyCols[i]], keyCols[i] in textCols));
    var b := seq(|keyCols|, i requires 0 <= i < |keyCols| => Segment(r2[keyCols[i]], keyCols[i] in textCols));
    MergeKeyIsJoin(r1, keyCols, textCols);
    MergeKeyIsJoin(r2, keyCols, textCols);
    JoinInjective(a, b);
    assert forall i :: 0 <= i < |keyCols| ==> a[i] == Segment(r1[keyCols[i]], keyCols[i] in textCols);
    assert forall i :: 0 <= i < |keyCols| ==> b[i] == Segment(r2[keyCols[i]], keyCols[i] in textCols);
    assert (forall i :: 0 <= i < |keyCols| ==> a[i] == b[i]) <==> a == b;
    assert (MergeKey(r1, keyCols, textCols) == MergeKey(r2, keyCols, textCols)) == (a == b);
  }

  /** The '|' join is not one-to-one: the key tuples ("x|y", "z") and ("x", "y|z")
      differ, yet the two records get the same merge key and are matched. */
  lemma KeyCollision()
    ensures var r1: Record := map["a" := Text("x|y"), "b" := Text("z")];
            var r2: Record := map["a" := Text("x"), "b" := Text("y|z")];
            r1 != r2 && MergeKey(r1, ["a", "b"], {}) == MergeKey(r2, ["a", "b"], {})
  {
    var r1: Record := map["a" := Text("x|y"), "b" := Text("z")];
    var r2: Record := map["a" := Text("x"), "b" := Text("y|z")];
    assert r1["a"] != r2["a"];
    assert NormalizeRecord(r1, ["a", "b"], {}) == r1;
    assert NormalizeRecord(r2, ["a", "b"], {}) == r2;
    assert Rendered(r1, ["a", "b"]) == ["x|y", "z"];
    assert Rendered(r2, ["a", "b"]) == ["x", "y|z"];
  }

  /** In a text key column a missing cell renders as "nan", so missing keys match each
      other, and they also match the text "NaN" (in any case, with any padding). */
  lemma MissingKeyIsNan(p: string, q: string)
    requires AllSpace(p) && AllSpace(q)
    ensures Segment(Missing, true) == "nan"
    ensures Segment(Text(p + "NaN" + q), true) == "nan"
  {
    NormalizeTextIgnoresPadding(p, "NaN", q);
    ExampleNanText();
    assert PyStr(Missing) == "nan";
    assert PyStr(Text(p + "NaN" + q)) == p + "NaN" + q;
  }

  lemma ExampleNanText()
    ensures NormalizeText("NaN") == "nan" && NormalizeText("nan") == "nan"
  {
    assert !IsSpace('N') && !IsSpace('n');
    StripUnpadded("NaN");
    StripUnpadded("nan");
    assert Lower("NaN") == "nan" by { assert LowerChar('N') == 'n' && LowerChar('a') == 'a'; }
    assert Lower("nan") == "nan" by { assert LowerChar('n') == 'n' && LowerChar('a') == 'a'; }
  }
}
