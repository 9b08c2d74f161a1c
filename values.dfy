/** Cell values of a spreadsheet table as the merge engine sees them once pandas has
    parsed the workbook, together with the few Python built-ins the engine applies to
    them: `str()`, `str.strip()`, `str.lower()` and `==`. */
module Values {

  datatype Option<+T> = None | Some(value: T)

  datatype Result<+T, +E> = Ok(value: T) | Err(error: E)

  /** A scalar cell: text, an integral number, a boolean, or pandas' missing marker (NaN). */
  datatype Value = Text(s: string) | Number(n: int) | Bool(b: bool) | Missing

  /** One row of a table: column label to cell. */
  type Record = map<string, Value>

  /** A parsed table: its column labels in order, the columns whose dtype is `object`
      (the textual ones), and its rows in order. */
  datatype Table = Table(columns: seq<string>, textColumns: set<string>, rows: seq<Record>) {

    /** Every row carries exactly the table's columns, as every row of a DataFrame does. */
    predicate Rectangular() {
      forall i :: 0 <= i < |rows| ==> rows[i].Keys == set c | c in columns
    }
  }

  /** The cell of column `c`, or Missing where the record has no such column. */
  function Cell(r: Record, c: string): Value {
    if c in r then r[c] else Missing
  }

  // ---------------------------------------------------------------------------
  // str.strip() and str.lower()

  /** Python's `str.isspace()` on one character: the characters `str.strip()` removes. */
  predicate IsSpace(ch: char) {
    var n := ch as int;
    (9 <= n <= 13) || (28 <= n <= 32) || n == 0x85 || n == 0xA0 || n == 0x1680
    || (0x2000 <= n <= 0x200A) || n == 0x2028 || n == 0x2029 || n == 0x202F
    || n == 0x205F || n == 0x3000
  }

  predicate AllSpace(s: string) {
    forall i :: 0 <= i < |s| ==> IsSpace(s[i])
  }

  /** `r` is `s` with a whitespace prefix and a whitespace suffix cut off. */
  predicate Trimmed(r: string, s: string) {
    exists i, j :: 0 <= i <= j <= |s| && r == s[i..j] && AllSpace(s[..i]) && AllSpace(s[j..])
  }

  /** `str.strip()`: removes leading and trailing whitespace. The result is a slice of
      `s` whose margins are whitespace and whose ends are not. */
  function Strip(s: string): (r: string)
    ensures |r| <= |s|
    ensures r == [] || (!IsSpace(r[0]) && !IsSpace(r[|r| - 1]))
    ensures r == [] <==> AllSpace(s)
    ensures Trimmed(r, s)
    decreases |s|
  {
    if s == [] then
      assert Trimmed([], s) by { assert s[0..0] == [] && s[..0] == [] && s[0..] == []; }
      []
    else if IsSpace(s[0]) then
      var r := Strip(s[1..]);
      MarginFront(s, s[1..], r);
      r
    else if IsSpace(s[|s| - 1]) then
      var r := Strip(s[..|s| - 1]);
      MarginBack(s, s[..|s| - 1], r);
      r
    else
      assert Trimmed(s, s) by { assert s[0..|s|] == s && s[..0] == [] && s[|s|..] == []; }
      s
  }

  /** A text that neither starts nor ends with whitespace is its own strip. */
  lemma StripUnpadded(s: string)
    requires s != [] && !IsSpace(s[0]) && !IsSpace(s[|s| - 1])
    ensures Strip(s) == s
  {
  }

  /** A leading space widens the front margin of a slice. */
  lemma MarginFront(s: string, t: string, r: string)
    requires s != [] && IsSpace(s[0]) && t == s[1..]
    requires Trimmed(r, t)
    ensures Trimmed(r, s)
  {
    var i, j :| 0 <= i <= j <= |t| && r == t[i..j] && AllSpace(t[..i]) && AllSpace(t[j..]);
    TailSlices(s, t, i, j);
    SpaceFront(s, t, i);
    assert 0 <= i + 1 <= j + 1 <= |s| && r == s[i + 1..j + 1] && AllSpace(s[..i + 1]) && AllSpace(s[j + 1..]);
  }

  lemma TailSlices(s: string, t: string, i: int, j: int)
    requires s != [] && t == s[1..] && 0 <= i <= j <= |t|
    ensures t[i..j] == s[i + 1..j + 1] && t[j..] == s[j + 1..]
  {
  }

  lemma SpaceFront(s: string, t: string, i: int)
    requires s != [] && IsSpace(s[0]) && t == s[1..] && 0 <= i <= |t| && AllSpace(t[..i])
    ensures AllSpace(s[..i + 1])
  {
    var p := s[..i + 1];
    forall k | 0 <= k < |p| ensures IsSpace(p[k]) {
      if k > 0 {
        assert t[..i][k - 1] == s[k];
      }
    }
  }

  /** A trailing space widens the back margin of a slice. */
  lemma MarginBack(s: string, t: string, r: string)
    requires s != [] && IsSpace(s[|s| - 1]) && t == s[..|s| - 1]
    requires Trimmed(r, t)
    ensures Trimmed(r, s)
  {
    var i, j :| 0 <= i <= j <= |t| && r == t[i..j] && AllSpace(t[..i]) && AllSpace(t[j..]);
    FrontSlices(s, t, i, j);
    SpaceBack(s, t, j);
    assert 0 <= i <= j <= |s| && r == s[i..j] && AllSpace(s[..i]) && AllSpace(s[j..]);
  }

  lemma FrontSlices(s: string, t: string, i: int, j: int)
    requires s != [] && t == s[..|s| - 1] && 0 <= i <= j <= |t|
    ensures t[i..j] == s[i..j] && t[..i] == s[..i]
  {
  }

  lemma SpaceBack(s: string, t: string, j: int)
    requires s != [] && IsSpace(s[|s| - 1]) && t == s[..|s| - 1] && 0 <= j <= |t| && AllSpace(t[j..])
    ensures AllSpace(s[j..])
  {
    forall k | 0 <= k < |s| - j ensures IsSpace(s[j..][k]) {
      if j + k < |t| {
        assert t[j..][k] == s[j + k];
      }
    }
  }

  // ---------------------------------------------------------------------------
  // Order

  /** `m` is `s` with some elements deleted: what a filter keeps, in the same order. */
  predicate Subseq<T(==)>(m: seq<T>, s: seq<T>)
    decreases |s|
  {
    if m == [] then true
    else if s == [] then false
    else (m[0] == s[0] && Subseq(m[1..], s[1..])) || Subseq(m, s[1..])
  }

  lemma {:induction false} SubseqRefl<T>(s: seq<T>)
    ensures Subseq(s, s)
    decreases |s|
  {
    if s != [] {
      SubseqRefl(s[1..]);
    }
  }

  /** Deleting from what was already deleted from is deleting. */
  lemma {:induction false} SubseqTrans<T>(a: seq<T>, b: seq<T>, c: seq<T>)
    requires Subseq(a, b) && Subseq(b, c)
    ensures Subseq(a, c)
    decreases |c|
  {
    if a != [] {
      if Subseq(b, c[1..]) {
        SubseqTrans(a, b, c[1..]);
      } else if a[0] == b[0] && Subseq(a[1..], b[1..]) {
        SubseqTrans(a[1..], b[1..], c[1..]);
      } else {
        SubseqTrans(a, b[1..], c[1..]);
      }
    }
  }

  /** A subsequence keeps only elements of the sequence. */
  lemma {:induction false} SubseqMembers<T>(m: seq<T>, s: seq<T>)
    requires Subseq(m, s)
    ensures forall x :: x in m ==> x in s
    decreases |s|
  {
    if m != [] {
      if m[0] == s[0] && Subseq(m[1..], s[1..]) {
        SubseqMembers(m[1..], s[1..]);
        assert forall x :: x in m ==> x == m[0] || x in m[1..];
      } else {
        SubseqMembers(m, s[1..]);
      }
    }
  }

  function LowerChar(ch: char): char {
    if 'A' <= ch <= 'Z' then (ch as int + 32) as char else ch
  }

  /** `str.lower()` on the ASCII letters. */
  function Lower(s: string): string {
    seq(|s|, i requires 0 <= i < |s| => LowerChar(s[i]))
  }

  // ---------------------------------------------------------------------------
  // str() of a cell

  function DigitChar(d: int): char
    requires 0 <= d < 10
  {
    "0123456789"[d]
  }

  function NatToString(n: nat): string
    decreases n
  {
    if n < 10 then [DigitChar(n)] else NatToString(n / 10) + [DigitChar(n % 10)]
  }

  /** `str()` of a Python integer. */
  function IntToString(n: int): string {
    if n < 0 then "-" + NatToString(-n) else NatToString(n)
  }

  function BoolToString(b: bool): string {
    if b then "True" else "False"
  }

  /** `str()` of a cell, as `astype(str)` renders it; NaN renders as "nan". */
  function PyStr(v: Value): string {
    match v
    case Text(s) => s
    case Number(n) => IntToString(n)
    case Bool(b) => BoolToString(b)
    case Missing => "nan"
  }

  // ---------------------------------------------------------------------------
  // == between cells, and the two emptiness tests of the merge loop

  function BoolAsInt(b: bool): int {
    if b then 1 else 0
  }

  /** Python's `==` on two cells: a bool equals the integer 1 or 0 it stands for,
      values of unrelated types are never equal, and NaN equals nothing. */
  predicate PyEq(a: Value, b: Value) {
    match (a, b)
    case (Text(x), Text(y)) => x == y
    case (Number(x), Number(y)) => x == y
    case (Bool(x), Bool(y)) => x == y
    case (Bool(x), Number(y)) => BoolAsInt(x) == y
    case (Number(x), Bool(y)) => x == BoolAsInt(y)
    case _ => false
  }

  /** A source cell that the merge never copies: NaN, or text that is empty once
      stripped. */
  predicate IsBlankSource(v: Value) {
    v.Missing? || (v.Text? && Strip(v.s) == [])
  }

  /** A destination cell that counts as empty: NaN, or exactly the empty text (text
      made of blanks is not empty here). */
  predicate IsEmptyCell(v: Value) {
    v.Missing? || v == Text("")
  }

  /** Equal cells are `==` unless they are NaN. */
  lemma PyEqReflexive(v: Value)
    requires !v.Missing?
    ensures PyEq(v, v)
  {
  }

  /** A cell that is not blank as a source differs from every empty destination cell,
      so writing it into an empty cell always changes that cell. */
  lemma NonBlankIsNotEmpty(v: Value)
    requires !IsBlankSource(v)
    ensures !IsEmptyCell(v)
  {
  }
}
