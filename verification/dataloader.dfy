/** `src/dataloader.py`: the loader that derives a cohort identifier from a
    grade-table URL and, given the tables the PDF extractor found, keeps the
    first one with its comma-decimal columns rewritten to dot decimals.

    The loader is a record whose optional fields are the two pieces of state
    the Python object holds: the identifier, set once at construction, and
    the table, absent until `load_data` stores one. */
module Dataloader {
  import opened Errors
  import opened Strings

  /** The text before a cohort identifier in a grade-table URL. */
  const MARKER: string := "ECTS_Tab_"

  /** The text after a cohort identifier in a grade-table URL. */
  const SUFFIX: string := ".pdf"

  /** The columns written with a decimal comma, in the order they are rewritten. */
  const NUMERIC_COLUMNS: seq<string> := ["Note", "Prozent", "Kumuliert"]

  // ---------------------------------------------------------------------------
  // The cohort identifier
  // ---------------------------------------------------------------------------

  /** `url.split("ECTS_Tab_")[1].split(".pdf")[0]`; indexing `[1]` on a
      one-element list raises `IndexError`. */
  function StudyOf(url: string): (r: Result<string>)
    ensures r.Err? <==> !Contains(url, MARKER)
    ensures r.Err? ==> r.error == IndexError
  {
    var parts := Split(url, MARKER);
    SplitLength(url, MARKER);
    if |parts| < 2 then Err(IndexError)
    else Ok(Split(parts[1], SUFFIX)[0])
  }

  /** The identifier at the front of `t` can end at `k`: the end of the text,
      a `.pdf`, or a second marker. */
  predicate IsStop(t: string, k: int) {
    k == |t| || OccursAt(t, SUFFIX, k) || OccursAt(t, MARKER, k)
  }

  /** `id` is the text `t` starts with, up to its first stop. */
  predicate LeadingIdentifier(t: string, id: string) {
    && id <= t
    && IsStop(t, |id|)
    && forall j :: 0 <= j < |id| ==> !IsStop(t, j)
  }

  /** A text has at most one leading identifier. */
  lemma LeadingIdentifierUnique(t: string, x: string, y: string)
    requires LeadingIdentifier(t, x) && LeadingIdentifier(t, y)
    ensures x == y
  {
  }

  /** A `.pdf` never overlaps the start of a marker: their characters differ. */
  lemma SuffixMissesMarkerStart(t: string, f: int, j: int)
    requires OccursAt(t, MARKER, f) && j < f < j + |SUFFIX|
    ensures !OccursAt(t, SUFFIX, j)
  {
    assert t[f] == t[f..f + |MARKER|][0] == 'E';
    if 0 <= j && j + |SUFFIX| <= |t| {
      assert t[j..j + |SUFFIX|][f - j] == t[f];
    }
  }

  /** What the derivation computes: for a URL whose leftmost marker is at `i`,
      the identifier is the text after that marker up to the first `.pdf`, the
      next marker, or the end, whichever comes first. */
  lemma StudyOfSpec(url: string, i: int)
    requires FirstAt(url, MARKER, i)
    ensures StudyOf(url).Ok?
    ensures LeadingIdentifier(url[i + |MARKER|..], StudyOf(url).value)
  {
    var t := url[i + |MARKER|..];
    SplitAt(url, MARKER, i);
    assert Split(url, MARKER)[1] == Split(t, MARKER)[0];
    var f := SplitHead(t, MARKER);
    var p := t[..f];
    var g := SplitHead(p, SUFFIX);
    var id := StudyOf(url).value;
    assert id == p[..g] == t[..g];
    if g < f {
      OccursInPrefix(t, SUFFIX, f, g);
    }
    assert IsStop(t, g);
    forall j | 0 <= j < g
      ensures !IsStop(t, j)
    {
      if OccursAt(t, SUFFIX, j) {
        if j + |SUFFIX| <= f {
          OccursInPrefixBack(t, SUFFIX, f, j);
        } else {
          SuffixMissesMarkerStart(t, f, j);
        }
      }
    }
  }

  /** The identifier contains neither a `.pdf` nor the marker, and appears in
      the URL it came from. */
  lemma StudyOfClean(url: string)
    requires StudyOf(url).Ok?
    ensures !Contains(StudyOf(url).value, SUFFIX)
    ensures !Contains(StudyOf(url).value, MARKER)
    ensures Contains(url, StudyOf(url).value)
  {
    var i := Find(url, MARKER).value;
    StudyOfSpec(url, i);
    var t := url[i + |MARKER|..];
    var id := StudyOf(url).value;
    forall j | 0 <= j <= |id| - |SUFFIX|
      ensures !OccursAt(id, SUFFIX, j)
    {
      assert id == t[..|id|] && !IsStop(t, j);
      if OccursAt(id, SUFFIX, j) {
        OccursInPrefix(t, SUFFIX, |id|, j);
      }
    }
    forall j | 0 <= j <= |id| - |MARKER|
      ensures !OccursAt(id, MARKER, j)
    {
      assert id == t[..|id|] && !IsStop(t, j);
      if OccursAt(id, MARKER, j) {
        OccursInPrefix(t, MARKER, |id|, j);
      }
    }
    assert url[i + |MARKER|..i + |MARKER| + |id|] == id;
    assert OccursAt(url, id, i + |MARKER|);
  }

  /** With no `E` in front of it, the marker at the end of `a` is the leftmost one. */
  lemma MarkerFirstAfter(a: string, rest: string)
    requires 'E' !in a
    ensures FirstAt(a + MARKER + rest, MARKER, |a|)
  {
    var s := a + MARKER + rest;
    assert s[|a|..|a| + |MARKER|] == MARKER;
    forall j | 0 <= j < |a|
      ensures !OccursAt(s, MARKER, j)
    {
      assert s[j] == a[j];
      if j + |MARKER| <= |s| {
        assert s[j..j + |MARKER|][0] == s[j];
      }
    }
  }

  /** Inside an identifier free of `.` and of the marker and followed by a
      `.pdf`, nothing can end it early. */
  lemma NoStopInsideIdentifier(id: string, tail: string, j: int)
    requires '.' !in id && !Contains(id, MARKER) && SUFFIX <= tail
    requires 0 <= j < |id|
    ensures !IsStop(id + tail, j)
  {
    var t := id + tail;
    assert t[j] == id[j];
    assert t[|id|] == '.';
    if j + |SUFFIX| <= |t| {
      assert t[j..j + |SUFFIX|][0] == t[j];
    }
    assert !OccursAt(t, SUFFIX, j);
    if j + |MARKER| <= |id| {
      assert t[j..j + |MARKER|] == id[j..j + |MARKER|];
      assert !OccursAt(id, MARKER, j);
    } else if j + |MARKER| <= |t| {
      assert t[j..j + |MARKER|][|id| - j] == t[|id|];
    }
    assert !OccursAt(t, MARKER, j);
  }

  /** URLs of the usual shape `<a>ECTS_Tab_<id>.pdf<rest>` yield `<id>` when
      `<a>` has no `E`, `<id>` has no `.` and does not contain the marker. */
  lemma StudyOfUsualShape(a: string, id: string, rest: string)
    requires 'E' !in a && '.' !in id && !Contains(id, MARKER)
    ensures StudyOf(a + MARKER + id + SUFFIX + rest) == Ok(id)
  {
    var url := a + MARKER + (id + SUFFIX + rest);
    assert a + MARKER + id + SUFFIX + rest == url;
    MarkerFirstAfter(a, id + SUFFIX + rest);
    StudyOfSpec(url, |a|);
    var t := id + (SUFFIX + rest);
    assert url[|a| + |MARKER|..] == t;
    UsualIdentifier(id, SUFFIX + rest);
    LeadingIdentifierUnique(t, id, StudyOf(url).value);
  }

  /** An identifier free of `.` and of the marker, followed by `.pdf`, is the
      leading identifier of the text. */
  lemma UsualIdentifier(id: string, tail: string)
    requires '.' !in id && !Contains(id, MARKER) && SUFFIX <= tail
    ensures LeadingIdentifier(id + tail, id)
  {
    var t := id + tail;
    assert t[..|id|] == id;
    assert t[|id|..|id| + |SUFFIX|] == tail[..|SUFFIX|] == SUFFIX;
    forall j | 0 <= j < |id|
      ensures !IsStop(t, j)
    {
      NoStopInsideIdentifier(id, tail, j);
    }
  }

  /** A URL whose text after the leftmost marker holds neither `.pdf` nor a
      second marker does not fail: the identifier is that whole remainder. */
  lemma StudyOfWithoutSuffix(url: string, i: int)
    requires FirstAt(url, MARKER, i)
    requires !Contains(url[i + |MARKER|..], SUFFIX) && !Contains(url[i + |MARKER|..], MARKER)
    ensures StudyOf(url) == Ok(url[i + |MARKER|..])
  {
    var rest := url[i + |MARKER|..];
    StudyOfSpec(url, i);
    forall j | 0 <= j < |rest|
      ensures !IsStop(rest, j)
    {
      assert !OccursAt(rest, SUFFIX, j) && !OccursAt(rest, MARKER, j);
    }
    assert LeadingIdentifier(rest, rest);
    LeadingIdentifierUnique(rest, rest, StudyOf(url).value);
  }

  /** The URL of the loader's test fixture yields `WS23_24_BA_TEST_DE`. */
  lemma FixtureStudy(url: string)
    requires url == "tests/assets/::ECTS_Tab_WS23_24_BA_TEST_DE.pdf"
    ensures StudyOf(url) == Ok("WS23_24_BA_TEST_DE")
  {
    assert url == "tests/assets/::" + MARKER + "WS23_24_BA_TEST_DE" + SUFFIX + "";
    MissingCharacter("WS23_24_BA_TEST_DE", MARKER, 1);
    StudyOfUsualShape("tests/assets/::", "WS23_24_BA_TEST_DE", "");
  }

  // ---------------------------------------------------------------------------
  // Tables
  // ---------------------------------------------------------------------------

  /** One DataFrame column: its header and its cells as text. */
  datatype Column = Column(name: string, cells: seq<string>)

  /** A DataFrame, as its columns from left to right. */
  type Table = seq<Column>

  /** `df.iloc[:, 1:]`: every column but the leading one, in their order. */
  function DropFirstColumn(t: Table): (r: Table)
    ensures |r| == if |t| == 0 then 0 else |t| - 1
    ensures forall j :: 0 <= j < |r| ==> r[j] == t[j + 1]
  {
    if |t| == 0 then [] else t[1..]
  }

  /** Column `j` is the leftmost one with its header. */
  predicate IsFirst(t: Table, j: int)
    requires 0 <= j < |t|
  {
    forall i :: 0 <= i < j ==> t[i].name != t[j].name
  }

  predicate HasColumn(t: Table, name: string) {
    exists j :: 0 <= j < |t| && t[j].name == name
  }

  /** The leftmost column at or after `from` with the given header. */
  function ColumnIndexFrom(t: Table, name: string, from: nat): (r: Option<nat>)
    decreases |t| - from
    ensures r.Some? ==> from <= r.value < |t| && t[r.value].name == name
    ensures r.Some? ==> forall i :: from <= i < r.value ==> t[i].name != name
    ensures r.None? ==> forall i :: from <= i < |t| ==> t[i].name != name
  {
    if from >= |t| then None
    else if t[from].name == name then Some(from)
    else ColumnIndexFrom(t, name, from + 1)
  }

  /** `df[name]`: the column with that header, or none (pandas then raises
      `KeyError`). */
  function ColumnIndex(t: Table, name: string): (r: Option<nat>)
    ensures r.Some? <==> HasColumn(t, name)
    ensures r.Some? ==> r.value < |t| && t[r.value].name == name && IsFirst(t, r.value)
  {
    ColumnIndexFrom(t, name, 0)
  }

  /** `.str.replace(',', '.')` on every cell of a column: each cell keeps its
      length and loses its commas. */
  function ToDotDecimal(cells: seq<string>): (r: seq<string>)
    ensures |r| == |cells|
    ensures forall k :: 0 <= k < |cells| ==> |r[k]| == |cells[k]| && ',' !in r[k]
  {
    CommasReplaced(cells);
    seq(|cells|, k requires 0 <= k < |cells| => ReplaceAll(cells[k], ",", "."))
  }

  /** Replacing `,` by `.` in each cell keeps its length and leaves no comma. */
  lemma CommasReplaced(cells: seq<string>)
    ensures forall k :: 0 <= k < |cells| ==>
              |ReplaceAll(cells[k], ",", ".")| == |cells[k]| && ',' !in ReplaceAll(cells[k], ",", ".")
  {
    forall k | 0 <= k < |cells|
      ensures |ReplaceAll(cells[k], ",", ".")| == |cells[k]| && ',' !in ReplaceAll(cells[k], ",", ".")
    {
      ReplaceChar(cells[k], ',', '.');
    }
  }

  /** Every rewritten cell has the length of the original, a `.` where it had
      a `,`, the same character everywhere else, and so no comma at all. */
  lemma DotDecimalSpec(cells: seq<string>, k: int)
    requires 0 <= k < |cells|
    ensures |ToDotDecimal(cells)[k]| == |cells[k]|
    ensures forall i :: 0 <= i < |cells[k]| ==>
              ToDotDecimal(cells)[k][i] == (if cells[k][i] == ',' then '.' else cells[k][i])
    ensures ',' !in ToDotDecimal(cells)[k]
  {
    ReplaceChar(cells[k], ',', '.');
  }

  /** `.astype(float)` succeeds on every cell; the parse itself is the caller's
      `isFloat`. */
  predicate Parses(cells: seq<string>, isFloat: string -> bool) {
    forall k :: 0 <= k < |cells| ==> isFloat(cells[k])
  }

  /** The column exists and all its cells parse once rewritten. */
  predicate ColumnOk(t: Table, name: string, isFloat: string -> bool) {
    match ColumnIndex(t, name)
    case None => false
    case Some(i) => Parses(ToDotDecimal(t[i].cells), isFloat)
  }

  /** The column rewritten in place, `df[name] = df[name].str.replace(',', '.').astype(float)`:
      `KeyError` when the header is missing, `ValueError` when a cell does
      not parse; otherwise only that column changes. */
  function NormaliseColumn(t: Table, name: string, isFloat: string -> bool): (r: Result<Table>)
    ensures r.Ok? <==> ColumnOk(t, name, isFloat)
    ensures r.Err? ==> r.error == (if HasColumn(t, name) then ValueError else KeyError)
    ensures r.Ok? ==> |r.value| == |t|
    ensures r.Ok? ==> forall j :: 0 <= j < |t| ==>
              r.value[j] == (if t[j].name == name && IsFirst(t, j)
                             then Column(name, ToDotDecimal(t[j].cells)) else t[j])
  {
    match ColumnIndex(t, name)
    case None => Err(KeyError)
    case Some(i) =>
      var cells := ToDotDecimal(t[i].cells);
      if Parses(cells, isFloat) then Ok(t[i := Column(name, cells)]) else Err(ValueError)
  }

  /** The table after normalisation, and the exception that stopped it, if any. */
  datatype Normalised = Normalised(table: Table, error: Option<Error>)

  /** `_preprocess_df`: the named columns rewritten one after the other; the
      first failure stops the rest, and the columns already rewritten stay so. */
  function Preprocess(t: Table, names: seq<string>, isFloat: string -> bool): (r: Normalised)
    decreases |names|
    ensures SameHeaders(t, r.table)
  {
    if |names| == 0 then Normalised(t, None)
    else
      match NormaliseColumn(t, names[0], isFloat)
      case Err(e) => Normalised(t, Some(e))
      case Ok(t1) => Preprocess(t1, names[1..], isFloat)
  }

  /** The reference result, column by column: the leftmost column of each
      header in `names` rewritten to dot decimals, every other column as it was. */
  function Rewritten(t: Table, names: seq<string>): (r: Table)
    ensures |r| == |t|
  {
    seq(|t|, j requires 0 <= j < |t| =>
      if t[j].name in names && IsFirst(t, j) then Column(t[j].name, ToDotDecimal(t[j].cells)) else t[j])
  }

  predicate Distinct(names: seq<string>) {
    forall a, b :: 0 <= a < b < |names| ==> names[a] != names[b]
  }

  /** `names[k]` is the first of `names` whose column is missing or does not parse. */
  predicate FirstFailure(t: Table, names: seq<string>, isFloat: string -> bool, k: int) {
    && 0 <= k < |names|
    && !ColumnOk(t, names[k], isFloat)
    && forall l :: 0 <= l < k ==> ColumnOk(t, names[l], isFloat)
  }

  /** Two tables with the same headers in the same order. */
  predicate SameHeaders(t: Table, u: Table) {
    |t| == |u| && forall j :: 0 <= j < |t| ==> t[j].name == u[j].name
  }

  /** Column lookup only looks at the headers. */
  lemma ColumnIndexByHeaders(t: Table, u: Table, name: string)
    requires SameHeaders(t, u)
    ensures ColumnIndex(t, name) == ColumnIndex(u, name)
  {
    if ColumnIndex(t, name).Some? {
      assert HasColumn(u, name);
    }
    if ColumnIndex(u, name).Some? {
      assert HasColumn(t, name);
    }
  }

  /** Rewriting one column leaves the verdict on every other header unchanged. */
  lemma ColumnOkAfterStep(t: Table, n0: string, t1: Table, n: string, isFloat: string -> bool)
    requires NormaliseColumn(t, n0, isFloat) == Ok(t1) && n != n0
    ensures ColumnOk(t1, n, isFloat) == ColumnOk(t, n, isFloat)
    ensures HasColumn(t1, n) == HasColumn(t, n)
  {
    assert SameHeaders(t, t1);
    ColumnIndexByHeaders(t, t1, n);
    if HasColumn(t1, n) {
      var j :| 0 <= j < |t1| && t1[j].name == n;
      assert t[j].name == n;
    }
    if HasColumn(t, n) {
      var j :| 0 <= j < |t| && t[j].name == n;
      assert t1[j].name == n;
    }
  }

  /** Rewriting `n0` first and then `ns` is the reference result for `[n0] + ns`. */
  lemma RewrittenAfterStep(t: Table, n0: string, t1: Table, ns: seq<string>, isFloat: string -> bool)
    requires NormaliseColumn(t, n0, isFloat) == Ok(t1) && n0 !in ns
    ensures Rewritten(t1, ns) == Rewritten(t, [n0] + ns)
  {
    assert SameHeaders(t, t1);
    forall j | 0 <= j < |t|
      ensures Rewritten(t1, ns)[j] == Rewritten(t, [n0] + ns)[j]
    {
      assert IsFirst(t1, j) == IsFirst(t, j);
    }
  }

  /** Nothing to rewrite leaves the table as it is. */
  lemma RewrittenNothing(t: Table)
    ensures Rewritten(t, []) == t
  {
  }

  /** `_preprocess_df` keeps the headers and their order, and leaves every
      column whose header is not named untouched. */
  lemma {:induction false} PreprocessKeepsOthers(t: Table, names: seq<string>, isFloat: string -> bool)
    decreases |names|
    ensures SameHeaders(t, Preprocess(t, names, isFloat).table)
    ensures forall j :: 0 <= j < |t| && t[j].name !in names ==>
              Preprocess(t, names, isFloat).table[j] == t[j]
  {
    if |names| > 0 {
      match NormaliseColumn(t, names[0], isFloat)
      case Err(e) =>
      case Ok(t1) =>
        PreprocessKeepsOthers(t1, names[1..], isFloat);
        forall j | 0 <= j < |t| && t[j].name !in names
          ensures t[j].name !in names[1..] && t[j].name != names[0]
        {
          assert forall x :: x in names[1..] ==> x in names;
        }
    }
  }

  /** For distinct headers, `_preprocess_df` raises nothing exactly when
      every named column exists and all its cells parse once rewritten. */
  lemma {:induction false} PreprocessSucceeds(t: Table, names: seq<string>, isFloat: string -> bool)
    requires Distinct(names)
    decreases |names|
    ensures Preprocess(t, names, isFloat).error.None? <==>
              forall k :: 0 <= k < |names| ==> ColumnOk(t, names[k], isFloat)
  {
    if |names| > 0 {
      var n0, rest := names[0], names[1..];
      match NormaliseColumn(t, n0, isFloat)
      case Err(e) =>
      case Ok(t1) =>
        assert Distinct(rest);
        PreprocessSucceeds(t1, rest, isFloat);
        forall k | 0 <= k < |rest|
          ensures ColumnOk(t1, rest[k], isFloat) == ColumnOk(t, names[k + 1], isFloat)
        {
          ColumnOkAfterStep(t, n0, t1, rest[k], isFloat);
        }
        if forall k :: 0 <= k < |names| ==> ColumnOk(t, names[k], isFloat) {
          assert forall k :: 0 <= k < |rest| ==> ColumnOk(t1, rest[k], isFloat);
        }
    }
  }

  /** For distinct headers, a normalisation that raises nothing gives the
      reference result. */
  lemma {:induction false} PreprocessResult(t: Table, names: seq<string>, isFloat: string -> bool)
    requires Distinct(names)
    requires Preprocess(t, names, isFloat).error.None?
    decreases |names|
    ensures Preprocess(t, names, isFloat).table == Rewritten(t, names)
  {
    if |names| == 0 {
      RewrittenNothing(t);
    } else {
      var n0, rest := names[0], names[1..];
      assert names == [n0] + rest;
      match NormaliseColumn(t, n0, isFloat)
      case Ok(t1) =>
        assert Distinct(rest);
        PreprocessResult(t1, rest, isFloat);
        RewrittenAfterStep(t, n0, t1, rest, isFloat);
    }
  }

  /** For distinct headers, a normalisation that raises stops at the first
      failing name: `KeyError` when its column is missing, `ValueError` when a
      cell does not parse; the columns named before it are already rewritten,
      so the table it leaves behind is partly normalised. */
  lemma {:induction false} PreprocessFailure(t: Table, names: seq<string>, isFloat: string -> bool)
    requires Distinct(names)
    requires Preprocess(t, names, isFloat).error.Some?
    decreases |names|
    ensures exists k :: && FirstFailure(t, names, isFloat, k)
                        && Preprocess(t, names, isFloat).error.value
                           == (if HasColumn(t, names[k]) then ValueError else KeyError)
                        && Preprocess(t, names, isFloat).table == Rewritten(t, names[..k])
  {
    var r := Preprocess(t, names, isFloat);
    var n0, rest := names[0], names[1..];
    match NormaliseColumn(t, n0, isFloat)
    case Err(e) =>
      RewrittenNothing(t);
      assert names[..0] == [];
      assert FirstFailure(t, names, isFloat, 0);
    case Ok(t1) =>
      assert names == [n0] + rest;
      assert Distinct(rest);
      assert n0 !in rest;
      PreprocessFailure(t1, rest, isFloat);
      var k :| && FirstFailure(t1, rest, isFloat, k)
               && r.error.value == (if HasColumn(t1, rest[k]) then ValueError else KeyError)
               && r.table == Rewritten(t1, rest[..k]);
      FirstFailureAfterStep(t, n0, t1, rest, isFloat, k);
  }

  /** A failure at `k` after rewriting `n0` is a failure at `k + 1` before it,
      with the same verdict on the column and the same partial result. */
  lemma FirstFailureAfterStep(t: Table, n0: string, t1: Table, rest: seq<string>, isFloat: string -> bool, k: int)
    requires NormaliseColumn(t, n0, isFloat) == Ok(t1) && n0 !in rest
    requires FirstFailure(t1, rest, isFloat, k)
    ensures FirstFailure(t, [n0] + rest, isFloat, k + 1)
    ensures HasColumn(t1, rest[k]) == HasColumn(t, ([n0] + rest)[k + 1])
    ensures Rewritten(t1, rest[..k]) == Rewritten(t, ([n0] + rest)[..k + 1])
  {
    var names := [n0] + rest;
    forall l | 0 <= l <= k
      ensures ColumnOk(t1, rest[l], isFloat) == ColumnOk(t, names[l + 1], isFloat)
      ensures HasColumn(t1, rest[l]) == HasColumn(t, names[l + 1])
    {
      ColumnOkAfterStep(t, n0, t1, rest[l], isFloat);
    }
    assert n0 !in rest[..k];
    RewrittenAfterStep(t, n0, t1, rest[..k], isFloat);
    assert [n0] + rest[..k] == names[..k + 1];
  }

  // ---------------------------------------------------------------------------
  // The loader
  // ---------------------------------------------------------------------------

  /** A `DataLoader` object: the trimmed URL, the identifier (`study`) and the
      table (`df`), the last two `None` until set. */
  datatype Loader = Loader(url: string, study: Option<string>, df: Option<Table>)

  /** The loader after `load_data`, and the exception it raised, if any. */
  datatype Loaded = Loaded(loader: Loader, error: Option<Error>)

  /** What every constructed loader satisfies: its URL is already trimmed and
      its identifier is the one derived from that URL. */
  predicate Valid(d: Loader) {
    && Strip(d.url) == d.url
    && d.study.Some?
    && StudyOf(d.url) == Ok(d.study.value)
  }

  /** `DataLoader(url)`: trims the URL and derives the identifier at once, so
      a URL without the marker makes construction fail with `IndexError`; no
      table is stored yet. */
  function New(url: string): (r: Result<Loader>)
    ensures r.Err? <==> !Contains(Strip(url), MARKER)
    ensures r.Err? ==> r.error == IndexError
    ensures r.Ok? ==> r.value.url == Strip(url) && r.value.df.None? && Valid(r.value)
  {
    var u := Strip(url);
    StripIdempotent(url);
    match StudyOf(u)
    case Err(e) => Err(e)
    case Ok(study) => Ok(Loader(u, Some(study), None))
  }

  /** `get_study()`: the identifier derived at construction, never `None` for
      a constructed loader; it holds neither `.pdf` nor the marker and is a
      piece of the stored URL. */
  function GetStudy(d: Loader): (r: Option<string>)
    ensures Valid(d) ==> r.Some? && StudyOf(d.url) == Ok(r.value)
    ensures Valid(d) ==> !Contains(r.value, SUFFIX) && !Contains(r.value, MARKER)
    ensures Valid(d) ==> Contains(d.url, r.value)
  {
    if Valid(d) then StudyOfClean(d.url); d.study else d.study
  }

  /** `get_df()`: `ValueError` while no table is stored, the stored table otherwise. */
  function GetDf(d: Loader): (r: Result<Table>)
    ensures r.Err? <==> d.df.None?
    ensures r.Err? ==> r.error == ValueError
    ensures r.Ok? ==> r.value == d.df.value
  {
    match d.df
    case None => Err(ValueError)
    case Some(t) => Ok(t)
  }

  /** `load_data()`, given the tables the PDF extractor returned (in page
      order) and the float parser: no table raises `IndexError` and changes
      nothing; otherwise the first table minus its leading column is stored
      before it is normalised, so a `KeyError` or `ValueError` from the
      normalisation leaves that (partly rewritten) table stored. The URL and
      the identifier never change. */
  function LoadData(d: Loader, extracted: seq<Table>, isFloat: string -> bool): (r: Loaded)
    ensures r.loader.url == d.url && r.loader.study == d.study
    ensures Valid(d) ==> Valid(r.loader)
    ensures |extracted| == 0 ==> r.loader == d && r.error == Some(IndexError)
    ensures |extracted| > 0 ==> r.loader.df.Some? && GetDf(r.loader).Ok?
    ensures |extracted| > 0 ==> SameHeaders(r.loader.df.value, DropFirstColumn(extracted[0]))
  {
    if |extracted| == 0 then Loaded(d, Some(IndexError))
    else
      var t := DropFirstColumn(extracted[0]);
      PreprocessKeepsOthers(t, NUMERIC_COLUMNS, isFloat);
      var n := Preprocess(t, NUMERIC_COLUMNS, isFloat);
      Loaded(d.(df := Some(n.table)), n.error)
  }

  /** The three numeric headers are distinct. */
  lemma NumericColumnsDistinct()
    ensures Distinct(NUMERIC_COLUMNS)
  {
    var n := NUMERIC_COLUMNS;
    assert n[0][0] == 'N' && n[1][0] == 'P' && n[2][0] == 'K';
  }

  /** `load_data()` stores exactly what `_preprocess_df` makes of the first
      extracted table minus its leading column, and raises what it raises. */
  lemma LoadDataStores(d: Loader, extracted: seq<Table>, isFloat: string -> bool)
    requires |extracted| > 0
    ensures var n := Preprocess(DropFirstColumn(extracted[0]), NUMERIC_COLUMNS, isFloat);
            LoadData(d, extracted, isFloat) == Loaded(d.(df := Some(n.table)), n.error)
  {
  }

  /** `_preprocess_df` in full, for distinct headers. */
  lemma PreprocessSpec(t: Table, names: seq<string>, isFloat: string -> bool)
    requires Distinct(names)
    ensures var r := Preprocess(t, names, isFloat);
            && SameHeaders(t, r.table)
            && (forall j :: 0 <= j < |t| && t[j].name !in names ==> r.table[j] == t[j])
            && (r.error.None? <==> forall k :: 0 <= k < |names| ==> ColumnOk(t, names[k], isFloat))
            && (r.error.None? ==> r.table == Rewritten(t, names))
            && (r.error.Some? ==> r.error.value == KeyError || r.error.value == ValueError)
  {
    PreprocessKeepsOthers(t, names, isFloat);
    PreprocessSucceeds(t, names, isFloat);
    if Preprocess(t, names, isFloat).error.None? {
      PreprocessResult(t, names, isFloat);
    } else {
      PreprocessFailure(t, names, isFloat);
    }
  }

  /** `load_data()` in full: the stored table has the first extracted table's
      columns after the leading one, in order; `Anzahl` and every other column
      not named `Note`, `Prozent` or `Kumuliert` is kept as extracted; the load
      raises nothing exactly when those three columns exist and parse, and
      then each of them is rewritten with every `,` turned into `.`;
      otherwise it raises `KeyError` or `ValueError`. */
  lemma LoadDataSpec(d: Loader, extracted: seq<Table>, isFloat: string -> bool)
    requires |extracted| > 0
    ensures var df := LoadData(d, extracted, isFloat).loader.df.value;
            && |df| == (if |extracted[0]| == 0 then 0 else |extracted[0]| - 1)
            && (forall j :: 0 <= j < |df| ==> df[j].name == extracted[0][j + 1].name)
            && (forall j :: 0 <= j < |df| && df[j].name !in NUMERIC_COLUMNS ==> df[j] == extracted[0][j + 1])
    ensures var t := DropFirstColumn(extracted[0]);
            var r := LoadData(d, extracted, isFloat);
            && (r.error.None? <==> forall k :: 0 <= k < |NUMERIC_COLUMNS| ==> ColumnOk(t, NUMERIC_COLUMNS[k], isFloat))
            && (r.error.None? ==> r.loader.df.value == Rewritten(t, NUMERIC_COLUMNS))
            && (r.error.Some? ==> r.error.value == KeyError || r.error.value == ValueError)
  {
    var t := DropFirstColumn(extracted[0]);
    var n := Preprocess(t, NUMERIC_COLUMNS, isFloat);
    NumericColumnsDistinct();
    LoadDataStores(d, extracted, isFloat);
    PreprocessSpec(t, NUMERIC_COLUMNS, isFloat);
    assert LoadData(d, extracted, isFloat).loader.df.value == n.table;
  }

  /** A failed load names the first of `Note`, `Prozent`, `Kumuliert` whose
      column is missing (`KeyError`) or does not parse (`ValueError`), and
      leaves the table stored with the columns before it already rewritten. */
  lemma LoadDataFailure(d: Loader, extracted: seq<Table>, isFloat: string -> bool)
    requires |extracted| > 0 && LoadData(d, extracted, isFloat).error.Some?
    ensures var t := DropFirstColumn(extracted[0]);
            var r := LoadData(d, extracted, isFloat);
            exists k :: && FirstFailure(t, NUMERIC_COLUMNS, isFloat, k)
                        && r.error.value == (if HasColumn(t, NUMERIC_COLUMNS[k]) then ValueError else KeyError)
                        && r.loader.df == Some(Rewritten(t, NUMERIC_COLUMNS[..k]))
  {
    var t := DropFirstColumn(extracted[0]);
    NumericColumnsDistinct();
    LoadDataStores(d, extracted, isFloat);
    PreprocessFailure(t, NUMERIC_COLUMNS, isFloat);
  }

  /** A first table without a `Note` column makes the load raise `KeyError`. */
  lemma LoadDataWithoutNote(d: Loader, extracted: seq<Table>, isFloat: string -> bool)
    requires |extracted| > 0 && !HasColumn(DropFirstColumn(extracted[0]), "Note")
    ensures LoadData(d, extracted, isFloat).error == Some(KeyError)
  {
    var t := DropFirstColumn(extracted[0]);
    NumericColumnsDistinct();
    LoadDataStores(d, extracted, isFloat);
    assert NUMERIC_COLUMNS[0] == "Note";
    assert NormaliseColumn(t, "Note", isFloat) == Err(KeyError);
  }

  /** A successful load turns every `,` of the three numeric columns into `.`
      and leaves no comma there. */
  lemma LoadedNumbersUseDots(d: Loader, extracted: seq<Table>, isFloat: string -> bool, j: int, k: int)
    requires |extracted| > 0 && LoadData(d, extracted, isFloat).error.None?
    requires 0 <= j < |extracted[0]| - 1
    requires extracted[0][j + 1].name in NUMERIC_COLUMNS && IsFirst(DropFirstColumn(extracted[0]), j)
    requires 0 <= k < |extracted[0][j + 1].cells|
    ensures var df := LoadData(d, extracted, isFloat).loader.df;
            && df.Some? && j < |df.value| && k < |df.value[j].cells|
            && |df.value[j].cells[k]| == |extracted[0][j + 1].cells[k]|
            && ',' !in df.value[j].cells[k]
  {
    var t := DropFirstColumn(extracted[0]);
    NumericColumnsDistinct();
    LoadDataStores(d, extracted, isFloat);
    PreprocessResult(t, NUMERIC_COLUMNS, isFloat);
    assert t[j] == extracted[0][j + 1];
    RewrittenUsesDots(t, NUMERIC_COLUMNS, j, k);
  }

  /** In the reference result a rewritten cell keeps its length and holds no comma. */
  lemma RewrittenUsesDots(t: Table, names: seq<string>, j: int, k: int)
    requires 0 <= j < |t| && t[j].name in names && IsFirst(t, j)
    requires 0 <= k < |t[j].cells|
    ensures |Rewritten(t, names)[j].cells| == |t[j].cells|
    ensures |Rewritten(t, names)[j].cells[k]| == |t[j].cells[k]|
    ensures ',' !in Rewritten(t, names)[j].cells[k]
  {
    assert Rewritten(t, names)[j].cells == ToDotDecimal(t[j].cells);
    DotDecimalSpec(t[j].cells, k);
  }

  /** Before any load `get_df()` raises `ValueError`. */
  lemma NoTableBeforeLoad(url: string)
    ensures New(url).Ok? ==> GetDf(New(url).value) == Err(ValueError)
  {
  }

  /** Constructing the loader of the test fixture: the URL is kept as it is
      and the identifier is `WS23_24_BA_TEST_DE`. */
  lemma FixtureNew(url: string)
    requires url == "tests/assets/::ECTS_Tab_WS23_24_BA_TEST_DE.pdf"
    ensures New(url) == Ok(Loader(url, Some("WS23_24_BA_TEST_DE"), None))
  {
    assert url == "tests/" + "assets/::ECTS_Tab_" + "WS23_24_BA_TEST_DE" + ".pdf";
    assert url[0] == 't' && url[|url| - 1] == 'f';
    assert !IsSpace('t') && !IsSpace('f');
    StripUnchanged(url);
    FixtureStudy(url);
  }

  /** Normalising a table shaped like the fixture's: the three numeric
      columns parse once their commas become dots, so nothing is raised,
      and `Anzahl` is kept. */
  lemma FixtureTable(t: Table, isFloat: string -> bool)
    requires t == [Column("Note", ["1,0"]), Column("Anzahl", ["3"]),
                   Column("Prozent", ["0,65"]), Column("Kumuliert", ["0,65"])]
    requires isFloat("1.0") && isFloat("0.65")
    ensures Preprocess(t, NUMERIC_COLUMNS, isFloat)
            == Normalised([Column("Note", ["1.0"]), Column("Anzahl", ["3"]),
                           Column("Prozent", ["0.65"]), Column("Kumuliert", ["0.65"])], None)
  {
    FixtureHeaders(t);
    FixtureCells(t);
    NormaliseFourColumns(t, isFloat);
  }

  /** The fixture's headers: the numeric ones at 0, 2 and 3, `Anzahl` at 1. */
  lemma FixtureHeaders(t: Table)
    requires t == [Column("Note", ["1,0"]), Column("Anzahl", ["3"]),
                   Column("Prozent", ["0,65"]), Column("Kumuliert", ["0,65"])]
    ensures |t| == 4
    ensures t[0].name == NUMERIC_COLUMNS[0] && t[2].name == NUMERIC_COLUMNS[1]
    ensures t[3].name == NUMERIC_COLUMNS[2] && t[1].name !in NUMERIC_COLUMNS
  {
    var n := NUMERIC_COLUMNS;
    assert t[1].name[0] == 'A' && n[0][0] == 'N' && n[1][0] == 'P' && n[2][0] == 'K';
  }

  /** The fixture's numeric cells with dots instead of commas. */
  lemma FixtureCells(t: Table)
    requires t == [Column("Note", ["1,0"]), Column("Anzahl", ["3"]),
                   Column("Prozent", ["0,65"]), Column("Kumuliert", ["0,65"])]
    ensures ToDotDecimal(t[0].cells) == ["1.0"]
    ensures ToDotDecimal(t[2].cells) == ["0.65"] && ToDotDecimal(t[3].cells) == ["0.65"]
  {
    assert "1,0" == "1" + "," + "0" && "1.0" == "1" + "." + "0";
    assert "0,65" == "0" + "," + "65" && "0.65" == "0" + "." + "65";
    DotDecimalCell("1", "0");
    DotDecimalCell("0", "65");
  }

  /** A four-column table with `Note`, another header, `Prozent` and
      `Kumuliert` whose numeric cells parse once rewritten: normalisation
      raises nothing and rewrites exactly the three numeric columns. */
  lemma NormaliseFourColumns(t: Table, isFloat: string -> bool)
    requires |t| == 4
    requires t[0].name == NUMERIC_COLUMNS[0] && t[2].name == NUMERIC_COLUMNS[1]
    requires t[3].name == NUMERIC_COLUMNS[2] && t[1].name !in NUMERIC_COLUMNS
    requires Parses(ToDotDecimal(t[0].cells), isFloat) && Parses(ToDotDecimal(t[2].cells), isFloat)
    requires Parses(ToDotDecimal(t[3].cells), isFloat)
    ensures Preprocess(t, NUMERIC_COLUMNS, isFloat)
            == Normalised([Column(t[0].name, ToDotDecimal(t[0].cells)), t[1],
                           Column(t[2].name, ToDotDecimal(t[2].cells)),
                           Column(t[3].name, ToDotDecimal(t[3].cells))], None)
  {
    var n := NUMERIC_COLUMNS;
    FourColumnsOk(t, isFloat);
    NumericColumnsDistinct();
    PreprocessSpec(t, n, isFloat);
    FourColumnsRewritten(t);
  }

  /** The three numeric columns of such a table exist and parse. */
  lemma FourColumnsOk(t: Table, isFloat: string -> bool)
    requires |t| == 4
    requires t[0].name == NUMERIC_COLUMNS[0] && t[2].name == NUMERIC_COLUMNS[1]
    requires t[3].name == NUMERIC_COLUMNS[2] && t[1].name !in NUMERIC_COLUMNS
    requires Parses(ToDotDecimal(t[0].cells), isFloat) && Parses(ToDotDecimal(t[2].cells), isFloat)
    requires Parses(ToDotDecimal(t[3].cells), isFloat)
    ensures forall k :: 0 <= k < |NUMERIC_COLUMNS| ==> ColumnOk(t, NUMERIC_COLUMNS[k], isFloat)
  {
    NumericColumnsDistinct();
    ColumnIndexAt(t, 0);
    ColumnIndexAt(t, 2);
    ColumnIndexAt(t, 3);
  }

  /** The reference rewrite of such a table touches the three numeric columns only. */
  lemma FourColumnsRewritten(t: Table)
    requires |t| == 4
    requires t[0].name == NUMERIC_COLUMNS[0] && t[2].name == NUMERIC_COLUMNS[1]
    requires t[3].name == NUMERIC_COLUMNS[2] && t[1].name !in NUMERIC_COLUMNS
    ensures Rewritten(t, NUMERIC_COLUMNS)
            == [Column(t[0].name, ToDotDecimal(t[0].cells)), t[1],
                Column(t[2].name, ToDotDecimal(t[2].cells)),
                Column(t[3].name, ToDotDecimal(t[3].cells))]
  {
    NumericColumnsDistinct();
    var r := Rewritten(t, NUMERIC_COLUMNS);
    assert IsFirst(t, 0) && IsFirst(t, 2) && IsFirst(t, 3);
    assert r[0] == Column(t[0].name, ToDotDecimal(t[0].cells));
    assert r[1] == t[1];
    assert r[2] == Column(t[2].name, ToDotDecimal(t[2].cells));
    assert r[3] == Column(t[3].name, ToDotDecimal(t[3].cells));
  }

  /** Looking up the header of the leftmost column with it finds that column. */
  lemma ColumnIndexAt(t: Table, j: int)
    requires 0 <= j < |t| && IsFirst(t, j)
    ensures ColumnIndex(t, t[j].name) == Some(j)
  {
    assert HasColumn(t, t[j].name);
    var v := ColumnIndex(t, t[j].name).value;
    assert IsFirst(t, v);
  }

  /** The loader's test: the fixture URL gives the identifier
      `WS23_24_BA_TEST_DE`, and an extracted table with an index column and
      comma decimals is stored without the index column and with dots. */
  lemma FixtureLoad(url: string, extracted: seq<Table>, isFloat: string -> bool)
    requires url == "tests/assets/::ECTS_Tab_WS23_24_BA_TEST_DE.pdf"
    requires extracted == [[Column("", ["0"]), Column("Note", ["1,0"]), Column("Anzahl", ["3"]),
                            Column("Prozent", ["0,65"]), Column("Kumuliert", ["0,65"])]]
    requires isFloat("1.0") && isFloat("0.65")
    ensures New(url).Ok?
    ensures GetStudy(LoadData(New(url).value, extracted, isFloat).loader) == Some("WS23_24_BA_TEST_DE")
    ensures LoadData(New(url).value, extracted, isFloat).error.None?
    ensures GetDf(LoadData(New(url).value, extracted, isFloat).loader)
            == Ok([Column("Note", ["1.0"]), Column("Anzahl", ["3"]),
                   Column("Prozent", ["0.65"]), Column("Kumuliert", ["0.65"])])
  {
    FixtureNew(url);
    var d := New(url).value;
    var t := DropFirstColumn(extracted[0]);
    assert t == extracted[0][1..];
    FixtureTable(t, isFloat);
    LoadDataStores(d, extracted, isFloat);
  }

  /** A one-cell column holding `a,b`, with no other comma, becomes `a.b`. */
  lemma DotDecimalCell(a: string, b: string)
    requires ',' !in a && ',' !in b
    ensures ToDotDecimal([a + "," + b]) == [a + "." + b]
  {
    var c := a + "," + b;
    ReplaceChar(c, ',', '.');
    assert ReplaceAll(c, ",", ".") == a + "." + b;
  }
}
