/**
 * The word-pool preparation of the N4 i-adjective quiz page: load the word
 * list (comma-separated, or tab-separated when the comma parse shows a single
 * tab-holding column), clean the header names, keep the N4 i-adjectives,
 * stop when fewer than ten remain, and otherwise draw ten of them.
 */
module App {
  import opened Wrappers
  import opened Strings
  import opened Frames

  const LEVEL: string := "N4"
  const POS: string := "i_adj"
  const N: nat := 10

  /** Why the page stops before showing questions. */
  datatype QuizError =
    | ReadFailed(cause: ReadError) // the word list could not be read
    | ColumnError(name: string)    // `df[name]` does not name exactly one column
    | TooFewWords(count: nat)      // the pool is smaller than N; `count` is its size

  // ---------------------------------------------------------------------
  // Choosing the separator
  // ---------------------------------------------------------------------

  /** The decision on the header of the comma parse: one column whose name holds a tab. */
  predicate NeedsTabs(columns: seq<string>)
    ensures NeedsTabs(columns) <==> |columns| == 1 && '\t' in Join(columns, ',')
  {
    |columns| == 1 && '\t' in columns[0]
  }

  /** The separator the loader ends up using, read off the header line itself. */
  function DetectedSeparator(headerLine: string): char
  {
    if ',' !in headerLine && '\t' in headerLine then '\t' else ','
  }

  /**
   * The fallback decision in terms of the header line: the comma parse is
   * re-done with tabs exactly when the header line has no comma and has a tab.
   */
  lemma NeedsTabsOnHeader(headerLine: string)
    ensures NeedsTabs(Split(headerLine, ',')) <==> DetectedSeparator(headerLine) == '\t'
  {
    SplitSingle(headerLine, ',');
  }

  // ---------------------------------------------------------------------
  // Cleaning the header
  // ---------------------------------------------------------------------

  /** One header name: every U+FEFF removed, then surrounding whitespace stripped. */
  function CleanName(name: string): (clean: string)
    ensures BOM !in clean
    ensures clean == [] || (!IsSpace(clean[0]) && !IsSpace(clean[|clean| - 1]))
  {
    Strip(RemoveAll(name, BOM))
  }

  /** The cleaned header: one cleaned name per column, in the same order. */
  function NormalizeHeader(columns: seq<string>): (names: seq<string>)
    ensures |names| == |columns|
    ensures forall i :: 0 <= i < |columns| ==> names[i] == CleanName(columns[i])
  {
    seq(|columns|, i requires 0 <= i < |columns| => CleanName(columns[i]))
  }

  /** A name is clean when it holds no U+FEFF and neither starts nor ends with whitespace. */
  predicate IsClean(name: string)
  {
    BOM !in name && (name == [] || (!IsSpace(name[0]) && !IsSpace(name[|name| - 1])))
  }

  /**
   * What cleaning one name does: the result is clean, and it is a contiguous
   * piece of the name with its marks removed, cut only at whitespace.
   */
  lemma CleanNameSpec(name: string) returns (i: nat, j: nat)
    ensures IsClean(CleanName(name))
    ensures i <= j <= |RemoveAll(name, BOM)| && CleanName(name) == RemoveAll(name, BOM)[i..j]
    ensures forall k :: 0 <= k < i || j <= k < |RemoveAll(name, BOM)| ==> IsSpace(RemoveAll(name, BOM)[k])
  {
    var s := RemoveAll(name, BOM);
    i, j := StripSpec(s);
    assert forall c :: c in s[i..j] ==> c in s;
  }

  /** A clean name is left as it is. */
  lemma CleanNameFixed(name: string)
    requires IsClean(name)
    ensures CleanName(name) == name
  {
    RemoveAbsent(name, BOM);
    assert TrimStart(name) == name;
  }

  /** After normalisation no column name holds U+FEFF or has surrounding whitespace. */
  lemma NormalizedNamesClean(columns: seq<string>)
    ensures forall i :: 0 <= i < |columns| ==> IsClean(NormalizeHeader(columns)[i])
  {
    forall i | 0 <= i < |columns| ensures IsClean(NormalizeHeader(columns)[i]) {
      var _, _ := CleanNameSpec(columns[i]);
    }
  }

  /** Normalising an already normalised header changes nothing. */
  lemma NormalizeIdempotent(columns: seq<string>)
    ensures NormalizeHeader(NormalizeHeader(columns)) == NormalizeHeader(columns)
  {
    var once := NormalizeHeader(columns);
    forall i | 0 <= i < |columns| ensures CleanName(once[i]) == once[i] {
      var _, _ := CleanNameSpec(columns[i]);
      CleanNameFixed(once[i]);
    }
  }

  // ---------------------------------------------------------------------
  // Loading the word list
  // ---------------------------------------------------------------------

  /** The table the loading steps produce, or the reader's error. */
  function LoadTable(source: string): (r: Result<Table, ReadError>)
    ensures r.Success? ==> WellFormed(r.value) && Renumbered(r.value)
  {
    match ReadTable(source, ',')
    case Failure(e) => Failure(e)
    case Success(comma) =>
      var chosen := if NeedsTabs(comma.columns) then ReadTable(source, '\t') else Success(comma);
      match chosen
      case Failure(e) => Failure(e)
      case Success(t) => Success(Table(NormalizeHeader(t.columns), t.rows))
  }

  /**
   * The loaded table is the parse with the detected separator, with its
   * header cleaned; loading fails exactly when the comma parse fails, or the
   * separator is a tab and the tab parse fails.
   */
  lemma LoadUsesDetectedSeparator(source: string)
    ensures LoadTable(source).Failure? <==>
      ReadTable(source, ',').Failure? ||
      (DetectedSeparator(HeaderLine(source)) == '\t' && ReadTable(source, '\t').Failure?)
    ensures LoadTable(source).Success? ==>
      var sep := DetectedSeparator(HeaderLine(source));
      && ReadTable(source, sep).Success?
      && LoadTable(source).value.columns == NormalizeHeader(Split(HeaderLine(source), sep))
      && LoadTable(source).value.rows == ReadTable(source, sep).value.rows
  {
    if HasHeader(source) {
      NeedsTabsOnHeader(HeaderLine(source));
    }
  }

  /** Every column name of a loaded table is clean, and its width is that of the chosen parse. */
  lemma LoadedHeaderClean(source: string)
    requires LoadTable(source).Success?
    ensures forall i :: 0 <= i < |LoadTable(source).value.columns| ==> IsClean(LoadTable(source).value.columns[i])
  {
    var comma := ReadTable(source, ',').value;
    var t := if NeedsTabs(comma.columns) then ReadTable(source, '\t').value else comma;
    NormalizedNamesClean(t.columns);
  }

  /**
   * A header of two or more names joined by tabs, none holding a comma, is
   * detected as tab-separated: the loaded table has one column per name,
   * each name cleaned.
   */
  lemma TabHeaderDetected(source: string, names: seq<string>)
    requires HasHeader(source) && HeaderLine(source) == Join(names, '\t')
    requires |names| >= 2
    requires forall k :: 0 <= k < |names| ==> ',' !in names[k] && '\t' !in names[k]
    requires LoadTable(source).Success?
    ensures LoadTable(source).value.columns == NormalizeHeader(names)
  {
    var header := HeaderLine(source);
    JoinChars(names, '\t');
    assert '\t' in header && ',' !in header;
    LoadUsesDetectedSeparator(source);
    SplitJoin(names, '\t');
  }

  /**
   * Lines 23-35: read with commas, re-read with tabs when the header asks for
   * it, then overwrite the header with its cleaned names.
   */
  method LoadFrame(source: string) returns (r: Result<DataFrame, ReadError>)
    ensures r.Success? ==> fresh(r.value) && r.value.Valid() && LoadTable(source) == Success(r.value.Value())
    ensures r.Failure? ==> LoadTable(source) == Failure(r.error)
  {
    var comma := ReadTable(source, ',');
    if comma.Failure? {
      return Failure(comma.error);
    }
    var df := new DataFrame(comma.value);
    if |df.columns| == 1 && '\t' in df.columns[0] {
      var tabs := ReadTable(source, '\t');
      if tabs.Failure? {
        return Failure(tabs.error);
      }
      df := new DataFrame(tabs.value);
    }
    df.SetColumns(NormalizeHeader(df.columns));
    r := Success(df);
  }

  // ---------------------------------------------------------------------
  // The pool and the draw
  // ---------------------------------------------------------------------

  /** `df["level"]` and `df["pos"]` each name exactly one column. */
  predicate HasQuizColumns(t: Table)
  {
    HasColumn(t.columns, "level") && HasColumn(t.columns, "pos")
  }

  /** `df[(df["level"] == LEVEL) & (df["pos"] == POS)].copy()`, as a new value. */
  function Pool(t: Table): (pool: Table)
    requires WellFormed(t) && HasQuizColumns(t)
    ensures pool.columns == t.columns && WellFormed(pool) && |pool.rows| <= |t.rows|
  {
    WhereWellFormed(t, And(Eq(t, "level", LEVEL), Eq(t, "pos", POS)));
    Table(t.columns, Where(t.rows, And(Eq(t, "level", LEVEL), Eq(t, "pos", POS))))
  }

  /** The words a quiz may draw from: level N4 and part of speech i_adj. */
  predicate IsQuizWord(t: Table, i: nat)
    requires WellFormed(t) && HasQuizColumns(t) && i < |t.rows|
  {
    Field(t, i, "level") == Text(LEVEL) && Field(t, i, "pos") == Text(POS)
  }

  /**
   * The pool keeps the columns and holds exactly the rows of the table that
   * are quiz words, each unchanged (label and fields), in their original order.
   */
  lemma PoolSelects(t: Table) returns (idx: seq<nat>)
    requires WellFormed(t) && HasQuizColumns(t)
    ensures Pool(t).columns == t.columns && WellFormed(Pool(t))
    ensures Increasing(idx, |t.rows|) && |idx| == |Pool(t).rows|
    ensures forall k :: 0 <= k < |idx| ==> Pool(t).rows[k] == t.rows[idx[k]]
    ensures forall i :: 0 <= i < |t.rows| ==> (i in idx <==> IsQuizWord(t, i))
  {
    var mask := And(Eq(t, "level", LEVEL), Eq(t, "pos", POS));
    idx := WhereSelects(t.rows, mask);
  }

  /** The ten questions: `N` distinct pool rows in the order drawn, relabelled 0..N-1. */
  predicate DrawnFrom(questions: Table, pool: Table, picks: seq<nat>)
  {
    && IsDraw(picks, |pool.rows|, N)
    && questions.columns == pool.columns
    && |questions.rows| == N
    && Renumbered(questions)
    && forall k :: 0 <= k < N ==> questions.rows[k].cells == pool.rows[picks[k]].cells
  }

  /**
   * Lines 50-57: stop with the pool size when fewer than `N` words remain;
   * otherwise `pool.sample(n=N).reset_index(drop=True)`.
   */
  method DrawQuestions(pool: Table) returns (r: Result<Table, QuizError>, picks: seq<nat>)
    ensures r.Failure? <==> |pool.rows| < N
    ensures r.Failure? ==> r.error == TooFewWords(|pool.rows|) && picks == []
    ensures r.Success? ==> DrawnFrom(r.value, pool, picks)
  {
    if |pool.rows| < N {
      return Failure(TooFewWords(|pool.rows|)), [];
    }
    var drawn;
    drawn, picks := Sample(pool, N);
    r := Success(ResetIndex(drawn));
  }

  /**
   * The whole preparation, from the text of the word list to the ten
   * questions or the reason the page stops.
   */
  method Run(source: string) returns (r: Result<Table, QuizError>, picks: seq<nat>)
    ensures r.Failure? ==> picks == []
    ensures LoadTable(source).Failure? ==> r == Failure(ReadFailed(LoadTable(source).error))
    ensures LoadTable(source).Success? && !HasColumn(LoadTable(source).value.columns, "level") ==>
      r == Failure(ColumnError("level"))
    ensures (LoadTable(source).Success? && HasColumn(LoadTable(source).value.columns, "level") &&
             !HasColumn(LoadTable(source).value.columns, "pos")) ==> r == Failure(ColumnError("pos"))
    ensures LoadTable(source).Success? && HasQuizColumns(LoadTable(source).value) ==>
      var pool := Pool(LoadTable(source).value);
      && (r.Failure? <==> |pool.rows| < N)
      && (r.Failure? ==> r.error == TooFewWords(|pool.rows|))
      && (r.Success? ==> DrawnFrom(r.value, pool, picks))
  {
    var loaded := LoadFrame(source);
    if loaded.Failure? {
      return Failure(ReadFailed(loaded.error)), [];
    }
    var df := loaded.value;
    if !HasColumn(df.columns, "level") {
      return Failure(ColumnError("level")), [];
    }
    if !HasColumn(df.columns, "pos") {
      return Failure(ColumnError("pos")), [];
    }
    var pool := Pool(df.Value());
    r, picks := DrawQuestions(pool);
  }
}
