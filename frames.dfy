/**
 * The part of a pandas DataFrame that the word-list code relies on: reading
 * a delimited text file into a header and labelled rows, looking a column up
 * by name, boolean masks built from one column, selecting rows with a mask,
 * renumbering the row labels, and drawing rows without replacement.
 */
module Frames {
  import opened Wrappers
  import opened Strings

  /** One field of a row; an empty field is read as a missing value (NaN). */
  datatype Cell = Missing | Text(value: string)

  /** A row: its index label and its fields, one per column. */
  datatype Row = Row(index: int, cells: seq<Cell>)

  /** A table: the column names (the header) and the rows in order. */
  datatype Table = Table(columns: seq<string>, rows: seq<Row>)

  /** Why `read_csv` gives up. */
  datatype ReadError =
    | NoColumns                             // no non-blank line at all
    | TooManyFields(expected: nat, saw: nat) // a data line with more fields than the header

  /** Every row has exactly one field per column. */
  predicate WellFormed(t: Table)
  {
    forall k :: 0 <= k < |t.rows| ==> |t.rows[k].cells| == |t.columns|
  }

  /** The labels are 0, 1, ..., in row order (a fresh RangeIndex). */
  predicate Renumbered(t: Table)
  {
    forall k :: 0 <= k < |t.rows| ==> t.rows[k].index == k
  }

  // ---------------------------------------------------------------------
  // read_csv, with a plain split on one separator character
  // ---------------------------------------------------------------------

  /** The lines that are not empty, in order (blank lines are skipped). */
  function NonBlank(lines: seq<string>): (r: seq<string>)
    ensures forall k :: 0 <= k < |r| ==> r[k] != ""
    ensures forall x :: x in r <==> x in lines && x != ""
  {
    if lines == [] then []
    else if lines[0] == "" then NonBlank(lines[1..])
    else [lines[0]] + NonBlank(lines[1..])
  }

  /** The mask of the non-empty lines. */
  function NonEmptyMask(lines: seq<string>): (mask: seq<bool>)
    ensures |mask| == |lines|
  {
    seq(|lines|, i requires 0 <= i < |lines| => lines[i] != "")
  }

  /** Skipping blank lines is selecting the lines with a non-empty mask. */
  lemma {:induction false} NonBlankIsWhere(lines: seq<string>)
    ensures NonBlank(lines) == Where(lines, NonEmptyMask(lines))
  {
    if lines != [] {
      NonBlankIsWhere(lines[1..]);
      assert NonEmptyMask(lines)[1..] == NonEmptyMask(lines[1..]);
    }
  }

  /**
   * What `NonBlank` keeps: there are strictly increasing positions `idx`
   * such that the result is exactly the lines at those positions, and those
   * positions are exactly the ones holding a non-empty line.
   */
  lemma NonBlankSelects(lines: seq<string>) returns (idx: seq<nat>)
    ensures Increasing(idx, |lines|) && |idx| == |NonBlank(lines)|
    ensures forall k :: 0 <= k < |idx| ==> NonBlank(lines)[k] == lines[idx[k]]
    ensures forall i :: 0 <= i < |lines| ==> (lines[i] != "" <==> i in idx)
  {
    NonBlankIsWhere(lines);
    idx := WhereSelects(lines, NonEmptyMask(lines));
  }

  /** The text the reader sees: one byte-order mark at the very start of the file is skipped. */
  function WithoutLeadingMark(source: string): (r: string)
    ensures |source| > 0 && source[0] == BOM ==> [BOM] + r == source
    ensures (|source| == 0 || source[0] != BOM) ==> r == source
  {
    if |source| > 0 && source[0] == BOM then source[1..] else source
  }

  /** The non-blank lines of a source text. */
  function Lines(source: string): seq<string>
  {
    NonBlank(Split(WithoutLeadingMark(source), '\n'))
  }

  /** A file with a leading byte-order mark reads as the same file without it. */
  lemma LeadingMarkIgnored(source: string)
    requires |source| == 0 || source[0] != BOM
    ensures Lines([BOM] + source) == Lines(source)
  {
    assert ([BOM] + source)[1..] == source;
  }

  /** The source has a header line. */
  predicate HasHeader(source: string)
  {
    Lines(source) != []
  }

  /** The header line: the first non-blank line. */
  function HeaderLine(source: string): string
    requires HasHeader(source)
  {
    Lines(source)[0]
  }

  /** How one field of text is read. */
  function ToCell(field: string): Cell
  {
    if field == "" then Missing else Text(field)
  }

  /** A data line under a header of `width` columns: short lines are padded with missing values. */
  function ParseRow(line: string, sep: char, width: nat, index: int): (r: Result<Row, ReadError>)
    ensures r.Failure? <==> |Split(line, sep)| > width
    ensures r.Failure? ==> r.error == TooManyFields(width, |Split(line, sep)|)
    ensures r.Success? ==> r.value.index == index && |r.value.cells| == width
  {
    var fields := Split(line, sep);
    if |fields| > width then Failure(TooManyFields(width, |fields|))
    else
      Success(Row(index, seq(width, j requires 0 <= j < width =>
        if j < |fields| then ToCell(fields[j]) else Missing)))
  }

  /**
   * A line made by joining separator-free fields is read back field by field:
   * each non-empty field as its text, each empty one as missing, and the
   * columns beyond the last field as missing.
   */
  lemma ParseRowJoin(fields: seq<string>, sep: char, width: nat, index: int)
    requires 1 <= |fields| <= width
    requires forall k :: 0 <= k < |fields| ==> sep !in fields[k]
    ensures ParseRow(Join(fields, sep), sep, width, index).Success?
    ensures var row := ParseRow(Join(fields, sep), sep, width, index).value;
      && row.index == index
      && (forall j :: 0 <= j < |fields| ==> row.cells[j] == (if fields[j] == "" then Missing else Text(fields[j])))
      && (forall j :: |fields| <= j < width ==> row.cells[j] == Missing)
  {
    SplitJoin(fields, sep);
  }

  /** The data lines in order, labelled from `first`; the first line that is too long is the error. */
  function ParseRows(lines: seq<string>, sep: char, width: nat, first: int): (r: Result<seq<Row>, ReadError>)
    ensures r.Failure? <==> exists k :: 0 <= k < |lines| && |Split(lines[k], sep)| > width
    ensures r.Success? ==> |r.value| == |lines|
    ensures r.Success? ==> forall k :: 0 <= k < |lines| ==>
      Success(r.value[k]) == ParseRow(lines[k], sep, width, first + k)
  {
    if lines == [] then Success([])
    else
      var head := ParseRow(lines[0], sep, width, first);
      var tail := ParseRows(lines[1..], sep, width, first + 1);
      assert forall k :: 1 <= k < |lines| ==> lines[k] == lines[1..][k - 1];
      if head.Failure? then Failure(head.error)
      else if tail.Failure? then
        assert exists k :: 0 <= k < |lines| && |Split(lines[k], sep)| > width by {
          var k :| 0 <= k < |lines[1..]| && |Split(lines[1..][k], sep)| > width;
          assert lines[1..][k] == lines[k + 1];
        }
        Failure(tail.error)
      else
        assert forall k :: 0 <= k < |lines| ==> |Split(lines[k], sep)| <= width;
        Success([head.value] + tail.value)
  }

  /**
   * `pd.read_csv(path, sep=sep)` on the text of the file: the first non-blank
   * line split on `sep` is the header, every later non-blank line is a row,
   * and the rows are labelled 0, 1, ... .
   */
  function ReadTable(source: string, sep: char): (r: Result<Table, ReadError>)
    ensures r.Failure? <==>
      !HasHeader(source) ||
      exists k :: 1 <= k < |Lines(source)| && |Split(Lines(source)[k], sep)| > |Split(HeaderLine(source), sep)|
    ensures r.Success? ==> WellFormed(r.value) && Renumbered(r.value)
    ensures r.Success? ==> r.value.columns == Split(HeaderLine(source), sep)
    ensures r.Success? ==> |r.value.rows| == |Lines(source)| - 1
    ensures r.Success? ==> forall k :: 0 <= k < |r.value.rows| ==>
      Success(r.value.rows[k]) == ParseRow(Lines(source)[k + 1], sep, |r.value.columns|, k)
  {
    var lines := Lines(source);
    if lines == [] then Failure(NoColumns)
    else
      var header := Split(lines[0], sep);
      var parsed := ParseRows(lines[1..], sep, |header|, 0);
      assert parsed.Failure? <==>
        exists k :: 1 <= k < |lines| && |Split(lines[k], sep)| > |header| by {
        if parsed.Failure? {
          var k :| 0 <= k < |lines[1..]| && |Split(lines[1..][k], sep)| > |header|;
          assert lines[1..][k] == lines[k + 1];
        }
        forall k | 1 <= k < |lines| && |Split(lines[k], sep)| > |header|
          ensures parsed.Failure?
        {
          assert lines[1..][k - 1] == lines[k];
        }
      }
      match parsed
      case Failure(e) => Failure(e)
      case Success(rows) =>
        assert forall k :: 0 <= k < |rows| ==> lines[1..][k] == lines[k + 1];
        Success(Table(header, rows))
  }

  // ---------------------------------------------------------------------
  // Column lookup and boolean masks
  // ---------------------------------------------------------------------

  /** `name` names exactly one column, so `df[name]` is a single column. */
  predicate HasColumn(columns: seq<string>, name: string)
  {
    name in columns &&
    forall i, j :: 0 <= i < j < |columns| && columns[i] == name ==> columns[j] != name
  }

  /** The position of the first column called `name`. */
  function ColumnIndex(columns: seq<string>, name: string): (i: nat)
    requires name in columns
    ensures i < |columns| && columns[i] == name && name !in columns[..i]
  {
    if columns[0] == name then 0
    else
      var i := ColumnIndex(columns[1..], name) + 1;
      assert columns[..i] == [columns[0]] + columns[1..][..i - 1];
      i
  }

  /** The field of row `k` in column `name`. */
  function Field(t: Table, k: nat, name: string): Cell
    requires WellFormed(t) && name in t.columns && k < |t.rows|
  {
    t.rows[k].cells[ColumnIndex(t.columns, name)]
  }

  /** `df[name] == value`: true where the field is that text (a missing value never matches). */
  function Eq(t: Table, name: string, value: string): (mask: seq<bool>)
    requires WellFormed(t) && HasColumn(t.columns, name)
    ensures |mask| == |t.rows|
    ensures forall k :: 0 <= k < |t.rows| ==>
      (mask[k] <==> Field(t, k, name).Text? && Field(t, k, name).value == value)
  {
    seq(|t.rows|, k requires 0 <= k < |t.rows| => Field(t, k, name) == Text(value))
  }

  /** `df[name].isin(values)`: true where the field is one of the texts. */
  function IsIn(t: Table, name: string, values: set<string>): (mask: seq<bool>)
    requires WellFormed(t) && HasColumn(t.columns, name)
    ensures |mask| == |t.rows|
    ensures forall k :: 0 <= k < |t.rows| ==>
      (mask[k] <==> Field(t, k, name).Text? && Field(t, k, name).value in values)
    ensures forall k :: 0 <= k < |t.rows| && Field(t, k, name) == Missing ==> !mask[k]
  {
    seq(|t.rows|, k requires 0 <= k < |t.rows| =>
      Field(t, k, name).Text? && Field(t, k, name).value in values)
  }

  /** Comparing with one text is testing membership in the set of that one text. */
  lemma EqIsIn(t: Table, name: string, value: string)
    requires WellFormed(t) && HasColumn(t.columns, name)
    ensures Eq(t, name, value) == IsIn(t, name, {value})
  {
  }

  /** `a & b`, element by element. */
  function And(a: seq<bool>, b: seq<bool>): (mask: seq<bool>)
    requires |a| == |b|
    ensures |mask| == |a|
    ensures forall k :: 0 <= k < |a| ==> (mask[k] <==> a[k] && b[k])
  {
    seq(|a|, k requires 0 <= k < |a| => a[k] && b[k])
  }

  // ---------------------------------------------------------------------
  // df[mask]: the rows where the mask is true
  // ---------------------------------------------------------------------

  /** Boolean indexing: the rows whose mask entry is true, in order, labels and fields untouched. */
  function Where<T>(rows: seq<T>, mask: seq<bool>): (r: seq<T>)
    requires |mask| == |rows|
    ensures |r| <= |rows|
    ensures forall x :: x in r ==> x in rows
  {
    if rows == [] then []
    else (if mask[0] then [rows[0]] else []) + Where(rows[1..], mask[1..])
  }

  /** Selecting rows of a well-formed table gives a well-formed table under the same header. */
  lemma WhereWellFormed(t: Table, mask: seq<bool>)
    requires WellFormed(t) && |mask| == |t.rows|
    ensures WellFormed(Table(t.columns, Where(t.rows, mask)))
  {
    var r := Where(t.rows, mask);
    forall k | 0 <= k < |r| ensures |r[k].cells| == |t.columns| {
      assert r[k] in t.rows;
      var j :| 0 <= j < |t.rows| && t.rows[j] == r[k];
    }
  }

  /** Positions `idx` strictly increase and stay below `n`. */
  predicate Increasing(idx: seq<nat>, n: nat)
  {
    (forall k :: 0 <= k < |idx| ==> idx[k] < n) &&
    (forall a, b :: 0 <= a < b < |idx| ==> idx[a] < idx[b])
  }

  /**
   * What boolean indexing selects: there are strictly increasing positions
   * `idx` such that the result is exactly the rows at those positions, and
   * those positions are exactly the ones where the mask is true.
   */
  lemma {:induction false} WhereSelects<T>(rows: seq<T>, mask: seq<bool>) returns (idx: seq<nat>)
    requires |mask| == |rows|
    ensures Increasing(idx, |rows|) && |idx| == |Where(rows, mask)|
    ensures forall k :: 0 <= k < |idx| ==> Where(rows, mask)[k] == rows[idx[k]]
    ensures forall i :: 0 <= i < |rows| ==> (mask[i] <==> i in idx)
  {
    if rows == [] {
      idx := [];
    } else {
      var tail := WhereSelects(rows[1..], mask[1..]);
      var shifted := Shift(tail, |rows| - 1);
      ghost var w := Where(rows, mask);
      ghost var wt := Where(rows[1..], mask[1..]);
      if mask[0] {
        idx := [0] + shifted;
        assert w == [rows[0]] + wt;
        assert Increasing(idx, |rows|);
        assert forall k :: 1 <= k < |idx| ==> w[k] == wt[k - 1] && idx[k] == shifted[k - 1];
        assert forall i :: 1 <= i < |rows| ==> (i in idx <==> i in shifted);
      } else {
        idx := shifted;
        assert w == wt;
      }
      assert forall i :: 1 <= i < |rows| ==> mask[i] == mask[1..][i - 1];
    }
  }

  /** Positions into `rows[1..]` moved to positions into `rows`. */
  lemma Shift(tail: seq<nat>, n: nat) returns (shifted: seq<nat>)
    requires Increasing(tail, n)
    ensures |shifted| == |tail| && Increasing(shifted, n + 1) && 0 !in shifted
    ensures forall k :: 0 <= k < |tail| ==> shifted[k] == tail[k] + 1
    ensures forall i :: 1 <= i <= n ==> (i in shifted <==> i - 1 in tail)
  {
    shifted := seq(|tail|, k requires 0 <= k < |tail| => tail[k] + 1);
    forall i | 1 <= i <= n
      ensures i in shifted <==> i - 1 in tail
    {
      if i - 1 in tail {
        var k :| 0 <= k < |tail| && tail[k] == i - 1;
        assert shifted[k] == i;
      }
    }
  }

  /** Selecting never adds rows, and keeps every row exactly when the mask is all true. */
  lemma {:induction false} WhereLength<T>(rows: seq<T>, mask: seq<bool>)
    requires |mask| == |rows|
    ensures |Where(rows, mask)| <= |rows|
    ensures |Where(rows, mask)| == |rows| <==> forall i :: 0 <= i < |mask| ==> mask[i]
  {
    if rows != [] {
      WhereLength(rows[1..], mask[1..]);
      if forall i :: 0 <= i < |mask| ==> mask[i] {
        assert forall i :: 0 <= i < |mask[1..]| ==> mask[1..][i];
      } else if mask[0] {
        var i :| 0 <= i < |mask| && !mask[i];
        assert !mask[1..][i - 1];
      }
    }
  }

  /** `reset_index(drop=True)`: the same columns and fields, labels renumbered 0, 1, ... . */
  function ResetIndex(t: Table): (r: Table)
    ensures Renumbered(r) && r.columns == t.columns && |r.rows| == |t.rows|
    ensures forall k :: 0 <= k < |t.rows| ==> r.rows[k].cells == t.rows[k].cells
    ensures WellFormed(t) ==> WellFormed(r)
  {
    Table(t.columns, seq(|t.rows|, k requires 0 <= k < |t.rows| => Row(k, t.rows[k].cells)))
  }

  /** Renumbering a table already labelled 0..n-1 changes nothing, so renumbering twice is renumbering once. */
  lemma ResetIndexFixed(t: Table)
    requires Renumbered(t)
    ensures ResetIndex(t) == t
  {
    assert forall k :: 0 <= k < |t.rows| ==> ResetIndex(t).rows[k] == t.rows[k];
  }

  // ---------------------------------------------------------------------
  // df.sample(n): n rows drawn without replacement
  // ---------------------------------------------------------------------

  /** `picks` are `n` distinct positions below `m`. */
  predicate IsDraw(picks: seq<nat>, m: nat, n: nat)
  {
    |picks| == n &&
    (forall k :: 0 <= k < n ==> picks[k] < m) &&
    (forall a, b :: 0 <= a < b < n ==> picks[a] != picks[b])
  }

  /** Fewer than `m` used positions below `m` leave a free one. */
  lemma {:induction false} FreePosition(used: set<nat>, m: nat) returns (i: nat)
    requires forall x :: x in used ==> x < m
    requires |used| < m
    ensures i < m && i !in used
  {
    if m - 1 !in used {
      i := m - 1;
    } else {
      i := FreePosition(used - {m - 1}, m - 1);
    }
  }

  /**
   * `df.sample(n=n)`: `n` rows drawn without replacement, in the order drawn,
   * keeping their labels and fields. Which rows are drawn is left open:
   * any choice of distinct positions is allowed.
   */
  method Sample(t: Table, n: nat) returns (s: Table, picks: seq<nat>)
    requires n <= |t.rows|
    ensures IsDraw(picks, |t.rows|, n)
    ensures s.columns == t.columns && |s.rows| == n
    ensures forall k :: 0 <= k < n ==> s.rows[k] == t.rows[picks[k]]
  {
    picks := [];
    ghost var used: set<nat> := {};
    while |picks| < n
      invariant IsDraw(picks, |t.rows|, |picks|) && |picks| <= n
      invariant forall x :: x in used <==> x in picks
      invariant |used| == |picks|
    {
      var _ := FreePosition(used, |t.rows|);
      var i :| 0 <= i < |t.rows| && i !in picks;
      picks := picks + [i];
      used := used + {i};
    }
    s := Table(t.columns, seq(n, k requires 0 <= k < n => t.rows[picks[k]]));
  }

  // ---------------------------------------------------------------------
  // A DataFrame whose header can be replaced in place
  // ---------------------------------------------------------------------

  class DataFrame {
    var columns: seq<string>
    var rows: seq<Row>

    /** The table this frame currently holds. */
    function Value(): Table
      reads this
    {
      Table(columns, rows)
    }

    ghost predicate Valid()
      reads this
    {
      WellFormed(Value())
    }

    constructor (t: Table)
      requires WellFormed(t)
      ensures Valid() && Value() == t
    {
      columns := t.columns;
      rows := t.rows;
    }

    /** `df.columns = names`: a new header of the same width; the rows are untouched. */
    method SetColumns(names: seq<string>)
      requires Valid() && |names| == |columns|
      modifies this
      ensures Valid()
      ensures columns == names && rows == old(rows)
    {
      columns := names;
    }
  }
}
