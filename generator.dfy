/**
 * `load_adj_pool`: read the word list with commas and keep the adjectives
 * (part of speech `i_adj` or `na_adj`), renumbering the kept rows.
 */
module Generator {
  import opened Wrappers
  import opened Frames

  /** The two adjective kinds the pool keeps. */
  const ADJ_KINDS: set<string> := {"i_adj", "na_adj"}

  /** Why `load_adj_pool` fails. */
  datatype PoolError =
    | ReadFailed(cause: ReadError) // the word list could not be read
    | ColumnError(name: string)    // `df[name]` does not name exactly one column

  /** The row at position `i` is an adjective of one of the two kinds. */
  predicate IsAdjective(t: Table, i: nat)
    requires WellFormed(t) && HasColumn(t.columns, "pos") && i < |t.rows|
  {
    Field(t, i, "pos").Text? && Field(t, i, "pos").value in ADJ_KINDS
  }

  /** `df[df["pos"].isin(["i_adj", "na_adj"])].reset_index(drop=True)` */
  function AdjPool(t: Table): (pool: Table)
    requires WellFormed(t) && HasColumn(t.columns, "pos")
    ensures pool.columns == t.columns && WellFormed(pool) && Renumbered(pool)
    ensures |pool.rows| <= |t.rows|
  {
    WhereWellFormed(t, IsIn(t, "pos", ADJ_KINDS));
    ResetIndex(Table(t.columns, Where(t.rows, IsIn(t, "pos", ADJ_KINDS))))
  }

  /** `load_adj_pool(path)` on the text of the file. */
  function LoadAdjPool(source: string): (r: Result<Table, PoolError>)
    ensures ReadTable(source, ',').Failure? ==> r == Failure(ReadFailed(ReadTable(source, ',').error))
    ensures ReadTable(source, ',').Success? && !HasColumn(ReadTable(source, ',').value.columns, "pos") ==>
      r == Failure(ColumnError("pos"))
    ensures r.Success? <==> ReadTable(source, ',').Success? && HasColumn(ReadTable(source, ',').value.columns, "pos")
    ensures r.Success? ==> r.value == AdjPool(ReadTable(source, ',').value)
    ensures r.Success? ==> r.value.columns == ReadTable(source, ',').value.columns
  {
    match ReadTable(source, ',')
    case Failure(e) => Failure(ReadFailed(e))
    case Success(t) =>
      if HasColumn(t.columns, "pos") then Success(AdjPool(t)) else Failure(ColumnError("pos"))
  }

  /**
   * The pool keeps the columns, and its rows are exactly the adjective rows
   * of the table, in their original order, with their fields unchanged.
   */
  lemma AdjPoolSelects(t: Table) returns (idx: seq<nat>)
    requires WellFormed(t) && HasColumn(t.columns, "pos")
    ensures AdjPool(t).columns == t.columns
    ensures Increasing(idx, |t.rows|) && |idx| == |AdjPool(t).rows|
    ensures forall k :: 0 <= k < |idx| ==> AdjPool(t).rows[k].cells == t.rows[idx[k]].cells
    ensures forall i :: 0 <= i < |t.rows| ==> (i in idx <==> IsAdjective(t, i))
  {
    idx := WhereSelects(t.rows, IsIn(t, "pos", ADJ_KINDS));
  }

  /** Every row of the pool is an `i_adj` or a `na_adj`. */
  lemma AdjPoolKinds(t: Table)
    requires WellFormed(t) && HasColumn(t.columns, "pos")
    ensures WellFormed(AdjPool(t))
    ensures forall k :: 0 <= k < |AdjPool(t).rows| ==>
      Field(AdjPool(t), k, "pos") == Text("i_adj") || Field(AdjPool(t), k, "pos") == Text("na_adj")
  {
    var idx := AdjPoolSelects(t);
    forall k | 0 <= k < |AdjPool(t).rows|
      ensures |AdjPool(t).rows[k].cells| == |AdjPool(t).columns|
      ensures Field(AdjPool(t), k, "pos") == Text("i_adj") || Field(AdjPool(t), k, "pos") == Text("na_adj")
    {
      assert idx[k] in idx;
      assert IsAdjective(t, idx[k]);
    }
  }

  /** Every adjective row of the table appears in the pool. */
  lemma AdjPoolComplete(t: Table)
    requires WellFormed(t) && HasColumn(t.columns, "pos")
    ensures forall i :: 0 <= i < |t.rows| && IsAdjective(t, i) ==>
      exists k :: 0 <= k < |AdjPool(t).rows| && AdjPool(t).rows[k].cells == t.rows[i].cells
  {
    var idx := AdjPoolSelects(t);
    forall i | 0 <= i < |t.rows| && IsAdjective(t, i)
      ensures exists k :: 0 <= k < |AdjPool(t).rows| && AdjPool(t).rows[k].cells == t.rows[i].cells
    {
      var k :| 0 <= k < |idx| && idx[k] == i;
      assert AdjPool(t).rows[k].cells == t.rows[i].cells;
    }
  }

  /** The pool is never longer than the table, and is as long exactly when every row is an adjective. */
  lemma AdjPoolLength(t: Table)
    requires WellFormed(t) && HasColumn(t.columns, "pos")
    ensures |AdjPool(t).rows| <= |t.rows|
    ensures |AdjPool(t).rows| == |t.rows| <==> forall i :: 0 <= i < |t.rows| ==> IsAdjective(t, i)
  {
    var mask := IsIn(t, "pos", ADJ_KINDS);
    WhereLength(t.rows, mask);
    assert forall i :: 0 <= i < |t.rows| ==> (mask[i] <==> IsAdjective(t, i));
  }
}
