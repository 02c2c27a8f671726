/**
 * Row extraction: a database cursor (the IRows interface) and
 * ExtraDatasFromRows, which reads the column names once, then scans every
 * row into a reused buffer of slots and copies it into a fresh map from
 * column name to value.
 */
module Rows {
  import opened Wrappers
  import opened GoTypes

  /** One extracted row: column name to the value scanned for it. */
  type Row = map<string, GoValue>

  /** Every value of the row is one a cursor can hand out. */
  predicate RowOk(row: Row) {
    forall c :: c in row ==> RawOk(row[c])
  }

  /**
   * The map built from one scanned row: each column name is bound to its
   * slot, in column order, so a later duplicate name overwrites an earlier
   * one. (A cursor fills one slot per column; a column without a slot would
   * be left unbound.)
   */
  function RowMap(cols: seq<string>, vals: seq<GoValue>): (m: Row)
    ensures forall c :: c in m ==> c in cols
    decreases |cols|
  {
    if cols == [] then map[]
    else
      var n := |cols| - 1;
      var m := RowMap(cols[..n], vals);
      if n < |vals| then m[cols[n] := vals[n]] else m
  }

  /** The map has one key per column name, and no other. */
  lemma {:induction false} RowMapKeys(cols: seq<string>, vals: seq<GoValue>)
    requires |cols| <= |vals|
    ensures forall c :: c in RowMap(cols, vals) <==> c in cols
    decreases |cols|
  {
    if cols != [] {
      var n := |cols| - 1;
      RowMapKeys(cols[..n], vals);
      assert cols == cols[..n] + [cols[n]];
    }
  }

  /** A column name is bound to the slot of its last occurrence. */
  lemma {:induction false} RowMapLastWins(cols: seq<string>, vals: seq<GoValue>, j: nat)
    requires |cols| <= |vals| && j < |cols|
    requires forall k :: j < k < |cols| ==> cols[k] != cols[j]
    ensures cols[j] in RowMap(cols, vals) && RowMap(cols, vals)[cols[j]] == vals[j]
    decreases |cols|
  {
    var n := |cols| - 1;
    if j < n {
      RowMapLastWins(cols[..n], vals, j);
    }
  }

  /** Every value in the map is the slot of a column bearing its key. */
  lemma {:induction false} RowMapValues(cols: seq<string>, vals: seq<GoValue>)
    ensures forall c :: c in RowMap(cols, vals) ==>
      exists i :: 0 <= i < |cols| && i < |vals| && cols[i] == c && RowMap(cols, vals)[c] == vals[i]
    decreases |cols|
  {
    if cols != [] {
      var n := |cols| - 1;
      RowMapValues(cols[..n], vals);
      forall c | c in RowMap(cols, vals)
        ensures exists i :: 0 <= i < |cols| && i < |vals| && cols[i] == c && RowMap(cols, vals)[c] == vals[i]
      {
        if n < |vals| && c == cols[n] {
        } else {
          var i :| 0 <= i < n && i < |vals| && cols[..n][i] == c && RowMap(cols[..n], vals)[c] == vals[i];
          assert cols[i] == c;
        }
      }
    }
  }

  /** Values the cursor hands out stay acceptable to the converter once they are in the map. */
  lemma {:induction false} RowMapOk(cols: seq<string>, vals: seq<GoValue>)
    requires forall i :: 0 <= i < |vals| ==> RawOk(vals[i])
    ensures RowOk(RowMap(cols, vals))
    decreases |cols|
  {
    if cols != [] {
      var n := |cols| - 1;
      RowMapOk(cols[..n], vals);
    }
  }

  /**
   * The rows extracted from the scan results still to come: one map per row
   * in cursor order, or the first scan error.
   */
  function ExtractRows(cols: seq<string>, rows: seq<Result<seq<GoValue>, Error>>): (r: Result<seq<Row>, Error>)
    ensures r.Success? ==> |r.value| == |rows|
    ensures r.Failure? ==> exists i :: 0 <= i < |rows| && rows[i] == Failure(r.error)
    decreases |rows|
  {
    if rows == [] then Success([])
    else
      var n := |rows| - 1;
      match ExtractRows(cols, rows[..n])
      case Failure(e) => Failure(e)
      case Success(maps) =>
        match rows[n]
        case Failure(e) => Failure(e)
        case Success(vals) => Success(maps + [RowMap(cols, vals)])
  }

  /** ExtraDatasFromRows, as a function of what Columns returns and what the remaining rows scan to. */
  function Extraction(columns: Result<seq<string>, Error>, rows: seq<Result<seq<GoValue>, Error>>): (r: Result<seq<Row>, Error>)
    ensures columns.Failure? ==> r == Failure(columns.error)
    ensures r.Success? ==> columns.Success? && |r.value| == |rows|
    ensures columns.Success? && r.Failure? ==> exists i :: 0 <= i < |rows| && rows[i] == Failure(r.error)
    ensures columns.Success? && (forall i :: 0 <= i < |rows| ==> rows[i].Success?) ==> r.Success?
  {
    match columns
    case Failure(e) => Failure(e)
    case Success(cols) => ExtractRows(cols, rows)
  }

  /** When every row scans, there is one map per row, the i-th built from row i. */
  lemma {:induction false} ExtractAllRows(cols: seq<string>, rows: seq<Result<seq<GoValue>, Error>>)
    requires forall i :: 0 <= i < |rows| ==> rows[i].Success?
    ensures var r := ExtractRows(cols, rows);
      && r.Success? && |r.value| == |rows|
      && forall i :: 0 <= i < |rows| ==> r.value[i] == RowMap(cols, rows[i].value)
    decreases |rows|
  {
    if rows != [] {
      ExtractAllRows(cols, rows[..|rows| - 1]);
    }
  }

  /** The first row that fails to scan decides the error; nothing after it is looked at. */
  lemma {:induction false} ExtractFirstFailure(cols: seq<string>, rows: seq<Result<seq<GoValue>, Error>>, f: nat)
    requires f < |rows| && rows[f].Failure? && forall i :: 0 <= i < f ==> rows[i].Success?
    ensures ExtractRows(cols, rows) == Failure(rows[f].error)
    decreases |rows|
  {
    var n := |rows| - 1;
    if f < n {
      ExtractFirstFailure(cols, rows[..n], f);
    } else {
      ExtractAllRows(cols, rows[..n]);
    }
  }

  /** Once a prefix of the rows fails, so does every longer one, with the same error. */
  lemma {:induction false} ExtractPrefixFailure(cols: seq<string>, rows: seq<Result<seq<GoValue>, Error>>, k: nat)
    requires k <= |rows| && ExtractRows(cols, rows[..k]).Failure?
    ensures ExtractRows(cols, rows) == ExtractRows(cols, rows[..k])
    decreases |rows| - k
  {
    if k < |rows| {
      assert rows[..k + 1][..k] == rows[..k];
      ExtractPrefixFailure(cols, rows, k + 1);
    } else {
      assert rows[..k] == rows;
    }
  }

  /** Every extracted map holds only values the converter accepts. */
  lemma {:induction false} ExtractRowsOk(cols: seq<string>, rows: seq<Result<seq<GoValue>, Error>>)
    requires forall i :: 0 <= i < |rows| && rows[i].Success? ==>
      forall j :: 0 <= j < |rows[i].value| ==> RawOk(rows[i].value[j])
    ensures ExtractRows(cols, rows).Success? ==> forall i :: 0 <= i < |rows| ==> RowOk(ExtractRows(cols, rows).value[i])
    decreases |rows|
  {
    if rows != [] {
      var n := |rows| - 1;
      ExtractRowsOk(cols, rows[..n]);
      if rows[n].Success? {
        RowMapOk(cols, rows[n].value);
      }
    }
  }

  /** A driver hands out one value per column, each of a kind database/sql produces. */
  predicate Supplied(columns: Result<seq<string>, Error>, rows: seq<Result<seq<GoValue>, Error>>) {
    columns.Success? ==>
      forall i :: 0 <= i < |rows| && rows[i].Success? ==>
        |rows[i].value| == |columns.value| && forall j :: 0 <= j < |rows[i].value| ==> RawOk(rows[i].value[j])
  }

  /**
   * A cursor over a query result: the outcome of Columns, the outcome of
   * Scan for each row Next moves to, and how many rows Next has moved over.
   */
  class Cursor {
    const columns: Result<seq<string>, Error>
    const rows: seq<Result<seq<GoValue>, Error>>
    var pos: nat

    ghost predicate Valid()
      reads this
    {
      pos <= |rows| && Supplied(columns, rows)
    }

    constructor (columns: Result<seq<string>, Error>, rows: seq<Result<seq<GoValue>, Error>>)
      requires Supplied(columns, rows)
      ensures Valid() && this.columns == columns && this.rows == rows && pos == 0
    {
      this.columns := columns;
      this.rows := rows;
      pos := 0;
    }

    /** What ExtraDatasFromRows would extract from the rows still ahead. */
    ghost function Remaining(): (r: Result<seq<Row>, Error>)
      requires Valid()
      reads this
      ensures r.Success? ==> forall i :: 0 <= i < |r.value| ==> RowOk(r.value[i])
    {
      if columns.Success? then ExtractRowsOk(columns.value, rows[pos..]); Extraction(columns, rows[pos..])
      else Extraction(columns, rows[pos..])
    }

    /** IRows.Columns: the column names or the error; the position does not move. */
    method Columns() returns (r: Result<seq<string>, Error>)
      ensures r == columns
    {
      return columns;
    }

    /** IRows.Next: moves to the next row, reporting whether there was one. */
    method Next() returns (more: bool)
      requires Valid()
      modifies this
      ensures Valid()
      ensures more <==> old(pos) < |rows|
      ensures pos == if more then old(pos) + 1 else old(pos)
    {
      if pos < |rows| {
        pos := pos + 1;
        return true;
      }
      return false;
    }

    /** IRows.Scan: fills one slot per column from the current row, or reports the row's error. */
    method Scan(dest: array<GoValue>) returns (err: Option<Error>)
      requires Valid() && 0 < pos && columns.Success? && dest.Length == |columns.value|
      modifies dest
      ensures rows[pos - 1].Failure? ==> err == Some(rows[pos - 1].error) && dest[..] == old(dest[..])
      ensures rows[pos - 1].Success? ==> err == None && dest[..] == rows[pos - 1].value
    {
      match rows[pos - 1]
      case Failure(e) =>
        return Some(e);
      case Success(vals) =>
        forall k | 0 <= k < dest.Length {
          dest[k] := vals[k];
        }
        return None;
    }
  }

  /** Scanning one more row extends the extraction by that row's map, or ends it with the row's error. */
  lemma ExtractSnoc(cols: seq<string>, rows: seq<Result<seq<GoValue>, Error>>, last: Result<seq<GoValue>, Error>)
    requires ExtractRows(cols, rows).Success?
    ensures last.Failure? ==> ExtractRows(cols, rows + [last]) == Failure(last.error)
    ensures last.Success? ==>
      ExtractRows(cols, rows + [last]) == Success(ExtractRows(cols, rows).value + [RowMap(cols, last.value)])
  {
    assert (rows + [last])[..|rows|] == rows;
  }

  /** One more iteration of the extraction loop, at row p of the cursor's rows. */
  lemma ExtractStep(cols: seq<string>, rows: seq<Result<seq<GoValue>, Error>>, start: nat, p: nat)
    requires start <= p < |rows| && ExtractRows(cols, rows[start..p]).Success?
    ensures rows[p].Failure? ==> ExtractRows(cols, rows[start..]) == Failure(rows[p].error)
    ensures rows[p].Success? ==>
      ExtractRows(cols, rows[start..p + 1]) == Success(ExtractRows(cols, rows[start..p]).value + [RowMap(cols, rows[p].value)])
  {
    var before := rows[start..p];
    var after := rows[start..p + 1];
    assert after == before + [rows[p]];
    ExtractSnoc(cols, before, rows[p]);
    if rows[p].Failure? {
      ExtractPrefixFailure(cols, rows[start..], p + 1 - start);
      assert rows[start..][..p + 1 - start] == after;
    }
  }

  /** The inner loop of ExtraDatasFromRows: the slots copied into a fresh map, column by column. */
  method CopyRow(cols: seq<string>, values: array<GoValue>) returns (mp: Row)
    requires values.Length == |cols|
    ensures mp == RowMap(cols, values[..])
  {
    mp := map[];
    var idx := 0;
    while idx < |cols|
      invariant 0 <= idx <= |cols|
      invariant mp == RowMap(cols[..idx], values[..])
    {
      assert cols[..idx + 1][..idx] == cols[..idx];
      mp := mp[cols[idx] := values[idx]];
      idx := idx + 1;
    }
    assert cols[..idx] == cols;
  }

  /**
   * ExtraDatasFromRows: the rows still ahead of the cursor, one map each,
   * or the error of Columns or of the first failing Scan. On success the
   * cursor is exhausted.
   */
  method ExtraDatasFromRows(cursor: Cursor) returns (res: Result<seq<Row>, Error>)
    requires cursor.Valid()
    modifies cursor
    ensures cursor.Valid()
    ensures res == old(cursor.Remaining())
    ensures res.Success? ==> cursor.pos == |cursor.rows|
  {
    var columns := cursor.Columns();
    if columns.Failure? {
      return Failure(columns.error);
    }
    var cols := columns.value;
    var values := new GoValue[|cols|](_ => Nil);
    var result: seq<Row> := [];
    ghost var start := cursor.pos;
    while true
      invariant cursor.Valid() && start <= cursor.pos <= |cursor.rows|
      invariant ExtractRows(cols, cursor.rows[start..cursor.pos]) == Success(result)
      decreases |cursor.rows| - cursor.pos
    {
      ghost var p := cursor.pos;
      var more := cursor.Next();
      if !more {
        break;
      }
      var err := cursor.Scan(values);
      ExtractStep(cols, cursor.rows, start, p);
      if err.Some? {
        return Failure(err.value);
      }
      var mp := CopyRow(cols, values);
      result := result + [mp];
    }
    assert cursor.rows[start..cursor.pos] == cursor.rows[start..];
    return Success(result);
  }
}
