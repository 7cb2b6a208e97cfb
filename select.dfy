/** Projection and execution of a parsed SELECT statement over the store. */
module Select {
  import opened Results
  import opened Rows
  import opened Where
  import opened Lists

  /** The projection list: `*` or the requested column names, duplicates and
      order kept as written. */
  datatype Columns = Wildcard | Named(names: seq<string>)

  /** What the grammar hands to the executor: the projection list, the table
      name and the optional WHERE tree. */
  datatype SelectStatement = SelectStatement(columns: Columns, table: string, whereExpr: Option<Tree>)

  type Table = seq<Row>
  type Store = map<string, Table>

  /** The grammar's column list holds at least one name. */
  predicate ValidColumns(c: Columns) {
    c.Named? ==> |c.names| >= 1
  }

  predicate ValidWhere(w: Option<Tree>) {
    w.Some? ==> WellFormed(w.value)
  }

  /** Every row of every table is a dictionary: no column appears twice. */
  predicate ValidStore(db: Store) {
    forall t :: t in db ==> forall row :: row in db[t] ==> ValidRow(row)
  }

  predicate ValidStatement(s: SelectStatement) {
    ValidColumns(s.columns) && ValidWhere(s.whereExpr)
  }

  // ---------------------------------------------------------------------------
  // Projection

  /** The first requested column that the row lacks, if any. */
  function FirstMissing(row: Row, names: seq<string>): (r: Option<string>)
    ensures r.None? <==> forall k :: 0 <= k < |names| ==> names[k] in Keys(row)
    ensures r.Some? ==> exists k :: 0 <= k < |names| && names[k] == r.value && r.value !in Keys(row) &&
                                    forall j :: 0 <= j < k ==> names[j] in Keys(row)
  {
    if names == [] then None
    else if names[0] !in Keys(row) then Some(names[0])
    else
      var r := FirstMissing(row, names[1..]);
      assert r.Some? ==> exists k :: 0 <= k < |names| - 1 && names[1..][k] == r.value && r.value !in Keys(row) &&
                                    forall j :: 0 <= j < k ==> names[1..][j] in Keys(row);
      r
  }

  lemma {:induction false} FirstMissingConcat(row: Row, a: seq<string>, b: seq<string>)
    ensures FirstMissing(row, a + b) == if FirstMissing(row, a).Some? then FirstMissing(row, a) else FirstMissing(row, b)
  {
    if a != [] {
      assert (a + b)[1..] == a[1..] + b;
      FirstMissingConcat(row, a[1..], b);
    } else {
      assert a + b == b;
    }
  }

  /** The fields of `row` named by `ks`, in the order of `ks`. */
  function Pick(row: Row, ks: seq<string>): (r: Row)
    requires forall k :: k in ks ==> k in Keys(row)
    ensures Keys(r) == ks
    ensures forall i :: 0 <= i < |ks| ==> Lookup(row, ks[i]) == Some(r[i].1)
  {
    seq(|ks|, i requires 0 <= i < |ks| => (ks[i], Lookup(row, ks[i]).value))
  }

  /** `get_projection` as a value: the row itself for `*`; otherwise the
      requested columns, each once at its first position, with the row's
      values, or a failure naming the first requested column the row lacks. */
  function Projection(row: Row, columns: Columns): (r: Result<Row>)
    ensures r.Err? ==> && columns.Named? && r.error.MissingColumn?
                       && r.error.column in columns.names && r.error.column !in Keys(row)
    ensures r.Ok? && columns.Named? ==>
              && Keys(r.value) == Dedup(columns.names)
              && forall i :: 0 <= i < |r.value| ==> Lookup(row, r.value[i].0) == Some(r.value[i].1)
  {
    match columns
    case Wildcard => Ok(row)
    case Named(names) =>
      match FirstMissing(row, names)
      case Some(x) => Err(MissingColumn(x))
      case None => Ok(Pick(row, Dedup(names)))
  }

  /** `*` hands the row back unchanged: same keys, values and order. */
  lemma WildcardProjection(row: Row)
    ensures Projection(row, Wildcard) == Ok(row)
  {
  }

  /** An explicit projection succeeds exactly when the row has every requested
      column. Its keys are then the requested columns with duplicates collapsed
      to the first position, each mapped to the row's value for it. */
  lemma NamedProjection(row: Row, names: seq<string>)
    ensures Projection(row, Named(names)).Ok? <==> forall k :: 0 <= k < |names| ==> names[k] in Keys(row)
    ensures Projection(row, Named(names)).Ok? ==>
              var p := Projection(row, Named(names)).value;
              && Keys(p) == Dedup(names)
              && ValidRow(p)
              && forall i :: 0 <= i < |p| ==> Lookup(row, p[i].0) == Some(p[i].1)
  {
  }

  /** An explicit projection fails on the first requested column the row
      lacks, and names it. */
  lemma NamedProjectionFails(row: Row, names: seq<string>, k: nat)
    requires k < |names| && names[k] !in Keys(row)
    requires forall j :: 0 <= j < k ==> names[j] in Keys(row)
    ensures Projection(row, Named(names)) == Err(MissingColumn(names[k]))
  {
    var pre, post := names[..k], names[k..];
    assert names == pre + post;
    assert post[0] == names[k];
    assert FirstMissing(row, post) == Some(names[k]);
    assert forall j :: 0 <= j < |pre| ==> pre[j] in Keys(row);
    FirstMissingConcat(row, pre, post);
  }

  /** Assigning a column already in the partial projection changes nothing:
      its position is kept and its value is the row's value again. */
  lemma PickAssignPresent(row: Row, ks: seq<string>, k: string, v: Value)
    requires forall x :: x in ks ==> x in Keys(row)
    requires Lookup(row, k) == Some(v) && k in ks
    ensures Assign(Pick(row, ks), k, v) == Pick(row, ks)
  {
    var d := Pick(row, ks);
    var r := Assign(d, k, v);
    var p := IndexOf(ks, k);
    assert Keys(d) == ks;
    assert d[p].1 == v;
    assert d[p] == (k, v);
    assert |r| == |d|;
    forall i | 0 <= i < |d| ensures r[i] == d[i] {
    }
  }

  /** Picking one more column appends its field. */
  lemma PickSnoc(row: Row, ks: seq<string>, k: string)
    requires forall x :: x in ks ==> x in Keys(row)
    requires k in Keys(row)
    ensures Pick(row, ks + [k]) == Pick(row, ks) + [(k, Lookup(row, k).value)]
  {
    var ks' := ks + [k];
    assert forall i :: 0 <= i < |ks| ==> ks'[i] == ks[i];
  }

  /** Assigning a new column appends it with the row's value. */
  lemma PickAssignAbsent(row: Row, ks: seq<string>, k: string, v: Value)
    requires forall x :: x in ks ==> x in Keys(row)
    requires Lookup(row, k) == Some(v) && k !in ks
    ensures Assign(Pick(row, ks), k, v) == Pick(row, ks + [k])
  {
    assert Keys(Pick(row, ks)) == ks;
    PickSnoc(row, ks, k);
  }

  /** One turn of the projection loop: the next requested column is in the
      row, and assigning it extends the partial projection of the prefix to
      that of the longer prefix. */
  lemma ProjectionStep(row: Row, names: seq<string>, i: nat, v: Value)
    requires i < |names| && FirstMissing(row, names[..i]) == None
    requires Lookup(row, names[i]) == Some(v)
    ensures FirstMissing(row, names[..i + 1]) == None
    ensures forall x :: x in Dedup(names[..i]) ==> x in Keys(row)
    ensures forall x :: x in Dedup(names[..i + 1]) ==> x in Keys(row)
    ensures Assign(Pick(row, Dedup(names[..i])), names[i], v) == Pick(row, Dedup(names[..i + 1]))
  {
    var pre := names[..i];
    var column := names[i];
    assert names[..i + 1] == pre + [column];
    FirstMissingConcat(row, pre, [column]);
    assert forall x :: x in pre ==> x in Keys(row) by {
      forall x | x in pre ensures x in Keys(row) {
        var k :| 0 <= k < |pre| && pre[k] == x;
      }
    }
    assert names[..i + 1][..i] == pre;
    if column in Dedup(pre) {
      PickAssignPresent(row, Dedup(pre), column, v);
    } else {
      PickAssignAbsent(row, Dedup(pre), column, v);
    }
  }

  /** `get_projection`: `*` copies the row; otherwise an ordered mapping is
      filled by assigning `row[column]` for each requested column in turn. */
  method GetProjection(row: Row, columns: Columns) returns (r: Result<Row>)
    requires ValidColumns(columns)
    ensures r == Projection(row, columns)
  {
    if columns.Wildcard? {
      return Ok(row);
    }
    var names := columns.names;
    var result: Row := [];
    var i := 0;
    while i < |names|
      invariant 0 <= i <= |names|
      invariant FirstMissing(row, names[..i]) == None
      invariant forall x :: x in Dedup(names[..i]) ==> x in Keys(row)
      invariant result == Pick(row, Dedup(names[..i]))
    {
      var column := names[i];
      match Lookup(row, column)
      case None =>
        NamedProjectionFails(row, names, i);
        return Err(MissingColumn(column));
      case Some(v) =>
        ProjectionStep(row, names, i, v);
        result := Assign(result, column, v);
      i := i + 1;
    }
    assert names[..i] == names;
    return Ok(result);
  }

  // ---------------------------------------------------------------------------
  // Execution

  /** Whether a row passes the optional WHERE tree; without one every row does. */
  function Matches(w: Option<Tree>, row: Row): (r: Result<bool>)
    requires ValidWhere(w)
    ensures w.None? ==> r == Ok(true)
    ensures r.Err? ==> && w.Some? && r.error.MissingColumn?
                       && r.error.column in ColumnsOf(w.value) && r.error.column !in Keys(row)
    ensures w.Some? && (forall x :: x in ColumnsOf(w.value) ==> x in Keys(row)) ==> r.Ok?
  {
    match w
    case None => Ok(true)
    case Some(t) => EvalTree(t, row)
  }

  /** `Matches` as the step of a filter. */
  function Keep(w: Option<Tree>): Row -> Result<bool>
    requires ValidWhere(w)
  {
    (row: Row) => Matches(w, row)
  }

  /** `Projection` as the step of a map. */
  function Project(columns: Columns): Row -> Result<Row>
  {
    (row: Row) => Projection(row, columns)
  }

  /** The rows of a table that pass the WHERE tree, in table order, or the
      error of the first row on which it fails. */
  function Selected(rows: seq<Row>, w: Option<Tree>): Result<seq<Row>>
    requires ValidWhere(w)
  {
    Filter(rows, Keep(w))
  }

  /** The projection of every selected row, in order, or the error of the
      first row whose projection fails. */
  function ProjectAll(rows: seq<Row>, columns: Columns): Result<seq<Row>>
  {
    MapAll(rows, Project(columns))
  }

  /** A selection succeeds exactly when the filter evaluates on every row; it
      then keeps, in table order, exactly the rows that pass, each as many
      times as the table holds it. */
  lemma SelectedExact(rows: seq<Row>, w: Option<Tree>)
    requires ValidWhere(w)
    ensures Selected(rows, w).Ok? <==> forall i :: 0 <= i < |rows| ==> Matches(w, rows[i]).Ok?
    ensures Selected(rows, w).Ok? ==>
              var s := Selected(rows, w).value;
              && IsSubsequence(s, rows)
              && (forall x :: x in s ==> x in rows && Matches(w, x) == Ok(true))
              && (forall i :: 0 <= i < |rows| && Matches(w, rows[i]) == Ok(true) ==> rows[i] in s)
    ensures Selected(rows, w).Ok? ==>
              forall y :: multiset(Selected(rows, w).value)[y] ==
                          if Matches(w, y) == Ok(true) then multiset(rows)[y] else 0
  {
    FilterExact(rows, Keep(w));
  }

  /** A failing selection fails with the error of the first row whose filter
      fails; the rows after it are not evaluated. */
  lemma SelectedFails(rows: seq<Row>, w: Option<Tree>, k: nat)
    requires ValidWhere(w) && k < |rows| && Matches(w, rows[k]).Err?
    requires forall j :: 0 <= j < k ==> Matches(w, rows[j]).Ok?
    ensures Selected(rows, w) == Err(Matches(w, rows[k]).error)
  {
    FilterFails(rows, Keep(w), k);
  }

  /** Without a WHERE clause every row is kept, in order. */
  lemma SelectedAll(rows: seq<Row>)
    ensures Selected(rows, None) == Ok(rows)
  {
    FilterAll(rows, Keep(None));
  }

  /** Projecting all rows succeeds exactly when every row projects, and then
      the i-th output is the projection of the i-th row. */
  lemma ProjectAllExact(rows: seq<Row>, columns: Columns)
    ensures ProjectAll(rows, columns).Ok? <==> forall i :: 0 <= i < |rows| ==> Projection(rows[i], columns).Ok?
    ensures ProjectAll(rows, columns).Ok? ==>
              |ProjectAll(rows, columns).value| == |rows| &&
              forall i :: 0 <= i < |rows| ==> Projection(rows[i], columns) == Ok(ProjectAll(rows, columns).value[i])
  {
    MapAllExact(rows, Project(columns));
  }

  /** `*` hands every row back unchanged. */
  lemma ProjectAllWildcard(rows: seq<Row>)
    ensures ProjectAll(rows, Wildcard) == Ok(rows)
  {
    MapAllIdentity(rows, Project(Wildcard));
  }

  /** The answer to a statement: the projections of the table's rows that pass
      the filter, in table order, or the first failure. */
  function Query(db: Store, stmt: SelectStatement): (r: Result<seq<Row>>)
    requires ValidStatement(stmt)
    ensures stmt.table !in db ==> r == Err(UnknownTable(stmt.table))
    ensures r.Ok? ==> |r.value| <= |db[stmt.table]|
  {
    if stmt.table !in db then Err(UnknownTable(stmt.table))
    else
      match Selected(db[stmt.table], stmt.whereExpr)
      case Err(e) => Err(e)
      case Ok(s) => ProjectAll(s, stmt.columns)
  }

  /** Every output row is the projection of a table row that passes the filter,
      and the outputs follow table order. */
  lemma QueryRows(db: Store, stmt: SelectStatement)
    requires ValidStatement(stmt) && Query(db, stmt).Ok?
    ensures stmt.table in db
    ensures var s := Selected(db[stmt.table], stmt.whereExpr);
      && s.Ok?
      && IsSubsequence(s.value, db[stmt.table])
      && |Query(db, stmt).value| == |s.value|
      && forall i :: 0 <= i < |s.value| ==>
           Matches(stmt.whereExpr, s.value[i]) == Ok(true) &&
           Projection(s.value[i], stmt.columns) == Ok(Query(db, stmt).value[i])
  {
    var rows := db[stmt.table];
    var s := Selected(rows, stmt.whereExpr).value;
    SelectedExact(rows, stmt.whereExpr);
    ProjectAllExact(s, stmt.columns);
    assert forall i :: 0 <= i < |s| ==> s[i] in s;
  }

  /** Over a store of dictionaries, every answer row is a dictionary too. */
  lemma QueryValidRows(db: Store, stmt: SelectStatement)
    requires ValidStatement(stmt) && ValidStore(db) && Query(db, stmt).Ok?
    ensures forall i :: 0 <= i < |Query(db, stmt).value| ==> ValidRow(Query(db, stmt).value[i])
  {
    QueryRows(db, stmt);
    var rows := db[stmt.table];
    SelectedExact(rows, stmt.whereExpr);
    var s := Selected(rows, stmt.whereExpr).value;
    var out := Query(db, stmt).value;
    forall i | 0 <= i < |out|
      ensures ValidRow(out[i])
    {
      assert s[i] in s;
      assert ValidRow(s[i]);
      match stmt.columns
      case Wildcard =>
      case Named(names) => NamedProjection(s[i], names);
    }
  }

  /** Without a WHERE clause every row of the table is projected, in order. */
  lemma QueryWithoutWhere(db: Store, stmt: SelectStatement)
    requires ValidStatement(stmt) && stmt.table in db && stmt.whereExpr.None?
    ensures Query(db, stmt) == ProjectAll(db[stmt.table], stmt.columns)
  {
    SelectedAll(db[stmt.table]);
  }

  /** `SELECT * FROM t` returns every row of `t` unchanged and in order. */
  lemma SelectStar(db: Store, table: string)
    requires table in db
    ensures Query(db, SelectStatement(Wildcard, table, None)) == Ok(db[table])
  {
    SelectedAll(db[table]);
    ProjectAllWildcard(db[table]);
  }

  /** `evaluate_select_statement`: resolve the table, keep the rows that pass
      the WHERE tree, then project each kept row. */
  method EvaluateSelectStatement(db: Store, stmt: SelectStatement) returns (r: Result<seq<Row>>)
    requires ValidStatement(stmt)
    ensures r == Query(db, stmt)
  {
    if stmt.table !in db {
      return Err(UnknownTable(stmt.table));
    }
    var rows := db[stmt.table];
    var w := stmt.whereExpr;

    var selectedRows: seq<Row> := [];
    var i := 0;
    while i < |rows|
      invariant 0 <= i <= |rows|
      invariant Selected(rows[..i], w) == Ok(selectedRows)
    {
      var row := rows[i];
      if w.Some? {
        var m := EvalTree(w.value, row);
        if m.Err? {
          FilterStepFails(rows, Keep(w), i, selectedRows);
          return Err(m.error);
        }
        FilterStep(rows, Keep(w), i, selectedRows, m.value);
        if m.value {
          selectedRows := selectedRows + [row];
        }
      } else {
        FilterStep(rows, Keep(w), i, selectedRows, true);
        selectedRows := selectedRows + [row];
      }
      i := i + 1;
    }
    assert rows[..i] == rows;

    var result: seq<Row> := [];
    var j := 0;
    while j < |selectedRows|
      invariant 0 <= j <= |selectedRows|
      invariant ProjectAll(selectedRows[..j], stmt.columns) == Ok(result)
    {
      var p := GetProjection(selectedRows[j], stmt.columns);
      if p.Err? {
        MapAllStepFails(selectedRows, Project(stmt.columns), j, result);
        return Err(p.error);
      }
      MapAllStep(selectedRows, Project(stmt.columns), j, result, p.value);
      result := result + [p.value];
      j := j + 1;
    }
    assert selectedRows[..j] == selectedRows;
    return Ok(result);
  }
}
