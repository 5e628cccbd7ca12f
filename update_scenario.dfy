/** A client of the pipeline: bind `UPDATE t SET d = '2025-03-04' WHERE id = 1`, carry the
    statement's table, field and value through the logical node into the physical node,
    and run it against a two-row table whose filtered scan yields the first row only. */
module UpdateScenario {
  import opened Common
  import opened DateTypes
  import opened Storage
  import opened UpdateStmts
  import opened UpdateOperators

  /** A string-to-date cast, standing in for the cast of the `Chars` type (which is not
      part of this model): a parseable literal becomes its packed date. */
  function CharsToDate(v: Value, target: AttrType): Option<Value>
  {
    if v.attrType == Chars && target == Dates && ParseDate(v.stringValue).Some?
    then Some(DateValue(DateToInt(ParseDate(v.stringValue).value)))
    else None
  }

  lemma ParseScenarioLiteral()
    ensures ParseDate("2025-03-04") == Some(Date(2025, 3, 4))
  {
    MatchJoin("2025", "03", "04");
    assert JoinGroups("2025", "03", "04") == "2025-03-04";
    DigitsValue2025();
    assert DigitsValue("03") == 3 by {
      assert "03"[..1] == "0" && "0"[..0] == "";
    }
    assert DigitsValue("04") == 4 by {
      assert "04"[..1] == "0" && "0"[..0] == "";
    }
  }

  /** Bind `UPDATE t SET d = '2025-03-04' WHERE id = 1` against a catalog holding `t`. */
  method BindUpdate(t: Table, dField: FieldMeta) returns (stmt: UpdateStmt)
    requires t.name == "t" && "d" in t.meta && t.meta["d"] == dField
    ensures stmt.table == t && stmt.fieldMeta == dField && stmt.value == CharsValue("2025-03-04")
  {
    var db := Db("test", map["t" := t]);
    var node := UpdateSqlNode("t", "d", CharsValue("2025-03-04"), [ConditionSqlNode("id = 1")]);
    var compile: FilterCompiler := (db: Db, table: Table, scope: map<string, Table>, conds: seq<ConditionSqlNode>) =>
      FilterOutcome(Success, Some(FilterStmt(|conds|)));
    assert SchemaResolves(db, node);
    var rc, bound := Create(Some(db), node, compile, null);
    stmt := bound;
  }

  const row1 := RID(1, 0)
  const row2 := RID(1, 1)

  /** The table `t(id, d)` holding the rows (1, 2024-01-01) and (2, 2024-02-02), and the
      statement bound against it. */
  method SetUp() returns (t: Table, stmt: UpdateStmt)
    ensures fresh(t)
    ensures t.records == map[row1 := [Value(Ints, 1, ""), DateValue(20240101)],
                             row2 := [Value(Ints, 2, ""), DateValue(20240202)]]
    ensures stmt.table == t && stmt.fieldMeta == FieldMeta("d", Dates, 1)
    ensures stmt.value == CharsValue("2025-03-04")
  {
    var idField := FieldMeta("id", Ints, 0);
    var dField := FieldMeta("d", Dates, 1);
    t := new Table("t", map["id" := idField, "d" := dField],
      map[row1 := [Value(Ints, 1, ""), DateValue(20240101)],
          row2 := [Value(Ints, 2, ""), DateValue(20240202)]]);
    stmt := BindUpdate(t, dField);
  }

  /** Run the bound statement against the table, with a filtered scan that yields the
      first row only. */
  method UpdateOneOfTwoRows()
  {
    var t, stmt := SetUp();
    var logical := NewUpdateLogicalOperator(stmt.table, stmt.fieldMeta, stmt.value);
    var child := new ChildOperator(Success, [row1], RecordEof);
    var physical := new UpdatePhysicalOperator(logical.table, logical.fieldMeta, logical.value, child);

    ParseScenarioLiteral();
    var written := DateValue(20250304);
    assert CharsToDate(stmt.value, Dates) == Some(written);
    ghost var before := t.records;
    var rc := physical.Open(CharsToDate);
    assert rc == Success && physical.value == written;
    UpdateWritesOnlyTargetCell(before, [row1], 1, written, row1);
    UpdateLeavesOtherRows(before, [row1], 1, written, row2);
    assert t.records[row1] == [Value(Ints, 1, ""), written];
    assert t.records[row2] == [Value(Ints, 2, ""), DateValue(20240202)];
  }

  method UpdateNoRows()
  {
    var dField := FieldMeta("d", Dates, 0);
    var row := RID(1, 0);
    var t := new Table("t", map["d" := dField], map[row := [DateValue(20240101)]]);
    var child := new ChildOperator(Success, [], RecordEof);
    var physical := new UpdatePhysicalOperator(t, dField, DateValue(20250304), child);
    var rc := physical.Open(CharsToDate);
    assert rc == Success;
    assert t.records == map[row := [DateValue(20240101)]];
  }
}
