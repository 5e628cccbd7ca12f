/** The plan nodes of UPDATE: the logical node that carries table, field and value, and
    the physical node whose `open` drains its child and rewrites one cell of every row the
    child yields. */
module UpdateOperators {
  import opened Common
  import opened Storage

  datatype LogicalOperatorType = TableGet | Predicate | Projection | Insert | Delete | Update

  datatype PhysicalOperatorType = TableScan | PredicateOp | ProjectOp | InsertOp | DeleteOp | UpdateOp

  /** `UpdateLogicalOperator`: an immutable record of its constructor arguments; `table()`,
      `field_meta()` and `value()` are its fields. */
  datatype UpdateLogicalOperator = UpdateLogicalOperator(table: Table?, fieldMeta: FieldMeta, value: Value)
  {
    function Type(): (t: LogicalOperatorType)
      ensures t == LogicalOperatorType.Update
    {
      LogicalOperatorType.Update
    }
  }

  /** `UpdateLogicalOperator(table, meta, value)`: the accessors give back exactly the
      constructor's arguments. */
  function NewUpdateLogicalOperator(table: Table, meta: FieldMeta, value: Value): (op: UpdateLogicalOperator)
    ensures op.table == table && op.fieldMeta == meta && op.value == value
    ensures op.Type() == LogicalOperatorType.Update
  {
    UpdateLogicalOperator(table, meta, value)
  }

  // ---------------------------------------------------------------------------------
  // What the drive loop does to the table

  /** One visit: the target cell of the record at `rid` is overwritten, if there is one. */
  function UpdateOne(records: map<RID, seq<Value>>, rid: RID, fieldId: nat, v: Value): (r: map<RID, seq<Value>>)
    ensures r.Keys == records.Keys
    ensures rid in records ==> r[rid] == SetCellAt(records[rid], fieldId, v)
    ensures forall other | other in records && other != rid :: r[other] == records[other]
  {
    if rid in records then records[rid := SetCellAt(records[rid], fieldId, v)] else records
  }

  /** The visits of the drive loop in the order the child yields the RIDs. */
  function ApplyUpdates(records: map<RID, seq<Value>>, rids: seq<RID>, fieldId: nat, v: Value): (r: map<RID, seq<Value>>)
    ensures r.Keys == records.Keys
  {
    if rids == [] then records
    else UpdateOne(ApplyUpdates(records, rids[..|rids| - 1], fieldId, v), rids[|rids| - 1], fieldId, v)
  }

  /** One more visit extends the loop by one step. */
  lemma ApplyUpdatesStep(records: map<RID, seq<Value>>, rids: seq<RID>, k: nat, fieldId: nat, v: Value)
    requires k < |rids|
    ensures ApplyUpdates(records, rids[..k + 1], fieldId, v)
         == UpdateOne(ApplyUpdates(records, rids[..k], fieldId, v), rids[k], fieldId, v)
  {
    assert rids[..k + 1][..k] == rids[..k];
  }

  /** The intended end state, stated without order: every record whose RID was yielded has
      its target cell replaced, every other record is as it was. */
  function UpdatedRows(records: map<RID, seq<Value>>, touched: set<RID>, fieldId: nat, v: Value): map<RID, seq<Value>>
  {
    map rid | rid in records :: if rid in touched then SetCellAt(records[rid], fieldId, v) else records[rid]
  }

  /** The loop computes the intended end state. */
  lemma {:induction false} ApplyUpdatesIsUpdatedRows(records: map<RID, seq<Value>>, rids: seq<RID>, fieldId: nat, v: Value)
    ensures ApplyUpdates(records, rids, fieldId, v) == UpdatedRows(records, set i | 0 <= i < |rids| :: rids[i], fieldId, v)
  {
    var touched := set i | 0 <= i < |rids| :: rids[i];
    if rids == [] {
      assert touched == {};
    } else {
      var init, last := rids[..|rids| - 1], rids[|rids| - 1];
      ApplyUpdatesIsUpdatedRows(records, init, fieldId, v);
      assert rids == init + [last];
      TouchedSnoc(init, last);
      UpdateOneExtendsTouched(records, set i | 0 <= i < |init| :: init[i], last, fieldId, v);
    }
  }

  /** The RIDs of a non-empty sequence are those of its front and its last one. */
  lemma TouchedSnoc(init: seq<RID>, last: RID)
    ensures (set i | 0 <= i < |init + [last]| :: (init + [last])[i])
         == (set i | 0 <= i < |init| :: init[i]) + {last}
  {
    var rids := init + [last];
    var touched, touchedInit := set i | 0 <= i < |rids| :: rids[i], set i | 0 <= i < |init| :: init[i];
    forall rid | rid in touched ensures rid in touchedInit + {last} {
      var i :| 0 <= i < |rids| && rids[i] == rid;
      if i < |init| {
        assert init[i] == rid;
      }
    }
    forall rid | rid in touchedInit ensures rid in touched {
      var i :| 0 <= i < |init| && init[i] == rid;
      assert rids[i] == rid;
    }
    assert rids[|init|] == last;
    assert touched == touchedInit + {last};
  }

  /** One more visit adds its RID to the touched set. */
  lemma UpdateOneExtendsTouched(records: map<RID, seq<Value>>, touched: set<RID>, rid: RID, fieldId: nat, v: Value)
    ensures UpdateOne(UpdatedRows(records, touched, fieldId, v), rid, fieldId, v)
         == UpdatedRows(records, touched + {rid}, fieldId, v)
  {
    if rid in records {
      SetCellAtIdempotent(records[rid], fieldId, v);
    }
  }

  /** A record the child never yields is not written. */
  lemma UpdateLeavesOtherRows(records: map<RID, seq<Value>>, rids: seq<RID>, fieldId: nat, v: Value, rid: RID)
    requires rid in records && rid !in rids
    ensures ApplyUpdates(records, rids, fieldId, v)[rid] == records[rid]
  {
    ApplyUpdatesIsUpdatedRows(records, rids, fieldId, v);
    assert rid !in set i | 0 <= i < |rids| :: rids[i];
  }

  /** A record the child yields gets the value in its target cell and keeps every other
      cell. */
  lemma UpdateWritesOnlyTargetCell(records: map<RID, seq<Value>>, rids: seq<RID>, fieldId: nat, v: Value, rid: RID)
    requires rid in records && rid in rids
    ensures var cells := ApplyUpdates(records, rids, fieldId, v)[rid];
      && |cells| == |records[rid]|
      && (fieldId < |cells| ==> cells[fieldId] == v)
      && forall j | 0 <= j < |cells| && j != fieldId :: cells[j] == records[rid][j]
  {
    ApplyUpdatesIsUpdatedRows(records, rids, fieldId, v);
    var i :| 0 <= i < |rids| && rids[i] == rid;
    assert rid in set i | 0 <= i < |rids| :: rids[i];
  }

  /** Neither the order in which the child yields the RIDs nor repetitions change the end
      state. */
  lemma UpdateIgnoresOrder(records: map<RID, seq<Value>>, rids1: seq<RID>, rids2: seq<RID>, fieldId: nat, v: Value)
    requires forall rid :: rid in rids1 <==> rid in rids2
    ensures ApplyUpdates(records, rids1, fieldId, v) == ApplyUpdates(records, rids2, fieldId, v)
  {
    ApplyUpdatesIsUpdatedRows(records, rids1, fieldId, v);
    ApplyUpdatesIsUpdatedRows(records, rids2, fieldId, v);
    var t1, t2 := set i | 0 <= i < |rids1| :: rids1[i], set i | 0 <= i < |rids2| :: rids2[i];
    assert t1 == t2 by {
      forall rid | rid in t1 ensures rid in t2 {
        assert rid in rids1;
        var j :| 0 <= j < |rids2| && rids2[j] == rid;
      }
      forall rid | rid in t2 ensures rid in t1 {
        assert rid in rids2;
        var j :| 0 <= j < |rids1| && rids1[j] == rid;
      }
    }
  }

  // ---------------------------------------------------------------------------------
  // The child and the physical operator

  /** The child of the update operator, a scan already filtered by the WHERE clause: what
      its `open` returns, the RIDs its `next` yields in order, and the code its `next`
      returns once they are exhausted. */
  class ChildOperator {
    const openRc: RC
    const rids: seq<RID>
    const terminal: RC
    /** How many rows `next` has yielded. */
    var pos: nat
    var isOpen: bool

    ghost predicate Valid()
      reads this
    {
      pos <= |rids| && terminal != Success
    }

    constructor (openRc: RC, rids: seq<RID>, terminal: RC)
      requires terminal != Success
      ensures Valid() && !isOpen && pos == 0
      ensures this.openRc == openRc && this.rids == rids && this.terminal == terminal
    {
      this.openRc := openRc;
      this.rids := rids;
      this.terminal := terminal;
      pos := 0;
      isOpen := false;
    }

    method Open() returns (rc: RC)
      requires Valid()
      modifies this
      ensures Valid() && rc == openRc && pos == 0 && isOpen == (rc == Success)
    {
      pos := 0;
      isOpen := openRc == Success;
      rc := openRc;
    }

    method Next() returns (rc: RC)
      requires Valid()
      modifies this`pos
      ensures Valid()
      ensures old(pos) < |rids| ==> rc == Success && pos == old(pos) + 1
      ensures old(pos) == |rids| ==> rc == terminal && pos == old(pos)
    {
      if pos < |rids| {
        pos := pos + 1;
        rc := Success;
      } else {
        rc := terminal;
      }
    }

    /** The RID of the row the last successful `next` yielded. */
    function CurrentRid(): RID
      reads this
      requires Valid() && 0 < pos
    {
      rids[pos - 1]
    }

    method Close()
      modifies this`isOpen
      ensures !isOpen
    {
      isOpen := false;
    }
  }

  /** `Value::cast_to(value, type)`: the converted value, or nothing when the cast fails. */
  type CastFn = (Value, AttrType) -> Option<Value>

  /** The value the update writes: the literal itself when its type is the field's, its
      cast to the field's type otherwise (nothing when that cast fails). */
  function WorkingValue(v: Value, fieldType: AttrType, cast: CastFn): (r: Option<Value>)
    ensures v.attrType == fieldType ==> r == Some(v)
    ensures v.attrType != fieldType ==> r == cast(v, fieldType)
  {
    if v.attrType == fieldType then Some(v) else cast(v, fieldType)
  }

  /** A value already of the field's type is written as it is: the cast is not consulted,
      so no cast can fail it or change it. */
  lemma NoCastOnMatchingType(v: Value, fieldType: AttrType, c1: CastFn, c2: CastFn)
    requires v.attrType == fieldType
    ensures WorkingValue(v, fieldType, c1) == WorkingValue(v, fieldType, c2) == Some(v)
  {
  }

  /** The overall code of the drive loop: end of stream is success, any other terminal
      code is passed on. */
  function DriveResult(terminal: RC): (rc: RC)
    ensures terminal == RecordEof ==> rc == Success
    ensures terminal != RecordEof ==> rc == terminal
  {
    if terminal == RecordEof then Success else terminal
  }

  class UpdatePhysicalOperator {
    const table: Table
    const fieldMeta: FieldMeta
    var value: Value
    /** `children_[0]`. */
    const child: ChildOperator

    /** Stores table, field meta and value as given, with the operator's single child. */
    constructor (table: Table, fieldMeta: FieldMeta, value: Value, child: ChildOperator)
      ensures this.table == table && this.fieldMeta == fieldMeta && this.value == value
      ensures this.child == child
    {
      this.table := table;
      this.fieldMeta := fieldMeta;
      this.value := value;
      this.child := child;
    }

    function Type(): (t: PhysicalOperatorType)
      ensures t == UpdateOp
    {
      UpdateOp
    }

    /** `current_tuple()`: the operator yields no rows of its own. */
    function CurrentTuple(): (t: Option<RID>)
      ensures t == None
    {
      None
    }

    /** `open`: open the child, cast the value once to the field's type if it differs, then
        rewrite the target cell of every row the child yields, in order, and close the
        child. */
    method Open(cast: CastFn) returns (rc: RC)
      requires child.Valid()
      modifies this, child, table
      ensures child.Valid()
      ensures child.openRc != Success ==>
        && rc == child.openRc
        && value == old(value)
        && table.records == old(table.records) && table.visits == old(table.visits)
      ensures child.openRc == Success && WorkingValue(old(value), fieldMeta.attrType, cast).None? ==>
        && rc == InvalidArgument
        && value == old(value)
        && table.records == old(table.records) && table.visits == old(table.visits)
        && child.isOpen
      ensures child.openRc == Success && WorkingValue(old(value), fieldMeta.attrType, cast).Some? ==>
        && value == WorkingValue(old(value), fieldMeta.attrType, cast).value
        && table.records == ApplyUpdates(old(table.records), child.rids, fieldMeta.fieldId, value)
        && table.visits == old(table.visits) + child.rids
        && rc == DriveResult(child.terminal)
        && !child.isOpen
    {
      rc := child.Open();
      if rc != Success {
        return;
      }

      if value.attrType != fieldMeta.attrType {
        var toValue := cast(value, fieldMeta.attrType);
        if toValue.None? {
          return InvalidArgument;
        }
        value := toValue.value;
      }

      rc := DriveChild(fieldMeta.fieldId, value);
      if rc == RecordEof {
        rc := Success;
      }
      child.Close();
    }

    /** The drive loop of `open`: pull the child until it stops, rewriting the target cell
        of the record behind each row it yields. The code `visit_record` returns is
        overwritten by the next pull, so it neither stops the loop nor reaches the result. */
    method DriveChild(fieldId: nat, v: Value) returns (rc: RC)
      requires child.Valid() && child.isOpen && child.pos == 0
      modifies child, table
      ensures child.Valid() && child.isOpen
      ensures rc == child.terminal
      ensures table.records == ApplyUpdates(old(table.records), child.rids, fieldId, v)
      ensures table.visits == old(table.visits) + child.rids
    {
      ghost var records0, visits0 := table.records, table.visits;
      rc := child.Next();
      while rc == Success
        invariant child.Valid() && child.isOpen
        invariant rc == Success ==> 0 < child.pos
        invariant rc == Success ==>
          && table.records == ApplyUpdates(records0, child.rids[..child.pos - 1], fieldId, v)
          && table.visits == visits0 + child.rids[..child.pos - 1]
        invariant rc != Success ==>
          && child.pos == |child.rids| && rc == child.terminal
          && table.records == ApplyUpdates(records0, child.rids, fieldId, v)
          && table.visits == visits0 + child.rids
        decreases |child.rids| - child.pos + (if rc == Success then 1 else 0)
      {
        var rid := child.CurrentRid();
        ApplyUpdatesStep(records0, child.rids, child.pos - 1, fieldId, v);
        rc := VisitRow(rid, fieldId, v);
        assert child.rids[..child.pos] == child.rids[..child.pos - 1] + [rid];
        rc := child.Next();
        if rc != Success {
          assert child.rids[..child.pos] == child.rids;
        }
      }
    }

    /** One `visit_record` call with the update's callback: the callback snapshots the
        record, overwrites the target cell and always answers true, so the change is kept. */
    method VisitRow(rid: RID, fieldId: nat, v: Value) returns (rc: RC)
      modifies table`records, table`visits
      ensures table.records == UpdateOne(old(table.records), rid, fieldId, v)
      ensures table.visits == old(table.visits) + [rid]
    {
      rc := table.VisitRecord(rid, (cells: seq<Value>) => (SetCellAt(cells, fieldId, v), true));
    }

    /** `next()`: all the work is done in `open`. */
    method Next() returns (rc: RC)
      ensures rc == RecordEof
    {
      rc := RecordEof;
    }

    /** `close()`: the child was already closed by `open`. */
    method Close() returns (rc: RC)
      ensures rc == Success
    {
      rc := Success;
    }
  }
}
