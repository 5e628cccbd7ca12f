/** The storage collaborator as far as the UPDATE pipeline sees it: a table's schema, its
    records addressed by RID, and the `visit_record` mutation primitive. Pages, buffers and
    the byte layout of a record are not modelled: a record is its sequence of cells. */
module Storage {
  import opened Common

  /** A stable row identifier. */
  datatype RID = RID(pageNum: int, slotNum: int)

  /** `FieldMeta`: the field's name, its declared type and its position in a record. */
  datatype FieldMeta = FieldMeta(name: string, attrType: AttrType, fieldId: nat)

  /** `RowTuple::set_cell_at`: the record with one cell replaced and every other cell, and
      the length, kept. */
  function SetCellAt(cells: seq<Value>, fieldId: nat, v: Value): (r: seq<Value>)
    ensures |r| == |cells|
    ensures fieldId < |cells| ==> r[fieldId] == v
    ensures forall j | 0 <= j < |cells| && j != fieldId :: r[j] == cells[j]
  {
    if fieldId < |cells| then cells[fieldId := v] else cells
  }

  /** Writing the same cell twice with the same value is writing it once. */
  lemma SetCellAtIdempotent(cells: seq<Value>, fieldId: nat, v: Value)
    ensures SetCellAt(SetCellAt(cells, fieldId, v), fieldId, v) == SetCellAt(cells, fieldId, v)
  {
  }

  class Table {
    const name: string
    /** `TableMeta`: the table's fields by name. */
    const meta: map<string, FieldMeta>
    var records: map<RID, seq<Value>>
    /** The RIDs handed to `VisitRecord`, in call order. */
    ghost var visits: seq<RID>

    constructor (name: string, meta: map<string, FieldMeta>, records: map<RID, seq<Value>>)
      ensures this.name == name && this.meta == meta && this.records == records
      ensures visits == []
    {
      this.name := name;
      this.meta := meta;
      this.records := records;
      visits := [];
    }

    /** `Table::visit_record`: locate the record and run the mutator on it; the mutated
        record is kept when the mutator answers true. A RID without a record changes
        nothing. */
    method VisitRecord(rid: RID, mutator: seq<Value> -> (seq<Value>, bool)) returns (rc: RC)
      modifies this`records, this`visits
      ensures visits == old(visits) + [rid]
      ensures rid in old(records) ==>
        && rc == Success
        && records == if mutator(old(records)[rid]).1
                      then old(records)[rid := mutator(old(records)[rid]).0]
                      else old(records)
      ensures rid !in old(records) ==> rc == RecordNotExist && records == old(records)
    {
      visits := visits + [rid];
      if rid !in records {
        return RecordNotExist;
      }
      var (updated, keep) := mutator(records[rid]);
      if keep {
        records := records[rid := updated];
      }
      rc := Success;
    }
  }
}
