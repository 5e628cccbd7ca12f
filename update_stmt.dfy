/** The bind phase of `UPDATE <table> SET <field> = <value> WHERE <conditions>`: resolve the
    table and the field in the catalog, hand the conditions to the filter compiler, and
    keep the literal value as written. */
module UpdateStmts {
  import opened Common
  import opened Storage

  datatype StmtType = Select | Insert | Update | Delete

  /** One parsed WHERE condition; only the filter compiler looks inside. */
  datatype ConditionSqlNode = ConditionSqlNode(text: string)

  /** A compiled predicate tree, opaque to this core. */
  datatype FilterStmt = FilterStmt(id: nat)

  /** The parsed statement. */
  datatype UpdateSqlNode = UpdateSqlNode(
    relationName: string,
    attributeName: string,
    value: Value,
    conditions: seq<ConditionSqlNode>)

  /** The catalog: `Db::find_table` is a lookup in `tables`. */
  datatype Db = Db(name: string, tables: map<string, Table>)

  /** What `FilterStmt::create` returns: its code and the filter it wrote. */
  datatype FilterOutcome = FilterOutcome(rc: RC, filter: Option<FilterStmt>)

  /** `FilterStmt::create(db, table, tables in scope, conditions)`. */
  type FilterCompiler = (Db, Table, map<string, Table>, seq<ConditionSqlNode>) -> FilterOutcome

  /** What a successful bind produces. */
  datatype Binding = Binding(table: Table, fieldMeta: FieldMeta, value: Value, filter: Option<FilterStmt>)

  datatype BindResult = Bound(binding: Binding) | Failed(rc: RC)

  /** The table the statement names exists and has the field it names. */
  predicate SchemaResolves(db: Db, node: UpdateSqlNode)
  {
    node.relationName in db.tables && node.attributeName in db.tables[node.relationName].meta
  }

  /** The tables the conditions may name: the resolved table under the statement's
      relation name, and nothing else. */
  function FilterScope(db: Db, node: UpdateSqlNode): (scope: map<string, Table>)
    requires node.relationName in db.tables
    ensures scope.Keys == {node.relationName}
    ensures scope[node.relationName] == db.tables[node.relationName]
  {
    map[node.relationName := db.tables[node.relationName]]
  }

  /** The call `create` makes to the filter compiler. Its outcome depends only on what the
      compiler answers for the database, the resolved table, the one-table scope and all
      the conditions. */
  function CompileFilter(db: Db, node: UpdateSqlNode, compile: FilterCompiler): (r: FilterOutcome)
    requires node.relationName in db.tables
    ensures r == compile(db, db.tables[node.relationName], FilterScope(db, node), node.conditions)
  {
    var table := db.tables[node.relationName];
    compile(db, table, FilterScope(db, node), node.conditions)
  }

  /** The validation chain of `UpdateStmt::create`, in its order: database, table, field,
      filter. */
  function Bind(db: Option<Db>, node: UpdateSqlNode, compile: FilterCompiler): (r: BindResult)
    ensures r.Failed? ==> r.rc != Success
    ensures db.None? ==> r == Failed(InvalidArgument)
    ensures db.Some? && node.relationName !in db.value.tables ==> r == Failed(SchemaTableNotExist)
    ensures db.Some? && node.relationName in db.value.tables && !SchemaResolves(db.value, node) ==>
      r == Failed(SchemaFieldNotExist)
    ensures db.Some? && SchemaResolves(db.value, node) ==>
      (r.Bound? <==> CompileFilter(db.value, node, compile).rc == Success)
    ensures db.Some? && SchemaResolves(db.value, node) && r.Failed? ==>
      r.rc == CompileFilter(db.value, node, compile).rc
    ensures r.Bound? ==>
      && db.Some? && SchemaResolves(db.value, node)
      && var table := db.value.tables[node.relationName];
      && r.binding == Binding(table, table.meta[node.attributeName], node.value,
                              CompileFilter(db.value, node, compile).filter)
  {
    if db.None? then Failed(InvalidArgument)
    else if node.relationName !in db.value.tables then Failed(SchemaTableNotExist)
    else
      var table := db.value.tables[node.relationName];
      if node.attributeName !in table.meta then Failed(SchemaFieldNotExist)
      else
        var outcome := CompileFilter(db.value, node, compile);
        if outcome.rc != Success then Failed(outcome.rc)
        else Bound(Binding(table, table.meta[node.attributeName], node.value, outcome.filter))
  }

  /** A missing table is reported before anything about the field or the filter: the
      result does not depend on the attribute named or on the filter compiler. */
  lemma TableCheckedFirst(db: Db, node: UpdateSqlNode, attribute: string, c1: FilterCompiler, c2: FilterCompiler)
    requires node.relationName !in db.tables
    ensures Bind(Some(db), node, c1) == Bind(Some(db), node.(attributeName := attribute), c2)
    ensures Bind(Some(db), node, c1) == Failed(SchemaTableNotExist)
  {
  }

  /** The filter compiler is consulted only once the schema resolves. */
  lemma CompilerOnlyAfterSchema(db: Option<Db>, node: UpdateSqlNode, c1: FilterCompiler, c2: FilterCompiler)
    requires db.None? || !SchemaResolves(db.value, node)
    ensures Bind(db, node, c1) == Bind(db, node, c2)
    ensures Bind(db, node, c1).Failed?
  {
  }

  /** The bound value is the literal as written, even when its type is not the field's:
      casting waits for execution. */
  lemma BoundValueIsUncast(db: Db, node: UpdateSqlNode, compile: FilterCompiler)
    requires SchemaResolves(db, node) && CompileFilter(db, node, compile).rc == Success
    ensures Bind(Some(db), node, compile).Bound?
    ensures Bind(Some(db), node, compile).binding.value == node.value
    ensures Bind(Some(db), node, compile).binding.fieldMeta
         == db.tables[node.relationName].meta[node.attributeName]
  {
  }

  /** `UpdateStmt`: the bound statement. It owns the compiled filter. */
  class UpdateStmt {
    var table: Table?
    var fieldMeta: FieldMeta
    var value: Value
    var filterStmt: Option<FilterStmt>

    /** `UpdateStmt(table, meta, value, stmt)`: stores its arguments as given. */
    constructor (table: Table, meta: FieldMeta, value: Value, filter: Option<FilterStmt>)
      ensures this.table == table && fieldMeta == meta && this.value == value && filterStmt == filter
    {
      this.table := table;
      fieldMeta := meta;
      this.value := value;
      filterStmt := filter;
    }

    /** `UpdateStmt() = default`: no table; the other fields are whatever their defaults
        are, the filter pointer indeterminate. */
    constructor Default()
      ensures table == null
    {
      table := null;
    }

    function Type(): (t: StmtType)
      ensures t == Update
    {
      Update
    }

    /** `~UpdateStmt`: the owned filter is released and the field cleared. */
    method Destroy()
      modifies this
      ensures filterStmt == None
      ensures table == old(table) && fieldMeta == old(fieldMeta) && value == old(value)
    {
      if filterStmt.Some? {
        filterStmt := None;
      }
    }
  }

  /** `UpdateStmt::create`: on success a new statement holding the bind result; on any
      failure the code of the first failing check and `stmt` not written. */
  method Create(db: Option<Db>, node: UpdateSqlNode, compile: FilterCompiler, stmt: UpdateStmt?)
    returns (rc: RC, stmt': UpdateStmt?)
    ensures Bind(db, node, compile).Failed? ==> rc == Bind(db, node, compile).rc && stmt' == stmt
    ensures Bind(db, node, compile).Bound? ==>
      && rc == Success
      && stmt' != null && fresh(stmt')
      && var b := Bind(db, node, compile).binding;
      && stmt'.table == b.table && stmt'.fieldMeta == b.fieldMeta
      && stmt'.value == b.value && stmt'.filterStmt == b.filter
  {
    var bound := Bind(db, node, compile);
    if bound.Failed? {
      return bound.rc, stmt;
    }
    var b := bound.binding;
    stmt' := new UpdateStmt(b.table, b.fieldMeta, b.value, b.filter);
    rc := Success;
  }
}
