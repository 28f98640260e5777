/** The planner: for a filtered SHOW it picks the access path the catalog
    allows and its cost. The plan is only reported; execution never reads
    it. */
module Optimizer {
  import opened Outcomes
  import opened Parser
  import opened Storage

  /** The access path: an index scan on a table's column, or a full scan. */
  datatype Access = IndexScan(table: string, column: string) | FullTableScan {
    /** The plan text the engine reports. */
    function Text(): string {
      match this
      case IndexScan(t, c) => "INDEX_SCAN on " + t + "." + c
      case FullTableScan => "FULL_TABLE_SCAN"
    }
  }

  datatype Plan = Plan(access: Access, cost: nat)

  /** count_rows: the number of lines of the table file, the header
      included; 0 when the table has no file. */
  function CountRows(st: Store, table: string): (n: nat)
    ensures table !in st.files ==> n == 0
    ensures table in st.files ==> n == |st.files[table]|
  {
    if table in st.files then |st.files[table]| else 0
  }

  /** optimize_query: a plan exists exactly for a filtered SHOW on a
      table the catalog knows. The filtered column is then planned as an
      index scan exactly when it is primary or indexed: cost 1 when it is
      primary (even if it is also indexed), cost 2 when it is only
      indexed; anything else is a full scan costing the file's line
      count. */
  function OptimizeQuery(q: Command, st: Store): (r: Option<Plan>)
    ensures r.Some? <==> q.Select? && q.filter.Some? && st.schema.Some? && q.table in st.schema.value
    ensures r.Some? ==>
              var entry := st.schema.value[q.table];
              var column := q.filter.value.column;
              (r.value.access.IndexScan? <==> entry.primary == Some(column) || column in entry.indexed) &&
              (r.value.access.IndexScan? ==> r.value.access == IndexScan(q.table, column)) &&
              (r.value.access.IndexScan? && r.value.cost == 1 <==> entry.primary == Some(column)) &&
              (r.value.access.IndexScan? && r.value.cost == 2 <==>
                 entry.primary != Some(column) && column in entry.indexed) &&
              (r.value.access.FullTableScan? ==> r.value.cost == CountRows(st, q.table))
  {
    if !q.Select? || q.filter.None? then None
    else if st.schema.None? || q.table !in st.schema.value then None
    else
      var entry := st.schema.value[q.table];
      var column := q.filter.value.column;
      if entry.primary == Some(column) then Some(Plan(IndexScan(q.table, column), 1))
      else if column in entry.indexed then Some(Plan(IndexScan(q.table, column), 2))
      else Some(Plan(FullTableScan, CountRows(st, q.table)))
  }

  /** Right after MAKE, a filter on the column marked PRIMARY is planned as
      an index scan of cost 1 (when it is the last such column), and a
      filter on an unmarked column as a full scan of the header line alone. */
  lemma PlanAfterCreate(st: Store, table: string, columns: seq<string>, value: string)
    requires CreateTableEffect(st, table, columns).out.Ok?
    ensures var after := CreateTableEffect(st, table, columns).store;
            var entry := after.schema.value[table];
            (entry.primary.Some? ==>
               OptimizeQuery(Select(table, Some(ColumnValue(entry.primary.value, value))), after) ==
                 Some(Plan(IndexScan(table, entry.primary.value), 1))) &&
            (forall c :: entry.primary != Some(c) && c !in entry.indexed ==>
               OptimizeQuery(Select(table, Some(ColumnValue(c, value))), after) == Some(Plan(FullTableScan, 1)))
  {
    CreateTableOnlyThisTable(st, table, columns);
  }
}
