/** What the statements promise about the storage directory, alone and in
    sequence. */
module Properties {
  import opened Outcomes
  import opened Text
  import opened Parser
  import opened Storage
  import opened Optimizer
  import opened Executor

  // ---------------------------------------------------------------------
  // Constraint rules

  /** The age rule in terms of the text: decimal digits, not all of them
      zero. */
  lemma AgeRule(types: map<string, string>, value: string)
    ensures ValueFits(types, "age", value) <==>
              (DeclaredInt(types, "age") ==> IsDigits(value)) &&
              IsDigits(value) && exists k :: 0 <= k < |value| && value[k] != '0'
  {
    if IsDigits(value) {
      DigitsValuePositive(value);
    }
  }

  // ---------------------------------------------------------------------
  // INSERT and SELECT

  /** After a successful INSERT, SELECT without a filter lists the old
      lines followed by the new row's line, and the planner's line count
      grows by one. */
  lemma InsertThenSelectAll(st: Store, table: string, values: seq<string>)
    requires InsertEffect(st, table, values).out == Ok(Message(Inserted))
    ensures var after := InsertEffect(st, table, values).store;
            SelectAnswer(after, table, None) == Ok(Lines(ShownAll(st.files[table]) + [Shown(values)])) &&
            CountRows(after, table) == CountRows(st, table) + 1
  {
    ShownAllConcat(st.files[table], [values]);
    assert ShownAll([values]) == [Shown(values)];
  }

  /** A filtered SELECT returns the lines of exactly the rows of the file
      whose field at the column's catalog position equals the value (the
      header line included when it matches), in file order: the answer to
      a file made of two parts is the answer for the first part followed
      by the answer for the second. */
  lemma SelectFilterMeaning(st: Store, table: string, c: ColumnValue, front: seq<Row>, back: seq<Row>)
    requires SelectAnswer(st, table, Some(c)).Ok? && SelectAnswer(st, table, Some(c)).value.Lines?
    requires st.files[table] == front + back
    ensures var index := IndexOf(st.schema.value[table].columns, c.column).value;
            var chosen := Matching(st.files[table], index, c.value);
            SelectAnswer(st, table, Some(c)).value.lines == ShownAll(chosen) &&
            (forall row :: row in chosen <==> row in st.files[table] && Hits(row, index, c.value)) &&
            chosen == Matching(front, index, c.value) + Matching(back, index, c.value)
  {
    var index := IndexOf(st.schema.value[table].columns, c.column).value;
    var keep := row => Hits(row, index, c.value);
    forall row {
      FilterMembers(st.files[table], keep, row);
    }
    FilterConcat(front, back, keep);
  }

  // ---------------------------------------------------------------------
  // DELETE

  /** AnyMatch and the filter DELETE applies agree: nothing is dropped
      exactly when no row matches. */
  lemma KeptAllIffNoMatch(rows: seq<Row>, index: nat, value: string)
    ensures Kept(rows, index, value) == rows <==> !AnyMatch(rows, index, value)
    ensures AnyMatch(rows, index, value) ==> |Kept(rows, index, value)| < |rows|
  {
    var keep := row => !Equals(row, index, value);
    FilterKeepsAll(rows, keep);
    if AnyMatch(rows, index, value) {
      var k :| 0 <= k < |rows| && Equals(rows[k], index, value);
      assert !keep(rows[k]);
    } else {
      assert All(rows, keep);
    }
  }

  /** A DELETE that runs rewrites the file as its header followed by the
      rows whose field differs from the value, in their order; it reports
      a deletion exactly when some data row matched, which is exactly when
      the file became shorter. */
  lemma DeleteMeaning(st: Store, table: string, c: ColumnValue)
    requires DeleteEffect(st, table, c).out.Ok?
    requires DeleteEffect(st, table, c).out.value !in {Printed(TableNotFound), Printed(ColumnNotFound)}
    ensures var after := DeleteEffect(st, table, c).store;
            var header := st.files[table][0];
            var rows := st.files[table][1..];
            var index := IndexOf(header, c.column).value;
            c.column in header &&
            after.files[table] == [header] + Kept(rows, index, c.value) &&
            (forall row :: row in after.files[table][1..] <==> row in rows && !Equals(row, index, c.value)) &&
            (DeleteEffect(st, table, c).out == Ok(Printed(DeletedRows)) <==> AnyMatch(rows, index, c.value)) &&
            (DeleteEffect(st, table, c).out == Ok(Printed(DeletedRows)) <==>
               |after.files[table]| < |st.files[table]|)
  {
    var header := st.files[table][0];
    var rows := st.files[table][1..];
    var index := IndexOf(header, c.column).value;
    var after := DeleteEffect(st, table, c).store;
    assert after.files[table][1..] == Kept(rows, index, c.value);
    forall row {
      FilterMembers(rows, row => !Equals(row, index, c.value), row);
    }
    KeptAllIffNoMatch(rows, index, c.value);
  }

  /** The rows DELETE keeps all have the field, none of them equal to the
      value, so filtering them again keeps them all. */
  lemma KeptAreClean(rows: seq<Row>, index: nat, value: string)
    ensures var kept := Kept(rows, index, value);
            Long(kept, index) ==> !AnyMatch(kept, index, value) && Kept(kept, index, value) == kept
  {
    var keep := row => !Equals(row, index, value);
    var kept := Kept(rows, index, value);
    FilterTwice(rows, keep);
    if Long(kept, index) && AnyMatch(kept, index, value) {
      var k :| 0 <= k < |kept| && Equals(kept[k], index, value);
      FilterMembers(rows, keep, kept[k]);
    }
  }

  /** The kept rows of rows that all have the field still all have it. */
  lemma KeptStayLong(rows: seq<Row>, index: nat, value: string)
    requires Long(rows, index)
    ensures Long(Kept(rows, index, value), index)
  {
    var keep := row => !Equals(row, index, value);
    var kept := Kept(rows, index, value);
    forall k | 0 <= k < |kept| ensures index < |kept[k]| {
      FilterMembers(rows, keep, kept[k]);
    }
  }

  /** Deleting twice with the same condition is deleting once: the second
      DELETE finds no matching row and leaves the directory as it is. */
  lemma DeleteTwice(st: Store, table: string, c: ColumnValue)
    requires DeleteEffect(st, table, c).out.Ok?
    requires DeleteEffect(st, table, c).out.value !in {Printed(TableNotFound), Printed(ColumnNotFound)}
    ensures var after := DeleteEffect(st, table, c).store;
            DeleteEffect(after, table, c) == Effect(after, Ok(Printed(NoMatchingRecord)))
  {
    var header := st.files[table][0];
    var rows := st.files[table][1..];
    var index := IndexOf(header, c.column).value;
    var kept := Kept(rows, index, c.value);
    var after := DeleteEffect(st, table, c).store;
    assert Long(rows, index);
    assert after == Store(st.schema, st.files[table := [header] + kept]);
    var file := after.files[table];
    assert file[0] == header && file[1..] == kept;
    KeptStayLong(rows, index, c.value);
    KeptAreClean(rows, index, c.value);
    assert after.files[table := [header] + kept] == after.files;
  }

  // ---------------------------------------------------------------------
  // DROP

  /** DROP is idempotent: dropping again changes nothing. */
  lemma DropTwice(st: Store, table: string)
    ensures var once := DropEffect(st, table);
            DropEffect(once.store, table) == once
  {
    var once := DropEffect(st, table).store;
    assert once.files - {table} == once.files;
  }

  /** After DROP the table is gone for every statement: INSERT answers that
      it does not exist, SELECT and DELETE print "Table not found", UPDATE
      fails to open its file, and the planner has no plan for it. */
  lemma DropThenStatements(st: Store, table: string, values: seq<string>, filter: Option<ColumnValue>,
                           c: ColumnValue, a: ColumnValue)
    ensures var gone := DropEffect(st, table).store;
            InsertEffect(gone, table, values) == Effect(gone, Ok(Message(TableMissing))) &&
            SelectAnswer(gone, table, filter) == Ok(Printed(TableNotFound)) &&
            DeleteEffect(gone, table, c) == Effect(gone, Ok(Printed(TableNotFound))) &&
            UpdateEffect(gone, table, a, c) == Effect(gone, Raise(FileNotFound)) &&
            OptimizeQuery(Select(table, filter), gone).None? &&
            CountRows(gone, table) == 0
  {
  }

  // ---------------------------------------------------------------------
  // UPDATE

  /** The checking loop of UPDATE never touches a table file. */
  lemma {:induction false} UpdateScanKeepsFiles(st: Store, table: string, header: seq<string>, rows: seq<Row>,
                                                setIndex: nat, setValue: string, whereIndex: nat, whereValue: string)
    ensures UpdateScan(st, table, header, rows, setIndex, setValue, whereIndex, whereValue).store.files == st.files
    decreases |rows|
  {
    if rows != [] {
      var row := rows[0];
      if whereIndex < |row| {
        if row[whereIndex] != whereValue {
          UpdateScanKeepsFiles(st, table, header, rows[1..], setIndex, setValue, whereIndex, whereValue);
        } else if setIndex < |row| {
          var checked := ValidateEffect(st, table, header, row[setIndex := setValue]);
          if checked.out == Ok(true) {
            UpdateScanKeepsFiles(checked.store, table, header, rows[1..], setIndex, setValue, whereIndex, whereValue);
          }
        }
      }
    }
  }

  /** One call of validate_constraints on a table that has a file answers
      by the table's rules, writes no table file and leaves those rules as
      they were; unless it rebuilds a missing record, it changes nothing. */
  lemma ValidateUnderRules(st: Store, table: string, header: seq<string>, values: seq<string>)
    requires table in st.files && st.files[table] != []
    ensures var e := ValidateEffect(st, table, header, values);
            e.out == Verdict(RulesOf(st, table), header, values) &&
            e.store.files == st.files &&
            RulesOf(e.store, table) == RulesOf(st, table) &&
            (st.schema.None? || table in st.schema.value ==> e.store == st)
  {
  }

  /** Every row clears exactly when the first does and every later one
      does; the first row not to clear is a rejecting one exactly when the
      first row rejects, or it clears and the same holds of the others. */
  lemma ClearsCons(rules: Option<map<string, string>>, header: seq<string>, rows: seq<Row>,
                   setIndex: nat, setValue: string, whereIndex: nat, whereValue: string)
    requires rows != []
    ensures (forall k :: 0 <= k < |rows| ==> RowClears(rules, header, rows[k], setIndex, setValue, whereIndex, whereValue)) <==>
              RowClears(rules, header, rows[0], setIndex, setValue, whereIndex, whereValue) &&
              forall k :: 0 <= k < |rows[1..]| ==> RowClears(rules, header, rows[1..][k], setIndex, setValue, whereIndex, whereValue)
    ensures (exists k :: 0 <= k < |rows| && RowRejects(rules, header, rows[k], setIndex, setValue, whereIndex, whereValue) &&
                         forall j :: 0 <= j < k ==> RowClears(rules, header, rows[j], setIndex, setValue, whereIndex, whereValue)) <==>
              RowRejects(rules, header, rows[0], setIndex, setValue, whereIndex, whereValue) ||
              (RowClears(rules, header, rows[0], setIndex, setValue, whereIndex, whereValue) &&
               exists k :: 0 <= k < |rows[1..]| && RowRejects(rules, header, rows[1..][k], setIndex, setValue, whereIndex, whereValue) &&
                           forall j :: 0 <= j < k ==> RowClears(rules, header, rows[1..][j], setIndex, setValue, whereIndex, whereValue))
  {
    var tail := rows[1..];
    assert forall k :: 1 <= k < |rows| ==> tail[k - 1] == rows[k];
    if exists k :: 0 <= k < |rows| && RowRejects(rules, header, rows[k], setIndex, setValue, whereIndex, whereValue) &&
                   forall j :: 0 <= j < k ==> RowClears(rules, header, rows[j], setIndex, setValue, whereIndex, whereValue) {
      var k :| 0 <= k < |rows| && RowRejects(rules, header, rows[k], setIndex, setValue, whereIndex, whereValue) &&
               forall j :: 0 <= j < k ==> RowClears(rules, header, rows[j], setIndex, setValue, whereIndex, whereValue);
      if k > 0 {
        assert tail[k - 1] == rows[k];
      }
    }
    if RowClears(rules, header, rows[0], setIndex, setValue, whereIndex, whereValue) &&
       exists k :: 0 <= k < |tail| && RowRejects(rules, header, tail[k], setIndex, setValue, whereIndex, whereValue) &&
                   forall j :: 0 <= j < k ==> RowClears(rules, header, tail[j], setIndex, setValue, whereIndex, whereValue) {
      var k :| 0 <= k < |tail| && RowRejects(rules, header, tail[k], setIndex, setValue, whereIndex, whereValue) &&
               forall j :: 0 <= j < k ==> RowClears(rules, header, tail[j], setIndex, setValue, whereIndex, whereValue);
      assert rows[k + 1] == tail[k];
    }
  }

  /** UPDATE's checking loop lets the update through exactly when every
      data row clears, and stops it (False) exactly when the first row
      that does not clear is a matching row that fails the rules. It
      writes no table file, keeps the table's rules, and changes nothing
      at all when no record has to be rebuilt. */
  lemma {:induction false} UpdateScanMeaning(st: Store, table: string, header: seq<string>, rows: seq<Row>,
                                             setIndex: nat, setValue: string, whereIndex: nat, whereValue: string)
    requires table in st.files && st.files[table] != []
    ensures var scan := UpdateScan(st, table, header, rows, setIndex, setValue, whereIndex, whereValue);
            var rules := RulesOf(st, table);
            scan.store.files == st.files && RulesOf(scan.store, table) == rules &&
            (st.schema.None? || table in st.schema.value ==> scan.store == st) &&
            (scan.out == Ok(true) <==>
               forall k :: 0 <= k < |rows| ==> RowClears(rules, header, rows[k], setIndex, setValue, whereIndex, whereValue)) &&
            (scan.out == Ok(false) <==>
               exists k :: 0 <= k < |rows| && RowRejects(rules, header, rows[k], setIndex, setValue, whereIndex, whereValue) &&
                           forall j :: 0 <= j < k ==> RowClears(rules, header, rows[j], setIndex, setValue, whereIndex, whereValue))
    decreases |rows|
  {
    if rows != [] {
      var rules := RulesOf(st, table);
      var row := rows[0];
      ClearsCons(rules, header, rows, setIndex, setValue, whereIndex, whereValue);
      if whereIndex < |row| && row[whereIndex] != whereValue {
        UpdateScanMeaning(st, table, header, rows[1..], setIndex, setValue, whereIndex, whereValue);
      } else if whereIndex < |row| && setIndex < |row| {
        var checked := ValidateEffect(st, table, header, row[setIndex := setValue]);
        ValidateUnderRules(st, table, header, row[setIndex := setValue]);
        if checked.out == Ok(true) {
          UpdateScanMeaning(checked.store, table, header, rows[1..], setIndex, setValue, whereIndex, whereValue);
        }
      }
    }
  }

  /** What UPDATE does once its file and columns are found. It finishes
      exactly when there is a data row, the last data row has the
      set-field, and every data row clears the checks; it then rewrites
      only the last data row, with the new value in its set-field. It
      answers None, having written nothing, exactly when the first row
      that does not clear is a matching row that fails the rules. */
  lemma UpdateMeaning(st: Store, table: string, a: ColumnValue, c: ColumnValue)
    requires table in st.files && st.files[table] != []
    requires a.column in st.files[table][0] && c.column in st.files[table][0]
    ensures var e := UpdateEffect(st, table, a, c);
            var header := st.files[table][0];
            var rows := st.files[table][1..];
            var setIndex := IndexOf(header, a.column).value;
            var whereIndex := IndexOf(header, c.column).value;
            var rules := RulesOf(st, table);
            (e.out == Ok(Printed(UpdatedRows)) <==>
               |rows| > 0 && setIndex < |rows[|rows| - 1]| &&
               forall k :: 0 <= k < |rows| ==> RowClears(rules, header, rows[k], setIndex, a.value, whereIndex, c.value)) &&
            (e.out == Ok(Nothing) <==>
               exists k :: 0 <= k < |rows| && RowRejects(rules, header, rows[k], setIndex, a.value, whereIndex, c.value) &&
                           forall j :: 0 <= j < k ==> RowClears(rules, header, rows[j], setIndex, a.value, whereIndex, c.value)) &&
            (e.out == Ok(Printed(UpdatedRows)) ==>
               e.store.files == st.files[table := [header] + rows[|rows| - 1 := rows[|rows| - 1][setIndex := a.value]]]) &&
            (e.out != Ok(Printed(UpdatedRows)) ==> e.store.files == st.files) &&
            (st.schema.None? || table in st.schema.value ==> e.store.schema == st.schema)
  {
    var header := st.files[table][0];
    var rows := st.files[table][1..];
    UpdateScanMeaning(st, table, header, rows, IndexOf(header, a.column).value, a.value,
                      IndexOf(header, c.column).value, c.value);
  }

  /** An UPDATE that does not finish leaves every table file as it was
      (its checks may still have rebuilt the catalog record). */
  lemma UpdateAbortKeepsFiles(st: Store, table: string, a: ColumnValue, c: ColumnValue)
    requires UpdateEffect(st, table, a, c).out != Ok(Printed(UpdatedRows))
    ensures UpdateEffect(st, table, a, c).store.files == st.files
  {
    if table in st.files && st.files[table] != [] {
      var header := st.files[table][0];
      if a.column in header && c.column in header {
        UpdateScanKeepsFiles(st, table, header, st.files[table][1..], IndexOf(header, a.column).value, a.value,
                             IndexOf(header, c.column).value, c.value);
      }
    }
  }

  /** A finished UPDATE rewrites only this table's file, keeps its header
      and its length, and changes only the last data row, whose set-field
      becomes the new value, whether or not that row matched the
      condition. It needs at least one data row. */
  lemma UpdateOnlyLastRow(st: Store, table: string, a: ColumnValue, c: ColumnValue)
    requires UpdateEffect(st, table, a, c).out == Ok(Printed(UpdatedRows))
    ensures var after := UpdateEffect(st, table, a, c).store.files;
            var before := st.files[table];
            var setIndex := IndexOf(before[0], a.column).value;
            table in after && |before| >= 2 && |after[table]| == |before| &&
            (forall k :: 0 <= k < |before| - 1 ==> after[table][k] == before[k]) &&
            setIndex < |before[|before| - 1]| &&
            after[table][|before| - 1] == before[|before| - 1][setIndex := a.value] &&
            (forall t :: t != table ==> (t in after <==> t in st.files)) &&
            (forall t :: t != table && t in st.files ==> after[t] == st.files[t])
  {
    var header := st.files[table][0];
    var rows := st.files[table][1..];
    var setIndex := IndexOf(header, a.column).value;
    var whereIndex := IndexOf(header, c.column).value;
    UpdateScanKeepsFiles(st, table, header, rows, setIndex, a.value, whereIndex, c.value);
    var after := UpdateEffect(st, table, a, c).store.files;
    var last := rows[|rows| - 1];
    assert after[table] == [header] + rows[|rows| - 1 := last[setIndex := a.value]];
  }

  /** With a header and no data rows, an UPDATE whose columns exist fails
      on the unbound loop variable. */
  lemma UpdateWithoutRows(st: Store, table: string, a: ColumnValue, c: ColumnValue)
    requires table in st.files && |st.files[table]| == 1
    requires a.column in st.files[table][0] && c.column in st.files[table][0]
    ensures UpdateEffect(st, table, a, c) == Effect(st, Raise(NameError))
  {
    assert st.files[table][1..] == [];
  }

  /** The assignment lands on the last row, not on the matching one:
      updating id 1 of a two-row table whose catalog record knows the
      table writes the new name into the row of id 2. */
  lemma UpdateWritesLastRow()
    ensures var entry := SchemaEntry(["id", "name"], map["id" := "int", "name" := "str"], Some("id"), []);
            var st := Store(Some(map["users" := entry]),
                            map["users" := [["id", "name"], ["1", "Bob"], ["2", "Eve"]]]);
            var e := UpdateEffect(st, "users", ColumnValue("name", "Al"), ColumnValue("id", "1"));
            e.out == Ok(Printed(UpdatedRows)) &&
            e.store.files["users"] == [["id", "name"], ["1", "Bob"], ["2", "Al"]]
  {
    var entry := SchemaEntry(["id", "name"], map["id" := "int", "name" := "str"], Some("id"), []);
    var st := Store(Some(map["users" := entry]), map["users" := [["id", "name"], ["1", "Bob"], ["2", "Eve"]]]);
    var header := ["id", "name"];
    var rows := [["1", "Bob"], ["2", "Eve"]];
    assert st.files["users"][1..] == rows;
    assert IndexOf(header, "name") == Some(1);
    assert IndexOf(header, "id") == Some(0);
    var types := entry.types;
    assert rows[0][1 := "Al"] == ["1", "Al"];
    assert rows[1][1 := "Al"] == ["2", "Al"];
    assert IsDigits("1") && IsAlpha("Al");
    RowVerdictMeaning(types, header, ["1", "Al"]);
    assert RowClears(Some(types), header, rows[0], 1, "Al", 0, "1");
    assert RowClears(Some(types), header, rows[1], 1, "Al", 0, "1");
    UpdateMeaning(st, "users", ColumnValue("name", "Al"), ColumnValue("id", "1"));
    assert rows[|rows| - 1 := rows[1][1 := "Al"]] == [["1", "Bob"], ["2", "Al"]];
  }

  // ---------------------------------------------------------------------
  // The plan and the statements

  /** Whatever MAKE leaves behind, the planner's full-scan cost for the
      new table counts its header line, and each successful INSERT adds
      one. */
  lemma CountAfterCreateAndInsert(st: Store, table: string, columns: seq<string>, values: seq<string>)
    requires CreateTableEffect(st, table, columns).out.Ok?
    requires InsertEffect(CreateTableEffect(st, table, columns).store, table, values).out == Ok(Message(Inserted))
    ensures var created := CreateTableEffect(st, table, columns).store;
            CountRows(created, table) == 1 &&
            CountRows(InsertEffect(created, table, values).store, table) == 2
  {
    CreateTableOnlyThisTable(st, table, columns);
  }
}
