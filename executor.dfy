/** The executor: runs a parsed command against the storage directory.
    INSERT appends a row after checking it, SELECT filters the file's
    lines, DELETE and UPDATE rewrite the whole file, DROP removes the
    table and its catalog record. The planner's plan is accepted and
    ignored. */
module Executor {
  import opened Outcomes
  import opened Text
  import opened Parser
  import opened Storage
  import opened Optimizer

  // ---------------------------------------------------------------------
  // What a statement answers

  /** The error and success strings INSERT returns. */
  datatype Status =
    | TableMissing                              // "Error: Table does not exist"
    | CountMismatch(expected: nat, got: nat)    // "Error: Expected {expected} values, got {got}"
    | ConstraintViolation                       // "Error: Constraint violation"
    | Inserted                                  // "Inserted Successfully"

  /** The closing messages the statements that return None print. */
  datatype Notice =
    | TableNotFound      // "Table not found"
    | ColumnNotFound     // "Column not found"
    | DeletedRows        // "Deleted Successfully"
    | NoMatchingRecord   // "No matching record found"
    | UpdatedRows        // "Updated Successfully"
    | TableRemoved       // "Table '{table}' removed successfully."

  /** What execute_query hands back: None, an INSERT string, the list of
      lines a SELECT returns, or None after printing a closing message. */
  datatype Reply =
    | Nothing
    | Message(status: Status)
    | Lines(lines: seq<string>)
    | Printed(notice: Notice)

  // ---------------------------------------------------------------------
  // Constraint rules

  /** types.get(col) == "int". */
  predicate DeclaredInt(types: map<string, string>, col: string) {
    col in types && types[col] == "int"
  }

  /** The rules validate_constraints applies to the value of one column.
      They stack: a column named age that is declared int must satisfy
      both rules. */
  predicate ValueFits(types: map<string, string>, col: string, value: string) {
    (DeclaredInt(types, col) ==> IsDigits(value)) &&
    (col == "name" ==> IsAlpha(value)) &&
    (col == "age" ==> IsDigits(value) && DigitsValue(value) > 0) &&
    (col == "mobile" ==> |value| == 10 && IsDigits(value))
  }

  /** validate_constraints' loop over the header: the first column whose
      value breaks a rule gives False; a row shorter than the header
      raises on the first missing value. */
  function RowVerdict(types: map<string, string>, header: seq<string>, values: seq<string>): (r: Outcome<bool>)
    ensures r.Raise? ==> r.fault == IndexError && |values| < |header|
    ensures |header| <= |values| ==> r.Ok?
    decreases |header|
  {
    if header == [] then Ok(true)
    else if values == [] then Raise(IndexError)
    else if !ValueFits(types, header[0], values[0]) then Ok(false)
    else RowVerdict(types, header[1..], values[1..])
  }

  /** A row passes exactly when it has a value for every column and every
      value fits its column; it raises exactly when it is too short and
      no value before the end breaks a rule. */
  lemma {:induction false} RowVerdictMeaning(types: map<string, string>, header: seq<string>, values: seq<string>)
    ensures RowVerdict(types, header, values) == Ok(true) <==>
              |header| <= |values| && forall i :: 0 <= i < |header| ==> ValueFits(types, header[i], values[i])
    ensures RowVerdict(types, header, values).Raise? <==>
              |values| < |header| && forall i :: 0 <= i < |values| ==> ValueFits(types, header[i], values[i])
    ensures RowVerdict(types, header, values).Raise? ==> RowVerdict(types, header, values).fault == IndexError
    decreases |header|
  {
    if header != [] && values != [] {
      RowVerdictMeaning(types, header[1..], values[1..]);
      if ValueFits(types, header[0], values[0]) {
        assert forall i :: 1 <= i < |header| ==> header[1..][i - 1] == header[i];
        assert forall i :: 1 <= i < |values| ==> values[1..][i - 1] == values[i];
      }
    }
  }

  /** The loop of validate_constraints, column by column. */
  method CheckRow(types: map<string, string>, header: seq<string>, values: seq<string>) returns (r: Outcome<bool>)
    ensures r == RowVerdict(types, header, values)
  {
    for i := 0 to |header|
      invariant i <= |values|
      invariant RowVerdict(types, header, values) == RowVerdict(types, header[i..], values[i..])
    {
      if i >= |values| {
        return Raise(IndexError);
      }
      var col := header[i];
      var value := values[i];
      assert header[i..][1..] == header[i + 1..] && values[i..][1..] == values[i + 1..];
      if col in types && types[col] == "int" && !IsDigits(value) {
        return Ok(false);
      }
      if col == "name" && !IsAlpha(value) {
        return Ok(false);
      }
      if col == "age" && (!IsDigits(value) || DigitsValue(value) <= 0) {
        return Ok(false);
      }
      if col == "mobile" && !(|value| == 10 && IsDigits(value)) {
        return Ok(false);
      }
    }
    r := Ok(true);
  }

  // ---------------------------------------------------------------------
  // Validation against the storage directory

  /** The executor's own load_schema_from_csv: read the table's header and
      merge a header-only record for it into the catalog (an empty one
      when schema.json is absent), keeping every other record. */
  function MergeSchemaEffect(st: Store, table: string): (e: Effect<Catalog>)
    ensures e.out.Raise? ==> e.store == st
    ensures table !in st.files ==> e.out == Raise(FileNotFound)
    ensures table in st.files && st.files[table] == [] ==> e.out == Raise(IndexError)
    ensures table in st.files && st.files[table] != [] ==> e.out.Ok?
    ensures e.out.Ok? ==>
              table in st.files && st.files[table] != [] &&
              e.store == Store(Some(e.out.value), st.files) &&
              table in e.out.value && e.out.value[table] == HeaderEntry(st.files[table][0]) &&
              (forall t :: t != table ==>
                 (t in e.out.value <==> st.schema.Some? && t in st.schema.value)) &&
              (forall t :: t != table && t in e.out.value ==> e.out.value[t] == st.schema.value[t])
  {
    if table !in st.files then Effect(st, Raise(FileNotFound))
    else if st.files[table] == [] then Effect(st, Raise(IndexError))
    else
      var catalog := CatalogOrEmpty(st.schema)[table := HeaderEntry(st.files[table][0])];
      Effect(Store(Some(catalog), st.files), Ok(catalog))
  }

  /** validate_constraints(table, header, values): False without a
      catalog, or when the table is in neither the catalog nor storage; a
      table with a file but no record gets its record rebuilt first, and
      the row is then checked against the record's types. */
  function ValidateEffect(st: Store, table: string, header: seq<string>, values: seq<string>): (e: Effect<bool>)
    ensures e.store.files == st.files
    ensures st.schema.None? ==> e == Effect(st, Ok(false))
    ensures st.schema.Some? && table !in st.schema.value && table !in st.files ==> e == Effect(st, Ok(false))
    ensures st.schema.Some? && table in st.schema.value ==>
              e == Effect(st, RowVerdict(st.schema.value[table].types, header, values))
    ensures st.schema.Some? && table !in st.schema.value && table in st.files && st.files[table] != [] ==>
              e.store.schema == Some(st.schema.value[table := HeaderEntry(st.files[table][0])]) &&
              e.out == RowVerdict(map[], header, values)
  {
    if st.schema.None? then Effect(st, Ok(false))
    else
      var catalog := st.schema.value;
      if table in catalog then Effect(st, RowVerdict(catalog[table].types, header, values))
      else if table !in st.files then Effect(st, Ok(false))
      else
        var merged := MergeSchemaEffect(st, table);
        match merged.out
        case Raise(f) => Effect(merged.store, Raise(f))
        case Ok(rebuilt) => Effect(merged.store, RowVerdict(rebuilt[table].types, header, values))
  }

  /** executor.load_schema_from_csv(table). */
  method MergeSchemaFromCsv(disk: Disk, table: string) returns (r: Outcome<Catalog>)
    modifies disk
    ensures Effect(disk.Snapshot(), r) == MergeSchemaEffect(old(disk.Snapshot()), table)
  {
    if table !in disk.files {
      return Raise(FileNotFound);
    }
    var reader := disk.files[table];
    if reader == [] {
      return Raise(IndexError);
    }
    var header := reader[0];
    var existing := if disk.schema.Some? then disk.schema.value else map[];
    existing := existing[table := HeaderEntry(header)];
    disk.schema := Some(existing);
    r := Ok(existing);
  }

  /** validate_constraints(table, header, row_values). */
  method ValidateConstraints(disk: Disk, table: string, header: seq<string>, values: seq<string>)
    returns (r: Outcome<bool>)
    modifies disk
    ensures Effect(disk.Snapshot(), r) == ValidateEffect(old(disk.Snapshot()), table, header, values)
  {
    if disk.schema.None? {
      return Ok(false);
    }
    var catalog := disk.schema.value;
    if table !in catalog {
      if table in disk.files {
        var rebuilt := MergeSchemaFromCsv(disk, table);
        if rebuilt.Raise? {
          return Raise(rebuilt.fault);
        }
        catalog := rebuilt.value;
      } else {
        return Ok(false);
      }
    }
    r := CheckRow(catalog[table].types, header, values);
  }

  // ---------------------------------------------------------------------
  // INSERT

  /** The INSERT branch: a missing table and a wrong value count are
      answered with an error string, a failing check with another; only a
      row that passes is appended. Checking may rebuild the table's
      catalog record, even when the row is then rejected. */
  function InsertEffect(st: Store, table: string, values: seq<string>): (e: Effect<Reply>)
    ensures e.out == Ok(Message(Inserted)) <==>
              table in st.files && st.files[table] != [] && |values| == |st.files[table][0]| &&
              ValidateEffect(st, table, st.files[table][0], values).out == Ok(true)
    ensures e.out == Ok(Message(Inserted)) ==> e.store.files == st.files[table := st.files[table] + [values]]
    ensures e.out != Ok(Message(Inserted)) ==> e.store.files == st.files
    ensures table !in st.files ==> e == Effect(st, Ok(Message(TableMissing)))
    ensures table in st.files && st.files[table] == [] ==> e == Effect(st, Raise(IndexError))
    ensures table in st.files && st.files[table] != [] && |values| != |st.files[table][0]| ==>
              e == Effect(st, Ok(Message(CountMismatch(|st.files[table][0]|, |values|))))
    ensures table in st.files && st.files[table] != [] && |values| == |st.files[table][0]| ==>
              var checked := ValidateEffect(st, table, st.files[table][0], values);
              e.store.schema == checked.store.schema &&
              (checked.out == Ok(false) ==> e.out == Ok(Message(ConstraintViolation))) &&
              (checked.out.Raise? ==> e.out == Raise(checked.out.fault))
  {
    if table !in st.files then Effect(st, Ok(Message(TableMissing)))
    else if st.files[table] == [] then Effect(st, Raise(IndexError))
    else
      var header := st.files[table][0];
      if |values| != |header| then Effect(st, Ok(Message(CountMismatch(|header|, |values|))))
      else
        var checked := ValidateEffect(st, table, header, values);
        match checked.out
        case Raise(f) => Effect(checked.store, Raise(f))
        case Ok(false) => Effect(checked.store, Ok(Message(ConstraintViolation)))
        case Ok(true) =>
          Effect(Store(checked.store.schema, st.files[table := st.files[table] + [values]]), Ok(Message(Inserted)))
  }

  method Insert(disk: Disk, table: string, values: seq<string>) returns (r: Outcome<Reply>)
    modifies disk
    ensures Effect(disk.Snapshot(), r) == InsertEffect(old(disk.Snapshot()), table, values)
  {
    if table !in disk.files {
      return Ok(Message(TableMissing));
    }
    var reader := disk.files[table];
    if reader == [] {
      return Raise(IndexError);
    }
    var header := reader[0];
    if |values| != |header| {
      return Ok(Message(CountMismatch(|header|, |values|)));
    }
    var ok := ValidateConstraints(disk, table, header, values);
    if ok.Raise? {
      return Raise(ok.fault);
    }
    if !ok.value {
      return Ok(Message(ConstraintViolation));
    }
    disk.files := disk.files[table := disk.files[table] + [values]];
    r := Ok(Message(Inserted));
  }

  // ---------------------------------------------------------------------
  // Filtering a list

  /** Every element satisfies p. */
  predicate All<T>(xs: seq<T>, p: T -> bool) {
    forall k :: 0 <= k < |xs| ==> p(xs[k])
  }

  /** [x for x in xs if keep(x)]. */
  function Filter<T>(xs: seq<T>, keep: T -> bool): seq<T> {
    if xs == [] then []
    else Filter(xs[..|xs| - 1], keep) + (if keep(xs[|xs| - 1]) then [xs[|xs| - 1]] else [])
  }

  lemma AllSnoc<T>(xs: seq<T>, x: T, p: T -> bool)
    ensures All(xs + [x], p) <==> All(xs, p) && p(x)
  {
    assert forall k :: 0 <= k < |xs| ==> (xs + [x])[k] == xs[k];
    assert (xs + [x])[|xs|] == x;
  }

  lemma FilterSnoc<T>(xs: seq<T>, x: T, keep: T -> bool)
    ensures Filter(xs + [x], keep) == Filter(xs, keep) + (if keep(x) then [x] else [])
  {
    assert (xs + [x])[..|xs|] == xs;
  }

  /** Filtering distributes over concatenation, so the kept elements keep
      their relative order. */
  lemma {:induction false} FilterConcat<T>(a: seq<T>, b: seq<T>, keep: T -> bool)
    ensures Filter(a + b, keep) == Filter(a, keep) + Filter(b, keep)
    decreases |b|
  {
    if b == [] {
      assert a + b == a;
    } else {
      var init := b[..|b| - 1];
      var last := b[|b| - 1];
      assert b == init + [last];
      assert a + b == (a + init) + [last];
      FilterConcat(a, init, keep);
      FilterSnoc(a + init, last, keep);
      FilterSnoc(init, last, keep);
    }
  }

  /** An element is kept exactly when it is in the list and satisfies keep. */
  lemma {:induction false} FilterMembers<T>(xs: seq<T>, keep: T -> bool, x: T)
    ensures x in Filter(xs, keep) <==> x in xs && keep(x)
  {
    if xs != [] {
      var init := xs[..|xs| - 1];
      assert xs == init + [xs[|xs| - 1]];
      FilterMembers(init, keep, x);
    }
  }

  /** The filter keeps the whole list exactly when every element passes;
      otherwise it is strictly shorter. */
  lemma {:induction false} FilterKeepsAll<T>(xs: seq<T>, keep: T -> bool)
    ensures |Filter(xs, keep)| <= |xs|
    ensures All(xs, keep) ==> Filter(xs, keep) == xs
    ensures !All(xs, keep) ==> |Filter(xs, keep)| < |xs|
  {
    if xs != [] {
      var init := xs[..|xs| - 1];
      var last := xs[|xs| - 1];
      assert xs == init + [last];
      FilterKeepsAll(init, keep);
      AllSnoc(init, last, keep);
    }
  }

  /** Filtering twice keeps what filtering once kept. */
  lemma {:induction false} FilterTwice<T>(xs: seq<T>, keep: T -> bool)
    ensures Filter(Filter(xs, keep), keep) == Filter(xs, keep)
  {
    if xs != [] {
      var init := xs[..|xs| - 1];
      var last := xs[|xs| - 1];
      FilterTwice(init, keep);
      if keep(last) {
        assert Filter(xs, keep) == Filter(init, keep) + [last];
        FilterSnoc(Filter(init, keep), last, keep);
      } else {
        assert Filter(init, keep) + [] == Filter(init, keep);
        assert Filter(xs, keep) == Filter(init, keep);
      }
    }
  }

  // ---------------------------------------------------------------------
  // SELECT

  /** The text line csv.writer stores for a row (no field needs quoting). */
  function Line(row: Row): string {
    Join(row, ",") + "\n"
  }

  /** row.strip(): the line as SELECT returns it. */
  function Shown(row: Row): string {
    Strip(Line(row))
  }

  /** row.strip().split(","): the fields SELECT compares. */
  function Fields(row: Row): seq<string> {
    Split(Shown(row), ',')
  }

  function ShownAll(rows: seq<Row>): (r: seq<string>)
    ensures |r| == |rows| && forall k :: 0 <= k < |rows| ==> r[k] == Shown(rows[k])
  {
    seq(|rows|, k requires 0 <= k < |rows| => Shown(rows[k]))
  }

  /** The line has a field at the index. */
  predicate HasField(row: Row, index: nat) {
    index < |Fields(row)|
  }

  /** The line's field at the index equals the value. */
  predicate Hits(row: Row, index: nat, value: string) {
    HasField(row, index) && Fields(row)[index] == value
  }

  /** Every line has a field at the index. */
  predicate Wide(rows: seq<Row>, index: nat) {
    All(rows, row => HasField(row, index))
  }

  /** The rows whose field at the index equals the value, in file order. */
  function Matching(rows: seq<Row>, index: nat, value: string): seq<Row> {
    Filter(rows, row => Hits(row, index, value))
  }

  /** The filtered SELECT: the matching lines, or IndexError when some line
      has no field at the index. */
  function Picked(rows: seq<Row>, index: nat, value: string): Outcome<seq<string>> {
    if Wide(rows, index) then Ok(ShownAll(Matching(rows, index, value))) else Raise(IndexError)
  }

  lemma ShownAllConcat(a: seq<Row>, b: seq<Row>)
    ensures ShownAll(a + b) == ShownAll(a) + ShownAll(b)
  {
  }

  /** The filter loop of SELECT. */
  method SelectScan(rows: seq<Row>, index: nat, value: string) returns (r: Outcome<seq<string>>)
    ensures r == Picked(rows, index, value)
  {
    var result: seq<string> := [];
    for i := 0 to |rows|
      invariant Wide(rows[..i], index)
      invariant result == ShownAll(Matching(rows[..i], index, value))
    {
      var data := Fields(rows[i]);
      if index >= |data| {
        return Raise(IndexError);
      }
      assert rows[..i + 1] == rows[..i] + [rows[i]];
      FilterSnoc(rows[..i], rows[i], row => Hits(row, index, value));
      AllSnoc(rows[..i], rows[i], row => HasField(row, index));
      ShownAllConcat(Matching(rows[..i], index, value), if data[index] == value then [rows[i]] else []);
      if data[index] == value {
        result := result + [Shown(rows[i])];
      }
    }
    assert rows[..|rows|] == rows;
    r := Ok(result);
  }

  /** The SELECT branch: every line of the file without a filter, the
      header included; with one, the column's position in the catalog
      record decides which field is compared. A missing file prints "Table
      not found"; a missing catalog, record or column raises. */
  function SelectAnswer(st: Store, table: string, filter: Option<ColumnValue>): (r: Outcome<Reply>)
    ensures table !in st.files ==> r == Ok(Printed(TableNotFound))
    ensures table in st.files && filter.None? ==> r == Ok(Lines(ShownAll(st.files[table])))
    ensures table in st.files && filter.Some? && st.schema.None? ==> r == Raise(FileNotFound)
    ensures table in st.files && filter.Some? && st.schema.Some? && table !in st.schema.value ==> r == Raise(KeyError)
    ensures (table in st.files && filter.Some? && st.schema.Some? && table in st.schema.value &&
             filter.value.column !in st.schema.value[table].columns) ==> r == Raise(ValueError)
    ensures (table in st.files && filter.Some? && st.schema.Some? && table in st.schema.value &&
             filter.value.column in st.schema.value[table].columns) ==>
              var index := IndexOf(st.schema.value[table].columns, filter.value.column).value;
              r == if Wide(st.files[table], index)
                   then Ok(Lines(ShownAll(Matching(st.files[table], index, filter.value.value))))
                   else Raise(IndexError)
    ensures r.Ok? && r.value.Lines? && filter.Some? ==>
              st.schema.Some? && table in st.schema.value && table in st.files &&
              filter.value.column in st.schema.value[table].columns &&
              var index := IndexOf(st.schema.value[table].columns, filter.value.column).value;
              Wide(st.files[table], index) &&
              r.value.lines == ShownAll(Matching(st.files[table], index, filter.value.value))
  {
    if table !in st.files then Ok(Printed(TableNotFound))
    else if filter.None? then Ok(Lines(ShownAll(st.files[table])))
    else if st.schema.None? then Raise(FileNotFound)
    else if table !in st.schema.value then Raise(KeyError)
    else
      match IndexOf(st.schema.value[table].columns, filter.value.column)
      case None => Raise(ValueError)
      case Some(index) =>
        var lines :- Picked(st.files[table], index, filter.value.value);
        Ok(Lines(lines))
  }

  method Select(disk: Disk, table: string, filter: Option<ColumnValue>) returns (r: Outcome<Reply>)
    ensures r == SelectAnswer(disk.Snapshot(), table, filter)
  {
    if table !in disk.files {
      return Ok(Printed(TableNotFound));
    }
    var rows := disk.files[table];
    if filter.None? {
      return Ok(Lines(ShownAll(rows)));
    }
    if disk.schema.None? {
      return Raise(FileNotFound);
    }
    if table !in disk.schema.value {
      return Raise(KeyError);
    }
    var index := IndexOf(disk.schema.value[table].columns, filter.value.column);
    if index.None? {
      return Raise(ValueError);
    }
    var lines := SelectScan(rows, index.value, filter.value.value);
    if lines.Raise? {
      return Raise(lines.fault);
    }
    r := Ok(Lines(lines.value));
  }

  // ---------------------------------------------------------------------
  // DELETE

  /** Every row has a field at the index. */
  predicate Long(rows: seq<Row>, index: nat) {
    All(rows, row => index < |row|)
  }

  /** The row's field at the index equals the value. */
  predicate Equals(row: Row, index: nat, value: string) {
    index < |row| && row[index] == value
  }

  /** Some row's field at the index equals the value. */
  predicate AnyMatch(rows: seq<Row>, index: nat, value: string) {
    exists k :: 0 <= k < |rows| && Equals(rows[k], index, value)
  }

  /** The rows DELETE keeps: those whose field differs from the value. */
  function Kept(rows: seq<Row>, index: nat, value: string): seq<Row> {
    Filter(rows, row => !Equals(row, index, value))
  }

  /** DELETE's loop: the kept rows and whether any row was deleted; a row
      without a field at the index raises. */
  method DeleteScan(rows: seq<Row>, index: nat, value: string) returns (r: Outcome<(seq<Row>, bool)>)
    ensures Long(rows, index) ==> r == Ok((Kept(rows, index, value), AnyMatch(rows, index, value)))
    ensures !Long(rows, index) ==> r == Raise(IndexError)
  {
    var kept: seq<Row> := [];
    var deleted := false;
    for i := 0 to |rows|
      invariant Long(rows[..i], index)
      invariant kept == Kept(rows[..i], index, value)
      invariant deleted == AnyMatch(rows[..i], index, value)
    {
      var row := rows[i];
      if index >= |row| {
        return Raise(IndexError);
      }
      assert rows[..i + 1] == rows[..i] + [row];
      FilterSnoc(rows[..i], row, row => !Equals(row, index, value));
      AllSnoc(rows[..i], row, row => index < |row|);
      if row[index] != value {
        kept := kept + [row];
      } else {
        deleted := true;
      }
    }
    assert rows[..|rows|] == rows;
    r := Ok((kept, deleted));
  }

  /** The DELETE branch: the file is rewritten as its header followed by
      the kept rows; a missing table or an unknown column prints a notice
      and changes nothing. */
  function DeleteEffect(st: Store, table: string, condition: ColumnValue): (e: Effect<Reply>)
    ensures e.store.schema == st.schema
    ensures forall t :: t != table ==> (t in e.store.files <==> t in st.files)
    ensures forall t :: t != table && t in st.files ==> e.store.files[t] == st.files[t]
    ensures table !in st.files ==> e == Effect(st, Ok(Printed(TableNotFound)))
    ensures table in st.files && st.files[table] != [] && condition.column !in st.files[table][0] ==>
              e == Effect(st, Ok(Printed(ColumnNotFound)))
    ensures table in st.files && st.files[table] == [] ==> e == Effect(st, Raise(IndexError))
    ensures table in st.files && st.files[table] != [] && condition.column in st.files[table][0] ==>
              var header := st.files[table][0];
              var rows := st.files[table][1..];
              var index := IndexOf(header, condition.column).value;
              (!Long(rows, index) ==> e == Effect(st, Raise(IndexError))) &&
              (Long(rows, index) ==>
                 e.store == Store(st.schema, st.files[table := [header] + Kept(rows, index, condition.value)]) &&
                 e.out == Ok(Printed(if AnyMatch(rows, index, condition.value) then DeletedRows else NoMatchingRecord)))
  {
    if table !in st.files then Effect(st, Ok(Printed(TableNotFound)))
    else if st.files[table] == [] then Effect(st, Raise(IndexError))
    else
      var header := st.files[table][0];
      var rows := st.files[table][1..];
      match IndexOf(header, condition.column)
      case None => Effect(st, Ok(Printed(ColumnNotFound)))
      case Some(index) =>
        if !Long(rows, index) then Effect(st, Raise(IndexError))
        else
          var notice := if AnyMatch(rows, index, condition.value) then DeletedRows else NoMatchingRecord;
          Effect(Store(st.schema, st.files[table := [header] + Kept(rows, index, condition.value)]), Ok(Printed(notice)))
  }

  method Delete(disk: Disk, table: string, condition: ColumnValue) returns (r: Outcome<Reply>)
    modifies disk
    ensures Effect(disk.Snapshot(), r) == DeleteEffect(old(disk.Snapshot()), table, condition)
  {
    if table !in disk.files {
      return Ok(Printed(TableNotFound));
    }
    var reader := disk.files[table];
    if reader == [] {
      return Raise(IndexError);
    }
    var header := reader[0];
    var rows := reader[1..];
    var index := IndexOf(header, condition.column);
    if index.None? {
      return Ok(Printed(ColumnNotFound));
    }
    var scan := DeleteScan(rows, index.value, condition.value);
    if scan.Raise? {
      return Raise(scan.fault);
    }
    var (kept, deleted) := scan.value;
    disk.files := disk.files[table := [header] + kept];
    r := Ok(Printed(if deleted then DeletedRows else NoMatchingRecord));
  }

  // ---------------------------------------------------------------------
  // DROP

  /** The DROP branch: the catalog record and the table file are removed
      where they exist; the closing message is printed either way. */
  function DropEffect(st: Store, table: string): (e: Effect<Reply>)
    ensures e.out == Ok(Printed(TableRemoved))
    ensures table !in e.store.files && (e.store.schema.Some? ==> table !in e.store.schema.value)
    ensures e.store.schema.None? <==> st.schema.None?
    ensures forall t :: t != table ==> (t in e.store.files <==> t in st.files)
    ensures forall t :: t != table && t in st.files ==> e.store.files[t] == st.files[t]
    ensures st.schema.Some? ==>
              forall t :: t != table ==>
                (t in e.store.schema.value <==> t in st.schema.value) &&
                (t in st.schema.value ==> e.store.schema.value[t] == st.schema.value[t])
  {
    var schema := if st.schema.Some? && table in st.schema.value then Some(st.schema.value - {table}) else st.schema;
    Effect(Store(schema, st.files - {table}), Ok(Printed(TableRemoved)))
  }

  method DropTable(disk: Disk, table: string) returns (r: Outcome<Reply>)
    modifies disk
    ensures Effect(disk.Snapshot(), r) == DropEffect(old(disk.Snapshot()), table)
  {
    if disk.schema.Some? {
      var catalog := disk.schema.value;
      if table in catalog {
        disk.schema := Some(catalog - {table});
      }
    }
    if table in disk.files {
      disk.files := disk.files - {table};
    }
    r := Ok(Printed(TableRemoved));
  }

  // ---------------------------------------------------------------------
  // UPDATE

  /** UPDATE's loop over the data rows: a row whose where-field equals the
      value is copied with the set-field replaced and checked; a failed
      check ends the statement (False), and the rule check may rebuild
      the catalog record on the way. Rows without the fields raise. */
  function UpdateScan(st: Store, table: string, header: seq<string>, rows: seq<Row>,
                      setIndex: nat, setValue: string, whereIndex: nat, whereValue: string): Effect<bool>
    decreases |rows|
  {
    if rows == [] then Effect(st, Ok(true))
    else
      var row := rows[0];
      if whereIndex >= |row| then Effect(st, Raise(IndexError))
      else if row[whereIndex] != whereValue then
        UpdateScan(st, table, header, rows[1..], setIndex, setValue, whereIndex, whereValue)
      else if setIndex >= |row| then Effect(st, Raise(IndexError))
      else
        var checked := ValidateEffect(st, table, header, row[setIndex := setValue]);
        match checked.out
        case Raise(f) => Effect(checked.store, Raise(f))
        case Ok(false) => Effect(checked.store, Ok(false))
        case Ok(true) => UpdateScan(checked.store, table, header, rows[1..], setIndex, setValue, whereIndex, whereValue)
  }

  /** The rules validate_constraints applies to this table: None when
      schema.json is absent (every check then fails), the record's types
      when the catalog knows the table, and no types otherwise, since the
      first check rebuilds a header-only record. */
  function RulesOf(st: Store, table: string): Option<map<string, string>> {
    if st.schema.None? then None
    else if table in st.schema.value then Some(st.schema.value[table].types)
    else Some(map[])
  }

  /** The verdict of validate_constraints under those rules. */
  function Verdict(rules: Option<map<string, string>>, header: seq<string>, values: seq<string>): Outcome<bool> {
    if rules.None? then Ok(false) else RowVerdict(rules.value, header, values)
  }

  /** A data row UPDATE's checking loop moves past: it has the where-field,
      and when that field matches, it has the set-field and passes the
      rules with the new value in place. */
  predicate RowClears(rules: Option<map<string, string>>, header: seq<string>, row: Row,
                      setIndex: nat, setValue: string, whereIndex: nat, whereValue: string) {
    whereIndex < |row| &&
    (row[whereIndex] == whereValue ==>
       setIndex < |row| && Verdict(rules, header, row[setIndex := setValue]) == Ok(true))
  }

  /** A data row that stops UPDATE: it matches, has the set-field, and
      fails the rules with the new value in place. */
  predicate RowRejects(rules: Option<map<string, string>>, header: seq<string>, row: Row,
                       setIndex: nat, setValue: string, whereIndex: nat, whereValue: string) {
    whereIndex < |row| && row[whereIndex] == whereValue && setIndex < |row| &&
    Verdict(rules, header, row[setIndex := setValue]) == Ok(false)
  }

  /** The UPDATE branch as written: after the checking loop, the set
      column is assigned on the loop variable, which is the last data row
      whether or not it matched, and the file is rewritten. With no data
      rows the loop variable was never bound. A missing file or column
      raises. */
  function UpdateEffect(st: Store, table: string, assignment: ColumnValue, condition: ColumnValue): (e: Effect<Reply>)
    ensures table !in st.files ==> e == Effect(st, Raise(FileNotFound))
    ensures table in st.files && st.files[table] == [] ==> e == Effect(st, Raise(IndexError))
    ensures (table in st.files && st.files[table] != [] &&
             (assignment.column !in st.files[table][0] || condition.column !in st.files[table][0])) ==>
              e == Effect(st, Raise(ValueError))
  {
    if table !in st.files then Effect(st, Raise(FileNotFound))
    else if st.files[table] == [] then Effect(st, Raise(IndexError))
    else
      var header := st.files[table][0];
      var rows := st.files[table][1..];
      match IndexOf(header, assignment.column)
      case None => Effect(st, Raise(ValueError))
      case Some(setIndex) =>
        match IndexOf(header, condition.column)
        case None => Effect(st, Raise(ValueError))
        case Some(whereIndex) =>
          var scan := UpdateScan(st, table, header, rows, setIndex, assignment.value, whereIndex, condition.value);
          match scan.out
          case Raise(f) => Effect(scan.store, Raise(f))
          case Ok(false) => Effect(scan.store, Ok(Nothing))
          case Ok(true) =>
            if rows == [] then Effect(scan.store, Raise(NameError))
            else
              var last := rows[|rows| - 1];
              if setIndex >= |last| then Effect(scan.store, Raise(IndexError))
              else
                var written := rows[|rows| - 1 := last[setIndex := assignment.value]];
                Effect(Store(scan.store.schema, st.files[table := [header] + written]), Ok(Printed(UpdatedRows)))
  }

  method Update(disk: Disk, table: string, assignment: ColumnValue, condition: ColumnValue) returns (r: Outcome<Reply>)
    modifies disk
    ensures Effect(disk.Snapshot(), r) == UpdateEffect(old(disk.Snapshot()), table, assignment, condition)
  {
    if table !in disk.files {
      return Raise(FileNotFound);
    }
    var reader := disk.files[table];
    if reader == [] {
      return Raise(IndexError);
    }
    var header := reader[0];
    var rows := reader[1..];
    var setIndex := IndexOf(header, assignment.column);
    if setIndex.None? {
      return Raise(ValueError);
    }
    var whereIndex := IndexOf(header, condition.column);
    if whereIndex.None? {
      return Raise(ValueError);
    }
    ghost var start := disk.Snapshot();
    ghost var goal := UpdateScan(start, table, header, rows, setIndex.value, assignment.value,
                                 whereIndex.value, condition.value);
    var i := 0;
    while i < |rows|
      invariant 0 <= i <= |rows|
      invariant disk.files == start.files
      invariant goal == UpdateScan(disk.Snapshot(), table, header, rows[i..], setIndex.value, assignment.value,
                                   whereIndex.value, condition.value)
    {
      var row := rows[i];
      assert rows[i..][0] == row && rows[i..][1..] == rows[i + 1..];
      if whereIndex.value >= |row| {
        return Raise(IndexError);
      }
      if row[whereIndex.value] == condition.value {
        if setIndex.value >= |row| {
          return Raise(IndexError);
        }
        var newRow := row[setIndex.value := assignment.value];
        var ok := ValidateConstraints(disk, table, header, newRow);
        if ok.Raise? {
          return Raise(ok.fault);
        }
        if !ok.value {
          return Ok(Nothing);
        }
      }
      i := i + 1;
    }
    if rows == [] {
      return Raise(NameError);
    }
    var last := rows[|rows| - 1];
    if setIndex.value >= |last| {
      return Raise(IndexError);
    }
    rows := rows[|rows| - 1 := last[setIndex.value := assignment.value]];
    disk.files := disk.files[table := [header] + rows];
    r := Ok(Printed(UpdatedRows));
  }

  // ---------------------------------------------------------------------
  // execute_query

  /** execute_query(parsed_query, plan) as an effect on the directory. The
      plan is not a parameter: nothing the statement does depends on it.
      MAKE delegates to create_table and answers None. */
  function ExecuteEffect(st: Store, q: Command): (e: Effect<Reply>)
    ensures q.Select? ==> e.store == st
    ensures q.Create? ==> (e.out == Ok(Nothing) <==> CreateEntry(q.columns).Ok?)
    ensures q.Create? && e.out.Raise? ==> e.store == st
    ensures q.Drop? ==> e.out == Ok(Printed(TableRemoved))
  {
    match q
    case Create(table, columns) =>
      var created := CreateTableEffect(st, table, columns);
      Effect(created.store, if created.out.Ok? then Ok(Nothing) else Raise(created.out.fault))
    case Insert(table, values) => InsertEffect(st, table, values)
    case Select(table, filter) => Effect(st, SelectAnswer(st, table, filter))
    case Delete(table, condition) => DeleteEffect(st, table, condition)
    case Drop(table) => DropEffect(st, table)
    case Update(table, assignment, condition) => UpdateEffect(st, table, assignment, condition)
  }

  /** execute_query: whatever plan it is handed, the statement's effect is
      the same. */
  method ExecuteQuery(disk: Disk, q: Command, plan: Option<Plan>) returns (r: Outcome<Reply>)
    modifies disk
    ensures Effect(disk.Snapshot(), r) == ExecuteEffect(old(disk.Snapshot()), q)
  {
    match q
    case Create(table, columns) =>
      var created := disk.CreateTable(table, columns);
      r := if created.Ok? then Ok(Nothing) else Raise(created.fault);
    case Insert(table, values) =>
      r := Insert(disk, table, values);
    case Select(table, filter) =>
      r := Select(disk, table, filter);
    case Delete(table, condition) =>
      r := Delete(disk, table, condition);
    case Drop(table) =>
      r := DropTable(disk, table);
    case Update(table, assignment, condition) =>
      r := Update(disk, table, assignment, condition);
  }
}
