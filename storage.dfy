/** Table storage and the schema catalog. The storage directory holds one
    file per table, whose first row is the header, and the catalog
    document schema.json, which may be absent. `Disk` is that directory;
    `Store` is a snapshot of it as a value. */
module Storage {
  import opened Outcomes
  import opened Text

  type Row = seq<string>

  /** The rows of a table file; the first is the header. */
  type Table = seq<Row>

  /** A catalog record: the column order, the declared type of each
      column, the primary column and the indexed columns. */
  datatype SchemaEntry = SchemaEntry(
    columns: seq<string>,
    types: map<string, string>,
    primary: Option<string>,
    indexed: seq<string>)

  type Catalog = map<string, SchemaEntry>

  /** The storage directory: schema.json (None when the file is absent) and
      the table files by table name. */
  datatype Store = Store(schema: Option<Catalog>, files: map<string, Table>)

  /** What a step leaves behind: the new directory and what it answers. */
  datatype Effect<+T> = Effect(store: Store, out: Outcome<T>)

  /** The catalog as loaded by a writer: schema.json's contents, or an empty
      catalog when the file is absent. */
  function CatalogOrEmpty(schema: Option<Catalog>): Catalog {
    if schema.Some? then schema.value else map[]
  }

  /** The record rebuilt from a table file's header alone: no types, no
      primary column, no indexed columns. */
  function HeaderEntry(header: Row): SchemaEntry {
    SchemaEntry(header, map[], None, [])
  }

  // ---------------------------------------------------------------------
  // Column specifications

  /** One item of MAKE's list, `name:type [PRIMARY] [INDEX]`, decoded. */
  datatype ColumnSpec = ColumnSpec(name: string, declType: string, primary: bool, indexed: bool)

  /** The body of create_table's loop for one item. */
  function ParseColumnSpec(col: string): Outcome<ColumnSpec> {
    match FirstWord(col)
    case None => Raise(IndexError)
    case Some(word) =>
      match SplitTwo(word, ':')
      case None => Raise(ValueError)
      case Some((name, declType)) =>
        Ok(ColumnSpec(name, declType, Contains(col, "PRIMARY"), Contains(col, "INDEX")))
  }

  /** An item decodes when its first whitespace word is `name:type` with
      exactly one ':'; a blank item raises IndexError and any other
      failure ValueError. The markers are substring tests on the whole
      item, so "INDEX" anywhere in it, even inside the name, marks it. */
  lemma ColumnSpecMeaning(col: string)
    ensures ParseColumnSpec(col).Raise? <==>
              FirstWord(col).None? || Count(FirstWord(col).value, ':') != 1
    ensures ParseColumnSpec(col).Raise? ==>
              ParseColumnSpec(col).fault == (if FirstWord(col).None? then IndexError else ValueError)
    ensures ParseColumnSpec(col) == Raise(IndexError) <==> forall k :: 0 <= k < |col| ==> IsSpace(col[k])
    ensures ParseColumnSpec(col).Ok? ==>
              var spec := ParseColumnSpec(col).value;
              spec.name + ":" + spec.declType == FirstWord(col).value &&
              ':' !in spec.name && ':' !in spec.declType &&
              (spec.primary <==> exists i :: OccursAt(col, "PRIMARY", i)) &&
              (spec.indexed <==> exists i :: OccursAt(col, "INDEX", i))
  {
    FirstWordMeaning(col);
    ContainsOccurs(col, "PRIMARY");
    ContainsOccurs(col, "INDEX");
  }

  /** Each item of the list decoded on its own. */
  function Decoded(cols: seq<string>): (r: seq<Outcome<ColumnSpec>>)
    ensures |r| == |cols| && forall k :: 0 <= k < |cols| ==> r[k] == ParseColumnSpec(cols[k])
  {
    seq(|cols|, k requires 0 <= k < |cols| => ParseColumnSpec(cols[k]))
  }

  /** The loop over decoded items: all values in order, or the exception
      of the first item that raised. */
  function Collect(outs: seq<Outcome<ColumnSpec>>): Outcome<seq<ColumnSpec>> {
    if outs == [] then Ok([])
    else
      match Collect(outs[..|outs| - 1])
      case Raise(f) => Raise(f)
      case Ok(specs) =>
        match outs[|outs| - 1]
        case Raise(f) => Raise(f)
        case Ok(last) => Ok(specs + [last])
  }

  /** All items decoded in order; the first item that does not decode
      decides the exception. */
  function ParseColumnSpecs(cols: seq<string>): Outcome<seq<ColumnSpec>> {
    Collect(Decoded(cols))
  }

  lemma {:induction false} CollectMeaning(outs: seq<Outcome<ColumnSpec>>)
    ensures Collect(outs).Ok? <==> forall k :: 0 <= k < |outs| ==> outs[k].Ok?
    ensures Collect(outs).Ok? ==>
              |Collect(outs).value| == |outs| &&
              forall k :: 0 <= k < |outs| ==> Collect(outs).value[k] == outs[k].value
  {
    if outs != [] {
      var init := outs[..|outs| - 1];
      CollectMeaning(init);
      assert forall k :: 0 <= k < |init| ==> init[k] == outs[k];
    }
  }

  lemma {:induction false} CollectFirstFailure(outs: seq<Outcome<ColumnSpec>>)
    requires Collect(outs).Raise?
    ensures exists k :: 0 <= k < |outs| && outs[k] == Raise(Collect(outs).fault) &&
                        forall j :: 0 <= j < k ==> outs[j].Ok?
  {
    var init := outs[..|outs| - 1];
    assert forall k :: 0 <= k < |init| ==> init[k] == outs[k];
    if Collect(init).Raise? {
      CollectFirstFailure(init);
      var k :| 0 <= k < |init| && init[k] == Raise(Collect(init).fault) &&
               forall j :: 0 <= j < k ==> init[j].Ok?;
      assert outs[k] == Raise(Collect(outs).fault);
    } else {
      CollectMeaning(init);
    }
  }

  /** Once a prefix fails, the whole list fails with the same exception. */
  lemma {:induction false} CollectPrefixFailure(outs: seq<Outcome<ColumnSpec>>, n: nat)
    requires n <= |outs| && Collect(outs[..n]).Raise?
    ensures Collect(outs) == Collect(outs[..n])
    decreases |outs| - n
  {
    if n < |outs| {
      assert outs[..n + 1][..n] == outs[..n];
      CollectPrefixFailure(outs, n + 1);
    } else {
      assert outs[..n] == outs;
    }
  }

  /** One more item: a raising item ends the collection with its
      exception, a decoded one is appended. */
  lemma CollectStep(outs: seq<Outcome<ColumnSpec>>, i: nat, specs: seq<ColumnSpec>)
    requires i < |outs| && Collect(outs[..i]) == Ok(specs)
    ensures outs[i].Raise? ==> Collect(outs) == Raise(outs[i].fault)
    ensures outs[i].Ok? ==> Collect(outs[..i + 1]) == Ok(specs + [outs[i].value])
  {
    assert outs[..i + 1][..i] == outs[..i];
    if outs[i].Raise? {
      CollectPrefixFailure(outs, i + 1);
    }
  }

  /** The list decodes exactly when every item does, into one spec per
      item in list order. */
  lemma ColumnSpecsMeaning(cols: seq<string>)
    ensures ParseColumnSpecs(cols).Ok? <==> forall k :: 0 <= k < |cols| ==> ParseColumnSpec(cols[k]).Ok?
    ensures ParseColumnSpecs(cols).Ok? ==>
              |ParseColumnSpecs(cols).value| == |cols| &&
              forall k :: 0 <= k < |cols| ==> ParseColumnSpecs(cols).value[k] == ParseColumnSpec(cols[k]).value
  {
    CollectMeaning(Decoded(cols));
  }

  /** A failing list raises the exception of its first failing item. */
  lemma ColumnSpecsFirstFailure(cols: seq<string>)
    requires ParseColumnSpecs(cols).Raise?
    ensures exists k :: 0 <= k < |cols| && ParseColumnSpec(cols[k]) == Raise(ParseColumnSpecs(cols).fault) &&
                        forall j :: 0 <= j < k ==> ParseColumnSpec(cols[j]).Ok?
  {
    CollectFirstFailure(Decoded(cols));
  }

  function Names(specs: seq<ColumnSpec>): (r: seq<string>)
    ensures |r| == |specs| && forall k :: 0 <= k < |specs| ==> r[k] == specs[k].name
  {
    seq(|specs|, k requires 0 <= k < |specs| => specs[k].name)
  }

  /** types_dict after the loop: each name mapped to its declared type, a
      later item of the same name overriding an earlier one. */
  function TypesOf(specs: seq<ColumnSpec>): map<string, string> {
    if specs == [] then map[]
    else
      var last := specs[|specs| - 1];
      TypesOf(specs[..|specs| - 1])[last.name := last.declType]
  }

  /** primary after the loop: the name of the last item marked PRIMARY. */
  function PrimaryOf(specs: seq<ColumnSpec>): Option<string> {
    if specs == [] then None
    else
      var last := specs[|specs| - 1];
      if last.primary then Some(last.name) else PrimaryOf(specs[..|specs| - 1])
  }

  /** indexed after the loop: the names of the items marked INDEX. */
  function IndexedOf(specs: seq<ColumnSpec>): seq<string> {
    if specs == [] then []
    else
      var last := specs[|specs| - 1];
      IndexedOf(specs[..|specs| - 1]) + (if last.indexed then [last.name] else [])
  }

  function EntryOf(specs: seq<ColumnSpec>): SchemaEntry {
    SchemaEntry(Names(specs), TypesOf(specs), PrimaryOf(specs), IndexedOf(specs))
  }

  /** The catalog record create_table builds from MAKE's column list. */
  function CreateEntry(columns: seq<string>): Outcome<SchemaEntry> {
    var specs :- ParseColumnSpecs(columns);
    Ok(EntryOf(specs))
  }

  /** One turn of create_table's loop: split off the first word, unpack
      it at ':' and look for the markers. */
  method DecodeItem(col: string) returns (r: Outcome<ColumnSpec>)
    ensures r == ParseColumnSpec(col)
  {
    var word := FirstWord(col);
    if word.None? {
      return Raise(IndexError);
    }
    var pair := SplitTwo(word.value, ':');
    if pair.None? {
      return Raise(ValueError);
    }
    r := Ok(ColumnSpec(pair.value.0, pair.value.1, Contains(col, "PRIMARY"), Contains(col, "INDEX")));
  }

  /** What one more item adds to each of the four results. */
  lemma EntrySnoc(specs: seq<ColumnSpec>, col: ColumnSpec)
    ensures Names(specs + [col]) == Names(specs) + [col.name]
    ensures TypesOf(specs + [col]) == TypesOf(specs)[col.name := col.declType]
    ensures PrimaryOf(specs + [col]) == if col.primary then Some(col.name) else PrimaryOf(specs)
    ensures IndexedOf(specs + [col]) == IndexedOf(specs) + (if col.indexed then [col.name] else [])
  {
    assert (specs + [col])[..|specs|] == specs;
  }

  /** create_table's loop: decode the items one by one, collecting names,
      types, the primary column and the indexed columns. */
  method BuildEntry(columns: seq<string>) returns (r: Outcome<SchemaEntry>)
    ensures r == CreateEntry(columns)
  {
    var names: seq<string> := [];
    var types: map<string, string> := map[];
    var primary: Option<string> := None;
    var indexed: seq<string> := [];
    ghost var specs: seq<ColumnSpec> := [];
    ghost var outs := Decoded(columns);
    var i := 0;
    while i < |columns|
      invariant 0 <= i <= |columns|
      invariant Collect(outs[..i]) == Ok(specs)
      invariant names == Names(specs) && types == TypesOf(specs)
      invariant primary == PrimaryOf(specs) && indexed == IndexedOf(specs)
    {
      var spec := DecodeItem(columns[i]);
      assert spec == outs[i];
      CollectStep(outs, i, specs);
      if spec.Raise? {
        return Raise(spec.fault);
      }
      var col := spec.value;
      names := names + [col.name];
      types := types[col.name := col.declType];
      if col.primary {
        primary := Some(col.name);
      }
      if col.indexed {
        indexed := indexed + [col.name];
      }
      EntrySnoc(specs, col);
      specs := specs + [col];
      i := i + 1;
    }
    assert outs[..i] == outs;
    r := Ok(SchemaEntry(names, types, primary, indexed));
  }

  // ---------------------------------------------------------------------
  // What the record says about the column list

  /** The columns come in the order of the list, each the text before ':'
      in the first word of its item. */
  lemma CreateEntryColumns(columns: seq<string>)
    requires CreateEntry(columns).Ok?
    ensures var e := CreateEntry(columns).value;
            |e.columns| == |columns| &&
            forall k :: 0 <= k < |columns| ==>
              FirstWord(columns[k]).Some? &&
              ParseColumnSpec(columns[k]).Ok? &&
              e.columns[k] + ":" + ParseColumnSpec(columns[k]).value.declType == FirstWord(columns[k]).value &&
              ':' !in e.columns[k]
  {
    ColumnSpecsMeaning(columns);
    forall k | 0 <= k < |columns| {
      ColumnSpecMeaning(columns[k]);
    }
  }

  /** The primary column is the name of the last item containing
      "PRIMARY", and there is none when no item contains it. */
  lemma {:induction false} PrimaryIsLastMarked(specs: seq<ColumnSpec>)
    ensures PrimaryOf(specs).None? <==> forall k :: 0 <= k < |specs| ==> !specs[k].primary
    ensures PrimaryOf(specs).Some? ==>
              exists k :: 0 <= k < |specs| && specs[k].primary && specs[k].name == PrimaryOf(specs).value &&
                          forall j :: k < j < |specs| ==> !specs[j].primary
  {
    if specs != [] {
      var init := specs[..|specs| - 1];
      PrimaryIsLastMarked(init);
      assert forall k :: 0 <= k < |init| ==> init[k] == specs[k];
      if !specs[|specs| - 1].primary && PrimaryOf(init).Some? {
        var k :| 0 <= k < |init| && init[k].primary && init[k].name == PrimaryOf(init).value &&
                 forall j :: k < j < |init| ==> !init[j].primary;
        assert specs[k].primary;
      }
    }
  }

  /** The indexed columns are the names of the items containing "INDEX",
      one per such item, in list order: the item at position k that is
      marked comes at the place given by the number of marked items
      before it. */
  lemma {:induction false} IndexedAreMarked(specs: seq<ColumnSpec>)
    ensures forall x :: x in IndexedOf(specs) <==>
              exists k :: 0 <= k < |specs| && specs[k].indexed && specs[k].name == x
    ensures |IndexedOf(specs)| == |MarkedIndexed(specs)|
    ensures forall k :: 0 <= k < |specs| && specs[k].indexed ==>
              |MarkedIndexed(specs[..k])| < |IndexedOf(specs)| &&
              IndexedOf(specs)[|MarkedIndexed(specs[..k])|] == specs[k].name
  {
    if specs != [] {
      var init := specs[..|specs| - 1];
      IndexedAreMarked(init);
      assert forall k :: 0 <= k < |init| ==> init[k] == specs[k];
      assert specs == init + [specs[|specs| - 1]];
      MarkedIndexedSnoc(init, specs[|specs| - 1]);
      IndexedInOrderStep(init, specs[|specs| - 1]);
    }
  }

  /** One step of the order fact: appending an item keeps the places of
      the earlier marked items and puts a marked item last. */
  lemma {:induction false} IndexedInOrderStep(init: seq<ColumnSpec>, s: ColumnSpec)
    requires |IndexedOf(init)| == |MarkedIndexed(init)|
    requires forall k :: 0 <= k < |init| && init[k].indexed ==>
               |MarkedIndexed(init[..k])| < |IndexedOf(init)| &&
               IndexedOf(init)[|MarkedIndexed(init[..k])|] == init[k].name
    ensures var specs := init + [s];
            forall k :: 0 <= k < |specs| && specs[k].indexed ==>
              |MarkedIndexed(specs[..k])| < |IndexedOf(specs)| &&
              IndexedOf(specs)[|MarkedIndexed(specs[..k])|] == specs[k].name
  {
    var specs := init + [s];
    assert specs[..|specs| - 1] == init;
    assert IndexedOf(specs) == IndexedOf(init) + (if s.indexed then [s.name] else []);
    forall k | 0 <= k < |specs| && specs[k].indexed
      ensures |MarkedIndexed(specs[..k])| < |IndexedOf(specs)| &&
              IndexedOf(specs)[|MarkedIndexed(specs[..k])|] == specs[k].name
    {
      if k < |init| {
        assert specs[..k] == init[..k];
        assert specs[k] == init[k];
      } else {
        assert specs[..k] == init;
      }
    }
  }

  /** The positions of the items marked INDEX. */
  function MarkedIndexed(specs: seq<ColumnSpec>): set<nat> {
    set k: nat | k < |specs| && specs[k].indexed
  }

  lemma MarkedIndexedSnoc(specs: seq<ColumnSpec>, s: ColumnSpec)
    ensures MarkedIndexed(specs + [s]) ==
              MarkedIndexed(specs) + (if s.indexed then {|specs|} else {})
    ensures |specs| !in MarkedIndexed(specs)
  {
    var ss := specs + [s];
    assert forall k :: 0 <= k < |specs| ==> ss[k] == specs[k];
  }

  /** A name's type is the type declared by the last item of that name;
      every name, and nothing else, has a type. */
  lemma {:induction false} TypesAreDeclared(specs: seq<ColumnSpec>, k: nat)
    requires k < |specs|
    requires forall j :: k < j < |specs| ==> specs[j].name != specs[k].name
    ensures specs[k].name in TypesOf(specs) && TypesOf(specs)[specs[k].name] == specs[k].declType
    ensures TypesOf(specs).Keys == (set j | 0 <= j < |specs| :: specs[j].name)
  {
    var init := specs[..|specs| - 1];
    assert forall j :: 0 <= j < |init| ==> init[j] == specs[j];
    if k < |specs| - 1 {
      TypesAreDeclared(init, k);
    } else if init != [] {
      TypesAreDeclared(init, |init| - 1);
    }
    assert (set j | 0 <= j < |specs| :: specs[j].name) ==
             (set j | 0 <= j < |init| :: init[j].name) + {specs[|specs| - 1].name};
  }

  /** The record keeps the catalog's invariant: primary, indexed and typed
      names are all columns. */
  lemma {:induction false} EntryNamesAreColumns(specs: seq<ColumnSpec>)
    ensures var e := EntryOf(specs);
            (e.primary.Some? ==> e.primary.value in e.columns) &&
            (forall x :: x in e.indexed ==> x in e.columns) &&
            (forall x :: x in e.types ==> x in e.columns)
  {
    PrimaryIsLastMarked(specs);
    IndexedAreMarked(specs);
    if specs != [] {
      TypesAreDeclared(specs, |specs| - 1);
    }
    var e := EntryOf(specs);
    if e.primary.Some? {
      var k :| 0 <= k < |specs| && specs[k].primary && specs[k].name == e.primary.value &&
               forall j :: k < j < |specs| ==> !specs[j].primary;
      assert e.columns[k] == specs[k].name;
    }
    forall x | x in e.indexed ensures x in e.columns {
      var k :| 0 <= k < |specs| && specs[k].indexed && specs[k].name == x;
      assert e.columns[k] == x;
    }
    forall x | x in e.types ensures x in e.columns {
      var k :| 0 <= k < |specs| && specs[k].name == x;
      assert e.columns[k] == x;
    }
  }

  // ---------------------------------------------------------------------
  // The two storage operations

  /** create_table: on success the catalog is loaded (or started empty),
      this table's record is set (overwriting any earlier one) and the
      table file is rewritten to hold the header only. A column item that
      does not decode raises before anything is written. */
  function CreateTableEffect(st: Store, table: string, columns: seq<string>): (e: Effect<()>)
    ensures e.out.Ok? <==> CreateEntry(columns).Ok?
    ensures e.out.Raise? ==> e.store == st && e.out.fault == CreateEntry(columns).fault
    ensures e.out.Ok? ==>
              e.store.schema == Some(CatalogOrEmpty(st.schema)[table := CreateEntry(columns).value]) &&
              e.store.files == st.files[table := [CreateEntry(columns).value.columns]]
  {
    match CreateEntry(columns)
    case Raise(f) => Effect(st, Raise(f))
    case Ok(entry) =>
      Effect(Store(Some(CatalogOrEmpty(st.schema)[table := entry]), st.files[table := [entry.columns]]), Ok(()))
  }

  /** create_table changes this table's record and file and nothing else:
      the record is the one built from the column list, and the new file
      is exactly the header, equal to the record's column names. */
  lemma CreateTableOnlyThisTable(st: Store, table: string, columns: seq<string>)
    requires CreateTableEffect(st, table, columns).out.Ok?
    ensures var after := CreateTableEffect(st, table, columns).store;
            after.schema.Some? && table in after.schema.value && table in after.files &&
            after.schema.value[table] == CreateEntry(columns).value &&
            after.files[table] == [after.schema.value[table].columns] &&
            (forall t :: t != table && st.schema.Some? && t in st.schema.value ==>
                           t in after.schema.value && after.schema.value[t] == st.schema.value[t]) &&
            (forall t :: t != table && t in after.schema.value ==> st.schema.Some? && t in st.schema.value) &&
            (forall t :: t != table ==> (t in after.files <==> t in st.files)) &&
            (forall t :: t != table && t in st.files ==> after.files[t] == st.files[t])
  {
  }

  /** storage.load_schema_from_csv: None when the table has no file;
      otherwise the catalog is replaced by one holding only this table's
      header record. An empty file raises on reading its header. */
  function LoadSchemaEffect(st: Store, table: string): (e: Effect<Option<Catalog>>)
    ensures table !in st.files ==> e == Effect(st, Ok(None))
    ensures table in st.files && st.files[table] == [] ==> e == Effect(st, Raise(IndexError))
    ensures table in st.files && st.files[table] != [] ==> e.out.Ok? && e.out.value.Some?
    ensures e.out.Ok? && e.out.value.Some? ==>
              table in st.files && st.files[table] != [] &&
              e.out.value.value == map[table := HeaderEntry(st.files[table][0])] &&
              e.store == Store(e.out.value, st.files)
  {
    if table !in st.files then Effect(st, Ok(None))
    else if st.files[table] == [] then Effect(st, Raise(IndexError))
    else
      var schema := map[table := HeaderEntry(st.files[table][0])];
      Effect(Store(Some(schema), st.files), Ok(Some(schema)))
  }

  /** The storage directory. */
  class Disk {
    var schema: Option<Catalog>
    var files: map<string, Table>

    function Snapshot(): Store
      reads this
    {
      Store(schema, files)
    }

    constructor (schema: Option<Catalog>, files: map<string, Table>)
      ensures Snapshot() == Store(schema, files)
    {
      this.schema := schema;
      this.files := files;
    }

    /** create_table(table, columns). */
    method CreateTable(table: string, columns: seq<string>) returns (r: Outcome<()>)
      modifies this
      ensures Effect(Snapshot(), r) == CreateTableEffect(old(Snapshot()), table, columns)
    {
      var entry := BuildEntry(columns);
      if entry.Raise? {
        return Raise(entry.fault);
      }
      var catalog := if schema.Some? then schema.value else map[];
      schema := Some(catalog[table := entry.value]);
      files := files[table := [entry.value.columns]];
      r := Ok(());
    }

    /** storage.load_schema_from_csv(table). */
    method LoadSchemaFromCsv(table: string) returns (r: Outcome<Option<Catalog>>)
      modifies this
      ensures Effect(Snapshot(), r) == LoadSchemaEffect(old(Snapshot()), table)
    {
      if table !in files {
        return Ok(None);
      }
      var reader := files[table];
      if reader == [] {
        return Raise(IndexError);
      }
      var header := reader[0];
      var catalog := map[table := HeaderEntry(header)];
      schema := Some(catalog);
      r := Ok(Some(catalog));
    }
  }
}
