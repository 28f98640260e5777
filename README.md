# Mini-SQL-Engine query pipeline, modelled in Dafny

Mini-SQL-Engine is a toy SQL engine that keeps every table as a CSV file in
a `storage/` directory, next to a JSON catalog `schema.json`. A statement
goes through three layers:

- **parser:** turns a token sequence into a command record.
- **planner:** picks an access path and a cost for a filtered SHOW.
- **executor:** runs the command against the directory.

The statements are `MAKE`, `REMOVE`, `ADD`, `SHOW`, `ERASE` and `CHANGE`.

The model follows the four core files.

- `outcomes.dfy` (`Outcomes`) holds `Option`. It also holds `Outcome` = `Ok(value) | Raise(fault)`: the exceptions the Python code raises (IndexError, ValueError, KeyError, FileNotFoundError, NameError) are ordinary results, because the REPL catches and prints them.
- `text.dfy` (`Text`) holds the Python builtins the code relies on, on ASCII text: `str.upper`, `str.strip`, `str.split` with and without a separator, `str.join`, `in` on strings, `list.index`, `str.isdigit`, `str.isalpha` and `int()`.
- `parser.dfy` (`Parser`) is `parse_query`, a pure function from tokens to `Outcome<Option<Command>>`.
- `storage.dfy` (`Storage`) holds:
  - `Store`, the directory as a value: the catalog, or `None` when `schema.json` is absent, and the table files as rows;
  - the `Disk` class, whose fields are that state;
  - `create_table`, whose loop is the method `BuildEntry`;
  - `load_schema_from_csv`.

  Every method is proved equal to an effect function on `Store`, and the lemmas are stated about those functions.
- `optimizer.dfy` (`Optimizer`) holds `optimize_query` and `count_rows`.
- `executor.dfy` (`Executor`) holds:
  - `validate_constraints`;
  - the executor's own, merging, `load_schema_from_csv`;
  - every branch of `execute_query`, each as a method taking the `Disk`, with the source's loop where it has one, and an effect function that specifies it.
- `properties.dfy` (`Properties`) holds the properties that relate several statements: insert then select, delete twice, drop then every other statement, and what UPDATE writes.

UPDATE is modelled as written:

- it validates every matching row;
- it then assigns the new value in the *last* data row of the file, whether or not that row matched;
- with no data rows it raises NameError, because its loop variable is unbound.

`count_rows` counts every line of the file, the header included, so a full scan costs one more than the number of data rows; for a table that was just created it costs 1.

## Model

| member | source | states |
|---|---|---|
| Text.UpperMatchesKeyword | parser.py:5-7 | `s.upper()` equals a capitals-only keyword exactly when s has its length and each character is the keyword's letter in either case |
| Text.Split | parser.py:10 | `split(sep)` yields one more piece than there are separators |
| Text.JoinSplit | parser.py:9-10 | joining the pieces of a split with the same separator gives back the text |
| Text.SplitPiecesLackSep | parser.py:10 | no piece of a split contains the separator |
| Text.SplitWithoutSep | parser.py:10 | text without the separator splits into itself alone |
| Text.SplitAtFirstSep | parser.py:10 | splitting `p + sep + rest`, p free of sep, gives p followed by the pieces of rest |
| Text.SplitJoin | parser.py:9-10 | joining pieces free of the separator and splitting again gives back the pieces |
| Text.JoinPrepend | parser.py:9 | a character in front of the first piece comes out in front of the joined text |
| Text.SplitTwo | parser.py:37 | `a, b = s.split(sep)` unpacks exactly when sep occurs once; then `a + sep + b == s` and neither part holds sep |
| Text.SkipSpaces | storage.py:57 | the first non-whitespace position at or after i, with only whitespace skipped |
| Text.TrailEnd | parser.py:14 | the end of a range once its trailing whitespace is dropped, with only whitespace dropped |
| Text.WordEnd | storage.py:57 | the end of the run of non-whitespace characters from i |
| Text.Strip | parser.py:14 | `strip()` removes only whitespace, from both ends, and leaves no whitespace at either end |
| Text.StripTrimmed | parser.py:14 | stripping text with no whitespace at its ends changes nothing |
| Text.SkipSpacesBeforeWord | parser.py:14 | leading whitespace is skipped up to the first character of a trimmed word |
| Text.StripSpacesThenWord | parser.py:14 | stripping whitespace followed by a trimmed word gives the word |
| Text.FirstWordMeaning | storage.py:57-58 | `col.split()[0]` raises exactly when col is blank; otherwise it is a non-empty word without whitespace |
| Text.ContainsFromOccurs | storage.py:64-67 | the search from position i succeeds exactly when the substring occurs at i or later |
| Text.ContainsOccurs | storage.py:64-67 | `sub in s` holds exactly when sub occurs at some position of s |
| Text.IndexOf | executor.py:118 | `list.index` is None (ValueError) exactly when x is absent; otherwise the first position holding x |
| Text.DigitsValuePositive | executor.py:48-49 | `int(value) > 0` for a digit string exactly when some digit is not 0 |
| Parser.SplitPair | parser.py:37 | a `column=value` token splits exactly when it holds one `=`; the parts rebuild the token; ValueError otherwise |
| Parser.PositionOf | parser.py:63-64 | `tokens.index(k)` succeeds exactly when k occurs, at its first occurrence; ValueError otherwise |
| Parser.CommaList | parser.py:9-14 | the MAKE and ADD list has one item more than the commas of the joined tokens, each item comma-free and stripped |
| Parser.ParseMake | parser.py:7-15 | MAKE: `tokens[1]` (IndexError when absent) and the comma list; its meaning is stated by Parser.ParseLists and Parser.ParseCreateRoundTrip |
| Parser.ParseRemove | parser.py:17-21 | REMOVE: the table `tokens[1]`; stated by Parser.RemoveNamesTable |
| Parser.ParseAdd | parser.py:23-31 | ADD: `tokens[1]` and the comma list; stated by Parser.ParseLists and Parser.ParseInsertRoundTrip |
| Parser.ParseShow | parser.py:33-48 | SHOW with an optional condition; stated by Parser.ShowFilterIffWhere |
| Parser.ParseErase | parser.py:50-58 | ERASE with its required condition; stated by Parser.EraseNeedsWhere |
| Parser.ParseChange | parser.py:60-83 | CHANGE with the lookups in the source's order; stated by Parser.ChangeNeedsSetAndWhere |
| Parser.ParseQuery | parser.py:1-86 | empty tokens, or a first token that is no keyword in any case, give None; a command names `tokens[1]` as its table and answers to the keyword; a keyword with no second token raises IndexError |
| Parser.ParseLists | parser.py:7-31 | MAKE and ADD carry `tokens[1]` and the comma list of `tokens[3:-1]` |
| Parser.RemoveNamesTable | parser.py:17-21 | REMOVE yields DROP of `tokens[1]` |
| Parser.ShowFilterIffWhere | parser.py:33-48 | SHOW has a condition exactly when the token `WHERE` occurs; the condition is the next token split at its only `=`, and a missing token raises IndexError |
| Parser.EraseNeedsWhere | parser.py:50-58 | ERASE without `WHERE` raises ValueError; otherwise the condition is the token after the first `WHERE` split at its only `=`, and a missing token raises IndexError |
| Parser.ChangeNeedsSetAndWhere | parser.py:60-83 | CHANGE without `SET` or without `WHERE` raises ValueError; with both present, IndexError when the token after the first `SET` or the first `WHERE` is missing, otherwise the fault of the first of those tokens not holding one `=`, otherwise an Update of `tokens[1]` with the two pairs |
| Parser.JoinListTokens | parser.py:9 | the tokens of a written list `v0, v1, ...` join with spaces into the items joined by `", "` |
| Parser.NoCommaBeforeItem | parser.py:10 | whitespace followed by a plain item holds no comma |
| Parser.SplitFirstItem | parser.py:10 | the joined list splits at the comma after its first item |
| Parser.StripSplitItems | parser.py:10-14 | splitting the joined list and stripping the pieces gives back the items |
| Parser.UpperOfKeyword | parser.py:5 | a keyword is its own upper case |
| Parser.CommaListOfItems | parser.py:9-14 | the comma list of the tokens of a written list is the list's items |
| Parser.ParseInsertRoundTrip | parser.py:23-31 | `ADD t ( v0, ..., vn )` parses to INSERT of exactly those values |
| Parser.ParseCreateRoundTrip | parser.py:7-15 | `MAKE t ( c0, ..., cn )` parses to CREATE of exactly those specifications |
| Storage.ColumnSpecMeaning | storage.py:56-67 | a spec decodes exactly when its first word has one `:`; a blank spec raises IndexError and the others ValueError; name and type rebuild the first word; the markers are substring tests on the whole spec |
| Storage.CollectMeaning | storage.py:56-67 | the loop succeeds exactly when every item decodes, giving one value per item in order |
| Storage.CollectFirstFailure | storage.py:56-59 | a failing loop raises the exception of its first failing item |
| Storage.CollectPrefixFailure | storage.py:56-59 | once a prefix of the items fails, the loop fails the same way |
| Storage.CollectStep | storage.py:56-67 | one more item either ends the loop with its exception or is appended |
| Storage.ColumnSpecsMeaning | storage.py:56-67 | the column list decodes exactly when every spec does, one spec per item in order |
| Storage.ColumnSpecsFirstFailure | storage.py:56-59 | a failing column list raises the exception of its first failing spec |
| Storage.ParseColumnSpec | storage.py:56-67 | one spec decoded as the loop body does; stated by Storage.ColumnSpecMeaning |
| Storage.CreateEntry | storage.py:51-74 | the record built from the column list; stated by Storage.CreateEntryColumns, PrimaryIsLastMarked, IndexedAreMarked and TypesAreDeclared |
| Storage.EntrySnoc | storage.py:61-67 | one more spec appends its name, sets its type, may become primary and may be appended to the indexed list |
| Storage.BuildEntry | storage.py:51-74 | the loop builds the catalog record of the column list, or raises the first spec's exception |
| Storage.CreateEntryColumns | storage.py:56-61 | the record's columns come in list order, each the text before `:` in its spec's first word |
| Storage.PrimaryIsLastMarked | storage.py:53 | primary is the last spec marked PRIMARY, or there is none when no spec is marked |
| Storage.IndexedAreMarked | storage.py:66-67 | indexed holds the names of exactly the specs marked INDEX, one entry per marked spec, in spec order: the marked spec at position k is entry number (marked specs before k) |
| Storage.IndexedInOrderStep | storage.py:66-67 | appending a spec keeps every earlier marked spec at its place in indexed and puts a marked new spec last |
| Storage.MarkedIndexedSnoc | storage.py:66-67 | one more spec adds its position to the marked positions exactly when it is marked INDEX |
| Storage.TypesAreDeclared | storage.py:62 | every name, and nothing else, has a type: the type of the last spec of that name |
| Storage.EntryNamesAreColumns | storage.py:69-74 | primary, indexed and typed names are all columns |
| Storage.CreateTableEffect | storage.py:42-80 | MAKE succeeds exactly when the column list decodes, and then writes exactly the record built from it into the catalog (loaded or started empty) and a file holding only its column names; otherwise it raises the first failing spec's exception and writes nothing |
| Storage.CreateTableOnlyThisTable | storage.py:45-80 | create_table sets this table's record to the one built from the column list and rewrites its file as the header alone, the column names; other records and files stay as they were |
| Storage.LoadSchemaEffect | storage.py:5-31 | None when the file is missing; IndexError and no change for an empty file; otherwise it succeeds and the catalog becomes exactly one header-only record for the table |
| Storage.Disk.constructor | storage.py:4 | the directory starts with the given catalog and files |
| Storage.Disk.CreateTable | storage.py:42-80 | the method's effect on the directory is create_table's |
| Storage.Disk.LoadSchemaFromCsv | storage.py:5-31 | the method's effect on the directory is load_schema_from_csv's |
| Optimizer.CountRows | optimizer.py:45-51 | the line count of the file, header included; 0 without a file |
| Optimizer.OptimizeQuery | optimizer.py:6-42 | a plan exists exactly for a filtered SELECT on a catalogued table; INDEX_SCAN exactly for a primary or indexed column; cost 1 exactly when primary, even when it is also indexed; cost 2 exactly when only indexed; a full scan costs the line count. The access is shown as `INDEX_SCAN on <table>.<column>` or `FULL_TABLE_SCAN` (Optimizer.Access.Text, the plan's text; the executor does not read it) |
| Optimizer.PlanAfterCreate | optimizer.py:26-42 | right after MAKE the primary column plans at cost 1 and an unmarked column at a full scan of the header line |
| Executor.RowVerdictMeaning | executor.py:34-58 | a row passes exactly when it has a value for every column and every value meets every rule of its column; it raises IndexError exactly when it is too short and breaks no rule before its end |
| Executor.ValueFits | executor.py:38-56 | the four rules on one value, stacked: int type, then name, age and mobile |
| Executor.RowVerdict | executor.py:34-58 | the column loop: False at the first value that breaks a rule; raises only IndexError, and only for a row shorter than the header |
| Executor.CheckRow | executor.py:34-58 | the column loop answers as the rule check does |
| Executor.MergeSchemaEffect | executor.py:242-274 | a missing file raises, an empty one raises IndexError, any other file succeeds; a header-only record for the table is then merged into the catalog, or an empty one, and every other record stays |
| Executor.ValidateEffect | executor.py:12-58 | False without a catalog or when the table is in neither catalog nor storage; a catalogued table is checked against its types; a file without a record gets a header-only record first; no table file changes |
| Executor.MergeSchemaFromCsv | executor.py:242-274 | the method's effect is the merge |
| Executor.ValidateConstraints | executor.py:12-58 | the method's effect is the validation |
| Executor.InsertEffect | executor.py:71-95 | "Inserted" exactly when the table exists, the value count matches the header and the row passes; then exactly one row equal to the values is appended; otherwise no table file changes. A missing table answers "does not exist" and changes nothing; an empty file raises IndexError and changes nothing; a wrong count answers the mismatch with both counts and changes nothing; with the count right, the catalog is the one the check leaves, a failing check answers the constraint violation and a fault of the check is raised |
| Executor.Insert | executor.py:71-95 | the method's effect is the INSERT branch |
| Executor.AllSnoc | executor.py:120-124 | a longer list passes a test exactly when the shorter one does and the new element passes |
| Executor.FilterSnoc | executor.py:120-124 | filtering a longer list appends the new element exactly when it is kept |
| Executor.FilterConcat | executor.py:120-124 | filtering distributes over concatenation, so the kept rows keep their order |
| Executor.FilterMembers | executor.py:150-157 | an element is kept exactly when it is in the list and passes |
| Executor.FilterKeepsAll | executor.py:150-157 | the filter keeps the whole list exactly when every element passes, and is shorter otherwise |
| Executor.FilterTwice | executor.py:150-157 | filtering again keeps everything filtering once kept |
| Executor.ShownAllConcat | executor.py:108-109 | the lines of two parts of a file are the lines of the first followed by those of the second |
| Executor.SelectScan | executor.py:120-126 | the loop returns the lines of the rows whose field matches, in order, or raises IndexError on a line without the field |
| Executor.SelectAnswer | executor.py:98-126 | a missing file prints "Table not found"; without a filter every line, header included; with one, a missing catalog raises FileNotFoundError, a missing record KeyError, an unknown column ValueError, a line without the field IndexError, and otherwise the answer is the lines matching at the column's catalog position, in file order |
| Executor.Shown | executor.py:109 | `row.strip()` of the row's line |
| Executor.Fields | executor.py:122 | `row.strip().split(",")` |
| Executor.Select | executor.py:98-126 | SELECT reads the directory and answers as specified |
| Executor.DeleteScan | executor.py:150-157 | the loop keeps the rows whose field differs from the value and reports whether any row matched; a short row raises IndexError |
| Executor.DeleteEffect | executor.py:128-169 | a missing table or an unknown column changes nothing; an empty file or a short row raises IndexError; otherwise the file becomes its header followed by the kept rows, and the notice says whether some row matched; the catalog and the other tables never change |
| Executor.Delete | executor.py:128-169 | the method's effect is the DELETE branch |
| Executor.DropEffect | executor.py:170-190 | the table has neither a file nor a record afterwards; every other table and record is unchanged; the closing message is printed either way |
| Executor.DropTable | executor.py:170-190 | the method's effect is the DROP branch |
| Executor.RulesOf | executor.py:15-32 | the rules a check applies: None without schema.json, the record's types, or no types once a missing record is rebuilt |
| Executor.RowClears | executor.py:215-224 | a data row the checking loop moves past |
| Executor.RowRejects | executor.py:215-224 | a matching data row that fails the rules with the new value in place |
| Executor.UpdateScan | executor.py:215-224 | the checking loop over the data rows; stated by Properties.UpdateScanMeaning |
| Executor.UpdateEffect | executor.py:193-240 | a missing file raises FileNotFoundError, an empty one IndexError, an unknown SET or WHERE column ValueError, all without change; the rest is stated by Properties.UpdateMeaning |
| Executor.Update | executor.py:193-240 | the method, with its checking loop, has the UPDATE branch's effect as written; Properties.UpdateMeaning states when it finishes, when it answers None and what it writes |
| Executor.ExecuteQuery | executor.py:62-240 | whatever plan it is handed, the statement's effect on the directory is that command's branch |
| Executor.ExecuteEffect | executor.py:62-240 | each command's branch; SELECT leaves the directory as it is, MAKE answers None exactly when its column list decodes and writes nothing otherwise, DROP always prints its message |
| Properties.AgeRule | executor.py:48-51 | a value fits column age exactly when it is digits, not all zero, and meets the int rule |
| Properties.InsertThenSelectAll | executor.py:91-109 | after an insert, SELECT without a filter lists the old lines and then the new row, and the line count grows by one |
| Properties.SelectFilterMeaning | executor.py:118-126 | a filtered SELECT lists exactly the rows, header possibly included, whose field at the catalog position equals the value, in file order |
| Properties.KeptAllIffNoMatch | executor.py:150-157 | nothing is dropped exactly when no row matches; a match makes the file shorter |
| Properties.DeleteMeaning | executor.py:138-167 | a DELETE that runs writes the header and then the non-matching rows in order, and reports a deletion exactly when some data row matched |
| Properties.KeptAreClean | executor.py:150-157 | the rows DELETE keeps contain no match, so filtering them again keeps them all |
| Properties.KeptStayLong | executor.py:150-157 | the rows DELETE keeps still all have the field |
| Properties.DeleteTwice | executor.py:128-169 | a second DELETE with the same condition finds nothing and changes nothing |
| Properties.DropTwice | executor.py:170-190 | DROP is idempotent |
| Properties.DropThenStatements | executor.py:170-190 | after DROP, INSERT says the table does not exist, SELECT and DELETE print "Table not found", UPDATE raises FileNotFoundError and the planner has no plan |
| Properties.UpdateScanKeepsFiles | executor.py:215-224 | UPDATE's checking loop never writes a table file |
| Properties.ValidateUnderRules | executor.py:12-58 | on a table with a file, one check answers by the table's rules, writes no file and keeps the rules; with the record present or schema.json absent it changes nothing |
| Properties.ClearsCons | executor.py:215-224 | clearing every row, and being stopped by the first row that does not clear, split into the first row and the rest |
| Properties.UpdateScanMeaning | executor.py:215-224 | the loop lets the update through exactly when every data row clears, and answers False exactly when the first row that does not clear is a matching row failing the rules; it writes no file, keeps the rules, and changes nothing when no record is rebuilt |
| Properties.UpdateAbortKeepsFiles | executor.py:215-224 | an UPDATE that does not finish leaves every table file as it was |
| Properties.UpdateMeaning | executor.py:193-233 | with file and columns found, UPDATE finishes exactly when there is a data row, the last one has the SET field and every row clears; it then rewrites only the last row's SET field; it answers None exactly when the first row not to clear is a matching row failing the rules; an unfinished UPDATE writes no file, and the catalog changes only by a rebuilt record |
| Properties.UpdateOnlyLastRow | executor.py:227-233 | a finished UPDATE keeps the header, the length and every row but the last, whose set-field becomes the new value; other tables stay as they were |
| Properties.UpdateWithoutRows | executor.py:213-227 | with a header and no data rows, UPDATE raises NameError |
| Properties.UpdateWritesLastRow | executor.py:215-233 | updating the row of id 1 in a two-row table writes the new name into the row of id 2 |
| Properties.CountAfterCreateAndInsert | optimizer.py:45-51 | after MAKE the full-scan cost is 1, the header line, and one successful insert makes it 2 |

## Left out

- File I/O, paths, `os.makedirs` and JSON formatting are out of the model. The directory is a value: the catalog as `Option<Catalog>` (None when `schema.json` is absent) and each file as its list of rows.
- CSV quoting and escaping is not modelled. A row is stored as its fields, and the line SELECT reads is the fields joined with `,`. This equals the file's text when no field holds a comma, a quote or a line break, and the row is not a single empty field. `csv.writer` writes a row holding one empty field as `""`, so SHOW answers that line as `""` and a WHERE comparing the column with the empty text does not match it, while the model answers the empty line and matches it. The record terminator is written `\n`; `strip()` removes `\r\n` the same way. A MAKE whose only column has an empty name (`MAKE t ( :int )`) writes a header line holding nothing, which the CSV reader reads back as a row with no fields; the model keeps the header as one empty name.
- `str.isdigit`, `str.isalpha`, `str.isspace`, `str.upper` and the `\d` of the mobile rule are modelled on ASCII. Other Unicode digits, letters and spaces are not modelled.
- All `print` diagnostics are left out, except the closing messages of SELECT, DELETE, DROP and UPDATE. Those are the `Printed` replies, because they are what those statements show. The message "Table Created Successfully" is left out, as are the diagnostics inside `validate_constraints`.
- main.py (the REPL, which prints exceptions), app.py (the HTTP layer) and frontend/src/App.js are not part of this model. The tokenizer is not part of this model either; tokens are the parser's input.
- Parser.ParseInsertRoundTrip, Parser.ParseCreateRoundTrip: the round trip is proved for items without commas or whitespace. A specification such as `id:int PRIMARY` spans two tokens, and these lemmas do not cover it; Storage.ColumnSpecMeaning states how such an item is decoded.
- Optimizer.CountRows: counts every line of the file, the header included, so a full scan costs one more than the number of data rows.
- Executor.SelectAnswer: SELECT compares fields of text lines. The header line is one of them and can match a filter.
- Storage.LoadSchemaEffect: storage's `load_schema_from_csv` is modelled, but the executor does not call it; `validate_constraints` resolves the name to the executor's merging variant, Executor.MergeSchemaEffect.
- Executor.ExecuteQuery: the plan is a parameter the method never reads; its effect function has no plan parameter at all.
- Properties.UpdateMeaning: when the catalog lacks the table, the record that the first check rebuilds is stated only through the rules it carries (no types), not as the whole new catalog.
- Concurrency and durability are not modelled.
