# architectSQLite in Dafny

architectSQLite reads a Power Architect XML export into an in-memory schema and writes two texts from it:

- a SQLite `CREATE TABLE` script;
- a Python file of insert helpers, two per table.

This project models the core of that pipeline as immutable datatypes and pure functions, and proves what each step promises.

- **Schema** (`schema.dfy`): `TableColumn`, `DbTable` and `DB` as values.
  - Python dictionaries are insertion-ordered association lists with distinct keys (`ordered_maps.dfy`).
  - A foreign-key object link is the pair of keys it was created from, resolved through the database.
  - `DB.add_relation` returns the new database or the `KeyError` of the first missing key.
- **Dependency order** (`dependency_order.dfy`): the repeated-scan loop of `SQLiteScriptBuilder._dump_db`.
  - Each pass takes the remaining tables in insertion order, and a table placed earlier in a pass counts as placed at once.
  - The loop either yields a permutation in which every table follows the tables it references, or, when a pass places nothing, `None`.
  - `None` holds exactly when some non-empty set of tables is stuck: each of them waits on a member of the set or on a table that does not exist.
- **Builders** (`builders.dfy`, `sqlite_script.dfy`, `python_script.dfy`): the shared two-line header, and the SQL and Python emitters as functions from the schema to text.
  - Lemmas state where each column clause, table block and helper function lies in the output text.
  - Further lemmas decode emitted fragments back into the values they were written from.
- **Loader** (`architect_xml.dfy`): `create_table`, `create_column`, `add_relation_in_db` and `load_from_architect_file`.
  - An XML element is its tag, attribute list, children, text and tail.
  - A path query selects descendants along plain tag steps, in document order.
  - The model also covers `get_node`'s non-empty result, the `_set_nodes_head_tail` indentation pass and `_add_int_to_attribute`.
  - Every exception the source raises is a `LoadError` value.
- **Support**: `strings.dfy` holds the Python string operations the emitters use: `join`, `split`, `lower`, `str(int)`, `int(str)`, `isnumeric` and `repr`. `wrappers.dfy` holds `Option` and `Result`.

Notes on the code's behaviour:

- A pass that places no table makes the source loop forever. It raises no error and does not report the stuck tables.
- `primary_key()` returns the first primary-key column. The code does not forbid a second one.
- The Python helpers follow `db.tables` insertion order, not the dependency order.
- The header is two comment lines.

## Model

| member | source | states |
|---|---|---|
| Schema.NewColumn | architect/table_column.py:24-34 | a new column holds exactly the key, name, autoincrement, pk, type code and not-null flag it was given, and is not a foreign key |
| Schema.TableColumn.AddFk | architect/table_column.py:72-83 | after `add_fk` the column is a foreign key to the given table and column, and every other field is as before |
| Schema.AddFkLastWins | architect/table_column.py:81-83 | two `add_fk` calls leave only the second target: a column holds at most one reference |
| Schema.TableColumn.WithKey | architect/table_column.py:40-42 | the key setter changes the key and nothing else |
| Schema.ForeignTargets | architect/db_table.py:36-42 | every FK column's target table key is listed, only such keys are listed, and the list is empty exactly when no column is a foreign key |
| Schema.ForeignTargetsAppend | architect/db_table.py:41-42 | the targets of concatenated columns are the targets of each part in order, so targets follow column order and keep duplicates |
| Schema.ForeignTargetsSingle | architect/db_table.py:41-42 | a single column contributes its target table key if it is a foreign key and nothing otherwise |
| Schema.DbTable.PrimaryKey | architect/db_table.py:44-46 | the result is absent exactly when no column is a primary key; otherwise it is the first primary-key column in insertion order |
| Schema.FirstPkIndex | architect/db_table.py:45-46 | finds the position of the first pk column, with no pk column before it, or reports that there is none |
| Schema.NewTable | architect/db_table.py:12-16 | a new table has its key, the name defaulting to empty, no columns, no foreign targets and no primary key |
| Schema.NewDb | architect/db.py:12-13 | a new database has no tables |
| Schema.AddRelation | architect/db.py:25-43 | fails exactly when one of the four lookups fails, with the KeyError of the first missing key in lookup order; on success only the fk column of the fk table changes, now referencing the pk table and column; a self-relation is accepted |
| Schema.AddRelationRecordsTarget | architect/db.py:37-43 | after a successful relation, the fk table's foreign targets include the pk table key |
| Schema.AddRelationPreservesWellFormed | architect/db.py:37-43 | adding a relation keeps every dictionary key equal to its object's key and every reference resolvable |
| Schema.ColumnGraphShape | architect/table_column.py:85-91 | a column's graph line starts with `lvl` spaces and `>`; it ends with `FK <table>.<column>` for a foreign key, and with the pk mark and a space otherwise |
| Schema.TableGraphLines | architect/db_table.py:30-34 | a table graph splits into its header line followed by one line per column, in insertion order |
| Schema.TableGraphNoColumns | architect/db_table.py:32-33 | a table without columns graphs as its header line and an empty line |
| Schema.DbGraphOpens | architect/db.py:19-23 | the database graph opens with `table:` and a newline |
| Schema.DbGraphLists | architect/db.py:21-22 | each table's graph appears in the database graph at its place in the newline-joined sequence |
| Schema.DbGraphInOrder | architect/db.py:21-22 | table graphs appear in insertion order, each ending before the next begins |
| DependencyOrder.ScanForeignKeys | builder/sqlite_script_builder.py:47-51 | the flag scan with its double negation answers true exactly when every referenced table is already placed |
| DependencyOrder.Pass | builder/sqlite_script_builder.py:42-67 | a pass only appends to the placed tables, loses and invents no table, and never grows the remaining tables |
| DependencyOrder.PassKeepsDepsFirst | builder/sqlite_script_builder.py:53-63 | a pass appends a table only after the tables it references, so the placed sequence keeps dependencies first |
| DependencyOrder.Loop | builder/sqlite_script_builder.py:40-70 | when the loop ends, the output is the placed tables extended by a permutation of the remaining ones |
| DependencyOrder.DumpOrder | builder/sqlite_script_builder.py:34-70 | a finished ordering is a permutation of the database's tables |
| DependencyOrder.DumpOrderDepsFirst | builder/sqlite_script_builder.py:45-61 | in a finished ordering every table's foreign targets are all placed before it |
| DependencyOrder.DumpOrderCorrect | builder/sqlite_script_builder.py:40-72 | a finished ordering holds every table exactly once, with distinct keys and dependencies first |
| DependencyOrder.DependencyPlacedBefore | builder/sqlite_script_builder.py:45-61 | each table a placed table references sits at an earlier position |
| DependencyOrder.NoProgressIsFixpoint | builder/sqlite_script_builder.py:40-70 | a pass that places nothing leaves the state unchanged and refused every remaining table, so the source repeats it forever |
| DependencyOrder.PassProgress | builder/sqlite_script_builder.py:43-67 | if any remaining table is eligible, the pass removes at least one table |
| DependencyOrder.NoForeignKeysPlacedFirstPass | builder/sqlite_script_builder.py:47-54 | a table with no foreign keys is always placed by the next pass |
| DependencyOrder.PassKeepsOrder | builder/sqlite_script_builder.py:43-63 | when each table is eligible given the ones before it, a pass places all of them in insertion order, since earlier placements count at once |
| DependencyOrder.InsertionOrderKept | builder/sqlite_script_builder.py:43-63 | if no foreign key points forward in insertion order, the output is the insertion order |
| DependencyOrder.EmptyDatabaseOrder | builder/sqlite_script_builder.py:40-70 | an empty database orders to an empty sequence |
| DependencyOrder.LoopFinishesWhenRanked | builder/sqlite_script_builder.py:40-70 | with a rank on tables that every reference strictly decreases and every target present, the loop ends from any intermediate state |
| DependencyOrder.AcyclicFinishes | builder/sqlite_script_builder.py:40-70 | an acyclic schema with all targets present always gets an ordering |
| DependencyOrder.StuckDiverges | builder/sqlite_script_builder.py:40-70 | a non-empty set of tables each waiting on the set or on a missing table is never placed, so the loop never exits |
| DependencyOrder.SelfReferenceDiverges | builder/sqlite_script_builder.py:47-54 | a table referencing itself is never eligible, so the loop never exits |
| DependencyOrder.DivergesOnlyWhenStuck | builder/sqlite_script_builder.py:40-70 | the loop fails to finish exactly when some set of tables is stuck |
| DependencyOrder.PermutationKeepsDistinctKeys | builder/sqlite_script_builder.py:57-67 | reordering tables keeps their keys distinct and their number unchanged |
| Builders.DumpFilepath | builder/abstract_builder.py:32-35 | no builder sets an extension, so the dump path is the given path |
| Builders.Header | builder/abstract_builder.py:37-44 | the header opens with the builder's comment marker |
| Builders.HeaderLines | builder/abstract_builder.py:43-44 | the header is exactly two lines, the version line and the tag line, each opening with the comment marker |
| Builders.HeaderVersionRoundTrip | builder/abstract_builder.py:43-44 | the version can be read back from the header, which holds nothing else that varies |
| SqliteScript.TypeOfCode | builder/sqlite_script_builder.py:95-102 | code -2 maps to BLOB, 12 and 1 map to TEXT, every other code maps to INTEGER, and REAL and NULL never occur |
| SqliteScript.ModifiersRoundTrip | builder/sqlite_script_builder.py:103-105 | the modifiers decode back to: NOT NULL iff not-null and not pk, PRIMARY KEY iff pk, and a REFERENCES target iff foreign key |
| SqliteScript.ColumnClauseDecodes | builder/sqlite_script_builder.py:86-108 | a column line is 16 spaces, the name, a space, the mapped type and the modifiers, in that order, and each part reads back |
| SqliteScript.TableBlockFrame | builder/sqlite_script_builder.py:75-83 | a table block opens with `CREATE TABLE <name> (` and a newline, and closes with a newline and `);` |
| SqliteScript.TableBlockLists | builder/sqlite_script_builder.py:81-83 | each column line sits in the block at its place in the comma-and-newline join |
| SqliteScript.TableBlockInOrder | builder/sqlite_script_builder.py:81-83 | column lines appear in insertion order, separated by a comma and a newline |
| SqliteScript.DumpBody | builder/sqlite_script_builder.py:28-72 | the script body exists exactly when the ordering loop finishes |
| SqliteScript.Dump | builder/sqlite_script_builder.py:23-25 | the script exists exactly when its body does, opens with the header and a newline, and the rest of it is exactly the body |
| SqliteScript.DumpBodyHoldsBlocks | builder/sqlite_script_builder.py:72 | every table's block appears in the body at its place in the blank-line join of the ordering |
| SqliteScript.DumpBodyDependenciesFirst | builder/sqlite_script_builder.py:40-72 | the block of every referenced table ends, with a blank line, before the block that references it |
| SqliteScript.EmptyDatabaseBody | builder/sqlite_script_builder.py:34-72 | an empty database gives an empty body |
| SqliteScript.AcyclicDumps | builder/sqlite_script_builder.py:23-72 | an acyclic schema with all targets present always produces a script |
| SqliteScript.SelfReferenceNeverDumps | builder/sqlite_script_builder.py:40-70 | a schema with a self-referencing table never produces a script |
| PythonScript.NonPkNames | builder/python_func_builder.py:105 | every non-pk column's name is among the parameters, and there are no more of them than columns |
| PythonScript.NonPkNamesOnlyNonPk | builder/python_func_builder.py:105 | every parameter is the name of a non-pk column |
| PythonScript.NonPkNamesAppend | builder/python_func_builder.py:105 | the parameters keep column insertion order |
| PythonScript.StatementColumnsCoverTable | builder/python_func_builder.py:104-110 | with at most one primary-key column, the statement names every column of the table exactly once (as a multiset), the primary key first |
| PythonScript.ValuesMatchColumns | builder/python_func_builder.py:109-113 | the intended value items number one per statement column: `None` first iff there is a primary key, then the non-pk names at their statement positions; the values text joins them with `, `, or is `None, ` for a pk-only table |
| PythonScript.TupleValuesRead | builder/python_func_builder.py:109-121 | with the trailing comma a one-name values text needs, Python reads `(values)` back as exactly the intended value items, for every table with plain column names |
| PythonScript.SingleColumnValuesNotATuple | builder/python_func_builder.py:112-121 | as written, a table with no primary key and one column gets the bare name as values text, which Python does not read as a tuple |
| PythonScript.TitleOnlyTableCounterexample | builder/python_func_builder.py:112-121 | a table `book` with one column `title` and no primary key gets the values text `title`, which is not a tuple, and its emitted helper text holds `return self.conn.execute(req, (title)) ` |
| PythonScript.WrittenValuesLine | builder/python_func_builder.py:112-121 | the single-row helper's sixth line passes the values text as written, in parentheses, and sits at its place in the helper text |
| PythonScript.CorrectedValuesLineReads | builder/python_func_builder.py:112-121 | the corrected helper text differs from the written one only in the values line, which Python reads as exactly the intended value items |
| PythonScript.PlaceholderCount | builder/python_func_builder.py:69-73 | the placeholder list holds one `?` per column and is empty for none |
| PythonScript.RequestPlaceholders | builder/python_func_builder.py:54-73 | an `INSERT OR` request holds exactly as many `?` as columns |
| PythonScript.RowRequestFitsValues | builder/python_func_builder.py:110-121 | the single-row request has exactly as many placeholders as there are intended value items |
| PythonScript.FunctionNamesNeverClash | builder/python_func_builder.py:118-124 | no single-row helper name equals any batch helper name |
| PythonScript.FunctionNamesFollowLowerName | builder/python_func_builder.py:104 | two tables get the same helper names exactly when their lower-cased names agree |
| PythonScript.HelperSignatures | builder/python_func_builder.py:116-137 | the helper text declares the single-row function over the non-pk names, then the batch function with `or_x` defaulting to FAIL |
| PythonScript.DumpBody | builder/python_func_builder.py:91-95 | the body opens with the prelude and ends with a newline |
| PythonScript.Dump | builder/python_func_builder.py:10-19 | the file opens with the header and a newline, and the rest of it is exactly the body |
| PythonScript.DumpBodyInsertionOrder | builder/python_func_builder.py:91-95 | each table's helpers sit in the body at their place in the newline join after the prelude |
| PythonScript.DumpBodyFunctionsInOrder | builder/python_func_builder.py:91-95 | the helper texts appear in insertion order, each ending before the next begins |
| ArchitectXml.Attribute | data_io/architect_xml.py:387-388 | `node.attrib[name]` gives the attribute's value when present and KeyError otherwise |
| ArchitectXml.GetAttribute | data_io/architect_xml.py:247-268 | gives the attribute's value when present, and otherwise the attribute-not-found error naming the attribute and tag |
| ArchitectXml.SelectTags | data_io/architect_xml.py:152-155 | every element a path selects carries the path's last tag |
| ArchitectXml.SelectAmongMember | data_io/architect_xml.py:152-155 | an element is matched among siblings exactly when it lies below a sibling carrying the path's first tag |
| ArchitectXml.SelectExactly | data_io/architect_xml.py:152-155 | `findall` on a path of tags finds an element exactly when a chain of children, tagged in turn with the path's tags, leads to it |
| ArchitectXml.SelectAmongCons | data_io/architect_xml.py:152-155 | the matches below the first sibling come before those below the later ones: selection is in document order |
| ArchitectXml.GetNodeFinds | data_io/architect_xml.py:127-160 | `get_node` succeeds exactly when some tagged chain of children exists, and then returns exactly the elements such chains reach; otherwise it raises NodeNotFound |
| ArchitectXml.CreateTable | data_io/architect_xml.py:385-389 | a table is created from `id` and `name` exactly when both are present; otherwise KeyError names the first one missing |
| ArchitectXml.CreateTableRoundTrip | data_io/architect_xml.py:385-389 | decoding a table element written from a key and a name gives back that table |
| ArchitectXml.ParseType | data_io/architect_xml.py:399 | the type code is the integer the text spells; other text raises ValueError |
| ArchitectXml.CreateColumnReads | data_io/architect_xml.py:392-401 | the first missing attribute among id, name, autoIncrement, nullable and type raises KeyError; otherwise a bad type raises ValueError; on success autoincrement iff `true`, not-null iff nullable is `0`, pk iff primaryKeySeq is present |
| ArchitectXml.CreateColumnRoundTrip | data_io/architect_xml.py:392-401 | decoding the element written from any column without a reference gives back that column |
| ArchitectXml.AddRelationInDb | data_io/architect_xml.py:404-414 | the four references are read in the order pk table, fk table, pk column, fk column, each missing one raising KeyError; then the database relation is added with its own outcome |
| ArchitectXml.LoadColumns | data_io/architect_xml.py:427-430 | the columns load exactly when every column element decodes, keeping the table's identity, the key invariant and the absence of references |
| ArchitectXml.LoadColumnsInOrder | data_io/architect_xml.py:428-430 | columns with fresh keys are stored under their own keys in document order |
| ArchitectXml.LoadTable | data_io/architect_xml.py:422-430 | a table element loads exactly when `id` and `name` are present, it has column elements and all of them decode; the table takes its key from `id` and its name from `name`, keeps keys equal to column keys and has no references |
| ArchitectXml.LoadTableColumns | data_io/architect_xml.py:422-430 | with no two column ids alike, the loaded table holds exactly the decoded column elements, under their own keys, in document order |
| ArchitectXml.LoadTables | data_io/architect_xml.py:422-430 | the table loop succeeds exactly when every table element loads; each element's `id` becomes a key, earlier tables stay, and the result keeps the key invariant without references |
| ArchitectXml.TableEntriesAt | data_io/architect_xml.py:422-430 | the i-th entry the table elements give is the i-th element's `id` with the table loaded from that element |
| ArchitectXml.LoadTablesInOrder | data_io/architect_xml.py:422-430 | with no two table ids alike, the loop appends to the database exactly the tables loaded from the elements, each under its `id`, in document order |
| ArchitectXml.TableWithoutColumnsFails | data_io/architect_xml.py:427 | any table element without column elements makes the table loop fail |
| ArchitectXml.LoadRelations | data_io/architect_xml.py:432-435 | adding the relations keeps the set of tables and the key invariant |
| ArchitectXml.LoadFromArchitect | data_io/architect_xml.py:417-437 | a loaded database keeps every dictionary key equal to its object's key, with every reference resolving |
| ArchitectXml.NoRelationshipsFails | data_io/architect_xml.py:432 | a document with no relationship element fails to load |
| ArchitectXml.TableWithoutColumnsFailsLoad | data_io/architect_xml.py:422-430 | a document with a table lacking column elements fails to load |
| ArchitectXml.RelationsKeepTables | data_io/architect_xml.py:417-437 | all tables load before any relation, and relations add no table and remove none |
| ArchitectXml.LoadedTablesInDocumentOrder | data_io/architect_xml.py:417-437 | a loaded document had every table element load, and with no two ids alike its tables are keyed by the elements' ids in document order |
| ArchitectXml.SetHeadTailIndents | data_io/architect_xml.py:353-382 | an element at depth d gets tail `tail + head*(lvl+d)`, and text `tail + head*(lvl+d+1)` when it has children; its text is kept otherwise |
| ArchitectXml.SetHeadTailLayoutOnly | data_io/architect_xml.py:377-382 | the pass changes only text and tail: tags, attributes and structure stay |
| ArchitectXml.SetHeadTailIdempotent | data_io/architect_xml.py:377-382 | applying the pass twice gives the same tree as once |
| ArchitectXml.AddIntToNodeSpec | data_io/architect_xml.py:284-291 | a missing attribute raises not-found, a non-numeric one raises wrong-format, and otherwise the attribute now reads as its old value plus num, with every other attribute kept |
| ArchitectXml.AddIntToAttributeSpec | data_io/architect_xml.py:270-291 | nothing selected raises NodeNotFound; otherwise the first failing element's error is raised; a second query finds the elements before the first failure updated and that one and the rest untouched, so on success every selected element is updated |
| ArchitectXml.AddIntToAttributeFrame | data_io/architect_xml.py:270-291 | the tree keeps its shape and tags, and every element no chain of the path's tags leads to keeps its attributes, whether or not the loop raises |
| ArchitectXml.AddIntAlongFrame | data_io/architect_xml.py:284-291 | updating the found elements in place changes no tag and no child count, and only the attributes of elements the path reaches |
| ArchitectXml.AddIntAlongWalks | data_io/architect_xml.py:284-291 | after the loop, the path finds the found elements as the loop left them, whether or not it raised |
| ArchitectXml.WalkedSplit | data_io/architect_xml.py:284-291 | the loop leaves the elements before the first failing one updated and that one and every later one as they were |
| ArchitectXml.FirstErrorAtFailIndex | data_io/architect_xml.py:284-291 | the exception raised is that of the first element that lacks the attribute or holds a non-numeric value, and none is raised when there is no such element |

## Left out

- `main.py`: the command line and the file writes are I/O only. Reading the XML file is left out too: the loader starts from the parsed root element.
- `XmlBrowser` parsing and queries (`parse`, `findall`/XPath, `add_node`, `add_sub_tree`, `update_attribute`, `get_nodes_at`): thin wrappers over ElementTree. A query here is a path of plain tag names. Predicates, wildcards and other XPath steps are not modelled.
- Exception texts, `__str__` formatting and the extra fields the exceptions carry (attribute map, context, source path) in `data_io/architect_xml.py:7-80`: a `LoadError` keeps the kind and the name or request it reports.
- The fixed prelude of the Python file (`builder/python_func_builder.py:31-89`, connection, logging and request builder source) is a parameter. The request builder's placeholder logic is modelled on its own.
- Python `repr` is simplified. Quote choice and the escapes of backslash, the quote, newline, carriage return and tab are modelled; other non-printable characters are not escaped.
- The column graph's `{self.key=}` uses that simplified repr.
- `str.lower` and `str.isnumeric` cover ASCII only. `int()` accepts an optional sign and ASCII digits; surrounding whitespace and underscores are not modelled.
- `__VERSION__` is a parameter of the header.
- The unused duplicate `ColumnType` enum in `architect/table_column.py:8-16` is not modelled; the schema has one `ColumnType`.
- DependencyOrder.Loop: where the source never exits, the model returns `None`. NoProgressIsFixpoint shows that the state then repeats unchanged, and DivergesOnlyWhenStuck characterises exactly when this happens.
- ArchitectXml.LoadTable: the source stores the table in the database before filling in its columns. The model stores the filled table; the outcome is the same, since the database holds the same object.
- ArchitectXml.CreateColumn: its own contract states only that a decoded column has no reference and what kinds of error are possible. The field-by-field reading is stated in CreateColumnReads.
- ArchitectXml.LoadTables: does not state what was stored before a failure, since a failure aborts the whole load. Its exact contents are stated by LoadTablesInOrder only when no two table ids are alike; a repeated id replaces the earlier table in place.
- ArchitectXml.LoadRelations: does not state what was stored before a failure, for the same reason.
- ArchitectXml.GetNode: requires a non-empty path, as does ArchitectXml.AddIntToAttribute. ElementTree reads the request `./` for an empty path as a query for every child; every call in `data_io/architect_xml.py:422-434` passes a non-empty path.
- PythonScript.StatementColumnsCoverTable: requires at most one primary-key column. With two, the statement keeps only the first one and drops the second, since `cols_name_no_pk` leaves every key column out and only `primary_key()` is put back.
- PythonScript.TupleValuesRead: covers column names without commas or leading spaces, the names that are Python identifiers in a working helper.
- Schema.ColumnGraphShape: states how the line ends, not that `FK` is absent from a non-foreign-key line. A column's name or key may itself contain `FK`.
- Python `tuple`/`list` rendering of the column list (`{cols_name}`) uses the simplified repr of strings.

## Findings

| source | as written | input that shows it | evidently intended | confidence | as-written member | corrected member |
|---|---|---|---|---|---|---|
| builder/python_func_builder.py:112-121 | with no primary key, `execute_values` is the names joined by `, ` with no trailing comma, and the helper passes `(execute_values)` to `execute` | a table with no primary key and one column `title`: the helper passes `(title)`, the bare value rather than a 1-tuple | `(title,)`, a tuple with one item per statement column | high, not executed | PythonScript.SingleColumnValuesNotATuple | PythonScript.CorrectedValuesLineReads |

The emitted helper text (`PythonScript.FunctionLines`, and through it `TableFunctions`, `DumpBody` and `Dump`) is the text as written, with the values text `ExecuteValues`; PythonScript.TitleOnlyTableCounterexample shows `(title)` in it for the concrete input. The corrected text, `PythonScript.CorrectedTableFunctions`, fills the same template with `TupleValues`, which adds the trailing comma in that one case; TupleValuesRead and CorrectedValuesLineReads state what Python reads from it.
