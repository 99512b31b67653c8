/** The in-memory schema: columns, tables and the database that owns them
    (`architect/table_column.py`, `architect/db_table.py`, `architect/db.py`).

    `TableColumn.add_fk` links a foreign-key column to the objects of the table and
    column it references. Here the link is the pair of keys under which
    `add_relation` looked those objects up, resolved through the database when
    a name is needed. */
module Schema {

  import opened Wrappers
  import opened Strings
  import opened OrderedMaps

  type Key = string

  /** The one column type enumeration of the model. */
  datatype ColumnType = TEXT | INTEGER | BLOB | REAL | NULL

  /** A non-owning foreign-key link: the referenced table and column, by key. */
  datatype FkRef = FkRef(table: Key, column: Key)

  /** A column. `columnType` is the raw numeric code read from the schema file.
      The column is a foreign key exactly when `ref` is present, so the
      Python `fk` flag and its two target fields cannot disagree. */
  datatype TableColumn = TableColumn(
    key: Key,
    name: string,
    autoincrement: bool,
    pk: bool,
    columnType: int,
    notNull: bool,
    ref: Option<FkRef>)
  {
    predicate IsFk() {
      ref.Some?
    }

    /** `add_fk`: make this column reference `column` of `table`. */
    function AddFk(table: Key, column: Key): (c: TableColumn)
      ensures c.IsFk() && c.ref == Some(FkRef(table, column))
      ensures c.(ref := ref) == this
    {
      this.(ref := Some(FkRef(table, column)))
    }

    /** The `key` property setter. */
    function WithKey(k: Key): (c: TableColumn)
      ensures c.key == k
      ensures c.(key := key) == this
    {
      this.(key := k)
    }
  }

  /** `TableColumn(key, name, autoincrement, pk, column_type, not_null)`. */
  function NewColumn(key: Key, name: string, autoincrement: bool, pk: bool, columnType: int, notNull: bool)
    : (c: TableColumn)
    ensures !c.IsFk()
    ensures c.key == key && c.name == name && c.autoincrement == autoincrement
    ensures c.pk == pk && c.columnType == columnType && c.notNull == notNull
  {
    TableColumn(key, name, autoincrement, pk, columnType, notNull, None)
  }

  /** A second `add_fk` replaces the first: a column holds one reference. */
  lemma {:induction false} AddFkLastWins(c: TableColumn, t1: Key, c1: Key, t2: Key, c2: Key)
    ensures c.AddFk(t1, c1).AddFk(t2, c2) == c.AddFk(t2, c2)
    ensures c.AddFk(t1, c1).AddFk(t2, c2).ref == Some(FkRef(t2, c2))
  {
  }

  /** Target table keys of the foreign-key columns, in column order. */
  function ForeignTargets(cols: seq<(Key, TableColumn)>): (r: seq<Key>)
    ensures |r| <= |cols|
    ensures |r| == 0 <==> forall i :: 0 <= i < |cols| ==> !cols[i].1.IsFk()
    ensures forall i :: 0 <= i < |cols| && cols[i].1.IsFk() ==> cols[i].1.ref.value.table in r
    ensures forall x :: x in r ==> exists i :: 0 <= i < |cols| && cols[i].1.IsFk() && cols[i].1.ref.value.table == x
    decreases |cols|
  {
    if |cols| == 0 then []
    else
      var rest := ForeignTargets(cols[1..]);
      assert forall i :: 1 <= i < |cols| ==> cols[i] == cols[1..][i - 1];
      if cols[0].1.IsFk() then [cols[0].1.ref.value.table] + rest else rest
  }

  /** The targets of a column list are the targets of its parts, in order; a
      single column contributes its target when it is a foreign key and nothing
      otherwise. Together these fix the order and keep duplicates. */
  lemma {:induction false} ForeignTargetsAppend(a: seq<(Key, TableColumn)>, b: seq<(Key, TableColumn)>)
    ensures ForeignTargets(a + b) == ForeignTargets(a) + ForeignTargets(b)
    decreases |a|
  {
    if |a| > 0 {
      assert (a + b)[0] == a[0];
      assert (a + b)[1..] == a[1..] + b;
      ForeignTargetsAppend(a[1..], b);
    } else {
      assert a + b == b;
    }
  }

  lemma {:induction false} ForeignTargetsSingle(k: Key, c: TableColumn)
    ensures ForeignTargets([(k, c)]) == if c.IsFk() then [c.ref.value.table] else []
  {
    assert [(k, c)][1..] == [];
  }

  /** Index of the first primary-key column, if any. */
  function FirstPkIndex(cols: seq<(Key, TableColumn)>): (r: Option<nat>)
    ensures r.None? <==> forall i :: 0 <= i < |cols| ==> !cols[i].1.pk
    ensures r.Some? ==> r.value < |cols| && cols[r.value].1.pk
    ensures r.Some? ==> forall j :: 0 <= j < r.value ==> !cols[j].1.pk
    decreases |cols|
  {
    if |cols| == 0 then None
    else if cols[0].1.pk then Some(0)
    else
      var rest := FirstPkIndex(cols[1..]);
      assert forall i :: 1 <= i < |cols| ==> cols[i] == cols[1..][i - 1];
      if rest.None? then None else Some(rest.value + 1)
  }

  /** A table: key, display name and its columns by key, in insertion order. */
  datatype DbTable = DbTable(key: Key, name: string, columns: seq<(Key, TableColumn)>)
  {
    /** `foreign_tables_key()`. */
    function ForeignTablesKey(): seq<Key> {
      ForeignTargets(columns)
    }

    /** `primary_key()`: the first primary-key column, or `None`; never fails. */
    function PrimaryKey(): (r: Option<TableColumn>)
      ensures r.None? <==> forall i :: 0 <= i < |columns| ==> !columns[i].1.pk
      ensures r.Some? ==> exists i :: 0 <= i < |columns| && columns[i].1 == r.value && r.value.pk
                                   && forall j :: 0 <= j < i ==> !columns[j].1.pk
    {
      match FirstPkIndex(columns)
      case None => None
      case Some(i) => Some(columns[i].1)
    }
  }

  /** `DbTable(key, name="", columns=None)`. */
  function NewTable(key: Key, name: string := ""): (t: DbTable)
    ensures t.key == key && t.name == name && |t.columns| == 0
    ensures |t.ForeignTablesKey()| == 0 && t.PrimaryKey().None?
  {
    DbTable(key, name, [])
  }

  /** The database: tables by key, in insertion order. */
  datatype DB = DB(tables: seq<(Key, DbTable)>)

  /** `DB()`. */
  function NewDb(): (db: DB)
    ensures Keys(db.tables) == []
  {
    DB([])
  }

  /** `db.tables[t].columns[c]`, or `None` when either lookup would raise. */
  function ColumnAt(db: DB, t: Key, c: Key): Option<TableColumn> {
    match Get(db.tables, t)
    case None => None
    case Some(table) => Get(table.columns, c)
  }

  /** The column's foreign-key link, if it has one, resolves in `db`. */
  predicate Resolves(db: DB, c: TableColumn) {
    c.ref.Some? ==> ColumnAt(db, c.ref.value.table, c.ref.value.column).Some?
  }

  /** Every foreign-key link of every table resolves. */
  predicate RefsResolve(db: DB) {
    forall i, j :: 0 <= i < |db.tables| && 0 <= j < |db.tables[i].1.columns| ==>
      Resolves(db, db.tables[i].1.columns[j].1)
  }

  /** A table's column map is keyed by each column's own key. */
  predicate TableWellFormed(t: DbTable) {
    && DistinctKeys(t.columns)
    && forall j :: 0 <= j < |t.columns| ==> t.columns[j].0 == t.columns[j].1.key
  }

  /** The state the loader leaves behind: dictionaries keyed by their objects'
      own keys and every foreign-key link resolvable. */
  predicate WellFormed(db: DB) {
    && DistinctKeys(db.tables)
    && (forall i :: 0 <= i < |db.tables| ==> db.tables[i].0 == db.tables[i].1.key)
    && (forall i :: 0 <= i < |db.tables| ==> TableWellFormed(db.tables[i].1))
    && RefsResolve(db)
  }

  /** Python's `KeyError`, carrying the key that was looked up. */
  datatype LookupError = KeyError(key: Key)

  /** `add_relation(pk_table_key, fk_table_key, pk_column_key, fk_column_key)`. */
  function AddRelation(db: DB, pkTable: Key, fkTable: Key, pkColumn: Key, fkColumn: Key)
    : (r: Result<DB, LookupError>)
    ensures r.Failure? <==> ColumnAt(db, pkTable, pkColumn).None? || ColumnAt(db, fkTable, fkColumn).None?
    ensures r.Failure? ==> r.error == KeyError(
      if pkTable !in Keys(db.tables) then pkTable
      else if ColumnAt(db, pkTable, pkColumn).None? then pkColumn
      else if fkTable !in Keys(db.tables) then fkTable
      else fkColumn)
    ensures r.Success? ==> Keys(r.value.tables) == Keys(db.tables)
    ensures r.Success? ==> forall k :: k != fkTable ==> Get(r.value.tables, k) == Get(db.tables, k)
    ensures r.Success? ==> ColumnAt(r.value, fkTable, fkColumn)
                             == Some(ColumnAt(db, fkTable, fkColumn).value.AddFk(pkTable, pkColumn))
    ensures r.Success? ==> forall c :: c != fkColumn ==> ColumnAt(r.value, fkTable, c) == ColumnAt(db, fkTable, c)
    ensures r.Success? ==> var before := Get(db.tables, fkTable).value;
                           var after := Get(r.value.tables, fkTable).value;
                           after.key == before.key && after.name == before.name
                           && Keys(after.columns) == Keys(before.columns)
  {
    match Get(db.tables, pkTable)
    case None => Failure(KeyError(pkTable))
    case Some(pkT) =>
      match Get(pkT.columns, pkColumn)
      case None => Failure(KeyError(pkColumn))
      case Some(_) =>
        match Get(db.tables, fkTable)
        case None => Failure(KeyError(fkTable))
        case Some(fkT) =>
          match Get(fkT.columns, fkColumn)
          case None => Failure(KeyError(fkColumn))
          case Some(fkC) =>
            var newT := fkT.(columns := Put(fkT.columns, fkColumn, fkC.AddFk(pkTable, pkColumn)));
            var r := DB(Put(db.tables, fkTable, newT));
            PutGet(db.tables, fkTable, newT, fkTable);
            PutGetAll(db.tables, fkTable, newT);
            PutGetAll(fkT.columns, fkColumn, fkC.AddFk(pkTable, pkColumn));
            Success(r)
  }

  lemma {:induction false} PutGetAll<K, V>(m: seq<(K, V)>, k: K, v: V)
    ensures forall k' :: Get(Put(m, k, v), k') == if k' == k then Some(v) else Get(m, k')
  {
    forall k' {
      PutGet(m, k, v, k');
    }
  }

  /** After a successful `add_relation`, the foreign-key table lists the
      primary-key table among its `foreign_tables_key()`. */
  lemma {:induction false} AddRelationRecordsTarget(db: DB, pkTable: Key, fkTable: Key, pkColumn: Key, fkColumn: Key)
    requires AddRelation(db, pkTable, fkTable, pkColumn, fkColumn).Success?
    ensures pkTable in Get(AddRelation(db, pkTable, fkTable, pkColumn, fkColumn).value.tables, fkTable)
                         .value.ForeignTablesKey()
  {
    var t := Get(AddRelation(db, pkTable, fkTable, pkColumn, fkColumn).value.tables, fkTable).value;
    var i := IndexOf(t.columns, fkColumn);
    assert t.columns[i].1 == Get(t.columns, fkColumn).value;
  }

  /** `add_relation` keeps the database well formed: it changes one link, and
      only to a table and column it has just looked up. A self-relation is
      accepted like any other. */
  lemma {:induction false} AddRelationPreservesWellFormed(db: DB, pkTable: Key, fkTable: Key, pkColumn: Key, fkColumn: Key)
    requires WellFormed(db)
    requires AddRelation(db, pkTable, fkTable, pkColumn, fkColumn).Success?
    ensures WellFormed(AddRelation(db, pkTable, fkTable, pkColumn, fkColumn).value)
  {
    var r := AddRelation(db, pkTable, fkTable, pkColumn, fkColumn).value;
    var fkT := Get(db.tables, fkTable).value;
    var fkC := Get(fkT.columns, fkColumn).value;
    var newC := fkC.AddFk(pkTable, pkColumn);
    var newT := fkT.(columns := Put(fkT.columns, fkColumn, newC));
    assert r.tables == Put(db.tables, fkTable, newT);
    PutDistinct(db.tables, fkTable, newT);
    PutDistinct(fkT.columns, fkColumn, newC);
    var fi := IndexOf(db.tables, fkTable);
    assert db.tables[fi].1 == fkT;
    var ci := IndexOf(fkT.columns, fkColumn);
    assert fkT.columns[ci].1 == fkC;
    // Every column lookup answers on the same keys as before.
    forall t, c | ColumnAt(db, t, c).Some?
      ensures ColumnAt(r, t, c).Some?
    {
      if t == fkTable {
        PutGet(fkT.columns, fkColumn, newC, c);
      }
    }
    forall i | 0 <= i < |r.tables|
      ensures r.tables[i].0 == r.tables[i].1.key && TableWellFormed(r.tables[i].1)
    {
      if i != fi {
        assert r.tables[i] == db.tables[i];
      } else {
        assert fkT == db.tables[fi].1;
        assert TableWellFormed(fkT);
        forall j | 0 <= j < |newT.columns|
          ensures newT.columns[j].0 == newT.columns[j].1.key
        {
          if j != ci {
            assert newT.columns[j] == fkT.columns[j];
          }
        }
      }
    }
    forall i, j | 0 <= i < |r.tables| && 0 <= j < |r.tables[i].1.columns|
      ensures Resolves(r, r.tables[i].1.columns[j].1)
    {
      if i == fi && j == ci {
        assert r.tables[i].1.columns[j].1 == newC;
      } else if i == fi {
        assert r.tables[i].1.columns[j] == fkT.columns[j];
        assert Resolves(db, db.tables[fi].1.columns[j].1);
      } else {
        assert r.tables[i] == db.tables[i];
        assert Resolves(db, db.tables[i].1.columns[j].1);
      }
    }
  }

  // ---------------------------------------------------------------------------
  // graph(): debugging display
  // ---------------------------------------------------------------------------

  /** Name of the table a resolvable link points to, and of the column. */
  function TargetNames(db: DB, ref: FkRef): (string, string)
    requires ColumnAt(db, ref.table, ref.column).Some?
  {
    (Get(db.tables, ref.table).value.name, ColumnAt(db, ref.table, ref.column).value.name)
  }

  /** `TableColumn.graph(lvl)`. */
  function ColumnGraph(db: DB, c: TableColumn, lvl: nat): string
    requires Resolves(db, c)
  {
    var fk := if c.IsFk() then "FK " + TargetNames(db, c.ref.value).0 + "." + TargetNames(db, c.ref.value).1 else "";
    var mark := (if c.pk then " PK" else "") + " ";
    var body := ">" + c.name + "(self.key=" + ReprStr(c.key) + ") " + mark;
    Spaces(lvl) + body + fk
  }

  /** A column's line is indented by `lvl` spaces and opened by '>'; a link
      ends it with "FK", the target table's name, a dot and the target
      column's name, and otherwise it ends with " PK " for a primary key and
      a single space for any other column. */
  lemma {:induction false} ColumnGraphShape(db: DB, c: TableColumn, lvl: nat)
    requires Resolves(db, c)
    ensures var r := ColumnGraph(db, c, lvl);
            |r| > lvl && r[..lvl] == Spaces(lvl) && r[lvl] == '>'
    ensures c.IsFk() ==> EndsWith(ColumnGraph(db, c, lvl), "FK " + TargetNames(db, c.ref.value).0 + "." + TargetNames(db, c.ref.value).1)
    ensures !c.IsFk() ==> EndsWith(ColumnGraph(db, c, lvl), (if c.pk then " PK" else "") + " ")
  {
    var fk := if c.IsFk() then "FK " + TargetNames(db, c.ref.value).0 + "." + TargetNames(db, c.ref.value).1 else "";
    var mark := (if c.pk then " PK" else "") + " ";
    var body := ">" + c.name + "(self.key=" + ReprStr(c.key) + ") " + mark;
    var r := Spaces(lvl) + body + fk;
    assert ColumnGraph(db, c, lvl) == r;
    assert r[lvl] == body[0];
    assert r[..lvl] == Spaces(lvl);
    assert r[|r| - |fk|..] == fk;
    assert !c.IsFk() ==> r[|r| - |mark|..] == mark;
  }

  /** Header line of `DbTable.graph(lvl)`. */
  function TableGraphHeader(t: DbTable, lvl: nat): string {
    Spaces(lvl) + "-" + t.name + "(self.key=" + ReprStr(t.key) + ")"
  }

  /** `DbTable.graph(lvl)`: the header line, then one line per column (each at the
      column default indentation of 8). */
  function TableGraph(db: DB, t: DbTable, lvl: nat): string
    requires forall j :: 0 <= j < |t.columns| ==> Resolves(db, t.columns[j].1)
  {
    TableGraphHeader(t, lvl) + "\n" + Join("\n", ColumnGraphs(db, t))
  }

  function ColumnGraphs(db: DB, t: DbTable): (r: seq<string>)
    requires forall j :: 0 <= j < |t.columns| ==> Resolves(db, t.columns[j].1)
    ensures |r| == |t.columns|
  {
    seq(|t.columns|, j requires 0 <= j < |t.columns| => ColumnGraph(db, t.columns[j].1, 8))
  }

  /** When names and keys are single-line, `DbTable.graph` is exactly one header
      line followed by one line per column, in insertion order. */
  lemma {:induction false} TableGraphLines(db: DB, t: DbTable, lvl: nat)
    requires forall j :: 0 <= j < |t.columns| ==> Resolves(db, t.columns[j].1)
    requires |t.columns| > 0
    requires forall j :: 0 <= j < |t.columns| ==> '\n' !in ColumnGraphs(db, t)[j]
    requires '\n' !in TableGraphHeader(t, lvl)
    ensures Split(TableGraph(db, t, lvl), '\n') == [TableGraphHeader(t, lvl)] + ColumnGraphs(db, t)
  {
    SplitAround(TableGraphHeader(t, lvl), '\n', Join("\n", ColumnGraphs(db, t)));
    SplitNoSeparator(TableGraphHeader(t, lvl), '\n');
    SplitJoin(ColumnGraphs(db, t), '\n');
  }

  /** A table without columns still ends its header with a newline. */
  lemma {:induction false} TableGraphNoColumns(db: DB, t: DbTable, lvl: nat)
    requires |t.columns| == 0
    requires '\n' !in TableGraphHeader(t, lvl)
    ensures Split(TableGraph(db, t, lvl), '\n') == [TableGraphHeader(t, lvl), ""]
  {
    assert TableGraph(db, t, lvl) == TableGraphHeader(t, lvl) + ['\n'] + "";
    SplitAround(TableGraphHeader(t, lvl), '\n', "");
    SplitNoSeparator(TableGraphHeader(t, lvl), '\n');
  }

  function TableGraphs(db: DB): (r: seq<string>)
    requires RefsResolve(db)
    ensures |r| == |db.tables|
  {
    seq(|db.tables|, i requires 0 <= i < |db.tables| => TableGraph(db, db.tables[i].1, 4))
  }

  /** `DB.graph()`. */
  function DbGraph(db: DB): (r: string)
    requires RefsResolve(db)
  {
    "table:\n" + Join("\n", TableGraphs(db))
  }

  /** `DB.graph()` opens with "table:" and a newline. */
  lemma {:induction false} DbGraphOpens(db: DB)
    requires RefsResolve(db)
    ensures DbGraph(db)[..7] == "table:\n"
  {
    var s := DbGraph(db);
    assert s == "table:\n" + Join("\n", TableGraphs(db));
  }

  /** `DB.graph()` holds every table's graph at its offset, after the opening. */
  lemma {:induction false} DbGraphLists(db: DB, i: nat, graph: string, graphs: seq<string>)
    requires RefsResolve(db)
    requires graph == DbGraph(db) && graphs == TableGraphs(db)
    requires i < |graphs|
    ensures OccursAt(graph, graphs[i], 7 + JoinOffset("\n", graphs, i))
  {
    JoinPlacesAfter(graph, "table:\n", "\n", graphs, i);
  }

  /** The tables' graphs follow each other in insertion order. */
  lemma {:induction false} DbGraphInOrder(db: DB, i: nat)
    requires RefsResolve(db)
    requires i + 1 < |db.tables|
    ensures JoinOffset("\n", TableGraphs(db), i) + |TableGraph(db, db.tables[i].1, 4)|
            < JoinOffset("\n", TableGraphs(db), i + 1)
  {
    var gs := TableGraphs(db);
    JoinOffsetsIncrease("\n", gs, i, i + 1);
  }
}
