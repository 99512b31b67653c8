/** `SQLiteScriptBuilder` (`builder/sqlite_script_builder.py`): one
    `CREATE TABLE` block per table, written in dependency order after the
    two-line header. */
module SqliteScript {

  import opened Wrappers
  import opened Strings
  import opened OrderedMaps
  import opened Schema
  import opened DependencyOrder
  import opened Builders

  /** The `java.sql.Types` codes Power Architect stores in a column's `type`. */
  const JdbcChar: int := 1
  const JdbcInteger: int := 4
  const JdbcVarchar: int := 12
  const JdbcBinary: int := -2

  /** `type_assoc_map.get(column.type, ColumnType.INTEGER)`. */
  function TypeOfCode(code: int): (t: ColumnType)
    ensures t == BLOB <==> code == JdbcBinary
    ensures t == TEXT <==> code == JdbcVarchar || code == JdbcChar
    ensures t == INTEGER <==> code != JdbcBinary && code != JdbcVarchar && code != JdbcChar
    ensures t != REAL && t != NULL
  {
    if code == JdbcInteger then INTEGER
    else if code == JdbcBinary then BLOB
    else if code == JdbcVarchar || code == JdbcChar then TEXT
    else INTEGER
  }

  /** The enum's `.value`: the SQLite type keyword. */
  function TypeName(t: ColumnType): string {
    match t
    case TEXT => "TEXT"
    case INTEGER => "INTEGER"
    case BLOB => "BLOB"
    case REAL => "REAL"
    case NULL => "NULL"
  }

  const NotNullWord: string := " NOT NULL"
  const PrimaryKeyWord: string := " PRIMARY KEY"
  const ReferencesWord: string := "  REFERENCES "

  /** `" NOT NULL" * column.not_null * (not column.pk)`. */
  function NotNullText(c: TableColumn): string {
    if c.notNull && !c.pk then NotNullWord else ""
  }

  /** `" PRIMARY KEY" * column.pk`. */
  function PrimaryKeyText(c: TableColumn): string {
    if c.pk then PrimaryKeyWord else ""
  }

  /** The `T(C)` that a foreign key names: the target table's and column's names. */
  function TargetText(db: DB, c: TableColumn): string
    requires c.IsFk() && Resolves(db, c)
  {
    TargetNames(db, c.ref.value).0 + "(" + TargetNames(db, c.ref.value).1 + ")"
  }

  /** `fk_str`: empty unless the column is a foreign key. */
  function ReferencesText(db: DB, c: TableColumn): string
    requires Resolves(db, c)
  {
    if c.IsFk() then ReferencesWord + TargetText(db, c) else ""
  }

  /** The modifiers, in the order NOT NULL, PRIMARY KEY, REFERENCES. */
  function Modifiers(db: DB, c: TableColumn): string
    requires Resolves(db, c)
  {
    NotNullText(c) + PrimaryKeyText(c) + ReferencesText(db, c)
  }

  /** `_dump_column(column)`: 16 spaces, the name, a space, the type keyword and
      the modifiers. */
  function ColumnClause(db: DB, c: TableColumn): string
    requires Resolves(db, c)
  {
    Spaces(16) + c.name + " " + TypeName(TypeOfCode(c.columnType)) + Modifiers(db, c)
  }

  /** Reads the modifiers back from the text after the type keyword: whether
      NOT NULL and PRIMARY KEY were written, and the `T(C)` of a reference. */
  function ParseModifiers(s: string): (bool, bool, Option<string>) {
    var notNull := StartsWith(s, NotNullWord);
    var s1 := if notNull then s[|NotNullWord|..] else s;
    var pk := StartsWith(s1, PrimaryKeyWord);
    var s2 := if pk then s1[|PrimaryKeyWord|..] else s1;
    var target := if StartsWith(s2, ReferencesWord) then Some(s2[|ReferencesWord|..]) else None;
    (notNull, pk, target)
  }

  /** The modifiers say exactly: NOT NULL iff the column is not-null and not a
      primary key, PRIMARY KEY iff it is a primary key, and a reference to the
      target iff it is a foreign key. */
  lemma {:induction false} ModifiersRoundTrip(db: DB, c: TableColumn)
    requires Resolves(db, c)
    ensures ParseModifiers(Modifiers(db, c)) ==
      (c.notNull && !c.pk, c.pk, if c.IsFk() then Some(TargetText(db, c)) else None)
  {
    var target := if c.IsFk() then TargetText(db, c) else "";
    var refs := ReferencesText(db, c);
    var rest := PrimaryKeyText(c) + refs;
    assert refs == (if c.IsFk() then ReferencesWord else "") + target;
    assert |refs| >= 2 ==> refs[1] == ' ';
    assert |rest| >= 2 ==> rest[1] != 'N';
    ReadWord(NotNullWord, c.notNull && !c.pk, rest);
    ReadWord(PrimaryKeyWord, c.pk, refs);
    ReadWord(ReferencesWord, c.IsFk(), target);
  }

  /** A modifier word, when written, is read and skipped; when not written,
      the text after it does not look like it (the second characters of the
      three words differ). */
  lemma {:induction false} ReadWord(word: string, written: bool, rest: string)
    requires |word| >= 2
    requires !written && |rest| >= 2 ==> rest[1] != word[1]
    ensures var s := (if written then word else "") + rest;
            && StartsWith(s, word) == written
            && (if written then s[|word|..] else s) == rest
  {
    var s := (if written then word else "") + rest;
    if written {
      assert s[..|word|] == word;
      assert s[|word|..] == rest;
    } else {
      assert s == rest;
      if |rest| >= |word| {
        assert rest[..|word|][1] != word[1];
      }
    }
  }

  /** A column line splits into its indentation, name, type keyword and
      modifiers, and the modifiers read back as the column's flags. */
  lemma {:induction false} ColumnClauseDecodes(db: DB, c: TableColumn)
    requires Resolves(db, c)
    ensures var r := ColumnClause(db, c);
            var typeAt := 17 + |c.name|;
            var ty := TypeName(TypeOfCode(c.columnType));
            && r[..16] == Spaces(16)
            && r[16..16 + |c.name|] == c.name
            && r[16 + |c.name|] == ' '
            && r[typeAt..typeAt + |ty|] == ty
            && ParseModifiers(r[typeAt + |ty|..]) ==
                 (c.notNull && !c.pk, c.pk, if c.IsFk() then Some(TargetText(db, c)) else None)
  {
    var ty := TypeName(TypeOfCode(c.columnType));
    var r := ColumnClause(db, c);
    var m := Modifiers(db, c);
    assert r == Spaces(16) + c.name + " " + ty + m;
    var typeAt := 17 + |c.name|;
    assert r[typeAt + |ty|..] == m;
    ModifiersRoundTrip(db, c);
  }

  /** The column lines of a table, in column insertion order. */
  function ColumnClauses(db: DB, t: DbTable): (r: seq<string>)
    requires forall j :: 0 <= j < |t.columns| ==> Resolves(db, t.columns[j].1)
    ensures |r| == |t.columns|
    ensures forall j :: 0 <= j < |r| ==> r[j] == ColumnClause(db, t.columns[j].1)
  {
    seq(|t.columns|, j requires 0 <= j < |t.columns| => ColumnClause(db, t.columns[j].1))
  }

  /** The text before a table's column lines. */
  function BlockOpening(t: DbTable): string {
    "CREATE TABLE " + t.name + " (\n"
  }

  const BlockClosing: string := "\n);"

  /** `_dump_table(table)`. */
  function TableBlock(db: DB, t: DbTable): string
    requires forall j :: 0 <= j < |t.columns| ==> Resolves(db, t.columns[j].1)
  {
    BlockOpening(t) + Join(",\n", ColumnClauses(db, t)) + BlockClosing
  }

  /** A table block opens with `CREATE TABLE <name> (` and closes with `);`. */
  lemma {:induction false} TableBlockFrame(db: DB, t: DbTable)
    requires forall k :: 0 <= k < |t.columns| ==> Resolves(db, t.columns[k].1)
    ensures StartsWith(TableBlock(db, t), BlockOpening(t))
    ensures EndsWith(TableBlock(db, t), BlockClosing)
  {
    Framed(BlockOpening(t), Join(",\n", ColumnClauses(db, t)), BlockClosing);
  }

  /** A table block holds every column line, at its place after the opening. */
  lemma {:induction false} TableBlockLists(db: DB, t: DbTable, j: nat, block: string, lines: seq<string>)
    requires forall k :: 0 <= k < |t.columns| ==> Resolves(db, t.columns[k].1)
    requires block == TableBlock(db, t) && lines == ColumnClauses(db, t)
    requires j < |lines|
    ensures OccursAt(block, lines[j], |BlockOpening(t)| + JoinOffset(",\n", lines, j))
  {
    JoinPlacesWithin(block, BlockOpening(t), ",\n", lines, BlockClosing, j);
  }

  /** Column lines appear in insertion order, each followed by the next. */
  lemma {:induction false} TableBlockInOrder(db: DB, t: DbTable, j: nat)
    requires forall k :: 0 <= k < |t.columns| ==> Resolves(db, t.columns[k].1)
    requires j + 1 < |t.columns|
    ensures JoinOffset(",\n", ColumnClauses(db, t), j) + |ColumnClauses(db, t)[j]| + 2
              <= JoinOffset(",\n", ColumnClauses(db, t), j + 1)
  {
    JoinOffsetsIncrease(",\n", ColumnClauses(db, t), j, j + 1);
  }

  // ---------------------------------------------------------------------------
  // The script
  // ---------------------------------------------------------------------------

  /** Every column of every table in `order` has a resolvable link. */
  predicate OrderResolves(db: DB, order: seq<Entry>) {
    forall i, j :: 0 <= i < |order| && 0 <= j < |order[i].1.columns| ==>
      Resolves(db, order[i].1.columns[j].1)
  }

  /** A reordering of the database's tables keeps their links resolvable. */
  lemma {:induction false} PermutationResolves(db: DB, order: seq<Entry>)
    requires RefsResolve(db)
    requires multiset(order) == multiset(db.tables)
    ensures OrderResolves(db, order)
  {
    forall i, j | 0 <= i < |order| && 0 <= j < |order[i].1.columns|
      ensures Resolves(db, order[i].1.columns[j].1)
    {
      assert order[i] in multiset(db.tables);
      var a :| 0 <= a < |db.tables| && db.tables[a] == order[i];
    }
  }

  /** The blocks of the tables in `order`. */
  function Blocks(db: DB, order: seq<Entry>): (r: seq<string>)
    requires OrderResolves(db, order)
    ensures |r| == |order|
    ensures forall i :: 0 <= i < |r| ==> r[i] == TableBlock(db, order[i].1)
  {
    seq(|order|, i requires 0 <= i < |order| => TableBlock(db, order[i].1))
  }

  /** `_dump_db(db)`: the blocks in dependency order joined by a blank line;
      `None` where the Python `while` loop never ends. */
  function DumpBody(db: DB): (r: Option<string>)
    requires RefsResolve(db)
    ensures r.Some? <==> DumpOrder(db.tables).Some?
  {
    match DumpOrder(db.tables)
    case None => None
    case Some(order) =>
      PermutationResolves(db, order);
      Some(Join("\n\n", Blocks(db, order)))
  }

  /** `dump(db)`: the header, a newline and the body. */
  function Dump(version: string, db: DB): (r: Option<string>)
    requires RefsResolve(db)
    ensures r.Some? <==> DumpBody(db).Some?
    ensures r.Some? ==> StartsWith(r.value, Header(SqliteScriptBuilder, version) + "\n")
    ensures r.Some? ==> r.value[|Header(SqliteScriptBuilder, version) + "\n"|..] == DumpBody(db).value
  {
    match DumpBody(db)
    case None => None
    case Some(body) =>
      var head := Header(SqliteScriptBuilder, version) + "\n";
      assert (head + body)[..|head|] == head;
      assert (head + body)[|head|..] == body;
      Some(head + body)
  }

  /** The position of table `i`'s block in the body. */
  function BlockOffset(db: DB, order: seq<Entry>, i: nat): nat
    requires OrderResolves(db, order)
    requires i <= |order|
  {
    JoinOffset("\n\n", Blocks(db, order), i)
  }

  /** Every table's block is in the body, at its offset in the dump order. */
  lemma {:induction false} DumpBodyHoldsBlocks(db: DB, i: nat)
    requires RefsResolve(db)
    requires DumpBody(db).Some?
    requires i < |DumpOrder(db.tables).value|
    ensures OrderResolves(db, DumpOrder(db.tables).value)
    ensures OccursAt(DumpBody(db).value, TableBlock(db, DumpOrder(db.tables).value[i].1),
                     BlockOffset(db, DumpOrder(db.tables).value, i))
  {
    var order := DumpOrder(db.tables).value;
    PermutationResolves(db, order);
    var bs := Blocks(db, order);
    assert DumpBody(db).value == Join("\n\n", bs);
    JoinPlaces("\n\n", bs, i);
  }

  /** The block of each table a foreign key points at ends, followed by a
      blank line, before the block holding that foreign key. */
  lemma {:induction false} DumpBodyDependenciesFirst(db: DB, i: nat, d: Key)
    requires RefsResolve(db)
    requires DumpBody(db).Some?
    requires i < |DumpOrder(db.tables).value|
    requires d in DumpOrder(db.tables).value[i].1.ForeignTablesKey()
    ensures var order := DumpOrder(db.tables).value;
            && OrderResolves(db, order)
            && exists k :: 0 <= k < i && order[k].0 == d &&
                 BlockOffset(db, order, k) + |TableBlock(db, order[k].1)| + 2 <= BlockOffset(db, order, i)
  {
    var order := DumpOrder(db.tables).value;
    PermutationResolves(db, order);
    DependencyPlacedBefore(db.tables, i, d);
    var k :| 0 <= k < i && order[k].0 == d;
    BlocksFollow(db, order, k, i);
  }

  /** An earlier block ends, followed by a blank line, before a later one starts. */
  lemma {:induction false} BlocksFollow(db: DB, order: seq<Entry>, k: nat, i: nat)
    requires OrderResolves(db, order)
    requires k < i < |order|
    ensures BlockOffset(db, order, k) + |TableBlock(db, order[k].1)| + 2 <= BlockOffset(db, order, i)
  {
    var bs := Blocks(db, order);
    assert bs[k] == TableBlock(db, order[k].1);
    JoinOffsetsIncrease("\n\n", bs, k, i);
  }

  /** An empty database gives an empty body. */
  lemma {:induction false} EmptyDatabaseBody()
    ensures DumpBody(DB([])) == Some("")
  {
    EmptyDatabaseOrder();
  }

  /** An acyclic schema whose foreign keys name existing tables always dumps. */
  lemma {:induction false} AcyclicDumps(version: string, db: DB, rank: Key -> nat)
    requires RefsResolve(db)
    requires Ranked(db.tables, rank)
    ensures Dump(version, db).Some?
  {
    AcyclicFinishes(db.tables, rank);
  }

  /** A table whose foreign key points at itself is never written: the
      `while` loop of `_dump_db` runs for ever. */
  lemma {:induction false} SelfReferenceNeverDumps(version: string, db: DB, i: nat)
    requires WellFormed(db)
    requires i < |db.tables|
    requires db.tables[i].0 in db.tables[i].1.ForeignTablesKey()
    ensures Dump(version, db) == None
  {
    SelfReferenceDiverges(db.tables, i);
  }
}
