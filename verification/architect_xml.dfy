/** The Power Architect loader (`data_io/architect_xml.py`): the element
    queries of `XmlBrowser` it relies on, the decoding of table, column and
    relationship elements, and the order in which `load_from_architect_file`
    fills the database. The parsed document is given as a tree of elements;
    reading and parsing the file is not modelled. */
module ArchitectXml {

  import opened Wrappers
  import opened Strings
  import opened OrderedMaps
  import opened Schema

  /** An element: its tag, its attributes in document order, its child
      elements, the text before its first child and the text after its end tag. */
  datatype XmlNode = XmlNode(
    tag: string,
    attrib: seq<(string, string)>,
    children: seq<XmlNode>,
    text: Option<string>,
    tail: Option<string>)

  /** The exceptions that leave the loader and the browser. */
  datatype LoadError =
    | KeyError(key: string)
    | ValueError(text: string)
    | NodeNotFound(request: string)
    | AttributeNotFound(name: string, tag: string)
    | AttributeWrongFormat(name: string, tag: string)

  /** `node.attrib.get(name)`. */
  function Attr(n: XmlNode, name: string): Option<string> {
    Get(n.attrib, name)
  }

  /** `node.attrib[name]`: raises `KeyError(name)` when the attribute is absent. */
  function Attribute(n: XmlNode, name: string): (r: Result<string, LoadError>)
    ensures r.Success? <==> name in Keys(n.attrib)
    ensures r.Success? ==> (name, r.value) in n.attrib && Attr(n, name) == Some(r.value)
    ensures r.Failure? ==> r.error == LoadError.KeyError(name)
  {
    match Attr(n, name)
    case None => Failure(LoadError.KeyError(name))
    case Some(v) => Success(v)
  }

  /** `XmlBrowser._get_attribute(node, name)`: the same lookup, reported as
      `ExAttributeNotFound`. */
  function GetAttribute(n: XmlNode, name: string): (r: Result<string, LoadError>)
    ensures r.Success? <==> name in Keys(n.attrib)
    ensures r.Success? ==> Attr(n, name) == Some(r.value)
    ensures r.Failure? ==> r.error == AttributeNotFound(name, n.tag)
  {
    match Attr(n, name)
    case None => Failure(AttributeNotFound(name, n.tag))
    case Some(v) => Success(v)
  }

  // ---------------------------------------------------------------------------
  // Queries
  // ---------------------------------------------------------------------------

  /** `n.findall("./" + "/".join(path))` for a path of plain tag names: the
      elements reached by following the path down from `n`, in document order. */
  function Select(n: XmlNode, path: seq<string>): seq<XmlNode>
    decreases n
  {
    if |path| == 0 then [n] else SelectAmong(n.children, path)
  }

  /** The elements reached from the siblings `cs` by following `path`, starting
      with the siblings tagged `path[0]`. */
  function SelectAmong(cs: seq<XmlNode>, path: seq<string>): seq<XmlNode>
    requires |path| > 0
    decreases cs
  {
    if |cs| == 0 then []
    else (if cs[0].tag == path[0] then Select(cs[0], path[1..]) else []) + SelectAmong(cs[1..], path)
  }

  /** Every element a non-empty path reaches carries the path's last tag. */
  lemma {:induction false} SelectTags(n: XmlNode, path: seq<string>)
    requires |path| > 0
    ensures forall k :: 0 <= k < |Select(n, path)| ==> Select(n, path)[k].tag == path[|path| - 1]
    decreases n
  {
    SelectAmongTags(n.children, path);
  }

  lemma {:induction false} SelectAmongTags(cs: seq<XmlNode>, path: seq<string>)
    requires |path| > 0
    ensures forall k :: 0 <= k < |SelectAmong(cs, path)| ==> SelectAmong(cs, path)[k].tag == path[|path| - 1]
    decreases cs
  {
    if |cs| > 0 {
      SelectAmongTags(cs[1..], path);
      if cs[0].tag == path[0] && |path| > 1 {
        SelectTags(cs[0], path[1..]);
      }
    }
  }

  /** `x` is reached from `n` by the child positions `steps`, the child taken
      at each step carrying the next tag of `path`. */
  predicate Reaches(n: XmlNode, steps: seq<nat>, path: seq<string>, x: XmlNode)
    decreases |path|
  {
    if |path| == 0 then |steps| == 0 && x == n
    else
      && |steps| > 0 && steps[0] < |n.children|
      && n.children[steps[0]].tag == path[0]
      && Reaches(n.children[steps[0]], steps[1..], path[1..], x)
  }

  /** An element is among the siblings' matches exactly when it lies below one
      of the siblings tagged `path[0]`. */
  lemma {:induction false} SelectAmongMember(cs: seq<XmlNode>, path: seq<string>, x: XmlNode)
    requires |path| > 0
    ensures x in SelectAmong(cs, path) <==>
              exists i :: 0 <= i < |cs| && cs[i].tag == path[0] && x in Select(cs[i], path[1..])
    decreases |cs|
  {
    if |cs| > 0 {
      SelectAmongMember(cs[1..], path, x);
      if x in SelectAmong(cs[1..], path) {
        var i :| 0 <= i < |cs[1..]| && cs[1..][i].tag == path[0] && x in Select(cs[1..][i], path[1..]);
        assert cs[i + 1] == cs[1..][i];
      }
      if exists i :: 0 <= i < |cs| && cs[i].tag == path[0] && x in Select(cs[i], path[1..]) {
        var i :| 0 <= i < |cs| && cs[i].tag == path[0] && x in Select(cs[i], path[1..]);
        if i > 0 {
          assert cs[1..][i - 1] == cs[i];
        }
      }
    }
  }

  /** `findall` finds exactly the elements a tagged chain of children leads to. */
  lemma {:induction false} SelectExactly(n: XmlNode, path: seq<string>, x: XmlNode)
    ensures x in Select(n, path) <==> exists steps :: Reaches(n, steps, path, x)
    decreases n
  {
    if |path| == 0 {
      if x == n {
        assert exists steps :: Reaches(n, steps, path, x) by {
          assert Reaches(n, [], path, x);
        }
      }
    } else {
      SelectAmongMember(n.children, path, x);
      if x in Select(n, path) {
        var i :| 0 <= i < |n.children| && n.children[i].tag == path[0] && x in Select(n.children[i], path[1..]);
        SelectExactly(n.children[i], path[1..], x);
        var rest :| Reaches(n.children[i], rest, path[1..], x);
        assert exists steps :: Reaches(n, steps, path, x) by {
          var steps := [i as nat] + rest;
          assert steps[1..] == rest;
          assert Reaches(n, steps, path, x);
        }
      }
      if exists steps :: Reaches(n, steps, path, x) {
        var steps :| Reaches(n, steps, path, x);
        var i := steps[0];
        SelectExactly(n.children[i], path[1..], x);
        assert exists rest :: Reaches(n.children[i], rest, path[1..], x) by {
          assert Reaches(n.children[i], steps[1..], path[1..], x);
        }
        assert x in Select(n.children[i], path[1..]);
        assert exists j :: 0 <= j < |n.children| && n.children[j].tag == path[0] && x in Select(n.children[j], path[1..]) by {
          assert n.children[i].tag == path[0];
        }
        assert x in SelectAmong(n.children, path);
      }
    }
  }

  /** The XPath request text `"./" + "/".join(nodes)`. */
  function Request(path: seq<string>): string {
    "./" + Join("/", path)
  }

  /** `XmlBrowser.get_node(path, root)`: the elements found, never an empty
      list; no match raises `ExNodeNotFound` naming the request. */
  function GetNode(root: XmlNode, path: seq<string>): (r: Result<seq<XmlNode>, LoadError>)
    requires |path| > 0
    ensures r.Success? ==> |r.value| > 0 && r.value == Select(root, path)
    ensures r.Failure? ==> Select(root, path) == [] && r.error == NodeNotFound(Request(path))
  {
    var found := Select(root, path);
    if |found| > 0 then Success(found) else Failure(NodeNotFound(Request(path)))
  }

  /** `get_node` fails exactly when no tagged chain of children exists, and
      otherwise returns exactly the elements such chains lead to. */
  lemma {:induction false} GetNodeFinds(root: XmlNode, path: seq<string>, x: XmlNode)
    requires |path| > 0
    ensures GetNode(root, path).Success? <==> exists steps, y :: Reaches(root, steps, path, y)
    ensures GetNode(root, path).Success? ==> (x in GetNode(root, path).value <==> exists steps :: Reaches(root, steps, path, x))
  {
    SelectExactly(root, path, x);
    if GetNode(root, path).Success? {
      var y := Select(root, path)[0];
      SelectExactly(root, path, y);
      var steps :| Reaches(root, steps, path, y);
      assert Reaches(root, steps, path, y);
    }
    if exists steps, y :: Reaches(root, steps, path, y) {
      var steps, y :| Reaches(root, steps, path, y);
      SelectExactly(root, path, y);
      assert exists steps' :: Reaches(root, steps', path, y) by {
        assert Reaches(root, steps, path, y);
      }
      assert y in Select(root, path);
    }
  }

  // ---------------------------------------------------------------------------
  // Decoding elements
  // ---------------------------------------------------------------------------

  /** `create_table(table_node)`: key from `id`, name from `name`, no columns. */
  function CreateTable(n: XmlNode): (r: Result<DbTable, LoadError>)
    ensures r.Success? <==> "id" in Keys(n.attrib) && "name" in Keys(n.attrib)
    ensures r.Success? ==> r.value == NewTable(Attr(n, "id").value, Attr(n, "name").value)
    ensures r.Failure? ==> r.error == LoadError.KeyError(if "id" !in Keys(n.attrib) then "id" else "name")
  {
    var key :- Attribute(n, "id");
    var name :- Attribute(n, "name");
    Success(NewTable(key, name))
  }

  /** `int(text)`. */
  function ParseType(text: string): (r: Result<int, LoadError>)
    ensures r.Success? <==> ParseInt(text).Some?
    ensures r.Success? ==> ParseInt(text) == Some(r.value)
    ensures r.Failure? ==> r.error == ValueError(text)
  {
    match ParseInt(text)
    case None => Failure(ValueError(text))
    case Some(v) => Success(v)
  }

  /** The first of the attributes `create_column` reads with `[]` that the
      element lacks, in the order it reads them. */
  function MissingColumnAttribute(n: XmlNode): (r: Option<string>)
    ensures r.None? <==> && Attr(n, "id").Some? && Attr(n, "name").Some? && Attr(n, "autoIncrement").Some?
                         && Attr(n, "nullable").Some? && Attr(n, "type").Some?
    ensures r.Some? ==> Attr(n, r.value).None?
  {
    if Attr(n, "id").None? then Some("id")
    else if Attr(n, "name").None? then Some("name")
    else if Attr(n, "autoIncrement").None? then Some("autoIncrement")
    else if Attr(n, "nullable").None? then Some("nullable")
    else if Attr(n, "type").None? then Some("type")
    else None
  }

  /** `create_column(column_node)`. What it reads is stated by
      `CreateColumnReads`; a decoded column never carries a foreign key. */
  function CreateColumn(n: XmlNode): (r: Result<TableColumn, LoadError>)
    ensures r.Success? ==> !r.value.IsFk()
    ensures r.Failure? ==> r.error.KeyError? || r.error.ValueError?
  {
    var key :- Attribute(n, "id");
    var name :- Attribute(n, "name");
    var autoIncrement :- Attribute(n, "autoIncrement");
    var nullable :- Attribute(n, "nullable");
    var pk := "primaryKeySeq" in Keys(n.attrib);
    var typeText :- Attribute(n, "type");
    var code :- ParseType(typeText);
    Success(NewColumn(key, name, autoIncrement == "true", pk, code, nullable == "0"))
  }

  /** `create_column` reads `id`, `name`, `autoIncrement`, `nullable` and
      `type` in that order, raising `KeyError` for the first one missing and
      `ValueError` for a type that is not an integer; a column is a key when
      `primaryKeySeq` is present, whatever its value. */
  lemma {:induction false} CreateColumnReads(n: XmlNode)
    ensures MissingColumnAttribute(n).Some? ==>
              CreateColumn(n) == Failure(LoadError.KeyError(MissingColumnAttribute(n).value))
    ensures MissingColumnAttribute(n).None? ==>
              && (CreateColumn(n).Success? <==> ParseInt(Attr(n, "type").value).Some?)
              && (CreateColumn(n).Failure? ==> CreateColumn(n).error == ValueError(Attr(n, "type").value))
    ensures CreateColumn(n).Success? ==>
              var c := CreateColumn(n).value;
              && Attr(n, "id") == Some(c.key)
              && Attr(n, "name") == Some(c.name)
              && (c.autoincrement <==> Attr(n, "autoIncrement") == Some("true"))
              && (c.notNull <==> Attr(n, "nullable") == Some("0"))
              && (c.pk <==> "primaryKeySeq" in Keys(n.attrib))
              && ParseInt(Attr(n, "type").value) == Some(c.columnType)
  {
  }

  /** The element Power Architect writes for a column without a relation:
      `nullable` is "0" for NOT NULL, `primaryKeySeq` is present for a key. */
  function ColumnNode(c: TableColumn): XmlNode {
    XmlNode("column",
      [("id", c.key), ("name", c.name), ("autoIncrement", if c.autoincrement then "true" else "false"),
       ("nullable", if c.notNull then "0" else "1"), ("type", IntToString(c.columnType))]
      + (if c.pk then [("primaryKeySeq", "0")] else []),
      [], None, None)
  }

  /** What each attribute of a column's element reads as. */
  lemma {:induction false} ColumnNodeReads(c: TableColumn)
    ensures var n := ColumnNode(c);
            && Attr(n, "id") == Some(c.key)
            && Attr(n, "name") == Some(c.name)
            && Attr(n, "autoIncrement") == Some(if c.autoincrement then "true" else "false")
            && Attr(n, "nullable") == Some(if c.notNull then "0" else "1")
            && Attr(n, "type") == Some(IntToString(c.columnType))
            && ("primaryKeySeq" in Keys(n.attrib) <==> c.pk)
  {
    ColumnNodeReadsNames(c);
    ColumnNodeReadsFlags(c);
    ColumnNodeMarksKey(c);
  }

  lemma {:induction false} ColumnNodeKeysDistinct(c: TableColumn)
    ensures DistinctKeys(ColumnNode(c).attrib)
  {
  }

  lemma {:induction false} ColumnNodeReadsNames(c: TableColumn)
    ensures Attr(ColumnNode(c), "id") == Some(c.key)
    ensures Attr(ColumnNode(c), "name") == Some(c.name)
  {
    var n := ColumnNode(c);
    ColumnNodeKeysDistinct(c);
    GetEntry(n.attrib, 0);
    GetEntry(n.attrib, 1);
  }

  lemma {:induction false} ColumnNodeReadsFlags(c: TableColumn)
    ensures Attr(ColumnNode(c), "autoIncrement") == Some(if c.autoincrement then "true" else "false")
    ensures Attr(ColumnNode(c), "nullable") == Some(if c.notNull then "0" else "1")
    ensures Attr(ColumnNode(c), "type") == Some(IntToString(c.columnType))
  {
    var n := ColumnNode(c);
    ColumnNodeKeysDistinct(c);
    GetEntry(n.attrib, 2);
    GetEntry(n.attrib, 3);
    GetEntry(n.attrib, 4);
  }

  lemma {:induction false} ColumnNodeMarksKey(c: TableColumn)
    ensures "primaryKeySeq" in Keys(ColumnNode(c).attrib) <==> c.pk
  {
    var n := ColumnNode(c);
    if c.pk {
      assert Keys(n.attrib)[5] == "primaryKeySeq";
    } else {
      assert "primaryKeySeq" !in Keys(n.attrib);
    }
  }

  /** Decoding a column's element gives the column back. */
  lemma {:induction false} CreateColumnRoundTrip(c: TableColumn)
    requires !c.IsFk()
    ensures CreateColumn(ColumnNode(c)) == Success(c)
  {
    var n := ColumnNode(c);
    ColumnNodeReads(c);
    ParseIntToString(c.columnType);
    CreateColumnReads(n);
    var d := CreateColumn(n).value;
    assert d.key == c.key && d.name == c.name && d.autoincrement == c.autoincrement;
    assert d.pk == c.pk && d.columnType == c.columnType && d.notNull == c.notNull;
  }

  /** The element Power Architect writes for a table, before its columns. */
  function TableNode(key: Key, name: string): XmlNode {
    XmlNode("table", [("id", key), ("name", name)], [], None, None)
  }

  /** Decoding a table's element gives the table back. */
  lemma {:induction false} CreateTableRoundTrip(key: Key, name: string)
    ensures CreateTable(TableNode(key, name)) == Success(NewTable(key, name))
  {
    var n := TableNode(key, name);
    assert Keys(n.attrib) == ["id", "name"];
  }

  /** `add_relation_in_db(db, relationship, column_mapping)`: the four keys, in
      the order pk-table-ref, fk-table-ref, pk-column-ref, fk-column-ref, then
      `db.add_relation`. */
  function AddRelationInDb(db: DB, relation: XmlNode, mapping: XmlNode): (r: Result<DB, LoadError>)
    ensures Attr(relation, "pk-table-ref").None? ==> r == Failure(LoadError.KeyError("pk-table-ref"))
    ensures Attr(relation, "pk-table-ref").Some? && Attr(relation, "fk-table-ref").None? ==>
              r == Failure(LoadError.KeyError("fk-table-ref"))
    ensures (Attr(relation, "pk-table-ref").Some? && Attr(relation, "fk-table-ref").Some? &&
             Attr(mapping, "pk-column-ref").None?) ==> r == Failure(LoadError.KeyError("pk-column-ref"))
    ensures (Attr(relation, "pk-table-ref").Some? && Attr(relation, "fk-table-ref").Some? &&
             Attr(mapping, "pk-column-ref").Some? && Attr(mapping, "fk-column-ref").None?) ==>
              r == Failure(LoadError.KeyError("fk-column-ref"))
    ensures (Attr(relation, "pk-table-ref").Some? && Attr(relation, "fk-table-ref").Some? &&
             Attr(mapping, "pk-column-ref").Some? && Attr(mapping, "fk-column-ref").Some?) ==>
              var pkT, fkT := Attr(relation, "pk-table-ref").value, Attr(relation, "fk-table-ref").value;
              var pkC, fkC := Attr(mapping, "pk-column-ref").value, Attr(mapping, "fk-column-ref").value;
              && (r.Success? <==> AddRelation(db, pkT, fkT, pkC, fkC).Success?)
              && (r.Success? ==> r.value == AddRelation(db, pkT, fkT, pkC, fkC).value
                                 && ColumnAt(r.value, fkT, fkC).Some?
                                 && ColumnAt(r.value, fkT, fkC).value.ref == Some(FkRef(pkT, pkC)))
              && (r.Failure? ==> r.error == LoadError.KeyError(AddRelation(db, pkT, fkT, pkC, fkC).error.key))
  {
    var pkTable :- Attribute(relation, "pk-table-ref");
    var fkTable :- Attribute(relation, "fk-table-ref");
    var pkColumn :- Attribute(mapping, "pk-column-ref");
    var fkColumn :- Attribute(mapping, "fk-column-ref");
    match AddRelation(db, pkTable, fkTable, pkColumn, fkColumn)
    case Failure(e) => Failure(LoadError.KeyError(e.key))
    case Success(d) => Success(d)
  }

  // ---------------------------------------------------------------------------
  // load_from_architect_file
  // ---------------------------------------------------------------------------

  /** The inner loop: `table.columns[column.key] = column` for each column
      element, in document order. */
  predicate AllDecode(nodes: seq<XmlNode>)
    decreases |nodes|
  {
    |nodes| == 0 || (CreateColumn(nodes[0]).Success? && AllDecode(nodes[1..]))
  }

  /** Each column element decodes. */
  lemma {:induction false} AllDecodeEach(nodes: seq<XmlNode>)
    ensures AllDecode(nodes) <==> forall i :: 0 <= i < |nodes| ==> CreateColumn(nodes[i]).Success?
    decreases |nodes|
  {
    if |nodes| > 0 {
      AllDecodeEach(nodes[1..]);
      assert forall i :: 1 <= i < |nodes| ==> nodes[i] == nodes[1..][i - 1];
    }
  }

  function LoadColumns(table: DbTable, nodes: seq<XmlNode>): (r: Result<DbTable, LoadError>)
    ensures r.Success? <==> AllDecode(nodes)
    ensures r.Success? ==> r.value.key == table.key && r.value.name == table.name
    ensures r.Success? && TableWellFormed(table) ==> TableWellFormed(r.value)
    ensures r.Success? && LinkFree(table.columns) ==> LinkFree(r.value.columns)
    decreases |nodes|
  {
    if |nodes| == 0 then Success(table)
    else
      match CreateColumn(nodes[0])
      case Failure(e) => Failure(e)
      case Success(c) =>
        var next := table.(columns := Put(table.columns, c.key, c));
        assert TableWellFormed(table) ==> TableWellFormed(next) by {
          if TableWellFormed(table) {
            PutKeepsTableWellFormed(table, c);
          }
        }
        assert LinkFree(table.columns) ==> LinkFree(next.columns) by {
          if LinkFree(table.columns) {
            PutKeepsLinkFree(table.columns, c);
          }
        }
        LoadColumns(next, nodes[1..])
  }

  /** No column carries a foreign-key link. */
  predicate LinkFree(cols: seq<(Key, TableColumn)>) {
    forall j :: 0 <= j < |cols| ==> !cols[j].1.IsFk()
  }

  /** Storing a column without a link keeps the columns link-free. */
  lemma {:induction false} PutKeepsLinkFree(cols: seq<(Key, TableColumn)>, c: TableColumn)
    requires LinkFree(cols) && !c.IsFk()
    ensures LinkFree(Put(cols, c.key, c))
  {
    var r := Put(cols, c.key, c);
    forall j | 0 <= j < |r| ensures !r[j].1.IsFk() {
      if j < |cols| && cols[j].0 != c.key {
        assert r[j] == cols[j];
      }
    }
  }

  /** `table.columns[column.key] = column` keeps each entry under its own key. */
  lemma {:induction false} PutKeepsTableWellFormed(table: DbTable, c: TableColumn)
    requires TableWellFormed(table)
    ensures TableWellFormed(table.(columns := Put(table.columns, c.key, c)))
  {
    var next := table.(columns := Put(table.columns, c.key, c));
    PutDistinct(table.columns, c.key, c);
    forall j | 0 <= j < |next.columns| ensures next.columns[j].0 == next.columns[j].1.key {
      if j >= |table.columns| || table.columns[j].0 == c.key {
        assert next.columns[j] == (c.key, c) by {
          if j < |table.columns| {
            FirstIndexUnique(table.columns, c.key, j, IndexOf(table.columns, c.key));
          } else {
            assert Keys(next.columns)[j] == c.key;
          }
        }
      }
    }
  }

  /** The entries the column elements decode to, in document order. */
  function ColumnEntries(nodes: seq<XmlNode>): (r: seq<(Key, TableColumn)>)
    requires AllDecode(nodes)
    ensures |r| == |nodes|
    decreases |nodes|
  {
    if |nodes| == 0 then []
    else
      var c := CreateColumn(nodes[0]).value;
      [(c.key, c)] + ColumnEntries(nodes[1..])
  }

  /** When no two column keys clash, the columns land in document order after
      those already there. */
  lemma {:induction false} LoadColumnsInOrder(table: DbTable, nodes: seq<XmlNode>)
    requires AllDecode(nodes)
    requires DistinctKeys(table.columns + ColumnEntries(nodes))
    ensures LoadColumns(table, nodes) == Success(table.(columns := table.columns + ColumnEntries(nodes)))
    decreases |nodes|
  {
    if |nodes| == 0 {
      assert table.columns + ColumnEntries(nodes) == table.columns;
    } else {
      var c := CreateColumn(nodes[0]).value;
      var rest := ColumnEntries(nodes[1..]);
      assert table.columns + ColumnEntries(nodes) == table.columns + [(c.key, c)] + rest;
      PutFresh(table.columns, c.key, c, rest);
      var next := table.(columns := Put(table.columns, c.key, c));
      LoadColumnsInOrder(next, nodes[1..]);
    }
  }

  /** The path `./folder/column` below a table element. */
  const ColumnPath: seq<string> := ["folder", "column"]

  /** One turn of the table loop: the table, then its column elements, then
      its columns. Storing the table in the database before filling it in
      makes no difference, as the database holds the same object. */
  function LoadTable(n: XmlNode): (r: Result<DbTable, LoadError>)
    ensures r.Success? <==>
              CreateTable(n).Success? && Select(n, ColumnPath) != [] && AllDecode(Select(n, ColumnPath))
    ensures r.Success? ==> r.value.key == Attr(n, "id").value && r.value.name == Attr(n, "name").value
    ensures r.Success? ==> TableWellFormed(r.value)
    ensures r.Success? ==> LinkFree(r.value.columns)
  {
    var table :- CreateTable(n);
    var columnNodes :- GetNode(n, ColumnPath);
    LoadColumns(table, columnNodes)
  }

  /** With no two column keys alike, the loaded table holds the decoded
      columns in document order. */
  lemma {:induction false} LoadTableColumns(n: XmlNode)
    requires LoadTable(n).Success?
    requires DistinctKeys(ColumnEntries(Select(n, ColumnPath)))
    ensures LoadTable(n) == Success(CreateTable(n).value.(columns := ColumnEntries(Select(n, ColumnPath))))
  {
    var table := CreateTable(n).value;
    var entries := ColumnEntries(Select(n, ColumnPath));
    assert table.columns + entries == entries;
    LoadColumnsInOrder(table, Select(n, ColumnPath));
  }

  /** The table loop's condition for success: each table element loads. */
  predicate AllLoad(nodes: seq<XmlNode>)
    decreases |nodes|
  {
    |nodes| == 0 || (LoadTable(nodes[0]).Success? && AllLoad(nodes[1..]))
  }

  /** Each table element loads. */
  lemma {:induction false} AllLoadEach(nodes: seq<XmlNode>)
    ensures AllLoad(nodes) <==> forall i :: 0 <= i < |nodes| ==> LoadTable(nodes[i]).Success?
    decreases |nodes|
  {
    if |nodes| > 0 {
      AllLoadEach(nodes[1..]);
      assert forall i :: 1 <= i < |nodes| ==> nodes[i] == nodes[1..][i - 1];
    }
  }

  /** The entries the table elements load to, in document order. */
  function TableEntries(nodes: seq<XmlNode>): (r: seq<(Key, DbTable)>)
    requires AllLoad(nodes)
    ensures |r| == |nodes|
    decreases |nodes|
  {
    if |nodes| == 0 then []
    else
      var t := LoadTable(nodes[0]).value;
      [(t.key, t)] + TableEntries(nodes[1..])
  }

  /** The i-th entry is the i-th table element's `id` with the table loaded
      from that element. */
  lemma {:induction false} TableEntriesAt(nodes: seq<XmlNode>, i: nat)
    requires AllLoad(nodes) && i < |nodes|
    ensures LoadTable(nodes[i]).Success?
    ensures TableEntries(nodes)[i] == (Attr(nodes[i], "id").value, LoadTable(nodes[i]).value)
    decreases i
  {
    TableEntriesHead(nodes);
    if i > 0 {
      TableEntriesAt(nodes[1..], i - 1);
      assert nodes[1..][i - 1] == nodes[i];
      assert TableEntries(nodes)[i] == TableEntries(nodes)[1..][i - 1];
    }
  }

  lemma {:induction false} TableEntriesHead(nodes: seq<XmlNode>)
    requires AllLoad(nodes) && |nodes| > 0
    ensures LoadTable(nodes[0]).Success? && AllLoad(nodes[1..])
    ensures TableEntries(nodes)[0] == (Attr(nodes[0], "id").value, LoadTable(nodes[0]).value)
    ensures TableEntries(nodes)[1..] == TableEntries(nodes[1..])
  {
    var t := LoadTable(nodes[0]).value;
    assert TableEntries(nodes) == [(t.key, t)] + TableEntries(nodes[1..]);
  }

  /** No column of any table carries a foreign-key link. */
  predicate NoLinks(db: DB) {
    forall i :: 0 <= i < |db.tables| ==> LinkFree(db.tables[i].1.columns)
  }

  /** The table loop: `db.tables[table.key] = table` for each table element. */
  function LoadTables(db: DB, nodes: seq<XmlNode>): (r: Result<DB, LoadError>)
    ensures r.Success? && WellFormed(db) && NoLinks(db) ==> WellFormed(r.value) && NoLinks(r.value)
    ensures r.Success? ==> forall k :: k in Keys(db.tables) ==> k in Keys(r.value.tables)
    ensures r.Success? <==> AllLoad(nodes)
    ensures r.Success? ==> forall i :: 0 <= i < |nodes| ==>
              CreateTable(nodes[i]).Success? && CreateTable(nodes[i]).value.key in Keys(r.value.tables)
    decreases |nodes|
  {
    if |nodes| == 0 then Success(db)
    else
      var full :- LoadTable(nodes[0]);
      var next := DB(Put(db.tables, full.key, full));
      assert WellFormed(db) && NoLinks(db) ==> WellFormed(next) && NoLinks(next) by {
        if WellFormed(db) && NoLinks(db) {
          TablesStayWellFormed(db, full);
        }
      }
      assert forall i :: 1 <= i < |nodes| ==> nodes[i] == nodes[1..][i - 1];
      LoadTables(next, nodes[1..])
  }

  /** When no two table ids clash, the tables land in document order after
      those already there, each under its id and loaded from its element. */
  lemma {:induction false} LoadTablesInOrder(db: DB, nodes: seq<XmlNode>)
    requires AllLoad(nodes)
    requires DistinctKeys(db.tables + TableEntries(nodes))
    ensures LoadTables(db, nodes) == Success(DB(db.tables + TableEntries(nodes)))
    decreases |nodes|
  {
    if |nodes| == 0 {
      assert db.tables + TableEntries(nodes) == db.tables;
    } else {
      var t := LoadTable(nodes[0]).value;
      var rest := TableEntries(nodes[1..]);
      assert TableEntries(nodes) == [(t.key, t)] + rest;
      assert db.tables + TableEntries(nodes) == db.tables + [(t.key, t)] + rest;
      PutFresh(db.tables, t.key, t, rest);
      var next := DB(Put(db.tables, t.key, t));
      assert next.tables + rest == db.tables + TableEntries(nodes);
      assert forall i :: 0 <= i < |nodes[1..]| ==> nodes[1..][i] == nodes[i + 1];
      LoadTablesInOrder(next, nodes[1..]);
    }
  }

  /** Storing a well-formed, link-free table under its own key keeps the
      database well formed and link-free. */
  lemma {:induction false} TablesStayWellFormed(db: DB, t: DbTable)
    requires WellFormed(db) && NoLinks(db)
    requires TableWellFormed(t)
    requires LinkFree(t.columns)
    ensures WellFormed(DB(Put(db.tables, t.key, t))) && NoLinks(DB(Put(db.tables, t.key, t)))
  {
    var next := DB(Put(db.tables, t.key, t));
    PutDistinct(db.tables, t.key, t);
    forall i | 0 <= i < |next.tables| ensures next.tables[i] == (t.key, t) || next.tables[i] == db.tables[i] {
      if i < |db.tables| && db.tables[i].0 == t.key {
        FirstIndexUnique(db.tables, t.key, i, IndexOf(db.tables, t.key));
      } else if i >= |db.tables| {
        assert Keys(next.tables)[i] == t.key;
      }
    }
  }

  /** Loading tables fails as soon as some table element has no column: the
      query for its columns raises. */
  lemma {:induction false} TableWithoutColumnsFails(db: DB, nodes: seq<XmlNode>, i: nat)
    requires i < |nodes|
    requires Select(nodes[i], ColumnPath) == []
    ensures LoadTables(db, nodes).Failure?
    decreases |nodes|
  {
    if i == 0 {
      assert LoadTable(nodes[0]).Failure?;
    } else if LoadTable(nodes[0]).Success? {
      var full := LoadTable(nodes[0]).value;
      var next := DB(Put(db.tables, full.key, full));
      assert LoadTables(db, nodes) == LoadTables(next, nodes[1..]);
      assert nodes[1..][i - 1] == nodes[i];
      TableWithoutColumnsFails(next, nodes[1..], i - 1);
    }
  }

  /** The path `./column-mapping` below a relationship element. */
  const MappingPath: seq<string> := ["column-mapping"]

  /** The loop over relationship elements: each adds the relation of its
      first column mapping. */
  function LoadRelations(db: DB, nodes: seq<XmlNode>): (r: Result<DB, LoadError>)
    ensures r.Success? && WellFormed(db) ==> WellFormed(r.value)
    ensures r.Success? ==> Keys(r.value.tables) == Keys(db.tables)
    decreases |nodes|
  {
    if |nodes| == 0 then Success(db)
    else
      var mappings :- GetNode(nodes[0], MappingPath);
      var next :- AddRelationInDb(db, nodes[0], mappings[0]);
      assert WellFormed(db) ==> WellFormed(next) by {
        if WellFormed(db) {
          var pkT, fkT := Attr(nodes[0], "pk-table-ref").value, Attr(nodes[0], "fk-table-ref").value;
          var pkC, fkC := Attr(mappings[0], "pk-column-ref").value, Attr(mappings[0], "fk-column-ref").value;
          AddRelationPreservesWellFormed(db, pkT, fkT, pkC, fkC);
        }
      }
      LoadRelations(next, nodes[1..])
  }

  const TablePath: seq<string> := ["target-database", "table"]
  const RelationshipPath: seq<string> := ["target-database", "relationships", "relationship"]

  /** `load_from_architect_file(filepath)` on the parsed document: every table
      with its columns first, then every relationship. */
  function LoadFromArchitect(root: XmlNode): (r: Result<DB, LoadError>)
    ensures r.Success? ==> WellFormed(r.value)
  {
    var tableNodes :- GetNode(root, TablePath);
    var db :- LoadTables(NewDb(), tableNodes);
    var relationNodes :- GetNode(root, RelationshipPath);
    LoadRelations(db, relationNodes)
  }

  /** A document without relationships does not load: the query raises. */
  lemma {:induction false} NoRelationshipsFails(root: XmlNode)
    requires Select(root, RelationshipPath) == []
    ensures LoadFromArchitect(root).Failure?
  {
  }

  /** A document whose tables cannot all be listed with their columns does not load. */
  lemma {:induction false} TableWithoutColumnsFailsLoad(root: XmlNode, i: nat)
    requires i < |Select(root, TablePath)|
    requires Select(Select(root, TablePath)[i], ColumnPath) == []
    ensures LoadFromArchitect(root).Failure?
  {
    TableWithoutColumnsFails(NewDb(), Select(root, TablePath), i);
  }

  /** Relations never add or remove a table: the loaded tables are exactly
      those the table loop stored. */
  lemma {:induction false} RelationsKeepTables(root: XmlNode)
    requires LoadFromArchitect(root).Success?
    ensures var tables := LoadTables(NewDb(), Select(root, TablePath));
            tables.Success? && Keys(LoadFromArchitect(root).value.tables) == Keys(tables.value.tables)
  {
  }

  /** A loaded document holds one table per table element, keyed by the
      element's `id`, in document order, when no two ids are alike. */
  lemma {:induction false} LoadedTablesInDocumentOrder(root: XmlNode)
    requires LoadFromArchitect(root).Success?
    ensures AllLoad(Select(root, TablePath))
    ensures DistinctKeys(TableEntries(Select(root, TablePath))) ==>
              Keys(LoadFromArchitect(root).value.tables) == Keys(TableEntries(Select(root, TablePath)))
  {
    var nodes := Select(root, TablePath);
    RelationsKeepTables(root);
    if DistinctKeys(TableEntries(nodes)) {
      assert NewDb().tables + TableEntries(nodes) == TableEntries(nodes);
      LoadTablesInOrder(NewDb(), nodes);
    }
  }

  // ---------------------------------------------------------------------------
  // Layout: _set_nodes_head_tail
  // ---------------------------------------------------------------------------

  /** `_set_nodes_head_tail(node, lvl, head, tail)`. */
  function SetHeadTail(n: XmlNode, lvl: nat, head: string, tail: string): (r: XmlNode)
    ensures r.tag == n.tag && r.attrib == n.attrib && |r.children| == |n.children|
    decreases n
  {
    n.(tail := Some(tail + Repeat(head, lvl)),
       text := if |n.children| > 0 then Some(tail + Repeat(head, lvl + 1)) else n.text,
       children := seq(|n.children|, i requires 0 <= i < |n.children| =>
                         SetHeadTail(n.children[i], lvl + 1, head, tail)))
  }

  /** The descendant reached by a list of child positions, if there is one. */
  function At(n: XmlNode, steps: seq<nat>): Option<XmlNode>
    decreases |steps|
  {
    if |steps| == 0 then Some(n)
    else if steps[0] < |n.children| then At(n.children[steps[0]], steps[1..])
    else None
  }

  /** A node `d` levels below the start ends with `tail` and `d` more heads than
      the start level; a node with children opens with one head more than
      that; a leaf keeps its text. */
  lemma {:induction false} SetHeadTailIndents(n: XmlNode, lvl: nat, head: string, tail: string, steps: seq<nat>)
    requires At(n, steps).Some?
    ensures At(SetHeadTail(n, lvl, head, tail), steps).Some?
    ensures var m := At(n, steps).value;
            var r := At(SetHeadTail(n, lvl, head, tail), steps).value;
            && r.tag == m.tag
            && r.tail == Some(tail + Repeat(head, lvl + |steps|))
            && r.text == if |m.children| > 0 then Some(tail + Repeat(head, lvl + |steps| + 1)) else m.text
    decreases |steps|
  {
    if |steps| > 0 {
      var k := steps[0];
      assert SetHeadTail(n, lvl, head, tail).children[k] == SetHeadTail(n.children[k], lvl + 1, head, tail);
      SetHeadTailIndents(n.children[k], lvl + 1, head, tail, steps[1..]);
    }
  }

  /** The element without its layout text: tails dropped, and texts dropped
      where the layout pass overwrites them. */
  function Strip(n: XmlNode): XmlNode
    decreases n
  {
    n.(tail := None,
       text := if |n.children| > 0 then None else n.text,
       children := seq(|n.children|, i requires 0 <= i < |n.children| => Strip(n.children[i])))
  }

  /** Layout changes nothing but layout text. */
  lemma {:induction false} SetHeadTailLayoutOnly(n: XmlNode, lvl: nat, head: string, tail: string)
    ensures Strip(SetHeadTail(n, lvl, head, tail)) == Strip(n)
    decreases n
  {
    var r := SetHeadTail(n, lvl, head, tail);
    forall i | 0 <= i < |n.children| ensures Strip(r.children[i]) == Strip(n.children[i]) {
      SetHeadTailLayoutOnly(n.children[i], lvl + 1, head, tail);
    }
    assert Strip(r).children == Strip(n).children;
  }

  /** Laying out twice is laying out once. */
  lemma {:induction false} SetHeadTailIdempotent(n: XmlNode, lvl: nat, head: string, tail: string)
    ensures SetHeadTail(SetHeadTail(n, lvl, head, tail), lvl, head, tail) == SetHeadTail(n, lvl, head, tail)
    decreases n
  {
    var r := SetHeadTail(n, lvl, head, tail);
    var rr := SetHeadTail(r, lvl, head, tail);
    forall i | 0 <= i < |n.children| ensures rr.children[i] == r.children[i] {
      SetHeadTailIdempotent(n.children[i], lvl + 1, head, tail);
    }
    assert rr.children == r.children;
  }

  // ---------------------------------------------------------------------------
  // _add_int_to_attribute
  // ---------------------------------------------------------------------------

  /** A tree after an in-place update, and the exception that stopped it, if any. */
  datatype Applied = Applied(node: XmlNode, error: Option<LoadError>)

  /** Siblings after an in-place update, and the exception that stopped it, if any. */
  datatype AppliedAmong = AppliedAmong(nodes: seq<XmlNode>, error: Option<LoadError>)

  /** The body of the loop in `_add_int_to_attribute`, on one element found:
      the attribute, then its format, then `str(num + int(value))` in its place. */
  function AddIntToNode(n: XmlNode, attribute: string, num: int): (r: Applied)
    ensures r.node.tag == n.tag && r.node.children == n.children
    ensures r.error.None? <==> Attr(n, attribute).Some? && IsNumeric(Attr(n, attribute).value)
  {
    match GetAttribute(n, attribute)
    case Failure(e) => Applied(n, Some(e))
    case Success(v) =>
      if IsNumeric(v) then
        Applied(n.(attrib := Put(n.attrib, attribute, IntToString(num + DigitsValue(v)))), None)
      else Applied(n, Some(AttributeWrongFormat(attribute, n.tag)))
  }

  /** A missing attribute raises `ExAttributeNotFound`, a non-numeric one
      `ExAttributeWrongFormat`, both leaving the element as it was; otherwise
      the attribute now reads as the sum, in the same place, and every other
      attribute reads as before. */
  lemma {:induction false} AddIntToNodeSpec(n: XmlNode, attribute: string, num: int)
    ensures Attr(n, attribute).None? ==>
              AddIntToNode(n, attribute, num) == Applied(n, Some(AttributeNotFound(attribute, n.tag)))
    ensures Attr(n, attribute).Some? && !IsNumeric(Attr(n, attribute).value) ==>
              AddIntToNode(n, attribute, num) == Applied(n, Some(AttributeWrongFormat(attribute, n.tag)))
    ensures AddIntToNode(n, attribute, num).error.None? ==>
              var m := AddIntToNode(n, attribute, num).node;
              && Keys(m.attrib) == Keys(n.attrib)
              && ParseInt(Attr(m, attribute).value) == Some(num + DigitsValue(Attr(n, attribute).value))
              && forall a :: a != attribute ==> Attr(m, a) == Attr(n, a)
  {
    var before := Attr(n, attribute);
    if before.None? {
      assert GetAttribute(n, attribute) == Failure(AttributeNotFound(attribute, n.tag));
    } else if !IsNumeric(before.value) {
      assert GetAttribute(n, attribute) == Success(before.value);
    } else {
      var value := IntToString(num + DigitsValue(before.value));
      assert GetAttribute(n, attribute) == Success(before.value);
      assert AddIntToNode(n, attribute, num).node == n.(attrib := Put(n.attrib, attribute, value));
      ParseIntToString(num + DigitsValue(before.value));
      SetAttributeReads(n, attribute, value);
    }
  }

  /** Replacing a present attribute keeps the attribute names, and only that
      attribute reads differently. */
  lemma {:induction false} SetAttributeReads(n: XmlNode, attribute: string, value: string)
    requires Attr(n, attribute).Some?
    ensures var m := n.(attrib := Put(n.attrib, attribute, value));
            && Keys(m.attrib) == Keys(n.attrib)
            && Attr(m, attribute) == Some(value)
            && forall a :: a != attribute ==> Attr(m, a) == Attr(n, a)
  {
    var m := n.(attrib := Put(n.attrib, attribute, value));
    PutGet(n.attrib, attribute, value, attribute);
    forall a | a != attribute ensures Attr(m, a) == Attr(n, a) {
      PutGet(n.attrib, attribute, value, a);
    }
  }

  /** The elements `path` reaches below `n` get the update one after the other,
      in document order; the first exception stops the walk and the elements
      already updated stay updated. */
  function AddIntAlong(n: XmlNode, path: seq<string>, attribute: string, num: int): (r: Applied)
    ensures r.node.tag == n.tag
    decreases n
  {
    if |path| == 0 then AddIntToNode(n, attribute, num)
    else
      var a := AddIntAmong(n.children, path, attribute, num);
      Applied(n.(children := a.nodes), a.error)
  }

  function AddIntAmong(cs: seq<XmlNode>, path: seq<string>, attribute: string, num: int): (r: AppliedAmong)
    requires |path| > 0
    ensures |r.nodes| == |cs|
    ensures forall i :: 0 <= i < |cs| ==> r.nodes[i].tag == cs[i].tag
    decreases cs
  {
    if |cs| == 0 then AppliedAmong([], None)
    else
      var first := if cs[0].tag == path[0] then AddIntAlong(cs[0], path[1..], attribute, num)
                   else Applied(cs[0], None);
      if first.error.Some? then AppliedAmong([first.node] + cs[1..], first.error)
      else
        var rest := AddIntAmong(cs[1..], path, attribute, num);
        AppliedAmong([first.node] + rest.nodes, rest.error)
  }

  /** `XmlBrowser._add_int_to_attribute(path, attribute, num)` on the document
      `root`: nothing found raises `ExNodeNotFound` before any change. */
  function AddIntToAttribute(root: XmlNode, path: seq<string>, attribute: string, num: int): (r: Applied)
    requires |path| > 0
    ensures Select(root, path) == [] ==> r == Applied(root, Some(NodeNotFound(Request(path))))
  {
    if |Select(root, path)| == 0 then Applied(root, Some(NodeNotFound(Request(path))))
    else AddIntAlong(root, path, attribute, num)
  }

  /** The exception the first failing element raises, if any does. */
  function FirstError(xs: seq<XmlNode>, attribute: string, num: int): Option<LoadError>
    decreases |xs|
  {
    if |xs| == 0 then None
    else if AddIntToNode(xs[0], attribute, num).error.Some? then AddIntToNode(xs[0], attribute, num).error
    else FirstError(xs[1..], attribute, num)
  }

  /** Every element updated. */
  function UpdatedAll(xs: seq<XmlNode>, attribute: string, num: int): (r: seq<XmlNode>)
    ensures |r| == |xs|
  {
    seq(|xs|, i requires 0 <= i < |xs| => AddIntToNode(xs[i], attribute, num).node)
  }

  lemma {:induction false} FirstErrorAppend(a: seq<XmlNode>, b: seq<XmlNode>, attribute: string, num: int)
    ensures FirstError(a + b, attribute, num) ==
              if FirstError(a, attribute, num).Some? then FirstError(a, attribute, num) else FirstError(b, attribute, num)
    decreases |a|
  {
    if |a| > 0 {
      assert (a + b)[1..] == a[1..] + b;
      FirstErrorAppend(a[1..], b, attribute, num);
    } else {
      assert a + b == b;
    }
  }

  /** The walk stops exactly at the first element the loop would fail on, and
      when nothing fails, a second query finds every element updated. */
  lemma {:induction false} AddIntAlongUpdatesSelection(n: XmlNode, path: seq<string>, attribute: string, num: int)
    ensures AddIntAlong(n, path, attribute, num).error == FirstError(Select(n, path), attribute, num)
    ensures AddIntAlong(n, path, attribute, num).error.None? ==>
              Select(AddIntAlong(n, path, attribute, num).node, path) == UpdatedAll(Select(n, path), attribute, num)
    decreases n
  {
    if |path| == 0 {
      var one := AddIntToNode(n, attribute, num);
      assert FirstError([n], attribute, num) == one.error;
      assert UpdatedAll([n], attribute, num) == [one.node];
    } else {
      AddIntAmongUpdatesSelection(n.children, path, attribute, num);
    }
  }

  lemma {:induction false} UpdatedAllAppend(a: seq<XmlNode>, b: seq<XmlNode>, attribute: string, num: int)
    ensures UpdatedAll(a + b, attribute, num) == UpdatedAll(a, attribute, num) + UpdatedAll(b, attribute, num)
  {
    var l, r := UpdatedAll(a + b, attribute, num), UpdatedAll(a, attribute, num) + UpdatedAll(b, attribute, num);
    forall k | 0 <= k < |l| ensures l[k] == r[k] {
      if k < |a| {
        assert (a + b)[k] == a[k];
      } else {
        assert (a + b)[k] == b[k - |a|];
      }
    }
  }

  /** The elements reached among siblings: those below the first, then the rest. */
  lemma {:induction false} SelectAmongCons(first: XmlNode, rest: seq<XmlNode>, path: seq<string>)
    requires |path| > 0
    ensures SelectAmong([first] + rest, path) ==
              (if first.tag == path[0] then Select(first, path[1..]) else []) + SelectAmong(rest, path)
  {
    assert ([first] + rest)[0] == first;
    assert ([first] + rest)[1..] == rest;
  }

  lemma {:induction false} AddIntAmongUpdatesSelection(cs: seq<XmlNode>, path: seq<string>, attribute: string, num: int)
    requires |path| > 0
    ensures AddIntAmong(cs, path, attribute, num).error == FirstError(SelectAmong(cs, path), attribute, num)
    ensures AddIntAmong(cs, path, attribute, num).error.None? ==>
              SelectAmong(AddIntAmong(cs, path, attribute, num).nodes, path) ==
                UpdatedAll(SelectAmong(cs, path), attribute, num)
    decreases cs
  {
    if |cs| > 0 {
      var here := if cs[0].tag == path[0] then Select(cs[0], path[1..]) else [];
      var first := if cs[0].tag == path[0] then AddIntAlong(cs[0], path[1..], attribute, num)
                   else Applied(cs[0], None);
      assert SelectAmong(cs, path) == here + SelectAmong(cs[1..], path);
      if cs[0].tag == path[0] {
        AddIntAlongUpdatesSelection(cs[0], path[1..], attribute, num);
      }
      assert first.error == FirstError(here, attribute, num);
      FirstErrorAppend(here, SelectAmong(cs[1..], path), attribute, num);
      if first.error.None? {
        AddIntAmongUpdatesSelection(cs[1..], path, attribute, num);
        var rest := AddIntAmong(cs[1..], path, attribute, num);
        assert AddIntAmong(cs, path, attribute, num) == AppliedAmong([first.node] + rest.nodes, rest.error);
        if rest.error.None? {
          SelectAmongCons(first.node, rest.nodes, path);
          assert first.node.tag == cs[0].tag;
          var hereAfter := if cs[0].tag == path[0] then Select(first.node, path[1..]) else [];
          assert hereAfter == UpdatedAll(here, attribute, num);
          UpdatedAllAppend(here, SelectAmong(cs[1..], path), attribute, num);
        }
      }
    }
  }

  /** The found elements as the loop leaves them: each updated in turn until
      one raises; that one and every later one stay as they were. */
  function Walked(xs: seq<XmlNode>, attribute: string, num: int): (r: seq<XmlNode>)
    ensures |r| == |xs|
    decreases |xs|
  {
    if |xs| == 0 then []
    else if AddIntToNode(xs[0], attribute, num).error.Some? then xs
    else [AddIntToNode(xs[0], attribute, num).node] + Walked(xs[1..], attribute, num)
  }

  /** The position of the first found element that raises, or `|xs|` when none does. */
  function FailIndex(xs: seq<XmlNode>, attribute: string, num: int): (k: nat)
    ensures k <= |xs|
    ensures forall j :: 0 <= j < k ==> AddIntToNode(xs[j], attribute, num).error.None?
    ensures k < |xs| ==> AddIntToNode(xs[k], attribute, num).error.Some?
    decreases |xs|
  {
    if |xs| == 0 then 0
    else if AddIntToNode(xs[0], attribute, num).error.Some? then 0
    else
      var k := 1 + FailIndex(xs[1..], attribute, num);
      assert forall j :: 1 <= j < |xs| ==> xs[j] == xs[1..][j - 1];
      k
  }

  /** The loop leaves the elements before the first failure updated and the
      rest untouched. */
  lemma {:induction false} WalkedSplit(xs: seq<XmlNode>, attribute: string, num: int)
    ensures var k := FailIndex(xs, attribute, num);
            Walked(xs, attribute, num) == UpdatedAll(xs[..k], attribute, num) + xs[k..]
    decreases |xs|
  {
    if |xs| == 0 {
      return;
    }
    var head := AddIntToNode(xs[0], attribute, num);
    if head.error.Some? {
      assert FailIndex(xs, attribute, num) == 0;
      assert xs[..0] == [] && xs[0..] == xs;
      assert UpdatedAll([], attribute, num) == [];
    } else {
      var tail := xs[1..];
      var k' := FailIndex(tail, attribute, num);
      assert FailIndex(xs, attribute, num) == k' + 1;
      assert Walked(xs, attribute, num) == [head.node] + Walked(tail, attribute, num);
      WalkedSplit(tail, attribute, num);
      UpdatedFront(xs, k' + 1, attribute, num);
      assert xs[k' + 1..] == tail[k'..];
    }
  }

  lemma {:induction false} UpdatedFront(xs: seq<XmlNode>, k: nat, attribute: string, num: int)
    requires 0 < k <= |xs|
    ensures UpdatedAll(xs[..k], attribute, num) ==
              [AddIntToNode(xs[0], attribute, num).node] + UpdatedAll(xs[1..][..k - 1], attribute, num)
  {
    assert xs[..k] == [xs[0]] + xs[1..][..k - 1];
    UpdatedAllAppend([xs[0]], xs[1..][..k - 1], attribute, num);
  }

  /** The exception the loop raises is that of the element at the failure position. */
  lemma {:induction false} FirstErrorAtFailIndex(xs: seq<XmlNode>, attribute: string, num: int)
    ensures var k := FailIndex(xs, attribute, num);
            FirstError(xs, attribute, num) == if k < |xs| then AddIntToNode(xs[k], attribute, num).error else None
    decreases |xs|
  {
    if |xs| > 0 && AddIntToNode(xs[0], attribute, num).error.None? {
      FirstErrorAtFailIndex(xs[1..], attribute, num);
      var k' := FailIndex(xs[1..], attribute, num);
      assert k' < |xs| - 1 ==> xs[1..][k'] == xs[k' + 1];
    }
  }

  lemma {:induction false} WalkedAppend(a: seq<XmlNode>, b: seq<XmlNode>, attribute: string, num: int)
    ensures Walked(a + b, attribute, num) ==
              if FirstError(a, attribute, num).Some? then Walked(a, attribute, num) + b
              else Walked(a, attribute, num) + Walked(b, attribute, num)
    decreases |a|
  {
    if |a| == 0 {
      assert a + b == b;
      return;
    }
    var head := AddIntToNode(a[0], attribute, num);
    assert (a + b)[0] == a[0];
    assert (a + b)[1..] == a[1..] + b;
    if head.error.Some? {
      assert Walked(a + b, attribute, num) == a + b;
      assert Walked(a, attribute, num) == a;
      assert FirstError(a, attribute, num) == head.error;
    } else {
      assert Walked(a + b, attribute, num) == [head.node] + Walked(a[1..] + b, attribute, num);
      assert Walked(a, attribute, num) == [head.node] + Walked(a[1..], attribute, num);
      assert FirstError(a, attribute, num) == FirstError(a[1..], attribute, num);
      WalkedAppend(a[1..], b, attribute, num);
    }
  }

  /** A second query after the walk finds the walked elements, whether or not
      the walk raised. */
  lemma {:induction false} AddIntAlongWalks(n: XmlNode, path: seq<string>, attribute: string, num: int)
    ensures Select(AddIntAlong(n, path, attribute, num).node, path) == Walked(Select(n, path), attribute, num)
    decreases n
  {
    if |path| == 0 {
      var one := AddIntToNode(n, attribute, num);
      assert Walked([n], attribute, num) == [one.node];
    } else {
      AddIntAmongWalks(n.children, path, attribute, num);
    }
  }

  lemma {:induction false} AddIntAmongWalks(cs: seq<XmlNode>, path: seq<string>, attribute: string, num: int)
    requires |path| > 0
    ensures SelectAmong(AddIntAmong(cs, path, attribute, num).nodes, path) ==
              Walked(SelectAmong(cs, path), attribute, num)
    decreases cs
  {
    if |cs| > 0 {
      var here := if cs[0].tag == path[0] then Select(cs[0], path[1..]) else [];
      var first := if cs[0].tag == path[0] then AddIntAlong(cs[0], path[1..], attribute, num)
                   else Applied(cs[0], None);
      var hereAfter := if cs[0].tag == path[0] then Select(first.node, path[1..]) else [];
      assert SelectAmong(cs, path) == here + SelectAmong(cs[1..], path);
      if cs[0].tag == path[0] {
        AddIntAlongUpdatesSelection(cs[0], path[1..], attribute, num);
        AddIntAlongWalks(cs[0], path[1..], attribute, num);
      }
      assert first.error == FirstError(here, attribute, num);
      assert hereAfter == Walked(here, attribute, num);
      assert first.node.tag == cs[0].tag;
      WalkedAppend(here, SelectAmong(cs[1..], path), attribute, num);
      if first.error.Some? {
        assert AddIntAmong(cs, path, attribute, num).nodes == [first.node] + cs[1..];
        SelectAmongCons(first.node, cs[1..], path);
      } else {
        var rest := AddIntAmong(cs[1..], path, attribute, num);
        AddIntAmongWalks(cs[1..], path, attribute, num);
        assert AddIntAmong(cs, path, attribute, num).nodes == [first.node] + rest.nodes;
        SelectAmongCons(first.node, rest.nodes, path);
      }
    }
  }

  /** Each sibling after the walk is either untouched or walked along the rest of the path. */
  lemma {:induction false} AddIntAmongEach(cs: seq<XmlNode>, path: seq<string>, attribute: string, num: int, i: nat)
    requires |path| > 0 && i < |cs|
    ensures var after := AddIntAmong(cs, path, attribute, num).nodes[i];
            after == cs[i] || (cs[i].tag == path[0] && after == AddIntAlong(cs[i], path[1..], attribute, num).node)
    decreases |cs|
  {
    if i > 0 {
      var first := if cs[0].tag == path[0] then AddIntAlong(cs[0], path[1..], attribute, num)
                   else Applied(cs[0], None);
      if first.error.None? {
        AddIntAmongEach(cs[1..], path, attribute, num, i - 1);
      }
      assert cs[1..][i - 1] == cs[i];
    }
  }

  /** The walk keeps the tree's shape and tags, and an element no chain of the
      path's tags leads to keeps its attributes. */
  lemma {:induction false} AddIntAlongFrame(n: XmlNode, path: seq<string>, attribute: string, num: int, steps: seq<nat>)
    ensures var after := At(AddIntAlong(n, path, attribute, num).node, steps);
            && (after.Some? <==> At(n, steps).Some?)
            && (after.Some? ==> after.value.tag == At(n, steps).value.tag
                                && |after.value.children| == |At(n, steps).value.children|)
            && (after.Some? && !Reaches(n, steps, path, At(n, steps).value) ==>
                  after.value.attrib == At(n, steps).value.attrib)
    decreases |steps|
  {
    var m := AddIntAlong(n, path, attribute, num).node;
    if |path| == 0 {
      assert m.children == n.children;
      if |steps| == 0 {
        assert Reaches(n, steps, path, n);
      }
    } else if |steps| > 0 && steps[0] < |n.children| {
      var i := steps[0];
      var c := n.children[i];
      AddIntAmongEach(n.children, path, attribute, num, i);
      assert m.children[i] == AddIntAmong(n.children, path, attribute, num).nodes[i];
      assert At(m, steps) == At(m.children[i], steps[1..]);
      assert At(n, steps) == At(c, steps[1..]);
      if m.children[i] != c {
        AddIntAlongFrame(c, path[1..], attribute, num, steps[1..]);
      }
    }
  }

  /** `_add_int_to_attribute` raises `ExNodeNotFound` when the path finds
      nothing, otherwise the exception of the first element found that lacks
      the attribute or holds a non-numeric value; when it raises nothing, the
      elements the path finds afterwards are exactly those it found before,
      each with the attribute replaced by the sum. */
  lemma {:induction false} AddIntToAttributeSpec(root: XmlNode, path: seq<string>, attribute: string, num: int)
    requires |path| > 0
    ensures AddIntToAttribute(root, path, attribute, num).error ==
              if Select(root, path) == [] then Some(NodeNotFound(Request(path)))
              else FirstError(Select(root, path), attribute, num)
    ensures AddIntToAttribute(root, path, attribute, num).error.None? ==>
              Select(AddIntToAttribute(root, path, attribute, num).node, path) ==
                UpdatedAll(Select(root, path), attribute, num)
    ensures var found := Select(root, path);
            var k := FailIndex(found, attribute, num);
            Select(AddIntToAttribute(root, path, attribute, num).node, path) ==
              UpdatedAll(found[..k], attribute, num) + found[k..]
  {
    AddIntAlongUpdatesSelection(root, path, attribute, num);
    AddIntAlongWalks(root, path, attribute, num);
    WalkedSplit(Select(root, path), attribute, num);
  }

  /** `_add_int_to_attribute` keeps the tree's shape and tags, and an element
      the path does not lead to keeps its attributes, whether or not it raises. */
  lemma {:induction false} AddIntToAttributeFrame(root: XmlNode, path: seq<string>, attribute: string, num: int, steps: seq<nat>)
    requires |path| > 0
    ensures var after := At(AddIntToAttribute(root, path, attribute, num).node, steps);
            && (after.Some? <==> At(root, steps).Some?)
            && (after.Some? ==> after.value.tag == At(root, steps).value.tag
                                && |after.value.children| == |At(root, steps).value.children|)
            && (after.Some? && !Reaches(root, steps, path, At(root, steps).value) ==>
                  after.value.attrib == At(root, steps).value.attrib)
  {
    if |Select(root, path)| > 0 {
      AddIntAlongFrame(root, path, attribute, num, steps);
    }
  }
}
