/** `PythonScriptBuilder` (`builder/python_func_builder.py`): after a fixed
    prelude, two insert helpers per table, in the database's insertion order.
    The prelude's text is a parameter; the request builder it defines is
    modelled by `InsertOrRequest`. */
module PythonScript {

  import opened Wrappers
  import opened Strings
  import opened OrderedMaps
  import opened Schema
  import opened Builders

  /** `tuple(col.name for col in table.columns.values() if not col.pk)`. */
  function NonPkNames(cols: seq<(Key, TableColumn)>): (r: seq<string>)
    ensures |r| <= |cols|
    ensures forall j :: 0 <= j < |cols| && !cols[j].1.pk ==> cols[j].1.name in r
    decreases |cols|
  {
    if |cols| == 0 then []
    else
      var rest := NonPkNames(cols[1..]);
      assert forall j :: 1 <= j < |cols| ==> cols[j] == cols[1..][j - 1];
      (if cols[0].1.pk then [] else [cols[0].1.name]) + rest
  }

  /** Every name in the list is the name of a column that is not a primary key. */
  lemma {:induction false} NonPkNamesOnlyNonPk(cols: seq<(Key, TableColumn)>, x: string)
    requires x in NonPkNames(cols)
    ensures exists j :: 0 <= j < |cols| && !cols[j].1.pk && cols[j].1.name == x
    decreases |cols|
  {
    var rest := NonPkNames(cols[1..]);
    if !cols[0].1.pk && x == cols[0].1.name {
    } else {
      assert x in rest;
      NonPkNamesOnlyNonPk(cols[1..], x);
      var j :| 0 <= j < |cols[1..]| && !cols[1..][j].1.pk && cols[1..][j].1.name == x;
      assert cols[j + 1] == cols[1..][j];
    }
  }

  /** The names keep the columns' order: the names of a concatenation are the
      concatenation of the names. */
  lemma {:induction false} NonPkNamesAppend(a: seq<(Key, TableColumn)>, b: seq<(Key, TableColumn)>)
    ensures NonPkNames(a + b) == NonPkNames(a) + NonPkNames(b)
    decreases |a|
  {
    if |a| > 0 {
      assert (a + b)[1..] == a[1..] + b;
      NonPkNamesAppend(a[1..], b);
    } else {
      assert a + b == b;
    }
  }

  /** The names of one column: its name unless it is a primary key. */
  lemma {:induction false} NonPkNamesSingle(k: Key, c: TableColumn)
    ensures NonPkNames([(k, c)]) == if c.pk then [] else [c.name]
  {
  }

  /** The statement's column list `cols_name`: the primary key's name first when
      `primary_key()` finds one, then the other names. */
  function StatementColumns(t: DbTable): (r: seq<string>)
    ensures t.PrimaryKey().Some? ==> r == [t.PrimaryKey().value.name] + NonPkNames(t.columns)
    ensures t.PrimaryKey().None? ==> r == NonPkNames(t.columns)
  {
    match t.PrimaryKey()
    case Some(pk) => [pk.name] + NonPkNames(t.columns)
    case None => NonPkNames(t.columns)
  }

  /** The names of all columns, in insertion order. */
  function ColumnNames(cols: seq<(Key, TableColumn)>): seq<string>
    decreases |cols|
  {
    if |cols| == 0 then [] else [cols[0].1.name] + ColumnNames(cols[1..])
  }

  /** The names of the primary-key columns, in insertion order. */
  function PkNames(cols: seq<(Key, TableColumn)>): seq<string>
    decreases |cols|
  {
    if |cols| == 0 then []
    else (if cols[0].1.pk then [cols[0].1.name] else []) + PkNames(cols[1..])
  }

  /** Every column name is either a key name or a parameter. */
  lemma {:induction false} NamesByKey(cols: seq<(Key, TableColumn)>)
    ensures multiset(ColumnNames(cols)) == multiset(PkNames(cols)) + multiset(NonPkNames(cols))
    decreases |cols|
  {
    if |cols| > 0 {
      NamesByKey(cols[1..]);
    }
  }

  lemma {:induction false} NoPkNames(cols: seq<(Key, TableColumn)>)
    requires forall j :: 0 <= j < |cols| ==> !cols[j].1.pk
    ensures PkNames(cols) == []
    decreases |cols|
  {
    if |cols| > 0 {
      assert !cols[0].1.pk;
      NoPkNames(cols[1..]);
    }
  }

  lemma {:induction false} OnlyPkNames(cols: seq<(Key, TableColumn)>, p: nat)
    requires p < |cols| && cols[p].1.pk
    requires forall j :: 0 <= j < |cols| && cols[j].1.pk ==> j == p
    ensures PkNames(cols) == [cols[p].1.name]
    decreases |cols|
  {
    if p == 0 {
      NoPkNames(cols[1..]);
    } else {
      assert !cols[0].1.pk;
      OnlyPkNames(cols[1..], p - 1);
    }
  }

  /** With at most one primary-key column, the statement names every column
      of the table exactly once, the primary key first. A second primary-key
      column would be left out of the statement, as `cols_name_no_pk` drops it
      and only `primary_key()` is put back. */
  lemma {:induction false} StatementColumnsCoverTable(t: DbTable)
    requires forall i, j ::
               0 <= i < |t.columns| && 0 <= j < |t.columns| && t.columns[i].1.pk && t.columns[j].1.pk ==> i == j
    ensures multiset(StatementColumns(t)) == multiset(ColumnNames(t.columns))
    ensures t.PrimaryKey().Some? ==> StatementColumns(t)[0] == t.PrimaryKey().value.name
  {
    NamesByKey(t.columns);
    match t.PrimaryKey()
    case Some(pk) =>
      var p :| 0 <= p < |t.columns| && t.columns[p].1 == pk && pk.pk;
      OnlyPkNames(t.columns, p);
    case None =>
      NoPkNames(t.columns);
  }

  /** The parameter list of the single-row helper after `self`. */
  function Parameters(t: DbTable): string {
    Join(", ", NonPkNames(t.columns))
  }

  /** `execute_values`: `None, ` and the names when there is a primary key,
      the names alone otherwise. */
  function ExecuteValues(t: DbTable): string {
    if t.PrimaryKey().Some? then "None, " + Join(", ", NonPkNames(t.columns))
    else Join(", ", NonPkNames(t.columns))
  }

  /** The items of the value tuple: `None` in the primary key's place, then
      the parameters. */
  function ValueItems(t: DbTable): seq<string> {
    (if t.PrimaryKey().Some? then ["None"] else []) + NonPkNames(t.columns)
  }

  /** The intended values and the statement columns line up: one item per
      column, `None` for the primary key, each parameter under its own column
      name. Written out, the values are those items joined by `, `, except that
      a primary key with no other column leaves a trailing `None, `. Whether
      Python reads the written text back as those items is another matter:
      see `SingleColumnValuesNotATuple`. */
  lemma {:induction false} ValuesMatchColumns(t: DbTable)
    ensures |ValueItems(t)| == |StatementColumns(t)|
    ensures t.PrimaryKey().Some? <==> (|ValueItems(t)| > 0 && ValueItems(t)[0] == "None" &&
                                       |NonPkNames(t.columns)| < |ValueItems(t)|)
    ensures var off := if t.PrimaryKey().Some? then 1 else 0;
            forall k :: off <= k < |ValueItems(t)| ==> ValueItems(t)[k] == StatementColumns(t)[k]
    ensures t.PrimaryKey().None? || |NonPkNames(t.columns)| > 0 ==>
              ExecuteValues(t) == Join(", ", ValueItems(t))
    ensures t.PrimaryKey().Some? && |NonPkNames(t.columns)| == 0 ==> ExecuteValues(t) == "None, "
  {
    var names := NonPkNames(t.columns);
    match t.PrimaryKey()
    case Some(pk) =>
      var items := ["None"] + names;
      assert ValueItems(t) == items;
      assert StatementColumns(t) == [pk.name] + names;
      assert items[1..] == names;
      if |names| > 0 {
        JoinAfterNone(names);
      }
    case None =>
      assert ValueItems(t) == names;
  }

  lemma {:induction false} JoinAfterNone(names: seq<string>)
    requires |names| > 0
    ensures Join(", ", ["None"] + names) == "None, " + Join(", ", names)
  {
    var items := ["None"] + names;
    assert items[0] == "None" && items[1..] == names;
  }

  // ---------------------------------------------------------------------------
  // The value tuple as Python reads it
  // ---------------------------------------------------------------------------

  /** A name as it can stand in the emitted code: not empty, no comma, no
      leading space (every Python identifier is one). */
  predicate PlainName(x: string) {
    |x| > 0 && x[0] != ' ' && ',' !in x
  }

  /** How Python reads `(s)` when `s` lists plain names: empty text is the
      empty tuple; text without a comma is a parenthesised expression, not a
      tuple; otherwise the comma-separated items, a trailing comma allowed. */
  function ReadTuple(s: string): Option<seq<string>> {
    if |s| == 0 then Some([])
    else if ',' !in s then None
    else Some(TupleItems(Split(s, ',')))
  }

  /** The comma-separated parts without their leading spaces; an empty last
      part is the trailing comma. */
  function TupleItems(parts: seq<string>): seq<string>
    requires |parts| > 0
  {
    var items := seq(|parts|, i requires 0 <= i < |parts| => StripLeading(parts[i]));
    if items[|items| - 1] == "" then items[..|items| - 1] else items
  }

  /** The items after the first, each behind the space that `", "` puts before it. */
  function Spaced(xs: seq<string>): (r: seq<string>)
    ensures |r| == |xs|
    ensures forall i :: 0 <= i < |xs| ==> r[i] == " " + xs[i]
  {
    seq(|xs|, i requires 0 <= i < |xs| => " " + xs[i])
  }

  lemma {:induction false} SpacedJoin(ys: seq<string>)
    requires |ys| > 0
    ensures " " + Join(", ", ys) == Join(",", Spaced(ys))
    decreases |ys|
  {
    if |ys| > 1 {
      SpacedJoin(ys[1..]);
      assert Spaced(ys)[1..] == Spaced(ys[1..]);
      assert " " + Join(", ", ys) == (" " + ys[0]) + "," + (" " + Join(", ", ys[1..]));
    }
  }

  /** Two or more plain names joined by `", "` read back as exactly those names. */
  lemma {:induction false} ReadJoined(xs: seq<string>)
    requires |xs| >= 2
    requires forall i :: 0 <= i < |xs| ==> PlainName(xs[i])
    ensures ReadTuple(Join(", ", xs)) == Some(xs)
  {
    var parts := [xs[0]] + Spaced(xs[1..]);
    SpacedJoin(xs[1..]);
    assert parts[1..] == Spaced(xs[1..]);
    assert Join(", ", xs) == Join(",", parts);
    var s := Join(",", parts);
    assert s == xs[0] + "," + Join(",", parts[1..]);
    assert s[|xs[0]|] == ',';
    SplitJoin(parts, ',');
    assert Split(s, ',') == parts;
    forall i | 0 <= i < |parts|
      ensures StripLeading(parts[i]) == xs[i]
    {
      if i > 0 {
        assert parts[i] == " " + xs[i];
        assert (" " + xs[i])[1..] == xs[i];
      }
    }
    var items := seq(|parts|, i requires 0 <= i < |parts| => StripLeading(parts[i]));
    assert items == xs;
    assert TupleItems(parts) == xs;
  }

  /** One plain name followed by a comma, with or without a space after it,
      reads back as that one name. */
  lemma {:induction false} ReadSingle(x: string, after: string)
    requires PlainName(x)
    requires after == "" || after == " "
    ensures ReadTuple(x + "," + after) == Some([x])
  {
    var s := x + "," + after;
    assert s == x + [','] + after;
    assert s[|x|] == ',';
    SplitAround(x, ',', after);
    SplitNoSeparator(x, ',');
    SplitNoSeparator(after, ',');
    assert Split(s, ',') == [x, after];
    assert StripLeading(x) == x;
    assert StripLeading(after) == "" by {
      if after == " " {
        assert after[1..] == "";
      }
    }
    var items := seq(2, i requires 0 <= i < 2 => StripLeading([x, after][i]));
    assert items == [x, ""];
    assert TupleItems([x, after]) == items[..1] == [x];
  }

  /** The value text as written, with no primary key and a single other
      column, is that column's name alone: `(title)` is a parenthesised
      string, not a one-item tuple, so `sqlite3` would take it as one binding
      per character. */
  lemma {:induction false} SingleColumnValuesNotATuple(t: DbTable)
    requires t.PrimaryKey().None?
    requires |NonPkNames(t.columns)| == 1 && PlainName(NonPkNames(t.columns)[0])
    ensures ExecuteValues(t) == NonPkNames(t.columns)[0]
    ensures ReadTuple(ExecuteValues(t)) == None
    ensures ValueItems(t) == NonPkNames(t.columns)
  {
  }

  /** A table `book` with the one column `title` emits `(title)` in its
      helper text, which is not a tuple. */
  lemma {:induction false} TitleOnlyTableCounterexample()
    ensures var t := DbTable("b", "book", [("c", NewColumn("c", "title", false, false, 12, false))]);
            && ExecuteValues(t) == "title"
            && ReadTuple(ExecuteValues(t)) == None
            && OccursAt(TableFunctions(t), "        return self.conn.execute(req, (title)) ",
                        JoinOffset("\n", FunctionLines(t), 5))
  {
    var c := NewColumn("c", "title", false, false, 12, false);
    var t := DbTable("b", "book", [("c", c)]);
    NonPkNamesSingle("c", c);
    assert t.PrimaryKey().None?;
    SingleColumnValuesNotATuple(t);
    WrittenValuesLine(t);
    assert ValuesCall("title") == "        return self.conn.execute(req, (title)) ";
  }

  /** The value text with the comma a one-item tuple needs: the written text,
      plus `,` when there is no primary key and exactly one other column. */
  function TupleValues(t: DbTable): string {
    if t.PrimaryKey().None? && |NonPkNames(t.columns)| == 1 then ExecuteValues(t) + ","
    else ExecuteValues(t)
  }

  /** Python reads the corrected value text as exactly the value items, one
      per statement column, whatever the table. */
  lemma {:induction false} TupleValuesRead(t: DbTable)
    requires forall j :: 0 <= j < |t.columns| ==> PlainName(t.columns[j].1.name)
    ensures ReadTuple(TupleValues(t)) == Some(ValueItems(t))
  {
    var names := NonPkNames(t.columns);
    forall i | 0 <= i < |names| ensures PlainName(names[i]) {
      assert names[i] in names;
      NonPkNamesOnlyNonPk(t.columns, names[i]);
    }
    if t.PrimaryKey().Some? {
      KeyedTupleRead(t, names);
    } else {
      UnkeyedTupleRead(t, names);
    }
  }

  lemma {:induction false} KeyedTupleRead(t: DbTable, names: seq<string>)
    requires t.PrimaryKey().Some? && names == NonPkNames(t.columns)
    requires forall i :: 0 <= i < |names| ==> PlainName(names[i])
    ensures ReadTuple(TupleValues(t)) == Some(ValueItems(t))
  {
    var items := ["None"] + names;
    assert ValueItems(t) == items;
    if |names| == 0 {
      assert TupleValues(t) == "None" + "," + " ";
      ReadSingle("None", " ");
      assert items == ["None"];
    } else {
      assert items[1..] == names;
      assert TupleValues(t) == Join(", ", items);
      ReadJoined(items);
    }
  }

  lemma {:induction false} UnkeyedTupleRead(t: DbTable, names: seq<string>)
    requires t.PrimaryKey().None? && names == NonPkNames(t.columns)
    requires forall i :: 0 <= i < |names| ==> PlainName(names[i])
    ensures ReadTuple(TupleValues(t)) == Some(ValueItems(t))
  {
    assert ValueItems(t) == names;
    if |names| == 1 {
      assert TupleValues(t) == names[0] + "," + "";
      ReadSingle(names[0], "");
      assert names == [names[0]];
    } else if |names| > 1 {
      ReadJoined(names);
    }
  }

  // ---------------------------------------------------------------------------
  // The request builder emitted in the prelude
  // ---------------------------------------------------------------------------

  /** `', '.join("?" * n)`: one question mark per column. */
  function Placeholders(n: nat): string {
    Join(", ", seq(n, _ => "?"))
  }

  lemma {:induction false} PlaceholderCount(n: nat)
    ensures CountChar(Placeholders(n), '?') == n
    ensures n == 0 <==> Placeholders(n) == ""
    decreases n
  {
    var marks := seq(n, _ => "?");
    if n == 1 {
      assert Placeholders(1) == "?";
    } else if n > 1 {
      PlaceholderCount(n - 1);
      assert marks[1..] == seq(n - 1, _ => "?");
      assert Placeholders(n) == "?" + ", " + Placeholders(n - 1);
      CountCharAppend("?" + ", ", Placeholders(n - 1), '?');
      CountCharAppend("?", ", ", '?');
    }
  }

  /** `SqLiteRequestBuilder.set_insert_or_x_request(table, columns, operation)`. */
  function InsertOrRequest(operation: string, table: string, columns: seq<string>): string {
    "INSERT OR " + operation + " INTO " + table + " (" + Join(", ", columns) + ") values ("
      + Placeholders(|columns|) + ")"
  }

  /** The request has exactly one placeholder per column, provided the names
      themselves hold no question mark. */
  lemma {:induction false} RequestPlaceholders(operation: string, table: string, columns: seq<string>)
    requires '?' !in operation && '?' !in table
    requires forall i :: 0 <= i < |columns| ==> '?' !in columns[i]
    ensures CountChar(InsertOrRequest(operation, table, columns), '?') == |columns|
  {
    var front := "INSERT OR " + operation + " INTO " + table + " (" + Join(", ", columns) + ") values (";
    JoinAvoids(", ", columns, '?');
    assert '?' !in front;
    CountCharAbsent(front, '?');
    CountCharAbsent(")", '?');
    PlaceholderCount(|columns|);
    CountCharAppend(front, Placeholders(|columns|), '?');
    CountCharAppend(front + Placeholders(|columns|), ")", '?');
  }

  /** The primary key `primary_key()` returns is one of the table's columns. */
  lemma {:induction false} PrimaryKeyIsColumn(t: DbTable)
    requires t.PrimaryKey().Some?
    ensures exists j :: 0 <= j < |t.columns| && t.columns[j].1 == t.PrimaryKey().value
  {
  }

  /** The single-row helper's request asks for as many values as its tuple holds. */
  lemma {:induction false} RowRequestFitsValues(t: DbTable)
    requires '?' !in t.name
    requires forall j :: 0 <= j < |t.columns| ==> '?' !in t.columns[j].1.name
    ensures CountChar(InsertOrRequest("FAIL", t.name, StatementColumns(t)), '?') == |ValueItems(t)|
  {
    var names := NonPkNames(t.columns);
    forall k | 0 <= k < |names| ensures '?' !in names[k] {
      NonPkNamesOnlyNonPk(t.columns, names[k]);
    }
    var cols := StatementColumns(t);
    if t.PrimaryKey().Some? {
      PrimaryKeyIsColumn(t);
      assert cols == [t.PrimaryKey().value.name] + names;
      forall i | 0 <= i < |cols| ensures '?' !in cols[i] {
        if i > 0 {
          assert cols[i] == names[i - 1];
        }
      }
    }
    RequestPlaceholders("FAIL", t.name, cols);
    ValuesMatchColumns(t);
  }

  // ---------------------------------------------------------------------------
  // The helpers of one table
  // ---------------------------------------------------------------------------

  /** `_dump_row_` and the lower-cased table name. */
  function RowFunctionName(t: DbTable): string {
    "_dump_row_" + Lower(t.name)
  }

  /** `_dump_rows_` and the lower-cased table name. */
  function RowsFunctionName(t: DbTable): string {
    "_dump_rows_" + Lower(t.name)
  }

  /** A single-row helper never has the name of a batch helper. */
  lemma {:induction false} FunctionNamesNeverClash(t1: DbTable, t2: DbTable)
    ensures RowFunctionName(t1) != RowsFunctionName(t2)
  {
    assert RowFunctionName(t1)[9] == '_';
    assert RowsFunctionName(t2)[9] == 's';
  }

  /** Two tables get the same helper names exactly when their names agree
      after lower-casing. */
  lemma {:induction false} FunctionNamesFollowLowerName(t1: DbTable, t2: DbTable)
    ensures RowFunctionName(t1) == RowFunctionName(t2) <==> Lower(t1.name) == Lower(t2.name)
    ensures RowsFunctionName(t1) == RowsFunctionName(t2) <==> Lower(t1.name) == Lower(t2.name)
  {
    if RowFunctionName(t1) == RowFunctionName(t2) {
      assert RowFunctionName(t1)[10..] == Lower(t1.name);
      assert RowFunctionName(t2)[10..] == Lower(t2.name);
    }
    if RowsFunctionName(t1) == RowsFunctionName(t2) {
      assert RowsFunctionName(t1)[11..] == Lower(t1.name);
      assert RowsFunctionName(t2)[11..] == Lower(t2.name);
    }
  }

  const Decorator: string := "    @args_logger_decorator"
  const DecoratorPadded: string := "    @args_logger_decorator   "
  const BlankIndent: string := "    "
  const DocQuotes: string := "        \"\"\""
  const DocBody: seq<string> := [
      "        In this function, you need to insert primary key values as None. and respect the same order as in table",
      "",
      "        :param rows: rows to add to table",
      "        :type rows: Iterable",
      "        :param or_x: action to perform if insert fail, available: \"ROLLBACK\", \"ABORT\", \"FAIL\", \"IGNORE\", and \"REPLACE\"",
      "        :type or_x: str",
      "        :return: Cursor",
      "        :rtype: sqlite3.Cursor"]
  const RequestCall: string := "        req = SqLiteRequestBuilder.set_insert_or_x_request(\""

  /** The line of the single-row helper that runs the request on `values`. */
  function ValuesCall(values: string): string {
    "        return self.conn.execute(req, (" + values + ")) "
  }

  /** The lines of `_dump_table(table)`'s template with the given value text
      filled in; they open with an empty line. */
  function HelperLines(t: DbTable, values: string): (r: seq<string>)
    ensures |r| == 22
  {
    var cols := ReprList(StatementColumns(t));
    [ "",
      Decorator,
      "    def " + RowFunctionName(t) + "(self, " + Parameters(t) + "):",
      DocQuotes + "Dump a row in table " + t.name + "\"\"\"",
      RequestCall + t.name + "\", " + cols + ", \"FAIL\")",
      ValuesCall(values),
      BlankIndent,
      DecoratorPadded,
      "    def " + RowsFunctionName(t) + "(self, rows, or_x=\"FAIL\"):",
      DocQuotes + "Dump rows in table " + t.name,
      BlankIndent ]
    + DocBody
    + [ DocQuotes,
        RequestCall + t.name + "\", " + cols + ", or_x)",
        "        return self.conn.executemany(req, rows)" ]
  }

  /** The lines of `_dump_table(table)`'s text as written. */
  function FunctionLines(t: DbTable): (r: seq<string>)
    ensures |r| == 22
  {
    HelperLines(t, ExecuteValues(t))
  }

  /** `_dump_table(table)`. */
  function TableFunctions(t: DbTable): string {
    Join("\n", FunctionLines(t))
  }

  /** The single-row helper passes the value text as written, in parentheses. */
  lemma {:induction false} WrittenValuesLine(t: DbTable)
    ensures FunctionLines(t)[5] == ValuesCall(ExecuteValues(t))
    ensures OccursAt(TableFunctions(t), ValuesCall(ExecuteValues(t)), JoinOffset("\n", FunctionLines(t), 5))
  {
    JoinPlaces("\n", FunctionLines(t), 5);
  }

  /** `_dump_table(table)` with the values text corrected. */
  function CorrectedTableFunctions(t: DbTable): string {
    Join("\n", HelperLines(t, TupleValues(t)))
  }

  /** The corrected helper text differs from the written one only in the line
      that passes the values, and Python reads the tuple there as exactly the
      value items, one per statement column. */
  lemma {:induction false} CorrectedValuesLineReads(t: DbTable)
    requires forall j :: 0 <= j < |t.columns| ==> PlainName(t.columns[j].1.name)
    ensures var lines := HelperLines(t, TupleValues(t));
            && (forall k :: 0 <= k < 22 && k != 5 ==> lines[k] == FunctionLines(t)[k])
            && lines[5] == ValuesCall(TupleValues(t))
            && OccursAt(CorrectedTableFunctions(t), lines[5], JoinOffset("\n", lines, 5))
            && ReadTuple(TupleValues(t)) == Some(ValueItems(t))
  {
    JoinPlaces("\n", HelperLines(t, TupleValues(t)), 5);
    TupleValuesRead(t);
  }

  /** In a table's text, the single-row helper's signature, named after the
      table and taking the non-key names, comes before the batch helper's. */
  lemma {:induction false} HelperSignatures(t: DbTable)
    ensures var lines := FunctionLines(t);
            && lines[2] == "    def " + RowFunctionName(t) + "(self, " + Parameters(t) + "):"
            && lines[8] == "    def " + RowsFunctionName(t) + "(self, rows, or_x=\"FAIL\"):"
            && OccursAt(TableFunctions(t), lines[2], JoinOffset("\n", lines, 2))
            && OccursAt(TableFunctions(t), lines[8], JoinOffset("\n", lines, 8))
            && JoinOffset("\n", lines, 2) + |lines[2]| < JoinOffset("\n", lines, 8)
  {
    var lines := FunctionLines(t);
    JoinPlaces("\n", lines, 2);
    JoinPlaces("\n", lines, 8);
    JoinOffsetsIncrease("\n", lines, 2, 8);
  }

  // ---------------------------------------------------------------------------
  // The file
  // ---------------------------------------------------------------------------

  /** The helpers of every table, in `db.tables` insertion order. */
  function AllTableFunctions(db: DB): (r: seq<string>)
    ensures |r| == |db.tables|
    ensures forall i :: 0 <= i < |r| ==> r[i] == TableFunctions(db.tables[i].1)
  {
    seq(|db.tables|, i requires 0 <= i < |db.tables| => TableFunctions(db.tables[i].1))
  }

  /** `_dump_db(db)`: the prelude, the tables' helpers joined by newlines, and
      a final newline. */
  function DumpBody(prelude: string, db: DB): (r: string)
    ensures StartsWith(r, prelude) && EndsWith(r, "\n")
  {
    var r := prelude + Join("\n", AllTableFunctions(db)) + "\n";
    assert r[..|prelude|] == prelude;
    r
  }

  /** `dump(db)`: the header, a newline, then the body. */
  function Dump(prelude: string, version: string, db: DB): (r: string)
    ensures StartsWith(r, Header(PythonScriptBuilder, version) + "\n")
    ensures r[|Header(PythonScriptBuilder, version) + "\n"|..] == DumpBody(prelude, db)
  {
    var head := Header(PythonScriptBuilder, version) + "\n";
    var r := head + DumpBody(prelude, db);
    assert r[..|head|] == head;
    r
  }

  /** Every table's helpers are in the file at their offset in insertion
      order (not in dependency order). */
  lemma {:induction false} DumpBodyInsertionOrder(prelude: string, db: DB, i: nat, body: string, helpers: seq<string>)
    requires body == DumpBody(prelude, db) && helpers == AllTableFunctions(db)
    requires i < |helpers|
    ensures OccursAt(body, helpers[i], |prelude| + JoinOffset("\n", helpers, i))
  {
    JoinPlacesWithin(body, prelude, "\n", helpers, "\n", i);
  }

  /** Each table's helpers end before the next table's begin. */
  lemma {:induction false} DumpBodyFunctionsInOrder(db: DB, i: nat)
    requires i + 1 < |db.tables|
    ensures JoinOffset("\n", AllTableFunctions(db), i) + |TableFunctions(db.tables[i].1)|
            < JoinOffset("\n", AllTableFunctions(db), i + 1)
  {
    JoinOffsetsIncrease("\n", AllTableFunctions(db), i, i + 1);
  }
}
