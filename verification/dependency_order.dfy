/** The table ordering loop of `SQLiteScriptBuilder._dump_db`
    (`builder/sqlite_script_builder.py`).

    Tables are scanned in insertion order, pass after pass. A table is placed as
    soon as every key of its `foreign_tables_key()` names a table placed before
    it, including tables placed earlier in the same pass. The loop stops when no
    table remains. When a pass places nothing the Python `while` loop never
    ends; the model returns `None` there, and `NoProgressIsFixpoint` shows that
    the loop's state is then unchanged, so it would repeat that pass for ever. */
module DependencyOrder {

  import opened Wrappers
  import opened OrderedMaps
  import opened Schema

  /** One `db.tables` item: the dictionary key and its table. */
  type Entry = (Key, DbTable)

  predicate AllIn(xs: seq<Key>, ys: seq<Key>) {
    forall i :: 0 <= i < |xs| ==> xs[i] in ys
  }

  /** The inner `for` loop as written: start from `to_insert`, and at the first
      foreign table not yet dumped flip it (`to_insert = not to_insert`) and stop. */
  function ScanForeignKeys(fks: seq<Key>, dumped: seq<Key>, toInsert: bool): (r: bool)
    ensures r == (toInsert <==> AllIn(fks, dumped))
    decreases |fks|
  {
    if |fks| == 0 then toInsert
    else if fks[0] !in dumped then !toInsert
    else
      var r := ScanForeignKeys(fks[1..], dumped, toInsert);
      assert forall i :: 1 <= i < |fks| ==> fks[i] == fks[1..][i - 1];
      r
  }

  /** A table may be placed after `placed` when all its foreign tables are there. */
  predicate Eligible(t: DbTable, placed: seq<Entry>) {
    AllIn(t.ForeignTablesKey(), Keys(placed))
  }

  /** Every table in `out` comes after all the tables its foreign keys name. */
  predicate DepsFirst(out: seq<Entry>) {
    forall i :: 0 <= i < |out| ==> Eligible(out[i].1, out[..i])
  }

  /** After one pass: everything placed so far, and what is still left. */
  datatype PassResult = PassResult(placed: seq<Entry>, rest: seq<Entry>)

  /** One iteration of the `while 1` loop over the remaining tables. */
  function Pass(rem: seq<Entry>, placed: seq<Entry>): (r: PassResult)
    ensures placed <= r.placed
    ensures multiset(r.placed) + multiset(r.rest) == multiset(placed) + multiset(rem)
    ensures |r.rest| <= |rem|
    decreases |rem|
  {
    if |rem| == 0 then PassResult(placed, [])
    else
      var e, tail := rem[0], rem[1..];
      assert rem == [e] + tail;
      if ScanForeignKeys(e.1.ForeignTablesKey(), Keys(placed), true) then
        var q := Pass(tail, placed + [e]);
        MovedToPlaced(q.placed, q.rest, placed, e, tail);
        q
      else
        var q := Pass(tail, placed);
        MovedToRest(q.placed, q.rest, placed, e, tail);
        PassResult(q.placed, [e] + q.rest)
  }

  lemma {:induction false} MovedToPlaced<T>(placed': seq<T>, rest: seq<T>, placed: seq<T>, e: T, tail: seq<T>)
    requires multiset(placed') + multiset(rest) == multiset(placed + [e]) + multiset(tail)
    ensures multiset(placed') + multiset(rest) == multiset(placed) + multiset([e] + tail)
  {
    assert multiset(placed + [e]) == multiset(placed) + multiset{e};
    assert multiset([e] + tail) == multiset{e} + multiset(tail);
  }

  lemma {:induction false} MovedToRest<T>(placed': seq<T>, rest: seq<T>, placed: seq<T>, e: T, tail: seq<T>)
    requires multiset(placed') + multiset(rest) == multiset(placed) + multiset(tail)
    ensures multiset(placed') + multiset([e] + rest) == multiset(placed) + multiset([e] + tail)
  {
    var lhs := multiset(placed') + multiset([e] + rest);
    var rhs := multiset(placed) + multiset([e] + tail);
    assert multiset([e] + rest) == multiset{e} + multiset(rest);
    assert multiset([e] + tail) == multiset{e} + multiset(tail);
    forall x ensures lhs[x] == rhs[x] {
      assert (multiset(placed') + multiset(rest))[x] == (multiset(placed) + multiset(tail))[x];
    }
    assert lhs == rhs;
  }

  /** Appending an eligible table keeps every table after its dependencies. */
  lemma {:induction false} AppendEligible(placed: seq<Entry>, e: Entry)
    requires DepsFirst(placed)
    requires Eligible(e.1, placed)
    ensures DepsFirst(placed + [e])
  {
    var next := placed + [e];
    assert next[..|placed|] == placed;
    forall i | 0 <= i < |placed|
      ensures Eligible(next[i].1, next[..i])
    {
      assert next[..i] == placed[..i];
    }
  }

  /** A pass only places tables whose dependencies are already placed. */
  lemma {:induction false} PassKeepsDepsFirst(rem: seq<Entry>, placed: seq<Entry>)
    ensures DepsFirst(placed) ==> DepsFirst(Pass(rem, placed).placed)
    decreases |rem|
  {
    if |rem| > 0 && DepsFirst(placed) {
      if ScanForeignKeys(rem[0].1.ForeignTablesKey(), Keys(placed), true) {
        AppendEligible(placed, rem[0]);
        PassKeepsDepsFirst(rem[1..], placed + [rem[0]]);
      } else {
        PassKeepsDepsFirst(rem[1..], placed);
      }
    }
  }

  /** The `while 1` loop, from the remaining tables and those already placed. */
  function Loop(rem: seq<Entry>, placed: seq<Entry>): (r: Option<seq<Entry>>)
    ensures r.Some? ==> multiset(r.value) == multiset(placed) + multiset(rem)
    ensures r.Some? ==> placed <= r.value
    decreases |rem|
  {
    var p := Pass(rem, placed);
    if |p.rest| == 0 then Some(p.placed)
    else if |p.rest| == |rem| then None
    else Loop(p.rest, p.placed)
  }

  /** The loop only ever places a table after everything it references. */
  lemma {:induction false} LoopKeepsDepsFirst(rem: seq<Entry>, placed: seq<Entry>)
    requires DepsFirst(placed)
    requires Loop(rem, placed).Some?
    ensures DepsFirst(Loop(rem, placed).value)
    decreases |rem|
  {
    var p := Pass(rem, placed);
    PassKeepsDepsFirst(rem, placed);
    if |p.rest| != 0 {
      LoopKeepsDepsFirst(p.rest, p.placed);
    }
  }

  /** The order in which `_dump_db` writes the tables of `db.tables`. */
  function DumpOrder(tables: seq<Entry>): (r: Option<seq<Entry>>)
    ensures r.Some? ==> multiset(r.value) == multiset(tables)
  {
    Loop(tables, [])
  }

  /** A finished order has every table after the tables it references. */
  lemma {:induction false} DumpOrderDepsFirst(tables: seq<Entry>)
    requires DumpOrder(tables).Some?
    ensures DepsFirst(DumpOrder(tables).value)
  {
    LoopKeepsDepsFirst(tables, []);
  }

  // ---------------------------------------------------------------------------
  // The pass
  // ---------------------------------------------------------------------------

  /** A pass that places nothing leaves the state exactly as it found it, and
      every remaining table was refused. The `while` loop of `_dump_db` then
      runs the same pass again, for ever. */
  lemma {:induction false} NoProgressIsFixpoint(rem: seq<Entry>, placed: seq<Entry>)
    requires |Pass(rem, placed).rest| == |rem|
    ensures Pass(rem, placed) == PassResult(placed, rem)
    ensures forall i :: 0 <= i < |rem| ==> !Eligible(rem[i].1, placed)
  {
    NoProgressKeepsState(rem, placed);
    NoProgressRefusesAll(rem, placed);
  }

  lemma {:induction false} NoProgressKeepsState(rem: seq<Entry>, placed: seq<Entry>)
    requires |Pass(rem, placed).rest| == |rem|
    ensures Pass(rem, placed) == PassResult(placed, rem)
    decreases |rem|
  {
    if |rem| > 0 {
      if ScanForeignKeys(rem[0].1.ForeignTablesKey(), Keys(placed), true) {
        assert false;
      } else {
        NoProgressKeepsState(rem[1..], placed);
        assert rem == [rem[0]] + rem[1..];
      }
    }
  }

  lemma {:induction false} NoProgressRefusesAll(rem: seq<Entry>, placed: seq<Entry>)
    requires |Pass(rem, placed).rest| == |rem|
    ensures forall i :: 0 <= i < |rem| ==> !Eligible(rem[i].1, placed)
    decreases |rem|
  {
    if |rem| > 0 {
      if ScanForeignKeys(rem[0].1.ForeignTablesKey(), Keys(placed), true) {
        assert false;
      } else {
        var q := Pass(rem[1..], placed);
        assert Pass(rem, placed) == PassResult(q.placed, [rem[0]] + q.rest);
        NoProgressRefusesAll(rem[1..], placed);
        assert !Eligible(rem[0].1, placed);
        forall i | 0 <= i < |rem| ensures !Eligible(rem[i].1, placed) {
          if i > 0 {
            assert rem[i] == rem[1..][i - 1];
          }
        }
      }
    }
  }

  /** If some remaining table can be placed after what was placed before the
      pass, the pass places at least one table. */
  lemma {:induction false} PassProgress(rem: seq<Entry>, placed: seq<Entry>, i: nat)
    requires i < |rem|
    requires Eligible(rem[i].1, placed)
    ensures |Pass(rem, placed).rest| < |rem|
    decreases |rem|
  {
    if !ScanForeignKeys(rem[0].1.ForeignTablesKey(), Keys(placed), true) {
      assert i != 0;
      assert rem[1..][i - 1] == rem[i];
      PassProgress(rem[1..], placed, i - 1);
    }
  }

  /** A table without foreign keys is placed in the first pass that reaches it:
      the flipped flag starts `True` and is never flipped for it. */
  lemma {:induction false} NoForeignKeysPlacedFirstPass(rem: seq<Entry>, placed: seq<Entry>, i: nat)
    requires i < |rem|
    requires |rem[i].1.ForeignTablesKey()| == 0
    ensures rem[i] in Pass(rem, placed).placed
    decreases |rem|
  {
    var p := Pass(rem, placed);
    if ScanForeignKeys(rem[0].1.ForeignTablesKey(), Keys(placed), true) {
      if i == 0 {
        assert rem[0] in (placed + [rem[0]]);
        assert (placed + [rem[0]]) <= p.placed;
      } else {
        assert rem[1..][i - 1] == rem[i];
        NoForeignKeysPlacedFirstPass(rem[1..], placed + [rem[0]], i - 1);
      }
    } else {
      assert i != 0;
      assert rem[1..][i - 1] == rem[i];
      NoForeignKeysPlacedFirstPass(rem[1..], placed, i - 1);
    }
  }

  /** Each table of `rem` references only tables placed before it, counting
      the ones ahead of it in `rem`. */
  predicate PlaceableInOrder(rem: seq<Entry>, placed: seq<Entry>)
    decreases |rem|
  {
    |rem| == 0 || (Eligible(rem[0].1, placed) && PlaceableInOrder(rem[1..], placed + [rem[0]]))
  }

  /** `PlaceableInOrder` holds when every table is eligible after its predecessors. */
  lemma {:induction false} PlaceableInOrderEach(rem: seq<Entry>, placed: seq<Entry>)
    requires forall i :: 0 <= i < |rem| ==> Eligible(rem[i].1, placed + rem[..i])
    ensures PlaceableInOrder(rem, placed)
    decreases |rem|
  {
    if |rem| > 0 {
      assert placed + rem[..0] == placed;
      ShiftEligible(rem, placed);
      PlaceableInOrderEach(rem[1..], placed + [rem[0]]);
    }
  }

  /** When no foreign key points forward in scan order, one pass places every
      remaining table, in scan order. */
  lemma {:induction false} PassKeepsOrder(rem: seq<Entry>, placed: seq<Entry>)
    requires PlaceableInOrder(rem, placed)
    ensures Pass(rem, placed) == PassResult(placed + rem, [])
    decreases |rem|
  {
    if |rem| > 0 {
      PassPlacesHead(rem, placed);
      PassKeepsOrder(rem[1..], placed + [rem[0]]);
      AppendHead(placed, rem);
    }
  }

  /** A pass that finds its first table eligible places it and carries on. */
  lemma {:induction false} PassPlacesHead(rem: seq<Entry>, placed: seq<Entry>)
    requires |rem| > 0
    requires Eligible(rem[0].1, placed)
    ensures Pass(rem, placed) == Pass(rem[1..], placed + [rem[0]])
  {
  }

  lemma {:induction false} AppendHead<T>(placed: seq<T>, rem: seq<T>)
    requires |rem| > 0
    ensures placed + [rem[0]] + rem[1..] == placed + rem
  {
    assert rem == [rem[0]] + rem[1..];
  }

  /** Once the head is placed, the rest still references only earlier tables. */
  lemma {:induction false} ShiftEligible(rem: seq<Entry>, placed: seq<Entry>)
    requires |rem| > 0
    requires forall i :: 0 <= i < |rem| ==> Eligible(rem[i].1, placed + rem[..i])
    ensures forall i :: 0 <= i < |rem[1..]| ==> Eligible(rem[1..][i].1, placed + [rem[0]] + rem[1..][..i])
  {
    forall i | 0 <= i < |rem[1..]|
      ensures Eligible(rem[1..][i].1, placed + [rem[0]] + rem[1..][..i])
    {
      ShiftPrefix(placed, rem, i);
      assert rem[1..][i] == rem[i + 1];
    }
  }

  /** Moving the head of `rem` onto `placed` keeps the concatenated prefix. */
  lemma {:induction false} ShiftPrefix<T>(placed: seq<T>, rem: seq<T>, i: nat)
    requires i < |rem|
    ensures placed + [rem[0]] + rem[1..][..i] == placed + rem[..i + 1]
  {
    assert rem[..i + 1] == [rem[0]] + rem[1..][..i];
  }

  // ---------------------------------------------------------------------------
  // Results of the whole loop
  // ---------------------------------------------------------------------------

  /** An empty database gives an empty order, not an error. */
  lemma {:induction false} EmptyDatabaseOrder()
    ensures DumpOrder([]) == Some([])
  {
  }

  /** When every table only references tables inserted before it, the output
      is the insertion order itself. */
  lemma {:induction false} InsertionOrderKept(tables: seq<Entry>)
    requires forall i :: 0 <= i < |tables| ==> Eligible(tables[i].1, tables[..i])
    ensures DumpOrder(tables) == Some(tables)
  {
    FirstPassPlacesAll(tables);
    LoopAfterCompletePass(tables, []);
  }

  /** The first pass over tables that each reference only earlier tables
      places them all, in order. */
  lemma {:induction false} FirstPassPlacesAll(tables: seq<Entry>)
    requires forall i :: 0 <= i < |tables| ==> Eligible(tables[i].1, tables[..i])
    ensures Pass(tables, []) == PassResult(tables, [])
  {
    forall i | 0 <= i < |tables| ensures Eligible(tables[i].1, [] + tables[..i]) {
      assert [] + tables[..i] == tables[..i];
    }
    PlaceableInOrderEach(tables, []);
    PassKeepsOrder(tables, []);
    assert [] + tables == tables;
  }

  /** A pass that places everything ends the loop with what it placed. */
  lemma {:induction false} LoopAfterCompletePass(rem: seq<Entry>, placed: seq<Entry>)
    requires Pass(rem, placed).rest == []
    ensures Loop(rem, placed) == Some(Pass(rem, placed).placed)
  {
  }

  /** The keys of a permutation of a dictionary's items are again distinct:
      each table is written exactly once. */
  lemma {:induction false} PermutationKeepsDistinctKeys(tables: seq<Entry>, out: seq<Entry>)
    requires DistinctKeys(tables)
    requires multiset(out) == multiset(tables)
    ensures DistinctKeys(out)
    ensures |out| == |tables|
  {
    assert |out| == |multiset(out)| == |multiset(tables)| == |tables|;
    forall i, j | 0 <= i < j < |out|
      ensures out[i].0 != out[j].0
    {
      if out[i].0 == out[j].0 {
        assert out[i] in multiset(tables) && out[j] in multiset(tables);
        var a :| 0 <= a < |tables| && tables[a] == out[i];
        var b :| 0 <= b < |tables| && tables[b] == out[j];
        assert a == b;
        TwoPositions(out, i, j);
        OnePosition(tables, a);
        assert false;
      }
    }
  }

  lemma {:induction false} TwoPositions<T>(s: seq<T>, i: nat, j: nat)
    requires i < j < |s| && s[i] == s[j]
    ensures multiset(s)[s[i]] >= 2
  {
    assert s == s[..j] + [s[j]] + s[j + 1..];
    assert s[i] in s[..j];
  }

  lemma {:induction false} OnePosition<K, V>(s: seq<(K, V)>, a: nat)
    requires DistinctKeys(s) && a < |s|
    ensures multiset(s)[s[a]] == 1
  {
    assert s == s[..a] + [s[a]] + s[a + 1..];
    var front, back := s[..a], s[a + 1..];
    forall x | 0 <= x < |front| ensures front[x] != s[a] {
      assert s[x].0 != s[a].0;
    }
    forall x | 0 <= x < |back| ensures back[x] != s[a] {
      assert back[x] == s[a + 1 + x];
      assert s[a + 1 + x].0 != s[a].0;
    }
    assert s[a] !in front;
    assert s[a] !in back;
    assert multiset(s[..a])[s[a]] == 0;
    assert multiset(s[a + 1..])[s[a]] == 0;
  }

  /** For a dictionary of tables, a finished order holds every table exactly once
      and each table after every table it references. */
  lemma {:induction false} DumpOrderCorrect(tables: seq<Entry>)
    requires DistinctKeys(tables)
    requires DumpOrder(tables).Some?
    ensures var out := DumpOrder(tables).value;
            && multiset(out) == multiset(tables)
            && DistinctKeys(out)
            && forall i :: 0 <= i < |out| ==> AllIn(out[i].1.ForeignTablesKey(), Keys(out[..i]))
  {
    PermutationKeepsDistinctKeys(tables, DumpOrder(tables).value);
    DumpOrderDepsFirst(tables);
  }

  /** Every table a foreign key names is placed before the table holding it. */
  lemma {:induction false} DependencyPlacedBefore(tables: seq<Entry>, i: nat, d: Key)
    requires DumpOrder(tables).Some?
    requires i < |DumpOrder(tables).value|
    requires d in DumpOrder(tables).value[i].1.ForeignTablesKey()
    ensures exists k :: 0 <= k < i && DumpOrder(tables).value[k].0 == d
  {
    var order := DumpOrder(tables).value;
    DumpOrderDepsFirst(tables);
    assert Eligible(order[i].1, order[..i]);
    var fks := order[i].1.ForeignTablesKey();
    var j :| 0 <= j < |fks| && fks[j] == d;
    assert d in Keys(order[..i]);
    var k :| 0 <= k < i && Keys(order[..i])[k] == d;
    assert order[k].0 == d;
  }

  // ---------------------------------------------------------------------------
  // Termination: acyclic schemas finish
  // ---------------------------------------------------------------------------

  /** `rank` strictly decreases along every foreign key, and every foreign key
      names a table of the database: the schema is acyclic and complete. */
  predicate Ranked(tables: seq<Entry>, rank: Key -> nat) {
    forall i, j :: 0 <= i < |tables| && 0 <= j < |tables[i].1.ForeignTablesKey()| ==>
      && tables[i].1.ForeignTablesKey()[j] in Keys(tables)
      && rank(tables[i].1.ForeignTablesKey()[j]) < rank(tables[i].0)
  }

  lemma {:induction false} MinRank(rem: seq<Entry>, rank: Key -> nat) returns (m: nat)
    requires |rem| > 0
    ensures m < |rem|
    ensures forall j :: 0 <= j < |rem| ==> rank(rem[m].0) <= rank(rem[j].0)
    decreases |rem|
  {
    if |rem| == 1 {
      m := 0;
    } else {
      var m' := MinRank(rem[1..], rank);
      assert forall j :: 1 <= j < |rem| ==> rem[j] == rem[1..][j - 1];
      m := if rank(rem[0].0) <= rank(rem[m' + 1].0) then 0 else m' + 1;
    }
  }

  lemma {:induction false} LoopFinishesWhenRanked(all: seq<Entry>, rem: seq<Entry>, placed: seq<Entry>, rank: Key -> nat)
    requires Ranked(all, rank)
    requires multiset(placed) + multiset(rem) == multiset(all)
    ensures Loop(rem, placed).Some?
    decreases |rem|
  {
    var p := Pass(rem, placed);
    if |p.rest| != 0 {
      var m := MinRank(rem, rank);
      var t := rem[m].1;
      forall j | 0 <= j < |t.ForeignTablesKey()|
        ensures t.ForeignTablesKey()[j] in Keys(placed)
      {
        assert rem[m] in multiset(all);
        var a :| 0 <= a < |all| && all[a] == rem[m];
        var d := t.ForeignTablesKey()[j];
        assert d in Keys(all) && rank(d) < rank(rem[m].0);
        var b :| 0 <= b < |all| && Keys(all)[b] == d;
        assert all[b] in multiset(placed) + multiset(rem);
        assert all[b] !in rem;
        assert all[b] in placed;
        var y :| 0 <= y < |placed| && placed[y] == all[b];
        assert Keys(placed)[y] == d;
      }
      PassProgress(rem, placed, m);
      LoopFinishesWhenRanked(all, p.rest, p.placed, rank);
    }
  }

  /** An acyclic schema whose foreign keys all name existing tables is always
      ordered: the `while` loop of `_dump_db` terminates on it. */
  lemma {:induction false} AcyclicFinishes(tables: seq<Entry>, rank: Key -> nat)
    requires Ranked(tables, rank)
    ensures DumpOrder(tables).Some?
  {
    LoopFinishesWhenRanked(tables, tables, [], rank);
  }

  // ---------------------------------------------------------------------------
  // Divergence: cycles, self references and dangling references
  // ---------------------------------------------------------------------------

  /** Table `t` references a key in `k`, or a key that names no table. */
  predicate Blocked(t: DbTable, k: set<Key>, all: seq<Entry>) {
    exists j :: 0 <= j < |t.ForeignTablesKey()| &&
      (t.ForeignTablesKey()[j] in k || t.ForeignTablesKey()[j] !in Keys(all))
  }

  /** A non-empty group `k` of tables each waiting on the group itself or on a
      missing table: a cycle, a self reference or a dangling reference. */
  predicate Stuck(all: seq<Entry>, k: set<Key>) {
    && (exists i :: 0 <= i < |all| && all[i].0 in k)
    && forall i :: 0 <= i < |all| && all[i].0 in k ==> Blocked(all[i].1, k, all)
  }

  /** A table of a stuck group waits on a key that no table placed outside the
      group provides, so the scan refuses it. */
  lemma {:induction false} BlockedRefused(all: seq<Entry>, k: set<Key>, t: DbTable, placed: seq<Entry>)
    requires Blocked(t, k, all)
    requires forall x :: x in placed ==> x in all && x.0 !in k
    ensures !Eligible(t, placed)
  {
    var fks := t.ForeignTablesKey();
    var j :| 0 <= j < |fks| && (fks[j] in k || fks[j] !in Keys(all));
    forall d | d in Keys(placed)
      ensures d in Keys(all) && d !in k
    {
      var i := IndexOf(placed, d);
      assert placed[i] in placed;
      var a :| 0 <= a < |all| && all[a] == placed[i];
      assert Keys(all)[a] == d;
    }
    assert fks[j] !in Keys(placed);
  }

  lemma {:induction false} PassAvoidsStuck(all: seq<Entry>, k: set<Key>, rem: seq<Entry>, placed: seq<Entry>)
    requires Stuck(all, k)
    requires forall x :: x in placed ==> x in all && x.0 !in k
    requires forall x :: x in rem ==> x in all
    ensures forall x :: x in Pass(rem, placed).placed ==> x in all && x.0 !in k
    decreases |rem|
  {
    if |rem| > 0 {
      var e := rem[0];
      assert e in rem;
      if e.0 in k {
        var a :| 0 <= a < |all| && all[a] == e;
        assert Blocked(e.1, k, all);
        BlockedRefused(all, k, e.1, placed);
      }
      if ScanForeignKeys(e.1.ForeignTablesKey(), Keys(placed), true) {
        PassAvoidsStuck(all, k, rem[1..], placed + [e]);
      } else {
        PassAvoidsStuck(all, k, rem[1..], placed);
      }
    }
  }

  lemma {:induction false} LoopStuck(all: seq<Entry>, k: set<Key>, rem: seq<Entry>, placed: seq<Entry>)
    requires Stuck(all, k)
    requires multiset(placed) + multiset(rem) == multiset(all)
    requires forall x :: x in placed ==> x.0 !in k
    ensures Loop(rem, placed) == None
    decreases |rem|
  {
    forall x | x in placed ensures x in all {
      assert x in multiset(placed);
      assert x in multiset(all);
    }
    forall x | x in rem ensures x in all {
      assert x in multiset(rem);
      assert x in multiset(all);
    }
    PassAvoidsStuck(all, k, rem, placed);
    var p := Pass(rem, placed);
    var i :| 0 <= i < |all| && all[i].0 in k;
    assert all[i] in multiset(p.placed) + multiset(p.rest);
    assert all[i] !in p.placed;
    assert all[i] in p.rest;
    if |p.rest| != |rem| {
      LoopStuck(all, k, p.rest, p.placed);
    }
  }

  /** A stuck group is never placed: the `while` loop of `_dump_db` runs for ever. */
  lemma {:induction false} StuckDiverges(tables: seq<Entry>, k: set<Key>)
    requires Stuck(tables, k)
    ensures DumpOrder(tables) == None
  {
    LoopStuck(tables, k, tables, []);
  }

  /** A table that references itself is never eligible. */
  lemma {:induction false} SelfReferenceDiverges(tables: seq<Entry>, i: nat)
    requires DistinctKeys(tables)
    requires i < |tables|
    requires tables[i].0 in tables[i].1.ForeignTablesKey()
    ensures DumpOrder(tables) == None
  {
    var k := {tables[i].0};
    forall a | 0 <= a < |tables| && tables[a].0 in k
      ensures Blocked(tables[a].1, k, tables)
    {
      assert a == i;
      var fks := tables[i].1.ForeignTablesKey();
      var j :| 0 <= j < |fks| && fks[j] == tables[i].0;
    }
    StuckDiverges(tables, k);
  }

  /** The tables left by a pass that placed nothing form a stuck group. */
  lemma {:induction false} NoProgressIsStuck(all: seq<Entry>, rem: seq<Entry>, placed: seq<Entry>)
    requires DistinctKeys(all)
    requires multiset(placed) + multiset(rem) == multiset(all)
    requires |rem| > 0
    requires forall i :: 0 <= i < |rem| ==> !Eligible(rem[i].1, placed)
    ensures Stuck(all, set x | x in rem :: x.0)
  {
    var k := set x | x in rem :: x.0;
    assert rem[0] in multiset(all);
    var i0 :| 0 <= i0 < |all| && all[i0] == rem[0];
    assert all[i0].0 in k;
    forall i | 0 <= i < |all| && all[i].0 in k
      ensures Blocked(all[i].1, k, all)
    {
      RemainingByKey(all, rem, placed, i);
      var xi :| 0 <= xi < |rem| && rem[xi] == all[i];
      RefusedIsBlocked(all, rem, placed, all[i].1);
    }
  }

  /** With distinct keys, a table whose key is among the remaining keys is
      itself among the remaining tables. */
  lemma {:induction false} RemainingByKey(all: seq<Entry>, rem: seq<Entry>, placed: seq<Entry>, i: nat)
    requires DistinctKeys(all)
    requires multiset(placed) + multiset(rem) == multiset(all)
    requires i < |all| && all[i].0 in (set x | x in rem :: x.0)
    ensures all[i] in rem
  {
    var x :| x in rem && x.0 == all[i].0;
    assert x in multiset(all);
    var a :| 0 <= a < |all| && all[a] == x;
    assert a == i;
  }

  /** A refused table waits on a remaining table or on a missing one. */
  lemma {:induction false} RefusedIsBlocked(all: seq<Entry>, rem: seq<Entry>, placed: seq<Entry>, t: DbTable)
    requires multiset(placed) + multiset(rem) == multiset(all)
    requires !Eligible(t, placed)
    ensures Blocked(t, set x | x in rem :: x.0, all)
  {
    var fks := t.ForeignTablesKey();
    var j :| 0 <= j < |fks| && fks[j] !in Keys(placed);
    WaitingOnRemaining(all, rem, placed, fks[j]);
  }

  /** A key that is not placed yet names a remaining table or no table at all. */
  lemma {:induction false} WaitingOnRemaining(all: seq<Entry>, rem: seq<Entry>, placed: seq<Entry>, d: Key)
    requires multiset(placed) + multiset(rem) == multiset(all)
    requires d !in Keys(placed)
    ensures d in (set x | x in rem :: x.0) || d !in Keys(all)
  {
    if d in Keys(all) {
      var b :| 0 <= b < |all| && Keys(all)[b] == d;
      assert all[b] in multiset(placed) + multiset(rem);
      if all[b] in placed {
        assert false;
      }
      assert all[b] in rem;
    }
  }

  lemma {:induction false} LoopNoneIsStuck(all: seq<Entry>, rem: seq<Entry>, placed: seq<Entry>)
    requires DistinctKeys(all)
    requires multiset(placed) + multiset(rem) == multiset(all)
    requires Loop(rem, placed) == None
    ensures exists k :: Stuck(all, k)
    decreases |rem|
  {
    var p := Pass(rem, placed);
    if |p.rest| == |rem| {
      NoProgressIsFixpoint(rem, placed);
      NoProgressIsStuck(all, rem, placed);
    } else {
      LoopNoneIsStuck(all, p.rest, p.placed);
    }
  }

  /** For a dictionary of tables the loop fails to finish exactly when some group
      of tables is stuck. */
  lemma {:induction false} DivergesOnlyWhenStuck(tables: seq<Entry>)
    requires DistinctKeys(tables)
    ensures DumpOrder(tables) == None <==> exists k :: Stuck(tables, k)
  {
    if DumpOrder(tables) == None {
      LoopNoneIsStuck(tables, tables, []);
    } else if k :| Stuck(tables, k) {
      StuckDiverges(tables, k);
    }
  }
}
