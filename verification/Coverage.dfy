/** Which queries the hook confines. It attaches criteria to the classes of the
    select list only (`all_mappers`, `backend/app/core/tenancy.py`, line 180), so a
    table that a query joins or counts without selecting it is read in full. */
module Coverage {
  import opened Wrappers
  import opened Tenancy
  import opened Sets

  /** On every database that keeps its keys and on which no row names another
      workspace's, the rewritten query answers as on the slice. */
  ghost predicate AnsweredOnTheSlice(schema: Schema, s: Statement)
    requires s.Select?
  {
    forall db, ws :: Integrity(schema, db) && Contained(schema, db) ==>
      ExecuteScoped(schema, db, ws, s).1 == Execute(schema, Slice(schema, db, ws), [], s).1
  }

  /** What stands in FROM after the first table: how and what is joined. */
  function Shape(joins: seq<Join>): seq<(JoinKind, string)> {
    seq(|joins|, i requires 0 <= i < |joins| => (joins[i].kind, joins[i].table))
  }

  /** A select list and a FROM whose queries, whatever their conditions, are all
      answered on the slice. */
  ghost predicate AlwaysAnsweredOnTheSlice(schema: Schema, entities: seq<string>, first: string,
                                           from: seq<(JoinKind, string)>, show: set<seq<Entry>> -> Answer)
  {
    forall joins, condition :: Shape(joins) == from ==>
      AnsweredOnTheSlice(schema, Select(entities, first, joins, condition, show))
  }

  function Tables(first: string, from: seq<(JoinKind, string)>): seq<string> {
    [first] + seq(|from|, i requires 0 <= i < |from| => from[i].1)
  }

  /** The answer distinguishes finding nothing from finding something, as rows and
      counts do. */
  ghost predicate Tells(show: set<seq<Entry>> -> Answer) {
    forall tuples :: tuples != {} ==> show(tuples) != show({})
  }

  // ----------------------------------------------------------------- the witness

  /** A row of `t` that `ws` owns, if rows of `t` have an owner. */
  function OwnRow(schema: Schema, ws: Ws, t: string): Row {
    match ScopeOf(schema, t)
    case None => map[]
    case Some(Own) => map[WORKSPACE := Key(ws)]
    case Some(Child(column, _, _)) => map[column := Key(ws)]
  }

  /** In every table, one row that is the workspace's and one that is nobody's. */
  function TwoRows(schema: Schema, ws: Ws, tables: seq<string>): Db {
    map t | t in schema.Keys + (set x | x in tables) :: map[ws := OwnRow(schema, ws, t), ws + 1 := map[]]
  }

  lemma TwoRowsOwners(schema: Schema, ws: Ws, tables: seq<string>, t: string)
    requires t in TwoRows(schema, ws, tables)
    ensures var db := TwoRows(schema, ws, tables);
      && Visible(schema, db, ws, t, OwnRow(schema, ws, t))
      && (Scoped(schema, t) ==> !Visible(schema, db, ws, t, map[]))
  {
    if Scoped(schema, t) && ScopeOf(schema, t).value.Child? {
      ParentsOwnTheirRows(schema, t);
    }
  }

  lemma TwoRowsAreSound(schema: Schema, ws: Ws, tables: seq<string>)
    ensures Integrity(schema, TwoRows(schema, ws, tables)) && Contained(schema, TwoRows(schema, ws, tables))
  {
    var db := TwoRows(schema, ws, tables);
    forall t, id, p, i | t in db && id in db[t] && RefersTo(schema, t, db[t][id], p, i)
      ensures id == i == ws && p in db
    {
    }
    forall t | t in db ensures Scoped(schema, t) ==> Owner(schema, db, t, db[t][ws]) == Some(ws) {
      TwoRowsOwners(schema, ws, tables, t);
    }
  }

  /** The tuple that takes the workspace's row everywhere but at position `k`. */
  function Picked(schema: Schema, ws: Ws, tables: seq<string>, k: nat): seq<Entry> {
    seq(|tables|, i requires 0 <= i < |tables| =>
      if i == k then Present(ws + 1, map[]) else Present(ws, OwnRow(schema, ws, tables[i])))
  }

  function JoinsOf(from: seq<(JoinKind, string)>): seq<Join> {
    seq(|from|, i requires 0 <= i < |from| => Join(from[i].0, from[i].1, (prefix, e) => true))
  }

  /** A query of the given FROM that looks for that tuple. */
  function Seeking(schema: Schema, ws: Ws, entities: seq<string>, first: string, from: seq<(JoinKind, string)>,
                   k: nat, show: set<seq<Entry>> -> Answer): Statement
  {
    Select(entities, first, JoinsOf(from), t => t == Picked(schema, ws, Tables(first, from), k), show)
  }

  predicate Fits(db: Db, options: seq<LoaderCriteria>, table: string, e: Entry) {
    e.Present? && e.id in Rows(db, table) && e.row == Rows(db, table)[e.id] && Allowed(db, options, table, e.row)
  }

  lemma OneJoins(db: Db, options: seq<LoaderCriteria>, j: Join, tuples: set<seq<Entry>>, prefix: seq<Entry>, e: Entry)
    requires prefix in tuples && Fits(db, options, j.table, e) && j.on(prefix, e)
    ensures prefix + [e] in JoinOne(db, options, j, tuples)
  {
    assert e == Present(e.id, Rows(db, j.table)[e.id]);
    assert e in Candidates(db, options, j, prefix);
    assert prefix + [e] in Extensions(db, options, j, prefix);
  }

  /** Rows that pass the criteria, one for each join, extend a tuple. */
  lemma {:induction false} TupleJoins(db: Db, options: seq<LoaderCriteria>, joins: seq<Join>, tuples: set<seq<Entry>>,
                                     prefix: seq<Entry>, entries: seq<Entry>)
    requires prefix in tuples && |entries| == |joins|
    requires forall i :: 0 <= i < |joins| ==> Fits(db, options, joins[i].table, entries[i])
    requires forall i, p :: 0 <= i < |joins| ==> joins[i].on(p, entries[i])
    ensures prefix + entries in JoinAll(db, options, joins, tuples)
  {
    if joins == [] {
      assert prefix + entries == prefix;
    } else {
      var e := entries[0];
      OneJoins(db, options, joins[0], tuples, prefix, e);
      TupleJoins(db, options, joins[1..], JoinOne(db, options, joins[0], tuples), prefix + [e], entries[1..]);
      assert (prefix + [e]) + entries[1..] == prefix + entries;
    }
  }

  predicate ComesFrom(db: Db, table: string, e: Entry) {
    e.Present? ==> e.id in Rows(db, table)
  }

  lemma OneJoinedFrom(db: Db, j: Join, tuples: set<seq<Entry>>, n: nat, t: seq<Entry>)
    requires forall x :: x in tuples ==> |x| == n
    requires t in JoinOne(db, [], j, tuples)
    ensures |t| == n + 1 && t[..n] in tuples && ComesFrom(db, j.table, t[n])
  {
    var x :| x in tuples && t in Extensions(db, [], j, x);
    assert t[..n] == x;
  }

  /** What a joined tuple holds comes from its tables. */
  lemma {:induction false} JoinedFrom(db: Db, joins: seq<Join>, tuples: set<seq<Entry>>, n: nat, t: seq<Entry>)
    requires forall x :: x in tuples ==> |x| == n
    requires t in JoinAll(db, [], joins, tuples)
    ensures |t| == n + |joins| && t[..n] in tuples
    ensures forall i :: 0 <= i < |joins| ==> ComesFrom(db, joins[i].table, t[n + i])
  {
    if joins == [] {
      assert t[..n] == t;
    } else {
      var next := JoinOne(db, [], joins[0], tuples);
      forall y | y in next ensures |y| == n + 1 {
        OneJoinedFrom(db, joins[0], tuples, n, y);
      }
      JoinedFrom(db, joins[1..], next, n + 1, t);
      OneJoinedFrom(db, joins[0], tuples, n, t[..n + 1]);
      assert t[..n + 1][..n] == t[..n];
      forall i | 0 <= i < |joins| ensures ComesFrom(db, joins[i].table, t[n + i]) {
        if i > 0 {
          assert ComesFrom(db, joins[1..][i - 1].table, t[n + 1 + (i - 1)]);
        }
      }
    }
  }

  /** At each position, a tuple of a query holds a row of the table there. */
  lemma TupleFrom(db: Db, first: string, from: seq<(JoinKind, string)>, t: seq<Entry>)
    requires t in JoinAll(db, [], JoinsOf(from), Leading(db, first))
    ensures |t| == |Tables(first, from)|
    ensures forall i :: 0 <= i < |t| ==> ComesFrom(db, Tables(first, from)[i], t[i])
  {
    var joins := JoinsOf(from);
    JoinedFrom(db, joins, Leading(db, first), 1, t);
    assert t[..1][0] == t[0];
    forall i | 0 <= i < |t| ensures ComesFrom(db, Tables(first, from)[i], t[i]) {
      if i > 0 {
        assert ComesFrom(db, joins[i - 1].table, t[1 + (i - 1)]);
      }
    }
  }

  lemma FoundOnTheDatabase(schema: Schema, ws: Ws, entities: seq<string>, first: string, from: seq<(JoinKind, string)>,
                           k: nat, show: set<seq<Entry>> -> Answer)
    requires var tables := Tables(first, from); k < |tables| && tables[k] !in entities
    ensures var s, db := Seeking(schema, ws, entities, first, from, k, show), TwoRows(schema, ws, Tables(first, from));
      Evaluate(db, CriteriaFor(schema, entities, ws), first, s.joins, s.condition) != {}
  {
    var tables := Tables(first, from);
    var db, options, joins := TwoRows(schema, ws, tables), CriteriaFor(schema, entities, ws), JoinsOf(from);
    var tuple := Picked(schema, ws, tables, k);
    PickedFits(schema, ws, entities, tables, k, 0);
    assert [tuple[0]] == [Present(tuple[0].id, Rows(db, first)[tuple[0].id])] && [tuple[0]] in Leading(db, first);
    PickedFitJoins(schema, ws, entities, first, from, k);
    TupleJoins(db, options, joins, Leading(db, first), [tuple[0]], tuple[1..]);
    assert [tuple[0]] + tuple[1..] == tuple;
    var s := Seeking(schema, ws, entities, first, from, k, show);
    assert tuple in Evaluate(db, options, first, s.joins, s.condition);
  }

  lemma PickedFitJoins(schema: Schema, ws: Ws, entities: seq<string>, first: string, from: seq<(JoinKind, string)>,
                       k: nat)
    requires var tables := Tables(first, from); k < |tables| && tables[k] !in entities
    ensures var tables := Tables(first, from);
      var entries := Picked(schema, ws, tables, k)[1..];
      |entries| == |from| && forall i :: 0 <= i < |from| ==>
        Fits(TwoRows(schema, ws, tables), CriteriaFor(schema, entities, ws), JoinsOf(from)[i].table, entries[i])
  {
    var tables := Tables(first, from);
    forall i | 0 <= i < |from|
      ensures Fits(TwoRows(schema, ws, tables), CriteriaFor(schema, entities, ws), JoinsOf(from)[i].table,
                   Picked(schema, ws, tables, k)[1..][i])
    {
      PickedFits(schema, ws, entities, tables, k, i + 1);
    }
  }

  lemma PickedFits(schema: Schema, ws: Ws, entities: seq<string>, tables: seq<string>, k: nat, i: nat)
    requires k < |tables| && tables[k] !in entities && i < |tables|
    ensures Fits(TwoRows(schema, ws, tables), CriteriaFor(schema, entities, ws), tables[i],
                 Picked(schema, ws, tables, k)[i])
  {
    var db, e := TwoRows(schema, ws, tables), Picked(schema, ws, tables, k)[i];
    assert tables[i] in tables;
    TwoRowsOwners(schema, ws, tables, tables[i]);
    AllowedIsVisible(schema, db, entities, ws, tables[i], e.row);
  }

  lemma NotFoundOnTheSlice(schema: Schema, ws: Ws, entities: seq<string>, first: string, from: seq<(JoinKind, string)>,
                           k: nat, show: set<seq<Entry>> -> Answer)
    requires var tables := Tables(first, from); k < |tables| && Scoped(schema, tables[k])
    ensures var s, db := Seeking(schema, ws, entities, first, from, k, show), TwoRows(schema, ws, Tables(first, from));
      Evaluate(Slice(schema, db, ws), [], first, s.joins, s.condition) == {}
  {
    var tables := Tables(first, from);
    var db := TwoRows(schema, ws, tables);
    var slice, tuple := Slice(schema, db, ws), Picked(schema, ws, tables, k);
    assert tables[k] in tables;
    TwoRowsOwners(schema, ws, tables, tables[k]);
    assert tuple[k] == Present(ws + 1, map[]) && !ComesFrom(slice, tables[k], tuple[k]);
    forall t | t in JoinAll(slice, [], JoinsOf(from), Leading(slice, first)) ensures t != tuple {
      TupleFrom(slice, first, from, t);
    }
  }

  /** A select list and a FROM always read the slice, whatever their conditions, if
      and only if every scoped table of the FROM is in the select list. */
  lemma AnsweredOnTheSliceIff(schema: Schema, entities: seq<string>, first: string, from: seq<(JoinKind, string)>,
                              show: set<seq<Entry>> -> Answer)
    requires Tells(show)
    ensures AlwaysAnsweredOnTheSlice(schema, entities, first, from, show)
      <==> forall t :: t in Tables(first, from) && Scoped(schema, t) ==> t in entities
  {
    var tables := Tables(first, from);
    if forall t :: t in tables && Scoped(schema, t) ==> t in entities {
      forall joins, condition | Shape(joins) == from
        ensures AnsweredOnTheSlice(schema, Select(entities, first, joins, condition, show))
      {
        ShapeTables(joins);
        forall db, ws {
          RewrittenSelectReadsTheSlice(schema, db, ws, Select(entities, first, joins, condition, show));
        }
      }
    } else {
      var k :| 0 <= k < |tables| && Scoped(schema, tables[k]) && tables[k] !in entities;
      var ws := 1;
      var s, db := Seeking(schema, ws, entities, first, from, k, show), TwoRows(schema, ws, tables);
      TwoRowsAreSound(schema, ws, tables);
      FoundOnTheDatabase(schema, ws, entities, first, from, k, show);
      NotFoundOnTheSlice(schema, ws, entities, first, from, k, show);
      assert !AnsweredOnTheSlice(schema, s);
      assert Shape(s.joins) == from;
    }
  }

  lemma {:induction false} ShapeTables(joins: seq<Join>)
    ensures JoinTables(joins) == seq(|joins|, i requires 0 <= i < |joins| => Shape(joins)[i].1)
  {
    if joins != [] {
      ShapeTables(joins[1..]);
      assert forall i :: 0 <= i < |joins| - 1 ==> Shape(joins[1..])[i] == Shape(joins)[i + 1];
    }
  }

  // ---------------------------------------------------------- two such queries

  function Count(tuples: set<seq<Entry>>): Answer {
    [[Number(|tuples|)]]
  }

  /** `SELECT count(*) FROM table`: there is no mapped class in the select list. */
  function CountOf(table: string): Statement {
    Select([], table, [], t => true, Count)
  }

  /** A bare count counts every workspace's rows, for every schema and database. */
  lemma CountsSpanWorkspaces(schema: Schema, db: Db, ws: Ws, table: string)
    ensures ExecuteScoped(schema, db, ws, CountOf(table)).1 == Shown([[Number(|Rows(db, table)|)]])
    ensures Execute(schema, Slice(schema, db, ws), [], CountOf(table)).1
      == Shown([[Number(|OwnRows(schema, db, ws, table)|)]])
  {
    NothingSelectedNothingConfined(schema, db, ws, CountOf(table));
    CountedRows(db, table);
    SliceRows(schema, db, ws, table);
    CountedRows(Slice(schema, db, ws), table);
  }

  lemma CountedRows(db: Db, table: string)
    ensures |Evaluate(db, [], table, [], t => true)| == |Rows(db, table)|
  {
    var rows := Rows(db, table);
    var all := Evaluate(db, [], table, [], t => true);
    assert all == Leading(db, table);
    var leading := id => if id in rows then [Present(id, rows[id])] else [];
    ImageSize(rows.Keys, all, leading);
    assert |rows.Keys| == |rows|;
  }

  const PIPELINES: Schema := map["pipelines" := [Column(WORKSPACE, [], [])]]

  /** Two workspaces with a pipeline each. */
  const TWO_PIPELINES: Table := map[7 := map[WORKSPACE := Key(1)], 8 := map[WORKSPACE := Key(2)]]

  lemma OnePipelineEach(db: Db)
    requires db == map["pipelines" := TWO_PIPELINES]
    ensures |TWO_PIPELINES| == 2 && OwnRows(PIPELINES, db, 1, "pipelines") == map[7 := map[WORKSPACE := Key(1)]]
  {
    assert |TWO_PIPELINES| == |TWO_PIPELINES.Keys| && TWO_PIPELINES.Keys == {7, 8};
    assert Column(WORKSPACE, [], []) in PIPELINES["pipelines"] && ScopeOf(PIPELINES, "pipelines") == Some(Own);
    var own := OwnRows(PIPELINES, db, 1, "pipelines");
    assert Rows(db, "pipelines") == TWO_PIPELINES;
    assert OwnColumn(TWO_PIPELINES[7]) == Some(1) && OwnColumn(TWO_PIPELINES[8]) == Some(2);
    assert forall id :: id in own <==> id == 7;
    assert own.Keys == {7};
  }

  /** Workspace 1 counts two, and one on its slice. */
  lemma CountInput()
    ensures var db: Db := map["pipelines" := TWO_PIPELINES];
      && ExecuteScoped(PIPELINES, db, 1, CountOf("pipelines")).1 == Shown([[Number(2)]])
      && Execute(PIPELINES, Slice(PIPELINES, db, 1), [], CountOf("pipelines")).1 == Shown([[Number(1)]])
  {
    var db: Db := map["pipelines" := TWO_PIPELINES];
    OnePipelineEach(db);
    CountsSpanWorkspaces(PIPELINES, db, 1, "pipelines");
  }

  /** A join to a class that is not selected: the assets of workspace 1 beside the
      pipelines of anybody. */
  function AssetsBesidePipelines(show: set<seq<Entry>> -> Answer): Statement {
    Select(["assets"], "assets", [Join(Inner, "pipelines", (prefix, e) => true)], t => true, show)
  }

  lemma NothingToJoin(db: Db, first: string, j: Join, condition: seq<Entry> -> bool)
    requires j.kind.Inner? && Rows(db, j.table) == map[]
    ensures Evaluate(db, [], first, [j], condition) == {}
  {
    var leading := Leading(db, first);
    forall t ensures Extensions(db, [], j, t) == {} {
      assert Candidates(db, [], j, t) == {};
    }
    assert JoinOne(db, [], j, leading) == {};
    assert [j][1..] == [];
    assert JoinAll(db, [], [j], leading) == JoinAll(db, [], [], {});
  }

  const ASSETS_AND_PIPELINES: Schema :=
    map["assets" := [Column(WORKSPACE, [], [])], "pipelines" := [Column(WORKSPACE, [], [])]]

  /** Workspace 1 has an asset, workspace 2 a pipeline. */
  const ONE_OF_EACH: Db :=
    map["assets" := map[5 := map[WORKSPACE := Key(1)]], "pipelines" := map[8 := map[WORKSPACE := Key(2)]]]

  lemma JoinFinds(show: set<seq<Entry>> -> Answer)
    ensures var s := AssetsBesidePipelines(show);
      Evaluate(ONE_OF_EACH, CriteriaFor(ASSETS_AND_PIPELINES, ["assets"], 1), "assets", s.joins, s.condition) != {}
  {
    var asset, pipeline := Present(5, map[WORKSPACE := Key(1)]), Present(8, map[WORKSPACE := Key(2)]);
    AllowedIsVisible(ASSETS_AND_PIPELINES, ONE_OF_EACH, ["assets"], 1, "assets", asset.row);
    AllowedIsVisible(ASSETS_AND_PIPELINES, ONE_OF_EACH, ["assets"], 1, "pipelines", pipeline.row);
    BothFound(ONE_OF_EACH, CriteriaFor(ASSETS_AND_PIPELINES, ["assets"], 1),
              AssetsBesidePipelines(show).joins[0], asset, pipeline);
  }

  lemma NoPipelineIsOwned()
    ensures OwnRows(ASSETS_AND_PIPELINES, ONE_OF_EACH, 1, "pipelines") == map[]
  {
    assert Column(WORKSPACE, [], []) in ASSETS_AND_PIPELINES["pipelines"];
    assert ScopeOf(ASSETS_AND_PIPELINES, "pipelines") == Some(Own);
    assert forall id :: id !in OwnRows(ASSETS_AND_PIPELINES, ONE_OF_EACH, 1, "pipelines");
  }

  lemma JoinInput(show: set<seq<Entry>> -> Answer)
    requires Tells(show)
    ensures var s := AssetsBesidePipelines(show);
      ExecuteScoped(ASSETS_AND_PIPELINES, ONE_OF_EACH, 1, s).1
      != Execute(ASSETS_AND_PIPELINES, Slice(ASSETS_AND_PIPELINES, ONE_OF_EACH, 1), [], s).1
  {
    var s := AssetsBesidePipelines(show);
    JoinFinds(show);
    NoPipelineIsOwned();
    SliceRows(ASSETS_AND_PIPELINES, ONE_OF_EACH, 1, "pipelines");
    NothingToJoin(Slice(ASSETS_AND_PIPELINES, ONE_OF_EACH, 1), "assets", s.joins[0], s.condition);
  }

  lemma BothFound(db: Db, options: seq<LoaderCriteria>, j: Join, a: Entry, b: Entry)
    requires Fits(db, options, "assets", a) && Fits(db, options, j.table, b) && forall p :: j.on(p, b)
    ensures [a, b] in Evaluate(db, options, "assets", [j], t => true)
  {
    assert [a] == [Present(a.id, Rows(db, "assets")[a.id])] && [a] in Leading(db, "assets");
    TupleJoins(db, options, [j], Leading(db, "assets"), [a], [b]);
    assert [a] + [b] == [a, b];
  }
}
