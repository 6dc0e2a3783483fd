/** Workspace scoping of ORM statements, `backend/app/core/tenancy.py`.

    A database is a set of tables of rows. A table is scoped either by its own
    `workspace_id` column or through one foreign key to a table that has one.
    The hook adds loader criteria to each SELECT, UPDATE and DELETE; statements
    are executed with the criteria they carry, on the whole database. */
module Tenancy {
  import opened Wrappers

  type Ws = int
  type Id = int

  // ------------------------------------------------------------------ schema

  datatype OnDelete = Restrict | Cascade

  datatype ForeignKey = ForeignKey(parent: string, onDelete: OnDelete)

  /** `uniqueWith` are the unique constraints that begin with the column, each given
      by its other columns: none of them for `unique=True`. */
  datatype Column = Column(name: string, foreignKeys: seq<ForeignKey>, uniqueWith: seq<seq<string>>)

  type Schema = map<string, seq<Column>>

  const EXEMPT_TABLES: set<string> := {"users", "workspaces", "audit_logs"}

  const WORKSPACE: string := "workspace_id"

  predicate HasWorkspaceColumn(schema: Schema, table: string) {
    table in schema && exists c :: c in schema[table] && c.name == WORKSPACE
  }

  /** How a mapped class is scoped: by its own column, or through a parent. */
  datatype How = Own | Child(column: string, parent: string, onDelete: OnDelete)

  predicate ScopedParent(schema: Schema, fk: ForeignKey) {
    fk.parent !in EXEMPT_TABLES && HasWorkspaceColumn(schema, fk.parent)
  }

  function FirstScopedKey(schema: Schema, column: string, fks: seq<ForeignKey>): Option<How> {
    if fks == [] then None
    else if ScopedParent(schema, fks[0]) then Some(Child(column, fks[0].parent, fks[0].onDelete))
    else FirstScopedKey(schema, column, fks[1..])
  }

  /** The scoping foreign key of a table: columns in order, keys in order,
      skipping parents that are exempt or carry no workspace. */
  function ParentScope(schema: Schema, columns: seq<Column>): Option<How> {
    if columns == [] then None
    else
      var found := FirstScopedKey(schema, columns[0].name, columns[0].foreignKeys);
      if found.Some? then found else ParentScope(schema, columns[1..])
  }

  function ScopeOf(schema: Schema, table: string): Option<How> {
    if table in EXEMPT_TABLES || table !in schema then None
    else if HasWorkspaceColumn(schema, table) then Some(Own)
    else ParentScope(schema, schema[table])
  }

  predicate Scoped(schema: Schema, table: string) {
    ScopeOf(schema, table).Some?
  }

  lemma {:induction false} FirstScopedKeyIsAKey(schema: Schema, column: string, fks: seq<ForeignKey>)
    ensures var r := FirstScopedKey(schema, column, fks);
      r.None? <==> forall fk :: fk in fks ==> !ScopedParent(schema, fk)
    ensures var r := FirstScopedKey(schema, column, fks);
      r.Some? ==> r.value.Child? && r.value.column == column
                  && ForeignKey(r.value.parent, r.value.onDelete) in fks
                  && ScopedParent(schema, ForeignKey(r.value.parent, r.value.onDelete))
  {
    if fks != [] {
      FirstScopedKeyIsAKey(schema, column, fks[1..]);
    }
  }

  /** A class has a scoping parent exactly when some column references a
      non-exempt table with a `workspace_id`, and the parent found is one. */
  lemma {:induction false} ParentScopeFindsAParent(schema: Schema, columns: seq<Column>)
    ensures var r := ParentScope(schema, columns);
      r.None? <==> forall c, fk :: c in columns && fk in c.foreignKeys ==> !ScopedParent(schema, fk)
    ensures var r := ParentScope(schema, columns);
      r.Some? ==> r.value.Child? && r.value.parent !in EXEMPT_TABLES && HasWorkspaceColumn(schema, r.value.parent)
  {
    if columns != [] {
      FirstScopedKeyIsAKey(schema, columns[0].name, columns[0].foreignKeys);
      ParentScopeFindsAParent(schema, columns[1..]);
    }
  }

  /** The parent of a child table is itself scoped by its own column: one hop. */
  lemma ParentsOwnTheirRows(schema: Schema, table: string)
    requires ScopeOf(schema, table).Some? && ScopeOf(schema, table).value.Child?
    ensures ScopeOf(schema, ScopeOf(schema, table).value.parent) == Some(Own)
    ensures ScopeOf(schema, table).value.parent != table
  {
    ParentScopeFindsAParent(schema, schema[table]);
  }

  /** Which tables are scoped: those that are not exempt and have a workspace column,
      by it, or else a foreign key to such a table, through that. */
  lemma ScopedIff(schema: Schema, table: string)
    ensures Scoped(schema, table) <==> Unexempt(schema, table) && (HasOwn(schema, table) || HasScopedKey(schema, table))
    ensures ScopeOf(schema, table) == Some(Own) <==> Unexempt(schema, table) && HasOwn(schema, table)
  {
    if table in schema {
      ParentScopeFindsAParent(schema, schema[table]);
      if HasScopedKey(schema, table) {
        var c, fk :| c in schema[table] && fk in c.foreignKeys
          && Unexempt(schema, fk.parent) && HasOwn(schema, fk.parent);
        assert ScopedParent(schema, fk);
      }
      if c, fk :| c in schema[table] && fk in c.foreignKeys && ScopedParent(schema, fk) {
        assert Unexempt(schema, fk.parent) && HasOwn(schema, fk.parent);
      }
    }
  }

  predicate Unexempt(schema: Schema, table: string) {
    table in schema && table != "users" && table != "workspaces" && table != "audit_logs"
  }

  predicate HasOwn(schema: Schema, table: string) {
    table in schema && exists c :: c in schema[table] && c.name == "workspace_id"
  }

  predicate HasScopedKey(schema: Schema, table: string) {
    table in schema && exists c, fk ::
      c in schema[table] && fk in c.foreignKeys && Unexempt(schema, fk.parent) && HasOwn(schema, fk.parent)
  }

  // ---------------------------------------------------------------- database

  datatype Value = Null | Key(id: Id) | Data(text: string) | Number(n: int)

  type Row = map<string, Value>

  type Table = map<Id, Row>

  type Db = map<string, Table>

  function Field(row: Row, column: string): Value {
    if column in row then row[column] else Null
  }

  function Rows(db: Db, table: string): Table {
    if table in db then db[table] else map[]
  }

  function OwnColumn(row: Row): Option<Ws> {
    var v := Field(row, WORKSPACE);
    if v.Key? then Some(v.id) else None
  }

  /** The tenant a row belongs to: its own column, or that of the row its
      scoping foreign key references. */
  function Owner(schema: Schema, db: Db, table: string, row: Row): Option<Ws> {
    match ScopeOf(schema, table)
    case None => None
    case Some(Own) => OwnColumn(row)
    case Some(Child(column, parent, _)) =>
      var v := Field(row, column);
      if v.Key? && v.id in Rows(db, parent) then OwnColumn(Rows(db, parent)[v.id]) else None
  }

  predicate Visible(schema: Schema, db: Db, ws: Ws, table: string, row: Row) {
    Scoped(schema, table) ==> Owner(schema, db, table, row) == Some(ws)
  }

  /** What workspace `ws` may see: its own rows of every scoped table, and the
      unscoped tables in full. */
  function Slice(schema: Schema, db: Db, ws: Ws): Db {
    map t | t in db :: OwnRows(schema, db, ws, t)
  }

  function OwnRows(schema: Schema, db: Db, ws: Ws, table: string): Table {
    map id | id in Rows(db, table) && Visible(schema, db, ws, table, Rows(db, table)[id]) :: Rows(db, table)[id]
  }

  // ------------------------------------------------------------ foreign keys

  /** Some foreign key of the row names row `id` of `parent`. */
  predicate RefersTo(schema: Schema, table: string, row: Row, parent: string, id: Id) {
    table in schema && parent in schema
    && exists c :: c in schema[table] && Field(row, c.name) == Key(id)
                   && exists fk :: fk in c.foreignKeys && fk.parent == parent
  }

  /** Every foreign key of a row, where it is not null, names a row. */
  ghost predicate Resolved(schema: Schema, db: Db, table: string, row: Row) {
    forall parent, id :: RefersTo(schema, table, row, parent, id) ==> id in Rows(db, parent)
  }

  predicate SameValue(a: Row, b: Row, column: string) {
    Field(a, column) != Null && Field(a, column) == Field(b, column)
  }

  /** Some unique constraint of the table forbids the two rows to be in it together. */
  predicate Clash(schema: Schema, table: string, a: Row, b: Row) {
    table in schema && exists c :: c in schema[table] && ClashFrom(c, a, b)
  }

  predicate ClashFrom(c: Column, a: Row, b: Row) {
    SameValue(a, b, c.name) && exists others :: others in c.uniqueWith && forall o :: o in others ==> SameValue(a, b, o)
  }

  /** The rows `ids` of a table clash with no other row of it. */
  predicate FitIn(schema: Schema, table: string, rows: Table, ids: set<Id>) {
    forall i, j :: i in ids && i in rows && j in rows && i != j ==> !Clash(schema, table, rows[i], rows[j])
  }

  ghost predicate Integrity(schema: Schema, db: Db) {
    forall t, id :: t in db && id in db[t] ==> Resolved(schema, db, t, db[t][id])
  }

  /** No row of a scoped table names a row that another workspace owns. */
  ghost predicate Contained(schema: Schema, db: Db) {
    forall t, id, p, i ::
      t in db && id in db[t] && Scoped(schema, t) && RefersTo(schema, t, db[t][id], p, i) && Scoped(schema, p)
      && i in Rows(db, p) && Owner(schema, db, p, Rows(db, p)[i]).Some?
      ==> Owner(schema, db, t, db[t][id]) == Owner(schema, db, p, Rows(db, p)[i])
  }

  lemma {:induction false} ParentScopeIsAKey(schema: Schema, columns: seq<Column>)
    ensures var r := ParentScope(schema, columns);
      r.Some? ==> r.value.Child? && exists c, fk :: c in columns && fk in c.foreignKeys
                                                    && c.name == r.value.column && fk.parent == r.value.parent
  {
    if columns != [] {
      var c := columns[0];
      var r := FirstScopedKey(schema, c.name, c.foreignKeys);
      FirstScopedKeyIsAKey(schema, c.name, c.foreignKeys);
      if r.Some? {
        assert c in columns && ForeignKey(r.value.parent, r.value.onDelete) in c.foreignKeys;
      } else {
        ParentScopeIsAKey(schema, columns[1..]);
      }
    }
  }

  /** The scoping key is one of the keys the database enforces. */
  lemma ScopingKeyRefers(schema: Schema, table: string, row: Row)
    requires ScopeOf(schema, table).Some? && ScopeOf(schema, table).value.Child?
    ensures var how := ScopeOf(schema, table).value;
      Field(row, how.column).Key? ==> RefersTo(schema, table, row, how.parent, Field(row, how.column).id)
  {
    ParentsOwnTheirRows(schema, table);
    ParentScopeIsAKey(schema, schema[table]);
  }

  // --------------------------------------------------------------- statements

  /** One position of a result tuple; `Absent` is the null row of an outer join. */
  datatype Entry = Absent | Present(id: Id, row: Row)

  datatype JoinKind = Inner | LeftOuter

  datatype Join = Join(kind: JoinKind, table: string, on: (seq<Entry>, Entry) -> bool)

  type Answer = seq<seq<Value>>

  /** `entities` are the mapped classes of a select list, and `show` is what becomes
      of the tuples that FROM and WHERE leave: columns, aggregates, order, limit. */
  datatype Statement =
    | Select(entities: seq<string>, first: string, joins: seq<Join>, condition: seq<Entry> -> bool,
             show: set<seq<Entry>> -> Answer)
    | Update(table: string, filter: Row -> bool, assign: Row -> Row)
    | Delete(table: string, filter: Row -> bool)
    | Insert(table: string, id: Id, row: Row)

  /** A loader criterion: `entity.workspace_id == w`, or
      `column IN (SELECT id FROM parent WHERE workspace_id == w)`. */
  datatype Criterion = OwnColumnIs(ws: Ws) | ParentIn(column: string, parent: string, ws: Ws)

  datatype LoaderCriteria = LoaderCriteria(entity: string, criterion: Criterion)

  function ParentIds(db: Db, parent: string, ws: Ws): set<Id> {
    set id | id in Rows(db, parent) && Field(Rows(db, parent)[id], WORKSPACE) == Key(ws)
  }

  predicate Holds(db: Db, c: Criterion, row: Row) {
    match c
    case OwnColumnIs(ws) => Field(row, WORKSPACE) == Key(ws)
    case ParentIn(column, parent, ws) => Field(row, column).Key? && Field(row, column).id in ParentIds(db, parent, ws)
  }

  /** Every criterion attached for an entity applies to every row of it. */
  predicate Allowed(db: Db, options: seq<LoaderCriteria>, table: string, row: Row) {
    forall o :: o in options && o.entity == table ==> Holds(db, o.criterion, row)
  }

  function JoinTables(joins: seq<Join>): seq<string> {
    if joins == [] then [] else [joins[0].table] + JoinTables(joins[1..])
  }

  /** The mapped classes at the top level of a statement: those of the select list,
      not those that it only reads, or the one it writes. */
  function Mappers(s: Statement): seq<string> {
    match s
    case Select(entities, _, _, _, _) => entities
    case Update(table, _, _) => [table]
    case Delete(table, _) => [table]
    case Insert(table, _, _) => [table]
  }

  /** A query is covered when no scoped table of its FROM is missing from its
      select list. */
  predicate Covered(schema: Schema, s: Statement)
    requires s.Select?
  {
    forall t :: t in [s.first] + JoinTables(s.joins) && Scoped(schema, t) ==> t in s.entities
  }

  // ------------------------------------------------------------------- the hook

  function CriterionFor(how: How, ws: Ws): Criterion {
    match how
    case Own => OwnColumnIs(ws)
    case Child(column, parent, _) => ParentIn(column, parent, ws)
  }

  function CriteriaFor(schema: Schema, mappers: seq<string>, ws: Ws): seq<LoaderCriteria> {
    if mappers == [] then []
    else
      (match ScopeOf(schema, mappers[0])
       case None => []
       case Some(how) => [LoaderCriteria(mappers[0], CriterionFor(how, ws))])
      + CriteriaFor(schema, mappers[1..], ws)
  }

  /** The options the hook leaves on a statement issued with `ws` in context. */
  function Rewrite(schema: Schema, s: Statement, ws: Ws): seq<LoaderCriteria> {
    if s.Insert? then [] else CriteriaFor(schema, Mappers(s), ws)
  }

  // ------------------------------------------------------------------- execution

  function Candidates(db: Db, options: seq<LoaderCriteria>, j: Join, prefix: seq<Entry>): set<Entry> {
    set id | id in Rows(db, j.table)
             && j.on(prefix, Present(id, Rows(db, j.table)[id]))
             && Allowed(db, options, j.table, Rows(db, j.table)[id])
      :: Present(id, Rows(db, j.table)[id])
  }

  /** Criteria on a joined entity are part of its ON clause, so an outer join
      null-extends a tuple whose every match they exclude. */
  function Extensions(db: Db, options: seq<LoaderCriteria>, j: Join, prefix: seq<Entry>): set<seq<Entry>> {
    var m := Candidates(db, options, j, prefix);
    if m == {} && j.kind.LeftOuter? then {prefix + [Absent]}
    else set e | e in m :: prefix + [e]
  }

  function JoinAll(db: Db, options: seq<LoaderCriteria>, joins: seq<Join>, tuples: set<seq<Entry>>): set<seq<Entry>> {
    if joins == [] then tuples else JoinAll(db, options, joins[1..], JoinOne(db, options, joins[0], tuples))
  }

  function JoinOne(db: Db, options: seq<LoaderCriteria>, j: Join, tuples: set<seq<Entry>>): set<seq<Entry>> {
    set t, x | t in tuples && x in Extensions(db, options, j, t) :: x
  }

  function Leading(db: Db, table: string): set<seq<Entry>> {
    set id | id in Rows(db, table) :: [Present(id, Rows(db, table)[id])]
  }

  /** The tuples of a SELECT. The criteria on the leading entity are part of the
      WHERE clause, after the joins. */
  function Evaluate(db: Db, options: seq<LoaderCriteria>, first: string, joins: seq<Join>,
                    condition: seq<Entry> -> bool)
    : set<seq<Entry>>
  {
    set t: seq<Entry> | t in JoinAll(db, options, joins, Leading(db, first))
            && t != [] && t[0].Present? && condition(t) && Allowed(db, options, first, t[0].row)
  }

  datatype Outcome = Shown(answer: Answer) | Affected(ids: set<Id>) | Rejected

  function Matching(db: Db, options: seq<LoaderCriteria>, table: string, filter: Row -> bool): set<Id> {
    set id | id in Rows(db, table) && filter(Rows(db, table)[id]) && Allowed(db, options, table, Rows(db, table)[id])
  }

  /** A DELETE removes the rows it matches and the children whose scoping key
      cascades from them. */
  predicate Dead(schema: Schema, table: string, ids: set<Id>, t: string, id: Id, row: Row) {
    (t == table && id in ids)
    || match ScopeOf(schema, t)
       case Some(Child(column, parent, Cascade)) => parent == table && Field(row, column).Key?
         && Field(row, column).id in ids
       case _ => false
  }

  /** A foreign key of a row that stays forbids the removal of the row it names. */
  ghost predicate DeleteAllowed(schema: Schema, db: Db, table: string, ids: set<Id>) {
    forall t, id, parent, i :: !Dangles(schema, db, table, ids, t, id, parent, i)
  }

  /** The row stays and names a row that does not. */
  predicate Dangles(schema: Schema, db: Db, table: string, ids: set<Id>, t: string, id: Id, parent: string, i: Id) {
    && t in db && id in db[t] && !Dead(schema, table, ids, t, id, db[t][id])
    && parent in db && i in db[parent] && Dead(schema, table, ids, parent, i, db[parent][i])
    && RefersTo(schema, t, db[t][id], parent, i)
  }

  function Removed(schema: Schema, db: Db, table: string, ids: set<Id>): Db {
    map t | t in db :: map id | id in db[t] && !Dead(schema, table, ids, t, id, db[t][id]) :: db[t][id]
  }

  function Assigned(rows: Table, ids: set<Id>, assign: Row -> Row): Table {
    map id | id in rows :: if id in ids then assign(rows[id]) else rows[id]
  }

  function With(db: Db, table: string, id: Id, row: Row): Db
    requires table in db
  {
    db[table := db[table][id := row]]
  }

  ghost predicate InsertAllowed(schema: Schema, db: Db, table: string, id: Id, row: Row) {
    && table in db && id !in db[table]
    && Resolved(schema, With(db, table, id, row), table, row)
    && FitIn(schema, table, With(db, table, id, row)[table], {id})
  }

  ghost predicate UpdateAllowed(schema: Schema, db: Db, table: string, ids: set<Id>, assign: Row -> Row) {
    && table in db
    && (forall id :: id in ids && id in db[table] ==> Resolved(schema, db, table, assign(db[table][id])))
    && FitIn(schema, table, Assigned(db[table], ids, assign), ids)
  }

  /** Executes a statement with the criteria it carries. A violation of the primary
      key, of a foreign key or of a unique constraint rejects it without effect. */
  ghost function Execute(schema: Schema, db: Db, options: seq<LoaderCriteria>, s: Statement): (Db, Outcome) {
    match s
    case Select(_, first, joins, condition, show) =>
      (db, Shown(show(Evaluate(db, options, first, joins, condition))))
    case Update(table, filter, assign) =>
      var ids := Matching(db, options, table, filter);
      if UpdateAllowed(schema, db, table, ids, assign)
      then (db[table := Assigned(db[table], ids, assign)], Affected(ids))
      else (db, Rejected)
    case Delete(table, filter) =>
      var ids := Matching(db, options, table, filter);
      if DeleteAllowed(schema, db, table, ids) then (Removed(schema, db, table, ids), Affected(ids)) else (db, Rejected)
    case Insert(table, id, row) =>
      if InsertAllowed(schema, db, table, id, row) then (With(db, table, id, row), Affected({id})) else (db, Rejected)
  }

  /** A statement as workspace `ws` issues it: rewritten, then executed. */
  ghost function ExecuteScoped(schema: Schema, db: Db, ws: Ws, s: Statement): (Db, Outcome) {
    Execute(schema, db, Rewrite(schema, s, ws), s)
  }

  // ------------------------------------------------- the criteria mean ownership

  lemma {:induction false} CriteriaAreThoseOfTheScope(schema: Schema, mappers: seq<string>, ws: Ws, o: LoaderCriteria)
    ensures o in CriteriaFor(schema, mappers, ws) <==>
      o.entity in mappers && Scoped(schema, o.entity)
      && o.criterion == CriterionFor(ScopeOf(schema, o.entity).value, ws)
  {
    if mappers != [] {
      CriteriaAreThoseOfTheScope(schema, mappers[1..], ws, o);
    }
  }

  /** A row passes the criteria the hook attaches exactly when its class is not
      among the mappers, its table is unscoped, or it belongs to the workspace. */
  lemma AllowedIsVisible(schema: Schema, db: Db, mappers: seq<string>, ws: Ws, table: string, row: Row)
    ensures Allowed(db, CriteriaFor(schema, mappers, ws), table, row)
      <==> (table in mappers ==> Visible(schema, db, ws, table, row))
  {
    var options := CriteriaFor(schema, mappers, ws);
    forall o | o in options && o.entity == table
      ensures table in mappers && Scoped(schema, table)
      ensures Holds(db, o.criterion, row) <==> Owner(schema, db, table, row) == Some(ws)
    {
      CriteriaAreThoseOfTheScope(schema, mappers, ws, o);
    }
    if table in mappers && Scoped(schema, table) {
      var o := LoaderCriteria(table, CriterionFor(ScopeOf(schema, table).value, ws));
      CriteriaAreThoseOfTheScope(schema, mappers, ws, o);
      assert o in options;
    }
  }

  // --------------------------------- criteria amount to a smaller database

  /** The rows that pass the criteria. */
  function Restricted(db: Db, options: seq<LoaderCriteria>): Db {
    map t | t in db :: map id | id in db[t] && Allowed(db, options, t, db[t][id]) :: db[t][id]
  }

  lemma RestrictedRows(db: Db, options: seq<LoaderCriteria>, table: string)
    ensures Rows(Restricted(db, options), table)
      == map id | id in Rows(db, table) && Allowed(db, options, table, Rows(db, table)[id]) :: Rows(db, table)[id]
  {
  }

  lemma SliceRows(schema: Schema, db: Db, ws: Ws, table: string)
    ensures Rows(Slice(schema, db, ws), table) == OwnRows(schema, db, ws, table)
    ensures !Scoped(schema, table) ==> OwnRows(schema, db, ws, table) == Rows(db, table)
  {
    var own := OwnRows(schema, db, ws, table);
    assert forall id :: id in own <==> id in Rows(db, table) && Visible(schema, db, ws, table, Rows(db, table)[id]);
  }

  /** One join under criteria gives what it gives without them on the rows that
      pass, outer joins included. */
  lemma ExtensionsRestricted(db: Db, options: seq<LoaderCriteria>, j: Join, prefix: seq<Entry>)
    ensures Extensions(db, options, j, prefix) == Extensions(Restricted(db, options), [], j, prefix)
  {
    RestrictedRows(db, options, j.table);
    var small := Restricted(db, options);
    var a, b := Candidates(db, options, j, prefix), Candidates(small, [], j, prefix);
    forall e | e in a ensures e in b {
      assert e == Present(e.id, Rows(small, j.table)[e.id]);
    }
    forall e | e in b ensures e in a {
      assert e == Present(e.id, Rows(db, j.table)[e.id]);
    }
    assert a == b;
  }

  /** The tuples whose leading row passes. */
  predicate LedBy(db: Db, options: seq<LoaderCriteria>, first: string, t: seq<Entry>) {
    t != [] && t[0].Present? && Allowed(db, options, first, t[0].row)
  }

  lemma {:induction false} JoinsRestricted(db: Db, options: seq<LoaderCriteria>, first: string, joins: seq<Join>,
                                          whole: set<seq<Entry>>, part: set<seq<Entry>>)
    requires forall t :: t in whole ==> t != []
    requires part == set t | t in whole && LedBy(db, options, first, t)
    ensures JoinAll(Restricted(db, options), [], joins, part)
         == set t | t in JoinAll(db, options, joins, whole) && LedBy(db, options, first, t)
    ensures forall t :: t in JoinAll(db, options, joins, whole) ==> t != []
  {
    if joins != [] {
      var small := Restricted(db, options);
      var whole', part' := JoinOne(db, options, joins[0], whole), JoinOne(small, [], joins[0], part);
      forall t ensures Extensions(db, options, joins[0], t) == Extensions(small, [], joins[0], t) {
        ExtensionsRestricted(db, options, joins[0], t);
      }
      forall t, x | t in whole && x in Extensions(db, options, joins[0], t)
        ensures x != [] && x[0] == t[0]
      {
      }
      assert part' == set t | t in whole' && LedBy(db, options, first, t);
      JoinsRestricted(db, options, first, joins[1..], whole', part');
    }
  }

  /** A query under criteria, whatever it joins and however, is the query without
      them on the rows that pass. */
  lemma EvaluateRestricted(db: Db, options: seq<LoaderCriteria>, first: string, joins: seq<Join>,
                           condition: seq<Entry> -> bool)
    ensures Evaluate(db, options, first, joins, condition)
      == Evaluate(Restricted(db, options), [], first, joins, condition)
  {
    var small := Restricted(db, options);
    var whole, part := Leading(db, first), Leading(small, first);
    RestrictedRows(db, options, first);
    forall t: seq<Entry> | t in whole && LedBy(db, options, first, t) ensures t in part {
      assert t == [Present(t[0].id, Rows(small, first)[t[0].id])];
    }
    forall t: seq<Entry> | t in part ensures t in whole && LedBy(db, options, first, t) {
      assert t == [Present(t[0].id, Rows(db, first)[t[0].id])];
    }
    JoinsRestricted(db, options, first, joins, whole, part);
  }

  /** What a query under the hook reads: the slice of the classes it selects, and
      every other table in full. */
  function View(schema: Schema, db: Db, ws: Ws, entities: seq<string>): Db {
    map t | t in db :: if t in entities then OwnRows(schema, db, ws, t) else db[t]
  }

  lemma ViewIsRestriction(schema: Schema, db: Db, ws: Ws, entities: seq<string>)
    ensures Restricted(db, CriteriaFor(schema, entities, ws)) == View(schema, db, ws, entities)
  {
    var options := CriteriaFor(schema, entities, ws);
    var a, b := Restricted(db, options), View(schema, db, ws, entities);
    forall t | t in db ensures a[t] == b[t] {
      forall id | id in db[t] ensures id in a[t] <==> id in b[t] {
        AllowedIsVisible(schema, db, entities, ws, t, db[t][id]);
      }
      assert a[t].Keys == b[t].Keys;
    }
  }

  /** The meaning of the rewrite for every query. */
  lemma RewrittenSelectReadsItsView(schema: Schema, db: Db, ws: Ws, s: Statement)
    requires s.Select?
    ensures ExecuteScoped(schema, db, ws, s).1 == Execute(schema, View(schema, db, ws, s.entities), [], s).1
  {
    EvaluateRestricted(db, CriteriaFor(schema, s.entities, ws), s.first, s.joins, s.condition);
    ViewIsRestriction(schema, db, ws, s.entities);
  }

  lemma {:induction false} JoinsReadTheirTables(a: Db, b: Db, joins: seq<Join>, tuples: set<seq<Entry>>)
    requires forall t :: t in JoinTables(joins) ==> Rows(a, t) == Rows(b, t)
    ensures JoinAll(a, [], joins, tuples) == JoinAll(b, [], joins, tuples)
  {
    if joins != [] {
      var j := joins[0];
      assert j.table in JoinTables(joins);
      forall t ensures Extensions(a, [], j, t) == Extensions(b, [], j, t) {
        assert Candidates(a, [], j, t) == Candidates(b, [], j, t);
      }
      assert JoinOne(a, [], j, tuples) == JoinOne(b, [], j, tuples);
      JoinsReadTheirTables(a, b, joins[1..], JoinOne(a, [], j, tuples));
    }
  }

  /** A rewritten query that covers its tables returns, on the whole database,
      exactly what the original returns on the workspace's slice. */
  lemma RewrittenSelectReadsTheSlice(schema: Schema, db: Db, ws: Ws, s: Statement)
    requires s.Select? && Covered(schema, s)
    ensures ExecuteScoped(schema, db, ws, s).1 == Execute(schema, Slice(schema, db, ws), [], s).1
  {
    var view, slice := View(schema, db, ws, s.entities), Slice(schema, db, ws);
    RewrittenSelectReadsItsView(schema, db, ws, s);
    forall t | t in [s.first] + JoinTables(s.joins) ensures Rows(view, t) == Rows(slice, t) {
      SliceRows(schema, db, ws, t);
    }
    assert Leading(view, s.first) == Leading(slice, s.first);
    JoinsReadTheirTables(view, slice, s.joins, Leading(view, s.first));
    assert Evaluate(view, [], s.first, s.joins, s.condition) == Evaluate(slice, [], s.first, s.joins, s.condition);
  }

  /** A query none of whose selected classes is scoped is not confined at all. */
  lemma NothingSelectedNothingConfined(schema: Schema, db: Db, ws: Ws, s: Statement)
    requires s.Select? && forall t :: t in s.entities ==> !Scoped(schema, t)
    ensures ExecuteScoped(schema, db, ws, s) == Execute(schema, db, [], s)
  {
    var options := CriteriaFor(schema, s.entities, ws);
    if options != [] {
      CriteriaAreThoseOfTheScope(schema, s.entities, ws, options[0]);
    }
  }

  lemma MatchingOnSlice(schema: Schema, db: Db, ws: Ws, table: string, filter: Row -> bool)
    ensures Matching(db, CriteriaFor(schema, [table], ws), table, filter)
         == Matching(Slice(schema, db, ws), [], table, filter)
  {
    SliceRows(schema, db, ws, table);
    forall id | id in Rows(db, table)
      ensures Allowed(db, CriteriaFor(schema, [table], ws), table, Rows(db, table)[id])
        <==> Visible(schema, db, ws, table, Rows(db, table)[id])
    {
      AllowedIsVisible(schema, db, [table], ws, table, Rows(db, table)[id]);
    }
    var whole := Matching(db, CriteriaFor(schema, [table], ws), table, filter);
    var part := Matching(Slice(schema, db, ws), [], table, filter);
    assert forall id :: id in whole <==> id in part;
  }

  /** Whatever goes with the rows a workspace deletes is its own. */
  lemma DeadAreOwn(schema: Schema, db: Db, ws: Ws, table: string, filter: Row -> bool, t: string, id: Id)
    requires t in db && id in db[t]
    requires Dead(schema, table, Matching(db, CriteriaFor(schema, [table], ws), table, filter), t, id, db[t][id])
    ensures Visible(schema, db, ws, t, db[t][id])
    ensures t == table || Scoped(schema, t)
  {
    MatchingOnSlice(schema, db, ws, table, filter);
    SliceRows(schema, db, ws, table);
    if t == table && id in Matching(Slice(schema, db, ws), [], table, filter) {
      assert id in OwnRows(schema, db, ws, table);
    } else {
      ParentsOwnTheirRows(schema, t);
    }
  }

  /** Whatever a rewritten UPDATE or DELETE says, every row the workspace does
      not own is still there, unchanged. */
  lemma RewrittenWriteConfined(schema: Schema, db: Db, ws: Ws, s: Statement, table: string, id: Id)
    requires s.Update? || s.Delete?
    requires table in db && id in db[table] && !Visible(schema, db, ws, table, db[table][id])
    ensures var db' := ExecuteScoped(schema, db, ws, s).0;
      table in db' && id in db'[table] && db'[table][id] == db[table][id]
  {
    if s.Delete? {
      if Dead(schema, s.table, Matching(db, Rewrite(schema, s, ws), s.table, s.filter), table, id, db[table][id]) {
        DeadAreOwn(schema, db, ws, s.table, s.filter, table, id);
      }
    } else {
      MatchingOnSlice(schema, db, ws, s.table, s.filter);
      SliceRows(schema, db, ws, s.table);
    }
  }

  // ------------------------------------------------------ what statements do

  /** The row is one of the statement's table, visible to the workspace, and meets the
      filter. */
  predicate Meets(schema: Schema, db: Db, ws: Ws, table: string, filter: Row -> bool, id: Id) {
    id in Rows(db, table) && Visible(schema, db, ws, table, Rows(db, table)[id]) && filter(Rows(db, table)[id])
  }

  /** Its scoping key cascades from such a row. */
  predicate Follows(schema: Schema, db: Db, ws: Ws, table: string, filter: Row -> bool, t: string, row: Row) {
    match ScopeOf(schema, t)
    case Some(Child(column, parent, Cascade)) =>
      parent == table && Field(row, column).Key? && Meets(schema, db, ws, table, filter, Field(row, column).id)
    case _ => false
  }

  lemma MatchingMeets(schema: Schema, db: Db, ws: Ws, table: string, filter: Row -> bool)
    ensures forall id ::
      id in Matching(db, CriteriaFor(schema, [table], ws), table, filter) <==> Meets(schema, db, ws, table, filter, id)
  {
    MatchingOnSlice(schema, db, ws, table, filter);
    SliceRows(schema, db, ws, table);
  }

  /** A DELETE that takes effect removes exactly the workspace's rows that meet its
      filter and the children that cascade from them, and counts the former. */
  lemma DeleteRemoves(schema: Schema, db: Db, ws: Ws, s: Statement, t: string, id: Id)
    requires s.Delete? && ExecuteScoped(schema, db, ws, s).1.Affected? && t in db && id in db[t]
    ensures var (db', answer) := ExecuteScoped(schema, db, ws, s);
      && t in db'
      && (id in db'[t] <==> !(t == s.table && Meets(schema, db, ws, s.table, s.filter, id))
                            && !Follows(schema, db, ws, s.table, s.filter, t, db[t][id]))
      && (id in db'[t] ==> db'[t][id] == db[t][id])
      && (t == s.table ==> (id in answer.ids <==> Meets(schema, db, ws, s.table, s.filter, id)))
  {
    MatchingMeets(schema, db, ws, s.table, s.filter);
  }

  /** An UPDATE that takes effect assigns exactly the workspace's rows that meet its
      filter, and counts them. */
  lemma UpdateAssigns(schema: Schema, db: Db, ws: Ws, s: Statement, t: string, id: Id)
    requires s.Update? && ExecuteScoped(schema, db, ws, s).1.Affected? && t in db && id in db[t]
    ensures var (db', answer) := ExecuteScoped(schema, db, ws, s);
      && t in db' && id in db'[t]
      && (t == s.table && Meets(schema, db, ws, t, s.filter, id) ==> db'[t][id] == s.assign(db[t][id]))
      && (!(t == s.table && Meets(schema, db, ws, t, s.filter, id)) ==> db'[t][id] == db[t][id])
      && (t == s.table ==> (id in answer.ids <==> Meets(schema, db, ws, t, s.filter, id)))
  {
    MatchingMeets(schema, db, ws, s.table, s.filter);
  }

  /** An INSERT that takes effect adds its row and nothing else; nothing else that is
      written adds a row; and a statement that is rejected changes nothing. */
  lemma NothingElseIsWritten(schema: Schema, db: Db, ws: Ws, s: Statement, t: string, id: Id)
    ensures var (db', answer) := ExecuteScoped(schema, db, ws, s);
      && (s.Select? || answer == Rejected ==> db' == db)
      && (s.Insert? && answer != Rejected ==>
          && answer == Affected({s.id}) && s.id !in Rows(db, s.table)
          && Rows(db', s.table) == Rows(db, s.table)[s.id := s.row])
      && (id in Rows(db', t) && !(s.Insert? && t == s.table && id == s.id) ==> id in Rows(db, t))
      && (s.Insert? && !(t == s.table && id == s.id) && id in Rows(db, t) ==>
          id in Rows(db', t) && Rows(db', t)[id] == Rows(db, t)[id])
  {
  }

  /** A query of one class finds the workspace's rows that meet its condition. */
  lemma QueryFinds(schema: Schema, db: Db, ws: Ws, table: string, condition: seq<Entry> -> bool, id: Id, row: Row)
    ensures [Present(id, row)] in Evaluate(db, CriteriaFor(schema, [table], ws), table, [], condition) <==>
      && id in Rows(db, table) && Rows(db, table)[id] == row
      && Visible(schema, db, ws, table, row) && condition([Present(id, row)])
  {
    AllowedIsVisible(schema, db, [table], ws, table, row);
    if id in Rows(db, table) && Rows(db, table)[id] == row {
      assert [Present(id, Rows(db, table)[id])] in Leading(db, table);
    }
  }

  /** A join pairs a tuple with every row that its condition admits; an outer one keeps
      a tuple that has none. */
  lemma JoinPairs(db: Db, j: Join, tuples: set<seq<Entry>>, t: seq<Entry>, e: Entry)
    requires t in tuples && forall x :: x in tuples ==> |x| == |t|
    ensures e.Present? ==> (t + [e] in JoinOne(db, [], j, tuples) <==>
      e.id in Rows(db, j.table) && Rows(db, j.table)[e.id] == e.row && j.on(t, e))
    ensures e.Absent? ==> (t + [e] in JoinOne(db, [], j, tuples) <==>
      j.kind.LeftOuter? && forall id :: id in Rows(db, j.table) ==> !j.on(t, Present(id, Rows(db, j.table)[id])))
  {
    forall x | x in tuples && t + [e] in Extensions(db, [], j, x) ensures x == t {
      assert (t + [e])[..|t|] == t;
    }
    assert t + [e] in JoinOne(db, [], j, tuples) <==> t + [e] in Extensions(db, [], j, t);
    var m := Candidates(db, [], j, t);
    assert t + [e] in Extensions(db, [], j, t) <==> e in m || (e.Absent? && m == {} && j.kind.LeftOuter?) by {
      assert (t + [e])[|t|] == e;
      assert forall x :: (t + [x])[|t|] == x;
    }
    var rows := Rows(db, j.table);
    assert forall id :: id in rows && j.on(t, Present(id, rows[id])) ==> Present(id, rows[id]) in m;
  }

  // ------------------------------------------------------- registering twice

  /** Criteria that let the same rows pass have the same effect and answer. */
  lemma SameRestrictionSameEffect(schema: Schema, db: Db, a: seq<LoaderCriteria>, b: seq<LoaderCriteria>, s: Statement)
    requires Restricted(db, a) == Restricted(db, b)
    ensures Execute(schema, db, a, s) == Execute(schema, db, b, s)
  {
    if s.Select? {
      EvaluateRestricted(db, a, s.first, s.joins, s.condition);
      EvaluateRestricted(db, b, s.first, s.joins, s.condition);
    } else if !s.Insert? {
      forall id | id in Rows(db, s.table)
        ensures Allowed(db, a, s.table, Rows(db, s.table)[id]) <==> Allowed(db, b, s.table, Rows(db, s.table)[id])
      {
        assert id in Restricted(db, a)[s.table] <==> id in Restricted(db, b)[s.table];
      }
      assert Matching(db, a, s.table, s.filter) == Matching(db, b, s.table, s.filter);
    }
  }

  /** Attaching the same criteria twice changes nothing. */
  lemma AttachingTwiceIsHarmless(schema: Schema, db: Db, options: seq<LoaderCriteria>, s: Statement)
    ensures Execute(schema, db, options + options, s) == Execute(schema, db, options, s)
  {
    var twice := options + options;
    assert forall o :: o in twice <==> o in options;
    forall t | t in db ensures Restricted(db, twice)[t] == Restricted(db, options)[t] {
      forall id | id in db[t] ensures Allowed(db, twice, t, db[t][id]) <==> Allowed(db, options, t, db[t][id]) {
      }
      assert Restricted(db, twice)[t].Keys == Restricted(db, options)[t].Keys;
    }
    SameRestrictionSameEffect(schema, db, twice, options, s);
  }
}
