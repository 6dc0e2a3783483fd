/** Isolation over runs: what statements of several workspaces, in any order, do to
    each other under the hook of `backend/app/core/tenancy.py`. */
module Isolation {
  import opened Wrappers
  import opened Tenancy

  // ------------------------------------------------------------- the discipline

  /** A row outside the workspace's slice: another's, or nobody's. */
  predicate Foreign(schema: Schema, db: Db, ws: Ws, t: string, id: Id) {
    t in db && id in db[t] && !Visible(schema, db, ws, t, db[t][id])
  }

  ghost predicate NamesForeign(schema: Schema, db: Db, ws: Ws, t: string, row: Row) {
    exists p, i :: RefersTo(schema, t, row, p, i) && Foreign(schema, db, ws, p, i)
  }

  ghost predicate ClashesWithForeign(schema: Schema, db: Db, ws: Ws, t: string, row: Row) {
    exists id :: Foreign(schema, db, ws, t, id) && Clash(schema, t, row, db[t][id])
  }

  /** The statements a workspace may issue: queries that select the scoped tables
      they read, and writes to scoped tables that insert rows it owns under unused
      keys, move no row to another tenant, name no row outside its slice and share no
      unique value with one. */
  ghost predicate Disciplined(schema: Schema, db: Db, ws: Ws, s: Statement) {
    match s
    case Select(_, _, _, _, _) => Covered(schema, s)
    case Update(table, filter, assign) =>
      Scoped(schema, table)
      && forall id :: id in Matching(db, Rewrite(schema, s, ws), table, filter)
           ==> MayWrite(schema, db, ws, table, assign(Rows(db, table)[id]))
    case Delete(table, _) => Scoped(schema, table)
    case Insert(table, id, row) =>
      Scoped(schema, table) && id !in Rows(db, table) && MayWrite(schema, db, ws, table, row)
  }

  ghost predicate MayWrite(schema: Schema, db: Db, ws: Ws, t: string, row: Row) {
    && Owner(schema, db, t, row) == Some(ws)
    && !NamesForeign(schema, db, ws, t, row)
    && !ClashesWithForeign(schema, db, ws, t, row)
  }

  lemma DeleteKeepsIntegrity(schema: Schema, db: Db, table: string, ids: set<Id>)
    requires Integrity(schema, db) && DeleteAllowed(schema, db, table, ids)
    ensures Integrity(schema, Removed(schema, db, table, ids))
  {
    var db' := Removed(schema, db, table, ids);
    forall t, id, p, i | t in db' && id in db'[t] && RefersTo(schema, t, db'[t][id], p, i) ensures i in Rows(db', p) {
      assert Resolved(schema, db, t, db[t][id]);
      assert !Dangles(schema, db, table, ids, t, id, p, i);
    }
  }

  /** No statement, however rewritten, leaves a key without its row. */
  lemma IntegrityPreserved(schema: Schema, db: Db, options: seq<LoaderCriteria>, s: Statement)
    requires Integrity(schema, db)
    ensures Integrity(schema, Execute(schema, db, options, s).0)
  {
    var db' := Execute(schema, db, options, s).0;
    if s.Delete? {
      if db' != db {
        DeleteKeepsIntegrity(schema, db, s.table, Matching(db, options, s.table, s.filter));
      }
    } else {
      forall t, id | t in db' && id in db'[t] ensures Resolved(schema, db', t, db'[t][id]) {
        if id in db[t] {
          assert Resolved(schema, db, t, db[t][id]);
        }
      }
    }
  }

  /** No two rows of a table share a value that is to be unique. */
  predicate Distinct(schema: Schema, db: Db) {
    forall t :: t in db ==> FitIn(schema, t, db[t], db[t].Keys)
  }

  lemma ClashIsMutual(schema: Schema, t: string, a: Row, b: Row)
    requires Clash(schema, t, a, b)
    ensures Clash(schema, t, b, a)
  {
    var c :| c in schema[t] && ClashFrom(c, a, b);
    var others :| others in c.uniqueWith && forall o :: o in others ==> SameValue(a, b, o);
    assert forall o :: o in others ==> SameValue(b, a, o);
    assert ClashFrom(c, b, a);
  }

  /** Nor does any statement leave two rows with one unique value. */
  lemma DistinctPreserved(schema: Schema, db: Db, options: seq<LoaderCriteria>, s: Statement)
    requires Distinct(schema, db)
    ensures Distinct(schema, Execute(schema, db, options, s).0)
  {
    var db' := Execute(schema, db, options, s).0;
    forall t, i, j | t in db' && i in db'[t] && j in db'[t] && i != j ensures !Clash(schema, t, db'[t][i], db'[t][j]) {
      assert FitIn(schema, t, db[t], db[t].Keys);
      if Clash(schema, t, db'[t][i], db'[t][j]) {
        ClashIsMutual(schema, t, db'[t][i], db'[t][j]);
      }
    }
  }

  /** The database that a write is to leave, were there no constraints. */
  function Intended(schema: Schema, db: Db, options: seq<LoaderCriteria>, s: Statement): Db
    requires !s.Select? && s.table in db
  {
    match s
    case Update(table, filter, assign) =>
      db[table := Assigned(db[table], Matching(db, options, table, filter), assign)]
    case Delete(table, filter) => Removed(schema, db, table, Matching(db, options, table, filter))
    case Insert(table, id, row) => With(db, table, id, row)
  }

  /** A write is rejected exactly when it would break a constraint: when an INSERT takes
      a key in use, or when keys or unique values would not hold afterwards. */
  lemma RejectedIff(schema: Schema, db: Db, options: seq<LoaderCriteria>, s: Statement)
    requires Integrity(schema, db) && Distinct(schema, db) && !s.Select? && s.table in db
    ensures var intended := Intended(schema, db, options, s);
      Execute(schema, db, options, s).1 == Rejected <==>
        (s.Insert? && s.id in db[s.table]) || !Integrity(schema, intended) || !Distinct(schema, intended)
  {
    IntegrityPreserved(schema, db, options, s);
    DistinctPreserved(schema, db, options, s);
    var intended := Intended(schema, db, options, s);
    if Integrity(schema, intended) && Distinct(schema, intended) {
      match s
      case Update(table, filter, assign) =>
        SoundUpdateIsAllowed(schema, db, table, Matching(db, options, table, filter), assign);
      case Delete(table, filter) => SoundDeleteIsAllowed(schema, db, table, Matching(db, options, table, filter));
      case Insert(table, id, row) =>
        assert Resolved(schema, intended, table, intended[table][id]);
        assert FitIn(schema, table, intended[table], intended[table].Keys);
    }
  }

  lemma SoundUpdateIsAllowed(schema: Schema, db: Db, table: string, ids: set<Id>, assign: Row -> Row)
    requires table in db
    requires var intended := db[table := Assigned(db[table], ids, assign)];
      Integrity(schema, intended) && Distinct(schema, intended)
    ensures UpdateAllowed(schema, db, table, ids, assign)
  {
    var intended := db[table := Assigned(db[table], ids, assign)];
    assert FitIn(schema, table, intended[table], intended[table].Keys);
    forall id | id in ids && id in db[table] ensures Resolved(schema, db, table, assign(db[table][id])) {
      assert Resolved(schema, intended, table, intended[table][id]);
    }
  }

  lemma SoundDeleteIsAllowed(schema: Schema, db: Db, table: string, ids: set<Id>)
    requires Integrity(schema, Removed(schema, db, table, ids))
    ensures DeleteAllowed(schema, db, table, ids)
  {
    var intended := Removed(schema, db, table, ids);
    forall t, id, p, i ensures !Dangles(schema, db, table, ids, t, id, p, i) {
      if t in intended && id in intended[t] {
        assert Resolved(schema, intended, t, intended[t][id]);
      }
    }
  }

  // ------------------------------------------------------------- who owns what after

  /** The scoping key of a row, when it has one, names a row. */
  predicate Parented(schema: Schema, db: Db, t: string, row: Row) {
    match ScopeOf(schema, t)
    case Some(Child(column, parent, _)) => Field(row, column).Key? ==> Field(row, column).id in Rows(db, parent)
    case _ => true
  }

  lemma ResolvedIsParented(schema: Schema, db: Db, t: string, row: Row)
    requires Resolved(schema, db, t, row)
    ensures Parented(schema, db, t, row)
  {
    if Scoped(schema, t) && ScopeOf(schema, t).value.Child? {
      ScopingKeyRefers(schema, t, row);
    }
  }

  /** A disciplined statement changes the owner of no row whose parent stays. */
  lemma OwnerAfter(schema: Schema, db: Db, ws: Ws, s: Statement, t: string, row: Row)
    requires Disciplined(schema, db, ws, s)
    requires Parented(schema, db, t, row) && Parented(schema, ExecuteScoped(schema, db, ws, s).0, t, row)
    ensures Owner(schema, ExecuteScoped(schema, db, ws, s).0, t, row) == Owner(schema, db, t, row)
  {
    if Scoped(schema, t) && ScopeOf(schema, t).value.Child? {
      ParentsOwnTheirRows(schema, t);
      if s.Update? {
        MatchingOnSlice(schema, db, ws, s.table, s.filter);
        SliceRows(schema, db, ws, s.table);
      }
    }
  }

  predicate Kept(db: Db, db': Db, t: string, id: Id) {
    t in db && id in db[t] && t in db' && id in db'[t] && db'[t][id] == db[t][id]
  }

  lemma KeptOwner(schema: Schema, db: Db, ws: Ws, s: Statement, t: string, id: Id)
    requires Integrity(schema, db) && Disciplined(schema, db, ws, s)
    requires Kept(db, ExecuteScoped(schema, db, ws, s).0, t, id)
    ensures Owner(schema, ExecuteScoped(schema, db, ws, s).0, t, db[t][id]) == Owner(schema, db, t, db[t][id])
  {
    IntegrityPreserved(schema, db, Rewrite(schema, s, ws), s);
    ResolvedIsParented(schema, db, t, db[t][id]);
    ResolvedIsParented(schema, ExecuteScoped(schema, db, ws, s).0, t, db[t][id]);
    OwnerAfter(schema, db, ws, s, t, db[t][id]);
  }

  /** What a statement writes: a row of its table that was the workspace's, or new,
      is the workspace's afterwards, and names nothing outside its slice. */
  ghost predicate Written(schema: Schema, db: Db, ws: Ws, db': Db, t: string, id: Id)
    requires t in db' && id in db'[t]
  {
    && Scoped(schema, t)
    && Owner(schema, db', t, db'[t][id]) == Some(ws)
    && !NamesForeign(schema, db, ws, t, db'[t][id])
    && (t in db && id in db[t] ==> Owner(schema, db, t, db[t][id]) == Some(ws))
  }

  lemma WrittenOrKept(schema: Schema, db: Db, ws: Ws, s: Statement, t: string, id: Id)
    requires Integrity(schema, db) && Disciplined(schema, db, ws, s)
    requires var db' := ExecuteScoped(schema, db, ws, s).0; t in db' && id in db'[t]
    ensures var db' := ExecuteScoped(schema, db, ws, s).0;
      Kept(db, db', t, id) || Written(schema, db, ws, db', t, id)
  {
    var db' := ExecuteScoped(schema, db, ws, s).0;
    if !Kept(db, db', t, id) {
      var row := db'[t][id];
      IntegrityPreserved(schema, db, Rewrite(schema, s, ws), s);
      ResolvedIsParented(schema, db', t, row);
      if s.Update? {
        MatchingOnSlice(schema, db, ws, s.table, s.filter);
        SliceRows(schema, db, ws, s.table);
        assert row == s.assign(db[t][id]);
      }
      assert MayWrite(schema, db, ws, t, row);
      OwnerAfter(schema, db, ws, s, t, row);
    }
  }

  /** No row of another workspace is named by anybody else's, before or after. */
  lemma ContainedPreserved(schema: Schema, db: Db, ws: Ws, s: Statement)
    requires Integrity(schema, db) && Contained(schema, db) && Disciplined(schema, db, ws, s)
    ensures Contained(schema, ExecuteScoped(schema, db, ws, s).0)
  {
    var db' := ExecuteScoped(schema, db, ws, s).0;
    forall t, id, p, i |
      t in db' && id in db'[t] && Scoped(schema, t) && RefersTo(schema, t, db'[t][id], p, i) && Scoped(schema, p)
      && i in Rows(db', p) && Owner(schema, db', p, Rows(db', p)[i]).Some?
      ensures Owner(schema, db', t, db'[t][id]) == Owner(schema, db', p, Rows(db', p)[i])
    {
      ReferenceStaysInside(schema, db, ws, s, t, id, p, i);
    }
  }

  lemma ReferenceStaysInside(schema: Schema, db: Db, ws: Ws, s: Statement, t: string, id: Id, p: string, i: Id)
    requires Integrity(schema, db) && Contained(schema, db) && Disciplined(schema, db, ws, s)
    requires var db' := ExecuteScoped(schema, db, ws, s).0;
      && t in db' && id in db'[t] && Scoped(schema, t) && RefersTo(schema, t, db'[t][id], p, i) && Scoped(schema, p)
      && p in db' && i in db'[p] && Owner(schema, db', p, db'[p][i]).Some?
    ensures var db' := ExecuteScoped(schema, db, ws, s).0;
      Owner(schema, db', t, db'[t][id]) == Owner(schema, db', p, db'[p][i])
  {
    var db' := ExecuteScoped(schema, db, ws, s).0;
    WrittenOrKept(schema, db, ws, s, t, id);
    WrittenOrKept(schema, db, ws, s, p, i);
    if Kept(db, db', p, i) {
      KeptOwner(schema, db, ws, s, p, i);
    }
    if Kept(db, db', t, id) {
      KeptOwner(schema, db, ws, s, t, id);
      assert Resolved(schema, db, t, db[t][id]);
      assert i in Rows(db, p);
    } else if p in db && i in db[p] {
      assert !Foreign(schema, db, ws, p, i);
    }
  }

  // ------------------------------------------------------------ other workspaces

  /** Two databases with the same rows in every table are the same. */
  lemma SameDb(a: Db, b: Db)
    requires a.Keys == b.Keys
    requires forall t, id :: t in a && (id in a[t] || id in b[t]) ==> id in a[t] && id in b[t] && a[t][id] == b[t][id]
    ensures a == b
  {
    forall t | t in a ensures a[t] == b[t] {
      var x, y := a[t], b[t];
      assert forall id :: id in x || id in y ==> id in x && id in y && x[id] == y[id];
      assert x.Keys == y.Keys;
      assert x == y;
    }
  }

  /** A statement of one workspace leaves every other workspace's slice as it was. */
  lemma OthersUnaffected(schema: Schema, db: Db, ws: Ws, s: Statement, other: Ws)
    requires Integrity(schema, db) && Disciplined(schema, db, ws, s) && other != ws
    ensures Slice(schema, ExecuteScoped(schema, db, ws, s).0, other) == Slice(schema, db, other)
  {
    var db' := ExecuteScoped(schema, db, ws, s).0;
    var a, b := Slice(schema, db', other), Slice(schema, db, other);
    forall t, id | t in a && (id in a[t] || id in b[t])
      ensures id in a[t] && id in b[t] && a[t][id] == b[t][id]
    {
      if id in b[t] {
        OthersRowKept(schema, db, ws, s, other, t, id);
      }
      if id in db'[t] {
        WrittenOrKept(schema, db, ws, s, t, id);
      }
      if Kept(db, db', t, id) {
        KeptOwner(schema, db, ws, s, t, id);
      }
    }
    SameDb(a, b);
  }

  lemma OthersRowKept(schema: Schema, db: Db, ws: Ws, s: Statement, other: Ws, t: string, id: Id)
    requires Disciplined(schema, db, ws, s) && other != ws
    requires t in db && id in db[t] && Visible(schema, db, other, t, db[t][id])
    ensures Kept(db, ExecuteScoped(schema, db, ws, s).0, t, id)
  {
    if Scoped(schema, t) {
      assert !Visible(schema, db, ws, t, db[t][id]);
      if s.Update? || s.Delete? {
        RewrittenWriteConfined(schema, db, ws, s, t, id);
      }
    }
  }

  // ----------------------------------------------------------- the workspace itself

  /** A write is accepted or rejected, and counted, as if the database held nothing
      but the slice. */
  lemma OwnOutcome(schema: Schema, db: Db, ws: Ws, s: Statement)
    requires Contained(schema, db) && Disciplined(schema, db, ws, s) && !s.Select?
    ensures ExecuteScoped(schema, db, ws, s).1 == Execute(schema, Slice(schema, db, ws), [], s).1
  {
    AnswerDependsOnOthersIff(schema, db, ws, s);
    if s.Delete? {
      NobodyElseBlocks(schema, db, ws, s);
    }
  }

  lemma NobodyElseBlocks(schema: Schema, db: Db, ws: Ws, s: Statement)
    requires Contained(schema, db) && s.Delete? && Scoped(schema, s.table)
    ensures !LeansOnOthers(schema, db, ws, s)
  {
    var ids := Matching(db, Rewrite(schema, s, ws), s.table, s.filter);
    forall t, id, p, i ensures !Blocks(schema, db, ws, s.table, ids, t, id, p, i) {
      if Blocks(schema, db, ws, s.table, ids, t, id, p, i) {
        DeadAreOwn(schema, db, ws, s.table, s.filter, p, i);
        NamedByItsOwn(schema, db, ws, t, id, p, i);
      }
    }
  }

  lemma NamedByItsOwn(schema: Schema, db: Db, ws: Ws, t: string, id: Id, p: string, i: Id)
    requires Contained(schema, db) && t in db && id in db[t] && p in db && i in db[p]
    requires RefersTo(schema, t, db[t][id], p, i) && Scoped(schema, p) && Visible(schema, db, ws, p, db[p][i])
    ensures !Foreign(schema, db, ws, t, id)
  {
    assert i in Rows(db, p) && Rows(db, p)[i] == db[p][i];
  }

  /** The slice afterwards: what was kept of it, and what was written. */
  lemma SliceAfter(schema: Schema, db: Db, ws: Ws, s: Statement, t: string, id: Id)
    requires Integrity(schema, db) && Disciplined(schema, db, ws, s) && t in db
    ensures var db' := ExecuteScoped(schema, db, ws, s).0;
      t in db'
      && (id in OwnRows(schema, db', ws, t) <==>
          id in db'[t] && (Kept(db, db', t, id) ==> Visible(schema, db, ws, t, db[t][id])))
  {
    var db' := ExecuteScoped(schema, db, ws, s).0;
    if id in db'[t] {
      WrittenOrKept(schema, db, ws, s, t, id);
      if Kept(db, db', t, id) {
        KeptOwner(schema, db, ws, s, t, id);
      }
    }
  }

  /** `after` holds of row `id` what `db'` does, if it is new or was in the slice. */
  predicate SameOnSlice(schema: Schema, db: Db, ws: Ws, db': Db, after: Db, t: string, id: Id)
    requires t in db
  {
    && t in db' && t in after
    && (id in after[t] <==> id in db'[t] && (Kept(db, db', t, id) ==> Visible(schema, db, ws, t, db[t][id])))
    && (id in after[t] ==> after[t][id] == db'[t][id])
  }

  lemma EffectOfInsertOnSlice(schema: Schema, db: Db, ws: Ws, s: Statement, t: string, id: Id)
    requires s.Insert? && t in db
    requires ExecuteScoped(schema, db, ws, s).1 == Execute(schema, Slice(schema, db, ws), [], s).1
    ensures SameOnSlice(schema, db, ws, ExecuteScoped(schema, db, ws, s).0,
                        Execute(schema, Slice(schema, db, ws), [], s).0, t, id)
  {
    SliceRows(schema, db, ws, t);
  }

  lemma EffectOfUpdateOnSlice(schema: Schema, db: Db, ws: Ws, s: Statement, t: string, id: Id)
    requires s.Update? && t in db
    requires ExecuteScoped(schema, db, ws, s).1 == Execute(schema, Slice(schema, db, ws), [], s).1
    ensures SameOnSlice(schema, db, ws, ExecuteScoped(schema, db, ws, s).0,
                        Execute(schema, Slice(schema, db, ws), [], s).0, t, id)
  {
    SliceRows(schema, db, ws, t);
    MatchingOnSlice(schema, db, ws, s.table, s.filter);
  }

  lemma EffectOfDeleteOnSlice(schema: Schema, db: Db, ws: Ws, s: Statement, t: string, id: Id)
    requires s.Delete? && t in db
    requires ExecuteScoped(schema, db, ws, s).1 == Execute(schema, Slice(schema, db, ws), [], s).1
    ensures SameOnSlice(schema, db, ws, ExecuteScoped(schema, db, ws, s).0,
                        Execute(schema, Slice(schema, db, ws), [], s).0, t, id)
  {
    SliceRows(schema, db, ws, t);
    MatchingOnSlice(schema, db, ws, s.table, s.filter);
  }

  lemma EffectOnSlice(schema: Schema, db: Db, ws: Ws, s: Statement, t: string, id: Id)
    requires !s.Select? && t in db
    requires ExecuteScoped(schema, db, ws, s).1 == Execute(schema, Slice(schema, db, ws), [], s).1
    ensures SameOnSlice(schema, db, ws, ExecuteScoped(schema, db, ws, s).0,
                        Execute(schema, Slice(schema, db, ws), [], s).0, t, id)
  {
    if s.Insert? {
      EffectOfInsertOnSlice(schema, db, ws, s, t, id);
    } else if s.Update? {
      EffectOfUpdateOnSlice(schema, db, ws, s, t, id);
    } else {
      EffectOfDeleteOnSlice(schema, db, ws, s, t, id);
    }
  }

  /** A statement of `ws` does to its slice exactly what the same statement without
      the hook does to a database holding nothing but that slice, and answers the
      same. */
  lemma OwnStepOnSlice(schema: Schema, db: Db, ws: Ws, s: Statement)
    requires Integrity(schema, db) && Contained(schema, db) && Disciplined(schema, db, ws, s)
    ensures Slice(schema, ExecuteScoped(schema, db, ws, s).0, ws) == Execute(schema, Slice(schema, db, ws), [], s).0
    ensures ExecuteScoped(schema, db, ws, s).1 == Execute(schema, Slice(schema, db, ws), [], s).1
  {
    if s.Select? {
      RewrittenSelectReadsTheSlice(schema, db, ws, s);
      return;
    }
    OwnOutcome(schema, db, ws, s);
    var a, b := Slice(schema, ExecuteScoped(schema, db, ws, s).0, ws), Execute(schema, Slice(schema, db, ws), [], s).0;
    forall t, id | t in a && (id in a[t] || id in b[t])
      ensures id in a[t] && id in b[t] && a[t][id] == b[t][id]
    {
      SliceAfter(schema, db, ws, s, t, id);
      EffectOnSlice(schema, db, ws, s, t, id);
    }
    SameDb(a, b);
  }

  /** On a database that holds only the workspace's slice the hook has nothing left
      to exclude. */
  lemma NothingToExclude(schema: Schema, db: Db, ws: Ws, s: Statement)
    ensures ExecuteScoped(schema, Slice(schema, db, ws), ws, s) == Execute(schema, Slice(schema, db, ws), [], s)
  {
    var slice, options := Slice(schema, db, ws), Rewrite(schema, s, ws);
    forall t, id | t in slice && id in slice[t] ensures Allowed(slice, options, t, slice[t][id]) {
      VisibleOnSlice(schema, db, ws, t, id);
      if !s.Insert? {
        AllowedIsVisible(schema, slice, Mappers(s), ws, t, slice[t][id]);
      }
    }
    SameDb(Restricted(slice, options), slice);
    SameDb(Restricted(slice, []), slice);
    SameRestrictionSameEffect(schema, slice, options, [], s);
  }

  lemma VisibleOnSlice(schema: Schema, db: Db, ws: Ws, t: string, id: Id)
    requires t in db && id in db[t] && Visible(schema, db, ws, t, db[t][id])
    ensures Visible(schema, Slice(schema, db, ws), ws, t, db[t][id])
  {
    if Scoped(schema, t) && ScopeOf(schema, t).value.Child? {
      ParentsOwnTheirRows(schema, t);
    }
  }

  // ------------------------------------------------------------- non-interference

  /** One statement of a run, with the workspace in context when it was issued. */
  datatype Issue = Issue(ws: Ws, statement: Statement)

  ghost function Run(schema: Schema, db: Db, trace: seq<Issue>): Db {
    if trace == [] then db
    else Run(schema, ExecuteScoped(schema, db, trace[0].ws, trace[0].statement).0, trace[1..])
  }

  /** What workspace `ws` is answered over a run, in order. */
  ghost function Answers(schema: Schema, db: Db, trace: seq<Issue>, ws: Ws): seq<Outcome> {
    if trace == [] then []
    else
      var step := ExecuteScoped(schema, db, trace[0].ws, trace[0].statement);
      (if trace[0].ws == ws then [step.1] else []) + Answers(schema, step.0, trace[1..], ws)
  }

  function Only(trace: seq<Issue>, ws: Ws): seq<Issue> {
    if trace == [] then []
    else (if trace[0].ws == ws then [trace[0]] else []) + Only(trace[1..], ws)
  }

  ghost predicate DisciplinedRun(schema: Schema, db: Db, trace: seq<Issue>) {
    trace == [] ||
    (Disciplined(schema, db, trace[0].ws, trace[0].statement)
     && DisciplinedRun(schema, ExecuteScoped(schema, db, trace[0].ws, trace[0].statement).0, trace[1..]))
  }

  /** A run goes on from where it stands: one more statement is executed there. */
  lemma {:induction false} RunGoesOn(schema: Schema, db: Db, trace: seq<Issue>, last: Issue)
    ensures Run(schema, db, trace + [last])
      == ExecuteScoped(schema, Run(schema, db, trace), last.ws, last.statement).0
  {
    if trace == [] {
      assert trace + [last] == [last] && [last][1..] == [];
    } else {
      assert (trace + [last])[0] == trace[0] && (trace + [last])[1..] == trace[1..] + [last];
      RunGoesOn(schema, ExecuteScoped(schema, db, trace[0].ws, trace[0].statement).0, trace[1..], last);
    }
  }

  function AnswerTo(issue: Issue, answer: Outcome, ws: Ws): seq<Outcome> {
    if issue.ws == ws then [answer] else []
  }

  lemma AnswersCons(schema: Schema, db: Db, first: Issue, rest: seq<Issue>, ws: Ws)
    ensures var step := ExecuteScoped(schema, db, first.ws, first.statement);
      && Answers(schema, db, [first] + rest, ws) == AnswerTo(first, step.1, ws) + Answers(schema, step.0, rest, ws)
      && Run(schema, db, [first] + rest) == Run(schema, step.0, rest)
  {
    assert ([first] + rest)[1..] == rest;
  }

  lemma Regrouped(a: seq<Outcome>, b: seq<Outcome>, c: seq<Outcome>)
    ensures (a + b) + c == a + (b + c)
  {
  }

  /** And it is answered to the workspace that issued it, after what was before. */
  lemma {:induction false} AnswersGoOn(schema: Schema, db: Db, trace: seq<Issue>, last: Issue, ws: Ws)
    ensures Answers(schema, db, trace + [last], ws)
      == Answers(schema, db, trace, ws) + Answers(schema, Run(schema, db, trace), [last], ws)
    decreases |trace|
  {
    if trace == [] {
      assert trace + [last] == [last];
      assert Answers(schema, db, [], ws) == [] && Run(schema, db, []) == db;
    } else {
      var first, rest := trace[0], trace[1..];
      var step := ExecuteScoped(schema, db, first.ws, first.statement);
      assert trace == [first] + rest && trace + [last] == [first] + (rest + [last]);
      AnswersCons(schema, db, first, rest, ws);
      AnswersCons(schema, db, first, rest + [last], ws);
      AnswersGoOn(schema, step.0, rest, last, ws);
      Regrouped(AnswerTo(first, step.1, ws), Answers(schema, step.0, rest, ws),
                Answers(schema, Run(schema, step.0, rest), [last], ws));
    }
  }

  lemma AnswerToOne(schema: Schema, db: Db, issue: Issue, ws: Ws)
    ensures Answers(schema, db, [issue], ws)
      == AnswerTo(issue, ExecuteScoped(schema, db, issue.ws, issue.statement).1, ws)
  {
    AnswersCons(schema, db, issue, [], ws);
    assert [issue] + [] == [issue];
  }

  /** Non-interference: in any interleaving, workspace `ws` is answered, and left
      with, exactly what its own statements alone would have given it on a
      database that never held anybody else's rows. */
  lemma {:induction false} NonInterference(schema: Schema, db: Db, trace: seq<Issue>, ws: Ws)
    requires Integrity(schema, db) && Contained(schema, db) && DisciplinedRun(schema, db, trace)
    ensures Slice(schema, Run(schema, db, trace), ws) == Run(schema, Slice(schema, db, ws), Only(trace, ws))
    ensures Answers(schema, db, trace, ws) == Answers(schema, Slice(schema, db, ws), Only(trace, ws), ws)
  {
    if trace != [] {
      var who, s := trace[0].ws, trace[0].statement;
      var db' := ExecuteScoped(schema, db, who, s).0;
      var rest := Only(trace[1..], ws);
      IntegrityPreserved(schema, db, Rewrite(schema, s, who), s);
      ContainedPreserved(schema, db, who, s);
      NonInterference(schema, db', trace[1..], ws);
      if who == ws {
        OwnStepOnSlice(schema, db, ws, s);
        NothingToExclude(schema, db, ws, s);
        assert Only(trace, ws) == [trace[0]] + rest;
        assert Only(trace, ws)[1..] == rest;
      } else {
        OthersUnaffected(schema, db, who, s, ws);
        assert Only(trace, ws) == rest;
      }
    }
  }

  /** Two runs from the same slice in which `ws` issues the same statements are
      indistinguishable to it, however the others' statements differ. */
  lemma InterleavingsAreIndistinguishable(schema: Schema, a: Db, b: Db, left: seq<Issue>, right: seq<Issue>, ws: Ws)
    requires Integrity(schema, a) && Integrity(schema, b) && Contained(schema, a) && Contained(schema, b)
    requires Slice(schema, a, ws) == Slice(schema, b, ws)
    requires DisciplinedRun(schema, a, left) && DisciplinedRun(schema, b, right)
    requires Only(left, ws) == Only(right, ws)
    ensures Answers(schema, a, left, ws) == Answers(schema, b, right, ws)
    ensures Slice(schema, Run(schema, a, left), ws) == Slice(schema, Run(schema, b, right), ws)
  {
    NonInterference(schema, a, left, ws);
    NonInterference(schema, b, right, ws);
  }

  // ---------------------------------- when the discipline on references is needed

  /** A write whose answer turns on rows outside the workspace's slice:
      - an INSERT that the database allows, of a row that names one of them, or that
        the slice alone allows, under a key or with a unique value that one has;
      - an UPDATE that the database allows and that makes a row name one, or that the
        slice alone allows and that gives a row a unique value of one;
      - a DELETE that the slice alone allows, of a row that one of them names. */
  ghost predicate LeansOnOthers(schema: Schema, db: Db, ws: Ws, s: Statement)
    requires !s.Select?
  {
    var slice := Slice(schema, db, ws);
    match s
    case Insert(table, id, row) =>
      || (InsertAllowed(schema, db, table, id, row) && NamesForeign(schema, db, ws, table, row))
      || (InsertAllowed(schema, slice, table, id, row)
          && (Foreign(schema, db, ws, table, id) || ClashesWithForeign(schema, db, ws, table, row)))
    case Update(table, filter, assign) =>
      var ids := Matching(db, Rewrite(schema, s, ws), table, filter);
      || (UpdateAllowed(schema, db, table, ids, assign)
          && exists id :: id in ids && NamesForeign(schema, db, ws, table, assign(Rows(db, table)[id])))
      || (UpdateAllowed(schema, slice, table, ids, assign)
          && exists id :: id in ids && ClashesWithForeign(schema, db, ws, table, assign(Rows(db, table)[id])))
    case Delete(table, filter) =>
      var ids := Matching(db, Rewrite(schema, s, ws), table, filter);
      DeleteAllowed(schema, slice, table, ids)
      && exists t, id, p, i :: Blocks(schema, db, ws, table, ids, t, id, p, i)
  }

  /** A row outside the slice names a row that goes with a DELETE. */
  predicate Blocks(schema: Schema, db: Db, ws: Ws, table: string, ids: set<Id>, t: string, id: Id, p: string, i: Id) {
    && Foreign(schema, db, ws, t, id)
    && p in db && i in db[p] && Dead(schema, table, ids, p, i, db[p][i])
    && RefersTo(schema, t, db[t][id], p, i)
  }

  /** The answer to a write to a scoped table differs from the answer on the slice
      if and only if the write leans on rows outside the slice. */
  lemma AnswerDependsOnOthersIff(schema: Schema, db: Db, ws: Ws, s: Statement)
    requires !s.Select? && Scoped(schema, s.table)
    ensures ExecuteScoped(schema, db, ws, s).1 != Execute(schema, Slice(schema, db, ws), [], s).1
      <==> LeansOnOthers(schema, db, ws, s)
  {
    match s
    case Insert(_, _, _) => InsertDepends(schema, db, ws, s);
    case Update(_, _, _) => UpdateDepends(schema, db, ws, s);
    case Delete(_, _) => DeleteDepends(schema, db, ws, s);
  }

  lemma OnSlice(schema: Schema, db: Db, ws: Ws)
    ensures forall t :: t in db <==> t in Slice(schema, db, ws)
    ensures forall t, i :: i in Rows(Slice(schema, db, ws), t) <==> i in Rows(db, t) && !Foreign(schema, db, ws, t, i)
    ensures forall t, i :: i in Rows(Slice(schema, db, ws), t) ==> Rows(Slice(schema, db, ws), t)[i] == Rows(db, t)[i]
  {
    forall t, i ensures i in Rows(Slice(schema, db, ws), t) <==> i in Rows(db, t) && !Foreign(schema, db, ws, t, i) {
      SliceRows(schema, db, ws, t);
    }
    forall t, i | i in Rows(Slice(schema, db, ws), t) ensures Rows(Slice(schema, db, ws), t)[i] == Rows(db, t)[i] {
      SliceRows(schema, db, ws, t);
    }
  }

  lemma InsertOnSlice(schema: Schema, db: Db, ws: Ws, table: string, id: Id, row: Row)
    requires InsertAllowed(schema, db, table, id, row)
    ensures InsertAllowed(schema, Slice(schema, db, ws), table, id, row) <==> !NamesForeign(schema, db, ws, table, row)
  {
    OnSlice(schema, db, ws);
    var whole, part := With(db, table, id, row), With(Slice(schema, db, ws), table, id, row);
    forall j | j in part[table] ensures j in whole[table] && part[table][j] == whole[table][j] {
      assert j != id ==> j in Rows(Slice(schema, db, ws), table);
    }
    forall p, i | RefersTo(schema, table, row, p, i)
      ensures i in Rows(part, p) <==> !Foreign(schema, db, ws, p, i)
    {
      assert i in Rows(whole, p);
    }
  }

  lemma InsertOnDatabase(schema: Schema, db: Db, ws: Ws, table: string, id: Id, row: Row)
    requires InsertAllowed(schema, Slice(schema, db, ws), table, id, row)
    ensures InsertAllowed(schema, db, table, id, row)
      <==> !Foreign(schema, db, ws, table, id) && !ClashesWithForeign(schema, db, ws, table, row)
  {
    OnSlice(schema, db, ws);
    var slice := Slice(schema, db, ws);
    var whole, part := With(db, table, id, row), With(slice, table, id, row);
    forall p, i | RefersTo(schema, table, row, p, i) ensures i in Rows(whole, p) {
      assert i in Rows(part, p);
    }
    if id !in db[table] {
      forall j | j in db[table] && !Foreign(schema, db, ws, table, j) ensures !Clash(schema, table, row, db[table][j]) {
        assert j in Rows(slice, table) && part[table][j] == db[table][j];
        assert !Clash(schema, table, part[table][id], part[table][j]);
      }
      forall j | j in db[table] ensures whole[table][j] == db[table][j] {
      }
      if ClashesWithForeign(schema, db, ws, table, row) {
        var j :| Foreign(schema, db, ws, table, j) && Clash(schema, table, row, db[table][j]);
        assert Clash(schema, table, whole[table][id], whole[table][j]);
      }
    }
  }

  lemma InsertDepends(schema: Schema, db: Db, ws: Ws, s: Statement)
    requires s.Insert?
    ensures ExecuteScoped(schema, db, ws, s).1 != Execute(schema, Slice(schema, db, ws), [], s).1
      <==> LeansOnOthers(schema, db, ws, s)
  {
    if InsertAllowed(schema, db, s.table, s.id, s.row) {
      InsertOnSlice(schema, db, ws, s.table, s.id, s.row);
    }
    if InsertAllowed(schema, Slice(schema, db, ws), s.table, s.id, s.row) {
      InsertOnDatabase(schema, db, ws, s.table, s.id, s.row);
    }
  }

  /** The rows a workspace matches are its own, and none of them is outside. */
  lemma MatchedAreOnSlice(schema: Schema, db: Db, ws: Ws, s: Statement)
    requires s.Update?
    ensures var ids := Matching(db, Rewrite(schema, s, ws), s.table, s.filter);
      && ids == Matching(Slice(schema, db, ws), [], s.table, s.filter)
      && forall id :: id in ids ==> id in Rows(Slice(schema, db, ws), s.table)
  {
    MatchingOnSlice(schema, db, ws, s.table, s.filter);
  }

  lemma UpdateOnSlice(schema: Schema, db: Db, ws: Ws, table: string, ids: set<Id>, assign: Row -> Row)
    requires forall id :: id in ids ==> id in Rows(Slice(schema, db, ws), table)
    requires UpdateAllowed(schema, db, table, ids, assign)
    ensures UpdateAllowed(schema, Slice(schema, db, ws), table, ids, assign)
      <==> forall id ::
        id in ids ==> id in Rows(db, table) && !NamesForeign(schema, db, ws, table, assign(Rows(db, table)[id]))
  {
    OnSlice(schema, db, ws);
    var slice := Slice(schema, db, ws);
    var whole, part := Assigned(db[table], ids, assign), Assigned(slice[table], ids, assign);
    forall j | j in part ensures j in whole && part[j] == whole[j] {
      assert j in Rows(slice, table);
    }
    forall id | id in ids
      ensures id in db[table] && id in slice[table] && slice[table][id] == db[table][id]
      ensures Resolved(schema, slice, table, assign(db[table][id]))
        <==> !NamesForeign(schema, db, ws, table, assign(db[table][id]))
    {
      assert id in Rows(slice, table);
      assert Resolved(schema, db, table, assign(db[table][id]));
    }
  }

  lemma UpdateOnDatabase(schema: Schema, db: Db, ws: Ws, table: string, ids: set<Id>, assign: Row -> Row)
    requires forall id :: id in ids ==> id in Rows(Slice(schema, db, ws), table)
    requires UpdateAllowed(schema, Slice(schema, db, ws), table, ids, assign)
    ensures UpdateAllowed(schema, db, table, ids, assign)
      <==> forall id ::
        id in ids ==> id in Rows(db, table) && !ClashesWithForeign(schema, db, ws, table, assign(Rows(db, table)[id]))
  {
    OnSlice(schema, db, ws);
    var slice := Slice(schema, db, ws);
    var whole, part := Assigned(db[table], ids, assign), Assigned(slice[table], ids, assign);
    forall id | id in ids
      ensures id in db[table] && Resolved(schema, db, table, assign(db[table][id]))
        && whole[id] == part[id] == assign(db[table][id])
    {
      assert id in Rows(slice, table);
      assert Resolved(schema, slice, table, assign(slice[table][id]));
    }
    forall id, j | id in ids && j in db[table] && id != j
      ensures Clash(schema, table, whole[id], whole[j])
        ==> Foreign(schema, db, ws, table, j) && whole[j] == db[table][j]
    {
      if j in Rows(slice, table) {
        assert part[j] == whole[j] && !Clash(schema, table, part[id], part[j]);
      } else {
        assert j !in ids;
      }
    }
    forall id, j | id in ids && Foreign(schema, db, ws, table, j)
      ensures j in whole && j != id && whole[j] == db[table][j]
    {
      assert j !in Rows(slice, table);
    }
  }

  lemma UpdateDepends(schema: Schema, db: Db, ws: Ws, s: Statement)
    requires s.Update?
    ensures ExecuteScoped(schema, db, ws, s).1 != Execute(schema, Slice(schema, db, ws), [], s).1
      <==> LeansOnOthers(schema, db, ws, s)
  {
    var ids := Matching(db, Rewrite(schema, s, ws), s.table, s.filter);
    MatchedAreOnSlice(schema, db, ws, s);
    OnSlice(schema, db, ws);
    if UpdateAllowed(schema, db, s.table, ids, s.assign) {
      UpdateOnSlice(schema, db, ws, s.table, ids, s.assign);
    }
    if UpdateAllowed(schema, Slice(schema, db, ws), s.table, ids, s.assign) {
      UpdateOnDatabase(schema, db, ws, s.table, ids, s.assign);
    }
  }

  lemma DeleteDepends(schema: Schema, db: Db, ws: Ws, s: Statement)
    requires s.Delete? && Scoped(schema, s.table)
    ensures ExecuteScoped(schema, db, ws, s).1 != Execute(schema, Slice(schema, db, ws), [], s).1
      <==> LeansOnOthers(schema, db, ws, s)
  {
    var slice := Slice(schema, db, ws);
    var ids := Matching(db, Rewrite(schema, s, ws), s.table, s.filter);
    MatchingOnSlice(schema, db, ws, s.table, s.filter);
    forall t, id, p, i
      ensures Dangles(schema, db, s.table, ids, t, id, p, i)
        <==> Dangles(schema, slice, s.table, ids, t, id, p, i) || Blocks(schema, db, ws, s.table, ids, t, id, p, i)
    {
      DanglesIff(schema, db, ws, s, t, id, p, i);
    }
  }

  /** A row that a DELETE would leave dangling is in the slice or outside it. */
  lemma DanglesIff(schema: Schema, db: Db, ws: Ws, s: Statement, t: string, id: Id, p: string, i: Id)
    requires s.Delete?
    ensures var ids := Matching(db, Rewrite(schema, s, ws), s.table, s.filter);
      Dangles(schema, db, s.table, ids, t, id, p, i) <==>
        Dangles(schema, Slice(schema, db, ws), s.table, ids, t, id, p, i)
          || Blocks(schema, db, ws, s.table, ids, t, id, p, i)
  {
    var ids := Matching(db, Rewrite(schema, s, ws), s.table, s.filter);
    if t in db && id in db[t] && Dead(schema, s.table, ids, t, id, db[t][id]) {
      DeadAreOwn(schema, db, ws, s.table, s.filter, t, id);
    }
    if p in db && i in db[p] && Dead(schema, s.table, ids, p, i, db[p][i]) {
      DeadAreOwn(schema, db, ws, s.table, s.filter, p, i);
    }
  }

  // --------------------------------------------------------- such a reference

  const ASSETS: seq<Column> := [Column(WORKSPACE, [], [])]

  const DATASETS: seq<Column> := [Column(WORKSPACE, [], [])]

  const ANNOTATIONS: seq<Column> :=
    [Column("asset_id", [ForeignKey("assets", Restrict)], []),
     Column("dataset_id", [ForeignKey("datasets", Restrict)], [])]

  const LABELLING: Schema := map["assets" := ASSETS, "datasets" := DATASETS, "annotations" := ANNOTATIONS]

  /** Workspace 1 has a dataset, workspace 2 an asset. */
  const TWO_TENANTS: Db :=
    map["assets" := map[2 := map[WORKSPACE := Key(2)]], "datasets" := map[10 := map[WORKSPACE := Key(1)]],
        "annotations" := map[]]

  /** Workspace 2 files its own asset under the other's dataset. */
  const ANNOTATION: Row := map["asset_id" := Key(2), "dataset_id" := Key(10)]

  const ANNOTATE: Statement := Insert("annotations", 20, ANNOTATION)

  const DROP: Statement := Delete("datasets", row => true)

  lemma AnnotationScopes()
    ensures ScopeOf(LABELLING, "assets") == Some(Own) && ScopeOf(LABELLING, "datasets") == Some(Own)
    ensures ScopeOf(LABELLING, "annotations") == Some(Child("asset_id", "assets", Restrict))
    ensures RefersTo(LABELLING, "annotations", ANNOTATION, "datasets", 10)
  {
    assert Column(WORKSPACE, [], []) in ASSETS && Column(WORKSPACE, [], []) in DATASETS;
    assert HasWorkspaceColumn(LABELLING, "assets");
    var asset, dataset := ANNOTATIONS[0], ANNOTATIONS[1];
    assert !HasWorkspaceColumn(LABELLING, "annotations");
    assert ScopedParent(LABELLING, asset.foreignKeys[0]);
    assert dataset in ANNOTATIONS && dataset.foreignKeys[0] in dataset.foreignKeys;
  }

  /** The insert is accepted. */
  lemma AnnotateIsAccepted()
    ensures ExecuteScoped(LABELLING, TWO_TENANTS, 2, ANNOTATE)
      == (With(TWO_TENANTS, "annotations", 20, ANNOTATION), Affected({20}))
  {
    AnnotationScopes();
  }

  /** On its own slice it would not be. */
  lemma AnnotateAloneIsRejected()
    ensures Execute(LABELLING, Slice(LABELLING, TWO_TENANTS, 2), [], ANNOTATE).1 == Rejected
  {
    AnnotationScopes();
    SliceRows(LABELLING, TWO_TENANTS, 2, "datasets");
    var slice := With(Slice(LABELLING, TWO_TENANTS, 2), "annotations", 20, ANNOTATION);
    assert 10 !in Rows(slice, "datasets");
    assert !Resolved(LABELLING, slice, "annotations", ANNOTATION);
  }

  lemma DropMatches(db: Db)
    requires db == TWO_TENANTS || db == With(TWO_TENANTS, "annotations", 20, ANNOTATION)
    ensures Matching(db, CriteriaFor(LABELLING, ["datasets"], 1), "datasets", DROP.filter) == {10}
    ensures Matching(Slice(LABELLING, db, 1), [], "datasets", DROP.filter) == {10}
  {
    AnnotationScopes();
    MatchingOnSlice(LABELLING, db, 1, "datasets", DROP.filter);
    SliceRows(LABELLING, db, 1, "datasets");
    var own := OwnRows(LABELLING, db, 1, "datasets");
    assert own.Keys == {10};
    assert Matching(Slice(LABELLING, db, 1), [], "datasets", DROP.filter) == own.Keys;
  }

  lemma DropIsRejected(db: Db)
    requires db == With(TWO_TENANTS, "annotations", 20, ANNOTATION)
    ensures ExecuteScoped(LABELLING, db, 1, DROP).1 == Rejected
  {
    AnnotationScopes();
    DropMatches(db);
    assert Dangles(LABELLING, db, "datasets", {10}, "annotations", 20, "datasets", 10);
  }

  lemma OnlyTheDatasetIsOwned(db: Db, t: string, id: Id)
    requires db == With(TWO_TENANTS, "annotations", 20, ANNOTATION)
    requires t in db && id in db[t] && Visible(LABELLING, db, 1, t, db[t][id])
    ensures t == "datasets" && id == 10
  {
    AnnotationScopes();
  }

  lemma DropAloneIsAccepted(db: Db)
    requires db == With(TWO_TENANTS, "annotations", 20, ANNOTATION)
    ensures Execute(LABELLING, Slice(LABELLING, db, 1), [], DROP).1 == Affected({10})
  {
    DropMatches(db);
    var slice := Slice(LABELLING, db, 1);
    forall t, id, p, i ensures !Dangles(LABELLING, slice, "datasets", {10}, t, id, p, i) {
      if t in slice && id in slice[t] {
        OnlyTheDatasetIsOwned(db, t, id);
      }
    }
  }

  /** After it workspace 1 may no longer delete its dataset, which alone it may. */
  lemma AnnotationInput()
    ensures var after := ExecuteScoped(LABELLING, TWO_TENANTS, 2, ANNOTATE).0;
      && ExecuteScoped(LABELLING, TWO_TENANTS, 2, ANNOTATE).1 == Affected({20})
      && Execute(LABELLING, Slice(LABELLING, TWO_TENANTS, 2), [], ANNOTATE).1 == Rejected
      && ExecuteScoped(LABELLING, after, 1, DROP).1 == Rejected
      && Execute(LABELLING, Slice(LABELLING, after, 1), [], DROP).1 == Affected({10})
  {
    var after := ExecuteScoped(LABELLING, TWO_TENANTS, 2, ANNOTATE).0;
    AnnotateIsAccepted();
    AnnotateAloneIsRejected();
    DropIsRejected(after);
    DropAloneIsAccepted(after);
  }

  // ------------------------------------------------------- such a unique value

  const ASSET_INTEGRITY: seq<Column> := [Column(WORKSPACE, [], []), Column("asset_id", [], [[]])]

  const CUSTODY: Schema := map["asset_integrity" := ASSET_INTEGRITY]

  /** Workspace 1 has recorded an asset. */
  const RECORDED: Db := map["asset_integrity" := map[1 := map[WORKSPACE := Key(1), "asset_id" := Data("a")]]]

  /** Workspace 2 records an asset of the same name. */
  const RECORD: Statement := Insert("asset_integrity", 2, map[WORKSPACE := Key(2), "asset_id" := Data("a")])

  lemma RecordsClash(row: Row)
    requires Field(row, "asset_id") == Data("a")
    ensures Clash(CUSTODY, "asset_integrity", row, RECORDED["asset_integrity"][1])
  {
    var c, none: seq<string> := ASSET_INTEGRITY[1], [];
    assert none in c.uniqueWith && |none| == 0;
    assert c in CUSTODY["asset_integrity"] && ClashFrom(c, row, RECORDED["asset_integrity"][1]);
  }

  lemma NothingRecorded()
    ensures Foreign(CUSTODY, RECORDED, 2, "asset_integrity", 1)
    ensures Slice(CUSTODY, RECORDED, 2) == map["asset_integrity" := map[]]
  {
    assert ASSET_INTEGRITY[0] in CUSTODY["asset_integrity"] && ScopeOf(CUSTODY, "asset_integrity") == Some(Own);
    assert OwnColumn(RECORDED["asset_integrity"][1]) == Some(1);
    var own := OwnRows(CUSTODY, RECORDED, 2, "asset_integrity");
    assert forall id :: id !in own;
    assert own == map[];
  }

  lemma AloneItMayRecord(slice: Db)
    requires slice == map["asset_integrity" := map[]]
    ensures InsertAllowed(CUSTODY, slice, "asset_integrity", 2, RECORD.row)
  {
    assert forall p, i :: !RefersTo(CUSTODY, "asset_integrity", RECORD.row, p, i);
  }

  /** It may not, though alone it may. */
  lemma IntegrityRecordInput()
    ensures ExecuteScoped(CUSTODY, RECORDED, 2, RECORD).1 == Rejected
    ensures Execute(CUSTODY, Slice(CUSTODY, RECORDED, 2), [], RECORD).1 == Affected({2})
  {
    NothingRecorded();
    AloneItMayRecord(Slice(CUSTODY, RECORDED, 2));
    RecordsClash(RECORD.row);
    assert ClashesWithForeign(CUSTODY, RECORDED, 2, "asset_integrity", RECORD.row);
    InsertOnDatabase(CUSTODY, RECORDED, 2, "asset_integrity", 2, RECORD.row);
  }

  // ------------------------------------- when the discipline on owners is needed

  ghost predicate AssignsTo(schema: Schema, db: Db, ws: Ws, s: Statement, other: Ws)
    requires s.Update?
  {
    exists id :: id in Matching(db, Rewrite(schema, s, ws), s.table, s.filter)
      && Owner(schema, db, s.table, s.assign(Rows(db, s.table)[id])) == Some(other)
  }

  /** A row that the workspace writes was its own, and is not the other's after. */
  lemma WrittenRow(schema: Schema, db: Db, ws: Ws, s: Statement, other: Ws, id: Id)
    requires s.Update? && Scoped(schema, s.table) && other != ws && !AssignsTo(schema, db, ws, s, other)
    requires id in Matching(db, Rewrite(schema, s, ws), s.table, s.filter)
    ensures id in Rows(db, s.table) && Owner(schema, db, s.table, Rows(db, s.table)[id]) == Some(ws)
    ensures Owner(schema, db, s.table, s.assign(Rows(db, s.table)[id])) != Some(other)
  {
    MatchingOnSlice(schema, db, ws, s.table, s.filter);
    SliceRows(schema, db, ws, s.table);
  }

  /** Nor does anything it writes hand the children of a row to the other. */
  lemma OwnershipOfChildren(schema: Schema, db: Db, ws: Ws, s: Statement, other: Ws, t: string, row: Row)
    requires s.Update? && Scoped(schema, s.table) && other != ws && !AssignsTo(schema, db, ws, s, other)
    ensures Owner(schema, ExecuteScoped(schema, db, ws, s).0, t, row) == Some(other)
      <==> Owner(schema, db, t, row) == Some(other)
  {
    match ScopeOf(schema, t)
    case None =>
    case Some(Own) =>
    case Some(Child(column, parent, _)) =>
      ParentsOwnTheirRows(schema, t);
      var v := Field(row, column);
      if parent == s.table && v.Key? && v.id in Matching(db, Rewrite(schema, s, ws), s.table, s.filter) {
        WrittenRow(schema, db, ws, s, other, v.id);
      }
  }

  lemma UpdatedRow(schema: Schema, db: Db, ws: Ws, s: Statement, other: Ws, t: string, id: Id)
    requires s.Update? && Scoped(schema, s.table) && other != ws && !AssignsTo(schema, db, ws, s, other)
    requires t in db && id in db[t]
    ensures var db' := ExecuteScoped(schema, db, ws, s).0;
      t in db' && id in db'[t]
      && (Visible(schema, db', other, t, db'[t][id]) <==> Visible(schema, db, other, t, db[t][id]))
      && (Visible(schema, db, other, t, db[t][id]) ==> db'[t][id] == db[t][id])
  {
    var db' := ExecuteScoped(schema, db, ws, s).0;
    OwnershipOfChildren(schema, db, ws, s, other, t, db'[t][id]);
    if t == s.table && id in Matching(db, Rewrite(schema, s, ws), s.table, s.filter) {
      WrittenRow(schema, db, ws, s, other, id);
    }
  }

  /** The discipline on UPDATE cannot be dropped: an UPDATE that takes effect
      leaves another tenant's slice alone if and only if it assigns none of the
      matched rows to that tenant. */
  lemma UpdateReachesATenantIffItReparents(schema: Schema, db: Db, ws: Ws, s: Statement, other: Ws)
    requires s.Update? && Scoped(schema, s.table) && other != ws
    requires ExecuteScoped(schema, db, ws, s).1.Affected?
    ensures Slice(schema, ExecuteScoped(schema, db, ws, s).0, other) != Slice(schema, db, other)
      <==> AssignsTo(schema, db, ws, s, other)
  {
    var db' := ExecuteScoped(schema, db, ws, s).0;
    var a, b := Slice(schema, db', other), Slice(schema, db, other);
    if AssignsTo(schema, db, ws, s, other) {
      var id :| id in Matching(db, Rewrite(schema, s, ws), s.table, s.filter)
        && Owner(schema, db, s.table, s.assign(Rows(db, s.table)[id])) == Some(other);
      ReparentedRowArrives(schema, db, ws, s, other, id);
      assert id in a[s.table] && id !in b[s.table];
    } else {
      forall t, id | t in a && (id in a[t] || id in b[t])
        ensures id in a[t] && id in b[t] && a[t][id] == b[t][id]
      {
        UpdatedRow(schema, db, ws, s, other, t, id);
      }
      SameDb(a, b);
    }
  }

  lemma ReparentedRowArrives(schema: Schema, db: Db, ws: Ws, s: Statement, other: Ws, id: Id)
    requires s.Update? && Scoped(schema, s.table) && other != ws
    requires ExecuteScoped(schema, db, ws, s).1.Affected?
    requires id in Matching(db, Rewrite(schema, s, ws), s.table, s.filter)
    requires Owner(schema, db, s.table, s.assign(Rows(db, s.table)[id])) == Some(other)
    ensures s.table in db && id in db[s.table] && !Visible(schema, db, other, s.table, db[s.table][id])
    ensures var db' := ExecuteScoped(schema, db, ws, s).0;
      s.table in db' && id in db'[s.table] && Visible(schema, db', other, s.table, db'[s.table][id])
  {
    MatchingOnSlice(schema, db, ws, s.table, s.filter);
    SliceRows(schema, db, ws, s.table);
    if ScopeOf(schema, s.table).value.Child? {
      ParentsOwnTheirRows(schema, s.table);
    }
  }
}
