/** The hook itself, `_scoped_entities` and `_apply_workspace_filter` of
    `backend/app/core/tenancy.py`: a class-level cache, a list that is appended
    to, and a statement whose options grow one criterion at a time. */
module TenancyHook {
  import opened Wrappers
  import opened Tenancy
  import TenantContext

  /** The classes of a statement that can be scoped, in order, and how. */
  function ScopedEntities(schema: Schema, mappers: seq<string>): seq<(string, How)> {
    if mappers == [] then []
    else
      (match ScopeOf(schema, mappers[0]) case None => [] case Some(how) => [(mappers[0], how)])
      + ScopedEntities(schema, mappers[1..])
  }

  function CriteriaOf(entities: seq<(string, How)>, ws: int): seq<LoaderCriteria> {
    seq(|entities|, i requires 0 <= i < |entities| =>
      LoaderCriteria(entities[i].0, CriterionFor(entities[i].1, ws)))
  }

  lemma {:induction false} ScopedEntitiesAppend(schema: Schema, mappers: seq<string>, last: string)
    ensures ScopedEntities(schema, mappers + [last])
      == ScopedEntities(schema, mappers) + ScopedEntities(schema, [last])
  {
    if mappers == [] {
      assert mappers + [last] == [last];
    } else {
      assert (mappers + [last])[1..] == mappers[1..] + [last];
      ScopedEntitiesAppend(schema, mappers[1..], last);
    }
  }

  lemma {:induction false} CriteriaOfScopedEntities(schema: Schema, mappers: seq<string>, ws: int)
    ensures CriteriaOf(ScopedEntities(schema, mappers), ws) == CriteriaFor(schema, mappers, ws)
  {
    if mappers != [] {
      CriteriaOfScopedEntities(schema, mappers[1..], ws);
    }
  }

  /** One execution as the session hands it to the hook. */
  class ExecuteState {
    const statement: Statement
    const isRelationshipLoad: bool
    var options: seq<LoaderCriteria>

    constructor (statement: Statement, isRelationshipLoad: bool)
      ensures this.statement == statement && this.isRelationshipLoad == isRelationshipLoad && options == []
    {
      this.statement, this.isRelationshipLoad, options := statement, isRelationshipLoad, [];
    }
  }

  class WorkspaceFilter {
    const schema: Schema
    var parentScopeCache: map<string, Option<How>>

    ghost predicate Valid()
      reads this
    {
      forall t :: t in parentScopeCache ==>
        t in schema && parentScopeCache[t] == ParentScope(schema, schema[t])
    }

    constructor (schema: Schema)
      ensures Valid() && this.schema == schema
    {
      this.schema, parentScopeCache := schema, map[];
    }

    method ScopedEntitiesOf(mappers: seq<string>) returns (entities: seq<(string, How)>)
      requires Valid()
      modifies this`parentScopeCache
      ensures Valid()
      ensures entities == ScopedEntities(schema, mappers)
    {
      entities := [];
      for i := 0 to |mappers|
        invariant Valid()
        invariant entities == ScopedEntities(schema, mappers[..i])
      {
        var table := mappers[i];
        ScopedEntitiesAppend(schema, mappers[..i], table);
        assert mappers[..i + 1] == mappers[..i] + [table];
        if table in EXEMPT_TABLES || table !in schema {
          continue;
        }
        if HasWorkspaceColumn(schema, table) {
          entities := entities + [(table, Own)];
          continue;
        }
        if table !in parentScopeCache {
          parentScopeCache := parentScopeCache[table := ParentScope(schema, schema[table])];
        }
        var parent := parentScopeCache[table];
        if parent.Some? {
          entities := entities + [(table, parent.value)];
        }
      }
      assert mappers[..|mappers|] == mappers;
    }

    /** With a workspace in context the statement ends up carrying exactly the
        rewrite, criteria for the classes at its top level; otherwise, for an INSERT,
        and for a relationship load it is left alone. The answer does not depend on
        what the cache already held. */
    method Apply(vars: TenantContext.ContextVars, state: ExecuteState)
      requires Valid()
      modifies this`parentScopeCache, state`options
      ensures Valid()
      ensures var scope := TenantContext.ScopeOf(vars.current, vars.bypass);
        state.options ==
          if scope.None? || state.isRelationshipLoad || state.statement.Insert? then old(state.options)
          else old(state.options) + Rewrite(schema, state.statement, scope.value)
    {
      if state.statement.Insert? {
        return;
      }
      if state.isRelationshipLoad {
        return;
      }
      if vars.bypass {
        return;
      }
      if vars.current.None? {
        return;
      }
      var ws := vars.current.value;
      var entities := ScopedEntitiesOf(Mappers(state.statement));
      ghost var all := CriteriaOf(entities, ws);
      for i := 0 to |entities|
        invariant Valid()
        invariant state.options == old(state.options) + all[..i]
      {
        var (entity, how) := entities[i];
        var criterion;
        match how {
          case Own => criterion := OwnColumnIs(ws);
          case Child(column, parent, _) => criterion := ParentIn(column, parent, ws);
        }
        state.options := state.options + [LoaderCriteria(entity, criterion)];
      }
      CriteriaOfScopedEntities(schema, Mappers(state.statement), ws);
    }
  }
}
