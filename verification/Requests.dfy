/** Requests that run at the same time. Each is a task with its own copy of the two
    context variables of `backend/app/core/tenancy.py`; tasks take turns, a step at a
    time, and the statements they execute reach one database in that order. */
module Requests {
  import opened Wrappers
  import opened TenantContext
  import Tenancy
  import Isolation

  // ------------------------------------------------------------ one task, step by step

  /** What a task has still to do: code to run, an `except` to fall into, a variable
      to put back in a `finally`. */
  datatype Frame =
    | Do(program: Program)
    | Catch(handler: Program)
    | RestoreCurrent(previous: Option<Ws>)
    | RestoreBypass(wasSet: bool)

  datatype Task = Task(frames: seq<Frame>, current: Option<Ws>, bypass: bool, raising: bool)

  /** A new task copies the context it is created in, where nothing is set. */
  function Begin(p: Program): Task {
    Task([Do(p)], None, false, false)
  }

  predicate Finished(t: Task) {
    t.frames == []
  }

  /** One step, and the statement it executes, if it does. */
  function Move(t: Task): (Task, seq<Observation>)
    requires !Finished(t)
  {
    var rest := t.frames[1..];
    match t.frames[0]
    case Do(p) => if t.raising then (t.(frames := rest), []) else Enter(t, p, rest)
    case Catch(handler) =>
      if t.raising then (t.(frames := [Do(handler)] + rest, raising := false), []) else (t.(frames := rest), [])
    case RestoreCurrent(previous) => (t.(frames := rest, current := previous), [])
    case RestoreBypass(wasSet) => (t.(frames := rest, bypass := wasSet), [])
  }

  function Enter(t: Task, p: Program, rest: seq<Frame>): (Task, seq<Observation>) {
    match p
    case Skip => (t.(frames := rest), [])
    case Execute(site) => (t.(frames := rest), [Observation(site, ScopeOf(t.current, t.bypass))])
    case Raise => (t.(frames := rest, raising := true), [])
    case Seq(first, second) => (t.(frames := [Do(first), Do(second)] + rest), [])
    case TryExcept(body, handler) => (t.(frames := [Do(body), Catch(handler)] + rest), [])
    case Unscoped(body) => (t.(frames := [Do(body), RestoreBypass(t.bypass)] + rest, bypass := true), [])
    case Request(credential, required, handler) =>
      match credential
      case Public => (t.(frames := [Do(handler)] + rest), [])
      case Unusable => (t.(frames := (if required then [] else [Do(handler)]) + rest), [])
      case Identified(workspace) =>
        (t.(frames := [Do(handler), RestoreCurrent(t.current)] + rest, current := ParseWorkspace(workspace)), [])
  }

  /** What a task will still see, by the lexical meaning of the code it has left. */
  function Rest(frames: seq<Frame>, current: Option<Ws>, bypass: bool, raising: bool): seq<Observation> {
    if frames == [] then []
    else
      var rest := frames[1..];
      match frames[0]
      case Do(p) =>
        if raising then Rest(rest, current, bypass, true)
        else Denote(p, current, bypass).seen + Rest(rest, current, bypass, Denote(p, current, bypass).raised)
      case Catch(p) =>
        if !raising then Rest(rest, current, bypass, false)
        else Denote(p, current, bypass).seen + Rest(rest, current, bypass, Denote(p, current, bypass).raised)
      case RestoreCurrent(previous) => Rest(rest, previous, bypass, raising)
      case RestoreBypass(wasSet) => Rest(rest, current, wasSet, raising)
  }

  function Left(t: Task): seq<Observation> {
    Rest(t.frames, t.current, t.bypass, t.raising)
  }

  lemma RestOfCode(p: Program, rest: seq<Frame>, current: Option<Ws>, bypass: bool, raising: bool)
    ensures Rest([Do(p)] + rest, current, bypass, raising) ==
      if raising then Rest(rest, current, bypass, true)
      else Denote(p, current, bypass).seen + Rest(rest, current, bypass, Denote(p, current, bypass).raised)
  {
    assert ([Do(p)] + rest)[1..] == rest;
  }

  lemma RestOfHandler(p: Program, rest: seq<Frame>, current: Option<Ws>, bypass: bool, raising: bool)
    ensures Rest([Catch(p)] + rest, current, bypass, raising) ==
      if !raising then Rest(rest, current, bypass, false)
      else Denote(p, current, bypass).seen + Rest(rest, current, bypass, Denote(p, current, bypass).raised)
  {
    assert ([Catch(p)] + rest)[1..] == rest;
  }

  lemma RestOfRestores(rest: seq<Frame>, current: Option<Ws>, bypass: bool, raising: bool)
    ensures forall previous ::
      Rest([RestoreCurrent(previous)] + rest, current, bypass, raising) == Rest(rest, previous, bypass, raising)
    ensures forall wasSet ::
      Rest([RestoreBypass(wasSet)] + rest, current, bypass, raising) == Rest(rest, current, wasSet, raising)
  {
    forall previous
      ensures Rest([RestoreCurrent(previous)] + rest, current, bypass, raising) == Rest(rest, previous, bypass, raising)
    {
      assert ([RestoreCurrent(previous)] + rest)[1..] == rest;
    }
    forall wasSet
      ensures Rest([RestoreBypass(wasSet)] + rest, current, bypass, raising) == Rest(rest, current, wasSet, raising)
    {
      assert ([RestoreBypass(wasSet)] + rest)[1..] == rest;
    }
  }

  lemma Regroup(f: Frame, g: Frame, rest: seq<Frame>)
    ensures [f, g] + rest == [f] + ([g] + rest)
  {
  }

  /** A step takes what it executes from what was left, and leaves the rest. */
  lemma MoveKeepsMeaning(t: Task)
    requires !Finished(t)
    ensures Left(t) == Move(t).1 + Left(Move(t).0)
  {
    var rest := t.frames[1..];
    match t.frames[0]
    case Do(p) =>
      if !t.raising {
        EnterKeepsMeaning(t, p, rest);
      }
    case Catch(handler) => RestOfCode(handler, rest, t.current, t.bypass, false);
    case RestoreCurrent(_) =>
    case RestoreBypass(_) =>
  }

  lemma EnterKeepsMeaning(t: Task, p: Program, rest: seq<Frame>)
    requires !t.raising
    ensures Denote(p, t.current, t.bypass).seen + Rest(rest, t.current, t.bypass, Denote(p, t.current, t.bypass).raised)
      == Enter(t, p, rest).1 + Left(Enter(t, p, rest).0)
  {
    match p
    case Skip =>
    case Execute(_) =>
    case Raise =>
    case Seq(a, b) => SeqKeepsMeaning(a, b, rest, t.current, t.bypass);
    case TryExcept(a, h) => TryKeepsMeaning(a, h, rest, t.current, t.bypass);
    case Unscoped(body) =>
      Regroup(Do(body), RestoreBypass(t.bypass), rest);
      RestOfCode(body, [RestoreBypass(t.bypass)] + rest, t.current, true, false);
      RestOfRestores(rest, t.current, true, Denote(body, t.current, true).raised);
    case Request(credential, _, handler) =>
      match credential
      case Public => RestOfCode(handler, rest, t.current, t.bypass, false);
      case Unusable =>
        RestOfCode(handler, rest, t.current, t.bypass, false);
        assert [] + rest == rest;
      case Identified(workspace) =>
        var bound := ParseWorkspace(workspace);
        Regroup(Do(handler), RestoreCurrent(t.current), rest);
        RestOfCode(handler, [RestoreCurrent(t.current)] + rest, bound, t.bypass, false);
        RestOfRestores(rest, bound, t.bypass, Denote(handler, bound, t.bypass).raised);
  }

  lemma Regrouped(a: seq<Observation>, b: seq<Observation>, c: seq<Observation>)
    ensures (a + b) + c == a + (b + c)
  {
  }

  lemma SeqKeepsMeaning(a: Program, b: Program, rest: seq<Frame>, current: Option<Ws>, bypass: bool)
    ensures var p := Denote(Seq(a, b), current, bypass);
      p.seen + Rest(rest, current, bypass, p.raised) == Rest([Do(a), Do(b)] + rest, current, bypass, false)
  {
    var first, second := Denote(a, current, bypass), Denote(b, current, bypass);
    Regroup(Do(a), Do(b), rest);
    RestOfCode(a, [Do(b)] + rest, current, bypass, false);
    RestOfCode(b, rest, current, bypass, first.raised);
    Regrouped(first.seen, second.seen, Rest(rest, current, bypass, second.raised));
  }

  lemma TryKeepsMeaning(a: Program, h: Program, rest: seq<Frame>, current: Option<Ws>, bypass: bool)
    ensures var p := Denote(TryExcept(a, h), current, bypass);
      p.seen + Rest(rest, current, bypass, p.raised) == Rest([Do(a), Catch(h)] + rest, current, bypass, false)
  {
    var body, handler := Denote(a, current, bypass), Denote(h, current, bypass);
    Regroup(Do(a), Catch(h), rest);
    RestOfCode(a, [Catch(h)] + rest, current, bypass, false);
    RestOfHandler(h, rest, current, bypass, body.raised);
    Regrouped(body.seen, handler.seen, Rest(rest, current, bypass, handler.raised));
  }

  // ---------------------------------------------------------------- many tasks

  /** A statement as it reaches the database: by whom, where in the code, and with
      which scope. */
  datatype Turn = Turn(task: int, observation: Observation)

  function TurnsOf(task: int, seen: seq<Observation>): seq<Turn> {
    seq(|seen|, i requires 0 <= i < |seen| => Turn(task, seen[i]))
  }

  /** The tasks after a schedule, which names whose turn it is; a turn of a task that
      is unknown or finished is void. */
  function Tasks(programs: map<int, Program>, schedule: seq<int>): map<int, Task>
    ensures Tasks(programs, schedule).Keys == programs.Keys
  {
    if schedule == [] then map k | k in programs :: Begin(programs[k])
    else
      var before, k := Tasks(programs, schedule[..|schedule| - 1]), schedule[|schedule| - 1];
      if k in before && !Finished(before[k]) then before[k := Move(before[k]).0] else before
  }

  function Trace(programs: map<int, Program>, schedule: seq<int>): seq<Turn> {
    if schedule == [] then []
    else
      var front, k := schedule[..|schedule| - 1], schedule[|schedule| - 1];
      var before := Tasks(programs, front);
      Trace(programs, front)
      + TurnsOf(k, if k in before && !Finished(before[k]) then Move(before[k]).1 else [])
  }

  /** What one task has seen. */
  function SeenBy(trace: seq<Turn>, task: int): seq<Observation> {
    if trace == [] then []
    else (if trace[0].task == task then [trace[0].observation] else []) + SeenBy(trace[1..], task)
  }

  lemma {:induction false} SeenByAppend(a: seq<Turn>, b: seq<Turn>, task: int)
    ensures SeenBy(a + b, task) == SeenBy(a, task) + SeenBy(b, task)
  {
    if a == [] {
      assert a + b == b;
    } else {
      assert (a + b)[0] == a[0] && (a + b)[1..] == a[1..] + b;
      SeenByAppend(a[1..], b, task);
      var head := if a[0].task == task then [a[0].observation] else [];
      assert SeenBy(a, task) == head + SeenBy(a[1..], task);
      assert SeenBy(a + b, task) == head + SeenBy(a[1..] + b, task);
    }
  }

  lemma {:induction false} SeenByTurns(k: int, seen: seq<Observation>, task: int)
    ensures SeenBy(TurnsOf(k, seen), task) == if k == task then seen else []
  {
    if seen != [] {
      SeenByTurns(k, seen[1..], task);
      assert TurnsOf(k, seen)[1..] == TurnsOf(k, seen[1..]);
      assert seen == [seen[0]] + seen[1..];
    }
  }

  /** However tasks take turns, what each has seen and what it has left are together
      what its program means on its own: nobody else's scope shows. */
  lemma {:induction false} TasksDoNotShareContext(programs: map<int, Program>, schedule: seq<int>, task: int)
    requires task in programs
    ensures SeenBy(Trace(programs, schedule), task) + Left(Tasks(programs, schedule)[task])
      == Denote(programs[task], None, false).seen
  {
    if schedule == [] {
      RestOfCode(programs[task], [], None, false, false);
      assert [Do(programs[task])] + [] == [Do(programs[task])];
      assert Rest([], None, false, Denote(programs[task], None, false).raised) == [];
    } else {
      var front := schedule[..|schedule| - 1];
      TasksDoNotShareContext(programs, front, task);
      OneTurn(programs, front, schedule[|schedule| - 1], task);
    }
  }

  lemma OneTurn(programs: map<int, Program>, front: seq<int>, k: int, task: int)
    requires task in programs
    ensures var before := Tasks(programs, front);
      var seen := if k in before && !Finished(before[k]) then Move(before[k]).1 else [];
      var after := if k in before && !Finished(before[k]) then before[k := Move(before[k]).0] else before;
      SeenBy(Trace(programs, front) + TurnsOf(k, seen), task) + Left(after[task])
        == SeenBy(Trace(programs, front), task) + Left(before[task])
  {
    var before := Tasks(programs, front);
    var seen := if k in before && !Finished(before[k]) then Move(before[k]).1 else [];
    SeenByAppend(Trace(programs, front), TurnsOf(k, seen), task);
    SeenByTurns(k, seen, task);
    if k in before && !Finished(before[k]) {
      MoveKeepsMeaning(before[k]);
    }
  }

  // ------------------------------------------------------ requests on one database

  /** A request whose credential names a workspace and whose handler opens neither an
      `unscoped` block nor a further request. */
  predicate IsRequestOf(p: Program, ws: Ws) {
    p.Request? && p.credential.Identified? && Names(p.credential.workspace, ws) && Plain(p.handler)
  }

  /** The workspace of each task. */
  ghost predicate Serves(programs: map<int, Program>, home: map<int, Ws>) {
    programs.Keys == home.Keys && forall k :: k in programs ==> IsRequestOf(programs[k], home[k])
  }

  lemma {:induction false} SeenByHas(trace: seq<Turn>, i: nat)
    requires i < |trace|
    ensures trace[i].observation in SeenBy(trace, trace[i].task)
  {
    if i > 0 {
      SeenByHas(trace[1..], i - 1);
    }
  }

  lemma {:induction false} TurnsAreOfTasks(programs: map<int, Program>, schedule: seq<int>)
    ensures forall i :: 0 <= i < |Trace(programs, schedule)| ==> Trace(programs, schedule)[i].task in programs
  {
    if schedule != [] {
      TurnsAreOfTasks(programs, schedule[..|schedule| - 1]);
    }
  }

  /** Every statement carries the workspace of its own request, whoever ran between
      that request's steps. */
  lemma StatementsCarryTheirRequestsWorkspace(programs: map<int, Program>, home: map<int, Ws>, schedule: seq<int>,
                                              i: nat)
    requires Serves(programs, home) && i < |Trace(programs, schedule)|
    ensures var turn := Trace(programs, schedule)[i];
      turn.task in home && turn.observation.scope == Some(home[turn.task])
  {
    var trace := Trace(programs, schedule);
    var k := trace[i].task;
    TurnsAreOfTasks(programs, schedule);
    SeenByHas(trace, i);
    TasksDoNotShareContext(programs, schedule, k);
    assert trace[i].observation in Denote(programs[k], None, false).seen;
    PlainCodeSeesItsRequest(programs[k].handler, Some(home[k]), false);
  }

  ghost predicate AllServed(trace: seq<Turn>, home: map<int, Ws>) {
    forall i :: 0 <= i < |trace| ==> trace[i].task in home && trace[i].observation.scope == Some(home[trace[i].task])
  }

  /** The statements of a trace that have a workspace in their scope. `code` says what
      stands at each place of each task. */
  function Issues(trace: seq<Turn>, code: (int, nat) -> Tenancy.Statement): seq<Isolation.Issue> {
    if trace == [] then []
    else
      var o := trace[0].observation;
      (if o.scope.Some? then [Isolation.Issue(o.scope.value, code(trace[0].task, o.site))] else [])
      + Issues(trace[1..], code)
  }

  /** The turns of one workspace's requests. */
  function TurnsOfWorkspace(trace: seq<Turn>, home: map<int, Ws>, ws: Ws): seq<Turn> {
    if trace == [] then []
    else
      (if trace[0].task in home && home[trace[0].task] == ws then [trace[0]] else [])
      + TurnsOfWorkspace(trace[1..], home, ws)
  }

  lemma {:induction false} EveryTurnIsIssued(trace: seq<Turn>, home: map<int, Ws>,
                                             code: (int, nat) -> Tenancy.Statement)
    requires AllServed(trace, home)
    ensures |Issues(trace, code)| == |trace|
  {
    if trace != [] {
      EveryTurnIsIssued(trace[1..], home, code);
    }
  }

  lemma {:induction false} OnlyOnesOwn(trace: seq<Turn>, home: map<int, Ws>, code: (int, nat) -> Tenancy.Statement,
                                       ws: Ws)
    requires AllServed(trace, home)
    ensures Isolation.Only(Issues(trace, code), ws) == Issues(TurnsOfWorkspace(trace, home, ws), code)
  {
    if trace != [] {
      OnlyOnesOwn(trace[1..], home, code, ws);
      var turn, rest := trace[0], TurnsOfWorkspace(trace[1..], home, ws);
      assert ([turn] + rest)[0] == turn && ([turn] + rest)[1..] == rest;
      assert [] + rest == rest;
      var issue := Isolation.Issue(home[turn.task], code(turn.task, turn.observation.site));
      assert Issues(trace, code) == [issue] + Issues(trace[1..], code);
      assert Issues(trace, code)[1..] == Issues(trace[1..], code);
    }
  }

  /** Non-interference of requests. Any number of requests of any number of workspaces
      take turns at one database. Each workspace's are answered, and its slice is
      left, as if they had run alone, in the same order, on a database that never
      held anybody else's rows. */
  lemma RequestsDoNotInterfere(schema: Tenancy.Schema, db: Tenancy.Db, programs: map<int, Program>, home: map<int, Ws>,
                               schedule: seq<int>, code: (int, nat) -> Tenancy.Statement, ws: Ws)
    requires Tenancy.Integrity(schema, db) && Tenancy.Contained(schema, db) && Serves(programs, home)
    requires Isolation.DisciplinedRun(schema, db, Issues(Trace(programs, schedule), code))
    ensures var all := Issues(Trace(programs, schedule), code);
      var own := Issues(TurnsOfWorkspace(Trace(programs, schedule), home, ws), code);
      var slice := Tenancy.Slice(schema, db, ws);
      && |all| == |Trace(programs, schedule)|
      && Isolation.Answers(schema, db, all, ws) == Isolation.Answers(schema, slice, own, ws)
      && Tenancy.Slice(schema, Isolation.Run(schema, db, all), ws) == Isolation.Run(schema, slice, own)
  {
    var trace := Trace(programs, schedule);
    forall i | 0 <= i < |trace|
      ensures trace[i].task in home && trace[i].observation.scope == Some(home[trace[i].task])
    {
      StatementsCarryTheirRequestsWorkspace(programs, home, schedule, i);
    }
    EveryTurnIsIssued(trace, home, code);
    OnlyOnesOwn(trace, home, code, ws);
    Isolation.NonInterference(schema, db, Issues(trace, code), ws);
  }
}
