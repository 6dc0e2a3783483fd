/** The two context variables of `backend/app/core/tenancy.py` and the code that
    sets and resets them: the authentication middleware around a request, and
    `unscoped()` around a block.

    `Run` executes a program the way Python does, by mutating the variables and
    handing the old value back through a token. `Denote` gives the same program a
    meaning with no mutable state at all: the scope is an argument that each
    construct passes down. `Run` is proved to agree with `Denote`. */
module TenantContext {
  import opened Wrappers

  type Ws = nat

  /** What may arrive as a workspace id. `AsText` carries the outcome of parsing
      the text as a UUID. */
  datatype RawId = Missing | AsUuid(ws: Ws) | AsText(parsed: Option<Ws>)

  /** How the authentication middleware classifies a request. */
  datatype Credential =
    | Public                        // allowlisted path: no identity, context untouched
    | Unusable                      // no identity could be resolved
    | Identified(workspace: RawId)  // an identity, whose workspace is bound

  datatype Program =
    | Skip
    | Execute(site: nat)
    | Raise
    | Seq(first: Program, second: Program)
    | TryExcept(body: Program, handler: Program)
    | Unscoped(body: Program)
    | Request(credential: Credential, required: bool, handler: Program)

  /** The scope the query hook would apply to a statement; `None` is no filter. */
  datatype Observation = Observation(site: nat, scope: Option<Ws>)

  datatype Meaning = Meaning(raised: bool, seen: seq<Observation>)

  /** The id is that of `ws`. */
  predicate Names(raw: RawId, ws: Ws) {
    raw == AsUuid(ws) || raw == AsText(Some(ws))
  }

  /** The id is missing or malformed. */
  predicate NamesNone(raw: RawId) {
    raw == Missing || raw == AsText(None)
  }

  function ParseWorkspace(raw: RawId): Option<Ws> {
    match raw
    case Missing => None
    case AsUuid(ws) => Some(ws)
    case AsText(parsed) => parsed
  }

  function ScopeOf(current: Option<Ws>, bypass: bool): Option<Ws> {
    if bypass then None else current
  }

  /** Lexical scoping: what a program sees depends only on the constructs that
      enclose each statement. */
  function Denote(p: Program, current: Option<Ws>, bypass: bool): Meaning {
    match p
    case Skip => Meaning(false, [])
    case Execute(site) => Meaning(false, [Observation(site, ScopeOf(current, bypass))])
    case Raise => Meaning(true, [])
    case Seq(first, second) =>
      var a := Denote(first, current, bypass);
      if a.raised then a else
        var b := Denote(second, current, bypass);
        Meaning(b.raised, a.seen + b.seen)
    case TryExcept(body, handler) =>
      var a := Denote(body, current, bypass);
      if !a.raised then a else
        var b := Denote(handler, current, bypass);
        Meaning(b.raised, a.seen + b.seen)
    case Unscoped(body) => Denote(body, current, true)
    case Request(credential, required, handler) =>
      match credential
      case Public => Denote(handler, current, bypass)
      case Unusable => if required then Meaning(false, []) else Denote(handler, current, bypass)
      case Identified(workspace) => Denote(handler, ParseWorkspace(workspace), bypass)
  }

  /** A token remembers the value that `set` replaced. */
  datatype Token<T> = Token(previous: T)

  class ContextVars {
    var current: Option<Ws>
    var bypass: bool

    constructor ()
      ensures current == None && !bypass
    {
      current, bypass := None, false;
    }

    method SetCurrentWorkspace(raw: RawId) returns (token: Token<Option<Ws>>)
      modifies this`current
      ensures raw.AsUuid? ==> current == Some(raw.ws)
      ensures raw.AsText? ==> current == raw.parsed
      ensures raw.Missing? ==> current == None
      ensures token == Token(old(current))
    {
      token := Token(current);
      match raw {
        case Missing => current := None;
        case AsUuid(ws) => current := Some(ws);
        case AsText(parsed) =>
          if parsed.None? {
            current := None;
          } else {
            current := Some(parsed.value);
          }
      }
    }

    method ResetCurrentWorkspace(token: Token<Option<Ws>>)
      modifies this`current
      ensures current == token.previous
    {
      current := token.previous;
    }

    method SetBypass(value: bool) returns (token: Token<bool>)
      modifies this`bypass
      ensures bypass == value && token == Token(old(bypass))
    {
      token := Token(bypass);
      bypass := value;
    }

    method ResetBypass(token: Token<bool>)
      modifies this`bypass
      ensures bypass == token.previous
    {
      bypass := token.previous;
    }

    /** Runs a program against the mutable variables. Whatever was nested inside
        it, and whether or not it raised, both variables end as they began, and
        every statement saw the scope that lexical nesting gives it. */
    method Run(p: Program) returns (raised: bool, seen: seq<Observation>)
      modifies this
      ensures current == old(current) && bypass == old(bypass)
      ensures Meaning(raised, seen) == Denote(p, old(current), old(bypass))
      decreases p, 0
    {
      match p {
        case Skip =>
          raised, seen := false, [];
        case Execute(site) =>
          raised, seen := false, [Observation(site, if bypass then None else current)];
        case Raise =>
          raised, seen := true, [];
        case Seq(first, second) =>
          raised, seen := Run(first);
          if !raised {
            var more;
            raised, more := Run(second);
            seen := seen + more;
          }
        case TryExcept(body, handler) =>
          raised, seen := Run(body);
          if raised {
            var more;
            raised, more := Run(handler);
            seen := seen + more;
          }
        case Unscoped(body) =>
          var token := SetBypass(true);
          raised, seen := Run(body);
          ResetBypass(token);
        case Request(credential, required, handler) =>
          raised, seen := RunRequest(credential, required, handler);
      }
    }

    method RunRequest(credential: Credential, required: bool, handler: Program)
      returns (raised: bool, seen: seq<Observation>)
      modifies this
      ensures current == old(current) && bypass == old(bypass)
      ensures Meaning(raised, seen) == Denote(Request(credential, required, handler), old(current), old(bypass))
      decreases handler, 1
    {
      match credential {
        case Public =>
          raised, seen := Run(handler);
        case Unusable =>
          if required {
            raised, seen := false, [];  // denied: the application never runs
          } else {
            raised, seen := Run(handler);
          }
        case Identified(workspace) =>
          var token := SetCurrentWorkspace(workspace);
          raised, seen := Run(handler);
          ResetCurrentWorkspace(token);
      }
    }
  }

  /** No construct between a request and its statements, other than `unscoped`
      and a further request. */
  predicate Plain(p: Program) {
    match p
    case Skip => true
    case Execute(_) => true
    case Raise => true
    case Seq(a, b) => Plain(a) && Plain(b)
    case TryExcept(a, b) => Plain(a) && Plain(b)
    case Unscoped(_) => false
    case Request(_, _, _) => false
  }

  /** Every statement outside an `unscoped` block and outside a nested request
      sees exactly the workspace its own request bound, whatever the enclosing
      request had set. */
  lemma {:induction false} PlainCodeSeesItsRequest(p: Program, current: Option<Ws>, bypass: bool)
    requires Plain(p)
    ensures forall o :: o in Denote(p, current, bypass).seen ==> o.scope == ScopeOf(current, bypass)
  {
    match p
    case Skip =>
    case Execute(_) =>
    case Raise =>
    case Seq(a, b) =>
      PlainCodeSeesItsRequest(a, current, bypass);
      PlainCodeSeesItsRequest(b, current, bypass);
    case TryExcept(a, b) =>
      PlainCodeSeesItsRequest(a, current, bypass);
      PlainCodeSeesItsRequest(b, current, bypass);
    case Unscoped(_) =>
    case Request(_, _, _) =>
  }

  /** The statements of a request whose credential names a workspace are confined to
      it, whatever was in context. */
  lemma NamedWorkspaceIsSeen(raw: RawId, ws: Ws, required: bool, handler: Program, current: Option<Ws>)
    requires Names(raw, ws) && Plain(handler)
    ensures forall o ::
      o in Denote(Request(Identified(raw), required, handler), current, false).seen ==> o.scope == Some(ws)
  {
    PlainCodeSeesItsRequest(handler, Some(ws), false);
  }

  /** A request that must have an identity and has none executes nothing. */
  lemma DeniedExecutesNothing(handler: Program, current: Option<Ws>, bypass: bool)
    ensures Denote(Request(Unusable, true, handler), current, bypass) == Meaning(false, [])
  {
  }

  /** Inside an `unscoped` block nothing is filtered, whatever was in context, and what
      comes after it in the same code is filtered as before it. */
  lemma UnscopedSeesNoFilter(body: Program, after: Program, current: Option<Ws>, bypass: bool)
    requires Plain(after)
    ensures forall o :: o in Denote(Unscoped(body), current, bypass).seen ==> o.scope == None
    ensures var inside := Denote(Unscoped(body), current, bypass);
      var all := Denote(Seq(Unscoped(body), after), current, bypass);
      inside.seen <= all.seen
      && forall o :: o in all.seen[|inside.seen|..] ==> o.scope == ScopeOf(current, bypass)
  {
    BypassWinsEverywhere(body, current);
    PlainCodeSeesItsRequest(after, current, bypass);
  }

  // ------------------------------------------------------ everything is executed

  /** Code that raises nothing and that nobody is refused. */
  predicate Straight(p: Program) {
    match p
    case Skip => true
    case Execute(_) => true
    case Raise => false
    case Seq(a, b) => Straight(a) && Straight(b)
    case TryExcept(a, _) => Straight(a)
    case Unscoped(body) => Straight(body)
    case Request(credential, required, handler) => !(credential.Unusable? && required) && Straight(handler)
  }

  /** The statements in the order in which they stand, without exception handlers. */
  function Sites(p: Program): seq<nat> {
    match p
    case Skip => []
    case Execute(site) => [site]
    case Raise => []
    case Seq(a, b) => Sites(a) + Sites(b)
    case TryExcept(a, _) => Sites(a)
    case Unscoped(body) => Sites(body)
    case Request(_, _, handler) => Sites(handler)
  }

  function SitesOf(seen: seq<Observation>): seq<nat> {
    seq(|seen|, i requires 0 <= i < |seen| => seen[i].site)
  }

  lemma {:induction false} StraightCodeExecutesAll(p: Program, current: Option<Ws>, bypass: bool)
    requires Straight(p)
    ensures !Denote(p, current, bypass).raised && SitesOf(Denote(p, current, bypass).seen) == Sites(p)
  {
    match p
    case Skip =>
    case Execute(_) =>
    case Raise =>
    case Seq(a, b) =>
      StraightCodeExecutesAll(a, current, bypass);
      StraightCodeExecutesAll(b, current, bypass);
    case TryExcept(a, _) => StraightCodeExecutesAll(a, current, bypass);
    case Unscoped(body) => StraightCodeExecutesAll(body, current, true);
    case Request(credential, _, handler) =>
      var bound := if credential.Identified? then ParseWorkspace(credential.workspace) else current;
      StraightCodeExecutesAll(handler, bound, bypass);
  }

  /** An exception skips the rest of its block and goes to the handler, which runs with
      the context of the `try`. */
  lemma ExceptionGoesToItsHandler(a: Program, skipped: Program, handler: Program, current: Option<Ws>, bypass: bool)
    requires Straight(a) && Straight(handler)
    ensures var all := Denote(TryExcept(Seq(a, Seq(Raise, skipped)), handler), current, bypass);
      !all.raised && SitesOf(all.seen) == Sites(a) + Sites(handler)
  {
    StraightCodeExecutesAll(a, current, bypass);
    StraightCodeExecutesAll(handler, current, bypass);
    var first, last := Denote(a, current, bypass).seen, Denote(handler, current, bypass).seen;
    var rest := Denote(Seq(Raise, skipped), current, bypass);
    assert Denote(Raise, current, bypass) == Meaning(true, []);
    assert rest == Meaning(true, []) && first + [] == first;
    assert Denote(Seq(a, Seq(Raise, skipped)), current, bypass) == Meaning(true, first);
    assert SitesOf(first + last) == SitesOf(first) + SitesOf(last);
  }

  /** When a request's statements go unfiltered: exactly under a bypass, or when the
      workspace that its credential names is missing or malformed, or, if it carries
      no identity, when none is in context. */
  lemma UnfilteredIff(credential: Credential, required: bool, handler: Program, current: Option<Ws>, bypass: bool,
                      o: Observation)
    requires Plain(handler) && o in Denote(Request(credential, required, handler), current, bypass).seen
    ensures o.scope == None <==>
      || bypass
      || (credential.Identified? && NamesNone(credential.workspace))
      || (!credential.Identified? && current == None)
  {
    var bound := if credential.Identified? then ParseWorkspace(credential.workspace) else current;
    PlainCodeSeesItsRequest(handler, bound, bypass);
  }

  /** A malformed id does not keep the workspace that was in context, or any other: it
      switches the filter off. */
  lemma MalformedInput(current: Ws)
    ensures Denote(Request(Identified(AsText(None)), true, Execute(0)), Some(current), false).seen
      == [Observation(0, None)]
  {
  }

  /** No statement in a program is ever confined to a workspace that no
      construct on the way to it bound. */
  predicate Binds(p: Program, ws: Ws) {
    match p
    case Skip => false
    case Execute(_) => false
    case Raise => false
    case Seq(a, b) => Binds(a, ws) || Binds(b, ws)
    case TryExcept(a, b) => Binds(a, ws) || Binds(b, ws)
    case Unscoped(body) => Binds(body, ws)
    case Request(credential, _, handler) =>
      (credential.Identified? && Names(credential.workspace, ws)) || Binds(handler, ws)
  }

  lemma {:induction false} ScopeComesFromABinding(p: Program, current: Option<Ws>, bypass: bool, o: Observation)
    requires o in Denote(p, current, bypass).seen && o.scope.Some?
    ensures o.scope == current || Binds(p, o.scope.value)
  {
    match p
    case Skip =>
    case Execute(_) =>
    case Raise =>
    case Seq(a, b) =>
      if o in Denote(a, current, bypass).seen {
        ScopeComesFromABinding(a, current, bypass, o);
      } else {
        ScopeComesFromABinding(b, current, bypass, o);
      }
    case TryExcept(a, b) =>
      if o in Denote(a, current, bypass).seen {
        ScopeComesFromABinding(a, current, bypass, o);
      } else {
        ScopeComesFromABinding(b, current, bypass, o);
      }
    case Unscoped(body) =>
      ScopeComesFromABinding(body, current, true, o);
    case Request(credential, required, handler) =>
      if credential.Identified? {
        ScopeComesFromABinding(handler, ParseWorkspace(credential.workspace), bypass, o);
      } else {
        ScopeComesFromABinding(handler, current, bypass, o);
      }
  }

  /** Inside `unscoped`, however requests are nested in it, no statement is
      filtered. */
  lemma {:induction false} BypassWinsEverywhere(p: Program, current: Option<Ws>)
    ensures forall o :: o in Denote(p, current, true).seen ==> o.scope == None
  {
    match p
    case Skip =>
    case Execute(_) =>
    case Raise =>
    case Seq(a, b) => BypassWinsEverywhere(a, current); BypassWinsEverywhere(b, current);
    case TryExcept(a, b) => BypassWinsEverywhere(a, current); BypassWinsEverywhere(b, current);
    case Unscoped(body) => BypassWinsEverywhere(body, current);
    case Request(credential, required, handler) =>
      BypassWinsEverywhere(handler, current);
      if credential.Identified? {
        BypassWinsEverywhere(handler, ParseWorkspace(credential.workspace));
      }
  }
}
