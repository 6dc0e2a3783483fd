/** Tokens and sessions: `auth_service.py`, `security.py`, `identity.py` and
    `get_workspace_id` of `deps.py`.

    Time is in whole seconds, the unit of the `exp` claim (section 2 of RFC 7519).
    A signature is taken to be unforgeable: only a payload the service signed
    decodes. Section 4.1.4 of RFC 7519 has a token refused on its `exp`; the decoder
    in use still accepts it in that very second. Each event says which, so that the
    bounds hold of both. Reading a user's row and signing a token with what was read
    are two events. */
module Session {
  import opened Wrappers

  type Uid = int
  type Ws = int
  type Seconds = int

  const ACCESS_TOKEN_SECONDS: Seconds := 30 * 60
  const REFRESH_TOKEN_SECONDS: Seconds := 7 * 24 * 60 * 60

  // -------------------------------------------------------------------- tokens

  datatype Claim = Uuid(id: int) | Text(text: string) | Number(value: int)

  /** The claims of a token; also its identity, since signing is deterministic. */
  type Claims = map<string, Claim>

  function AccessTokenClaims(user: Uid, workspace: Option<Ws>): Claims {
    var claims: Claims := map["sub" := Uuid(user)];
    if workspace.Some? then claims["workspace_id" := Uuid(workspace.value)] else claims
  }

  function RefreshTokenClaims(user: Uid): Claims {
    map["sub" := Uuid(user)]
  }

  function CreateAccessToken(data: Claims, now: Seconds): Claims {
    data["exp" := Number(now + ACCESS_TOKEN_SECONDS)]["type" := Text("access")]
  }

  function CreateRefreshToken(data: Claims, now: Seconds): Claims {
    data["exp" := Number(now + REFRESH_TOKEN_SECONDS)]["type" := Text("refresh")]
  }

  datatype Failure = Unauthorized | Forbidden | Conflict

  /** A moment, and whether a token that expires at it is still accepted. */
  datatype Clock = Clock(now: Seconds, lenient: bool)

  predicate Expired(exp: Seconds, clock: Clock) {
    exp < clock.now || (exp == clock.now && !clock.lenient)
  }

  function DecodeToken(signed: set<Claims>, token: Claims, clock: Clock): Result<Claims, Failure> {
    if token !in signed then Err(Unauthorized)
    else if "exp" in token && token["exp"].Number? && Expired(token["exp"].value, clock) then Err(Unauthorized)
    else if "sub" !in token then Err(Unauthorized)
    else Ok(token)
  }

  // ------------------------------------------------------------------ identities

  datatype Identity = Identity(userId: Uid, workspaceId: Option<Ws>)

  const WORKSPACE_CLAIMS: seq<string> := ["workspace_id", "ws", "tenant_id"]

  /** The first claim name that is present decides; a value that is not a UUID is
      an error, not a reason to try the next name. */
  function WorkspaceFromClaims(claims: Claims, names: seq<string>): Result<Option<Ws>, Failure> {
    if names == [] then Ok(None)
    else if names[0] !in claims || claims[names[0]] == Text("") then WorkspaceFromClaims(claims, names[1..])
    else if claims[names[0]].Uuid? then Ok(Some(claims[names[0]].id))
    else Err(Unauthorized)
  }

  function IdentityFromBearer(signed: set<Claims>, token: Claims, clock: Clock): Result<Identity, Failure> {
    match DecodeToken(signed, token, clock)
    case Err(e) => Err(e)
    case Ok(claims) =>
      if "type" in claims && claims["type"] == Text("refresh") then Err(Unauthorized)
      else if !claims["sub"].Uuid? then Err(Unauthorized)
      else
        match WorkspaceFromClaims(claims, WORKSPACE_CLAIMS)
        case Err(e) => Err(e)
        case Ok(workspace) => Ok(Identity(claims["sub"].id, workspace))
  }

  // ---------------------------------------------------------------------- service

  /** `request.state`: who was authenticated, when, and the workspace published
      or memoised so far. */
  datatype RequestState = RequestState(identity: Identity, authenticatedAt: Seconds, workspaceId: Option<Ws>)

  /** A row that was read in order to sign tokens for it: whose, what it said and
      when, and the refresh token that was presented. There is none at a login. */
  datatype Reading = Reading(user: Uid, workspace: Option<Ws>, at: Seconds, parent: Option<Claims>)

  datatype Service = Service(
    users: map<Uid, Option<Ws>>,          // the workspace_id column of each user row
    signed: set<Claims>,                  // every token the service has signed
    readings: map<int, Reading>,          // rows read, tokens not yet signed
    requests: map<int, RequestState>)     // requests in progress

  /** `OpenSession` is a login with the right password, or the end of a registration,
      which reads the new row back. */
  datatype Action =
    | Register(user: Uid, home: Ws)
    | OpenSession(user: Uid, reading: int)
    | PresentRefresh(token: Claims, reading: int)
    | Mint(reading: int)
    | Reassign(user: Uid, workspace: Option<Ws>)
    | Authenticate(request: int, token: Claims)
    | ResolveWorkspace(request: int)

  datatype Event = Event(at: Seconds, action: Action, lenient: bool) {
    function Time(): Clock {
      Clock(at, lenient)
    }
  }

  datatype Outcome =
    | Done
    | Tokens(minted: set<Claims>)
    | Authenticated(identity: Identity)
    | Resolved(workspace: Ws)
    | Failed(failure: Failure)

  function GetWorkspaceId(users: map<Uid, Option<Ws>>, state: RequestState): Result<Ws, Failure> {
    if state.workspaceId.Some? then Ok(state.workspaceId.value)
    else
      var user := state.identity.userId;
      if user in users && users[user].Some? then Ok(users[user].value) else Err(Forbidden)
  }

  /** The user of a refresh token that may be used: the checks of `refresh` up to
      the lookup of the row. */
  function RefreshUser(s: Service, token: Claims, clock: Clock): Result<Uid, Failure> {
    match DecodeToken(s.signed, token, clock)
    case Err(f) => Err(f)
    case Ok(payload) =>
      if !("type" in payload && payload["type"] == Text("refresh")) then Err(Unauthorized)
      else if !(payload["sub"].Uuid? && payload["sub"].id in s.users) then Err(Unauthorized)
      else Ok(payload["sub"].id)
  }

  /** What is signed for a reading: an access token, and at a login a refresh token
      with it. */
  function MintedFor(r: Reading, now: Seconds): set<Claims> {
    {CreateAccessToken(AccessTokenClaims(r.user, r.workspace), now)}
    + if r.parent.None? then {CreateRefreshToken(RefreshTokenClaims(r.user), now)} else {}
  }

  /** One event, atomically. Reassignments, the reading of a row and the signing, and
      the two halves of a request (authentication and workspace resolution)
      interleave freely. */
  function Step(s: Service, e: Event): (Service, Outcome) {
    match e.action
    case Register(user, home) =>
      if user in s.users then (s, Failed(Conflict)) else (s.(users := s.users[user := Some(home)]), Done)
    case OpenSession(user, reading) =>
      if user !in s.users then (s, Failed(Unauthorized))
      else (s.(readings := s.readings[reading := Reading(user, s.users[user], e.at, None)]), Done)
    case PresentRefresh(token, reading) =>
      (match RefreshUser(s, token, e.Time())
       case Err(f) => (s, Failed(f))
       case Ok(user) => (s.(readings := s.readings[reading := Reading(user, s.users[user], e.at, Some(token))]), Done))
    case Mint(reading) =>
      if reading !in s.readings then (s, Failed(Unauthorized)) else
        var tokens := MintedFor(s.readings[reading], e.at);
        (s.(signed := s.signed + tokens, readings := s.readings - {reading}), Tokens(tokens))
    case Reassign(user, workspace) =>
      if user in s.users then (s.(users := s.users[user := workspace]), Done) else (s, Failed(Unauthorized))
    case Authenticate(request, token) =>
      (match IdentityFromBearer(s.signed, token, e.Time())
       case Err(f) => (s, Failed(f))
       case Ok(identity) =>
         (s.(requests := s.requests[request := RequestState(identity, e.at, identity.workspaceId)]),
          Authenticated(identity)))
    case ResolveWorkspace(request) =>
      if request !in s.requests then (s, Failed(Unauthorized)) else
        match GetWorkspaceId(s.users, s.requests[request])
        case Err(f) => (s, Failed(f))
        case Ok(ws) =>
          (s.(requests := s.requests[request := s.requests[request].(workspaceId := Some(ws))]), Resolved(ws))
  }

  const INITIAL: Service := Service(map[], {}, map[], map[])

  function After(trace: seq<Event>): Service {
    if trace == [] then INITIAL else Step(After(trace[..|trace| - 1]), trace[|trace| - 1]).0
  }

  function OutcomeAt(trace: seq<Event>, n: nat): Outcome
    requires n < |trace|
  {
    Step(After(trace[..n]), trace[n]).1
  }

  /** The clock does not run backwards. */
  predicate Timely(trace: seq<Event>) {
    forall i, j :: 0 <= i < j < |trace| ==> trace[i].at <= trace[j].at
  }

  /** Every event refuses tokens in the second they expire. */
  predicate Strict(trace: seq<Event>) {
    forall i :: 0 <= i < |trace| ==> !trace[i].lenient
  }

  /** Tokens are signed at most `latency` after the row was read. */
  predicate Prompt(trace: seq<Event>, latency: Seconds) {
    forall n :: 0 <= n < |trace| && trace[n].action.Mint? ==>
      var readings := After(trace[..n]).readings;
      trace[n].action.reading in readings ==> trace[n].at <= readings[trace[n].action.reading].at + latency
  }

  predicate AtMost(strict: bool, a: Seconds, b: Seconds) {
    a <= b && (strict ==> a < b)
  }

  /** The user's row held `ws` at some moment of the interval: right after an
      event that happened in it. */
  predicate HeldIn(trace: seq<Event>, user: Uid, ws: Ws, from: Seconds, to: Seconds) {
    exists n :: 1 <= n <= |trace| && from <= trace[n - 1].at <= to && Holds(After(trace[..n]), user, ws)
  }

  predicate Holds(s: Service, user: Uid, ws: Ws) {
    user in s.users && s.users[user] == Some(ws)
  }

  // -------------------------------------------------------------------- one token

  predicate IsAccess(token: Claims, user: Uid, workspace: Option<Ws>, mintedAt: Seconds) {
    token == CreateAccessToken(AccessTokenClaims(user, workspace), mintedAt)
  }

  predicate IsRefresh(token: Claims, user: Uid, mintedAt: Seconds) {
    token == CreateRefreshToken(RefreshTokenClaims(user), mintedAt)
  }

  /** What an access token is worth: it decodes to its user and workspace until
      thirty minutes after it was minted, and it never refreshes. */
  lemma AccessTokenMeaning(signed: set<Claims>, user: Uid, workspace: Option<Ws>, mintedAt: Seconds, clock: Clock)
    ensures var token := CreateAccessToken(AccessTokenClaims(user, workspace), mintedAt);
      && IdentityFromBearer(signed + {token}, token, clock)
           == (if AtMost(!clock.lenient, clock.now, mintedAt + 30 * 60)
             then Ok(Identity(user, workspace)) else Err(Unauthorized))
      && forall s: Service :: RefreshUser(s, token, clock) == Err(Unauthorized)
  {
    var token := CreateAccessToken(AccessTokenClaims(user, workspace), mintedAt);
    WorkspaceOfMinted(token, user, workspace, mintedAt);
  }

  lemma WorkspaceOfMinted(token: Claims, user: Uid, workspace: Option<Ws>, mintedAt: Seconds)
    requires IsAccess(token, user, workspace, mintedAt)
    ensures WorkspaceFromClaims(token, WORKSPACE_CLAIMS) == Ok(workspace)
  {
    if workspace.None? {
      assert "workspace_id" !in token && "ws" !in token && "tenant_id" !in token;
      var rest := WORKSPACE_CLAIMS[1..];
      assert rest == ["ws", "tenant_id"];
      assert rest[1..] == ["tenant_id"];
      assert rest[1..][1..] == [];
      assert WorkspaceFromClaims(token, rest[1..]) == Ok(None);
      assert WorkspaceFromClaims(token, rest) == Ok(None);
    }
  }

  /** A refresh token never yields an identity, signed or not, expired or not. */
  lemma RefreshTokensAreNotCredentials(signed: set<Claims>, user: Uid, mintedAt: Seconds, clock: Clock)
    ensures IdentityFromBearer(signed, CreateRefreshToken(RefreshTokenClaims(user), mintedAt), clock).Err?
  {
  }

  function UserOf(token: Claims): Uid {
    if "sub" in token && token["sub"].Uuid? then token["sub"].id else 0
  }

  lemma ClaimsOfMinted(user: Uid, workspace: Option<Ws>, at: Seconds)
    ensures UserOf(CreateAccessToken(AccessTokenClaims(user, workspace), at)) == user
    ensures UserOf(CreateRefreshToken(RefreshTokenClaims(user), at)) == user
  {
  }

  /** A refresh token that may be used names its user and has not expired. */
  lemma UsableRefresh(s: Service, token: Claims, user: Uid, at: Seconds, clock: Clock)
    requires IsRefresh(token, user, at) && RefreshUser(s, token, clock).Ok?
    ensures RefreshUser(s, token, clock) == Ok(user) && token in s.signed
    ensures AtMost(!clock.lenient, clock.now, at + REFRESH_TOKEN_SECONDS)
  {
  }

  /** A token that yields an identity is no refresh token; if it is an access token
      its user and workspace are the identity's and it has not expired. */
  lemma UsableAccess(signed: set<Claims>, token: Claims, user: Uid, workspace: Option<Ws>, at: Seconds, clock: Clock)
    requires IsAccess(token, user, workspace, at) && IdentityFromBearer(signed, token, clock).Ok?
    ensures IdentityFromBearer(signed, token, clock) == Ok(Identity(user, workspace)) && token in signed
    ensures AtMost(!clock.lenient, clock.now, at + ACCESS_TOKEN_SECONDS)
  {
    AccessTokenMeaning(signed, user, workspace, at, clock);
    assert signed + {token} == signed;
  }

  // ------------------------------------------------------------ what is answered

  /** The claim names decide in order: the first that is present and not empty gives
      the workspace if it is a UUID, and is an error if it is not. */
  lemma {:induction false} ClaimSearch(claims: Claims, names: seq<string>)
    ensures WorkspaceFromClaims(claims, names) == Ok(None)
      <==> forall i :: 0 <= i < |names| ==> !Present(claims, names[i])
    ensures forall i :: 0 <= i < |names| && FirstPresent(claims, names, i) ==>
      WorkspaceFromClaims(claims, names)
        == if claims[names[i]].Uuid? then Ok(Some(claims[names[i]].id)) else Err(Unauthorized)
  {
    if names != [] {
      var rest := names[1..];
      ClaimSearch(claims, rest);
      if !Present(claims, names[0]) {
        assert forall i :: 0 <= i < |names| - 1 ==> rest[i] == names[i + 1];
        assert forall i :: 1 <= i < |names| ==> names[i] == rest[i - 1];
        forall i | 0 <= i < |names| && FirstPresent(claims, names, i)
          ensures i > 0 && FirstPresent(claims, rest, i - 1)
        {
        }
      }
    }
  }

  predicate Present(claims: Claims, name: string) {
    name in claims && claims[name] != Text("")
  }

  predicate FirstPresent(claims: Claims, names: seq<string>, i: int)
    requires 0 <= i < |names|
  {
    Present(claims, names[i]) && forall j :: 0 <= j < i ==> !Present(claims, names[j])
  }

  /** A refresh is begun if and only if the token is one that the service signed, has
      not expired, is a refresh token, and names a user who has a row. */
  lemma RefreshIsBegunIff(s: Service, token: Claims, reading: int, at: Seconds, lenient: bool)
    ensures var begun := Step(s, Event(at, PresentRefresh(token, reading), lenient));
      && (begun.1 == Done || begun.1 == Failed(Unauthorized))
      && (begun.1 == Done <==>
          && token in s.signed
          && !("exp" in token && token["exp"].Number? && Expired(token["exp"].value, Clock(at, lenient)))
          && "type" in token && token["type"] == Text("refresh")
          && "sub" in token && token["sub"].Uuid? && token["sub"].id in s.users)
      && (begun.1 == Done ==>
          var user := token["sub"].id;
          begun.0 == s.(readings := s.readings[reading := Reading(user, s.users[user], at, Some(token))]))
  {
  }

  /** What a row that was read comes to, whatever happened since: an access token for
      what it said, and at a login one refresh token. Both are signed, the first
      authenticates its user and that workspace, the second may be used to refresh. */
  lemma MintAnswers(s: Service, reading: int, at: Seconds, lenient: bool)
    requires reading in s.readings
    ensures var r, minted := s.readings[reading], Step(s, Event(at, Mint(reading), lenient));
      var access := CreateAccessToken(AccessTokenClaims(r.user, r.workspace), at);
      var refresh := CreateRefreshToken(RefreshTokenClaims(r.user), at);
      && minted.1 == Tokens(if r.parent.Some? then {access} else {access, refresh}) && access != refresh
      && minted.0.signed == s.signed + minted.1.minted
      && IdentityFromBearer(minted.0.signed, access, Clock(at, lenient)) == Ok(Identity(r.user, r.workspace))
      && (r.parent.None? && r.user in s.users ==> RefreshUser(minted.0, refresh, Clock(at, lenient)) == Ok(r.user))
      && minted.0.users == s.users && minted.0.requests == s.requests
  {
    var r := s.readings[reading];
    var access := CreateAccessToken(AccessTokenClaims(r.user, r.workspace), at);
    var minted := Step(s, Event(at, Mint(reading), lenient));
    assert access["type"] == Text("access");
    AccessTokenMeaning(minted.0.signed, r.user, r.workspace, at, Clock(at, lenient));
    assert minted.0.signed + {access} == minted.0.signed;
  }

  /** A login opens if and only if the user has a row; what is read is the row. */
  lemma LoginReadsTheRow(s: Service, user: Uid, reading: int, at: Seconds, lenient: bool)
    ensures var login := Step(s, Event(at, OpenSession(user, reading), lenient));
      if user in s.users
      then login == (s.(readings := s.readings[reading := Reading(user, s.users[user], at, None)]), Done)
      else login == (s, Failed(Unauthorized))
  {
  }

  /** Refreshing works: with a refresh token that was signed for a user with a row and
      has not expired, it answers one token, which is signed and authenticates the
      user with the workspace that the row holds at that moment. */
  lemma RefreshYieldsAToken(s: Service, user: Uid, signedAt: Seconds, reading: int, at: Seconds, lenient: bool)
    requires user in s.users && CreateRefreshToken(RefreshTokenClaims(user), signedAt) in s.signed
    requires AtMost(!lenient, at, signedAt + 7 * 24 * 60 * 60)
    ensures var token := CreateRefreshToken(RefreshTokenClaims(user), signedAt);
      var begun := Step(s, Event(at, PresentRefresh(token, reading), lenient));
      var minted := Step(begun.0, Event(at, Mint(reading), lenient));
      && begun.1 == Done && minted.1.Tokens? && |minted.1.minted| == 1
      && forall access :: access in minted.1.minted ==>
           access in minted.0.signed
           && IdentityFromBearer(minted.0.signed, access, Clock(at, lenient)) == Ok(Identity(user, s.users[user]))
  {
    var token := CreateRefreshToken(RefreshTokenClaims(user), signedAt);
    RefreshIsBegunIff(s, token, reading, at, lenient);
    MintAnswers(Step(s, Event(at, PresentRefresh(token, reading), lenient)).0, reading, at, lenient);
  }

  /** A registration makes a row with the new workspace if and only if the user has
      none, and a reassignment changes the row of a user who has one, and no other. */
  lemma RowsAreWritten(s: Service, user: Uid, home: Ws, workspace: Option<Ws>, at: Seconds, lenient: bool)
    ensures var registered := Step(s, Event(at, Register(user, home), lenient));
      if user in s.users then registered == (s, Failed(Conflict))
      else registered.1 == Done && registered.0.users == s.users[user := Some(home)] && registered.0.signed == s.signed
    ensures var reassigned := Step(s, Event(at, Reassign(user, workspace), lenient));
      if user !in s.users then reassigned == (s, Failed(Unauthorized))
      else reassigned.1 == Done && reassigned.0.users == s.users[user := workspace] && reassigned.0.signed == s.signed
  {
  }

  /** A request with an access token that has not expired is authenticated as the token's
      user, with its workspace published; with any token the service did not sign, or
      an expired one, it is not. */
  lemma AuthenticationAnswers(s: Service, request: int, token: Claims, at: Seconds, lenient: bool)
    ensures var e := Event(at, Authenticate(request, token), lenient);
      && (token !in s.signed || ("exp" in token && token["exp"].Number? && Expired(token["exp"].value, e.Time()))
          ==> Step(s, e) == (s, Failed(Unauthorized)))
      && forall user, workspace, signedAt ::
           IsAccess(token, user, workspace, signedAt) && token in s.signed
           && AtMost(!lenient, at, signedAt + ACCESS_TOKEN_SECONDS) ==>
             && Step(s, e).1 == Authenticated(Identity(user, workspace))
             && Step(s, e).0.requests == s.requests[request := RequestState(Identity(user, workspace), at, workspace)]
  {
    var clock := Clock(at, lenient);
    forall user, workspace, signedAt |
      IsAccess(token, user, workspace, signedAt) && token in s.signed
      && AtMost(!lenient, at, signedAt + ACCESS_TOKEN_SECONDS)
      ensures IdentityFromBearer(s.signed, token, clock) == Ok(Identity(user, workspace))
    {
      AccessTokenMeaning(s.signed, user, workspace, signedAt, clock);
      assert s.signed + {token} == s.signed;
    }
  }

  /** Which workspace a request resolves to: the one its token published or an earlier
      resolution memoised, or else the one in the user's row, and there is none only
      if neither exists. */
  lemma ResolutionAnswers(s: Service, request: int, at: Seconds, lenient: bool)
    requires request in s.requests
    ensures var r, resolved := s.requests[request], Step(s, Event(at, ResolveWorkspace(request), lenient));
      && (r.workspaceId.Some? ==> resolved.1 == Resolved(r.workspaceId.value))
      && (r.workspaceId.None? ==> forall ws :: resolved.1 == Resolved(ws) <==> Holds(s, r.identity.userId, ws))
      && (resolved.1.Resolved? ==>
          request in resolved.0.requests
          && resolved.0.requests[request] == r.(workspaceId := Some(resolved.1.workspace)))
      && (!resolved.1.Resolved? ==> resolved == (s, Failed(Forbidden)))
  {
  }

  // ---------------------------------------------------------------- where rows came from

  /** Right after the `n`-th event, at time `at`, the row said this. */
  predicate RowSaid(trace: seq<Event>, n: nat, user: Uid, workspace: Option<Ws>, at: Seconds) {
    1 <= n <= |trace| && trace[n - 1].at == at && user in After(trace[..n]).users
      && After(trace[..n]).users[user] == workspace
  }

  ghost predicate WasRead(trace: seq<Event>, user: Uid, workspace: Option<Ws>, from: Seconds, to: Seconds) {
    exists n: nat, at :: RowSaid(trace, n, user, workspace, at) && from <= at <= to
  }

  lemma WasReadExtends(trace: seq<Event>, user: Uid, workspace: Option<Ws>, from: Seconds, to: Seconds)
    requires trace != [] && WasRead(trace[..|trace| - 1], user, workspace, from, to)
    ensures WasRead(trace, user, workspace, from, to)
  {
    var front := trace[..|trace| - 1];
    var n: nat, at :| RowSaid(front, n, user, workspace, at) && from <= at <= to;
    assert front[..n] == trace[..n];
    assert RowSaid(trace, n, user, workspace, at);
  }

  lemma HeldInExtends(trace: seq<Event>, user: Uid, ws: Ws, from: Seconds, to: Seconds, to': Seconds)
    requires trace != [] && HeldIn(trace[..|trace| - 1], user, ws, from, to) && to <= to'
    ensures HeldIn(trace, user, ws, from, to')
  {
    var front := trace[..|trace| - 1];
    var n :| 1 <= n <= |front| && from <= front[n - 1].at <= to && Holds(After(front[..n]), user, ws);
    assert front[..n] == trace[..n];
  }

  function Now(trace: seq<Event>): Seconds
    requires trace != []
  {
    trace[|trace| - 1].at
  }

  /** What a reading in progress says, the row said when it was read. */
  lemma {:induction false} ReadingsAreTrue(trace: seq<Event>, reading: int)
    requires reading in After(trace).readings
    ensures var r := After(trace).readings[reading];
      WasRead(trace, r.user, r.workspace, r.at, r.at)
  {
    var front, e := trace[..|trace| - 1], trace[|trace| - 1];
    var r := After(trace).readings[reading];
    if reading in After(front).readings && After(front).readings[reading] == r {
      ReadingsAreTrue(front, reading);
      WasReadExtends(trace, r.user, r.workspace, r.at, r.at);
    } else {
      assert trace[..|trace|] == trace;
      assert RowSaid(trace, |trace|, r.user, r.workspace, r.at);
    }
  }

  /** The token was signed at `at` for a row read at most `latency` before. */
  ghost predicate SignedFor(trace: seq<Event>, token: Claims, latency: Seconds, user: Uid, workspace: Option<Ws>,
                            at: Seconds) {
    IsAccess(token, user, workspace, at) && WasRead(trace, user, workspace, at - latency, at)
  }

  lemma PromptPrefix(trace: seq<Event>, latency: Seconds)
    requires trace != [] && Prompt(trace, latency)
    ensures Prompt(trace[..|trace| - 1], latency)
  {
    var front := trace[..|trace| - 1];
    forall n | 0 <= n < |front| ensures front[..n] == trace[..n] && front[n] == trace[n] {
    }
  }

  lemma ReadBefore(trace: seq<Event>, reading: int)
    requires Timely(trace) && reading in After(trace).readings
    ensures trace != [] && After(trace).readings[reading].at <= Now(trace)
  {
    ReadingsAreTrue(trace, reading);
  }

  /** Every signed token is a refresh token, which carries an identity only, or an
      access token for what its user's row said when it was read. */
  lemma {:induction false} SignedWasRead(trace: seq<Event>, latency: Seconds, token: Claims)
    requires Timely(trace) && Prompt(trace, latency) && token in After(trace).signed
    ensures (exists at :: IsRefresh(token, UserOf(token), at))
      || exists workspace, at :: SignedFor(trace, token, latency, UserOf(token), workspace, at)
  {
    var front, e := trace[..|trace| - 1], trace[|trace| - 1];
    if token in After(front).signed {
      PromptPrefix(trace, latency);
      SignedWasRead(front, latency, token);
      if workspace, at :| SignedFor(front, token, latency, UserOf(token), workspace, at) {
        WasReadExtends(trace, UserOf(token), workspace, at - latency, at);
        assert SignedFor(trace, token, latency, UserOf(token), workspace, at);
      }
    } else {
      NewlySigned(After(front), e, token);
      var r := After(front).readings[e.action.reading];
      ClaimsOfMinted(r.user, r.workspace, e.at);
      if !IsRefresh(token, r.user, e.at) {
        ReadingForMint(trace, latency);
        assert SignedFor(trace, token, latency, r.user, r.workspace, e.at);
      }
    }
  }

  lemma NewlySigned(s: Service, e: Event, token: Claims)
    requires token in Step(s, e).0.signed && token !in s.signed
    ensures e.action.Mint? && e.action.reading in s.readings
    ensures var r := s.readings[e.action.reading];
      IsAccess(token, r.user, r.workspace, e.at) || (r.parent.None? && IsRefresh(token, r.user, e.at))
  {
  }

  lemma ReadingForMint(trace: seq<Event>, latency: Seconds)
    requires Timely(trace) && Prompt(trace, latency) && trace != [] && trace[|trace| - 1].action.Mint?
    requires trace[|trace| - 1].action.reading in After(trace[..|trace| - 1]).readings
    ensures var r := After(trace[..|trace| - 1]).readings[trace[|trace| - 1].action.reading];
      WasRead(trace, r.user, r.workspace, Now(trace) - latency, Now(trace))
  {
    var front, reading := trace[..|trace| - 1], trace[|trace| - 1].action.reading;
    var r := After(front).readings[reading];
    ReadingsAreTrue(front, reading);
    ReadBefore(front, reading);
    WasReadExtends(trace, r.user, r.workspace, r.at, r.at);
    var n: nat, at :| RowSaid(trace, n, r.user, r.workspace, at) && r.at <= at <= r.at;
    assert at <= Now(trace) <= r.at + latency;
  }

  // ------------------------------------------------------------------ staleness

  /** Whatever a request in progress has published or memoised, the user's row held
      it no earlier than thirty minutes and the latency before authentication. */
  predicate Fresh(trace: seq<Event>, latency: Seconds, r: RequestState)
    requires trace != []
  {
    r.authenticatedAt <= Now(trace)
    && (r.workspaceId.Some? ==>
          HeldIn(trace, r.identity.userId, r.workspaceId.value, r.authenticatedAt - ACCESS_TOKEN_SECONDS - latency,
                 Now(trace)))
  }

  lemma RefreshIsNotAccepted(signed: set<Claims>, token: Claims, user: Uid, clock: Clock)
    requires IdentityFromBearer(signed, token, clock).Ok?
    ensures forall at :: !IsRefresh(token, user, at)
  {
    forall at ensures !IsRefresh(token, user, at) {
      RefreshTokensAreNotCredentials(signed, user, at, clock);
    }
  }

  /** The workspace of an accepted token is what its user's row said when the token
      was prepared. */
  lemma AcceptedWasRead(trace: seq<Event>, latency: Seconds, token: Claims, clock: Clock) returns (at: Seconds)
    requires Timely(trace) && Prompt(trace, latency) && IdentityFromBearer(After(trace).signed, token, clock).Ok?
    ensures var identity := IdentityFromBearer(After(trace).signed, token, clock).value;
      WasRead(trace, identity.userId, identity.workspaceId, at - latency, at) && clock.now <= at + ACCESS_TOKEN_SECONDS
  {
    var signed, user := After(trace).signed, UserOf(token);
    SignedWasRead(trace, latency, token);
    RefreshIsNotAccepted(signed, token, user, clock);
    var workspace;
    workspace, at :| SignedFor(trace, token, latency, user, workspace, at);
    UsableAccess(signed, token, user, workspace, at, clock);
  }

  lemma HeldWhenRead(trace: seq<Event>, user: Uid, ws: Ws, from: Seconds, to: Seconds)
    requires Timely(trace) && trace != [] && WasRead(trace, user, Some(ws), from, to)
    ensures HeldIn(trace, user, ws, from, Now(trace))
  {
    var n: nat, at :| RowSaid(trace, n, user, Some(ws), at) && from <= at <= to;
    assert Holds(After(trace[..n]), user, ws);
  }

  lemma AcceptedIsFresh(trace: seq<Event>, latency: Seconds, token: Claims, lenient: bool)
    requires Timely(trace) && Prompt(trace, latency) && trace != []
    requires IdentityFromBearer(After(trace[..|trace| - 1]).signed, token, Clock(Now(trace), lenient)).Ok?
    ensures var identity := IdentityFromBearer(After(trace[..|trace| - 1]).signed, token,
                                               Clock(Now(trace), lenient)).value;
      Fresh(trace, latency, RequestState(identity, Now(trace), identity.workspaceId))
  {
    var front, clock := trace[..|trace| - 1], Clock(Now(trace), lenient);
    var identity := IdentityFromBearer(After(front).signed, token, clock).value;
    PromptPrefix(trace, latency);
    var at := AcceptedWasRead(front, latency, token, clock);
    if identity.workspaceId.Some? {
      WasReadExtends(trace, identity.userId, identity.workspaceId, at - latency, at);
      HeldWhenRead(trace, identity.userId, identity.workspaceId.value, at - latency, at);
      HeldInLonger(trace, identity.userId, identity.workspaceId.value, at - latency,
                   Now(trace) - ACCESS_TOKEN_SECONDS - latency, Now(trace));
    }
  }

  lemma {:induction false} RequestsAreFresh(trace: seq<Event>, latency: Seconds, request: int)
    requires Timely(trace) && Prompt(trace, latency) && latency >= 0 && request in After(trace).requests
    ensures trace != [] && Fresh(trace, latency, After(trace).requests[request])
  {
    var front := trace[..|trace| - 1];
    var s, e := After(front), trace[|trace| - 1];
    var r := After(trace).requests[request];
    var a := e.action;
    if a.Authenticate? && a.request == request && IdentityFromBearer(s.signed, a.token, e.Time()).Ok? {
      AcceptedIsFresh(trace, latency, e.action.token, e.lenient);
    } else {
      PromptPrefix(trace, latency);
      RequestsAreFresh(front, latency, request);
      StillFresh(trace, latency, request);
    }
  }

  lemma StillFresh(trace: seq<Event>, latency: Seconds, request: int)
    requires trace != [] && latency >= 0 && Timely(trace)
    requires var front := trace[..|trace| - 1];
      request in After(front).requests && front != [] && Fresh(front, latency, After(front).requests[request])
    requires var a := trace[|trace| - 1].action;
      !(a.Authenticate? && a.request == request && OutcomeAt(trace, |trace| - 1).Authenticated?)
    ensures request in After(trace).requests && Fresh(trace, latency, After(trace).requests[request])
  {
    var front := trace[..|trace| - 1];
    var r0, r := After(front).requests[request], After(trace).requests[request];
    assert r.identity == r0.identity && r.authenticatedAt == r0.authenticatedAt;
    if r0.workspaceId.Some? {
      HeldInExtends(trace, r0.identity.userId, r0.workspaceId.value,
                    r0.authenticatedAt - ACCESS_TOKEN_SECONDS - latency, Now(front), Now(trace));
    } else if r.workspaceId.Some? {
      assert trace[..|trace|] == trace;
      assert Holds(After(trace[..|trace|]), r.identity.userId, r.workspaceId.value);
    }
  }

  /** Bounded staleness. In every run in which tokens are signed at most `latency`
      after the row was read, if a request that was authenticated at most `delay`
      ago now resolves, at time `t`, to workspace `ws`, then the user's row held `ws`
      at some moment of [t - 30 min - latency - delay, t], however long the refresh
      chain. Without delays that is [t - 30 min, t]. */
  lemma BoundedStaleness(trace: seq<Event>, latency: Seconds, delay: Seconds, request: int)
    requires Timely(trace) && Prompt(trace, latency) && latency >= 0 && trace != []
    requires trace[|trace| - 1].action == ResolveWorkspace(request) && OutcomeAt(trace, |trace| - 1).Resolved?
    ensures request in After(trace[..|trace| - 1]).requests
    ensures var r, t := After(trace[..|trace| - 1]).requests[request], Now(trace);
      t <= r.authenticatedAt + delay ==>
        HeldIn(trace, r.identity.userId, OutcomeAt(trace, |trace| - 1).workspace,
               t - ACCESS_TOKEN_SECONDS - latency - delay, t)
  {
    RequestsAreFresh(trace, latency, request);
    var r, t, ws := After(trace[..|trace| - 1]).requests[request], Now(trace), OutcomeAt(trace, |trace| - 1).workspace;
    assert After(trace).requests[request] == r.(workspaceId := Some(ws));
    if t <= r.authenticatedAt + delay {
      HeldInLonger(trace, r.identity.userId, ws, r.authenticatedAt - ACCESS_TOKEN_SECONDS - latency,
                   t - ACCESS_TOKEN_SECONDS - latency - delay, t);
    }
  }

  lemma PromptUpTo(trace: seq<Event>, latency: Seconds, n: nat)
    requires Prompt(trace, latency) && n <= |trace|
    ensures Prompt(trace[..n], latency)
  {
    var front := trace[..n];
    forall k | 0 <= k < n ensures front[..k] == trace[..k] && front[k] == trace[k] {
    }
  }

  lemma HeldInLonger(trace: seq<Event>, user: Uid, ws: Ws, from: Seconds, from': Seconds, to: Seconds)
    requires HeldIn(trace, user, ws, from, to) && from' <= from
    ensures HeldIn(trace, user, ws, from', to)
  {
  }

  // ------------------------------------------------------------------- lineage

  predicate Mints(trace: seq<Event>, n: nat, token: Claims)
    requires n < |trace|
  {
    OutcomeAt(trace, n).Tokens? && token in OutcomeAt(trace, n).minted
  }

  /** The token was signed for the user's login (or registration), whose row was read
      at time `login`, or for a refresh with a token that descends from it. */
  predicate Descends(trace: seq<Event>, token: Claims, user: Uid, login: Seconds)
    decreases |trace|, 0
  {
    exists n: nat :: n < |trace| && Mints(trace, n, token) && Parentage(trace, n, user, login)
  }

  predicate Parentage(trace: seq<Event>, n: nat, user: Uid, login: Seconds)
    requires n < |trace|
    decreases n, 1
  {
    trace[n].action.Mint? && trace[n].action.reading in After(trace[..n]).readings
    && var r := After(trace[..n]).readings[trace[n].action.reading];
      if r.parent.None? then r.user == user && r.at == login else Descends(trace[..n], r.parent.value, user, login)
  }

  /** A reading for a refresh was made with a token that the service had signed, that
      had not expired then, and whose user it is of. */
  ghost predicate WellFounded(trace: seq<Event>, r: Reading) {
    r.parent.Some? ==>
      && r.parent.value in After(trace).signed
      && forall user, at :: IsRefresh(r.parent.value, user, at) ==>
           r.user == user && AtMost(Strict(trace), r.at, at + REFRESH_TOKEN_SECONDS)
  }

  lemma {:induction false} ReadingsAreWellFounded(trace: seq<Event>, reading: int)
    requires reading in After(trace).readings
    ensures WellFounded(trace, After(trace).readings[reading])
    ensures var r := After(trace).readings[reading];
      r.parent.Some? ==> "type" in r.parent.value && r.parent.value["type"] == Text("refresh")
  {
    var front, e := trace[..|trace| - 1], trace[|trace| - 1];
    var r := After(trace).readings[reading];
    if reading in After(front).readings && After(front).readings[reading] == r {
      ReadingsAreWellFounded(front, reading);
      StaysWellFounded(trace, r);
    } else if r.parent.Some? {
      NewReading(After(front), e, reading);
      RefreshReadingIsWellFounded(After(front), e, r.parent.value);
    }
  }

  lemma StaysWellFounded(trace: seq<Event>, r: Reading)
    requires trace != [] && WellFounded(trace[..|trace| - 1], r)
    ensures WellFounded(trace, r)
  {
    assert After(trace[..|trace| - 1]).signed <= After(trace).signed;
    assert Strict(trace) ==> Strict(trace[..|trace| - 1]);
  }

  /** A reading made for a refresh is of the user whom the token names. */
  lemma NewReading(s: Service, e: Event, reading: int)
    requires var s' := Step(s, e).0; reading in s'.readings && s'.readings[reading].parent.Some?
    requires reading !in s.readings || Step(s, e).0.readings[reading] != s.readings[reading]
    ensures var r := Step(s, e).0.readings[reading];
      RefreshUser(s, r.parent.value, e.Time()) == Ok(r.user) && r.at == e.at && Step(s, e).0.signed == s.signed
  {
  }

  lemma RefreshReadingIsWellFounded(s: Service, e: Event, token: Claims)
    requires RefreshUser(s, token, e.Time()).Ok?
    ensures token in s.signed && "type" in token && token["type"] == Text("refresh")
    ensures forall user, at :: IsRefresh(token, user, at) ==>
      RefreshUser(s, token, e.Time()) == Ok(user) && AtMost(!e.lenient, e.at, at + REFRESH_TOKEN_SECONDS)
  {
    forall user, at | IsRefresh(token, user, at)
      ensures RefreshUser(s, token, e.Time()) == Ok(user) && AtMost(!e.lenient, e.at, at + REFRESH_TOKEN_SECONDS)
    {
      UsableRefresh(s, token, user, at, e.Time());
    }
  }

  /** What a session is worth: a descendant of a login speaks for the user who logged
      in. It is a refresh token of that login, or an access token signed no later
      than seven days (and the latency of two signings) after it. */
  lemma {:induction false} DescendantsExpire(trace: seq<Event>, latency: Seconds, token: Claims, user: Uid,
                                             login: Seconds)
    requires Timely(trace) && Prompt(trace, latency) && latency >= 0 && Descends(trace, token, user, login)
    ensures UserOf(token) == user
    ensures (exists at :: IsRefresh(token, user, at) && at <= login + latency)
      || exists at, workspace :: IsAccess(token, user, workspace, at)
                              && AtMost(Strict(trace), at, login + REFRESH_TOKEN_SECONDS + 2 * latency)
    decreases |trace|
  {
    var n: nat :| n < |trace| && Mints(trace, n, token) && Parentage(trace, n, user, login);
    var s, e := After(trace[..n]), trace[n];
    var r := s.readings[e.action.reading];
    ClaimsOfMinted(r.user, r.workspace, e.at);
    assert e.at <= r.at + latency;
    assert IsAccess(token, r.user, r.workspace, e.at) || (r.parent.None? && IsRefresh(token, r.user, e.at));
    if r.parent.Some? {
      PromptUpTo(trace, latency, n);
      DescendantsExpire(trace[..n], latency, r.parent.value, user, login);
      ReadingsAreWellFounded(trace[..n], e.action.reading);
      assert Strict(trace) ==> Strict(trace[..n]);
      assert forall at, workspace :: !IsAccess(r.parent.value, user, workspace, at);
    }
  }

  lemma DescendsExtends(trace: seq<Event>, token: Claims, user: Uid, login: Seconds)
    requires trace != [] && Descends(trace[..|trace| - 1], token, user, login)
    ensures Descends(trace, token, user, login)
  {
    var front := trace[..|trace| - 1];
    var n: nat :| n < |front| && Mints(front, n, token) && Parentage(front, n, user, login);
    assert front[..n] == trace[..n] && front[n] == trace[n];
    assert Mints(trace, n, token) && Parentage(trace, n, user, login);
  }

  /** Every signed token descends from a login. */
  lemma {:induction false} EveryTokenHasALogin(trace: seq<Event>, token: Claims) returns (user: Uid, login: Seconds)
    requires Timely(trace) && token in After(trace).signed
    ensures Descends(trace, token, user, login) && login <= Now(trace)
  {
    var front, last := trace[..|trace| - 1], |trace| - 1;
    var s, e := After(front), trace[last];
    if token in s.signed {
      user, login := EveryTokenHasALogin(front, token);
      DescendsExtends(trace, token, user, login);
    } else {
      NewlySigned(s, e, token);
      var r := s.readings[e.action.reading];
      ReadBefore(front, e.action.reading);
      assert Mints(trace, last, token);
      if r.parent.None? {
        user, login := r.user, r.at;
      } else {
        ReadingsAreWellFounded(front, e.action.reading);
        user, login := EveryTokenHasALogin(front, r.parent.value);
      }
      assert Parentage(trace, last, user, login);
    }
  }

  /** Session lifetime. A request accepted on a token that descends from a login
      comes no later than the login plus seven days and thirty minutes (and the
      latency of two signings), earlier if expiry is strict, on an access token, as
      the user who logged in. */
  lemma SessionLifetime(trace: seq<Event>, latency: Seconds, n: nat, request: int, token: Claims, user: Uid,
                        login: Seconds)
    requires Timely(trace) && Prompt(trace, latency) && latency >= 0
    requires n < |trace| && trace[n].action == Authenticate(request, token) && OutcomeAt(trace, n).Authenticated?
    requires Descends(trace[..n], token, user, login)
    ensures AtMost(Strict(trace), trace[n].at, login + REFRESH_TOKEN_SECONDS + ACCESS_TOKEN_SECONDS + 2 * latency)
    ensures OutcomeAt(trace, n).identity.userId == user
    ensures token["type"] == Text("access")
  {
    var s, clock := After(trace[..n]), trace[n].Time();
    PromptUpTo(trace, latency, n);
    DescendantsExpire(trace[..n], latency, token, user, login);
    if at :| IsRefresh(token, user, at) && at <= login + latency {
      RefreshTokensAreNotCredentials(s.signed, user, at, clock);
    } else {
      var at, workspace :| IsAccess(token, user, workspace, at)
        && AtMost(Strict(trace[..n]), at, login + REFRESH_TOKEN_SECONDS + 2 * latency);
      UsableAccess(s.signed, token, user, workspace, at, clock);
      assert Strict(trace) ==> !clock.lenient;
    }
  }

  /** And every accepted request is on such a token: some login of that very user
      lies that little back. */
  lemma EveryIdentityHasARecentLogin(trace: seq<Event>, latency: Seconds, n: nat, request: int,
                                     token: Claims) returns (login: Seconds)
    requires Timely(trace) && Prompt(trace, latency) && latency >= 0
    requires n < |trace| && trace[n].action == Authenticate(request, token) && OutcomeAt(trace, n).Authenticated?
    ensures Descends(trace[..n], token, OutcomeAt(trace, n).identity.userId, login)
    ensures login <= trace[n].at
    ensures AtMost(Strict(trace), trace[n].at, login + REFRESH_TOKEN_SECONDS + ACCESS_TOKEN_SECONDS + 2 * latency)
  {
    assert n > 0 && token in After(trace[..n]).signed;
    var user;
    user, login := EveryTokenHasALogin(trace[..n], token);
    SessionLifetime(trace, latency, n, request, token, user, login);
  }

  // -------------------------------------------------- the bound is reached

  lemma AfterOne(trace: seq<Event>, e: Event)
    ensures After(trace + [e]) == Step(After(trace), e).0
  {
    assert (trace + [e])[..|trace|] == trace;
  }

  function TokenOf(user: Uid, ws: Ws, latency: Seconds): Claims {
    CreateAccessToken(AccessTokenClaims(user, Some(ws)), latency)
  }

  /** A user registers, the row is read, the user is removed from the workspace, all
      in second 0; the token is signed `latency` later, used in the second it
      expires, and the workspace resolved `delay` after that. */
  function LeavingRun(user: Uid, ws: Ws, latency: Seconds, delay: Seconds): seq<Event> {
    var expiry := latency + ACCESS_TOKEN_SECONDS;
    [Event(0, Register(user, ws), true), Event(0, OpenSession(user, 1), true), Event(0, Reassign(user, None), true),
     Event(latency, Mint(1), true), Event(expiry, Authenticate(7, TokenOf(user, ws, latency)), true),
     Event(expiry + delay, ResolveWorkspace(7), true)]
  }

  lemma LeavingStates(user: Uid, ws: Ws, latency: Seconds, delay: Seconds)
    ensures var trace := LeavingRun(user, ws, latency, delay);
      && After(trace[..3]) == Service(map[user := None], {}, map[1 := Reading(user, Some(ws), 0, None)], map[])
      && After(trace[..4]).users == map[user := None] && TokenOf(user, ws, latency) in After(trace[..4]).signed
      && After(trace[..4]).requests == map[]
  {
    var trace := LeavingRun(user, ws, latency, delay);
    assert trace[..1] == [] + [trace[0]] && trace[..2] == trace[..1] + [trace[1]];
    assert trace[..3] == trace[..2] + [trace[2]] && trace[..4] == trace[..3] + [trace[3]];
    AfterOne([], trace[0]);
    AfterOne(trace[..1], trace[1]);
    AfterOne(trace[..2], trace[2]);
    AfterOne(trace[..3], trace[3]);
  }

  lemma LeavingRequest(user: Uid, ws: Ws, latency: Seconds, delay: Seconds)
    ensures var trace := LeavingRun(user, ws, latency, delay);
      && After(trace[..5]).users == map[user := None]
      && After(trace[..5]).requests
        == map[7 := RequestState(Identity(user, Some(ws)), latency + ACCESS_TOKEN_SECONDS, Some(ws))]
  {
    var trace := LeavingRun(user, ws, latency, delay);
    LeavingStates(user, ws, latency, delay);
    var s, token := After(trace[..4]), TokenOf(user, ws, latency);
    assert trace[..5] == trace[..4] + [trace[4]];
    AfterOne(trace[..4], trace[4]);
    AccessTokenMeaning(s.signed, user, Some(ws), latency, trace[4].Time());
    assert s.signed + {token} == s.signed;
  }

  /** The bound cannot be improved: for every latency and delay there is a run that
      keeps them and in which a request resolves to a workspace that its user left
      exactly thirty minutes, the latency and the delay before. */
  lemma StalenessBoundIsReached(user: Uid, ws: Ws, latency: Seconds, delay: Seconds)
    requires latency >= 0 && delay >= 0
    ensures var trace := LeavingRun(user, ws, latency, delay);
      && Timely(trace) && Prompt(trace, latency)
      && trace[5].at == ACCESS_TOKEN_SECONDS + latency + delay && OutcomeAt(trace, 5) == Resolved(ws)
      && trace[5].at == After(trace[..5]).requests[7].authenticatedAt + delay
      && trace[2] == Event(0, Reassign(user, None), true)
      && forall n :: 3 <= n <= 6 ==> !Holds(After(trace[..n]), user, ws)
  {
    var trace := LeavingRun(user, ws, latency, delay);
    LeavingStates(user, ws, latency, delay);
    LeavingRequest(user, ws, latency, delay);
    assert trace[..6] == trace[..5] + [trace[5]];
    AfterOne(trace[..5], trace[5]);
  }
}
