/** `TenantGuardMiddleware` of `backend/app/middleware/tenant_guard.py`: it reads
    the body off an ASGI stream, decides whether the request names a workspace
    other than the caller's, and hands the application a stream that replays what
    was read. */
module TenantGuard {
  import opened Wrappers
  import opened Numbers

  const MAX_INSPECTED_BODY: nat := 1024 * 1024

  /** An ASGI message: a chunk of the body, or anything else. */
  datatype Message = Request(body: seq<Byte>, moreBody: bool) | Disconnect

  predicate Last(m: Message) {
    m.Disconnect? || !m.moreBody
  }

  /** The stream holds a message after which the middleware stops reading. On a
      stream without one it would wait for more. */
  predicate Ends(stream: seq<Message>) {
    exists i :: 0 <= i < |stream| && Last(stream[i])
  }

  /** The bytes of a stream up to its first last message. */
  function Content(stream: seq<Message>): seq<Byte> {
    if stream == [] || stream[0].Disconnect? then []
    else stream[0].body + if stream[0].moreBody then Content(stream[1..]) else []
  }

  function Inspectable(body: seq<Byte>): seq<Byte> {
    if |body| > MAX_INSPECTED_BODY then [] else body
  }

  class Receiver {
    var incoming: seq<Message>

    constructor (incoming: seq<Message>)
      ensures this.incoming == incoming
    {
      this.incoming := incoming;
    }

    method Receive() returns (m: Message)
      requires incoming != []
      modifies this
      ensures m == old(incoming)[0] && incoming == old(incoming)[1..]
    {
      m, incoming := incoming[0], incoming[1..];
    }
  }

  /** The closure `replay`, with its captured body and `sent` flag. */
  class Replay {
    const body: seq<Byte>
    var sent: bool

    constructor (body: seq<Byte>)
      ensures this.body == body && !sent
    {
      this.body, sent := body, false;
    }

    method Receive() returns (m: Message)
      modifies this
      ensures sent && m == if old(sent) then Disconnect else Request(body, false)
    {
      if sent {
        return Disconnect;
      }
      sent := true;
      return Request(body, false);
    }
  }

  /** What an application sees that reads `n` messages of a replayed body. */
  function Replayed(body: seq<Byte>, n: nat): seq<Message> {
    seq(n, i => if i == 0 then Request(body, false) else Disconnect)
  }

  method ReadAll(replay: Replay, n: nat) returns (messages: seq<Message>)
    requires !replay.sent
    modifies replay
    ensures messages == Replayed(replay.body, n)
  {
    messages := [];
    while |messages| < n
      invariant |messages| <= n && messages == Replayed(replay.body, |messages|)
      invariant replay.sent <==> messages != []
    {
      var m := replay.Receive();
      messages := messages + [m];
    }
  }

  lemma StillEnds(stream: seq<Message>)
    requires Ends(stream)
    ensures stream != [] && (Last(stream[0]) || Ends(stream[1..]))
  {
    var i :| 0 <= i < |stream| && Last(stream[i]);
    assert i > 0 ==> Last(stream[1..][i - 1]);
  }

  /** `b"".join(chunks)`. */
  function Flatten(chunks: seq<seq<Byte>>): seq<Byte> {
    if chunks == [] then [] else chunks[0] + Flatten(chunks[1..])
  }

  lemma {:induction false} FlattenAppend(chunks: seq<seq<Byte>>, chunk: seq<Byte>)
    ensures Flatten(chunks + [chunk]) == Flatten(chunks) + chunk
  {
    if chunks == [] {
      assert chunks + [chunk] == [chunk];
      assert [chunk][1..] == [];
    } else {
      assert (chunks + [chunk])[1..] == chunks[1..] + [chunk];
      FlattenAppend(chunks[1..], chunk);
    }
  }

  /** Taking a message off a stream and keeping its body. */
  lemma Absorb(chunks: seq<seq<Byte>>, stream: seq<Message>)
    requires stream != [] && stream[0].Request?
    ensures Flatten(chunks) + Content(stream)
      == Flatten(chunks + [stream[0].body]) + if stream[0].moreBody then Content(stream[1..]) else []
  {
    FlattenAppend(chunks, stream[0].body);
    var a, b, rest := Flatten(chunks), stream[0].body, Content(stream[1..]);
    assert a + (b + rest) == (a + b) + rest;
    assert a + (b + []) == (a + b) + [];
  }

  /** Reads the body and hands back a receiver that replays it. The running
      truncation flag ends up being the test on the final length, and what is
      replayed is always the whole body. */
  method BufferBody(receiver: Receiver) returns (inspected: seq<Byte>, replay: Replay)
    requires Ends(receiver.incoming)
    modifies receiver
    ensures fresh(replay) && !replay.sent
    ensures replay.body == Content(old(receiver.incoming))
    ensures inspected == Inspectable(Content(old(receiver.incoming)))
  {
    ghost var stream := receiver.incoming;
    var chunks: seq<seq<Byte>> := [];
    var total := 0;
    var truncated := false;
    while true
      invariant Ends(receiver.incoming)
      invariant Content(stream) == Flatten(chunks) + Content(receiver.incoming)
      invariant total == |Flatten(chunks)| && truncated == (total > MAX_INSPECTED_BODY)
      decreases |receiver.incoming|
    {
      StillEnds(receiver.incoming);
      ghost var before := receiver.incoming;
      var message := receiver.Receive();
      if !message.Request? {
        FlattenAppend(chunks, []);
        assert Content(before) == [];
        chunks := chunks + [[]];
        break;
      }
      Absorb(chunks, before);
      var chunk := message.body;
      FlattenAppend(chunks, chunk);
      total := total + |chunk|;
      if total <= MAX_INSPECTED_BODY {
        chunks := chunks + [chunk];
      } else {
        truncated := true;
        chunks := chunks + [chunk];
      }
      if !message.moreBody {
        break;
      }
    }
    var body := Flatten(chunks);
    replay := new Replay(body);
    inspected := if truncated then [] else body;
  }

  // ------------------------------------------------------------- the decision

  datatype Json =
    | JsonNull
    | JsonString(text: string)
    | JsonScalar(id: int)
    | JsonObject(fields: map<string, Json>)
    | JsonArray(items: seq<Json>)

  /** `json.loads`, which may refuse, and `str`. */
  datatype Codec = Codec(loads: seq<Byte> -> Option<Json>, show: Json -> string)

  datatype Source = Query | Body

  datatype Verdict =
    | Untouched                       // the application reads the original stream
    | Forward(body: seq<Byte>)        // the application reads the replayed body
    | Deny(requested: string, source: Source)

  /** The parts of an ASGI scope the middleware looks at. `query` holds the parsed
      `workspace_id` parameters, `own` the caller's workspace. */
  datatype Scope = Scope(http: bool, isPublic: bool, verb: string, own: string, query: seq<string>, contentType: string)

  const WORKSPACE_FIELD := "workspace_id"

  predicate Contains(text: string, part: string) {
    exists i :: 0 <= i <= |text| && part <= text[i..]
  }

  function Named(codec: Codec, fields: map<string, Json>): seq<string> {
    if WORKSPACE_FIELD !in fields || fields[WORKSPACE_FIELD] == JsonNull
      || fields[WORKSPACE_FIELD] == JsonString("") then []
    else [codec.show(fields[WORKSPACE_FIELD])]
  }

  function NamedInItems(codec: Codec, items: seq<Json>): seq<string> {
    if items == [] then []
    else (if items[0].JsonObject? then Named(codec, items[0].fields) else []) + NamedInItems(codec, items[1..])
  }

  /** The workspace ids that bytes name at the top level, if they are JSON. */
  function NamedByBytes(codec: Codec, body: seq<Byte>): seq<string> {
    if body == [] then []
    else
      match codec.loads(body)
      case None => []
      case Some(JsonObject(fields)) => Named(codec, fields)
      case Some(JsonArray(items)) => NamedInItems(codec, items)
      case _ => []
  }

  /** Those of a body that says it is JSON. */
  function BodyWorkspaces(codec: Codec, body: seq<Byte>, contentType: string): seq<string> {
    if body == [] || !Contains(contentType, "json") then [] else NamedByBytes(codec, body)
  }

  /** Empty query parameters do not count. */
  function QueryWorkspaces(query: seq<string>): seq<string> {
    if query == [] then []
    else (if query[0] == "" then [] else [query[0]]) + QueryWorkspaces(query[1..])
  }

  const BODY_METHODS: seq<string> := ["POST", "PUT", "PATCH", "DELETE"]

  method FirstForeign(named: seq<string>, own: string) returns (found: Option<string>)
    ensures found == Foreign(named, own)
  {
    for i := 0 to |named|
      invariant Foreign(named, own) == Foreign(named[i..], own)
    {
      if named[i] != own {
        return Some(named[i]);
      }
    }
    return None;
  }

  function Foreign(named: seq<string>, own: string): Option<string> {
    if named == [] then None
    else if named[0] != own then Some(named[0])
    else Foreign(named[1..], own)
  }

  /** The verdict on a request whose body, if it is read, is `body`. */
  function Judge(codec: Codec, scope: Scope, body: seq<Byte>): Verdict {
    if !scope.http || scope.isPublic || scope.own == "" then Untouched
    else
      match Foreign(QueryWorkspaces(scope.query), scope.own)
      case Some(w) => Deny(w, Query)
      case None =>
        if scope.verb !in BODY_METHODS then Untouched
        else
          match Foreign(BodyWorkspaces(codec, Inspectable(body), scope.contentType), scope.own)
          case Some(w) => Deny(w, Body)
          case None => Forward(body)
  }

  /** `__call__`: it reads the stream only when it has to, and however the body
      was cut into chunks the verdict is the one on its bytes. */
  method Call(codec: Codec, scope: Scope, receiver: Receiver) returns (verdict: Verdict, replay: Replay?)
    requires scope.verb in BODY_METHODS ==> Ends(receiver.incoming)
    modifies receiver
    ensures verdict == Judge(codec, scope, Content(old(receiver.incoming)))
    ensures verdict.Untouched? ==> receiver.incoming == old(receiver.incoming)
    ensures verdict.Forward? ==> replay != null && !replay.sent && replay.body == verdict.body
  {
    replay := null;
    if !scope.http || scope.isPublic || scope.own == "" {
      return Untouched, null;
    }
    var named := FirstForeign(QueryWorkspaces(scope.query), scope.own);
    if named.Some? {
      return Deny(named.value, Query), null;
    }
    if scope.verb in BODY_METHODS {
      var inspected;
      inspected, replay := BufferBody(receiver);
      named := FirstForeign(BodyWorkspaces(codec, inspected, scope.contentType), scope.own);
      if named.Some? {
        return Deny(named.value, Body), replay;
      }
      return Forward(replay.body), replay;
    }
    return Untouched, null;
  }

  // --------------------------------------------------------------- what it means

  /** A body cut into chunks: every message but the last asks for more. */
  function Cut(chunks: seq<seq<Byte>>): seq<Message> {
    seq(|chunks|, i requires 0 <= i < |chunks| => Request(chunks[i], i + 1 < |chunks|))
  }

  lemma {:induction false} ContentOfCut(chunks: seq<seq<Byte>>)
    requires chunks != []
    ensures Ends(Cut(chunks)) && Content(Cut(chunks)) == Flatten(chunks)
  {
    var stream := Cut(chunks);
    assert Last(stream[|chunks| - 1]);
    if |chunks| > 1 {
      ContentOfCut(chunks[1..]);
      assert stream[1..] == Cut(chunks[1..]);
    } else {
      assert chunks[1..] == [];
      assert Flatten(chunks) == chunks[0] + [];
    }
  }

  /** However a body is cut, the verdict is the same, and so is what a forwarded
      application reads. */
  lemma ChunkingIsInvisible(codec: Codec, scope: Scope, a: seq<seq<Byte>>, b: seq<seq<Byte>>)
    requires a != [] && b != [] && Flatten(a) == Flatten(b)
    ensures Judge(codec, scope, Content(Cut(a))) == Judge(codec, scope, Content(Cut(b)))
    ensures Judge(codec, scope, Content(Cut(a))).Forward? ==> Judge(codec, scope, Content(Cut(a))).body == Flatten(a)
  {
    ContentOfCut(a);
    ContentOfCut(b);
  }

  /** A body that is broken off: every message asks for more, then a disconnect. */
  function Broken(chunks: seq<seq<Byte>>): seq<Message> {
    seq(|chunks|, i requires 0 <= i < |chunks| => Request(chunks[i], true)) + [Disconnect]
  }

  lemma {:induction false} ContentOfBroken(chunks: seq<seq<Byte>>)
    ensures Ends(Broken(chunks)) && Content(Broken(chunks)) == Flatten(chunks)
  {
    assert Last(Broken(chunks)[|chunks|]);
    if chunks != [] {
      ContentOfBroken(chunks[1..]);
      assert Broken(chunks)[1..] == Broken(chunks[1..]);
    }
  }

  /** The same chunks sent as a complete body; no chunks is an empty one. */
  function Complete(chunks: seq<seq<Byte>>): seq<Message> {
    if chunks == [] then [Request([], false)] else Cut(chunks)
  }

  lemma ContentOfComplete(chunks: seq<seq<Byte>>)
    ensures Ends(Complete(chunks)) && Content(Complete(chunks)) == Flatten(chunks)
  {
    if chunks == [] {
      assert Last(Complete(chunks)[0]);
    } else {
      ContentOfCut(chunks);
    }
  }

  /** A client that disconnects in the middle of a body, or before any of it, is
      indistinguishable, to the verdict and in the first message the application
      reads, from one that sent just that much. */
  lemma TruncationByDisconnectIsInvisible(codec: Codec, scope: Scope, chunks: seq<seq<Byte>>)
    ensures Ends(Broken(chunks)) && Ends(Complete(chunks))
    ensures Content(Broken(chunks)) == Content(Complete(chunks)) == Flatten(chunks)
    ensures Judge(codec, scope, Content(Broken(chunks))) == Judge(codec, scope, Content(Complete(chunks)))
  {
    ContentOfBroken(chunks);
    ContentOfComplete(chunks);
  }

  // ------------------------------------------------------- what names a workspace

  /** A JSON object that names `w`: it has the field, neither null nor empty, and the
      field is shown as `w`. */
  predicate ObjectNames(codec: Codec, json: Json, w: string) {
    && json.JsonObject? && "workspace_id" in json.fields
    && json.fields["workspace_id"] != JsonNull && json.fields["workspace_id"] != JsonString("")
    && codec.show(json.fields["workspace_id"]) == w
  }

  /** Bytes that load as an object that names `w`, or as an array that holds one. */
  predicate BytesName(codec: Codec, body: seq<Byte>, w: string) {
    && body != [] && codec.loads(body).Some?
    && var json := codec.loads(body).value;
      || ObjectNames(codec, json, w)
      || (json.JsonArray? && exists i :: 0 <= i < |json.items| && ObjectNames(codec, json.items[i], w))
  }

  predicate QueryNames(query: seq<string>, w: string) {
    w != "" && w in query
  }

  predicate HasBody(verb: string) {
    verb == "POST" || verb == "PUT" || verb == "PATCH" || verb == "DELETE"
  }

  lemma {:induction false} NamedInItemsMeans(codec: Codec, items: seq<Json>, w: string)
    ensures w in NamedInItems(codec, items) <==> exists i :: 0 <= i < |items| && ObjectNames(codec, items[i], w)
  {
    if items != [] {
      NamedInItemsMeans(codec, items[1..], w);
      assert forall i :: 1 <= i < |items| ==> items[i] == items[1..][i - 1];
      assert forall i :: 0 <= i < |items| - 1 ==> items[1..][i] == items[i + 1];
    }
  }

  lemma NamedByBytesMeans(codec: Codec, body: seq<Byte>, w: string)
    ensures w in NamedByBytes(codec, body) <==> BytesName(codec, body, w)
  {
    if body != [] && codec.loads(body).Some? && codec.loads(body).value.JsonArray? {
      NamedInItemsMeans(codec, codec.loads(body).value.items, w);
    }
  }

  lemma {:induction false} QueryWorkspacesMean(query: seq<string>, w: string)
    ensures w in QueryWorkspaces(query) <==> QueryNames(query, w)
  {
    if query != [] {
      QueryWorkspacesMean(query[1..], w);
      assert query == [query[0]] + query[1..];
    }
  }

  /** A request with a tenant is let through exactly when its query names no foreign
      workspace, and neither do the bytes of its body, unless the body is longer than
      the limit or does not say it is JSON: such a body passes whatever it names. */
  lemma LetThroughIff(codec: Codec, scope: Scope, body: seq<Byte>)
    requires scope.http && !scope.isPublic && scope.own != ""
    ensures !Judge(codec, scope, body).Deny? <==>
      && (forall w :: QueryNames(scope.query, w) ==> w == scope.own)
      && (HasBody(scope.verb) && |body| <= 1024 * 1024 && Contains(scope.contentType, "json")
          ==> forall w :: BytesName(codec, body, w) ==> w == scope.own)
    ensures !Judge(codec, scope, body).Deny? ==>
      Judge(codec, scope, body) == if HasBody(scope.verb) then Forward(body) else Untouched
  {
    var inQuery, inBytes := QueryWorkspaces(scope.query), NamedByBytes(codec, body);
    ForeignIff(inQuery, scope.own);
    ForeignIff(BodyWorkspaces(codec, Inspectable(body), scope.contentType), scope.own);
    forall w ensures w in inQuery <==> QueryNames(scope.query, w) {
      QueryWorkspacesMean(scope.query, w);
    }
    forall w ensures w in inBytes <==> BytesName(codec, body, w) {
      NamedByBytesMeans(codec, body, w);
    }
    AllAreMeans(inQuery, scope.own);
    AllAreMeans(inBytes, scope.own);
  }

  /** Other requests, and those of callers without a workspace, are not looked at. */
  lemma OthersAreUntouched(codec: Codec, scope: Scope, body: seq<Byte>)
    requires !scope.http || scope.isPublic || scope.own == ""
    ensures Judge(codec, scope, body) == Untouched
  {
  }

  lemma {:induction false} ForeignAppend(a: seq<string>, b: seq<string>, own: string)
    ensures Foreign(a + b, own) == if Foreign(a, own).Some? then Foreign(a, own) else Foreign(b, own)
  {
    if a == [] {
      assert a + b == b;
    } else {
      assert (a + b)[0] == a[0] && (a + b)[1..] == a[1..] + b;
      ForeignAppend(a[1..], b, own);
    }
  }

  lemma {:induction false} FirstInQuery(query: seq<string>, own: string) returns (i: nat)
    requires Foreign(QueryWorkspaces(query), own).Some?
    ensures i < |query| && query[i] == Foreign(QueryWorkspaces(query), own).value && query[i] !in {"", own}
    ensures forall j :: 0 <= j < i ==> query[j] in {"", own}
  {
    ForeignAppend(if query[0] == "" then [] else [query[0]], QueryWorkspaces(query[1..]), own);
    if query[0] !in {"", own} {
      i := 0;
    } else {
      var n := FirstInQuery(query[1..], own);
      i := n + 1;
      assert forall j :: 1 <= j < i ==> query[j] == query[1..][j - 1];
    }
  }

  lemma {:induction false} FirstInItems(codec: Codec, items: seq<Json>, own: string) returns (i: nat)
    requires Foreign(NamedInItems(codec, items), own).Some?
    ensures i < |items| && ObjectNames(codec, items[i], Foreign(NamedInItems(codec, items), own).value)
    ensures Foreign(NamedInItems(codec, items), own).value != own
    ensures forall j, w :: 0 <= j < i && ObjectNames(codec, items[j], w) ==> w == own
  {
    var named := if items[0].JsonObject? then Named(codec, items[0].fields) else [];
    ForeignAppend(named, NamedInItems(codec, items[1..]), own);
    ForeignIff(named, own);
    AllAreMeans(named, own);
    forall w ensures w in named <==> ObjectNames(codec, items[0], w) {
    }
    if exists w :: ObjectNames(codec, items[0], w) && w != own {
      i := 0;
    } else {
      var n := FirstInItems(codec, items[1..], own);
      i := n + 1;
      assert forall j :: 1 <= j < i ==> items[j] == items[1..][j - 1];
    }
  }

  /** What a denial reports: the first foreign name in the query, or, if there is none,
      the name in the object, or in the first item of the array, that is foreign. */
  lemma DenialNamesTheFirst(codec: Codec, scope: Scope, body: seq<Byte>)
    requires Judge(codec, scope, body).Deny?
    ensures var d := Judge(codec, scope, body);
      if exists w :: QueryNames(scope.query, w) && w != scope.own
      then d.source == Query && exists i :: IsFirstInQuery(scope.query, scope.own, i, d.requested)
      else d.source == Body && codec.loads(body).Some? && d.requested != scope.own
           && var json := codec.loads(body).value;
              || ObjectNames(codec, json, d.requested)
              || (json.JsonArray? && exists i :: IsFirstInItems(codec, json.items, scope.own, i, d.requested))
  {
    var d, inQuery := Judge(codec, scope, body), QueryWorkspaces(scope.query);
    ForeignIff(inQuery, scope.own);
    forall w ensures w in inQuery <==> QueryNames(scope.query, w) {
      QueryWorkspacesMean(scope.query, w);
    }
    AllAreMeans(inQuery, scope.own);
    if Foreign(inQuery, scope.own).Some? {
      var i := FirstInQuery(scope.query, scope.own);
      assert IsFirstInQuery(scope.query, scope.own, i, d.requested);
    } else {
      ForeignIff(BodyWorkspaces(codec, Inspectable(body), scope.contentType), scope.own);
      if codec.loads(body).value.JsonArray? {
        var i := FirstInItems(codec, codec.loads(body).value.items, scope.own);
        assert IsFirstInItems(codec, codec.loads(body).value.items, scope.own, i, d.requested);
      }
    }
  }

  predicate IsFirstInQuery(query: seq<string>, own: string, i: int, w: string) {
    && 0 <= i < |query| && query[i] == w && w !in {"", own}
    && forall j :: 0 <= j < i ==> query[j] in {"", own}
  }

  ghost predicate IsFirstInItems(codec: Codec, items: seq<Json>, own: string, i: int, w: string) {
    && 0 <= i < |items| && ObjectNames(codec, items[i], w) && w != own
    && forall j, x :: 0 <= j < i && ObjectNames(codec, items[j], x) ==> x == own
  }

  predicate AllAre(named: seq<string>, own: string) {
    forall i :: 0 <= i < |named| ==> named[i] == own
  }

  lemma AllAreMeans(named: seq<string>, own: string)
    ensures AllAre(named, own) <==> forall w :: w in named ==> w == own
  {
    if forall w :: w in named ==> w == own {
      forall i | 0 <= i < |named| ensures named[i] == own {
        assert named[i] in named;
      }
    }
  }

  lemma {:induction false} ForeignIff(named: seq<string>, own: string)
    ensures Foreign(named, own).None? <==> AllAre(named, own)
    ensures Foreign(named, own).Some? ==> Foreign(named, own).value in named && Foreign(named, own).value != own
  {
    if named != [] {
      assert named == [named[0]] + named[1..];
      ForeignIff(named[1..], own);
      assert AllAre(named, own) <==> named[0] == own && AllAre(named[1..], own);
    }
  }

  /** A body over the limit reaches the application whatever workspace it names. */
  lemma OversizedBodiesPass(codec: Codec, scope: Scope, body: seq<Byte>)
    requires scope.http && !scope.isPublic && scope.own != "" && HasBody(scope.verb)
    requires (forall w :: QueryNames(scope.query, w) ==> w == scope.own) && |body| > MAX_INSPECTED_BODY
    ensures Judge(codec, scope, body) == Forward(body)
  {
    LetThroughIff(codec, scope, body);
  }
}
