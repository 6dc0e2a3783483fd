/** `ConnectionManager` of `backend/app/ws/manager.py` under interleaving.

    A list is an object. `connect` appends to the object a channel is bound to;
    `disconnect` binds the channel to a new object; a broadcast keeps iterating
    over the object it started with. The state is a map from channels to list
    objects and a heap of the objects' contents, and one step is one stretch of
    code between two awaits. */
module Broadcast {
  type Conn = int

  datatype Server<Ref> = Server(bound: map<string, Ref>, heap: map<Ref, seq<Conn>>)

  /** A broadcast in progress: the list object it iterates over, how far it got,
      what it sent, and which sends failed. `started` is the channel's contents
      when it began. */
  datatype Cast<Ref> = Cast(channel: string, list: Ref, started: seq<Conn>, next: nat, sent: seq<Conn>, dead: seq<Conn>)

  datatype State<Ref> = State(server: Server<Ref>, casts: map<int, Cast<Ref>>)

  function Members<Ref>(s: Server<Ref>, channel: string): seq<Conn> {
    if channel in s.bound && s.bound[channel] in s.heap then s.heap[s.bound[channel]] else []
  }

  function Without(conns: seq<Conn>, conn: Conn): seq<Conn> {
    if conns == [] then []
    else (if conns[0] == conn then [] else [conns[0]]) + Without(conns[1..], conn)
  }

  function Connect<Ref>(s: Server<Ref>, channel: string, conn: Conn, spare: Ref): Server<Ref> {
    if channel !in s.bound then Server(s.bound[channel := spare], s.heap[spare := [conn]])
    else s.(heap := s.heap[s.bound[channel] := Members(s, channel) + [conn]])
  }

  function Disconnect<Ref>(s: Server<Ref>, channel: string, conn: Conn, spare: Ref): Server<Ref> {
    if channel !in s.bound then s
    else
      var kept := Without(Members(s, channel), conn);
      Server(if kept == [] then s.bound - {channel} else s.bound[channel := spare], s.heap[spare := kept])
  }

  function DisconnectAll<Ref>(s: Server<Ref>, channel: string, dead: seq<Conn>, spare: seq<Ref>): Server<Ref>
    requires |spare| == |dead|
    decreases |dead|
  {
    if dead == [] then s
    else DisconnectAll(Disconnect(s, channel, dead[0], spare[0]), channel, dead[1..], spare[1..])
  }

  datatype Step<Ref> =
    | ConnectStep(channel: string, conn: Conn, spare: Ref)
    | DisconnectStep(channel: string, conn: Conn, spare: Ref)
    | BeginStep(cast: int, channel: string)
    | SendStep(cast: int, ok: bool)
    | EndStep(cast: int, spares: seq<Ref>)

  /** New objects are none of those that exist, and distinct from each other. */
  predicate AreUnused<Ref(==)>(s: Server<Ref>, spare: seq<Ref>) {
    (forall i :: 0 <= i < |spare| ==> spare[i] !in s.heap)
    && forall i, j :: 0 <= i < j < |spare| ==> spare[i] != spare[j]
  }

  predicate Enabled<Ref(==)>(s: State<Ref>, step: Step<Ref>) {
    match step
    case ConnectStep(_, _, spare) => AreUnused(s.server, [spare])
    case DisconnectStep(_, _, spare) => AreUnused(s.server, [spare])
    case BeginStep(cast, _) => cast !in s.casts
    case SendStep(cast, _) =>
      cast in s.casts && s.casts[cast].list in s.server.heap && s.casts[cast].next < |s.server.heap[s.casts[cast].list]|
    case EndStep(cast, spares) =>
      cast in s.casts && s.casts[cast].list in s.server.heap
        && s.casts[cast].next >= |s.server.heap[s.casts[cast].list]|
      && |spares| == |s.casts[cast].dead| && AreUnused(s.server, spares)
  }

  function Apply<Ref>(s: State<Ref>, step: Step<Ref>): State<Ref>
    requires Enabled(s, step)
  {
    match step
    case ConnectStep(channel, conn, spare) => s.(server := Connect(s.server, channel, conn, spare))
    case DisconnectStep(channel, conn, spare) => s.(server := Disconnect(s.server, channel, conn, spare))
    case BeginStep(cast, channel) =>
      if channel !in s.server.bound then s
      else s.(casts := s.casts[cast := Cast(channel, s.server.bound[channel], Members(s.server, channel), 0, [], [])])
    case SendStep(cast, ok) =>
      var c := s.casts[cast];
      var conn := s.server.heap[c.list][c.next];
      s.(casts := s.casts[cast := c.(next := c.next + 1, sent := c.sent + [conn],
                                     dead := if ok then c.dead else c.dead + [conn])])
    case EndStep(cast, spares) =>
      var c := s.casts[cast];
      State(DisconnectAll(s.server, c.channel, c.dead, spares), s.casts - {cast})
  }

  // ------------------------------------------------------------------ invariant

  predicate ServerInvariant<Ref(==)>(s: Server<Ref>) {
    && (forall ch :: ch in s.bound ==> s.bound[ch] in s.heap && s.heap[s.bound[ch]] != [])
    && (forall a, b :: a in s.bound && b in s.bound && a != b ==> s.bound[a] != s.bound[b])
  }

  /** The object a broadcast iterates over only ever grew at the end, and the
      broadcast has sent to its first `next` entries, in order. Only its own
      channel can be bound to it. */
  predicate CastInvariant<Ref(==)>(s: Server<Ref>, c: Cast<Ref>) {
    && c.list in s.heap
    && c.started <= s.heap[c.list]
    && c.next <= |s.heap[c.list]|
    && c.sent == s.heap[c.list][..c.next]
    && (forall conn :: conn in c.dead ==> conn in c.sent)
    && (forall ch :: ch in s.bound && s.bound[ch] == c.list ==> ch == c.channel)
  }

  predicate Invariant<Ref(==)>(s: State<Ref>) {
    ServerInvariant(s.server) && forall t :: t in s.casts ==> CastInvariant(s.server, s.casts[t])
  }

  lemma {:induction false} WithoutRemoves(conns: seq<Conn>, conn: Conn)
    ensures forall x :: x in Without(conns, conn) <==> x in conns && x != conn
    ensures forall x :: x != conn ==> multiset(Without(conns, conn))[x] == multiset(conns)[x]
  {
    if conns != [] {
      assert conns == [conns[0]] + conns[1..];
      WithoutRemoves(conns[1..], conn);
    }
  }

  /** Appending in place never disturbs what a broadcast has already read;
      rebinding does not touch its object at all. */
  lemma ConnectInvariant<Ref>(s: Server<Ref>, channel: string, conn: Conn, spare: Ref)
    requires ServerInvariant(s) && AreUnused(s, [spare])
    ensures ServerInvariant(Connect(s, channel, conn, spare))
    ensures forall c: Cast<Ref> :: CastInvariant(s, c) ==> CastInvariant(Connect(s, channel, conn, spare), c)
  {
    assert [spare][0] == spare;
  }

  lemma DisconnectKeepsServer<Ref>(s: Server<Ref>, channel: string, conn: Conn, spare: Ref)
    requires ServerInvariant(s) && spare !in s.heap
    ensures ServerInvariant(Disconnect(s, channel, conn, spare))
  {
  }

  lemma DisconnectInvariant<Ref>(s: Server<Ref>, channel: string, conn: Conn, spare: Ref)
    requires ServerInvariant(s) && AreUnused(s, [spare])
    ensures ServerInvariant(Disconnect(s, channel, conn, spare))
    ensures forall c: Cast<Ref> :: CastInvariant(s, c) ==> CastInvariant(Disconnect(s, channel, conn, spare), c)
  {
    assert [spare][0] == spare;
  }

  lemma {:induction false} DisconnectAllInvariant<Ref>(s: Server<Ref>, channel: string, dead: seq<Conn>,
                                                       spare: seq<Ref>)
    requires ServerInvariant(s) && |spare| == |dead| && AreUnused(s, spare)
    ensures ServerInvariant(DisconnectAll(s, channel, dead, spare))
    ensures forall c: Cast<Ref> :: CastInvariant(s, c) ==> CastInvariant(DisconnectAll(s, channel, dead, spare), c)
    decreases |dead|
  {
    if dead != [] {
      DisconnectInvariant(s, channel, dead[0], spare[0]);
      var s' := Disconnect(s, channel, dead[0], spare[0]);
      assert AreUnused(s', spare[1..]);
      DisconnectAllInvariant(s', channel, dead[1..], spare[1..]);
    }
  }

  lemma StepInvariant<Ref>(s: State<Ref>, step: Step<Ref>)
    requires Invariant(s) && Enabled(s, step)
    ensures Invariant(Apply(s, step))
  {
    match step
    case ConnectStep(channel, conn, spare) => ConnectInvariant(s.server, channel, conn, spare);
    case DisconnectStep(channel, conn, spare) => DisconnectInvariant(s.server, channel, conn, spare);
    case BeginStep(_, _) =>
    case SendStep(_, _) =>
    case EndStep(cast, spares) => DisconnectAllInvariant(s.server, s.casts[cast].channel, s.casts[cast].dead, spares);
  }

  // ------------------------------------------------------------- one step, exactly

  /** A connect puts the connection at the end of its channel and leaves the other
      channels as they were. */
  lemma ConnectMembers<Ref>(s: Server<Ref>, channel: string, conn: Conn, spare: Ref, other: string)
    requires ServerInvariant(s) && spare !in s.heap
    ensures Members(Connect(s, channel, conn, spare), channel) == Members(s, channel) + [conn]
    ensures other != channel ==> Members(Connect(s, channel, conn, spare), other) == Members(s, other)
  {
  }

  /** A broadcast to a channel that nobody is on does nothing. */
  lemma NobodyToSendTo<Ref>(s: State<Ref>, cast: int, channel: string)
    requires cast !in s.casts && channel !in s.server.bound
    ensures Apply(s, BeginStep(cast, channel)) == s
  {
  }

  /** A disconnect removes every occurrence from its channel and leaves the other
      channels as they were. */
  lemma DisconnectMembers<Ref>(s: Server<Ref>, channel: string, conn: Conn, spare: Ref, other: string)
    requires ServerInvariant(s) && spare !in s.heap
    ensures Members(Disconnect(s, channel, conn, spare), channel) == Without(Members(s, channel), conn)
    ensures other != channel ==> Members(Disconnect(s, channel, conn, spare), other) == Members(s, other)
  {
  }

  function WithoutAll(conns: seq<Conn>, dead: seq<Conn>): seq<Conn>
    decreases |dead|
  {
    if dead == [] then conns else WithoutAll(Without(conns, dead[0]), dead[1..])
  }

  lemma {:induction false} WithoutAllRemoves(conns: seq<Conn>, dead: seq<Conn>)
    ensures forall x :: x in WithoutAll(conns, dead) <==> x in conns && x !in dead
    decreases |dead|
  {
    if dead != [] {
      WithoutRemoves(conns, dead[0]);
      WithoutAllRemoves(Without(conns, dead[0]), dead[1..]);
    }
  }

  lemma {:induction false} DisconnectAllMembers<Ref>(s: Server<Ref>, channel: string, dead: seq<Conn>,
                                                     spare: seq<Ref>, other: string)
    requires ServerInvariant(s) && |spare| == |dead| && AreUnused(s, spare)
    ensures Members(DisconnectAll(s, channel, dead, spare), channel) == WithoutAll(Members(s, channel), dead)
    ensures other != channel ==> Members(DisconnectAll(s, channel, dead, spare), other) == Members(s, other)
    decreases |dead|
  {
    if dead != [] {
      DisconnectInvariant(s, channel, dead[0], spare[0]);
      DisconnectMembers(s, channel, dead[0], spare[0], other);
      var s' := Disconnect(s, channel, dead[0], spare[0]);
      assert AreUnused(s', spare[1..]);
      DisconnectAllMembers(s', channel, dead[1..], spare[1..], other);
    }
  }

  /** When a broadcast ends it has sent to every entry of its list once, in order,
      beginning with the channel as it was at the start; every connection whose
      send failed is off the channel, everyone else is still on it, no other
      channel changed, and no channel is bound to an empty list. */
  lemma EndOfBroadcast<Ref>(s: State<Ref>, cast: int, spares: seq<Ref>, other: string)
    requires Invariant(s) && Enabled(s, EndStep(cast, spares))
    ensures var c, s' := s.casts[cast], Apply(s, EndStep(cast, spares));
      && c.started <= c.sent == s.server.heap[c.list]
      && (forall x :: x in Members(s'.server, c.channel) <==> x in Members(s.server, c.channel) && x !in c.dead)
      && (other != c.channel ==> Members(s'.server, other) == Members(s.server, other))
      && (forall ch :: ch in s'.server.bound ==> Members(s'.server, ch) != [])
      && s'.casts == s.casts - {cast}
  {
    var c := s.casts[cast];
    DisconnectAllInvariant(s.server, c.channel, c.dead, spares);
    DisconnectAllMembers(s.server, c.channel, c.dead, spares, other);
    WithoutAllRemoves(Members(s.server, c.channel), c.dead);
  }

  // --------------------------------------------------------- a whole broadcast

  predicate Runs<Ref(==)>(s: State<Ref>, steps: seq<Step<Ref>>)
    decreases |steps|
  {
    steps == [] || (Enabled(s, steps[0]) && Runs(Apply(s, steps[0]), steps[1..]))
  }

  function After<Ref>(s: State<Ref>, steps: seq<Step<Ref>>): State<Ref>
    requires Runs(s, steps)
    decreases |steps|
  {
    if steps == [] then s else After(Apply(s, steps[0]), steps[1..])
  }

  lemma {:induction false} RunInvariant<Ref>(s: State<Ref>, steps: seq<Step<Ref>>)
    requires Invariant(s) && Runs(s, steps)
    ensures Invariant(After(s, steps))
    decreases |steps|
  {
    if steps != [] {
      StepInvariant(s, steps[0]);
      RunInvariant(Apply(s, steps[0]), steps[1..]);
    }
  }

  /** The channel is still bound to the object the broadcast iterates over. */
  predicate Attached<Ref(==)>(s: Server<Ref>, c: Cast<Ref>) {
    c.channel in s.bound && s.bound[c.channel] == c.list
  }

  predicate Keeps<Ref(==)>(steps: seq<Step<Ref>>, cast: int) {
    forall i :: 0 <= i < |steps| ==> !(steps[i].EndStep? && steps[i].cast == cast)
  }

  /** The connections that join the broadcast's channel during the steps while the
      channel is still bound to the broadcast's object. */
  function Joined<Ref(==)>(s: State<Ref>, steps: seq<Step<Ref>>, cast: int): seq<Conn>
    requires Runs(s, steps)
    decreases |steps|
  {
    if steps == [] then []
    else
      (if steps[0].ConnectStep? && cast in s.casts && steps[0].channel == s.casts[cast].channel
        && Attached(s.server, s.casts[cast])
       then [steps[0].conn] else [])
      + Joined(Apply(s, steps[0]), steps[1..], cast)
  }

  lemma {:induction false} HeapOnlyGrows<Ref>(s: Server<Ref>, channel: string, dead: seq<Conn>, spare: seq<Ref>)
    requires |spare| == |dead| && AreUnused(s, spare)
    ensures var s' := DisconnectAll(s, channel, dead, spare);
      && (forall r :: r in s.heap ==> r in s'.heap && s'.heap[r] == s.heap[r])
      && (forall ch :: ch in s'.bound && s'.bound[ch] in s.heap ==> ch in s.bound && s'.bound[ch] == s.bound[ch])
    decreases |dead|
  {
    if dead != [] {
      var s' := Disconnect(s, channel, dead[0], spare[0]);
      assert AreUnused(s', spare[1..]);
      HeapOnlyGrows(s', channel, dead[1..], spare[1..]);
    }
  }

  /** One step extends the broadcast's object by the connection it attaches to
      the channel, if it does, and a broadcast once detached stays detached. */
  lemma StepOnList<Ref>(s: State<Ref>, step: Step<Ref>, cast: int)
    requires Invariant(s) && Enabled(s, step) && cast in s.casts
    requires !(step.EndStep? && step.cast == cast)
    ensures var s' := Apply(s, step);
      && cast in s'.casts && s'.casts[cast].list == s.casts[cast].list && s.casts[cast].list in s'.server.heap
      && s'.casts[cast].channel == s.casts[cast].channel && s'.casts[cast].started == s.casts[cast].started
      && s'.server.heap[s.casts[cast].list] == s.server.heap[s.casts[cast].list]
         + (if step.ConnectStep? && step.channel == s.casts[cast].channel && Attached(s.server, s.casts[cast])
            then [step.conn] else [])
      && (Attached(s'.server, s.casts[cast]) ==> Attached(s.server, s.casts[cast]))
      && (step.DisconnectStep? && step.channel == s.casts[cast].channel ==> !Attached(s'.server, s.casts[cast]))
  {
    match step
    case ConnectStep(_, _, spare) => assert [spare][0] == spare;
    case DisconnectStep(_, _, spare) => assert [spare][0] == spare;
    case BeginStep(_, _) =>
    case SendStep(_, _) =>
    case EndStep(t, spares) => HeapOnlyGrows(s.server, s.casts[t].channel, s.casts[t].dead, spares);
  }

  lemma {:induction false} ListOfARun<Ref>(s: State<Ref>, steps: seq<Step<Ref>>, cast: int)
    requires Invariant(s) && Runs(s, steps) && cast in s.casts && Keeps(steps, cast)
    ensures var s' := After(s, steps);
      && cast in s'.casts && s'.casts[cast].list == s.casts[cast].list && s.casts[cast].list in s'.server.heap
      && s'.casts[cast].channel == s.casts[cast].channel && s'.casts[cast].started == s.casts[cast].started
      && s'.server.heap[s.casts[cast].list] == s.server.heap[s.casts[cast].list] + Joined(s, steps, cast)
    decreases |steps|
  {
    if steps != [] {
      assert !(steps[0].EndStep? && steps[0].cast == cast);
      StepInvariant(s, steps[0]);
      StepOnList(s, steps[0], cast);
      var s1 := Apply(s, steps[0]);
      ListOfARun(s1, steps[1..], cast);
      var c, list := s.casts[cast], s.casts[cast].list;
      var joins := steps[0].ConnectStep? && steps[0].channel == c.channel && Attached(s.server, c);
      var one := if joins then [steps[0].conn] else [];
      assert s1.server.heap[list] == s.server.heap[list] + one;
      assert (s.server.heap[list] + one) + Joined(s1, steps[1..], cast)
        == s.server.heap[list] + (one + Joined(s1, steps[1..], cast));
    }
  }

  /** Who a broadcast reaches, whatever connects, disconnects and other broadcasts
      run between its sends: first everyone on the channel when it began, then
      everyone who joined before the channel was rebound, once each and in that
      order. */
  lemma BroadcastRecipients<Ref>(s: State<Ref>, cast: int, channel: string, steps: seq<Step<Ref>>, spares: seq<Ref>)
    requires Invariant(s) && cast !in s.casts && channel in s.server.bound
    requires Runs(Apply(s, BeginStep(cast, channel)), steps) && Keeps(steps, cast)
    requires Enabled(After(Apply(s, BeginStep(cast, channel)), steps), EndStep(cast, spares))
    ensures After(Apply(s, BeginStep(cast, channel)), steps).casts[cast].sent
      == Members(s.server, channel) + Joined(Apply(s, BeginStep(cast, channel)), steps, cast)
  {
    var s1 := Apply(s, BeginStep(cast, channel));
    StepInvariant(s, BeginStep(cast, channel));
    ListOfARun(s1, steps, cast);
    RunInvariant(s1, steps);
  }

  /** The connections to which a send of the broadcast raised in a run, in order. */
  function Failed<Ref(==)>(s: State<Ref>, steps: seq<Step<Ref>>, cast: int): seq<Conn>
    requires Runs(s, steps)
    decreases |steps|
  {
    if steps == [] then []
    else
      (if steps[0] == SendStep(cast, false) then [s.server.heap[s.casts[cast].list][s.casts[cast].next]] else [])
      + Failed(Apply(s, steps[0]), steps[1..], cast)
  }

  lemma StepOnDead<Ref>(s: State<Ref>, step: Step<Ref>, cast: int)
    requires Enabled(s, step) && cast in s.casts && !(step.EndStep? && step.cast == cast)
    ensures cast in Apply(s, step).casts
    ensures Apply(s, step).casts[cast].dead == s.casts[cast].dead
      + if step == SendStep(cast, false) then [s.server.heap[s.casts[cast].list][s.casts[cast].next]] else []
  {
  }

  /** What a broadcast holds for dead are those connections, whatever else happens. */
  lemma {:induction false} DeadAreThoseWhoseSendFailed<Ref>(s: State<Ref>, steps: seq<Step<Ref>>, cast: int)
    requires Runs(s, steps) && cast in s.casts && Keeps(steps, cast)
    ensures cast in After(s, steps).casts
    ensures After(s, steps).casts[cast].dead == s.casts[cast].dead + Failed(s, steps, cast)
    decreases |steps|
  {
    if steps != [] {
      assert !(steps[0].EndStep? && steps[0].cast == cast);
      StepOnDead(s, steps[0], cast);
      var s1 := Apply(s, steps[0]);
      DeadAreThoseWhoseSendFailed(s1, steps[1..], cast);
      var c := s.casts[cast];
      var one := if steps[0] == SendStep(cast, false) then [s.server.heap[c.list][c.next]] else [];
      assert (s.casts[cast].dead + one) + Failed(s1, steps[1..], cast)
        == s.casts[cast].dead + (one + Failed(s1, steps[1..], cast));
    }
  }

  /** A whole broadcast: when it ends, a connection leaves the channel if and only if a
      send to it raised; the other channels are as they were. */
  lemma DroppedIffSendFailed<Ref>(s: State<Ref>, cast: int, channel: string, steps: seq<Step<Ref>>, spares: seq<Ref>,
                                  conn: Conn, other: string)
    requires Invariant(s) && cast !in s.casts && channel in s.server.bound
    requires Runs(Apply(s, BeginStep(cast, channel)), steps) && Keeps(steps, cast)
    requires Enabled(After(Apply(s, BeginStep(cast, channel)), steps), EndStep(cast, spares))
    ensures var begun := Apply(s, BeginStep(cast, channel));
      var before := After(begun, steps);
      var after := Apply(before, EndStep(cast, spares));
      && (conn in Members(after.server, channel)
          <==> conn in Members(before.server, channel) && conn !in Failed(begun, steps, cast))
      && (other != channel ==> Members(after.server, other) == Members(before.server, other))
  {
    var begun := Apply(s, BeginStep(cast, channel));
    StepInvariant(s, BeginStep(cast, channel));
    ListOfARun(begun, steps, cast);
    RunInvariant(begun, steps);
    DeadAreThoseWhoseSendFailed(begun, steps, cast);
    EndOfBroadcast(After(begun, steps), cast, spares, other);
  }

  lemma {:induction false} JoinersConnected<Ref>(s: State<Ref>, steps: seq<Step<Ref>>, cast: int, conn: Conn)
    requires Invariant(s) && Runs(s, steps) && cast in s.casts && Keeps(steps, cast)
    requires conn in Joined(s, steps, cast)
    ensures exists i ::
      0 <= i < |steps| && steps[i].ConnectStep? && steps[i].channel == s.casts[cast].channel && steps[i].conn == conn
    decreases |steps|
  {
    StepInvariant(s, steps[0]);
    StepOnList(s, steps[0], cast);
    if !(steps[0].ConnectStep? && steps[0].channel == s.casts[cast].channel && steps[0].conn == conn) {
      JoinersConnected(Apply(s, steps[0]), steps[1..], cast, conn);
      var i :| 0 <= i < |steps[1..]| && steps[1..][i].ConnectStep? && steps[1..][i].channel == s.casts[cast].channel
        && steps[1..][i].conn == conn;
      assert steps[i + 1] == steps[1..][i];
    }
  }

  /** A connection on the channel at the start that does not connect to it again
      meanwhile is sent to exactly as often as it was listed: once. */
  lemma SentExactlyOnce<Ref>(s: State<Ref>, cast: int, channel: string, steps: seq<Step<Ref>>, spares: seq<Ref>,
                             conn: Conn)
    requires Invariant(s) && cast !in s.casts && channel in s.server.bound
    requires Runs(Apply(s, BeginStep(cast, channel)), steps) && Keeps(steps, cast)
    requires Enabled(After(Apply(s, BeginStep(cast, channel)), steps), EndStep(cast, spares))
    requires multiset(Members(s.server, channel))[conn] == 1
    requires forall i ::
      0 <= i < |steps| && steps[i].ConnectStep? && steps[i].channel == channel ==> steps[i].conn != conn
    ensures multiset(After(Apply(s, BeginStep(cast, channel)), steps).casts[cast].sent)[conn] == 1
  {
    var s1 := Apply(s, BeginStep(cast, channel));
    BroadcastRecipients(s, cast, channel, steps, spares);
    StepInvariant(s, BeginStep(cast, channel));
    if conn in Joined(s1, steps, cast) {
      JoinersConnected(s1, steps, cast, conn);
    }
  }

  /** Once a disconnect has touched the channel nobody can join the broadcast any
      more, even if the disconnect removed nothing: the channel has a new list. */
  lemma {:induction false} NobodyJoinsAfterARebind<Ref>(s: State<Ref>, steps: seq<Step<Ref>>, cast: int)
    requires Invariant(s) && Runs(s, steps) && cast in s.casts && Keeps(steps, cast)
    requires !Attached(s.server, s.casts[cast])
    ensures Joined(s, steps, cast) == []
    decreases |steps|
  {
    if steps != [] {
      StepInvariant(s, steps[0]);
      StepOnList(s, steps[0], cast);
      NobodyJoinsAfterARebind(Apply(s, steps[0]), steps[1..], cast);
    }
  }

  // ------------------------------------------------------------------- the count

  /** How many connections some channels hold together. */
  ghost function Total<Ref>(s: Server<Ref>, channels: set<string>): nat {
    if channels == {} then 0
    else
      var ch :| ch in channels;
      |Members(s, ch)| + Total(s, channels - {ch})
  }

  /** It does not matter which channel is counted first. */
  lemma {:induction false} TotalWithout<Ref>(s: Server<Ref>, channels: set<string>, ch: string)
    requires ch in channels
    ensures Total(s, channels) == |Members(s, ch)| + Total(s, channels - {ch})
    decreases channels
  {
    var x :| x in channels && Total(s, channels) == |Members(s, x)| + Total(s, channels - {x});
    if x != ch {
      TotalWithout(s, channels - {x}, ch);
      TotalWithout(s, channels - {ch}, x);
      assert channels - {x} - {ch} == channels - {ch} - {x};
    }
  }

  lemma {:induction false} SameMembersSameTotal<Ref>(a: Server<Ref>, b: Server<Ref>, channels: set<string>)
    requires forall ch :: ch in channels ==> Members(a, ch) == Members(b, ch)
    ensures Total(a, channels) == Total(b, channels)
    decreases channels
  {
    if channels != {} {
      var ch :| ch in channels;
      TotalWithout(a, channels, ch);
      TotalWithout(b, channels, ch);
      SameMembersSameTotal(a, b, channels - {ch});
    }
  }

  ghost function Connections<Ref>(s: Server<Ref>): nat {
    Total(s, s.bound.Keys)
  }

  /** The total is the channel's members and what every other channel holds. */
  lemma ConnectionsOf<Ref>(s: Server<Ref>, channel: string)
    ensures Connections(s) == |Members(s, channel)| + Total(s, s.bound.Keys - {channel})
  {
    if channel in s.bound {
      TotalWithout(s, s.bound.Keys, channel);
    } else {
      assert s.bound.Keys - {channel} == s.bound.Keys;
    }
  }

  /** A connect adds one to the number of connections. */
  lemma ConnectAddsOne<Ref>(s: Server<Ref>, channel: string, conn: Conn, spare: Ref)
    requires ServerInvariant(s) && spare !in s.heap
    ensures Connections(Connect(s, channel, conn, spare)) == Connections(s) + 1
  {
    var s' := Connect(s, channel, conn, spare);
    ConnectionsOf(s, channel);
    ConnectionsOf(s', channel);
    assert s'.bound.Keys - {channel} == s.bound.Keys - {channel};
    SameMembersSameTotal(s, s', s.bound.Keys - {channel});
  }

  /** A disconnect takes away the occurrences of the connection on its channel. */
  lemma DisconnectTakesAway<Ref>(s: Server<Ref>, channel: string, conn: Conn, spare: Ref)
    requires ServerInvariant(s) && spare !in s.heap
    ensures Connections(Disconnect(s, channel, conn, spare)) == Connections(s) - multiset(Members(s, channel))[conn]
  {
    var s' := Disconnect(s, channel, conn, spare);
    ConnectionsOf(s, channel);
    ConnectionsOf(s', channel);
    assert s'.bound.Keys - {channel} == s.bound.Keys - {channel};
    forall ch | ch in s.bound.Keys - {channel} ensures Members(s', ch) == Members(s, ch) {
      DisconnectMembers(s, channel, conn, spare, ch);
    }
    SameMembersSameTotal(s, s', s.bound.Keys - {channel});
    DisconnectMembers(s, channel, conn, spare, channel);
    WithoutShortens(Members(s, channel), conn);
  }

  lemma {:induction false} WithoutShortens(conns: seq<Conn>, conn: Conn)
    ensures |Without(conns, conn)| == |conns| - multiset(conns)[conn]
  {
    if conns != [] {
      WithoutShortens(conns[1..], conn);
      assert conns == [conns[0]] + conns[1..];
    }
  }
}
