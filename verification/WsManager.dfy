/** The connection manager with real list objects: `backend/app/ws/manager.py` as
    written, the dictionary bound to mutable lists, proved against the steps of
    module `Broadcast`. Each method here is one stretch of code between awaits. */
module WsManager {
  import opened Wrappers
  import opened Broadcast

  class ConnList {
    var items: seq<Conn>

    constructor (items: seq<Conn>)
      ensures this.items == items
    {
      this.items := items;
    }

    /** A name for an object that nothing will ever be bound to. */
    ghost constructor Unused() {
      items := [];
    }
  }

  /** `[conn for conn in conns if conn is not websocket]`. */
  method Filtered(conns: seq<Conn>, websocket: Conn) returns (kept: seq<Conn>)
    ensures kept == Without(conns, websocket)
  {
    kept := [];
    for i := 0 to |conns|
      invariant kept == Without(conns[..i], websocket)
    {
      assert conns[..i + 1] == conns[..i] + [conns[i]];
      WithoutAppend(conns[..i], conns[i], websocket);
      if conns[i] != websocket {
        kept := kept + [conns[i]];
      }
    }
    assert conns[..|conns|] == conns;
  }

  class ConnectionManager {
    var activeConnections: map<string, ConnList>
    ghost var lists: set<ConnList>  // every list object ever created, bound or not

    ghost function View(): Server<ConnList>
      reads this, lists
    {
      Server(activeConnections, map l | l in lists :: l.items)
    }

    ghost predicate Valid()
      reads this, lists
    {
      ServerInvariant(View())
    }

    constructor ()
      ensures Valid() && View() == Server(map[], map[]) && lists == {}
    {
      activeConnections, lists := map[], {};
    }

    /** A list display or comprehension: a new object, bound to nothing yet. */
    method NewList(items: seq<Conn>) returns (list: ConnList)
      modifies this`lists
      ensures fresh(list) && list.items == items && lists == old(lists) + {list} && list !in old(View()).heap
      ensures View() == old(View()).(heap := old(View()).heap[list := items])
    {
      list := new ConnList(items);
      lists := lists + {list};
      SameServer(View(), old(View()).(heap := old(View()).heap[list := items]));
    }

    /** `self.active_connections[channel] = list`. */
    method Bind(channel: string, list: ConnList)
      modifies this`activeConnections
      ensures View() == old(View()).(bound := old(View()).bound[channel := list])
    {
      activeConnections := activeConnections[channel := list];
      SameServer(View(), old(View()).(bound := old(View()).bound[channel := list]));
    }

    /** `del self.active_connections[channel]`. */
    method Unbind(channel: string)
      modifies this`activeConnections
      ensures View() == old(View()).(bound := old(View()).bound - {channel})
    {
      activeConnections := activeConnections - {channel};
      SameServer(View(), old(View()).(bound := old(View()).bound - {channel}));
    }

    /** After `accept`: appends in place to the list the channel is bound to. */
    method Connect(conn: Conn, channel: string) returns (ghost spare: seq<ConnList>)
      requires Valid()
      modifies this, lists
      ensures Valid() && old(lists) <= lists && fresh(lists - old(lists))
      ensures |spare| == 1 && fresh(spare[0]) && AreUnused(old(View()), spare)
      ensures View() == Apply(State(old(View()), map[]), ConnectStep(channel, conn, spare[0])).server
      ensures channel in old(activeConnections) ==> activeConnections == old(activeConnections)
    {
      var list;
      if channel !in activeConnections {
        list := NewList([]);
        Bind(channel, list);
        spare := [list];
      } else {
        list := activeConnections[channel];
        ghost var unused := new ConnList.Unused();
        spare := [unused];
      }
      list.items := list.items + [conn];
      assert list.items == Members(old(View()), channel) + [conn];
      ConnectInvariant(old(View()), channel, conn, spare[0]);
      assert [] + [conn] == [conn];
      SameServer(View(), Broadcast.Connect(old(View()), channel, conn, spare[0]));
    }

    /** Rebinds the channel to a filtered copy, or unbinds it. No existing list is
        touched. */
    method Disconnect(conn: Conn, channel: string) returns (ghost spare: seq<ConnList>)
      requires Valid()
      modifies this
      ensures Valid() && old(lists) <= lists && fresh(lists - old(lists))
      ensures |spare| == 1 && fresh(spare[0]) && AreUnused(old(View()), spare)
      ensures View() == Broadcast.Disconnect(old(View()), channel, conn, spare[0])
    {
      if channel in activeConnections {
        var kept := Filtered(activeConnections[channel].items, conn);
        var list := NewList(kept);
        spare := [list];
        DisconnectKeepsServer(old(View()), channel, conn, list);
        Bind(channel, list);
        if activeConnections[channel].items == [] {
          Unbind(channel);
          assert old(View()).bound[channel := list] - {channel} == old(View()).bound - {channel};
        }
      } else {
        ghost var unused := new ConnList.Unused();
        spare := [unused];
      }
    }

    /** `get_connection_count`: of one channel, or of all. */
    method GetConnectionCount(channel: Option<string>) returns (count: nat)
      requires Valid()
      ensures channel.Some? ==> count == |Members(View(), channel.value)|
      ensures channel.Some? ==> (count == 0 <==> channel.value !in activeConnections)
      ensures channel.None? ==> count == Connections(View())
    {
      if channel.Some? {
        count := if channel.value in activeConnections then |activeConnections[channel.value].items| else 0;
        return;
      }
      count := 0;
      var rest := activeConnections.Keys;
      while rest != {}
        invariant rest <= activeConnections.Keys
        invariant count + Total(View(), rest) == Connections(View())
      {
        var ch :| ch in rest;
        TotalWithout(View(), rest, ch);
        count := count + |activeConnections[ch].items|;
        rest := rest - {ch};
      }
    }
  }

  lemma SameServer(a: Server<ConnList>, b: Server<ConnList>)
    requires a.bound == b.bound && a.heap.Keys == b.heap.Keys
    requires forall l :: l in a.heap ==> a.heap[l] == b.heap[l]
    ensures a == b
  {
    assert a.heap == b.heap;
  }

  lemma {:induction false} WithoutAppend(conns: seq<Conn>, last: Conn, conn: Conn)
    ensures Without(conns + [last], conn) == Without(conns, conn) + if last == conn then [] else [last]
  {
    if conns != [] {
      assert (conns + [last])[1..] == conns[1..] + [last];
      WithoutAppend(conns[1..], last, conn);
    } else {
      assert conns + [last] == [last];
      assert [last][1..] == [];
    }
  }

  /** `broadcast` as a suspended coroutine: it holds on to the list object it was
      given, and resumes after each send. */
  class BroadcastTask {
    const manager: ConnectionManager
    const channel: string
    const list: ConnList
    ghost const started: seq<Conn>
    var next: nat
    ghost var sent: seq<Conn>
    var dead: seq<Conn>

    ghost function Task(): Cast<ConnList>
      reads this
    {
      Cast(channel, list, started, next, sent, dead)
    }

    ghost predicate Valid()
      reads this, manager, manager.lists
    {
      manager.Valid() && CastInvariant(manager.View(), Task())
    }

    constructor (manager: ConnectionManager, channel: string)
      requires manager.Valid() && channel in manager.activeConnections
      ensures Valid() && this.manager == manager
      ensures Task() == Cast(channel, manager.activeConnections[channel], Members(manager.View(), channel), 0, [], [])
    {
      this.manager, this.channel := manager, channel;
      list := manager.activeConnections[channel];
      started := Members(manager.View(), channel);
      next, sent, dead := 0, [], [];
    }

    predicate HasNext()
      reads this, list
    {
      next < |list.items|
    }

    /** One turn of the loop: `await connection.send_json(message)` returned, or
        raised. */
    method SendNext(ok: bool) returns (conn: Conn)
      requires Valid() && HasNext()
      modifies this
      ensures Valid() && manager.View() == old(manager.View())
      ensures conn == list.items[old(next)] && next == old(next) + 1
      ensures sent == old(sent) + [conn] && dead == if ok then old(dead) else old(dead) + [conn]
      ensures State(manager.View(), map[0 := Task()])
        == Apply(State(old(manager.View()), map[0 := old(Task())]), SendStep(0, ok))
    {
      conn := list.items[next];
      next := next + 1;
      sent := sent + [conn];
      if !ok {
        dead := dead + [conn];
      }
    }

    /** The loop is over: drop the dead, with no await in between. */
    method Finish() returns (ghost spares: seq<ConnList>)
      requires Valid() && !HasNext()
      modifies manager
      ensures manager.Valid() && |spares| == |dead| && AreUnused(old(manager.View()), spares)
      ensures manager.View() == DisconnectAll(old(manager.View()), channel, dead, spares)
      ensures started <= sent == list.items
      ensures forall conn ::
        conn in Members(manager.View(), channel) <==> conn in Members(old(manager.View()), channel) && conn !in dead
    {
      spares := [];
      for i := 0 to |dead|
        invariant manager.Valid() && |spares| == i && AreUnused(old(manager.View()), spares)
        invariant old(manager.lists) <= manager.lists && forall l :: l in spares ==> allocated(l)
        invariant manager.View() == DisconnectAll(old(manager.View()), channel, dead[..i], spares)
      {
        ghost var spare := manager.Disconnect(dead[i], channel);
        DisconnectAllAppend(old(manager.View()), channel, dead[..i], spares, dead[i], spare[0]);
        assert dead[..i + 1] == dead[..i] + [dead[i]];
        assert spare == [spare[0]];
        spares := spares + spare;
      }
      assert dead[..|dead|] == dead;
      DisconnectAllMembers(old(manager.View()), channel, dead, spares, channel);
      WithoutAllRemoves(Members(old(manager.View()), channel), dead);
    }
  }

  lemma {:induction false} DisconnectAllAppend<Ref>(s: Server<Ref>, channel: string, dead: seq<Conn>,
                                                    spares: seq<Ref>, last: Conn, spare: Ref)
    requires |spares| == |dead|
    ensures DisconnectAll(s, channel, dead + [last], spares + [spare])
      == Broadcast.Disconnect(DisconnectAll(s, channel, dead, spares), channel, last, spare)
    decreases |dead|
  {
    if dead != [] {
      assert (dead + [last])[1..] == dead[1..] + [last] && (spares + [spare])[1..] == spares[1..] + [spare];
      DisconnectAllAppend(Broadcast.Disconnect(s, channel, dead[0], spares[0]), channel, dead[1..], spares[1..], last,
                          spare);
    } else {
      assert dead + [last] == [last] && spares + [spare] == [spare];
      assert [last][1..] == [] && [spare][1..] == [];
    }
  }
}
