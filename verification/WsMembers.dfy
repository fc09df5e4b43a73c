/** Which sockets are connected, told from the sections run so far. */
module WsMembers {
  import opened Words
  import opened WsFrames
  import opened WsHub
  import opened WsDelivery

  // --- who is connected ---

  /** Up to seven sockets: one more connects while there is room, and goes when it is removed. */
  function Members(ops: seq<Op>): set<int>
    decreases |ops|
  {
    if ops == [] then {}
    else
      var m := Members(ops[..|ops| - 1]);
      match ops[|ops| - 1]
      case Connect(fd) => if |m| < CLIENTS then m + {fd} else m
      case Disconnect(fd) => m - {fd}
      case _ => m
  }

  /** The sockets in the first n entries. */
  ghost function Fds(clients: seq<HubClient>, n: nat): set<int>
    requires n <= |clients|
  {
    set i | 0 <= i < n && clients[i].used :: clients[i].fd
  }

  lemma FdsMore(clients: seq<HubClient>, n: nat)
    requires 0 < n <= |clients| && UniqueFds(clients)
    ensures var c := clients[n - 1];
      && (c.used ==> c.fd !in Fds(clients, n - 1))
      && Fds(clients, n) == Fds(clients, n - 1) + if c.used then {c.fd} else {}
  {
  }

  lemma {:induction false} FdsCount(clients: seq<HubClient>, n: nat)
    requires n <= |clients| && UniqueFds(clients)
    ensures |Fds(clients, n)| <= n
    ensures |Fds(clients, n)| == n <==> forall i :: 0 <= i < n ==> clients[i].used
    decreases n
  {
    if n > 0 {
      FdsCount(clients, n - 1);
      FdsMore(clients, n);
    }
  }

  lemma ConnectMembers(h: Hub, fd: int)
    requires HubInv(h) && OpOk(Connect(fd))
    ensures var m := Fds(h.clients, CLIENTS);
      |Step(h, Connect(fd)).0.clients| == CLIENTS
      && Fds(Step(h, Connect(fd)).0.clients, CLIENTS) == if |m| < CLIENTS then m + {fd} else m
  {
    var m, h' := Fds(h.clients, CLIENTS), Step(h, Connect(fd)).0;
    ConnectExact(h, fd);
    FdsCount(h.clients, CLIENTS);
    if Connected(h', fd) {
      var k :| EntryFor(h.clients, fd, k)
               && h' == WithClient(h, k, HubClient(true, false, false, fd, [|h.rings[0].log|, |h.rings[1].log|], 0));
      forall x
        ensures x in Fds(h'.clients, CLIENTS) <==> x in m || x == fd
      {
        InFds(h.clients, x);
        InFds(h'.clients, x);
        EntryMembers(h.clients, fd, k, x, h'.clients);
      }
      if Connected(h, fd) {
        InFds(h.clients, fd);
        assert m + {fd} == m;
      }
    }
  }

  lemma InFds(clients: seq<HubClient>, x: int)
    ensures x in Fds(clients, |clients|) <==> exists i :: 0 <= i < |clients| && clients[i].used && clients[i].fd == x
  {
  }

  ghost predicate Holds(clients: seq<HubClient>, x: int) {
    exists i :: 0 <= i < |clients| && clients[i].used && clients[i].fd == x
  }

  lemma EntryMembers(clients: seq<HubClient>, fd: int, k: nat, x: int, clients': seq<HubClient>)
    requires EntryFor(clients, fd, k) && |clients'| == |clients| && clients'[k].used && clients'[k].fd == fd
    requires forall i :: 0 <= i < |clients| && i != k ==> clients'[i] == clients[i]
    ensures Holds(clients', x) <==> Holds(clients, x) || x == fd
  {
    if Holds(clients, x) {
      var i :| 0 <= i < |clients| && clients[i].used && clients[i].fd == x;
      assert i != k ==> clients'[i].used && clients'[i].fd == x;
    }
    if x == fd {
      assert clients'[k].fd == x;
    }
    if Holds(clients', x) {
      var i :| 0 <= i < |clients'| && clients'[i].used && clients'[i].fd == x;
      assert i != k ==> clients[i].used && clients[i].fd == x;
    }
  }

  lemma DisconnectMembers(h: Hub, fd: int)
    requires HubInv(h)
    ensures |Step(h, Disconnect(fd)).0.clients| == CLIENTS
    ensures Fds(Step(h, Disconnect(fd)).0.clients, CLIENTS) == Fds(h.clients, CLIENTS) - {fd}
  {
    var h' := Step(h, Disconnect(fd)).0;
    forall x
      ensures x in Fds(h'.clients, CLIENTS) <==> x in Fds(h.clients, CLIENTS) && x != fd
    {
      if x in Fds(h.clients, CLIENTS) && x != fd {
        var i :| 0 <= i < CLIENTS && h.clients[i].used && h.clients[i].fd == x;
        assert h'.clients[i].used && h'.clients[i].fd == x;
      }
      if x in Fds(h'.clients, CLIENTS) {
        var i :| 0 <= i < CLIENTS && h'.clients[i].used && h'.clients[i].fd == x;
        assert h.clients[i].used && h.clients[i].fd == x;
        assert Find(h.clients, x, 0) == i;
      }
    }
  }

  /** The other sections leave everyone where they are. */
  lemma SameMembers(h: Hub, op: Op)
    requires HubInv(h) && OpOk(op) && !op.Connect? && !op.Disconnect?
    ensures |Step(h, op).0.clients| == CLIENTS && Fds(Step(h, op).0.clients, CLIENTS) == Fds(h.clients, CLIENTS)
  {
    var h' := Step(h, op).0;
    if op.Post? {
      MakeRoomEffect(h, EVENT, Size(Frame(BROADCAST, op.text)));
    } else if op.Reply? && Find(h.clients, op.fd, 0) < CLIENTS {
      assert ClientInv(h.clients[Find(h.clients, op.fd, 0)], h.rings);
      MakeRoomEffect(h, REPLY, Size(Frame(op.fd, op.text)));
    } else if op.Take? && Find(h.clients, op.fd, 0) < CLIENTS {
      assert ClientInv(h.clients[Find(h.clients, op.fd, 0)], h.rings);
    }
    SameFds(h.clients, h'.clients);
  }

  lemma SameFds(clients: seq<HubClient>, clients': seq<HubClient>)
    requires |clients'| == |clients|
    requires forall i :: 0 <= i < |clients| ==> clients'[i].used == clients[i].used && (clients[i].used ==> clients'[i].fd == clients[i].fd)
    ensures Fds(clients', |clients'|) == Fds(clients, |clients|)
  {
    forall x
      ensures x in Fds(clients', |clients'|) <==> x in Fds(clients, |clients|)
    {
      if x in Fds(clients, |clients|) {
        var i :| 0 <= i < |clients| && clients[i].used && clients[i].fd == x;
        assert clients'[i].used && clients'[i].fd == x;
      }
      if x in Fds(clients', |clients'|) {
        var i :| 0 <= i < |clients| && clients'[i].used && clients'[i].fd == x;
        assert clients[i].used && clients[i].fd == x;
      }
    }
  }

  lemma {:induction false} FdsAreMembers(ops: seq<Op>)
    requires OpsOk(ops)
    ensures Fds(Run(ops).clients, CLIENTS) == Members(ops)
    decreases |ops|
  {
    if ops != [] {
      var before, op := ops[..|ops| - 1], ops[|ops| - 1];
      FdsAreMembers(before);
      match op {
        case Connect(fd) => ConnectMembers(Run(before), fd);
        case Disconnect(fd) => DisconnectMembers(Run(before), fd);
        case _ => SameMembers(Run(before), op);
      }
    }
  }

  /** In every run exactly these sockets are connected, never more than seven. */
  lemma ConnectedAreMembers(ops: seq<Op>, fd: int)
    requires OpsOk(ops)
    ensures Connected(Run(ops), fd) <==> fd in Members(ops)
    ensures |Members(ops)| <= CLIENTS
  {
    FdsAreMembers(ops);
    FdsCount(Run(ops).clients, CLIENTS);
    InFds(Run(ops).clients, fd);
  }
}
