/**
 * The websocket output of bd_ws_out.cpp on its real data: two byte rings and the
 * client table. Each method is one section under the lock and is proved to do exactly
 * what the same step of the frame-queue machine (WsHub) does to the queues it shows.
 */
module WsOut {
  import opened Words
  import opened WsFrames
  import opened WsHub
  import opened WsRing

  datatype WsClient = WsClient(used: bool, resync: bool, statusWanted: bool, fd: int, pos: Pair,
                               stalledSinceMs: nat)

  /** A table entry stands for a client of the queue machine: its positions are the byte positions of
   *  the next frames. */
  ghost predicate Matches(c: WsClient, a: HubClient, log0: seq<Frame>, log1: seq<Frame>) {
    && c.used == a.used && c.resync == a.resync && c.statusWanted == a.statusWanted
    && c.fd == a.fd && c.stalledSinceMs == a.stalledSince
    && (c.used ==>
          && a.next[0] <= |log0| && c.pos[0] == Wrap(Off(log0, a.next[0]))
          && a.next[1] <= |log1| && c.pos[1] == Wrap(Off(log1, a.next[1])))
  }

  /** What evict_oldest does to one table entry. */
  function Passed(c: WsClient, ring: nat, rd: nat, next: nat, head: Head): WsClient
    requires ring < 2
  {
    if !c.used || c.pos[ring] != rd then c
    else c.(pos := c.pos[ring := next], resync := c.resync || head.fd == BROADCAST || head.fd == c.fd)
  }

  function PassedAll(cs: seq<WsClient>, ring: nat, rd: nat, next: nat, head: Head): (r: seq<WsClient>)
    requires ring < 2
    ensures |r| == |cs| && forall i :: 0 <= i < |cs| ==> r[i] == Passed(cs[i], ring, rd, next, head)
  {
    seq(|cs|, i requires 0 <= i < |cs| => Passed(cs[i], ring, rd, next, head))
  }

  predicate Struck(c: WsClient, ring: nat, rd: nat, head: Head)
    requires ring < 2
  {
    c.used && c.pos[ring] == rd && (head.fd == BROADCAST || head.fd == c.fd)
  }

  function StruckCount(clients: seq<WsClient>, ring: nat, rd: nat, head: Head, n: nat): nat
    requires n <= |clients| && ring < 2
  {
    if n == 0 then 0
    else StruckCount(clients, ring, rd, head, n - 1) + if Struck(clients[n - 1], ring, rd, head) then 1 else 0
  }

  /** Positions that tell a client at the oldest frame from one that is not. */
  ghost predicate TellsOldest(c: WsClient, a: HubClient, ring: nat, rd: nat, base: nat)
    requires ring < 2
  {
    c.used ==> (c.pos[ring] == rd <==> a.next[ring] == base)
  }

  lemma {:induction false} StruckAreHits(cs: seq<WsClient>, hs: seq<HubClient>, ring: nat, rd: nat, base: nat,
                                         log: seq<Frame>, log0: seq<Frame>, log1: seq<Frame>, n: nat)
    requires |cs| == |hs| && n <= |cs| && ring < 2 && base < |log|
    requires forall i :: 0 <= i < |cs| ==> Matches(cs[i], hs[i], log0, log1) && TellsOldest(cs[i], hs[i], ring, rd, base)
    ensures StruckCount(cs, ring, rd, Head(|log[base].text|, log[base].fd), n) == Hits(hs, ring, base, log[base], n)
  {
    if n > 0 {
      StruckAreHits(cs, hs, ring, rd, base, log, log0, log1, n - 1);
      assert Matches(cs[n - 1], hs[n - 1], log0, log1);
    }
  }

  ghost predicate TableMatches(cs: seq<WsClient>, h: Hub) {
    |h.rings| == 2 && |cs| == |h.clients|
    && forall i :: 0 <= i < |cs| ==> Matches(cs[i], h.clients[i], h.rings[0].log, h.rings[1].log)
  }

  lemma PassedMatches(c: WsClient, a: HubClient, ring: nat, rd: nat, base: nat, f: Frame,
                      log0: seq<Frame>, log1: seq<Frame>)
    requires Matches(c, a, log0, log1) && ring < 2 && TellsOldest(c, a, ring, rd, base)
    requires var log := if ring == REPLY then log0 else log1; base < |log| && f == log[base]
    ensures var log := if ring == REPLY then log0 else log1;
      Matches(Passed(c, ring, rd, Wrap(Off(log, base + 1)), Head(|f.text|, f.fd)), PassEvicted(a, ring, base, f),
              log0, log1)
  {
  }

  /** The table after evict_oldest is the evicted table of the queue machine. */
  lemma PassedTable(cs: seq<WsClient>, cs': seq<WsClient>, ring: nat, rd: nat, h: Hub)
    requires HubInv(h) && TableMatches(cs, h) && ring < 2
    requires h.rings[ring].base < |h.rings[ring].log|
    requires forall i :: 0 <= i < CLIENTS ==> TellsOldest(cs[i], h.clients[i], ring, rd, h.rings[ring].base)
    requires var q := h.rings[ring];
      var f := q.log[q.base];
      cs' == PassedAll(cs, ring, rd, Wrap(Off(q.log, q.base + 1)), Head(|f.text|, f.fd))
    ensures TableMatches(cs', Evict(h, ring))
    ensures var f := h.rings[ring].log[h.rings[ring].base];
      Evict(h, ring).dropped == Wrap(h.dropped + StruckCount(cs, ring, rd, Head(|f.text|, f.fd), CLIENTS))
  {
    var q := h.rings[ring];
    StruckAreHits(cs, h.clients, ring, rd, q.base, q.log, h.rings[0].log, h.rings[1].log, CLIENTS);
    forall i | 0 <= i < CLIENTS
      ensures Matches(cs'[i], Evict(h, ring).clients[i], h.rings[0].log, h.rings[1].log)
    {
      PassedMatches(cs[i], h.clients[i], ring, rd, q.base, q.log[q.base], h.rings[0].log, h.rings[1].log);
    }
  }

  /** Positions stay right when a log grows. */
  lemma GrownTable(cs: seq<WsClient>, g: Hub, ring: nat, f: Frame)
    requires |g.rings| == 2 && ring < 2 && TableMatches(cs, g)
    ensures TableMatches(cs, Grown(g, ring, f))
  {
    forall i | 0 <= i < |cs|
      ensures Matches(cs[i], g.clients[i], Grown(g, ring, f).rings[0].log, Grown(g, ring, f).rings[1].log)
    {
      var a := g.clients[i];
      if cs[i].used {
        OffExtend(g.rings[ring].log, f, a.next[ring]);
      }
    }
  }

  lemma FlaggedTable(cs: seq<WsClient>, cs': seq<WsClient>, h: Hub)
    requires TableMatches(cs, h) && |cs'| == |cs|
    requires forall j :: 0 <= j < |cs| ==> cs'[j] == if cs[j].used then cs[j].(resync := true) else cs[j]
    ensures TableMatches(cs', h.(clients := FlagAll(h.clients)))
  {
  }

  class WsServer {
    const reply: ByteRing
    const event: ByteRing
    const clients: array<WsClient>
    var dropped: nat
    var resyncs: nat
    var oversize: nat

    ghost predicate Apart() {
      reply != event && reply.buf != event.buf && clients.Length == CLIENTS
      && reply.size == Capacity(REPLY) && event.size == Capacity(EVENT)
    }

    /** The real data stands for the state h of the queue machine. */
    ghost predicate Shows(h: Hub)
      reads this, clients, reply, event, reply.buf, event.buf
    {
      && Apart() && HubInv(h)
      && reply.Shows(h.rings[REPLY]) && event.Shows(h.rings[EVENT])
      && TableMatches(clients[..], h)
      && dropped == h.dropped && resyncs == h.resyncs && oversize == h.oversize
    }

    function Ring(i: nat): ByteRing {
      if i == REPLY then reply else event
    }

    constructor ()
      ensures Shows(Init())
      ensures fresh(clients) && fresh(reply) && fresh(event) && fresh(reply.buf) && fresh(event.buf)
    {
      reply := new ByteRing(4096);
      event := new ByteRing(16384);
      clients := new WsClient[CLIENTS](_ => WsClient(false, false, false, 0, [0, 0], 0));
      dropped, resyncs, oversize := 0, 0, 0;
      new;
      InitInv();
    }

    /** The bytes in both rings parse into exactly the frames of the queue machine. */
    lemma BytesAreQueues(h: Hub)
      requires Shows(h)
      ensures Parse(reply.Bytes()) == Frames(h.rings[REPLY].log[h.rings[REPLY].base..])
      ensures Parse(event.Bytes()) == Frames(h.rings[EVENT].log[h.rings[EVENT].base..])
    {
      reply.BytesParse(h.rings[REPLY]);
      event.BytesParse(h.rings[EVENT]);
    }

    method FindClient(fd: int, ghost h: Hub) returns (k: nat)
      requires Shows(h)
      ensures k == Find(h.clients, fd, 0)
    {
      k := 0;
      while k < clients.Length && !(clients[k].used && clients[k].fd == fd)
        invariant k <= clients.Length
        invariant Find(h.clients, fd, k) == Find(h.clients, fd, 0)
      {
        assert Matches(clients[..][k], h.clients[k], h.rings[0].log, h.rings[1].log);
        k := k + 1;
      }
      if k < clients.Length {
        assert Matches(clients[..][k], h.clients[k], h.rings[0].log, h.rings[1].log);
      }
    }

    // --- adding frames ---

    /** The loop of evict_oldest over the client table. */
    method PassClients(ring: nat, rd: nat, next: nat, head: Head)
      requires ring < 2 && dropped < U32
      modifies this`dropped, clients
      ensures clients[..] == PassedAll(old(clients[..]), ring, rd, next, head)
      ensures dropped == Wrap(old(dropped) + StruckCount(old(clients[..]), ring, rd, head, clients.Length))
    {
      ghost var before := clients[..];
      SmallRemainder(dropped, U32);
      var i := 0;
      while i < clients.Length
        invariant i <= clients.Length
        invariant forall j :: i <= j < clients.Length ==> clients[j] == before[j]
        invariant forall j :: 0 <= j < i ==> clients[j] == Passed(before[j], ring, rd, next, head)
        invariant dropped == Wrap(old(dropped) + StruckCount(before, ring, rd, head, i))
      {
        if clients[i].used && clients[i].pos[ring] == rd {
          clients[i] := clients[i].(pos := clients[i].pos[ring := next]);
          if head.fd == BROADCAST || head.fd == clients[i].fd {
            clients[i] := clients[i].(resync := true);
            WrapAdd(old(dropped) + StruckCount(before, ring, rd, head, i), 1);
            dropped := Wrap(dropped + 1);
          }
        }
        i := i + 1;
      }
    }

    /** Comparing byte positions tells whether the client still has the oldest frame to read, and whether
     *  it has any. */
    lemma ClientPosition(c: WsClient, a: HubClient, ring: nat, h: Hub)
      requires Shows(h) && ring < 2 && c.used
      requires Matches(c, a, h.rings[0].log, h.rings[1].log) && ClientInv(a, h.rings)
      ensures c.pos[ring] == Ring(ring).rd <==> a.next[ring] == h.rings[ring].base
      ensures c.pos[ring] == Ring(ring).wr <==> a.next[ring] == |h.rings[ring].log|
    {
      Ring(ring).PositionIsFrame(h.rings[ring], a.next[ring]);
    }

    lemma AllTellOldest(ring: nat, h: Hub)
      requires Shows(h) && ring < 2
      ensures forall i :: 0 <= i < CLIENTS ==>
                TellsOldest(clients[..][i], h.clients[i], ring, Ring(ring).rd, h.rings[ring].base)
    {
      forall i | 0 <= i < CLIENTS
        ensures TellsOldest(clients[..][i], h.clients[i], ring, Ring(ring).rd, h.rings[ring].base)
      {
        assert Matches(clients[..][i], h.clients[i], h.rings[0].log, h.rings[1].log);
        assert ClientInv(h.clients[i], h.rings);
        if clients[i].used {
          ClientPosition(clients[i], h.clients[i], ring, h);
        }
      }
    }

    /** Finding out where the oldest frame ends and moving the clients past it. */
    method PassOldest(ring: nat, ghost h: Hub) returns (next: nat)
      requires Shows(h) && ring < 2 && h.rings[ring].base < |h.rings[ring].log|
      modifies this`dropped, clients
      ensures TableMatches(clients[..], Evict(h, ring)) && dropped == Evict(h, ring).dropped
      ensures next == Wrap(Off(h.rings[ring].log, h.rings[ring].base + 1))
    {
      var r := Ring(ring);
      ghost var q := h.rings[ring];
      AllTellOldest(ring, h);
      var head;
      head, next := r.Oldest(q);
      ghost var before := clients[..];
      PassClients(ring, r.rd, next, head);
      PassedTable(before, clients[..], ring, r.rd, h);
    }

    method EvictOldest(ring: nat, ghost h: Hub)
      requires Shows(h) && ring < 2 && h.rings[ring].base < |h.rings[ring].log|
      modifies this`dropped, clients, Ring(ring)`rd
      ensures Shows(Evict(h, ring))
    {
      EvictKeepsInv(h, ring);
      ghost var h' := Evict(h, ring);
      assert h'.rings[1 - ring] == h.rings[1 - ring];
      var next := PassOldest(ring, h);
      Ring(ring).DropOldest(next, h.rings[ring]);
    }

    /** The loop of ring_add: evicts from the old end until the frame fits. */
    method FreeUp(ring: nat, need: nat, ghost h: Hub)
      requires Shows(h) && ring < 2 && need <= Capacity(ring)
      modifies this`dropped, clients, Ring(ring)`rd
      ensures Shows(MakeRoom(h, ring, need)) && Ring(ring).Free() >= need
    {
      ghost var g := h;
      Ring(ring).FreeIsCapacityLeft(g.rings[ring]);
      while Ring(ring).Free() < need
        invariant Shows(g) && Ring(ring).Free() == Capacity(ring) - Used(g.rings[ring])
        invariant MakeRoom(g, ring, need) == MakeRoom(h, ring, need)
        decreases |g.rings[ring].log| - g.rings[ring].base
      {
        FullIsNotEmpty(g.rings[ring], Capacity(ring), need);
        EvictOldest(ring, g);
        g := Evict(g, ring);
        Ring(ring).FreeIsCapacityLeft(g.rings[ring]);
      }
    }

    /** ring_add: makes room, then writes the frame. */
    method RingAdd(ring: nat, fd: int, text: seq<Byte>, ghost h: Hub)
      requires Shows(h) && ring < 2 && FrameOk(Frame(fd, text))
      modifies this`dropped, clients, Ring(ring), Ring(ring).buf
      ensures Shows(Append(h, ring, Frame(fd, text)))
    {
      AppendInv(h, ring, Frame(fd, text));
      FreeUp(ring, Size(Frame(fd, text)), h);
      PushShown(ring, fd, text, MakeRoom(h, ring, Size(Frame(fd, text))));
    }

    method PushShown(ring: nat, fd: int, text: seq<Byte>, ghost g: Hub)
      requires Shows(g) && ring < 2 && FrameOk(Frame(fd, text)) && Ring(ring).Free() >= Size(Frame(fd, text))
      requires HubInv(Grown(g, ring, Frame(fd, text)))
      modifies Ring(ring)`wr, Ring(ring).buf
      ensures Shows(Grown(g, ring, Frame(fd, text)))
    {
      ghost var f := Frame(fd, text);
      GrownTable(clients[..], g, ring, f);
      assert Ring(ring) != Ring(1 - ring);
      Ring(ring).Push(fd, text, g.rings[ring]);
    }

    // --- the locked sections ---

    method PostEvent(text: seq<Byte>, ghost h: Hub)
      requires Shows(h) && OpOk(Post(text))
      modifies this`dropped, clients, event, event.buf
      ensures Shows(Step(h, Post(text)).0)
    {
      RingAdd(EVENT, BROADCAST, text, h);
    }

    method PostReply(fd: int, text: seq<Byte>, ghost h: Hub)
      requires Shows(h) && OpOk(Reply(fd, text))
      modifies this`dropped, clients, reply, reply.buf
      ensures Shows(Step(h, Reply(fd, text)).0)
    {
      var k := FindClient(fd, h);
      if k < clients.Length {
        assert ClientInv(h.clients[k], h.rings);
        RingAdd(REPLY, fd, text, h);
      }
    }

    method FrameFits(text: seq<Byte>, ghost h: Hub) returns (ok: bool)
      requires Shows(h)
      modifies this`oversize
      ensures ok <==> |text| <= MAX_FRAME
      ensures Shows(if ok then h else Step(h, TooLong).0)
    {
      ok := |text| <= MAX_FRAME;
      if !ok {
        oversize := Wrap(oversize + 1);
      }
    }

    /** bd_ws_broadcast: what it does as steps of the queue machine. */
    method Broadcast(text: seq<Byte>, ghost h: Hub) returns (ghost ops: seq<Op>)
      requires Shows(h)
      modifies this`dropped, this`oversize, clients, event, event.buf
      ensures ops == if text == [] || (forall i :: 0 <= i < CLIENTS ==> !h.clients[i].used) then []
                     else if |text| > MAX_FRAME then [TooLong]
                     else [Post(text)]
      ensures OpsOk(ops) && Shows(RunFrom(h, ops))
    {
      ops := [];
      var any := HasClients(h);
      if text != [] && any {
        var fits := FrameFits(text, h);
        if fits {
          PostEvent(text, h);
        }
        ops := [if fits then Post(text) else TooLong];
        OneStep(h, ops[0]);
      }
    }

    /** bd_ws_send: a reply is only stored for a connected socket. */
    method Send(fd: int, text: seq<Byte>, ghost h: Hub) returns (ghost ops: seq<Op>)
      requires Shows(h)
      modifies this`dropped, this`oversize, clients, reply, reply.buf
      ensures ops == if text == [] then [] else if |text| > MAX_FRAME then [TooLong] else [Reply(fd, text)]
      ensures OpsOk(ops) && Shows(RunFrom(h, ops))
    {
      ops := [];
      if text != [] {
        var fits := FrameFits(text, h);
        if fits {
          PostReply(fd, text, h);
        }
        ops := [if fits then Reply(fd, text) else TooLong];
        OneStep(h, ops[0]);
      }
    }

    method HasClients(ghost h: Hub) returns (any: bool)
      requires Shows(h)
      ensures any <==> exists i :: 0 <= i < CLIENTS && h.clients[i].used
    {
      any := false;
      var i := 0;
      while i < clients.Length
        invariant i <= clients.Length
        invariant any <==> exists j :: 0 <= j < i && h.clients[j].used
      {
        assert Matches(clients[..][i], h.clients[i], h.rings[0].log, h.rings[1].log);
        any := any || clients[i].used;
        i := i + 1;
      }
    }

    /** Writing one table entry is the same change in the queue machine. */
    method SetClient(k: nat, c: WsClient, ghost h: Hub, ghost a: HubClient)
      requires Shows(h) && k < CLIENTS && HubInv(WithClient(h, k, a))
      requires Matches(c, a, h.rings[0].log, h.rings[1].log)
      modifies clients
      ensures Shows(WithClient(h, k, a))
    {
      clients[k] := c;
    }

    method AddClient(fd: int, ghost h: Hub) returns (ok: bool)
      requires Shows(h) && OpOk(Connect(fd))
      modifies clients
      ensures Shows(Step(h, Connect(fd)).0)
      ensures ok <==> Connected(h, fd) || HasRoom(h)
    {
      SlotIsEntry(h, fd);
      StepKeepsInv(h, Connect(fd));
      var k := FindClient(fd, h);
      if k == clients.Length {
        k := FirstUnused(h);
      }
      ok := k < clients.Length;
      if ok {
        SetClient(k, WsClient(true, false, false, fd, [reply.wr, event.wr], 0), h, Step(h, Connect(fd)).0.clients[k]);
      }
    }

    method FirstUnused(ghost h: Hub) returns (k: nat)
      requires Shows(h)
      ensures k == FreeSlot(h.clients, 0)
    {
      k := 0;
      while k < clients.Length && clients[k].used
        invariant k <= clients.Length
        invariant FreeSlot(h.clients, k) == FreeSlot(h.clients, 0)
      {
        assert Matches(clients[..][k], h.clients[k], h.rings[0].log, h.rings[1].log);
        k := k + 1;
      }
      if k < clients.Length {
        assert Matches(clients[..][k], h.clients[k], h.rings[0].log, h.rings[1].log);
      }
    }

    method RemoveClient(fd: int, ghost h: Hub)
      requires Shows(h)
      modifies clients
      ensures Shows(Step(h, Disconnect(fd)).0)
    {
      StepKeepsInv(h, Disconnect(fd));
      var k := FindClient(fd, h);
      if k < clients.Length {
        assert Matches(clients[..][k], h.clients[k], h.rings[0].log, h.rings[1].log);
        SetClient(k, clients[k].(used := false), h, h.clients[k].(used := false));
      }
    }

    method RequestStatus(fd: int, ghost h: Hub)
      requires Shows(h)
      modifies clients
      ensures Shows(Step(h, WantStatus(fd)).0)
    {
      StepKeepsInv(h, WantStatus(fd));
      var k := FindClient(fd, h);
      if k < clients.Length {
        assert Matches(clients[..][k], h.clients[k], h.rings[0].log, h.rings[1].log);
        SetClient(k, clients[k].(statusWanted := true), h, h.clients[k].(statusWanted := true));
      }
    }

    method NoteDroppedFrame(ghost h: Hub)
      requires Shows(h)
      modifies this`dropped, clients
      ensures Shows(Step(h, NoteDropped).0)
    {
      StepKeepsInv(h, NoteDropped);
      dropped := Wrap(dropped + 1);
      ghost var before := clients[..];
      var i := 0;
      while i < clients.Length
        invariant i <= clients.Length && dropped == Wrap(h.dropped + 1)
        invariant forall j :: i <= j < clients.Length ==> clients[j] == before[j]
        invariant forall j :: 0 <= j < i ==>
                    clients[j] == if before[j].used then before[j].(resync := true) else before[j]
      {
        if clients[i].used {
          clients[i] := clients[i].(resync := true);
        }
        i := i + 1;
      }
      FlaggedTable(before, clients[..], h);
    }

    /** The scan of one ring in take_frame: skips what is for others, takes the first frame for this client. */
    method ScanRing(k: nat, ring: nat, ghost h: Hub) returns (c: WsClient, m: Message)
      requires Shows(h) && k < CLIENTS && h.clients[k].used && ring < 2
      ensures h.clients[k].next[ring] <= |h.rings[ring].log|
      ensures var (a, m') := TakeFrom(h.clients[k], ring, h.rings[ring].log);
        m == m' && Matches(c, a, h.rings[0].log, h.rings[1].log)
    {
      ghost var a := h.clients[k];
      assert Matches(clients[..][k], a, h.rings[0].log, h.rings[1].log) && ClientInv(a, h.rings);
      var got, f, pos := Ring(ring).Scan(clients[k].pos[ring], clients[k].fd, h.rings[ring], a.next[ring]);
      m := if got then Text(ring, f) else Nothing;
      c := clients[k].(pos := clients[k].pos[ring := pos]);
    }

    /** Both rings in turn, replies first. */
    method TakePending(k: nat, ghost h: Hub) returns (m: Message)
      requires Shows(h) && k < CLIENTS && h.clients[k].used
      requires ClientInv(h.clients[k], h.rings) && !h.clients[k].resync && !h.clients[k].statusWanted
      requires HubInv(WithClient(h, k, TakeNext(h.clients[k], h.rings).0))
      modifies clients
      ensures Shows(WithClient(h, k, TakeNext(h.clients[k], h.rings).0)) && m == TakeNext(h.clients[k], h.rings).1
    {
      var c;
      c, m := ScanRing(k, REPLY, h);
      ghost var a := TakeFrom(h.clients[k], REPLY, h.rings[REPLY].log).0;
      if m != Nothing {
        SetClient(k, c, h, a);
      } else {
        TakeFromInv(h, k, REPLY);
        SetClient(k, c, h, a);
        c, m := ScanRing(k, EVENT, WithClient(h, k, a));
        SetClient(k, c, WithClient(h, k, a), TakeFrom(a, EVENT, h.rings[EVENT].log).0);
      }
    }

    lemma TakeFromInv(h: Hub, k: nat, ring: nat)
      requires HubInv(h) && k < CLIENTS && h.clients[k].used && ring < 2
      ensures ClientInv(h.clients[k], h.rings)
      ensures HubInv(WithClient(h, k, TakeFrom(h.clients[k], ring, h.rings[ring].log).0))
    {
      assert ClientInv(h.clients[k], h.rings);
      WithClientInv(h, k, TakeFrom(h.clients[k], ring, h.rings[ring].log).0);
    }

    /** take_frame: a due resync message first, then a status, then replies, then events. */
    method TakeFrame(fd: int, ghost h: Hub) returns (m: Message)
      requires Shows(h)
      modifies this`resyncs, clients
      ensures Shows(Step(h, Take(fd)).0) && m == Step(h, Take(fd)).1
    {
      TakeInv(h, fd);
      var k := FindClient(fd, h);
      if k == clients.Length {
        return Nothing;
      }
      assert Matches(clients[..][k], h.clients[k], h.rings[0].log, h.rings[1].log);
      assert ClientInv(h.clients[k], h.rings);
      if clients[k].resync {
        TakeResync(k, h);
        m := Resync;
      } else if clients[k].statusWanted {
        SetClient(k, clients[k].(statusWanted := false), h, h.clients[k].(statusWanted := false));
        m := Status;
      } else {
        m := TakePending(k, h);
      }
    }

    /** The first lock section for a client whose socket is full; `first` and `now` are two clock readings. */
    method NoteStalled(fd: int, first: nat, now: nat, ghost h: Hub) returns (giveUp: bool)
      requires Shows(h)
      modifies clients
      ensures Shows(Step(h, Stall(fd, first)).0)
      ensures giveUp <==> Overdue(h, fd, first, now)
    {
      StepKeepsInv(h, Stall(fd, first));
      giveUp := false;
      var k := FindClient(fd, h);
      if k < clients.Length {
        assert Matches(clients[..][k], h.clients[k], h.rings[0].log, h.rings[1].log);
        if clients[k].stalledSinceMs == 0 {
          SetClient(k, clients[k].(stalledSinceMs := first), h, h.clients[k].(stalledSince := first));
        }
        giveUp := Wrap(now - clients[k].stalledSinceMs) > STALL_CLOSE_MS;
      }
    }

    /** The last lock section for a served client: whether it still has something to send. */
    method NoteServed(fd: int, stalled: bool, ghost h: Hub) returns (more: bool)
      requires Shows(h)
      modifies clients
      ensures Shows(Step(h, Resume(fd, stalled)).0)
      ensures var k := Find(h.clients, fd, 0);
        if k < CLIENTS then ClientInv(h.clients[k], h.rings) && (more <==> !stalled && HasMore(h.clients[k], h.rings))
        else !more
    {
      StepKeepsInv(h, Resume(fd, stalled));
      more := false;
      var k := FindClient(fd, h);
      if k < clients.Length {
        assert Matches(clients[..][k], h.clients[k], h.rings[0].log, h.rings[1].log);
        if !stalled {
          more := HasFrames(k, h);
          SetClient(k, clients[k].(stalledSinceMs := 0), h, h.clients[k].(stalledSince := 0));
        }
      }
    }

    method HasFrames(k: nat, ghost h: Hub) returns (any: bool)
      requires Shows(h) && k < CLIENTS && h.clients[k].used
      ensures ClientInv(h.clients[k], h.rings)
      ensures any <==> HasMore(h.clients[k], h.rings)
    {
      assert Matches(clients[..][k], h.clients[k], h.rings[0].log, h.rings[1].log);
      assert ClientInv(h.clients[k], h.rings);
      reply.PositionIsFrame(h.rings[REPLY], h.clients[k].next[0]);
      event.PositionIsFrame(h.rings[EVENT], h.clients[k].next[1]);
      any := clients[k].resync || clients[k].statusWanted || clients[k].pos[0] != reply.wr || clients[k].pos[1] != event.wr;
    }

    method TakeResync(k: nat, ghost h: Hub)
      requires Shows(h) && k < CLIENTS && h.clients[k].used
      modifies this`resyncs, clients
      ensures Shows(WithClient(h.(resyncs := Wrap(h.resyncs + 1)), k, h.clients[k].(resync := false)))
    {
      assert Matches(clients[..][k], h.clients[k], h.rings[0].log, h.rings[1].log);
      assert ClientInv(h.clients[k], h.rings);
      WithClientInv(h, k, h.clients[k].(resync := false));
      SetClient(k, clients[k].(resync := false), h, h.clients[k].(resync := false));
      resyncs := Wrap(resyncs + 1);
    }
  }
}
