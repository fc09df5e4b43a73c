/** The counters of bd_ws_out.cpp, told from the sections run so far: what they say is how many frames were lost. */
module WsCounters {
  import opened Words
  import opened WsFrames
  import opened WsHub
  import opened WsDelivery

  /** The frames of their own that the first n clients lose in one ring when all before `base` goes. */
  ghost function LostBefore(clients: seq<HubClient>, ring: nat, log: seq<Frame>, base: nat, n: nat): nat
    requires ring < 2 && base <= |log| && n <= |clients|
    decreases n
  {
    if n == 0 then 0
    else
      var c := clients[n - 1];
      LostBefore(clients, ring, log, base, n - 1) + if c.used then Count(log, c.next[ring], base, c.fd) else 0
  }

  /** The counter once all before `base` has gone. */
  ghost function CountedTo(dropped: nat, clients: seq<HubClient>, ring: nat, log: seq<Frame>, base: nat): nat
    requires ring < 2 && base <= |log|
  {
    Wrap(dropped + LostBefore(clients, ring, log, base, |clients|))
  }

  lemma CountFirst(log: seq<Frame>, first: nat, fd: int)
    requires first < |log|
    ensures Count(log, first, first + 1, fd) == if Addressed(log[first], fd) then 1 else 0
  {
    assert Count(log, first, first, fd) == 0;
  }

  lemma {:induction false} LostOne(clients: seq<HubClient>, ring: nat, log: seq<Frame>, first: nat, base: nat, n: nat,
                                   clients': seq<HubClient>)
    requires ring < 2 && first < base <= |log| && n <= |clients|
    requires forall i :: 0 <= i < n && clients[i].used ==> first <= clients[i].next[ring]
    requires clients' == PassAll(clients, ring, first, log[first])
    ensures LostBefore(clients, ring, log, base, n)
            == Hits(clients, ring, first, log[first], n) + LostBefore(clients', ring, log, base, n)
    decreases n
  {
    if n > 0 {
      var c := clients[n - 1];
      LostOne(clients, ring, log, first, base, n - 1, clients');
      if c.used && c.next[ring] == first {
        CountSplit(log, first, first + 1, base, c.fd);
        CountFirst(log, first, c.fd);
      }
    }
  }

  lemma {:induction false} NoneLost(clients: seq<HubClient>, ring: nat, log: seq<Frame>, base: nat, n: nat)
    requires ring < 2 && base <= |log| && n <= |clients|
    requires forall i :: 0 <= i < n && clients[i].used ==> base <= clients[i].next[ring]
    ensures LostBefore(clients, ring, log, base, n) == 0
    decreases n
  {
    if n > 0 {
      NoneLost(clients, ring, log, base, n - 1);
    }
  }

  lemma Ahead(h: Hub, ring: nat)
    requires HubInv(h) && ring < 2
    ensures |h.clients| == CLIENTS && h.rings[ring].base <= |h.rings[ring].log|
    ensures forall i :: 0 <= i < CLIENTS && h.clients[i].used ==> h.rings[ring].base <= h.clients[i].next[ring]
  {
    forall i | 0 <= i < CLIENTS && h.clients[i].used
      ensures h.rings[ring].base <= h.clients[i].next[ring]
    {
      assert ClientInv(h.clients[i], h.rings);
    }
  }

  /** One eviction counts one for each client that had not read the frame and for which it was. */
  lemma EvictCounts(h: Hub, ring: nat, e: Hub, base: nat, dropped: nat)
    requires HubInv(h) && ring < 2 && h.rings[ring].base < base <= |h.rings[ring].log| && e == Evict(h, ring)
    requires dropped == CountedTo(e.dropped, e.clients, ring, h.rings[ring].log, base)
    ensures dropped == CountedTo(h.dropped, h.clients, ring, h.rings[ring].log, base)
  {
    var r := h.rings[ring];
    Ahead(h, ring);
    LostOne(h.clients, ring, r.log, r.base, base, CLIENTS, e.clients);
    WrapAdd(h.dropped + Hits(h.clients, ring, r.base, r.log[r.base], CLIENTS),
            LostBefore(e.clients, ring, r.log, base, CLIENTS));
  }

  lemma KeptCounts(h: Hub, ring: nat)
    requires HubInv(h) && ring < 2
    ensures h.rings[ring].base <= |h.rings[ring].log|
    ensures h.dropped == CountedTo(h.dropped, h.clients, ring, h.rings[ring].log, h.rings[ring].base)
  {
    Ahead(h, ring);
    SmallRemainder(h.dropped, U32);
    NoneLost(h.clients, ring, h.rings[ring].log, h.rings[ring].base, CLIENTS);
  }

  lemma EvictsFirst(h: Hub, ring: nat, need: nat, e: Hub)
    requires HubInv(h) && ring < 2 && need <= Capacity(ring) && Capacity(ring) - Used(h.rings[ring]) < need
    requires h.rings[ring].base < |h.rings[ring].log| && e == Evict(h, ring)
    ensures HubInv(e) && MakeRoom(h, ring, need) == MakeRoom(e, ring, need)
    ensures e.rings[ring] == h.rings[ring].(base := h.rings[ring].base + 1)
  {
    EvictKeepsInv(h, ring);
  }

  lemma RoomMade(h: Hub, ring: nat, need: nat, h': Hub)
    requires HubInv(h) && ring < 2 && need <= Capacity(ring) && h' == MakeRoom(h, ring, need)
    ensures |h'.rings| == 2 && h.rings[ring].base <= h'.rings[ring].base <= |h.rings[ring].log|
    ensures Capacity(ring) - Used(h.rings[ring]) >= need ==> h' == h
    ensures Capacity(ring) - Used(h.rings[ring]) < need ==> h.rings[ring].base < |h.rings[ring].log|
  {
    MakeRoomRings(h, ring, need);
  }

  /** Making room counts every frame a client had not read yet, once for each such client. */
  lemma {:induction false} MakeRoomCounts(h: Hub, ring: nat, need: nat, log: seq<Frame>, h': Hub)
    requires HubInv(h) && ring < 2 && need <= Capacity(ring)
    requires h' == MakeRoom(h, ring, need) && log == h.rings[ring].log
    ensures |h'.rings| == 2 && h.rings[ring].base <= h'.rings[ring].base <= |log|
    ensures h'.dropped == CountedTo(h.dropped, h.clients, ring, log, h'.rings[ring].base)
    decreases |h.rings[ring].log| - h.rings[ring].base
  {
    RoomMade(h, ring, need, h');
    if Capacity(ring) - Used(h.rings[ring]) < need {
      var e := Evict(h, ring);
      EvictsFirst(h, ring, need, e);
      MakeRoomCounts(e, ring, need, log, h');
      EvictCounts(h, ring, e, h'.rings[ring].base, h'.dropped);
    } else {
      KeptCounts(h, ring);
    }
  }

  // --- sections and runs ---

  /** The frames of their own that clients lose when room is made in a ring. */
  ghost function LostBy(h: Hub, ring: nat, need: nat): nat
    requires HubInv(h) && ring < 2 && need <= Capacity(ring)
  {
    RoomMade(h, ring, need, MakeRoom(h, ring, need));
    LostBefore(h.clients, ring, h.rings[ring].log, MakeRoom(h, ring, need).rings[ring].base, |h.clients|)
  }

  /** The frames a section loses, one for each client that loses it; one dropped before the rings counts once. */
  ghost function Lost(h: Hub, op: Op): nat {
    if !HubInv(h) || !OpOk(op) then 0
    else
      match op
      case NoteDropped => 1
      case Post(text) => LostBy(h, EVENT, Size(Frame(BROADCAST, text)))
      case Reply(fd, text) =>
        var k := Find(h.clients, fd, 0);
        if k < |h.clients| then
          assert ClientInv(h.clients[k], h.rings);
          LostBy(h, REPLY, Size(Frame(fd, text)))
        else 0
      case _ => 0
  }

  ghost function Resyncs(h: Hub, op: Op): nat {
    if HubInv(h) && OpOk(op) && Step(h, op).1 == Resync then 1 else 0
  }

  ghost function TooLongs(h: Hub, op: Op): nat {
    if op.TooLong? then 1 else 0
  }

  lemma AppendCounts(h: Hub, ring: nat, f: Frame, h': Hub, lost: nat)
    requires HubInv(h) && ring < 2 && FrameOk(f) && Size(f) <= Capacity(ring) && h' == Append(h, ring, f)
    requires lost == LostBy(h, ring, Size(f))
    ensures h'.dropped == Wrap(h.dropped + lost)
  {
    var made := MakeRoom(h, ring, Size(f));
    MakeRoomCounts(h, ring, Size(f), h.rings[ring].log, made);
    LostByIs(h, ring, Size(f), made);
    GrownCounts(made, ring, f, h');
  }

  lemma GrownCounts(h: Hub, ring: nat, f: Frame, h': Hub)
    requires ring < |h.rings| && h' == Grown(h, ring, f)
    ensures h'.dropped == h.dropped
  {
  }

  lemma LostByIs(h: Hub, ring: nat, need: nat, made: Hub)
    requires HubInv(h) && ring < 2 && need <= Capacity(ring) && made == MakeRoom(h, ring, need)
    requires |made.rings| == 2 && made.rings[ring].base <= |h.rings[ring].log|
    ensures CountedTo(h.dropped, h.clients, ring, h.rings[ring].log, made.rings[ring].base)
            == Wrap(h.dropped + LostBy(h, ring, need))
  {
  }

  /** What became of the counter of lost frames, section by section. */
  ghost predicate Dropped(h: Hub, op: Op, h': Hub)
    requires HubInv(h) && OpOk(op)
  {
    match op
    case Post(text) => h' == Append(h, EVENT, Frame(BROADCAST, text))
    case Reply(fd, text) =>
      var k := Find(h.clients, fd, 0);
      if k < |h.clients| then
        assert ClientInv(h.clients[k], h.rings);
        h' == Append(h, REPLY, Frame(fd, text))
      else h' == h
    case NoteDropped => h'.dropped == Wrap(h.dropped + 1)
    case _ => h'.dropped == h.dropped
  }

  lemma StepDropped(h: Hub, op: Op, h': Hub)
    requires HubInv(h) && OpOk(op) && h' == Step(h, op).0
    ensures Dropped(h, op, h')
  {
  }

  lemma ReplyLoses(h: Hub, fd: int, text: seq<Byte>, h': Hub, lost: nat)
    requires HubInv(h) && OpOk(Reply(fd, text)) && Dropped(h, Reply(fd, text), h') && lost == Lost(h, Reply(fd, text))
    ensures h'.dropped == Wrap(h.dropped + lost)
  {
    var k := Find(h.clients, fd, 0);
    if k < |h.clients| {
      assert ClientInv(h.clients[k], h.rings);
      AppendCounts(h, REPLY, Frame(fd, text), h', lost);
    } else {
      SmallRemainder(h.dropped, U32);
    }
  }

  lemma StepLoses(h: Hub, op: Op, h': Hub, lost: nat)
    requires HubInv(h) && OpOk(op) && Dropped(h, op, h') && lost == Lost(h, op)
    ensures h'.dropped == Wrap(h.dropped + lost)
  {
    match op {
      case Post(text) => AppendCounts(h, EVENT, Frame(BROADCAST, text), h', lost);
      case Reply(fd, text) => ReplyLoses(h, fd, text, h', lost);
      case _ => SmallRemainder(h.dropped, U32);
    }
  }

  lemma StepCountsOthers(h: Hub, op: Op, h': Hub)
    requires HubInv(h) && OpOk(op) && h' == Step(h, op).0
    ensures h'.resyncs == Wrap(h.resyncs + Resyncs(h, op)) && h'.oversize == Wrap(h.oversize + TooLongs(h, op))
  {
    SmallRemainder(h.resyncs, U32);
    SmallRemainder(h.oversize, U32);
    match op {
      case Post(text) => MakeRoomRings(h, EVENT, Size(Frame(BROADCAST, text)));
      case Reply(fd, text) =>
        var k := Find(h.clients, fd, 0);
        if k < |h.clients| {
          assert ClientInv(h.clients[k], h.rings);
          MakeRoomRings(h, REPLY, Size(Frame(fd, text)));
        }
      case _ =>
    }
  }

  // --- whole runs ---

  datatype Counter = LostFrames | ResyncMessages | LongTexts

  function Value(h: Hub, c: Counter): nat {
    match c
    case LostFrames => h.dropped
    case ResyncMessages => h.resyncs
    case LongTexts => h.oversize
  }

  /** What a section adds to a counter. */
  ghost function Adds(h: Hub, op: Op, c: Counter): nat {
    match c
    case LostFrames => Lost(h, op)
    case ResyncMessages => Resyncs(h, op)
    case LongTexts => TooLongs(h, op)
  }

  ghost function Total(c: Counter, ops: seq<Op>): nat
    requires OpsOk(ops)
    decreases |ops|
  {
    if ops == [] then 0 else Total(c, ops[..|ops| - 1]) + Adds(Run(ops[..|ops| - 1]), ops[|ops| - 1], c)
  }

  lemma StepAdds(h: Hub, op: Op, c: Counter, h': Hub, total: nat, total': nat)
    requires HubInv(h) && OpOk(op) && h' == Step(h, op).0
    requires Value(h, c) == Wrap(total) && total' == total + Adds(h, op, c)
    ensures Value(h', c) == Wrap(total')
  {
    if c.LostFrames? {
      StepDropped(h, op, h');
      StepLoses(h, op, h', Lost(h, op));
    } else {
      StepCountsOthers(h, op, h');
    }
    WrapAdd(total, total' - total);
  }

  lemma LastAdds(c: Counter, ops: seq<Op>, before: seq<Op>, op: Op)
    requires OpsOk(ops) && ops != [] && before == ops[..|ops| - 1] && op == ops[|ops| - 1]
    ensures Run(ops) == Step(Run(before), op).0 && Total(c, ops) == Total(c, before) + Adds(Run(before), op, c)
  {
  }

  lemma NoneCounted(c: Counter, h: Hub)
    requires h == Init()
    ensures Value(h, c) == Wrap(0)
  {
    SmallRemainder(0, U32);
  }

  /** In every run the three counters are those of the frames lost, one for each client that lost it, of the resync
   *  messages taken, and of the texts too long, in 32 bits. */
  lemma {:induction false} CounterIsTotal(c: Counter, ops: seq<Op>, h: Hub, total: nat)
    requires OpsOk(ops) && h == Run(ops) && total == Total(c, ops)
    ensures Value(h, c) == Wrap(total)
    decreases |ops|
  {
    if ops == [] {
      NoneCounted(c, h);
    } else {
      var before, op := ops[..|ops| - 1], ops[|ops| - 1];
      CounterIsTotal(c, before, Run(before), Total(c, before));
      LastAdds(c, ops, before, op);
      StepAdds(Run(before), op, c, h, Total(c, before), total);
    }
  }
}
