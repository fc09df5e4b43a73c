/**
 * The websocket fan-out of bd_ws_out.cpp as a queue of frames: two rings, each
 * client with the number of the next frame it has to look at. A ring keeps every
 * frame it ever accepted in `log`; those before `base` have been evicted.
 */
module WsHub {
  import opened Words
  import opened WsFrames

  const CLIENTS := 7
  const REPLY := 0
  const EVENT := 1
  const STALL_CLOSE_MS := 30000

  type Pair = s: seq<nat> | |s| == 2 witness [0, 0]

  datatype HubRing = HubRing(log: seq<Frame>, base: nat)
  datatype HubClient = HubClient(used: bool, resync: bool, statusWanted: bool, fd: int, next: Pair,
                                 stalledSince: nat)
  datatype Hub = Hub(rings: seq<HubRing>, clients: seq<HubClient>, dropped: nat, resyncs: nat, oversize: nat)

  datatype Message = Nothing | Resync | Status | Text(ring: nat, frame: Frame)

  /** One section under the lock, with the values the firmware gets from outside. */
  datatype Op =
    | Connect(fd: int)
    | Disconnect(fd: int)
    | Post(text: seq<Byte>)
    | Reply(fd: int, text: seq<Byte>)
    | WantStatus(fd: int)
    | NoteDropped
    | TooLong
    | Take(fd: int)
    | Stall(fd: int, now: nat)
    | Resume(fd: int, stalled: bool)

  const NO_CLIENT := HubClient(false, false, false, 0, [0, 0], 0)

  function Init(): Hub {
    var c := NO_CLIENT;
    Hub([HubRing([], 0), HubRing([], 0)], [c, c, c, c, c, c, c], 0, 0, 0)
  }

  function Capacity(ring: nat): nat {
    if ring == REPLY then 4096 else 16384
  }

  predicate OpOk(op: Op) {
    match op
    case Connect(fd) => 0 <= fd < 0x8000
    case Post(text) => 1 <= |text| <= MAX_FRAME
    case Reply(_, text) => 1 <= |text| <= MAX_FRAME
    case _ => true
  }

  // --- what every reachable state satisfies ---

  function Used(r: HubRing): int
    requires r.base <= |r.log|
  {
    Off(r.log, |r.log|) - Off(r.log, r.base)
  }

  ghost predicate RingInv(r: HubRing, capacity: nat) {
    r.base <= |r.log| && AllOk(r.log) && Used(r) <= capacity
  }

  ghost predicate ClientInv(c: HubClient, rings: seq<HubRing>)
    requires |rings| == 2
  {
    c.used ==>
      && 0 <= c.fd < 0x8000
      && rings[0].base <= c.next[0] <= |rings[0].log|
      && rings[1].base <= c.next[1] <= |rings[1].log|
  }

  ghost predicate UniqueFds(clients: seq<HubClient>) {
    forall i, j :: 0 <= i < j < |clients| && clients[i].used && clients[j].used ==> clients[i].fd != clients[j].fd
  }

  ghost predicate HubInv(h: Hub) {
    && |h.rings| == 2 && |h.clients| == CLIENTS
    && RingInv(h.rings[0], Capacity(0)) && RingInv(h.rings[1], Capacity(1))
    && (forall i :: 0 <= i < CLIENTS ==> ClientInv(h.clients[i], h.rings))
    && UniqueFds(h.clients)
    && h.dropped < U32 && h.resyncs < U32 && h.oversize < U32
  }

  // --- clients ---

  /** The first used slot from i on with this socket, |clients| if there is none. */
  function Find(clients: seq<HubClient>, fd: int, i: nat): (k: nat)
    requires i <= |clients|
    ensures i <= k <= |clients|
    ensures k < |clients| ==> clients[k].used && clients[k].fd == fd
    ensures forall j :: i <= j < k ==> !(clients[j].used && clients[j].fd == fd)
    decreases |clients| - i
  {
    if i == |clients| || (clients[i].used && clients[i].fd == fd) then i else Find(clients, fd, i + 1)
  }

  function FreeSlot(clients: seq<HubClient>, i: nat): (k: nat)
    requires i <= |clients|
    ensures i <= k <= |clients|
    ensures k < |clients| ==> !clients[k].used
    ensures forall j :: i <= j < k ==> clients[j].used
    decreases |clients| - i
  {
    if i == |clients| || !clients[i].used then i else FreeSlot(clients, i + 1)
  }

  function SlotFor(clients: seq<HubClient>, fd: int): nat {
    var k := Find(clients, fd, 0);
    if k < |clients| then k else FreeSlot(clients, 0)
  }

  /** The entry a new connection of this socket gets: its old one, else the first unused one. */
  ghost predicate EntryFor(clients: seq<HubClient>, fd: int, k: nat) {
    && k < |clients|
    && if exists i :: 0 <= i < |clients| && clients[i].used && clients[i].fd == fd
       then clients[k].used && clients[k].fd == fd
       else !clients[k].used && forall j :: 0 <= j < k ==> clients[j].used
  }

  ghost predicate Connected(h: Hub, fd: int) {
    exists i :: 0 <= i < |h.clients| && h.clients[i].used && h.clients[i].fd == fd
  }

  ghost predicate HasRoom(h: Hub) {
    exists i :: 0 <= i < |h.clients| && !h.clients[i].used
  }

  lemma SlotIsEntry(h: Hub, fd: int)
    requires UniqueFds(h.clients)
    ensures SlotFor(h.clients, fd) < |h.clients| <==> Connected(h, fd) || HasRoom(h)
    ensures forall k: nat :: EntryFor(h.clients, fd, k) <==> k == SlotFor(h.clients, fd) && k < |h.clients|
  {
  }

  function WithClient(h: Hub, k: nat, c: HubClient): Hub
    requires k < |h.clients|
  {
    h.(clients := h.clients[k := c])
  }

  function FlagAll(clients: seq<HubClient>): (r: seq<HubClient>)
    ensures |r| == |clients|
    ensures forall i :: 0 <= i < |clients| ==>
              r[i] == if clients[i].used then clients[i].(resync := true) else clients[i]
  {
    seq(|clients|, i requires 0 <= i < |clients| =>
        if clients[i].used then clients[i].(resync := true) else clients[i])
  }

  // --- rings ---

  /** What happens to a client when the frame at `base` of a ring goes. */
  function PassEvicted(c: HubClient, ring: nat, base: nat, f: Frame): HubClient
    requires ring < 2
  {
    if c.used && c.next[ring] == base
    then c.(next := c.next[ring := base + 1], resync := c.resync || Addressed(f, c.fd))
    else c
  }

  function PassAll(clients: seq<HubClient>, ring: nat, base: nat, f: Frame): (r: seq<HubClient>)
    requires ring < 2
    ensures |r| == |clients|
    ensures forall i :: 0 <= i < |clients| ==> r[i] == PassEvicted(clients[i], ring, base, f)
  {
    seq(|clients|, i requires 0 <= i < |clients| => PassEvicted(clients[i], ring, base, f))
  }

  predicate Hit(c: HubClient, ring: nat, base: nat, f: Frame)
    requires ring < 2
  {
    c.used && c.next[ring] == base && Addressed(f, c.fd)
  }

  function Hits(clients: seq<HubClient>, ring: nat, base: nat, f: Frame, n: nat): nat
    requires n <= |clients| && ring < 2
  {
    if n == 0 then 0
    else Hits(clients, ring, base, f, n - 1) + if Hit(clients[n - 1], ring, base, f) then 1 else 0
  }

  function Evict(h: Hub, ring: nat): Hub
    requires ring < |h.rings| == 2 && h.rings[ring].base < |h.rings[ring].log|
  {
    var r := h.rings[ring];
    var f := r.log[r.base];
    h.(rings := h.rings[ring := r.(base := r.base + 1)],
       clients := PassAll(h.clients, ring, r.base, f),
       dropped := Wrap(h.dropped + Hits(h.clients, ring, r.base, f, |h.clients|)))
  }

  lemma EvictKeepsInv(h: Hub, ring: nat)
    requires HubInv(h) && ring < 2 && h.rings[ring].base < |h.rings[ring].log|
    ensures HubInv(Evict(h, ring))
  {
    var h' := Evict(h, ring);
    forall i | 0 <= i < CLIENTS
      ensures ClientInv(h'.clients[i], h'.rings)
    {
      assert ClientInv(h.clients[i], h.rings);
    }
  }

  lemma FullIsNotEmpty(q: HubRing, capacity: nat, need: nat)
    requires RingInv(q, capacity) && capacity - Used(q) < need <= capacity
    ensures q.base < |q.log|
  {
  }

  /** Evicts from the old end until `need` bytes are free. */
  function MakeRoom(h: Hub, ring: nat, need: nat): (h': Hub)
    requires HubInv(h) && ring < 2 && need <= Capacity(ring)
    ensures HubInv(h')
    ensures Capacity(ring) - Used(h'.rings[ring]) >= need
    decreases |h.rings[ring].log| - h.rings[ring].base
  {
    if Capacity(ring) - Used(h.rings[ring]) >= need then h
    else
      EvictKeepsInv(h, ring);
      MakeRoom(Evict(h, ring), ring, need)
  }

  function Grown(h: Hub, ring: nat, f: Frame): Hub
    requires ring < |h.rings|
  {
    h.(rings := h.rings[ring := h.rings[ring].(log := h.rings[ring].log + [f])])
  }

  /** ring_add: room first, then the frame at the new end. */
  function Append(h: Hub, ring: nat, f: Frame): Hub
    requires HubInv(h) && ring < 2 && FrameOk(f)
  {
    Grown(MakeRoom(h, ring, Size(f)), ring, f)
  }

  /** How far a client got: position and whether it has to resync, after losing everything before `base`. */
  ghost predicate Overtaken(c: HubClient, c': HubClient, ring: nat, log: seq<Frame>, base: nat)
    requires ring < 2 && base <= |log|
  {
    if !c.used || c.next[ring] >= base then c' == c
    else
      && c' == c.(next := c.next[ring := base], resync := c'.resync)
      && (c'.resync <==> c.resync || exists i :: c.next[ring] <= i < base && Addressed(log[i], c.fd))
  }

  /** What making room does to the rings: nothing is evicted beyond the need. */
  lemma {:induction false} MakeRoomRings(h: Hub, ring: nat, need: nat)
    requires HubInv(h) && ring < 2 && need <= Capacity(ring)
    ensures var h' := MakeRoom(h, ring, need);
      && h'.rings[1 - ring] == h.rings[1 - ring]
      && h'.rings[ring].log == h.rings[ring].log
      && h.rings[ring].base <= h'.rings[ring].base
      && (h.rings[ring].base < h'.rings[ring].base ==>
            Off(h.rings[ring].log, |h.rings[ring].log|) - Off(h.rings[ring].log, h'.rings[ring].base - 1)
            > Capacity(ring) - need)
      && h'.resyncs == h.resyncs && h'.oversize == h.oversize
    decreases |h.rings[ring].log| - h.rings[ring].base
  {
    if Capacity(ring) - Used(h.rings[ring]) < need {
      EvictKeepsInv(h, ring);
      MakeRoomRings(Evict(h, ring), ring, need);
    }
  }

  /** What it means for the clients: each is moved and flagged exactly for the frames it had not read yet. */
  lemma {:induction false} MakeRoomClients(h: Hub, ring: nat, need: nat)
    requires HubInv(h) && ring < 2 && need <= Capacity(ring)
    ensures var h' := MakeRoom(h, ring, need);
      && h'.rings[ring].log == h.rings[ring].log
      && forall i :: 0 <= i < CLIENTS ==>
           Overtaken(h.clients[i], h'.clients[i], ring, h.rings[ring].log, h'.rings[ring].base)
    decreases |h.rings[ring].log| - h.rings[ring].base
  {
    var r := h.rings[ring];
    MakeRoomRings(h, ring, need);
    if Capacity(ring) - Used(r) < need {
      EvictKeepsInv(h, ring);
      var e := Evict(h, ring);
      MakeRoomRings(e, ring, need);
      MakeRoomClients(e, ring, need);
      var h' := MakeRoom(h, ring, need);
      var base := h'.rings[ring].base;
      forall i | 0 <= i < CLIENTS
        ensures Overtaken(h.clients[i], h'.clients[i], ring, r.log, base)
      {
        assert ClientInv(h.clients[i], h.rings);
        OvertakenStep(h.clients[i], e.clients[i], h'.clients[i], ring, r.log, r.base, base);
      }
    } else {
      forall i | 0 <= i < CLIENTS
        ensures Overtaken(h.clients[i], h.clients[i], ring, r.log, r.base)
      {
        assert ClientInv(h.clients[i], h.rings);
      }
    }
  }

  /** What making room means: the log is untouched, nothing is evicted beyond the need, and a client is
   *  moved and flagged exactly for the frames it had not read yet. */
  lemma MakeRoomEffect(h: Hub, ring: nat, need: nat)
    requires HubInv(h) && ring < 2 && need <= Capacity(ring)
    ensures var h' := MakeRoom(h, ring, need);
      && h'.rings[1 - ring] == h.rings[1 - ring]
      && h'.rings[ring].log == h.rings[ring].log
      && h.rings[ring].base <= h'.rings[ring].base
      && (h.rings[ring].base < h'.rings[ring].base ==>
            Off(h.rings[ring].log, |h.rings[ring].log|) - Off(h.rings[ring].log, h'.rings[ring].base - 1)
            > Capacity(ring) - need)
      && (forall i :: 0 <= i < CLIENTS ==>
            Overtaken(h.clients[i], h'.clients[i], ring, h.rings[ring].log, h'.rings[ring].base))
      && h'.resyncs == h.resyncs && h'.oversize == h.oversize
  {
    MakeRoomRings(h, ring, need);
    MakeRoomClients(h, ring, need);
  }

  lemma OvertakenStep(c: HubClient, e: HubClient, c': HubClient, ring: nat, log: seq<Frame>, first: nat, base: nat)
    requires ring < 2 && first < base <= |log|
    requires c.used ==> first <= c.next[ring]
    requires e == PassEvicted(c, ring, first, log[first])
    requires Overtaken(e, c', ring, log, base)
    ensures Overtaken(c, c', ring, log, base)
  {
    if c.used && c.next[ring] == first {
      assert e.next[ring] == first + 1;
      if base == first + 1 {
        assert c'.resync <==> c.resync || Addressed(log[first], c.fd);
      }
    }
  }

  // --- taking ---

  /** The first frame from `from` on that this client gets. */
  function NextFor(log: seq<Frame>, from: nat, fd: int): (k: nat)
    requires from <= |log|
    ensures from <= k <= |log|
    ensures k < |log| ==> Addressed(log[k], fd)
    ensures forall j :: from <= j < k ==> !Addressed(log[j], fd)
    decreases |log| - from
  {
    if from == |log| || Addressed(log[from], fd) then from else NextFor(log, from + 1, fd)
  }

  /** The client's position after looking through one ring, and what it took there. */
  function TakeFrom(c: HubClient, ring: nat, log: seq<Frame>): (r: (HubClient, Message))
    requires ring < 2 && c.next[ring] <= |log|
  {
    var k := NextFor(log, c.next[ring], c.fd);
    if k < |log| then (c.(next := c.next[ring := k + 1]), Text(ring, log[k]))
    else (c.(next := c.next[ring := k]), Nothing)
  }

  function TakeNext(c: HubClient, rings: seq<HubRing>): (HubClient, Message)
    requires |rings| == 2 && ClientInv(c, rings) && c.used
  {
    if c.resync then (c.(resync := false), Resync)
    else if c.statusWanted then (c.(statusWanted := false), Status)
    else
      var (c0, m0) := TakeFrom(c, REPLY, rings[REPLY].log);
      if m0.Text? then (c0, m0) else TakeFrom(c0, EVENT, rings[EVENT].log)
  }

  /** Something to take, or frames of others still to pass over. */
  predicate HasMore(c: HubClient, rings: seq<HubRing>)
    requires |rings| == 2
  {
    c.resync || c.statusWanted || c.next[0] != |rings[0].log| || c.next[1] != |rings[1].log|
  }

  /** The client's socket has been full for too long, counted from `first` on if it was not full before. */
  predicate Overdue(g: Hub, fd: int, first: nat, now: nat) {
    var i := Find(g.clients, fd, 0);
    && i < |g.clients|
    && Wrap(now - (if g.clients[i].stalledSince == 0 then first else g.clients[i].stalledSince)) > STALL_CLOSE_MS
  }

  // --- steps ---

  function Step(h: Hub, op: Op): (Hub, Message)
    requires HubInv(h) && OpOk(op)
  {
    match op
    case Connect(fd) =>
      var k := SlotFor(h.clients, fd);
      if k < |h.clients|
      then (WithClient(h, k, HubClient(true, false, false, fd, [|h.rings[0].log|, |h.rings[1].log|], 0)), Nothing)
      else (h, Nothing)
    case Disconnect(fd) =>
      var k := Find(h.clients, fd, 0);
      if k < |h.clients| then (WithClient(h, k, h.clients[k].(used := false)), Nothing) else (h, Nothing)
    case Post(text) => (Append(h, EVENT, Frame(BROADCAST, text)), Nothing)
    case Reply(fd, text) =>
      var k := Find(h.clients, fd, 0);
      if k < |h.clients|
      then
        assert ClientInv(h.clients[k], h.rings);
        (Append(h, REPLY, Frame(fd, text)), Nothing)
      else (h, Nothing)
    case WantStatus(fd) =>
      var k := Find(h.clients, fd, 0);
      if k < |h.clients| then (WithClient(h, k, h.clients[k].(statusWanted := true)), Nothing) else (h, Nothing)
    case NoteDropped =>
      (h.(dropped := Wrap(h.dropped + 1), clients := FlagAll(h.clients)), Nothing)
    case TooLong => (h.(oversize := Wrap(h.oversize + 1)), Nothing)
    case Take(fd) =>
      var k := Find(h.clients, fd, 0);
      if k < |h.clients|
      then
        assert ClientInv(h.clients[k], h.rings);
        var (c, m) := TakeNext(h.clients[k], h.rings);
        (WithClient(h.(resyncs := if m == Resync then Wrap(h.resyncs + 1) else h.resyncs), k, c), m)
      else (h, Nothing)
    case Stall(fd, now) =>
      var k := Find(h.clients, fd, 0);
      if k < |h.clients| && h.clients[k].stalledSince == 0
      then (WithClient(h, k, h.clients[k].(stalledSince := now)), Nothing) else (h, Nothing)
    case Resume(fd, stalled) =>
      var k := Find(h.clients, fd, 0);
      if k < |h.clients| && !stalled
      then (WithClient(h, k, h.clients[k].(stalledSince := 0)), Nothing) else (h, Nothing)
  }

  lemma WithClientInv(h: Hub, k: nat, c: HubClient)
    requires HubInv(h) && k < CLIENTS && ClientInv(c, h.rings)
    requires c.used ==> forall j :: 0 <= j < CLIENTS && j != k && h.clients[j].used ==> h.clients[j].fd != c.fd
    ensures HubInv(WithClient(h, k, c))
  {
  }

  lemma AppendRing(r: HubRing, f: Frame, capacity: nat)
    requires RingInv(r, capacity) && FrameOk(f) && Used(r) + Size(f) <= capacity
    ensures RingInv(r.(log := r.log + [f]), capacity)
  {
    OffExtend(r.log, f, |r.log|);
    OffExtend(r.log, f, r.base);
  }

  lemma AppendInv(h: Hub, ring: nat, f: Frame)
    requires HubInv(h) && ring < 2 && FrameOk(f)
    ensures HubInv(Append(h, ring, f))
  {
    var room := MakeRoom(h, ring, Size(f));
    AppendRing(room.rings[ring], f, Capacity(ring));
    GrowInv(room, ring, f);
  }

  lemma GrowInv(room: Hub, ring: nat, f: Frame)
    requires HubInv(room) && ring < 2
    requires RingInv(Grown(room, ring, f).rings[ring], Capacity(ring))
    ensures HubInv(Grown(room, ring, f))
  {
    forall i | 0 <= i < CLIENTS
      ensures ClientInv(room.clients[i], Grown(room, ring, f).rings)
    {
      assert ClientInv(room.clients[i], room.rings);
    }
  }

  lemma FlagAllInv(h: Hub)
    requires HubInv(h)
    ensures HubInv(h.(clients := FlagAll(h.clients)))
  {
    var cs := FlagAll(h.clients);
    forall i | 0 <= i < CLIENTS
      ensures ClientInv(cs[i], h.rings)
    {
      assert ClientInv(h.clients[i], h.rings);
    }
  }

  lemma TakeNextInv(c: HubClient, rings: seq<HubRing>)
    requires |rings| == 2 && ClientInv(c, rings) && c.used
    ensures var c' := TakeNext(c, rings).0; ClientInv(c', rings) && c'.used && c'.fd == c.fd
  {
  }

  lemma TakeInv(h: Hub, fd: int)
    requires HubInv(h)
    ensures HubInv(Step(h, Take(fd)).0)
  {
    var k := Find(h.clients, fd, 0);
    if k < CLIENTS {
      assert ClientInv(h.clients[k], h.rings);
      TakeNextInv(h.clients[k], h.rings);
      var h' := Step(h, Take(fd)).0;
      WithClientInv(h.(resyncs := h'.resyncs), k, h'.clients[k]);
    }
  }

  /** Every locked section keeps the invariant: whole frames within the capacity, and every used
   *  client's position between the oldest and the newest frame. */
  lemma StepKeepsInv(h: Hub, op: Op)
    requires HubInv(h) && OpOk(op)
    ensures HubInv(Step(h, op).0)
  {
    match op
    case Connect(fd) => ConnectInv(h, fd);
    case Post(text) => AppendInv(h, EVENT, Frame(BROADCAST, text));
    case Reply(fd, text) =>
      var k := Find(h.clients, fd, 0);
      if k < CLIENTS {
        assert ClientInv(h.clients[k], h.rings);
        AppendInv(h, REPLY, Frame(fd, text));
      }
    case Take(fd) => TakeInv(h, fd);
    case NoteDropped => FlagAllInv(h);
    case TooLong =>
    case _ => MarkInv(h, op);
  }

  lemma ConnectInv(h: Hub, fd: int)
    requires HubInv(h) && OpOk(Connect(fd))
    ensures HubInv(Step(h, Connect(fd)).0)
  {
    var k := SlotFor(h.clients, fd);
    if k < CLIENTS {
      WithClientInv(h, k, Step(h, Connect(fd)).0.clients[k]);
    }
  }

  lemma MarkInv(h: Hub, op: Op)
    requires HubInv(h) && (op.Disconnect? || op.WantStatus? || op.Stall? || op.Resume?)
    ensures HubInv(Step(h, op).0)
  {
    var k := Find(h.clients, op.fd, 0);
    if k < CLIENTS {
      assert ClientInv(h.clients[k], h.rings);
      WithClientInv(h, k, Step(h, op).0.clients[k]);
    }
  }

  /** A socket is connected behind a connect if and only if it was before or an entry was unused. Then exactly its
   *  entry changes: no marks, and both positions at the ends of the logs. */
  lemma ConnectExact(h: Hub, fd: int)
    requires HubInv(h) && OpOk(Connect(fd))
    ensures var h' := Step(h, Connect(fd)).0;
      && (Connected(h', fd) <==> Connected(h, fd) || HasRoom(h))
      && (if Connected(h', fd)
          then exists k :: EntryFor(h.clients, fd, k)
                 && h' == WithClient(h, k, HubClient(true, false, false, fd, [|h.rings[0].log|, |h.rings[1].log|], 0))
          else h' == h)
  {
    SlotIsEntry(h, fd);
    var k := SlotFor(h.clients, fd);
    if k < CLIENTS {
      assert EntryFor(h.clients, fd, k);
      assert Step(h, Connect(fd)).0.clients[k].fd == fd;
    }
  }

  // --- runs ---

  ghost predicate OpsOk(ops: seq<Op>) {
    forall i :: 0 <= i < |ops| ==> OpOk(ops[i])
  }

  lemma InitInv()
    ensures HubInv(Init())
  {
  }

  ghost function RunFrom(h: Hub, ops: seq<Op>): (h': Hub)
    requires HubInv(h) && OpsOk(ops)
    ensures HubInv(h')
    decreases |ops|
  {
    if ops == [] then h
    else
      var last := RunFrom(h, ops[..|ops| - 1]);
      StepKeepsInv(last, ops[|ops| - 1]);
      Step(last, ops[|ops| - 1]).0
  }

  ghost function Run(ops: seq<Op>): (h: Hub)
    requires OpsOk(ops)
    ensures HubInv(h)
  {
    InitInv();
    RunFrom(Init(), ops)
  }

  lemma RunAppend(h: Hub, ops: seq<Op>, op: Op)
    requires HubInv(h) && OpsOk(ops) && OpOk(op)
    ensures OpsOk(ops + [op]) && RunFrom(h, ops + [op]) == Step(RunFrom(h, ops), op).0
  {
    assert (ops + [op])[..|ops|] == ops;
  }

  lemma OneStep(h: Hub, op: Op)
    requires HubInv(h) && OpOk(op)
    ensures OpsOk([op]) && RunFrom(h, [op]) == Step(h, op).0
  {
    assert [op][..0] == [];
    assert RunFrom(h, []) == h;
  }
}
