/** Which of the frames ever accepted are still in the rings of bd_ws_out.cpp. */
module WsWindow {
  import opened Words
  import opened WsFrames
  import opened WsHub
  import opened WsDelivery

  /** The last frame evicted would not fit any more. */
  predicate Lean(r: HubRing, capacity: nat) {
    r.base <= |r.log| && (r.base > 0 ==> Off(r.log, |r.log|) - Off(r.log, r.base - 1) > capacity)
  }

  lemma LeanGrown(r: HubRing, base: nat, f: Frame, capacity: nat, r': HubRing)
    requires Lean(r, capacity) && r.base <= base <= |r.log| && r' == HubRing(r.log + [f], base)
    requires r.base < base ==> Off(r.log, |r.log|) - Off(r.log, base - 1) > capacity - Size(f)
    ensures Lean(r', capacity)
  {
    assert Off(r'.log, |r'.log|) == Off(r.log, |r.log|) + Size(f) by {
      OffExtend(r.log, f, |r.log|);
    }
    if base > 0 {
      OffExtend(r.log, f, base - 1);
    }
  }

  lemma AppendLean(h: Hub, ring: nat, f: Frame, h': Hub)
    requires HubInv(h) && ring < 2 && FrameOk(f) && h' == Append(h, ring, f) && Lean(h.rings[ring], Capacity(ring))
    ensures |h'.rings| == 2 && Lean(h'.rings[ring], Capacity(ring)) && h'.rings[1 - ring] == h.rings[1 - ring]
  {
    var made := MakeRoom(h, ring, Size(f));
    MakeRoomRings(h, ring, Size(f));
    LeanGrown(h.rings[ring], made.rings[ring].base, f, Capacity(ring), h'.rings[ring]);
  }

  lemma StepLean(h: Hub, op: Op, h': Hub)
    requires HubInv(h) && OpOk(op) && h' == Step(h, op).0
    requires Lean(h.rings[REPLY], Capacity(REPLY)) && Lean(h.rings[EVENT], Capacity(EVENT))
    ensures |h'.rings| == 2 && Lean(h'.rings[REPLY], Capacity(REPLY)) && Lean(h'.rings[EVENT], Capacity(EVENT))
  {
    if op.Post? {
      AppendLean(h, EVENT, Frame(BROADCAST, op.text), h');
    } else if op.Reply? {
      var k := Find(h.clients, op.fd, 0);
      if k < |h.clients| {
        assert ClientInv(h.clients[k], h.rings);
        AppendLean(h, REPLY, Frame(op.fd, op.text), h');
      }
    } else {
      assert h'.rings == h.rings;
    }
  }

  lemma {:induction false} RunLean(ops: seq<Op>, h: Hub)
    requires OpsOk(ops) && h == Run(ops)
    ensures Lean(h.rings[REPLY], Capacity(REPLY)) && Lean(h.rings[EVENT], Capacity(EVENT))
    decreases |ops|
  {
    if ops != [] {
      RunLean(ops[..|ops| - 1], Run(ops[..|ops| - 1]));
      StepLean(Run(ops[..|ops| - 1]), ops[|ops| - 1], h);
    }
  }

  /** In every run a frame accepted is still there exactly if the bytes from it on fit: 4 KB of replies, 16 KB of events. */
  lemma KeptExactly(ops: seq<Op>, ring: nat, k: nat)
    requires OpsOk(ops) && ring < 2 && k < |Run(ops).rings[ring].log|
    ensures var r := Run(ops).rings[ring];
      k >= r.base <==> Off(r.log, |r.log|) - Off(r.log, k) <= if ring == REPLY then 0x1000 else 0x4000
  {
    var h := Run(ops);
    RunLean(ops, h);
    RingKeeps(h.rings[ring], Capacity(ring), k);
  }

  lemma RingKeeps(r: HubRing, capacity: nat, k: nat)
    requires RingInv(r, capacity) && Lean(r, capacity) && k < |r.log|
    ensures k >= r.base <==> Off(r.log, |r.log|) - Off(r.log, k) <= capacity
  {
    if k > r.base {
      OffStrict(r.log, r.base, k);
    } else if k + 1 < r.base {
      OffStrict(r.log, k, r.base - 1);
    }
  }

  // --- whom a frame is for ---

  /** What a section puts into a ring has its text, and is for every client if it was broadcast, else for the one
   *  it answers. */
  lemma ForWhom(h: Hub, op: Op, ring: nat, f: Frame, fd: int)
    requires HubInv(h) && OpOk(op) && f in Accepts(h, op, ring)
    ensures op.Post? || op.Reply?
    ensures f.text == op.text && (Addressed(f, fd) <==> op.Post? || op.fd == fd)
  {
    if op.Reply? {
      var i :| 0 <= i < CLIENTS && h.clients[i].used && h.clients[i].fd == op.fd;
      assert ClientInv(h.clients[i], h.rings);
    }
  }

  // --- what is left for a client ---

  /** With nothing more, nothing is taken; and once nothing is taken, there is nothing more. */
  lemma MoreExact(h: Hub, c: nat)
    requires HubInv(h) && c < CLIENTS && h.clients[c].used
    ensures var (h', m) := Step(h, Take(h.clients[c].fd));
      && |h'.rings| == 2 && |h'.clients| == CLIENTS
      && (!HasMore(h.clients[c], h.rings) ==> m == Nothing)
      && (m == Nothing ==> !HasMore(h'.clients[c], h'.rings))
  {
    OwnTakeStep(h, c);
  }

  lemma OverdueAt(h: Hub, c: nat, stalls: seq<nat>, first: nat, now: nat)
    requires HubInv(h) && c < CLIENTS && h.clients[c].used && h.clients[c].stalledSince == FirstSet(stalls)
    ensures Overdue(h, h.clients[c].fd, first, now) <==> Wrap(now - FirstSet(stalls + [first])) > 30000
  {
    assert Find(h.clients, h.clients[c].fd, 0) == c;
    FirstSetMore(stalls, first);
  }

  /** A client is given up on exactly if its socket has been full for more than 30 s since it was first found full. */
  lemma OverdueExact(ops: seq<Op>, c: nat, h: Hub, stalls: seq<nat>, first: nat, now: nat)
    requires OpsOk(ops) && c < CLIENTS && h == Run(ops) && h.clients[c].used && stalls == Tale(ops, c).stalls
    ensures Overdue(h, h.clients[c].fd, first, now) <==> Wrap(now - FirstSet(stalls + [first])) > 30000
  {
    StalledSinceFirst(ops, c);
    OverdueAt(h, c, stalls, first, now);
  }
}
