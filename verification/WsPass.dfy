/**
 * send_pass of bd_ws_out.cpp: one job of the HTTP server task. Each section under the lock is a step of the queue
 * machine; between any two of them other tasks run theirs. What the pass does with the sockets is logged.
 */
module WsPass {
  import opened Words
  import opened WsFrames
  import opened WsHub
  import opened WsOut
  import opened WsSockets
  import opened WsTurns

  ghost predicate Shown(s: WsServer, h: Hub, ops: seq<Op>, log: seq<Act>)
    reads s, s.clients, s.reply, s.event, s.reply.buf, s.event.buf
  {
    InStep(h, ops, log) && s.Shows(RunFrom(h, ops))
  }

  // --- other tasks ---

  method ForeignSection(s: WsServer, ghost g: Hub) returns (ghost op: Op)
    requires s.Shows(g)
    modifies s`dropped, s`oversize, s.clients, s.reply, s.event, s.reply.buf, s.event.buf
    ensures OpOk(op) && Foreign(op) && s.Shows(Step(g, op).0)
  {
    var kind: nat := *;
    var fd: int := *;
    var text: seq<Byte> := *;
    if kind == 0 && 1 <= |text| <= MAX_FRAME {
      s.PostEvent(text, g);
      op := Post(text);
    } else if kind == 1 && 1 <= |text| <= MAX_FRAME {
      s.PostReply(fd, text, g);
      op := Reply(fd, text);
    } else if kind == 2 && |text| > MAX_FRAME {
      var fits := s.FrameFits(text, g);
      op := TooLong;
    } else if kind == 3 {
      s.NoteDroppedFrame(g);
      op := NoteDropped;
    } else {
      s.RequestStatus(fd, g);
      op := WantStatus(fd);
    }
  }

  /** Any number of sections of other tasks. */
  method OtherTasks(s: WsServer, ghost h: Hub, ghost ops0: seq<Op>, ghost log: seq<Act>) returns (ghost ops: seq<Op>)
    requires Shown(s, h, ops0, log)
    modifies s`dropped, s`oversize, s.clients, s.reply, s.event, s.reply.buf, s.event.buf
    ensures Shown(s, h, ops, log) && ForeignFrom(ops0, ops)
  {
    ops := ops0;
    var n: nat := *;
    while n > 0
      invariant Shown(s, h, ops, log) && ForeignFrom(ops0, ops)
    {
      ghost var op := ForeignSection(s, RunFrom(h, ops));
      NextStep(h, ops, op, log);
      ForeignMore(ops0, ops, op);
      ops := ops + [op];
      n := n - 1;
    }
  }

  // --- the sections and calls of a pass, each behind whatever other tasks do first ---

  method Ask(s: WsServer, net: Sockets, fd: int, ghost h: Hub, ghost ops: seq<Op>) returns (w: bool)
    requires Shown(s, h, ops, net.log)
    modifies net
    ensures Shown(s, h, ops, net.log) && net.log == old(net.log) + [Asked(fd, w)]
  {
    ghost var log := net.log;
    w := net.Writable(fd);
    NextAct(h, ops, log, Asked(fd, w));
  }

  method ReadClock(s: WsServer, net: Sockets, fd: int, ghost h: Hub, ghost ops: seq<Op>) returns (ms: nat)
    requires Shown(s, h, ops, net.log)
    modifies net
    ensures Shown(s, h, ops, net.log) && net.log == old(net.log) + [Clock(fd, ms)]
  {
    ghost var log := net.log;
    ms := net.Millis(fd);
    NextAct(h, ops, log, Clock(fd, ms));
  }

  method TakeOne(s: WsServer, fd: int, ghost h: Hub, ghost ops0: seq<Op>, ghost log: seq<Act>)
    returns (m: Message, ghost ops: seq<Op>)
    requires Shown(s, h, ops0, log)
    modifies s`dropped, s`resyncs, s`oversize, s.clients, s.reply, s.event, s.reply.buf, s.event.buf
    ensures Unresumed(ops0, ops) && HubInv(h) && OpsOk(ops) && s.Shows(RunFrom(h, ops))
    ensures if m == Nothing then InStep(h, ops, log) && CaughtUp(h, ops, fd)
            else forall ok :: InStep(h, ops, log + [Sent(fd, m, ok)])
  {
    ghost var before := OtherTasks(s, h, ops0, log);
    NextStep(h, before, Take(fd), log);
    m := s.TakeFrame(fd, RunFrom(h, before));
    ops := before + [Take(fd)];
    OwnSection(ops0, before, Take(fd), ops);
    assert m == Nothing ==> TookNothing(h, ops, |before|, fd);
  }

  /** One frame taken and given to its socket. */
  method TakeAndSend(s: WsServer, net: Sockets, fd: int, ghost h: Hub, ghost ops0: seq<Op>)
    returns (m: Message, ok: bool, ghost ops: seq<Op>)
    requires Shown(s, h, ops0, net.log)
    modifies s`dropped, s`resyncs, s`oversize, s.clients, s.reply, s.event, s.reply.buf, s.event.buf, net
    ensures Shown(s, h, ops, net.log) && Unresumed(ops0, ops)
    ensures if m == Nothing then net.log == old(net.log) && CaughtUp(h, ops, fd)
            else net.log == old(net.log) + [Sent(fd, m, ok)]
  {
    ok := true;
    m, ops := TakeOne(s, fd, h, ops0, net.log);
    if m != Nothing {
      ok := net.Send(fd, m);
    }
  }

  /** close_client */
  method CloseClient(s: WsServer, net: Sockets, fd: int, ghost h: Hub, ghost ops0: seq<Op>) returns (ghost ops: seq<Op>)
    requires Shown(s, h, ops0, net.log)
    modifies s`dropped, s`oversize, s.clients, s.reply, s.event, s.reply.buf, s.event.buf, net
    ensures Shown(s, h, ops, net.log) && net.log == old(net.log) + [Closed(fd)] && Unresumed(ops0, ops)
  {
    ghost var before := OtherTasks(s, h, ops0, net.log);
    NextClose(h, before, net.log, fd);
    s.RemoveClient(fd, RunFrom(h, before));
    net.Close(fd);
    ops := before + [Disconnect(fd)];
    OwnSection(ops0, before, Disconnect(fd), ops);
  }

  method NoteStall(s: WsServer, fd: int, first: nat, now: nat, ghost h: Hub, ghost ops0: seq<Op>, ghost log: seq<Act>)
    returns (giveUp: bool, ghost ops: seq<Op>, ghost k: nat)
    requires Shown(s, h, ops0, log)
    modifies s`dropped, s`oversize, s.clients, s.reply, s.event, s.reply.buf, s.event.buf
    ensures Shown(s, h, ops, log) && Unresumed(ops0, ops)
    ensures k < |ops| && ops[k] == Stall(fd, first) && (giveUp <==> Overdue(RunFrom(h, ops[..k]), fd, first, now))
  {
    ghost var before := OtherTasks(s, h, ops0, log);
    NextStep(h, before, Stall(fd, first), log);
    giveUp := s.NoteStalled(fd, first, now, RunFrom(h, before));
    ops, k := before + [Stall(fd, first)], |before|;
    OwnSection(ops0, before, Stall(fd, first), ops);
  }

  method NoteServed(s: WsServer, fd: int, stalled: bool, ghost h: Hub, ghost ops0: seq<Op>, ghost log: seq<Act>)
    returns (more: bool, ghost ops: seq<Op>)
    requires Shown(s, h, ops0, log)
    modifies s`dropped, s`oversize, s.clients, s.reply, s.event, s.reply.buf, s.event.buf
    ensures Shown(s, h, ops, log) && ops0 <= ops && Resume(fd, stalled) in ops && AgainFor(h, ops, |ops0|, more)
  {
    ghost var before := OtherTasks(s, h, ops0, log);
    NextStep(h, before, Resume(fd, stalled), log);
    more := s.NoteServed(fd, stalled, RunFrom(h, before));
    ops := before + [Resume(fd, stalled)];
    OneResumed(h, ops0, before, fd, stalled, ops, more);
  }

  // --- serving one client ---

  /** Up to eight frames for one client, until its socket is full, it has nothing left, or a send fails. `seg` is what
   *  was done with its socket since it was found writable. */
  method SendFrames(s: WsServer, net: Sockets, fd: int, ghost h: Hub, ghost ops0: seq<Op>, ghost base: seq<Act>)
    returns (stalled: bool, failed: bool, ghost ops: seq<Op>, ghost seg: seq<Act>)
    requires net.log == base + [Asked(fd, true)] && Shown(s, h, ops0, net.log)
    modifies s`dropped, s`resyncs, s`oversize, s.clients, s.reply, s.event, s.reply.buf, s.event.buf, net
    ensures Shown(s, h, ops, net.log) && net.log == base + seg && Unresumed(ops0, ops)
    ensures if failed then SendFailed(seg, fd) else FeedingEnds(h, ops, seg, fd, stalled)
  {
    ops, seg := ops0, [Asked(fd, true)];
    stalled, failed := false, false;
    FeedNone(fd);
    var n := 0;
    while n < FRAMES_PER_PASS && !stalled
      invariant n <= FRAMES_PER_PASS && !failed && Feeding(seg, fd, n, !stalled)
      invariant Shown(s, h, ops, net.log) && net.log == base + seg && Unresumed(ops0, ops)
    {
      var m, ok;
      m, ok, ops := TakeAndSend(s, net, fd, h, ops);
      if m == Nothing {
        return;
      }
      if !ok {
        FeedLast(seg, fd, n, m);
        Regroup(base, seg, Sent(fd, m, false));
        failed, seg := true, seg + [Sent(fd, m, false)];
        return;
      }
      var w := Ask(s, net, fd, h, ops);
      FeedOne(seg, fd, n, m, w);
      Regroup(base, seg, Sent(fd, m, true));
      Regroup(base, seg + [Sent(fd, m, true)], Asked(fd, w));
      seg := seg + [Sent(fd, m, true)] + [Asked(fd, w)];
      stalled := !w;
      n := n + 1;
    }
  }

  method ReadTwice(s: WsServer, net: Sockets, fd: int, ghost h: Hub, ghost ops: seq<Op>, ghost base: seq<Act>)
    returns (first: nat, now: nat, ghost seg: seq<Act>)
    requires net.log == base + [Asked(fd, false)] && Shown(s, h, ops, net.log)
    modifies net
    ensures seg == [Asked(fd, false), Clock(fd, first), Clock(fd, now)]
    ensures net.log == base + seg && Shown(s, h, ops, net.log)
  {
    first := ReadClock(s, net, fd, h, ops);
    now := ReadClock(s, net, fd, h, ops);
    seg := [Asked(fd, false), Clock(fd, first), Clock(fd, now)];
    assert net.log == base + seg;
  }

  method CloseIf(s: WsServer, net: Sockets, fd: int, giveUp: bool, ghost h: Hub, ghost ops0: seq<Op>,
                 ghost base: seq<Act>, ghost seg0: seq<Act>) returns (ghost ops: seq<Op>, ghost seg: seq<Act>)
    requires net.log == base + seg0 && Shown(s, h, ops0, net.log)
    modifies s`dropped, s`oversize, s.clients, s.reply, s.event, s.reply.buf, s.event.buf, net
    ensures Shown(s, h, ops, net.log) && net.log == base + seg && Unresumed(ops0, ops)
    ensures seg == seg0 + if giveUp then [Closed(fd)] else []
  {
    ops, seg := ops0, seg0;
    if giveUp {
      ops := CloseClient(s, net, fd, h, ops0);
      Regroup(base, seg0, Closed(fd));
      seg := seg0 + [Closed(fd)];
    }
  }

  /** A client whose socket is full: it is noted since when, and closed when that is too long ago. */
  method Wait(s: WsServer, net: Sockets, fd: int, ghost h: Hub, ghost ops0: seq<Op>, ghost base: seq<Act>)
    returns (ghost ops: seq<Op>, ghost seg: seq<Act>)
    requires net.log == base + [Asked(fd, false)] && Shown(s, h, ops0, net.log)
    modifies s`dropped, s`resyncs, s`oversize, s.clients, s.reply, s.event, s.reply.buf, s.event.buf, net
    ensures Shown(s, h, ops, net.log) && net.log == base + seg && Unresumed(ops0, ops)
    ensures AllAbout(seg, fd) && PutOff(h, ops, seg, fd)
  {
    var first, now;
    first, now, seg := ReadTwice(s, net, fd, h, ops0, base);
    var giveUp;
    ghost var noted, k;
    giveUp, noted, k := NoteStall(s, fd, first, now, h, ops0, net.log);
    ops, seg := CloseIf(s, net, fd, giveUp, h, noted, base, seg);
    WaitedIs(fd, first, now, giveUp, seg);
    WaitEnds(h, noted, ops, k, seg, fd);
  }

  /** One client of a pass. */
  method ServeClient(s: WsServer, net: Sockets, fd: int, ghost h: Hub, ghost ops0: seq<Op>)
    returns (more: bool, ghost ops: seq<Op>, ghost seg: seq<Act>)
    requires Shown(s, h, ops0, net.log)
    modifies s`dropped, s`resyncs, s`oversize, s.clients, s.reply, s.event, s.reply.buf, s.event.buf, net
    ensures Shown(s, h, ops, net.log) && net.log == old(net.log) + seg && ops0 <= ops
    ensures AllAbout(seg, fd) && Handled(h, ops, seg, fd) && AgainFor(h, ops, |ops0|, more)
  {
    more := false;
    ghost var base := net.log;
    var writable := Ask(s, net, fd, h, ops0);
    if !writable {
      ops, seg := Wait(s, net, fd, h, ops0, base);
      NoneResumed(h, ops0, ops);
      return;
    }
    var stalled, failed;
    ghost var fed;
    stalled, failed, fed, seg := SendFrames(s, net, fd, h, ops0, base);
    if failed {
      ops := CloseClient(s, net, fd, h, fed);
      Regroup(base, seg, Closed(fd));
      BrokenEnds(h, ops, seg, fd);
      seg := seg + [Closed(fd)];
      NoneResumed(h, ops0, ops);
      return;
    }
    more, ops := NoteServed(s, fd, stalled, h, fed, net.log);
    FeedingDone(h, fed, ops, seg, fd, stalled);
    AgainFrom(h, ops0, fed, ops, more);
  }

  // --- the pass ---

  /** The sockets of the clients with something to send. */
  method Pending(s: WsServer, ghost h: Hub) returns (fds: seq<int>)
    requires s.Shows(h)
    ensures |fds| <= CLIENTS && forall fd :: fd in fds <==> PendingAt(h, fd)
    ensures forall i, j :: 0 <= i < j < |fds| ==> fds[i] != fds[j]
  {
    fds := [];
    var i := 0;
    while i < s.clients.Length
      invariant i <= s.clients.Length && |fds| <= i
      invariant forall fd :: fd in fds <==>
                  exists j :: 0 <= j < i && h.clients[j].used && h.clients[j].fd == fd && HasMore(h.clients[j], h.rings)
      invariant forall k, l :: 0 <= k < l < |fds| ==> fds[k] != fds[l]
    {
      assert Matches(s.clients[..][i], h.clients[i], h.rings[0].log, h.rings[1].log);
      if s.clients[i].used {
        var any := s.HasFrames(i, h);
        if any {
          assert s.clients[i].fd !in fds;
          fds := fds + [s.clients[i].fd];
        }
      }
      i := i + 1;
    }
  }

  /** send_pass: whatever sockets, clock and other tasks do, every client with something to send at its start is fed or
   *  put off, no other socket is touched, every message taken goes to its socket in order, and the pass comes again
   *  exactly if a client that can take more still has some. */
  method SendPass(s: WsServer, net: Sockets, ghost h: Hub) returns (more: bool, ghost ops: seq<Op>)
    requires s.Shows(h)
    modifies s`dropped, s`resyncs, s`oversize, s.clients, s.reply, s.event, s.reply.buf, s.event.buf, net
    ensures Shown(s, h, ops, net.log)
    ensures forall fd :: if PendingAt(h, fd) then Handled(h, ops, About(net.log, fd), fd) else About(net.log, fd) == []
    ensures AgainFor(h, ops, 0, more)
  {
    more, ops, net.log := false, [], [];
    var fds := Pending(s, h);
    var i := 0;
    while i < |fds|
      invariant i <= |fds| && Shown(s, h, ops, net.log)
      invariant HandledUpTo(h, ops, net.log, fds, i) && AgainFor(h, ops, 0, more)
    {
      ghost var ops0, log0 := ops, net.log;
      var again;
      ghost var seg;
      again, ops, seg := ServeClient(s, net, fds[i], h, ops);
      OneHandled(h, ops0, ops, log0, seg, fds, i);
      AgainLater(h, ops0, ops, more, again);
      more := more || again;
      i := i + 1;
    }
    assert fds[..i] == fds;
  }
}
