/** Passes of bd_ws_out.cpp as runs of the queue machine, and what they come to for each client. */
module WsTurns {
  import opened Words
  import opened WsFrames
  import opened WsHub
  import opened WsSockets

  // --- runs with messages taken ---

  /** The messages taken in a run, with the socket each was for. */
  ghost function Taken(h: Hub, ops: seq<Op>): seq<(int, Message)>
    requires HubInv(h) && OpsOk(ops)
    decreases |ops|
  {
    if ops == [] then []
    else
      var before, op := ops[..|ops| - 1], ops[|ops| - 1];
      Taken(h, before)
      + if op.Take? && Step(RunFrom(h, before), op).1 != Nothing then [(op.fd, Step(RunFrom(h, before), op).1)] else []
  }

  lemma TakenAppend(h: Hub, ops: seq<Op>, op: Op)
    requires HubInv(h) && OpsOk(ops) && OpOk(op)
    ensures OpsOk(ops + [op])
    ensures Taken(h, ops + [op]) == Taken(h, ops) +
      if op.Take? && Step(RunFrom(h, ops), op).1 != Nothing then [(op.fd, Step(RunFrom(h, ops), op).1)] else []
  {
    assert (ops + [op])[..|ops|] == ops;
  }

  lemma StepConnects(h: Hub, op: Op, fd: int)
    requires HubInv(h) && OpOk(op) && !op.Connect? && !Connected(h, fd)
    ensures !Connected(Step(h, op).0, fd)
  {
    var h' := Step(h, op).0;
    if op.Post? {
      MakeRoomEffect(h, EVENT, Size(Frame(BROADCAST, op.text)));
    } else if op.Reply? && Find(h.clients, op.fd, 0) < CLIENTS {
      assert ClientInv(h.clients[Find(h.clients, op.fd, 0)], h.rings);
      MakeRoomEffect(h, REPLY, Size(Frame(op.fd, op.text)));
    } else if op.Take? && Find(h.clients, op.fd, 0) < CLIENTS {
      assert ClientInv(h.clients[Find(h.clients, op.fd, 0)], h.rings);
    }
    assert forall i :: 0 <= i < CLIENTS && h'.clients[i].used ==> h.clients[i].used && h'.clients[i].fd == h.clients[i].fd;
  }

  /** After a close no client has the socket. */
  lemma ClosedIsGone(h: Hub, fd: int)
    requires HubInv(h)
    ensures !Connected(Step(h, Disconnect(fd)).0, fd)
  {
  }

  // --- what a pass keeps ---

  /** Connections are made by the task that runs the pass, so none is made during one. */
  ghost predicate NoConnect(ops: seq<Op>) {
    forall i :: 0 <= i < |ops| ==> !ops[i].Connect?
  }

  /** A socket closed has no client any more. */
  ghost predicate Gone(g: Hub, log: seq<Act>) {
    forall i {:trigger log[i]} :: 0 <= i < |log| && log[i].Closed? ==> !Connected(g, log[i].fd)
  }

  /** A client is only removed along with closing its socket. */
  ghost predicate RemovedClosed(ops: seq<Op>, log: seq<Act>) {
    forall i {:trigger ops[i]} :: 0 <= i < |ops| && ops[i].Disconnect? ==> Closed(ops[i].fd) in log
  }

  /** Every message taken went to its socket, in order. */
  ghost predicate InStep(h: Hub, ops: seq<Op>, log: seq<Act>) {
    && HubInv(h) && OpsOk(ops) && NoConnect(ops)
    && Taken(h, ops) == Handed(log) && RemovedClosed(ops, log) && Gone(RunFrom(h, ops), log)
  }

  lemma GoneStays(g: Hub, op: Op, log: seq<Act>)
    requires HubInv(g) && OpOk(op) && !op.Connect? && Gone(g, log)
    ensures Gone(Step(g, op).0, log)
  {
    forall i | 0 <= i < |log| && log[i].Closed?
      ensures !Connected(Step(g, op).0, log[i].fd)
    {
      StepConnects(g, op, log[i].fd);
    }
  }

  lemma GoneMore(g: Hub, log: seq<Act>, a: Act)
    requires Gone(g, log) && (a.Closed? ==> !Connected(g, a.fd))
    ensures Gone(g, log + [a])
  {
  }

  lemma RemovedMore(ops: seq<Op>, op: Op, log: seq<Act>, log': seq<Act>)
    requires RemovedClosed(ops, log) && log <= log' && (op.Disconnect? ==> Closed(op.fd) in log')
    ensures RemovedClosed(ops + [op], log')
  {
    forall a | a in log
      ensures a in log'
    {
    }
  }

  /** One more section, with what it says to the sockets: nothing, or the message it took. */
  lemma NextStep(h: Hub, ops: seq<Op>, op: Op, log: seq<Act>)
    requires InStep(h, ops, log) && OpOk(op) && !op.Connect? && !op.Disconnect?
    ensures OpsOk(ops + [op]) && RunFrom(h, ops + [op]) == Step(RunFrom(h, ops), op).0
    ensures var m := if op.Take? then Step(RunFrom(h, ops), op).1 else Nothing;
      if m == Nothing then InStep(h, ops + [op], log)
      else forall ok :: InStep(h, ops + [op], log + [Sent(op.fd, m, ok)])
  {
    RunAppend(h, ops, op);
    TakenAppend(h, ops, op);
    GoneStays(RunFrom(h, ops), op, log);
    RemovedMore(ops, op, log, log);
    var m := if op.Take? then Step(RunFrom(h, ops), op).1 else Nothing;
    if m != Nothing {
      forall ok
        ensures InStep(h, ops + [op], log + [Sent(op.fd, m, ok)])
      {
        var a := Sent(op.fd, m, ok);
        HandedMore(log, a);
        GoneMore(Step(RunFrom(h, ops), op).0, log, a);
        RemovedMore(ops, op, log, log + [a]);
      }
    }
  }

  /** A question to the outside. */
  lemma NextAct(h: Hub, ops: seq<Op>, log: seq<Act>, a: Act)
    requires InStep(h, ops, log) && (a.Asked? || a.Clock?)
    ensures InStep(h, ops, log + [a])
  {
    HandedMore(log, a);
    GoneMore(RunFrom(h, ops), log, a);
  }

  /** A client is removed and its socket closed. */
  lemma NextClose(h: Hub, ops: seq<Op>, log: seq<Act>, fd: int)
    requires InStep(h, ops, log)
    ensures InStep(h, ops + [Disconnect(fd)], log + [Closed(fd)])
    ensures RunFrom(h, ops + [Disconnect(fd)]) == Step(RunFrom(h, ops), Disconnect(fd)).0
  {
    var op, g := Disconnect(fd), Step(RunFrom(h, ops), Disconnect(fd)).0;
    RunAppend(h, ops, op);
    TakenAppend(h, ops, op);
    GoneStays(RunFrom(h, ops), op, log);
    HandedMore(log, Closed(fd));
    ClosedIsGone(RunFrom(h, ops), fd);
    GoneMore(g, log, Closed(fd));
    RemovedMore(ops, op, log, log + [Closed(fd)]);
  }

  // --- other tasks ---

  /** What other tasks do to the queues. */
  predicate Foreign(op: Op) {
    op.Post? || op.Reply? || op.WantStatus? || op.NoteDropped? || op.TooLong?
  }

  /** More sections behind the earlier ones, those of other tasks. */
  ghost predicate ForeignFrom(ops0: seq<Op>, ops: seq<Op>) {
    ops0 <= ops && forall i :: |ops0| <= i < |ops| ==> Foreign(ops[i])
  }

  // --- what one client gets ---

  /** A section of this run in which the client found nothing left for it. */
  ghost predicate CaughtUp(h: Hub, ops: seq<Op>, fd: int)
    requires HubInv(h) && OpsOk(ops)
  {
    exists k :: 0 <= k < |ops| && TookNothing(h, ops, k, fd)
  }

  ghost predicate TookNothing(h: Hub, ops: seq<Op>, k: nat, fd: int)
    requires HubInv(h) && OpsOk(ops) && k < |ops|
  {
    ops[k] == Take(fd) && Step(RunFrom(h, ops[..k]), Take(fd)).1 == Nothing
  }

  /** A writable client is fed until a send fails, its socket is full, nothing is left for it, or it had eight. */
  ghost predicate Fed(h: Hub, ops: seq<Op>, seg: seq<Act>, fd: int)
    requires HubInv(h) && OpsOk(ops)
  {
    && seg != [] && seg[0] == Asked(fd, true) && Chain(seg) && Sends(seg) <= FRAMES_PER_PASS
    && var last := seg[|seg| - 1];
    && (last.Closed? || last.Asked?)
    && (last.Asked? && last.writable ==> Sends(seg) == FRAMES_PER_PASS || CaughtUp(h, ops, fd))
    && (last.Asked? ==> Resume(fd, !last.writable) in ops)
  }

  /** The section that notes the full socket, and what follows from the clock. */
  ghost predicate Judged(h: Hub, ops: seq<Op>, k: nat, seg: seq<Act>, fd: int)
    requires HubInv(h) && OpsOk(ops) && k < |ops| && Waited(seg, fd)
  {
    && ops[k] == Stall(fd, seg[1].ms)
    && (|seg| == 4 <==> Overdue(RunFrom(h, ops[..k]), fd, seg[1].ms, seg[2].ms))
  }

  /** A client with a full socket gets nothing, and is closed exactly if that has lasted too long. */
  ghost predicate PutOff(h: Hub, ops: seq<Op>, seg: seq<Act>, fd: int)
    requires HubInv(h) && OpsOk(ops)
  {
    Waited(seg, fd) && exists k :: 0 <= k < |ops| && Judged(h, ops, k, seg, fd)
  }

  ghost predicate Handled(h: Hub, ops: seq<Op>, seg: seq<Act>, fd: int)
    requires HubInv(h) && OpsOk(ops)
  {
    Fed(h, ops, seg, fd) || PutOff(h, ops, seg, fd)
  }

  lemma SameSection(h: Hub, ops: seq<Op>, ops': seq<Op>, k: nat)
    requires HubInv(h) && OpsOk(ops) && OpsOk(ops') && ops <= ops' && k < |ops|
    ensures ops'[k] == ops[k] && RunFrom(h, ops'[..k]) == RunFrom(h, ops[..k])
  {
    assert ops'[..k] == ops[..k];
  }

  lemma CaughtUpLater(h: Hub, ops: seq<Op>, ops': seq<Op>, fd: int)
    requires HubInv(h) && OpsOk(ops) && OpsOk(ops') && ops <= ops' && CaughtUp(h, ops, fd)
    ensures CaughtUp(h, ops', fd)
  {
    var k :| 0 <= k < |ops| && TookNothing(h, ops, k, fd);
    SameSection(h, ops, ops', k);
    assert TookNothing(h, ops', k, fd);
  }

  lemma PutOffLater(h: Hub, ops: seq<Op>, ops': seq<Op>, seg: seq<Act>, fd: int)
    requires HubInv(h) && OpsOk(ops) && OpsOk(ops') && ops <= ops' && PutOff(h, ops, seg, fd)
    ensures PutOff(h, ops', seg, fd)
  {
    var k :| 0 <= k < |ops| && Judged(h, ops, k, seg, fd);
    SameSection(h, ops, ops', k);
    assert Judged(h, ops', k, seg, fd);
  }

  lemma FedLater(h: Hub, ops: seq<Op>, ops': seq<Op>, seg: seq<Act>, fd: int)
    requires HubInv(h) && OpsOk(ops) && OpsOk(ops') && ops <= ops' && Fed(h, ops, seg, fd)
    ensures Fed(h, ops', seg, fd)
  {
    if CaughtUp(h, ops, fd) {
      CaughtUpLater(h, ops, ops', fd);
    }
  }

  /** What was true of a client stays true in the longer run. */
  lemma HandledLater(h: Hub, ops: seq<Op>, ops': seq<Op>, seg: seq<Act>, fd: int)
    requires HubInv(h) && OpsOk(ops) && OpsOk(ops') && ops <= ops' && Handled(h, ops, seg, fd)
    ensures Handled(h, ops', seg, fd)
  {
    if Fed(h, ops, seg, fd) {
      FedLater(h, ops, ops', seg, fd);
    } else {
      PutOffLater(h, ops, ops', seg, fd);
    }
  }

  /** A served client, not stalled, was seen to have more. */
  ghost predicate SawMore(h: Hub, ops: seq<Op>, k: nat)
    requires HubInv(h) && OpsOk(ops) && k < |ops|
  {
    ops[k].Resume? && !ops[k].stalled && MoreFor(RunFrom(h, ops[..k]), ops[k].fd)
  }

  predicate MoreFor(g: Hub, fd: int) {
    var i := Find(g.clients, fd, 0);
    i < |g.clients| && |g.rings| == 2 && HasMore(g.clients[i], g.rings)
  }

  /** More sections behind the earlier ones, none of which is the last one of a served client. */
  ghost predicate Unresumed(ops0: seq<Op>, ops: seq<Op>) {
    ops0 <= ops && forall i :: |ops0| <= i < |ops| ==> !ops[i].Resume?
  }

  lemma ForeignMore(ops0: seq<Op>, ops: seq<Op>, op: Op)
    requires ForeignFrom(ops0, ops) && Foreign(op)
    ensures ForeignFrom(ops0, ops + [op])
  {
  }

  /** A section of the pass itself behind those of other tasks. */
  lemma OwnSection(ops0: seq<Op>, before: seq<Op>, op: Op, ops: seq<Op>)
    requires ForeignFrom(ops0, before) && !op.Resume? && ops == before + [op]
    ensures Unresumed(ops0, ops) && ops[..|before|] == before && ops[|before|] == op
  {
    forall i | |ops0| <= i < |ops|
      ensures !ops[i].Resume?
    {
      assert i < |before| ==> Foreign(before[i]);
    }
  }

  /** Whether the pass has to come again, with the sections from here on. */
  ghost predicate AgainFor(h: Hub, ops: seq<Op>, from: nat, more: bool)
    requires HubInv(h) && OpsOk(ops)
  {
    more <==> exists k :: from <= k < |ops| && SawMore(h, ops, k)
  }

  lemma NoneResumed(h: Hub, ops0: seq<Op>, ops: seq<Op>)
    requires HubInv(h) && OpsOk(ops) && Unresumed(ops0, ops)
    ensures AgainFor(h, ops, |ops0|, false)
  {
  }

  lemma OneResumed(h: Hub, ops0: seq<Op>, before: seq<Op>, fd: int, stalled: bool, ops: seq<Op>, more: bool)
    requires HubInv(h) && OpsOk(before) && ForeignFrom(ops0, before)
    requires OpsOk(ops) && ops == before + [Resume(fd, stalled)]
    requires more <==> !stalled && MoreFor(RunFrom(h, before), fd)
    ensures AgainFor(h, ops, |ops0|, more)
  {
    var k := |before|;
    assert ops[..k] == before;
    assert SawMore(h, ops, k) <==> more;
    forall i | |ops0| <= i < k
      ensures !SawMore(h, ops, i)
    {
      assert Foreign(before[i]) && ops[i] == before[i];
    }
  }

  lemma AgainFrom(h: Hub, ops0: seq<Op>, fed: seq<Op>, ops: seq<Op>, more: bool)
    requires HubInv(h) && OpsOk(ops) && Unresumed(ops0, fed) && fed <= ops && AgainFor(h, ops, |fed|, more)
    ensures AgainFor(h, ops, |ops0|, more)
  {
    forall k | |ops0| <= k < |fed|
      ensures !SawMore(h, ops, k)
    {
      assert !fed[k].Resume? && ops[k] == fed[k];
    }
  }

  // --- how serving a client ends ---

  ghost predicate FeedingEnds(h: Hub, ops: seq<Op>, seg: seq<Act>, fd: int, stalled: bool)
    requires HubInv(h) && OpsOk(ops)
  {
    && Feeding(seg, fd, Sends(seg), !stalled) && Sends(seg) <= FRAMES_PER_PASS
    && (!stalled ==> Sends(seg) == FRAMES_PER_PASS || CaughtUp(h, ops, fd))
  }

  lemma FeedingDone(h: Hub, fed: seq<Op>, ops: seq<Op>, seg: seq<Act>, fd: int, stalled: bool)
    requires HubInv(h) && OpsOk(fed) && OpsOk(ops) && fed <= ops && Resume(fd, stalled) in ops
    requires FeedingEnds(h, fed, seg, fd, stalled)
    ensures AllAbout(seg, fd) && Handled(h, ops, seg, fd)
  {
    if CaughtUp(h, fed, fd) {
      CaughtUpLater(h, fed, ops, fd);
    }
    assert Fed(h, ops, seg, fd);
  }

  lemma BrokenEnds(h: Hub, ops: seq<Op>, seg: seq<Act>, fd: int)
    requires HubInv(h) && OpsOk(ops) && SendFailed(seg, fd)
    ensures AllAbout(seg + [Closed(fd)], fd) && Handled(h, ops, seg + [Closed(fd)], fd)
  {
    Longer(seg, Closed(fd));
    assert Fed(h, ops, seg + [Closed(fd)], fd);
  }

  lemma WaitEnds(h: Hub, noted: seq<Op>, ops: seq<Op>, k: nat, seg: seq<Act>, fd: int)
    requires HubInv(h) && OpsOk(noted) && OpsOk(ops) && noted <= ops && k < |noted| && Waited(seg, fd)
    requires noted[k] == Stall(fd, seg[1].ms)
    requires |seg| == 4 <==> Overdue(RunFrom(h, noted[..k]), fd, seg[1].ms, seg[2].ms)
    ensures PutOff(h, ops, seg, fd)
  {
    SameSection(h, noted, ops, k);
    assert Judged(h, ops, k, seg, fd);
  }

  // --- all clients ---

  ghost predicate PendingAt(h: Hub, fd: int)
    requires HubInv(h)
  {
    exists i :: 0 <= i < CLIENTS && h.clients[i].used && h.clients[i].fd == fd && HasMore(h.clients[i], h.rings)
  }

  /** Every client of the list up to i was handled, and no other socket was touched. */
  ghost predicate HandledUpTo(h: Hub, ops: seq<Op>, log: seq<Act>, fds: seq<int>, i: nat)
    requires HubInv(h) && OpsOk(ops) && i <= |fds|
  {
    forall fd :: if fd in fds[..i] then Handled(h, ops, About(log, fd), fd) else About(log, fd) == []
  }

  lemma OneHandled(h: Hub, ops0: seq<Op>, ops: seq<Op>, log: seq<Act>, seg: seq<Act>, fds: seq<int>, i: nat)
    requires HubInv(h) && OpsOk(ops0) && OpsOk(ops) && ops0 <= ops && i < |fds| && fds[i] !in fds[..i]
    requires HandledUpTo(h, ops0, log, fds, i) && AllAbout(seg, fds[i]) && Handled(h, ops, seg, fds[i])
    ensures HandledUpTo(h, ops, log + seg, fds, i + 1)
  {
    assert fds[..i + 1] == fds[..i] + [fds[i]];
    forall fd
      ensures if fd in fds[..i + 1] then Handled(h, ops, About(log + seg, fd), fd) else About(log + seg, fd) == []
    {
      AboutMore(log, seg, fds[i], fd);
      if fd in fds[..i] {
        assert About(log + seg, fd) == About(log, fd);
        HandledLater(h, ops0, ops, About(log, fd), fd);
      } else if fd == fds[i] {
        assert About(log + seg, fd) == seg;
      }
    }
  }

  lemma AgainLater(h: Hub, ops0: seq<Op>, ops: seq<Op>, more: bool, again: bool)
    requires HubInv(h) && OpsOk(ops0) && OpsOk(ops) && ops0 <= ops
    requires AgainFor(h, ops0, 0, more) && AgainFor(h, ops, |ops0|, again)
    ensures AgainFor(h, ops, 0, more || again)
  {
    forall k | 0 <= k < |ops0|
      ensures SawMore(h, ops, k) <==> SawMore(h, ops0, k)
    {
      SameSection(h, ops0, ops, k);
    }
  }

  lemma FedThenClosed(h: Hub, ops: seq<Op>, seg: seq<Act>, fd: int, i: nat)
    requires HubInv(h) && OpsOk(ops) && Fed(h, ops, seg, fd) && i < |seg| && seg[i].Sent? && !seg[i].ok
    ensures i + 1 < |seg| && seg[i + 1].Closed?
  {
    assert i != |seg| - 1;
    assert FollowsAt(seg, i);
  }

  /** A send that failed is followed by the close. */
  lemma FailedThenClosed(h: Hub, ops: seq<Op>, seg: seq<Act>, fd: int, i: nat)
    requires HubInv(h) && OpsOk(ops) && Handled(h, ops, seg, fd) && i < |seg| && seg[i].Sent? && !seg[i].ok
    ensures i + 1 < |seg| && seg[i + 1].Closed?
  {
    if PutOff(h, ops, seg, fd) {
      WaitedQuiet(seg, fd);
    } else {
      FedThenClosed(h, ops, seg, fd, i);
    }
  }

  /** A client still connected behind the pass was sent every message taken for it. */
  lemma ConnectedGotAll(h: Hub, ops: seq<Op>, log: seq<Act>, a: Act)
    requires InStep(h, ops, log) && Connected(RunFrom(h, ops), a.fd) && a.Sent? && a in log
    requires Handled(h, ops, About(log, a.fd), a.fd)
    ensures a.ok
  {
    AboutHas(log, a);
    if !a.ok {
      var seg := About(log, a.fd);
      var i :| 0 <= i < |seg| && seg[i] == a;
      FailedThenClosed(h, ops, seg, a.fd, i);
      AboutOnly(log, a.fd, seg[i + 1]);
    }
  }

  /** No client gets more than eight messages in a pass. */
  lemma AtMostEight(h: Hub, ops: seq<Op>, seg: seq<Act>, fd: int)
    requires HubInv(h) && OpsOk(ops) && Handled(h, ops, seg, fd)
    ensures Sends(seg) <= FRAMES_PER_PASS
  {
    if PutOff(h, ops, seg, fd) {
      WaitedQuiet(seg, fd);
      NoSends(seg);
    }
  }
}
