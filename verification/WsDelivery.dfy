/**
 * What each websocket client is owed, told only from what can be watched: which
 * frames the rings accepted, which left a ring before the client had read them, and
 * which messages the client took. The theorems hold for every run of locked sections.
 */
module WsDelivery {
  import opened Words
  import opened WsFrames
  import opened WsHub

  /** The story of the client in one slot since it connected: how many frames each ring had
   *  accepted by then, the frames that left unread, the texts taken from each ring, whether
   *  after the last resync message it lost a frame of its own or one was dropped before the
   *  rings, whether it asked for a status it has not taken, and when its socket was found
   *  full since it was last served. */
  datatype Story = Story(since: seq<nat>, missed: seq<set<nat>>, got: seq<seq<seq<Byte>>>, owed: bool, asked: bool,
                         stalls: seq<nat>)

  const BLANK := Story([0, 0], [{}, {}], [[], []], false, false, [])

  /** The first of these times that can be told from none. */
  function FirstSet(times: seq<nat>): nat {
    if times == [] then 0 else if times[0] != 0 then times[0] else FirstSet(times[1..])
  }

  lemma {:induction false} FirstSetMore(times: seq<nat>, t: nat)
    ensures FirstSet(times + [t]) == if FirstSet(times) != 0 then FirstSet(times) else t
  {
    if times == [] {
      assert [t][1..] == [];
    } else {
      assert (times + [t])[1..] == times[1..] + [t];
      FirstSetMore(times[1..], t);
    }
  }

  ghost function Range(lo: nat, hi: nat): (s: set<nat>)
    ensures forall i :: i in s <==> lo <= i < hi
    decreases hi
  {
    if hi <= lo then {} else Range(lo, hi - 1) + {hi - 1}
  }

  /** The frames of a ring that left it in this step before the client had read them. */
  ghost function Missed(h: Hub, h': Hub, c: nat, ring: nat): set<nat>
    requires HubInv(h) && HubInv(h') && c < CLIENTS && ring < 2
  {
    assert ClientInv(h.clients[c], h.rings);
    Range(h.clients[c].next[ring], h'.rings[ring].base)
  }

  ghost predicate LostNow(h: Hub, h': Hub, c: nat, ring: nat)
    requires HubInv(h) && HubInv(h') && c < CLIENTS && ring < 2
  {
    exists i :: i in Missed(h, h', c, ring) && i < |h.rings[ring].log| && Addressed(h.rings[ring].log[i], h.clients[c].fd)
  }

  ghost predicate Shape(s: Story) {
    |s.since| == |s.missed| == |s.got| == 2
  }

  ghost predicate OwnTake(h: Hub, op: Op, c: nat)
    requires c < |h.clients|
  {
    op.Take? && op.fd == h.clients[c].fd
  }

  ghost function Tell(h: Hub, op: Op, c: nat, s: Story): Story
    requires HubInv(h) && OpOk(op) && c < CLIENTS && Shape(s)
  {
    StepKeepsInv(h, op);
    var (h', m) := Step(h, op);
    if op.Connect? && EntryFor(h.clients, op.fd, c) then
      BLANK.(since := [|h.rings[0].log|, |h.rings[1].log|])
    else if !h.clients[c].used then s
    else
      var mine, fd := OwnTake(h, op, c), h.clients[c].fd;
      Story(s.since,
            [s.missed[0] + Missed(h, h', c, 0), s.missed[1] + Missed(h, h', c, 1)],
            if mine && m.Text? && m.ring < 2 then s.got[m.ring := s.got[m.ring] + [m.frame.text]] else s.got,
            if mine && m == Resync then false
            else s.owed || op.NoteDropped? || LostNow(h, h', c, 0) || LostNow(h, h', c, 1),
            if mine && m == Status then false else s.asked || op == WantStatus(fd),
            if op.Stall? && op.fd == fd then s.stalls + [op.now] else if op == Resume(fd, false) then [] else s.stalls)
  }

  ghost function Tale(ops: seq<Op>, c: nat): (s: Story)
    requires OpsOk(ops) && c < CLIENTS
    ensures Shape(s)
    decreases |ops|
  {
    if ops == [] then BLANK
    else Tell(Run(ops[..|ops| - 1]), ops[|ops| - 1], c, Tale(ops[..|ops| - 1], c))
  }

  /** The texts for this socket among frames lo to hi, without the missed ones, in ring order. */
  ghost function Texts(log: seq<Frame>, lo: nat, hi: nat, fd: int, missed: set<nat>): seq<seq<Byte>>
    requires hi <= |log|
    decreases hi
  {
    if hi <= lo then []
    else
      Texts(log, lo, hi - 1, fd, missed)
      + if Addressed(log[hi - 1], fd) && hi - 1 !in missed then [log[hi - 1].text] else []
  }

  ghost predicate RingStory(log: seq<Frame>, fd: int, next: nat, since: nat, missed: set<nat>, got: seq<seq<Byte>>) {
    && since <= next <= |log|
    && (forall i :: i in missed ==> since <= i < next)
    && got == Texts(log, since, next, fd, missed)
  }

  ghost predicate StoryInv(h: Hub, c: nat, s: Story)
    requires HubInv(h) && c < CLIENTS && Shape(s)
  {
    var cl := h.clients[c];
    assert ClientInv(cl, h.rings);
    cl.used ==>
      && RingStory(h.rings[0].log, cl.fd, cl.next[0], s.since[0], s.missed[0], s.got[0])
      && RingStory(h.rings[1].log, cl.fd, cl.next[1], s.since[1], s.missed[1], s.got[1])
      && cl.resync == s.owed && cl.statusWanted == s.asked && cl.stalledSince == FirstSet(s.stalls)
  }

  // --- how a ring story moves on ---

  lemma {:induction false} TextsSame(log: seq<Frame>, log': seq<Frame>, lo: nat, hi: nat, fd: int,
                                     missed: set<nat>, missed': set<nat>)
    requires hi <= |log| && hi <= |log'| && log[..hi] == log'[..hi]
    requires forall i :: i < hi ==> (i in missed <==> i in missed')
    ensures Texts(log, lo, hi, fd, missed) == Texts(log', lo, hi, fd, missed')
    decreases hi
  {
    if hi > lo {
      assert log[hi - 1] == log[..hi][hi - 1] == log'[hi - 1];
      assert log[..hi - 1] == log[..hi][..hi - 1] == log'[..hi - 1];
      TextsSame(log, log', lo, hi - 1, fd, missed, missed');
    }
  }

  /** Frames not addressed or missed add nothing. */
  lemma {:induction false} TextsSkip(log: seq<Frame>, lo: nat, mid: nat, hi: nat, fd: int, missed: set<nat>)
    requires lo <= mid <= hi <= |log|
    requires forall i :: mid <= i < hi ==> !Addressed(log[i], fd) || i in missed
    ensures Texts(log, lo, hi, fd, missed) == Texts(log, lo, mid, fd, missed)
    decreases hi
  {
    if mid < hi {
      TextsSkip(log, lo, mid, hi - 1, fd, missed);
    }
  }

  /** The log grew and everything before `base` went: the frames not yet read there are missed. */
  lemma RingOvertaken(log: seq<Frame>, log': seq<Frame>, fd: int, next: nat, next': nat, base: nat, since: nat,
                      missed: set<nat>, gone: set<nat>, got: seq<seq<Byte>>)
    requires RingStory(log, fd, next, since, missed, got)
    requires log <= log' && base <= |log|
    requires gone == Range(next, base)
    requires next' == if next < base then base else next
    ensures RingStory(log', fd, next', since, missed + gone, got)
  {
    TextsSame(log, log', since, next, fd, missed, missed + gone);
    TextsSkip(log', since, next, next', fd, missed + gone);
  }

  lemma RingTaken(log: seq<Frame>, c: HubClient, ring: nat, since: nat, missed: set<nat>, got: seq<seq<Byte>>)
    requires ring < 2 && RingStory(log, c.fd, c.next[ring], since, missed, got)
    ensures var (c', m) := TakeFrom(c, ring, log);
      RingStory(log, c.fd, c'.next[ring], since, missed, if m.Text? then got + [m.frame.text] else got)
  {
    var k := NextFor(log, c.next[ring], c.fd);
    TextsSkip(log, since, c.next[ring], k, c.fd, missed);
  }

  // --- every step keeps the story true ---

  lemma NothingMissed(h: Hub, h': Hub, c: nat, s: Story)
    requires HubInv(h) && HubInv(h') && c < CLIENTS && Shape(s) && h.clients[c].used
    requires h'.rings == h.rings
    ensures s.missed[0] + Missed(h, h', c, 0) == s.missed[0] && s.missed[1] + Missed(h, h', c, 1) == s.missed[1]
    ensures !LostNow(h, h', c, 0) && !LostNow(h, h', c, 1)
  {
    assert ClientInv(h.clients[c], h.rings);
    assert Missed(h, h', c, 0) == {} && Missed(h, h', c, 1) == {};
  }

  lemma TakeNextStory(c: HubClient, rings: seq<HubRing>, s: Story)
    requires |rings| == 2 && ClientInv(c, rings) && c.used && Shape(s)
    requires RingStory(rings[0].log, c.fd, c.next[0], s.since[0], s.missed[0], s.got[0])
    requires RingStory(rings[1].log, c.fd, c.next[1], s.since[1], s.missed[1], s.got[1])
    ensures var (c', m) := TakeNext(c, rings);
      var got := if m.Text? && m.ring < 2 then s.got[m.ring := s.got[m.ring] + [m.frame.text]] else s.got;
      && RingStory(rings[0].log, c.fd, c'.next[0], s.since[0], s.missed[0], got[0])
      && RingStory(rings[1].log, c.fd, c'.next[1], s.since[1], s.missed[1], got[1])
  {
    if !c.resync && !c.statusWanted {
      RingTaken(rings[0].log, c, 0, s.since[0], s.missed[0], s.got[0]);
      var c0 := TakeFrom(c, 0, rings[0].log).0;
      RingTaken(rings[1].log, c0, 1, s.since[1], s.missed[1], s.got[1]);
    }
  }

  /** A take by the client in slot c, spelled out. */
  lemma OwnTakeStep(h: Hub, c: nat)
    requires HubInv(h) && c < CLIENTS && h.clients[c].used
    ensures ClientInv(h.clients[c], h.rings)
    ensures var (c', m) := TakeNext(h.clients[c], h.rings);
      var (h', m') := Step(h, Take(h.clients[c].fd));
      m' == m && h'.rings == h.rings && |h'.clients| == CLIENTS && h'.clients[c] == c'
  {
    assert Find(h.clients, h.clients[c].fd, 0) == c;
  }

  /** What the story takes from the client's own take of a message. */
  function Taken(s: Story, m: Message): (t: Story)
    requires Shape(s)
    ensures Shape(t)
  {
    s.(got := if m.Text? && m.ring < 2 then s.got[m.ring := s.got[m.ring] + [m.frame.text]] else s.got,
       owed := m != Resync && s.owed, asked := m != Status && s.asked)
  }

  lemma TakingTold(h: Hub, op: Op, c: nat, s: Story, h': Hub)
    requires HubInv(h) && c < CLIENTS && Shape(s) && h.clients[c].used && op == Take(h.clients[c].fd)
    requires h' == Step(h, op).0 && HubInv(h') && h'.rings == h.rings
    ensures Tell(h, op, c, s) == Taken(s, Step(h, op).1)
  {
    NothingMissed(h, h', c, s);
    assert Tell(h, op, c, s).missed == s.missed;
  }

  lemma TellTake(h: Hub, op: Op, c: nat, s: Story, h': Hub)
    requires HubInv(h) && c < CLIENTS && Shape(s) && StoryInv(h, c, s) && h.clients[c].used && op == Take(h.clients[c].fd)
    requires h' == Step(h, op).0 && HubInv(h')
    ensures StoryInv(h', c, Tell(h, op, c, s))
  {
    OwnTakeStep(h, c);
    TakeNextStory(h.clients[c], h.rings, s);
    TakingTold(h, op, c, s, h');
  }

  lemma AppendOvertakes(h: Hub, ring: nat, f: Frame, c: nat, h': Hub)
    requires HubInv(h) && ring < 2 && FrameOk(f) && Size(f) <= Capacity(ring) && h' == Append(h, ring, f) && c < CLIENTS
    ensures |h'.rings| == 2 && |h'.clients| == CLIENTS && h'.clients[c].used == h.clients[c].used
    ensures h'.rings[1 - ring] == h.rings[1 - ring] && h.rings[ring].log <= h'.rings[ring].log
    ensures h'.rings[ring].base <= |h.rings[ring].log|
    ensures Overtaken(h.clients[c], h'.clients[c], ring, h.rings[ring].log, h'.rings[ring].base)
  {
    MakeRoomEffect(h, ring, Size(f));
    var room := MakeRoom(h, ring, Size(f));
    assert h'.clients[c] == room.clients[c] && h'.rings[ring].base == room.rings[ring].base;
  }

  /** What the story takes from a section that adds a frame. */
  ghost function Told(h: Hub, h': Hub, c: nat, s: Story): (t: Story)
    requires HubInv(h) && HubInv(h') && c < CLIENTS && Shape(s)
    ensures Shape(t)
  {
    s.(missed := [s.missed[0] + Missed(h, h', c, 0), s.missed[1] + Missed(h, h', c, 1)],
       owed := s.owed || LostNow(h, h', c, 0) || LostNow(h, h', c, 1))
  }

  lemma AddingTold(h: Hub, op: Op, c: nat, s: Story, h': Hub)
    requires HubInv(h) && OpOk(op) && (op.Post? || op.Reply?) && h' == Step(h, op).0 && HubInv(h')
    requires c < CLIENTS && Shape(s)
    ensures Tell(h, op, c, s) == if h.clients[c].used then Told(h, h', c, s) else s
  {
  }

  lemma TellAppend(h: Hub, op: Op, ring: nat, f: Frame, c: nat, s: Story, h': Hub)
    requires HubInv(h) && OpOk(op) && (op.Post? || op.Reply?) && ring < 2 && FrameOk(f) && Size(f) <= Capacity(ring)
    requires h' == Step(h, op).0 && h' == Append(h, ring, f) && HubInv(h')
    requires c < CLIENTS && Shape(s) && StoryInv(h, c, s)
    ensures StoryInv(h', c, Tell(h, op, c, s))
  {
    AddingTold(h, op, c, s, h');
    AppendStory(h, ring, f, c, s, h');
  }

  lemma AppendStory(h: Hub, ring: nat, f: Frame, c: nat, s: Story, h': Hub)
    requires HubInv(h) && ring < 2 && FrameOk(f) && Size(f) <= Capacity(ring) && h' == Append(h, ring, f) && HubInv(h')
    requires c < CLIENTS && Shape(s) && StoryInv(h, c, s)
    ensures StoryInv(h', c, if h.clients[c].used then Told(h, h', c, s) else s)
  {
    AppendOvertakes(h, ring, f, c, h');
    if h.clients[c].used {
      OvertakenStory(h, h', ring, c, s);
    }
  }

  lemma OvertakenStory(h: Hub, h': Hub, ring: nat, c: nat, s: Story)
    requires HubInv(h) && HubInv(h') && ring < 2 && c < CLIENTS && Shape(s) && StoryInv(h, c, s) && h.clients[c].used
    requires h'.rings[1 - ring] == h.rings[1 - ring] && h.rings[ring].log <= h'.rings[ring].log
    requires h'.rings[ring].base <= |h.rings[ring].log|
    requires Overtaken(h.clients[c], h'.clients[c], ring, h.rings[ring].log, h'.rings[ring].base)
    ensures StoryInv(h', c, Told(h, h', c, s))
  {
    var cl, cl', other := h.clients[c], h'.clients[c], 1 - ring;
    assert ClientInv(cl, h.rings);
    RingOvertaken(h.rings[ring].log, h'.rings[ring].log, cl.fd, cl.next[ring], cl'.next[ring], h'.rings[ring].base,
                  s.since[ring], s.missed[ring], Missed(h, h', c, ring), s.got[ring]);
    assert Missed(h, h', c, other) == {};
    assert s.missed[other] + {} == s.missed[other];
  }

  /** What a section that neither adds nor takes does to the client in slot c. */
  lemma OtherStep(h: Hub, op: Op, c: nat)
    requires HubInv(h) && OpOk(op) && c < CLIENTS && !op.Post? && !op.Reply? && !(OwnTake(h, op, c) && h.clients[c].used)
    ensures var (cl, h') := (h.clients[c], Step(h, op).0);
      && h'.rings == h.rings && |h'.clients| == CLIENTS
      && (if op.Connect? && EntryFor(h.clients, op.fd, c)
          then h'.clients[c] == HubClient(true, false, false, op.fd, [|h.rings[0].log|, |h.rings[1].log|], 0)
          else if !cl.used then !h'.clients[c].used
          else h'.clients[c] == cl.(used := op != Disconnect(cl.fd), resync := cl.resync || op.NoteDropped?,
                                    statusWanted := cl.statusWanted || op == WantStatus(cl.fd),
                                    stalledSince := if op == Resume(cl.fd, false) then 0
                                                    else if op.Stall? && op.fd == cl.fd && cl.stalledSince == 0 then op.now
                                                    else cl.stalledSince))
  {
    if op.Connect? {
      SlotIsEntry(h, op.fd);
    }
    if h.clients[c].used {
      assert Find(h.clients, h.clients[c].fd, 0) == c;
    }
  }

  lemma TellOther(h: Hub, op: Op, c: nat, s: Story)
    requires HubInv(h) && OpOk(op) && c < CLIENTS && Shape(s) && StoryInv(h, c, s)
    requires !op.Post? && !op.Reply? && !(OwnTake(h, op, c) && h.clients[c].used)
    ensures HubInv(Step(h, op).0) && StoryInv(Step(h, op).0, c, Tell(h, op, c, s))
  {
    StepKeepsInv(h, op);
    OtherStep(h, op, c);
    assert ClientInv(h.clients[c], h.rings);
    if h.clients[c].used {
      NothingMissed(h, Step(h, op).0, c, s);
      if op.Stall? {
        FirstSetMore(s.stalls, op.now);
      }
    }
  }

  lemma TellKeeps(h: Hub, op: Op, c: nat, s: Story, h': Hub)
    requires HubInv(h) && OpOk(op) && c < CLIENTS && Shape(s) && StoryInv(h, c, s) && h' == Step(h, op).0 && HubInv(h')
    ensures StoryInv(h', c, Tell(h, op, c, s))
  {
    if op.Post? {
      TellAppend(h, op, EVENT, Frame(BROADCAST, op.text), c, s, h');
    } else if op.Reply? {
      var k := Find(h.clients, op.fd, 0);
      if k < CLIENTS {
        assert ClientInv(h.clients[k], h.rings);
        TellAppend(h, op, REPLY, Frame(op.fd, op.text), c, s, h');
      } else if h.clients[c].used {
        NothingMissed(h, h, c, s);
      }
    } else if OwnTake(h, op, c) && h.clients[c].used {
      TellTake(h, op, c, s, h');
    } else {
      TellOther(h, op, c, s);
    }
  }

  lemma {:induction false} StoryHolds(ops: seq<Op>, c: nat)
    requires OpsOk(ops) && c < CLIENTS
    ensures StoryInv(Run(ops), c, Tale(ops, c))
    decreases |ops|
  {
    if ops != [] {
      var before := ops[..|ops| - 1];
      StoryHolds(before, c);
      TellKeeps(Run(before), ops[|ops| - 1], c, Tale(before, c), Run(ops));
    }
  }

  // --- the rings hold what was accepted ---

  /** The frame a step puts into a ring: every broadcast, and a reply only while its socket is connected. */
  ghost function Accepts(h: Hub, op: Op, ring: nat): seq<Frame> {
    match op
    case Post(text) => if ring == EVENT then [Frame(BROADCAST, text)] else []
    case Reply(fd, text) => if ring == REPLY && Connected(h, fd) then [Frame(fd, text)] else []
    case _ => []
  }

  ghost function Accepted(ops: seq<Op>, ring: nat): seq<Frame>
    requires OpsOk(ops)
    decreases |ops|
  {
    if ops == [] then [] else Accepted(ops[..|ops| - 1], ring) + Accepts(Run(ops[..|ops| - 1]), ops[|ops| - 1], ring)
  }

  lemma StepAccepts(h: Hub, op: Op, ring: nat)
    requires HubInv(h) && OpOk(op) && ring < 2
    ensures |Step(h, op).0.rings| == 2
    ensures Step(h, op).0.rings[ring].log == h.rings[ring].log + Accepts(h, op, ring)
  {
    if op.Post? {
      MakeRoomEffect(h, EVENT, Size(Frame(BROADCAST, op.text)));
    } else if op.Reply? {
      ReplyAccepts(h, op.fd, op.text, ring);
    }
  }

  lemma ReplyAccepts(h: Hub, fd: int, text: seq<Byte>, ring: nat)
    requires HubInv(h) && OpOk(Reply(fd, text)) && ring < 2
    ensures |Step(h, Reply(fd, text)).0.rings| == 2
    ensures Step(h, Reply(fd, text)).0.rings[ring].log == h.rings[ring].log + Accepts(h, Reply(fd, text), ring)
  {
    var k := Find(h.clients, fd, 0);
    if k < CLIENTS {
      assert ClientInv(h.clients[k], h.rings);
      MakeRoomEffect(h, REPLY, Size(Frame(fd, text)));
    }
  }

  lemma {:induction false} LogIsAccepted(ops: seq<Op>, ring: nat)
    requires OpsOk(ops) && ring < 2
    ensures Run(ops).rings[ring].log == Accepted(ops, ring)
    decreases |ops|
  {
    if ops != [] {
      LogIsAccepted(ops[..|ops| - 1], ring);
      StepAccepts(Run(ops[..|ops| - 1]), ops[|ops| - 1], ring);
    }
  }

  // --- main results ---

  /** In every run each connected client has taken, per ring and in order, exactly the accepted
   *  frames since it connected that are for it or for all, up to where it got, minus those
   *  that were evicted before it read them. */
  lemma Delivery(ops: seq<Op>, c: nat, ring: nat)
    requires OpsOk(ops) && c < CLIENTS && ring < 2 && Run(ops).clients[c].used
    ensures var cl, s, log := Run(ops).clients[c], Tale(ops, c), Accepted(ops, ring);
      && s.since[ring] <= cl.next[ring] <= |log|
      && s.got[ring] == Texts(log, s.since[ring], cl.next[ring], cl.fd, s.missed[ring])
      && (forall i :: i in s.missed[ring] ==> s.since[ring] <= i < cl.next[ring])
  {
    StoryHolds(ops, c);
    LogIsAccepted(ops, ring);
    assert ClientInv(Run(ops).clients[c], Run(ops).rings);
  }

  /** A client that lost a frame of its own since its last resync message, or any client when a frame was dropped
   *  before the rings, is told so by the very next thing it takes, and no other is. */
  lemma NothingLostSilently(ops: seq<Op>, c: nat)
    requires OpsOk(ops) && c < CLIENTS && Run(ops).clients[c].used
    ensures Step(Run(ops), Take(Run(ops).clients[c].fd)).1 == Resync <==> Tale(ops, c).owed
  {
    StoryHolds(ops, c);
    OwnTakeStep(Run(ops), c);
  }

  /** A frame of this client is still to be read in the ring. */
  ghost predicate Left(ops: seq<Op>, c: nat, ring: nat)
    requires OpsOk(ops) && c < CLIENTS && ring < 2
  {
    var cl, log := Run(ops).clients[c], Accepted(ops, ring);
    exists i :: cl.next[ring] <= i < |log| && Addressed(log[i], cl.fd)
  }

  /** Resync and status go first, then replies, and an event only when no reply is left. */
  lemma RepliesFirst(ops: seq<Op>, c: nat)
    requires OpsOk(ops) && c < CLIENTS && Run(ops).clients[c].used
    ensures var s, m := Tale(ops, c), Step(Run(ops), Take(Run(ops).clients[c].fd)).1;
      && (m == Status <==> !s.owed && s.asked)
      && (m.Text? && m.ring == REPLY <==> !s.owed && !s.asked && Left(ops, c, REPLY))
      && (m.Text? && m.ring == EVENT <==> !s.owed && !s.asked && !Left(ops, c, REPLY) && Left(ops, c, EVENT))
  {
    StoryHolds(ops, c);
    LogIsAccepted(ops, REPLY);
    LogIsAccepted(ops, EVENT);
    OwnTakeStep(Run(ops), c);
  }

  /** What a full socket is measured from: the first time it was found full since it was last served. */
  lemma StalledSinceFirst(ops: seq<Op>, c: nat)
    requires OpsOk(ops) && c < CLIENTS && Run(ops).clients[c].used
    ensures Run(ops).clients[c].stalledSince == FirstSet(Tale(ops, c).stalls)
  {
    StoryHolds(ops, c);
  }

  ghost function Count(log: seq<Frame>, lo: nat, hi: nat, fd: int): nat
    requires hi <= |log|
    decreases hi
  {
    if hi <= lo then 0 else Count(log, lo, hi - 1, fd) + if Addressed(log[hi - 1], fd) then 1 else 0
  }

  /** How many of the client's own frames it missed. */
  ghost function CountMissed(log: seq<Frame>, lo: nat, hi: nat, fd: int, missed: set<nat>): nat
    requires hi <= |log|
    decreases hi
  {
    if hi <= lo then 0
    else CountMissed(log, lo, hi - 1, fd, missed) + if Addressed(log[hi - 1], fd) && hi - 1 in missed then 1 else 0
  }

  lemma {:induction false} CountSplit(log: seq<Frame>, lo: nat, mid: nat, hi: nat, fd: int)
    requires lo <= mid <= hi <= |log|
    ensures Count(log, lo, hi, fd) == Count(log, lo, mid, fd) + Count(log, mid, hi, fd)
    decreases hi
  {
    if mid < hi {
      CountSplit(log, lo, mid, hi - 1, fd);
    }
  }

  lemma {:induction false} CountTexts(log: seq<Frame>, lo: nat, hi: nat, fd: int, missed: set<nat>)
    requires hi <= |log|
    ensures Count(log, lo, hi, fd) == |Texts(log, lo, hi, fd, missed)| + CountMissed(log, lo, hi, fd, missed)
    decreases hi
  {
    if lo < hi {
      CountTexts(log, lo, hi - 1, fd, missed);
    }
  }

  /** Frames added for a client = taken + lost + pending, per ring, in every run. */
  lemma Conservation(ops: seq<Op>, c: nat, ring: nat)
    requires OpsOk(ops) && c < CLIENTS && ring < 2 && Run(ops).clients[c].used
    ensures var cl, s, log := Run(ops).clients[c], Tale(ops, c), Accepted(ops, ring);
      && cl.next[ring] <= |log|
      && Count(log, s.since[ring], |log|, cl.fd)
         == |s.got[ring]| + CountMissed(log, s.since[ring], cl.next[ring], cl.fd, s.missed[ring])
            + Count(log, cl.next[ring], |log|, cl.fd)
  {
    Delivery(ops, c, ring);
    var cl, s, log := Run(ops).clients[c], Tale(ops, c), Accepted(ops, ring);
    CountSplit(log, s.since[ring], cl.next[ring], |log|, cl.fd);
    CountTexts(log, s.since[ring], cl.next[ring], cl.fd, s.missed[ring]);
  }

  /** A socket number may be used again: the new client starts at the frames accepted from then on. */
  lemma ReusedSocketStartsFresh(ops: seq<Op>, fd: int, c: nat)
    requires OpsOk(ops) && OpOk(Connect(fd)) && EntryFor(Run(ops).clients, fd, c)
    ensures c < CLIENTS && OpsOk(ops + [Connect(fd)])
    ensures Tale(ops + [Connect(fd)], c)
            == BLANK.(since := [|Accepted(ops, REPLY)|, |Accepted(ops, EVENT)|])
    ensures Run(ops + [Connect(fd)]).clients[c].used && Run(ops + [Connect(fd)]).clients[c].fd == fd
  {
    assert (ops + [Connect(fd)])[..|ops|] == ops;
    LogIsAccepted(ops, REPLY);
    LogIsAccepted(ops, EVENT);
    OtherStep(Run(ops), Connect(fd), c);
  }

  /** Taking returns nothing only when there is nothing left for the client in either ring. */
  lemma TakeNothing(h: Hub, fd: int, c: nat)
    requires HubInv(h) && c < CLIENTS && h.clients[c].used && h.clients[c].fd == fd
    ensures h.clients[c].next[0] <= |h.rings[0].log| && h.clients[c].next[1] <= |h.rings[1].log|
    ensures Step(h, Take(fd)).1 == Nothing <==>
              && !h.clients[c].resync && !h.clients[c].statusWanted
              && (forall i :: h.clients[c].next[0] <= i < |h.rings[0].log| ==> !Addressed(h.rings[0].log[i], fd))
              && (forall i :: h.clients[c].next[1] <= i < |h.rings[1].log| ==> !Addressed(h.rings[1].log[i], fd))
  {
    OwnTakeStep(h, c);
  }
}
