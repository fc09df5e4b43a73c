/**
 * Conservation over every run of bd_repeat.cpp: each frame is accounted for once, each
 * packet is reported once, and a report changes only from "direct" to "both".
 */
module RepeatRuns {
  import opened Words
  import opened RepeatBook
  import opened RepeatLaws

  // --- sums over sequences ---

  function Total<T>(w: T -> nat, s: seq<T>): nat
    decreases |s|
  {
    if s == [] then 0 else Total(w, s[..|s| - 1]) + w(s[|s| - 1])
  }

  lemma TotalMore<T>(w: T -> nat, s: seq<T>, x: T)
    ensures Total(w, s + [x]) == Total(w, s) + w(x)
  {
    assert (s + [x])[..|s|] == s;
  }

  lemma {:induction false} TotalPut<T>(w: T -> nat, s: seq<T>, i: nat, x: T)
    requires i < |s|
    ensures Total(w, s[i := x]) + w(s[i]) == Total(w, s) + w(x)
    decreases |s|
  {
    var n := |s| - 1;
    if i < n {
      TotalPut(w, s[..n], i, x);
      assert s[i := x][..n] == s[..n][i := x];
    } else {
      assert s[i := x][..n] == s[..n];
    }
  }

  ghost function Bag<T, U>(f: T -> multiset<U>, s: seq<T>): multiset<U>
    decreases |s|
  {
    if s == [] then multiset{} else Bag(f, s[..|s| - 1]) + f(s[|s| - 1])
  }

  lemma BagMore<T, U>(f: T -> multiset<U>, s: seq<T>, x: T)
    ensures Bag(f, s + [x]) == Bag(f, s) + f(x)
  {
    assert (s + [x])[..|s|] == s;
  }

  lemma {:induction false} BagPut<T, U>(f: T -> multiset<U>, s: seq<T>, i: nat, x: T)
    requires i < |s|
    ensures Bag(f, s[i := x]) + f(s[i]) == Bag(f, s) + f(x)
    decreases |s|
  {
    var n := |s| - 1;
    if i < n {
      BagPut(f, s[..n], i, x);
      assert s[i := x][..n] == s[..n][i := x];
      assert Bag(f, s[i := x]) + f(s[i]) == (Bag(f, s[..n][i := x]) + f(s[i])) + f(s[n]);
      assert Bag(f, s) + f(x) == (Bag(f, s[..n]) + f(x)) + f(s[n]);
    } else {
      assert s[i := x][..n] == s[..n];
    }
  }

  // --- what a book accounts for ---

  /** The frame that opened a packet: whose, when, with the forward bit or without it, and with which signal. */
  datatype Birth = Birth(key: Key, openedMs: nat, ts: nat, direct: bool, sig: Signal)

  function BirthOf(h: Heard): Birth
    requires |h.frame| >= 4
  {
    Birth(KeyOf(h), h.nowMs, h.ts, Forward(h.frame), h.sig)
  }

  function PacketFrames(p: Packet): nat {
    if p.used then p.copies + (if p.direct then 1 else 0) else 0
  }

  /** Reported with a direct reception. */
  predicate WithBit(e: Event) {
    e.kind == Both || e.kind == Direct
  }

  /** The first copy of a direct packet: of which transmission, how long behind it, and with which signal. */
  datatype FirstCopy = FirstCopy(key: Key, openedMs: nat, delayMs: nat, sig: Signal)

  function CopyOf(h: Heard, openedMs: nat): FirstCopy
    requires |h.frame| >= 4
  {
    FirstCopy(KeyOf(h), openedMs, Wrap(h.nowMs - openedMs) % 0x1_0000, h.sig)
  }

  function PacketCopy(p: Packet): multiset<FirstCopy> {
    if p.used && p.direct && p.copies > 0 then multiset{FirstCopy(p.key, p.openedMs, p.delayMs, p.sigCopy)} else multiset{}
  }

  function EventCopy(e: Event): multiset<FirstCopy> {
    if e.kind == Both then multiset{FirstCopy(e.key, e.openedMs, e.delayMs, e.sigCopy)} else multiset{}
  }

  function EventFrames(e: Event): nat {
    e.copies + (if WithBit(e) then 1 else 0)
  }

  function PacketBirth(p: Packet): multiset<Birth> {
    if p.used then multiset{Birth(p.key, p.openedMs, p.ts, p.direct, if p.direct then p.sigDirect else p.sigCopy)}
    else multiset{}
  }

  function EventBirth(e: Event): multiset<Birth> {
    multiset{Birth(e.key, e.openedMs, e.ts, WithBit(e), if WithBit(e) then e.sigDirect else e.sigCopy)}
  }

  /** The frames in the counters of all packets, reported and open. */
  function Frames(b: Book): nat {
    Total(EventFrames, b.reported) + Total(PacketFrames, b.open)
  }

  ghost function Births(b: Book): multiset<Birth> {
    Bag(EventBirth, b.reported) + Bag(PacketBirth, b.open)
  }

  ghost function Copies(b: Book): multiset<FirstCopy> {
    Bag(EventCopy, b.reported) + Bag(PacketCopy, b.open)
  }

  lemma Cancel<T>(a: multiset<T>, b: multiset<T>, c: multiset<T>)
    requires a + c == b + c
    ensures a == b
  {
    assert (a + c) - c == a && (b + c) - c == b;
  }

  /** A packet leaves the open ones and is reported. */
  lemma MovesOver(reported: seq<Event>, open: seq<Packet>, i: nat, e: Event)
    requires i < |open| && open[i].used && EventFrames(e) == PacketFrames(open[i])
    ensures var open' := open[i := open[i].(used := false)];
      Total(EventFrames, reported + [e]) + Total(PacketFrames, open') == Total(EventFrames, reported) + Total(PacketFrames, open)
  {
    TotalMore(EventFrames, reported, e);
    TotalPut(PacketFrames, open, i, open[i].(used := false));
  }

  lemma BagMovesOver<U>(f: Event -> multiset<U>, g: Packet -> multiset<U>, reported: seq<Event>, open: seq<Packet>, i: nat,
                        e: Event, p: Packet)
    requires i < |open| && f(e) == g(open[i]) && g(p) == multiset{}
    ensures Bag(f, reported + [e]) + Bag(g, open[i := p]) == Bag(f, reported) + Bag(g, open)
  {
    BagMore(f, reported, e);
    BagPut(g, open, i, p);
    var left := Bag(g, open[i := p]);
    assert left + f(e) == Bag(g, open);
    assert Bag(f, reported) + f(e) + left == Bag(f, reported) + (left + f(e));
  }

  lemma ClosedShape(b: Book, i: nat) returns (e: Event)
    requires BookOk(b) && i < OPEN_PACKETS && b.open[i].used
    ensures Closed(b, i).open == b.open[i := b.open[i].(used := false)] && Closed(b, i).reported == b.reported + [e]
    ensures EventFrames(e) == PacketFrames(b.open[i]) && EventBirth(e) == PacketBirth(b.open[i])
    ensures EventCopy(e) == PacketCopy(b.open[i])
  {
    e := Closed(b, i).reported[|b.reported|];
  }

  lemma ClosedSame(b: Book, i: nat)
    requires BookOk(b) && i < OPEN_PACKETS && b.open[i].used
    ensures Frames(Closed(b, i)) == Frames(b) && Births(Closed(b, i)) == Births(b) && Copies(Closed(b, i)) == Copies(b)
  {
    var e := ClosedShape(b, i);
    MovesOver(b.reported, b.open, i, e);
    ClosedBags(b, i, e, b.open[i].(used := false), Closed(b, i));
  }

  lemma ClosedBags(b: Book, i: nat, e: Event, p: Packet, b': Book)
    requires Sized(b) && i < OPEN_PACKETS && !p.used && b'.open == b.open[i := p] && b'.reported == b.reported + [e]
    requires EventBirth(e) == PacketBirth(b.open[i]) && EventCopy(e) == PacketCopy(b.open[i])
    ensures Births(b') == Births(b) && Copies(b') == Copies(b)
  {
    BagMovesOver(EventBirth, PacketBirth, b.reported, b.open, i, e, p);
    BagMovesOver(EventCopy, PacketCopy, b.reported, b.open, i, e, p);
  }

  lemma {:induction false} TickedSame(b: Book, now: nat, i: nat)
    requires BookOk(b) && i <= OPEN_PACKETS
    ensures var b' := Ticked(b, now, i); Frames(b') == Frames(b) && Births(b') == Births(b) && Copies(b') == Copies(b)
    decreases OPEN_PACKETS - i
  {
    if i < OPEN_PACKETS {
      var b1 := if Due(b.open[i], now) then Closed(b, i) else b;
      if Due(b.open[i], now) {
        ClosedSame(b, i);
        ClosedOk(b, i);
      }
      TickedSame(b1, now, i + 1);
      assert Ticked(b, now, i) == Ticked(b1, now, i + 1);
    }
  }

  lemma PutBag<U>(f: Event -> multiset<U>, g: Packet -> multiset<U>, b: Book, i: nat, p: Packet)
    requires Sized(b) && i < OPEN_PACKETS
    ensures Bag(f, b.reported) + Bag(g, b.open[i := p]) + g(b.open[i]) == Bag(f, b.reported) + Bag(g, b.open) + g(p)
  {
    BagPut(g, b.open, i, p);
    var all := Bag(f, b.reported);
    assert all + Bag(g, b.open[i := p]) + g(b.open[i]) == all + (Bag(g, b.open[i := p]) + g(b.open[i]));
    assert all + (Bag(g, b.open) + g(p)) == all + Bag(g, b.open) + g(p);
  }

  lemma PutPacket(b: Book, i: nat, p: Packet, b': Book)
    requires Sized(b) && i < OPEN_PACKETS && b' == b.(open := b.open[i := p])
    ensures Frames(b') + PacketFrames(b.open[i]) == Frames(b) + PacketFrames(p)
    ensures Births(b') + PacketBirth(b.open[i]) == Births(b) + PacketBirth(p)
    ensures Copies(b') + PacketCopy(b.open[i]) == Copies(b) + PacketCopy(p)
  {
    TotalPut(PacketFrames, b.open, i, p);
    PutBag(EventBirth, PacketBirth, b, i, p);
    PutBag(EventCopy, PacketCopy, b, i, p);
  }

  /** The counter the frame should have gone into was at its limit. */
  predicate Full(o: Outcome) {
    match o
    case AsCopy(p) => p.copies >= MAX_COPIES
    case AsLateCopy(e) => e.kind == Both && e.copies >= MAX_COPIES
    case _ => false
  }

  /** The transmission a frame opens, if it does. */
  function Born(h: Heard, o: Outcome): multiset<Birth>
    requires |h.frame| >= 4
  {
    if o.AsNew? then multiset{BirthOf(h)} else multiset{}
  }

  /** The first copy a frame is, if it is one. */
  function Copied(h: Heard, o: Outcome): multiset<FirstCopy>
    requires |h.frame| >= 4
  {
    match o
    case AsCopy(p) => if p.copies == 0 then multiset{CopyOf(h, p.openedMs)} else multiset{}
    case AsLateCopy(e) => if e.kind == Direct then multiset{CopyOf(h, e.openedMs)} else multiset{}
    case _ => multiset{}
  }

  /** One more frame than before, gone where the outcome says. */
  ghost predicate Accounted(b: Book, b': Book, h: Heard, o: Outcome) {
    && |h.frame| >= 4
    && Frames(b') + (if Full(o) then 1 else 0) == Frames(b) + 1
    && Births(b') == Births(b) + Born(h, o)
    && Copies(b') == Copies(b) + Copied(h, o)
  }

  lemma OpenedMore(b: Book, h: Heard, p: Packet, b': Book)
    requires BookOk(b) && |h.frame| >= 4 && p == NewPacket(KeyOf(h), Forward(h.frame), h.sig, h.nowMs, h.ts)
    requires b' == Opened(b, p)
    ensures Accounted(b, b', h, AsNew(p))
  {
    var i := Slot(b.open, 0, 0);
    var b1 := if b.open[i].used then Closed(b, i) else b;
    if b.open[i].used {
      ClosedSame(b, i);
    }
    PutPacket(b1, i, p, b');
    assert !b1.open[i].used;
  }

  /** Something more in place of something. */
  lemma Swapped<T>(all': multiset<T>, out: multiset<T>, all: multiset<T>, more: multiset<T>)
    requires all' + out == all + (out + more)
    ensures all' == all + more
  {
    assert all + (out + more) == all + more + out;
    Cancel(all', all + more, out);
  }

  lemma JoinedMore(b: Book, m: nat, h: Heard, b': Book)
    requires BookOk(b) && |h.frame| >= 4 && m < OPEN_PACKETS && b.open[m].used && b.open[m].key == KeyOf(h)
    requires b' == b.(open := b.open[m := Joined(b.open[m], h.sig, h.nowMs)])
    ensures Accounted(b, b', h, AsCopy(b.open[m]))
  {
    var p := b.open[m];
    var q := Joined(p, h.sig, h.nowMs);
    assert PacketOk(p);
    PutPacket(b, m, q, b');
    JoinedCopy(p, h, q);
    Cancel(Births(b'), Births(b), PacketBirth(p));
    Swapped(Copies(b'), PacketCopy(p), Copies(b), Copied(h, AsCopy(p)));
  }

  lemma JoinedCopy(p: Packet, h: Heard, q: Packet)
    requires PacketOk(p) && p.used && |h.frame| >= 4 && p.key == KeyOf(h) && q == Joined(p, h.sig, h.nowMs)
    ensures PacketBirth(q) == PacketBirth(p) && PacketCopy(q) == PacketCopy(p) + Copied(h, AsCopy(p))
    ensures PacketFrames(q) == PacketFrames(p) + if p.copies >= MAX_COPIES then 0 else 1
  {
  }

  lemma EventChanges(reported: seq<Event>, k: nat, e': Event, more: multiset<FirstCopy>)
    requires k < |reported| && EventBirth(e') == EventBirth(reported[k]) && EventCopy(e') == EventCopy(reported[k]) + more
    ensures Total(EventFrames, reported[k := e']) + EventFrames(reported[k]) == Total(EventFrames, reported) + EventFrames(e')
    ensures Bag(EventBirth, reported[k := e']) == Bag(EventBirth, reported)
    ensures Bag(EventCopy, reported[k := e']) == Bag(EventCopy, reported) + more
  {
    TotalPut(EventFrames, reported, k, e');
    BagPut(EventBirth, reported, k, e');
    Cancel(Bag(EventBirth, reported[k := e']), Bag(EventBirth, reported), EventBirth(e'));
    BagPut(EventCopy, reported, k, e');
    Swapped(Bag(EventCopy, reported[k := e']), EventCopy(reported[k]), Bag(EventCopy, reported), more);
  }

  lemma UpgradedMore(b: Book, k: nat, h: Heard, b': Book)
    requires BookOk(b) && |h.frame| >= 4 && k < |b.reported| && Upgradable(b.reported[k], KeyOf(h))
    requires b' == Upgraded(b, k, h.sig, h.nowMs)
    ensures Accounted(b, b', h, AsLateCopy(b.reported[k]))
  {
    var e := b.reported[k];
    var e', more := UpgradedEvent(e, h.sig, h.nowMs), Copied(h, AsLateCopy(e));
    assert EventOk(e);
    UpgradedCopy(e, h, e');
    EventChanges(b.reported, k, e', more);
    assert b'.reported == b.reported[k := e'] && b'.open == b.open;
    Beside(Bag(EventCopy, b.reported), more, Bag(PacketCopy, b.open));
  }

  lemma Beside<T>(a: multiset<T>, more: multiset<T>, b: multiset<T>)
    ensures (a + more) + b == (a + b) + more
  {
  }

  lemma UpgradedCopy(e: Event, h: Heard, e': Event)
    requires EventOk(e) && |h.frame| >= 4 && Upgradable(e, KeyOf(h)) && e' == UpgradedEvent(e, h.sig, h.nowMs)
    ensures EventBirth(e') == EventBirth(e) && EventCopy(e') == EventCopy(e) + Copied(h, AsLateCopy(e))
    ensures EventFrames(e') == EventFrames(e) + if Full(AsLateCopy(e)) then 0 else 1
  {
  }

  lemma TakenMore(b: Book, h: Heard, b': Book, o: Outcome)
    requires BookOk(b) && |h.frame| >= 4
    requires (b', o) == Taken(b, KeyOf(h), Forward(h.frame), h.sig, h.nowMs, h.ts)
    ensures o != Ignored && Accounted(b, b', h, o)
  {
    var key, forward := KeyOf(h), Forward(h.frame);
    var m := if forward then -1 else Match(b.open, key, 0, -1);
    var k := if forward then -1 else Late(b, key, h.nowMs, 1);
    if m >= 0 {
      MatchFits(b.open, key, 0, -1);
      JoinedMore(b, m, h, b');
    } else if k >= 0 {
      UpgradedMore(b, k, h, b');
    } else {
      OpenedMore(b, h, o.p, b');
    }
  }

  // --- runs ---

  datatype Action = Hear(h: Heard) | Tick(nowMs: nat) | Reset

  /** The book, with what an observer counted beside it. */
  datatype Tally = Tally(book: Book, heard: nat, born: multiset<Birth>, copied: multiset<FirstCopy>, joined: nat, late: nat,
                         full: nat)

  function Next(t: Tally, a: Action): (t': Tally)
    requires Sized(t.book)
    ensures Sized(t'.book)
  {
    match a
    case Tick(now) => t.(book := Ticked(t.book, now, 0))
    case Reset => t.(book := Cleared(t.book))
    case Hear(h) =>
      var (b, o) := Noted(t.book, h);
      if o == Ignored then t.(book := b)
      else
        Tally(b, t.heard + 1, t.born + Born(h, o), t.copied + Copied(h, o), t.joined + (if o.AsCopy? then 1 else 0),
              t.late + (if o.AsLateCopy? then 1 else 0), t.full + (if Full(o) then 1 else 0))
  }

  function Run(actions: seq<Action>): (t: Tally)
    ensures Sized(t.book)
    decreases |actions|
  {
    if actions == [] then Tally(Start(), 0, multiset{}, multiset{}, 0, 0, 0)
    else Next(Run(actions[..|actions| - 1]), actions[|actions| - 1])
  }

  ghost predicate Balanced(t: Tally) {
    && BookOk(t.book)
    && t.heard == |t.born| + t.joined + t.late
    && t.heard == Frames(t.book) + t.full
    && t.born == Births(t.book)
    && t.copied == Copies(t.book)
  }

  lemma NotedMore(b: Book, h: Heard, b': Book, o: Outcome)
    requires BookOk(b) && (b', o) == Noted(b, h)
    ensures if Counts(h.frame) then o != Ignored && Accounted(b, b', h, o) else o == Ignored && b' == b
  {
    if Counts(h.frame) {
      var named := if h.frame[0] % 64 == TYPE_NAME && h.frame[0] < 128
                   then Named(b, SenderOf(h.frame), h.frame[4..]) else b;
      NamedOk(b, SenderOf(h.frame), h.frame[4..]);
      NamedSame(b, SenderOf(h.frame), h.frame[4..]);
      TickedThenTaken(named, h, b', o);
    }
  }

  lemma TickedThenTaken(b: Book, h: Heard, b': Book, o: Outcome)
    requires BookOk(b) && Counts(h.frame)
    requires (b', o) == Taken(Ticked(b, h.tickMs, 0), KeyOf(h), Forward(h.frame), h.sig, h.nowMs, h.ts)
    ensures o != Ignored && Accounted(b, b', h, o)
  {
    TickedOk(b, h.tickMs, 0);
    TickedSame(b, h.tickMs, 0);
    TakenMore(Ticked(b, h.tickMs, 0), h, b', o);
  }

  lemma NamedSame(b: Book, sender: Sender, text: seq<Byte>)
    requires Sized(b)
    ensures Named(b, sender, text).open == b.open && Named(b, sender, text).reported == b.reported
  {
  }

  lemma HeardBalances(t: Tally, h: Heard, t': Tally)
    requires Balanced(t) && t' == Next(t, Hear(h))
    ensures Balanced(t')
  {
    var (b, o) := Noted(t.book, h);
    NotedOk(t.book, h);
    NotedMore(t.book, h, b, o);
  }

  lemma TickBalances(t: Tally, now: nat, t': Tally)
    requires Balanced(t) && t' == Next(t, Tick(now))
    ensures Balanced(t')
  {
    TickedOk(t.book, now, 0);
    TickedSame(t.book, now, 0);
  }

  lemma ResetBalances(t: Tally, t': Tally)
    requires Balanced(t) && t' == Next(t, Reset)
    ensures Balanced(t')
  {
    ClearedOk(t.book);
  }

  /** In every run: every tracked frame opened a packet, joined one, or came late to one; the packets ever opened
   *  are those reported, each once, and those still open; and the counters hold every frame but those that found
   *  a counter at its limit. */
  lemma {:induction false} RunBalances(actions: seq<Action>, t: Tally)
    requires t == Run(actions)
    ensures Balanced(t)
    decreases |actions|
  {
    if actions == [] {
      StartBalances(t);
    } else {
      var before, a := Run(actions[..|actions| - 1]), actions[|actions| - 1];
      RunBalances(actions[..|actions| - 1], before);
      match a {
        case Hear(h) => HeardBalances(before, h, t);
        case Tick(now) => TickBalances(before, now, t);
        case Reset => ResetBalances(before, t);
      }
    }
  }

  lemma StartBalances(t: Tally)
    requires t == Tally(Start(), 0, multiset{}, multiset{}, 0, 0, 0)
    ensures Balanced(t)
  {
    StartOk();
    var b := t.book;
    NoneUsed(b.open);
    assert b.reported == [];
  }

  lemma {:induction false} NoneUsed(open: seq<Packet>)
    requires forall i :: 0 <= i < |open| ==> !open[i].used
    ensures Total(PacketFrames, open) == 0 && Bag(PacketBirth, open) == multiset{} && Bag(PacketCopy, open) == multiset{}
    decreases |open|
  {
    if open != [] {
      NoneUsed(open[..|open| - 1]);
    }
  }

  // --- reports are final, but for the one change ---

  predicate Evolved(e: Event, e': Event) {
    && e'.no == e.no && e'.key == e.key && e'.openedMs == e.openedMs && e'.ts == e.ts && e'.sigDirect == e.sigDirect
    && match e.kind
       case Both => e' == e.(copies := e'.copies) && e.copies <= e'.copies
       case Direct => e' == e || e'.kind == Both
       case _ => e' == e
  }

  predicate History(old_: seq<Event>, new_: seq<Event>) {
    |old_| <= |new_| && forall i {:trigger new_[i]} :: 0 <= i < |old_| ==> Evolved(old_[i], new_[i])
  }

  lemma HistoryJoins(a: seq<Event>, b: seq<Event>, c: seq<Event>)
    requires History(a, b) && History(b, c)
    ensures History(a, c)
  {
    forall i | 0 <= i < |a|
      ensures Evolved(a[i], c[i])
    {
      assert Evolved(a[i], b[i]) && Evolved(b[i], c[i]);
    }
  }

  lemma {:induction false} TickedHistory(b: Book, now: nat, i: nat)
    requires Sized(b) && i <= OPEN_PACKETS
    ensures History(b.reported, Ticked(b, now, i).reported)
    decreases OPEN_PACKETS - i
  {
    if i < OPEN_PACKETS {
      var b1 := if Due(b.open[i], now) then Closed(b, i) else b;
      TickedHistory(b1, now, i + 1);
      HistoryJoins(b.reported, b1.reported, Ticked(b1, now, i + 1).reported);
    }
  }

  lemma TakenHistory(b: Book, key: Key, forward: bool, sig: Signal, now: nat, ts: nat)
    requires Sized(b)
    ensures History(b.reported, Taken(b, key, forward, sig, now, ts).0.reported)
  {
  }

  lemma NextHistory(t: Tally, a: Action)
    requires Sized(t.book)
    ensures History(t.book.reported, Next(t, a).book.reported)
  {
    match a
    case Tick(now) => TickedHistory(t.book, now, 0);
    case Reset =>
    case Hear(h) =>
      if Counts(h.frame) {
        var b := if h.frame[0] % 64 == TYPE_NAME && h.frame[0] < 128
                 then Named(t.book, SenderOf(h.frame), h.frame[4..]) else t.book;
        var b' := Ticked(b, h.tickMs, 0);
        TickedHistory(b, h.tickMs, 0);
        TakenHistory(b', KeyOf(h), Forward(h.frame), h.sig, h.nowMs, h.ts);
        HistoryJoins(b.reported, b'.reported, Next(t, a).book.reported);
      }
  }

  /** From any point of a run to any later one, nothing reported goes away or changes kind, but from direct to both. */
  lemma {:induction false} RunHistory(actions: seq<Action>, k: nat)
    requires k <= |actions|
    ensures History(Run(actions[..k]).book.reported, Run(actions).book.reported)
    decreases |actions|
  {
    if k == |actions| {
      assert actions[..k] == actions;
    } else {
      var n := |actions| - 1;
      RunHistory(actions[..n], k);
      assert actions[..n][..k] == actions[..k];
      NextHistory(Run(actions[..n]), actions[n]);
      HistoryJoins(Run(actions[..k]).book.reported, Run(actions[..n]).book.reported, Run(actions).book.reported);
    }
  }
}
