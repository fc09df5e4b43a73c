/**
 * Direct receptions per sender over whole runs of bd_repeat.cpp: their number is that of the
 * reports with a direct reception, unless the entry of the sender was given up for another.
 */
module RepeatDirect {
  import opened Words
  import opened RepeatBook
  import opened RepeatLaws
  import opened RepeatRuns
  import opened RepeatTiming
  import opened RepeatAccounts

  /** How far nDirect stays behind the reports that had a direct reception. */
  function Gap(s: Source): int {
    s.both + s.direct + s.plain - s.nDirect
  }

  /** It grows only when a late copy finds no direct report left in the entry. */
  lemma GapSteps(s: Source, p: Packet, flagged: bool, e: Event, sig: Signal, now: nat)
    ensures Gap(Credited(s, p, KindOf(p, flagged))) == Gap(s)
    ensures Gap(UpgradedSource(s, e, sig, now)) == Gap(s) + if e.kind != Both && s.direct == 0 then 1 else 0
  {
  }

  lemma {:induction false} ReceivedInAll(events: seq<Event>, sender: Sender)
    ensures SumOf(Received, events, sender)
            == SumOf(Boths, events, sender) + SumOf(Directs, events, sender) + SumOf(Plains, events, sender)
    decreases |events|
  {
    if events != [] {
      ReceivedInAll(events[..|events| - 1], sender);
    }
  }

  /** In every run, the entry of a sender that was not given up since the last reset counts every direct reception. */
  lemma AllDirectCounted(actions: seq<Action>, sender: Sender, i: nat)
    requires !LostEntry(actions, sender) && i < SOURCES && Owns(Run(actions).book.sources[i], sender)
    ensures var s := Run(actions).book.sources[i]; s.nDirect == s.both + s.direct + s.plain
  {
    EntryTells(actions, sender, Run(actions).book, Run(actions).book.sources[i]);
    var s, events := Run(actions).book.sources[i], Run(actions).book.reported[Since(actions)..];
    ReceivedInAll(events, sender);
    assert Amount(s, Received) == s.nDirect && Amount(s, Boths) == s.both;
    assert Amount(s, Directs) == s.direct && Amount(s, Plains) == s.plain;
  }

  // --- no more senders than entries ---

  /** Everything the book holds is about these senders. */
  ghost predicate About(b: Book, senders: set<Sender>) {
    && Sized(b)
    && (forall i {:trigger b.sources[i]} :: 0 <= i < |b.sources| && b.sources[i].used ==> b.sources[i].sender in senders)
    && (forall i {:trigger b.open[i]} :: 0 <= i < |b.open| && b.open[i].used ==> b.open[i].key.sender in senders)
    && (forall i {:trigger b.reported[i]} :: 0 <= i < |b.reported| ==> b.reported[i].key.sender in senders)
  }

  /** The senders of the first n entries. */
  function SendersOf(sources: seq<Source>, n: nat): set<Sender>
    requires n <= |sources|
  {
    set i | 0 <= i < n :: sources[i].sender
  }

  lemma {:induction false} AsManySenders(sources: seq<Source>, n: nat)
    requires n <= |sources| && OneEach(sources) && forall i :: 0 <= i < |sources| ==> sources[i].used
    ensures |SendersOf(sources, n)| == n
    decreases n
  {
    if n > 0 {
      AsManySenders(sources, n - 1);
      assert SendersOf(sources, n) == SendersOf(sources, n - 1) + {sources[n - 1].sender};
      assert sources[n - 1].sender !in SendersOf(sources, n - 1);
    }
  }

  lemma SmallerSet<T>(a: set<T>, b: set<T>)
    requires a <= b
    ensures |a| <= |b|
  {
    assert b == a + (b - a);
  }

  /** With an entry for each of them, none is given up. */
  lemma EntriesEnough(b: Book, senders: set<Sender>, other: Sender, sender: Sender)
    requires About(b, senders) && OneEach(b.sources) && |senders| <= SOURCES && other in senders
    ensures !GivesUp(b.sources, other, sender)
  {
    var (j, known) := Search(b.sources, other, 0, 0);
    if !known && b.sources[j].used {
      SearchKnown(b.sources, other, 0, 0);
      if exists k :: 0 <= k < SOURCES && !b.sources[k].used {
        FreeSourceFirst(b.sources, other, 0, 0);
      } else {
        AsManySenders(b.sources, SOURCES);
        SmallerSet(SendersOf(b.sources, SOURCES), senders - {other});
      }
    }
  }

  lemma AboutEntry(b: Book, senders: set<Sender>, other: Sender, s: Source)
    requires About(b, senders) && other in senders && s.sender == other
    ensures About(b.(sources := WithSource(b.sources, other)[Place(b.sources, other) := s]), senders)
  {
  }

  lemma ClosedAbout(b: Book, i: nat, senders: set<Sender>)
    requires About(b, senders) && i < OPEN_PACKETS && b.open[i].used
    ensures About(Closed(b, i), senders)
  {
    var p := b.open[i];
    SearchKnown(b.sources, p.key.sender, 0, 0);
    var sources, j := WithSource(b.sources, p.key.sender), Place(b.sources, p.key.sender);
    AboutEntry(b, senders, p.key.sender, Closed(b, i).sources[j]);
  }

  lemma {:induction false} TickedAbout(b: Book, now: nat, i: nat, senders: set<Sender>, sender: Sender)
    requires BookOk(b) && About(b, senders) && |senders| <= SOURCES && i <= OPEN_PACKETS
    ensures About(Ticked(b, now, i), senders) && !TickGivesUp(b, now, i, sender)
    decreases OPEN_PACKETS - i
  {
    if i < OPEN_PACKETS {
      if Due(b.open[i], now) {
        EntriesEnough(b, senders, b.open[i].key.sender, sender);
        ClosedOk(b, i);
        ClosedAbout(b, i, senders);
      }
      TickedAbout(if Due(b.open[i], now) then Closed(b, i) else b, now, i + 1, senders, sender);
    }
  }

  lemma TakenAbout(b: Book, key: Key, forward: bool, sig: Signal, now: nat, ts: nat, senders: set<Sender>, sender: Sender)
    requires BookOk(b) && About(b, senders) && |senders| <= SOURCES && key.sender in senders
    ensures About(Taken(b, key, forward, sig, now, ts).0, senders) && !TakeGivesUp(b, key, forward, now, sender)
  {
    var m := if forward then -1 else Match(b.open, key, 0, -1);
    var k := if forward then -1 else Late(b, key, now, 1);
    var i := Slot(b.open, 0, 0);
    if m < 0 && k >= 0 {
      EntriesEnough(b, senders, key.sender, sender);
      SearchKnown(b.sources, key.sender, 0, 0);
      AboutEntry(b, senders, key.sender, Upgraded(b, k, sig, now).sources[Place(b.sources, key.sender)]);
    } else if m < 0 && b.open[i].used {
      EntriesEnough(b, senders, b.open[i].key.sender, sender);
      ClosedAbout(b, i, senders);
    }
  }

  lemma NotedAbout(b: Book, h: Heard, senders: set<Sender>, sender: Sender)
    requires BookOk(b) && About(b, senders) && |senders| <= SOURCES && (Counts(h.frame) ==> SenderOf(h.frame) in senders)
    ensures About(Noted(b, h).0, senders) && !NoteGivesUp(b, h, sender)
  {
    if Counts(h.frame) {
      var isName, x := h.frame[0] % 64 == TYPE_NAME && h.frame[0] < 128, SenderOf(h.frame);
      var named := if isName then Named(b, x, h.frame[4..]) else b;
      EntriesEnough(b, senders, x, sender);
      if isName {
        NamedOk(b, x, h.frame[4..]);
        NamedAbout(b, x, h.frame[4..], senders);
      }
      TickedOk(named, h.tickMs, 0);
      TickedAbout(named, h.tickMs, 0, senders, sender);
      TakenAbout(Ticked(named, h.tickMs, 0), KeyOf(h), Forward(h.frame), h.sig, h.nowMs, h.ts, senders, sender);
    }
  }

  lemma NamedAbout(b: Book, x: Sender, text: seq<Byte>, senders: set<Sender>)
    requires About(b, senders) && x in senders
    ensures About(Named(b, x, text), senders)
  {
    if NameOf(text, 0) != [] {
      SearchKnown(b.sources, x, 0, 0);
      AboutEntry(b, senders, x, Named(b, x, text).sources[Place(b.sources, x)]);
    }
  }

  predicate HeardOnly(actions: seq<Action>, senders: set<Sender>) {
    forall i :: 0 <= i < |actions| && actions[i].Hear? && Counts(actions[i].h.frame) ==> SenderOf(actions[i].h.frame) in senders
  }

  lemma {:induction false} FewKeepEntries(actions: seq<Action>, senders: set<Sender>, sender: Sender)
    requires HeardOnly(actions, senders) && |senders| <= SOURCES
    ensures About(Run(actions).book, senders) && !LostEntry(actions, sender)
    decreases |actions|
  {
    if actions != [] {
      var before, a := actions[..|actions| - 1], actions[|actions| - 1];
      FewKeepEntries(before, senders, sender);
      RunBalances(before, Run(before));
      match a {
        case Reset =>
        case Tick(now) => TickedAbout(Run(before).book, now, 0, senders, sender);
        case Hear(h) => NotedAbout(Run(before).book, h, senders, sender);
      }
    }
  }

  /** With at most sixteen senders heard, every entry counts every direct reception. */
  lemma FewSendersCounted(actions: seq<Action>, senders: set<Sender>, i: nat)
    requires HeardOnly(actions, senders) && |senders| <= SOURCES && i < SOURCES && Run(actions).book.sources[i].used
    ensures var s := Run(actions).book.sources[i]; s.nDirect == s.both + s.direct + s.plain
  {
    var sender := Run(actions).book.sources[i].sender;
    FewKeepEntries(actions, senders, sender);
    AllDirectCounted(actions, sender, i);
  }
}
