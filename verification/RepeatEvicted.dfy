/**
 * A run of bd_repeat.cpp in which the entry of a sender is given up before a late copy of its
 * packet comes: seventeen senders heard directly 3.5 s apart, then a copy of the first packet.
 */
module RepeatEvicted {
  import opened Words
  import opened RepeatBook
  import opened RepeatLaws
  import opened RepeatRuns
  import opened RepeatTiming
  import opened RepeatAccounts
  import opened RepeatDirect

  const PACE := 3500

  function Who(k: nat): Sender {
    Sender(0, k)
  }

  /** Frame k, forwarding wanted, which makes it a direct one. */
  function FirstHand(k: nat): Heard
    requires k < 256
  {
    Heard([65, 0, k, 0], 0, NO_SIGNAL, PACE * k, PACE * k, 0)
  }

  /** The repeated frame 0, in the place of frame n. */
  function Copy(n: nat): Heard {
    Heard([1, 0, 0, 0], 0, NO_SIGNAL, PACE * n, PACE * n, 0)
  }

  function Hears(n: nat): (a: seq<Action>)
    requires n <= 256
    ensures |a| == n
  {
    seq(n, i requires 0 <= i < n => Hear(FirstHand(i)))
  }

  // --- the book after the first n frames ---

  function KeyFrom(k: nat): Key {
    Key(Who(k), 1, 0)
  }

  /** Entries are taken from the last place down: the last m hold the first m senders. */
  predicate Shelf(sources: seq<Source>, m: nat) {
    && |sources| == SOURCES && m <= SOURCES
    && forall i :: 0 <= i < SOURCES ==> if i < SOURCES - m then !sources[i].used else Holds(sources[i], SOURCES - 1 - i)
  }

  predicate Holds(s: Source, k: nat) {
    s.used && s.sender == Who(k) && s.lastMs == PACE * k
  }

  predicate Reports(reported: seq<Event>, m: nat) {
    |reported| == m && forall i :: 0 <= i < m ==> IsReport(reported[i], i)
  }

  predicate IsReport(e: Event, k: nat) {
    e.key == KeyFrom(k) && e.kind == Direct && e.openedMs == PACE * k
  }

  /** m packets reported, and at most the one in the first slot open. */
  predicate Stands(b: Book, m: nat) {
    && Sized(b) && Reports(b.reported, m) && b.count == m
    && forall i :: 1 <= i < OPEN_PACKETS ==> !b.open[i].used
  }

  predicate LastOpen(b: Book, n: nat) {
    |b.open| == OPEN_PACKETS
    && if n == 0 then !b.open[0].used
       else b.open[0] == NewPacket(KeyFrom(n - 1), true, NO_SIGNAL, PACE * (n - 1), 0)
  }

  predicate After(b: Book, n: nat) {
    && LastOpen(b, n) && Stands(b, if n == 0 then 0 else n - 1)
    && Shelf(b.sources, if n == 0 then 0 else n - 1)
  }

  // --- the next entry ---

  /** While there are free entries the last of them is taken. */
  lemma {:induction false} FreeEntry(sources: seq<Source>, m: nat, i: nat, best: nat)
    requires Shelf(sources, m) && m < SOURCES && i <= SOURCES
    requires best == if i == 0 then 0 else if i <= SOURCES - m then i - 1 else SOURCES - 1 - m
    ensures Search(sources, Who(m), i, best) == (SOURCES - 1 - m, false)
    decreases SOURCES - i
  {
    if i < SOURCES {
      FreeEntry(sources, m, i + 1, if i < SOURCES - m then i else SOURCES - 1 - m);
    }
  }

  lemma Sooner(a: nat, b: nat)
    requires a <= b <= 16
    ensures Before(PACE * a, PACE * b) <==> a < b
  {
    SmallRemainder(PACE * a - PACE * b, U32);
  }

  /** Then that of the first sender, heard the longest ago. */
  lemma {:induction false} FirstEntry(sources: seq<Source>, m: nat, i: nat, best: nat)
    requires Shelf(sources, m) && m >= SOURCES && i <= SOURCES && best == if i == 0 then 0 else i - 1
    ensures Search(sources, Who(m), i, best) == (SOURCES - 1, false)
    decreases SOURCES - i
  {
    if i < SOURCES {
      Sooner(SOURCES - 1 - i, SOURCES - 1 - best);
      FirstEntry(sources, m, i + 1, i);
    }
  }

  lemma NextEntry(sources: seq<Source>, m: nat, s: Source)
    requires Shelf(sources, m) && m < SOURCES && Holds(s, m)
    ensures Shelf(WithSource(sources, Who(m))[Place(sources, Who(m)) := s], m + 1)
  {
    FreeEntry(sources, m, 0, 0);
  }

  predicate Without(sources: seq<Source>, sender: Sender) {
    forall i :: 0 <= i < |sources| ==> !Owns(sources[i], sender)
  }

  lemma LastEntry(sources: seq<Source>, m: nat, s: Source)
    requires Shelf(sources, m) && m >= SOURCES && Holds(s, m)
    ensures Without(WithSource(sources, Who(m))[Place(sources, Who(m)) := s], Who(0))
  {
    FirstEntry(sources, m, 0, 0);
  }

  // --- one more frame ---

  lemma {:induction false} RestIdle(b: Book, now: nat, i: nat)
    requires Sized(b) && i <= OPEN_PACKETS && forall k :: i <= k < OPEN_PACKETS ==> !b.open[k].used
    ensures Ticked(b, now, i) == b
    decreases OPEN_PACKETS - i
  {
    if i < OPEN_PACKETS {
      RestIdle(b, now, i + 1);
    }
  }

  /** The tick of a frame reports the packet before. */
  lemma TickReports(b: Book, n: nat)
    requires 0 < n <= 17 && LastOpen(b, n) && Stands(b, n - 1)
    ensures Ticked(b, PACE * n, 0) == Closed(b, 0)
    ensures Stands(Closed(b, 0), n) && !Closed(b, 0).open[0].used
  {
    SmallRemainder(PACE * n - PACE * (n - 1), U32);
    assert Due(b.open[0], PACE * n);
    RestIdle(Closed(b, 0), PACE * n, 1);
  }

  lemma EntryCredited(b: Book, n: nat) returns (s: Source)
    requires 0 < n && LastOpen(b, n) && Sized(b)
    requires !Search(b.sources, Who(n - 1), 0, 0).1
    ensures Holds(s, n - 1)
    ensures Closed(b, 0).sources == WithSource(b.sources, Who(n - 1))[Place(b.sources, Who(n - 1)) := s]
  {
    s := Closed(b, 0).sources[Place(b.sources, Who(n - 1))];
  }

  lemma TickFills(b: Book, n: nat)
    requires 0 < n <= 17 && After(b, n)
    ensures if n <= SOURCES then Shelf(Closed(b, 0).sources, n) else Without(Closed(b, 0).sources, Who(0))
  {
    if n <= SOURCES {
      FreeEntry(b.sources, n - 1, 0, 0);
      var s := EntryCredited(b, n);
      NextEntry(b.sources, n - 1, s);
    } else {
      FirstEntry(b.sources, n - 1, 0, 0);
      var s := EntryCredited(b, n);
      LastEntry(b.sources, n - 1, s);
    }
  }

  lemma OpensFirst(b: Book, key: Key, now: nat)
    requires Sized(b) && !b.open[0].used
    ensures Taken(b, key, true, NO_SIGNAL, now, 0).0 == b.(open := b.open[0 := NewPacket(key, true, NO_SIGNAL, now, 0)])
  {
    assert Slot(b.open, 0, 0) == 0;
  }

  lemma FrameIs(n: nat)
    requires n < 256
    ensures var h := FirstHand(n); Counts(h.frame) && KeyOf(h) == KeyFrom(n) && Forward(h.frame)
  {
  }

  lemma NextFrame(b: Book, n: nat)
    requires n <= SOURCES && After(b, n)
    ensures After(Noted(b, FirstHand(n)).0, n + 1)
  {
    FrameIs(n);
    if n > 0 {
      TickReports(b, n);
      TickFills(b, n);
      OpensFirst(Closed(b, 0), KeyFrom(n), PACE * n);
    } else {
      RestIdle(b, 0, 0);
      OpensFirst(b, KeyFrom(n), PACE * n);
    }
  }

  lemma RunMore(actions: seq<Action>, h: Heard)
    ensures Run(actions + [Hear(h)]).book == Noted(Run(actions).book, h).0
  {
    assert (actions + [Hear(h)])[..|actions|] == actions;
    NotedNone(Run(actions).book, h);
  }

  lemma NotedNone(b: Book, h: Heard)
    requires Sized(b)
    ensures Next(Tally(b, 0, multiset{}, multiset{}, 0, 0, 0), Hear(h)).book == Noted(b, h).0
  {
  }

  lemma HearsMore(n: nat)
    requires n < 256
    ensures Hears(n + 1) == Hears(n) + [Hear(FirstHand(n))]
  {
  }

  lemma {:induction false} RunIs(n: nat) returns (b: Book)
    requires n <= 17
    ensures b == Run(Hears(n)).book && After(b, n)
    decreases n
  {
    if n > 0 {
      var before := RunIs(n - 1);
      HearsMore(n - 1);
      RunMore(Hears(n - 1), FirstHand(n - 1));
      NextFrame(before, n - 1);
      b := Noted(before, FirstHand(n - 1)).0;
    } else {
      assert Hears(0) == [];
      b := Start();
    }
  }

  // --- the late copy ---

  /** The copy is not that of an open packet, and goes to the first report. */
  lemma CopyIsLate(b: Book, m: nat)
    requires 0 < m <= 17 && Stands(b, m) && !b.open[0].used
    ensures Match(b.open, KeyFrom(0), 0, -1) == -1 && Late(b, KeyFrom(0), PACE * m, 1) == 0
  {
    MatchMeaning(b.open, KeyFrom(0), 0, 0, -1);
    LateMeaning(b, KeyFrom(0), PACE * m, 1);
    forall j | 0 <= j < m
      ensures Recent(b.reported[j], PACE * m)
    {
      assert IsReport(b.reported[j], j);
      SmallRemainder(PACE * m - PACE * j, U32);
    }
    assert IsReport(b.reported[0], 0) && Open(b, KeyFrom(0), PACE * m, 0);
    var r := Late(b, KeyFrom(0), PACE * m, 1);
    assert IsReport(b.reported[r], r);
  }

  /** The sender has an entry with one direct reception fewer than reports that had one. */
  ghost predicate Behind(b: Book, sender: Sender) {
    exists i :: 0 <= i < |b.sources| && Owns(b.sources[i], sender) && Gap(b.sources[i]) == 1
  }

  /** A late copy of a direct report whose sender has no entry: the new entry falls behind. */
  lemma NewEntryBehind(b: Book, k: nat, sig: Signal, now: nat)
    requires Sized(b) && k < |b.reported| && b.reported[k].kind == Direct && Without(b.sources, b.reported[k].key.sender)
    ensures Behind(Upgraded(b, k, sig, now), b.reported[k].key.sender)
  {
    var sender := b.reported[k].key.sender;
    SearchKnown(b.sources, sender, 0, 0);
    var j := Place(b.sources, sender);
    assert !Search(b.sources, sender, 0, 0).1 by {
      assert !Owns(b.sources[j], sender);
    }
    assert Owns(Upgraded(b, k, sig, now).sources[j], sender) && Gap(Upgraded(b, k, sig, now).sources[j]) == 1;
  }

  lemma CopyFallsBehind(b: Book, n: nat, b': Book)
    requires 16 < n <= 17 && After(b, n) && b' == Noted(b, Copy(n)).0
    ensures Behind(b', Who(0))
  {
    var h := Copy(n);
    assert KeyOf(h) == KeyFrom(0) && !Forward(h.frame) && Counts(h.frame);
    TickReports(b, n);
    TickFills(b, n);
    CopyIsLate(Closed(b, 0), n);
    assert IsReport(Closed(b, 0).reported[0], 0);
    NewEntryBehind(Closed(b, 0), 0, NO_SIGNAL, PACE * n);
    assert b' == Upgraded(Closed(b, 0), 0, NO_SIGNAL, PACE * n);
  }

  /** After seventeen frames and the copy, the first sender's entry has a report as both and no direct reception. */
  lemma EvictedFallsBehind(n: nat)
    requires n == 17
    ensures Behind(Run(Hears(n) + [Hear(Copy(n))]).book, Who(0))
  {
    var b := RunIs(n);
    RunMore(Hears(n), Copy(n));
    CopyFallsBehind(b, n, Noted(b, Copy(n)).0);
  }
}
