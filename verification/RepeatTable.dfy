/** The static arrays of bd_repeat.cpp and the functions that change them, shown to follow the book. */
module RepeatTable {
  import opened Words
  import opened RepeatBook

  /** The place k events back from the head of the ring. */
  function Back(head: nat, k: nat): (i: nat)
    requires head < EVENTS && 1 <= k <= EVENTS
    ensures i < EVENTS
    ensures i == if k <= head then head - k else head - k + EVENTS
  {
    (head - k + EVENTS) % EVENTS
  }

  /** The ring holds the last `count` reports. */
  ghost predicate RingShows(ring: seq<Event>, head: nat, count: nat, reported: seq<Event>) {
    && |ring| == EVENTS && head < EVENTS && count <= EVENTS && count <= |reported|
    && forall k {:trigger Back(head, k)} :: 1 <= k <= count ==> ring[Back(head, k)] == reported[|reported| - k]
  }

  lemma RingPut(ring: seq<Event>, head: nat, count: nat, reported: seq<Event>, e: Event)
    requires RingShows(ring, head, count, reported)
    ensures RingShows(ring[head := e], (head + 1) % EVENTS, if count < EVENTS then count + 1 else count, reported + [e])
  {
    var ring', head', reported' := ring[head := e], (head + 1) % EVENTS, reported + [e];
    var count' := if count < EVENTS then count + 1 else count;
    forall k | 1 <= k <= count'
      ensures ring'[Back(head', k)] == reported'[|reported'| - k]
    {
      if k > 1 {
        assert Back(head', k) == Back(head, k - 1) != head;
      }
    }
  }

  lemma RingSet(ring: seq<Event>, head: nat, count: nat, reported: seq<Event>, k: nat, e: Event)
    requires RingShows(ring, head, count, reported) && 1 <= k <= count
    ensures RingShows(ring[Back(head, k) := e], head, count, reported[|reported| - k := e])
  {
    var ring', reported' := ring[Back(head, k) := e], reported[|reported| - k := e];
    forall j | 1 <= j <= count
      ensures ring'[Back(head, j)] == reported'[|reported'| - j]
    {
      if j != k {
        assert Back(head, j) != Back(head, k);
        assert ring[Back(head, j)] == reported[|reported| - j];
      }
    }
  }

  class Table {
    const open: array<Packet>
    const sources: array<Source>
    const events: array<Event>
    var head: nat
    var count: nat
    var lastNo: nat

    ghost predicate Shows(b: Book)
      reads this, open, sources, events
    {
      && Sized(b)
      && open[..] == b.open
      && sources[..] == b.sources
      && count == b.count && lastNo == |b.reported|
      && RingShows(events[..], head, count, b.reported)
    }

    constructor ()
      ensures Shows(Start())
      ensures fresh(open) && fresh(sources) && fresh(events)
    {
      var b := Start();
      open := new Packet[OPEN_PACKETS](i requires 0 <= i < OPEN_PACKETS => b.open[i]);
      sources := new Source[SOURCES](_ => NO_SOURCE);
      events := new Event[EVENTS](_ => Event(0, Key(Sender(0, 0), 0, 0), 0, 0, 0, NO_SIGNAL, NO_SIGNAL, Both, 0));
      head, count, lastNo := 0, 0, 0;
    }

    /** source_for */
    method SourceFor(sender: Sender) returns (j: nat)
      requires sources.Length == SOURCES
      modifies sources
      ensures sources[..] == WithSource(old(sources[..]), sender) && j == Place(old(sources[..]), sender)
    {
      ghost var was := sources[..];
      j := 0;
      for i := 0 to SOURCES
        invariant j < SOURCES && sources[..] == was
        invariant Search(was, sender, i, j) == Search(was, sender, 0, 0)
      {
        if sources[i].used && sources[i].sender == sender {
          return i;
        }
        if !sources[i].used || (sources[j].used && Before(sources[i].lastMs, sources[j].lastMs)) {
          j := i;
        }
      }
      sources[j] := NewSource(sender);
    }

    /** close_packet */
    method ClosePacket(i: nat, ghost b: Book)
      requires Shows(b) && i < OPEN_PACKETS
      modifies this, open, sources, events
      ensures Shows(Closed(b, i))
    {
      var p := open[i];
      var j := SourceFor(p.key.sender);
      var s := Flagged(sources[j], p);
      var kind := KindOf(p, p.key.typ in s.flags);
      var e := EventOf(p, kind, lastNo + 1);
      sources[j] := Credited(s, p, kind);
      RingPut(events[..], head, count, b.reported, e);
      lastNo := lastNo + 1;
      events[head] := e;
      head := (head + 1) % EVENTS;
      if count < EVENTS {
        count := count + 1;
      }
      open[i] := p.(used := false);
    }

    /** bd_repeat_tick */
    method Tick(now: nat, ghost b: Book)
      requires Shows(b)
      modifies this, open, sources, events
      ensures Shows(Ticked(b, now, 0))
    {
      ghost var c := b;
      for i := 0 to OPEN_PACKETS
        invariant Shows(c) && Ticked(c, now, i) == Ticked(b, now, 0)
      {
        if open[i].used && Wrap(now - open[i].openedMs) >= COPY_WINDOW {
          ClosePacket(i, c);
          c := Closed(c, i);
        }
      }
    }

    /** The loop of upgrade_reported_packet over the ring, newest first. */
    method FindLate(key: Key, now: nat, ghost b: Book) returns (k: nat)
      requires Shows(b)
      ensures k <= b.count
      ensures Late(b, key, now, 1) == if k == 0 then -1 else |b.reported| - k
    {
      var i := 1;
      while i <= count
        invariant 1 <= i <= count + 1 && Late(b, key, now, i) == Late(b, key, now, 1)
      {
        var e := events[Back(head, i)];
        if Wrap(now - e.openedMs) > LATE_COPY {
          return 0;
        }
        if e.key == key && (e.kind == Both || e.kind == Direct) {
          return i;
        }
        i := i + 1;
      }
      k := 0;
    }

    /** upgrade_reported_packet */
    method Upgrade(key: Key, sig: Signal, now: nat, ghost b: Book) returns (found: bool)
      requires Shows(b)
      modifies sources, events
      ensures found <==> Late(b, key, now, 1) >= 0
      ensures Shows(if found then Upgraded(b, Late(b, key, now, 1), sig, now) else b)
    {
      var k := FindLate(key, now, b);
      found := k > 0;
      if found {
        var at := Back(head, k);
        var e := events[at];
        RingSet(events[..], head, count, b.reported, k, UpgradedEvent(e, sig, now));
        events[at] := UpgradedEvent(e, sig, now);
        var j := SourceFor(e.key.sender);
        sources[j] := UpgradedSource(sources[j], e, sig, now);
      }
    }

    method FindMatch(key: Key) returns (m: int)
      ensures m == Match(open[..], key, 0, -1)
    {
      m := -1;
      for i := 0 to open.Length
        invariant -1 <= m < open.Length && Match(open[..], key, i, m) == Match(open[..], key, 0, -1)
      {
        if open[i].used && open[i].key == key && (m < 0 || After(open[i].openedMs, open[m].openedMs)) {
          m := i;
        }
      }
    }

    method FindSlot() returns (r: nat)
      requires open.Length > 0
      ensures r == Slot(open[..], 0, 0)
    {
      r := 0;
      for i := 0 to open.Length
        invariant r < open.Length && Slot(open[..], i, r) == Slot(open[..], 0, 0)
      {
        if !open[i].used {
          return i;
        }
        if Before(open[i].openedMs, open[r].openedMs) {
          r := i;
        }
      }
    }

    method OpenPacket(p: Packet, ghost b: Book)
      requires Shows(b)
      modifies this, open, sources, events
      ensures Shows(Opened(b, p))
    {
      var i := FindSlot();
      if open[i].used {
        ClosePacket(i, b);
      }
      open[i] := p;
    }

    /** The second half of bd_repeat_note, for a frame that counts. */
    method Take(key: Key, forward: bool, sig: Signal, now: nat, ts: nat, ghost b: Book)
      requires Shows(b)
      modifies this, open, sources, events
      ensures Shows(Taken(b, key, forward, sig, now, ts).0)
    {
      if !forward {
        var m := FindMatch(key);
        if m >= 0 {
          open[m] := Joined(open[m], sig, now);
          return;
        }
        var late := Upgrade(key, sig, now, b);
        if late {
          return;
        }
      }
      OpenPacket(NewPacket(key, forward, sig, now, ts), b);
    }

    /** note_name */
    method NoteName(sender: Sender, text: seq<Byte>, ghost b: Book)
      requires Shows(b)
      modifies sources
      ensures Shows(Named(b, sender, text))
    {
      var name := NameOf(text, 0);
      if name != [] {
        var j := SourceFor(sender);
        sources[j] := sources[j].(name := name);
      }
    }

    /** bd_repeat_note */
    method Note(h: Heard, ghost b: Book)
      requires Shows(b)
      modifies this, open, sources, events
      ensures Shows(Noted(b, h).0)
    {
      if |h.frame| < 4 || !Tracked(h.frame[0] % 64) {
        return;
      }
      ghost var c := b;
      if h.frame[0] % 64 == TYPE_NAME && h.frame[0] < 128 {
        NoteName(SenderOf(h.frame), h.frame[4..], b);
        c := Named(b, SenderOf(h.frame), h.frame[4..]);
      }
      Tick(h.tickMs, c);
      Take(KeyOf(h), Forward(h.frame), h.sig, h.nowMs, h.ts, Ticked(c, h.tickMs, 0));
    }

    /** bd_repeat_next_delay_ms */
    method NextDelayMs(now: nat) returns (next: nat)
      ensures next == NextDelay(open[..], now, 0, NEVER)
    {
      next := NEVER;
      for i := 0 to open.Length
        invariant NextDelay(open[..], now, i, next) == NextDelay(open[..], now, 0, NEVER)
      {
        if open[i].used {
          var left := Left(open[i], now);
          if left < next {
            next := left;
          }
        }
      }
    }

    /** The events of bd_repeat_write, in its order. */
    method EventsWritten(ghost b: Book) returns (list: seq<Event>)
      requires Shows(b)
      ensures list == b.reported[|b.reported| - b.count..]
    {
      list := [];
      for i := 0 to count
        invariant list == b.reported[|b.reported| - count..|b.reported| - count + i]
      {
        list := list + [events[Back(head, count - i)]];
      }
    }

    /** bd_repeat_reset */
    method Reset(ghost b: Book)
      requires Shows(b)
      modifies this, sources
      ensures Shows(Cleared(b))
    {
      forall i | 0 <= i < sources.Length {
        sources[i] := NO_SOURCE;
      }
      head, count := 0, 0;
    }
  }
}
