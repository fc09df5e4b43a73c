/** What holds of the book of bd_repeat.cpp over whole runs. */
module RepeatLaws {
  import opened Words
  import opened RepeatBook

  // --- the state between operations ---

  predicate PacketOk(p: Packet) {
    p.used ==> p.copies <= MAX_COPIES && (p.direct || p.copies > 0)
  }

  predicate EventOk(e: Event) {
    && e.copies <= MAX_COPIES
    && (e.kind == Direct <==> e.copies == 0)
  }

  /** Some total of n delays between the extremes, which the stored 32-bit sum stands for. */
  ghost predicate DelayTotal(s: Source, total: nat) {
    && Wrap(total) == s.sumDelay
    && s.minDelay * s.nDelay <= total <= s.maxDelay * s.nDelay
    && (s.nDelay > 0 ==> s.minDelay <= s.maxDelay < 0x1_0000)
  }

  ghost predicate DelaysOk(s: Source) {
    exists total: nat :: DelayTotal(s, total)
  }

  ghost predicate SourceOk(s: Source) {
    && s.nDelay == s.both
    && s.nCopy == s.both + s.repeated
    && s.nDirect <= s.both + s.direct + s.plain
    && DelaysOk(s)
  }

  predicate OneEach(sources: seq<Source>) {
    forall i, j :: 0 <= i < j < |sources| && sources[i].used && sources[j].used ==> sources[i].sender != sources[j].sender
  }

  ghost predicate SourcesOk(sources: seq<Source>) {
    OneEach(sources) && forall i {:trigger SourceOk(sources[i])} :: 0 <= i < |sources| ==> SourceOk(sources[i])
  }

  ghost predicate BookOk(b: Book) {
    && Sized(b)
    && (forall i :: 0 <= i < |b.open| ==> PacketOk(b.open[i]) && b.open[i].delayMs < 0x1_0000)
    && (forall i :: 0 <= i < |b.reported| ==> EventOk(b.reported[i]) && b.reported[i].no == i + 1)
    && SourcesOk(b.sources)
  }

  // --- sources ---

  /** The search finds the sender's entry wherever it is. */
  lemma {:induction false} SearchKnown(sources: seq<Source>, sender: Sender, i: nat, best: nat)
    requires best < |sources| && i <= |sources|
    ensures var (j, known) := Search(sources, sender, i, best);
      && (known ==> i <= j && sources[j].used && sources[j].sender == sender)
      && (!known ==> forall k :: i <= k < |sources| ==> !(sources[k].used && sources[k].sender == sender))
    decreases |sources| - i
  {
    if i < |sources| && !(sources[i].used && sources[i].sender == sender) {
      var s := sources[i];
      var best' := if !s.used || (sources[best].used && Before(s.lastMs, sources[best].lastMs)) then i else best;
      SearchKnown(sources, sender, i + 1, best');
    }
  }

  /** After source_for the sender has an entry, at the place given. */
  lemma WithSourceOk(sources: seq<Source>, sender: Sender)
    requires sources != [] && SourcesOk(sources)
    ensures var s, j := WithSource(sources, sender), Place(sources, sender);
      SourcesOk(s) && SourceOk(s[j]) && s[j].used && s[j].sender == sender
  {
    SearchKnown(sources, sender, 0, 0);
    var (j, known) := Search(sources, sender, 0, 0);
    if known {
      assert SourceOk(sources[j]);
    } else {
      PutNew(sources, j, sender, NewSource(sender));
    }
  }

  /** That entry is the old one if there was one; at most one other entry is given up for it. */
  lemma WithSourceKeeps(sources: seq<Source>, sender: Sender)
    requires sources != [] && OneEach(sources)
    ensures var s, j := WithSource(sources, sender), Place(sources, sender);
      && (forall i :: 0 <= i < |s| && i != j ==> s[i] == sources[i])
      && (forall i :: 0 <= i < |sources| && sources[i].used && sources[i].sender == sender ==> i == j && s == sources)
      && (s[j] == sources[j] || s[j] == NewSource(sender))
  {
    SearchKnown(sources, sender, 0, 0);
  }

  lemma NewSourceOk(sender: Sender)
    ensures SourceOk(NewSource(sender))
  {
    assert DelayTotal(NewSource(sender), 0);
  }

  lemma NoSourceOk()
    ensures SourceOk(NO_SOURCE)
  {
    assert DelayTotal(NO_SOURCE, 0);
  }

  lemma PutNew(sources: seq<Source>, j: nat, sender: Sender, s: Source)
    requires SourcesOk(sources) && j < |sources| && s == NewSource(sender)
    requires forall k :: 0 <= k < |sources| ==> !(sources[k].used && sources[k].sender == sender)
    ensures SourcesOk(sources[j := s]) && SourceOk(s)
  {
    NewSourceOk(sender);
    PutSource(sources, j, s);
  }

  lemma PutSource(sources: seq<Source>, j: nat, s: Source)
    requires SourcesOk(sources) && j < |sources| && s.used && SourceOk(s)
    requires forall k :: 0 <= k < |sources| && k != j ==> !(sources[k].used && sources[k].sender == s.sender)
    ensures SourcesOk(sources[j := s])
  {
    var t := sources[j := s];
    forall i | 0 <= i < |t|
      ensures SourceOk(t[i])
    {
      if i != j {
        assert SourceOk(sources[i]);
      }
    }
  }

  lemma AddDelayOk(s: Source, delayMs: nat)
    requires delayMs < 0x1_0000 && DelaysOk(s)
    ensures DelaysOk(AddDelay(s, delayMs))
  {
    var total: nat :| DelayTotal(s, total);
    var t := AddDelay(s, delayMs);
    WrapAdd(total, delayMs);
    if s.nDelay > 0 {
      MulOrder(t.minDelay, s.minDelay, s.nDelay);
      MulOrder(s.maxDelay, t.maxDelay, s.nDelay);
    }
    OneMore(s.nDelay, t.minDelay);
    OneMore(s.nDelay, t.maxDelay);
    assert DelayTotal(t, total + delayMs);
  }

  lemma SameDelays(s: Source, t: Source)
    requires DelaysOk(s)
    requires t.sumDelay == s.sumDelay && t.nDelay == s.nDelay && t.minDelay == s.minDelay && t.maxDelay == s.maxDelay
    ensures DelaysOk(t)
  {
    var total: nat :| DelayTotal(s, total);
    assert DelayTotal(t, total);
  }

  lemma CreditedOk(s: Source, p: Packet, flagged: bool)
    requires SourceOk(s) && p.delayMs < 0x1_0000
    ensures SourceOk(Credited(s, p, KindOf(p, flagged)))
  {
    var kind := KindOf(p, flagged);
    var t := Credited(s, p, kind);
    if kind == Both {
      AddDelayOk(s, p.delayMs);
      SameDelays(AddDelay(s, p.delayMs), t);
    } else {
      SameDelays(s, t);
    }
  }

  lemma UpgradedSourceOk(s: Source, e: Event, sig: Signal, now: nat)
    requires SourceOk(s)
    ensures SourceOk(UpgradedSource(s, e, sig, now))
  {
    var d := Wrap(now - e.openedMs) % 0x1_0000;
    if e.kind != Both {
      AddDelayOk(s, d);
      SameDelays(AddDelay(s, d), UpgradedSource(s, e, sig, now));
    } else {
      SameDelays(s, UpgradedSource(s, e, sig, now));
    }
  }

  // --- the operations keep the state ---

  lemma ClosedOk(b: Book, i: nat)
    requires BookOk(b) && i < OPEN_PACKETS && b.open[i].used
    ensures BookOk(Closed(b, i))
  {
    var p := b.open[i];
    WithSourceOk(b.sources, p.key.sender);
    var sources, j := WithSource(b.sources, p.key.sender), Place(b.sources, p.key.sender);
    var s := Flagged(sources[j], p);
    SameDelays(sources[j], s);
    CreditedOk(s, p, p.key.typ in s.flags);
    PutSource(sources, j, Credited(s, p, KindOf(p, p.key.typ in s.flags)));
  }

  lemma {:induction false} TickedOk(b: Book, now: nat, i: nat)
    requires BookOk(b) && i <= OPEN_PACKETS
    ensures BookOk(Ticked(b, now, i))
    decreases OPEN_PACKETS - i
  {
    if i < OPEN_PACKETS {
      if Due(b.open[i], now) {
        ClosedOk(b, i);
      }
      TickedOk(if Due(b.open[i], now) then Closed(b, i) else b, now, i + 1);
    }
  }

  lemma UpgradedOk(b: Book, k: nat, sig: Signal, now: nat)
    requires BookOk(b) && k < |b.reported| && (b.reported[k].kind == Both || b.reported[k].kind == Direct)
    ensures BookOk(Upgraded(b, k, sig, now))
  {
    var e := b.reported[k];
    WithSourceOk(b.sources, e.key.sender);
    var sources, j := WithSource(b.sources, e.key.sender), Place(b.sources, e.key.sender);
    UpgradedSourceOk(sources[j], e, sig, now);
    PutSource(sources, j, UpgradedSource(sources[j], e, sig, now));
  }

  lemma NamedOk(b: Book, sender: Sender, text: seq<Byte>)
    requires BookOk(b)
    ensures BookOk(Named(b, sender, text))
  {
    var name := NameOf(text, 0);
    if name != [] {
      WithSourceOk(b.sources, sender);
      var sources, j := WithSource(b.sources, sender), Place(b.sources, sender);
      SameDelays(sources[j], sources[j].(name := name));
      PutSource(sources, j, sources[j].(name := name));
    }
  }

  lemma OpenedOk(b: Book, p: Packet)
    requires BookOk(b) && PacketOk(p) && p.delayMs < 0x1_0000
    ensures BookOk(Opened(b, p))
  {
    var i := Slot(b.open, 0, 0);
    if b.open[i].used {
      ClosedOk(b, i);
    }
  }

  lemma {:induction false} MatchFits(open: seq<Packet>, key: Key, i: nat, best: int)
    requires i <= |open| && -1 <= best < |open|
    requires best >= 0 ==> open[best].used && open[best].key == key
    ensures var m := Match(open, key, i, best); m >= 0 ==> open[m].used && open[m].key == key
    decreases |open| - i
  {
    if i < |open| {
      if open[i].used && open[i].key == key && (best < 0 || After(open[i].openedMs, open[best].openedMs)) {
        MatchFits(open, key, i + 1, i);
      } else {
        MatchFits(open, key, i + 1, best);
      }
    }
  }

  lemma TakenOk(b: Book, key: Key, forward: bool, sig: Signal, now: nat, ts: nat)
    requires BookOk(b)
    ensures BookOk(Taken(b, key, forward, sig, now, ts).0)
  {
    var m := if forward then -1 else Match(b.open, key, 0, -1);
    var k := if forward then -1 else Late(b, key, now, 1);
    if m >= 0 {
      MatchFits(b.open, key, 0, -1);
    } else if k >= 0 {
      UpgradedOk(b, k, sig, now);
    } else {
      OpenedOk(b, NewPacket(key, forward, sig, now, ts));
    }
  }

  lemma NotedOk(b: Book, h: Heard)
    requires BookOk(b)
    ensures BookOk(Noted(b, h).0)
  {
    if Counts(h.frame) {
      var isName := h.frame[0] % 64 == TYPE_NAME && h.frame[0] < 128;
      if isName {
        NamedOk(b, SenderOf(h.frame), h.frame[4..]);
      }
      var named := if isName then Named(b, SenderOf(h.frame), h.frame[4..]) else b;
      TickedOk(named, h.tickMs, 0);
      TakenOk(Ticked(named, h.tickMs, 0), KeyOf(h), Forward(h.frame), h.sig, h.nowMs, h.ts);
    }
  }

  lemma NoneOk()
    ensures SourcesOk(seq(SOURCES, _ => NO_SOURCE))
  {
    var s := seq(SOURCES, _ => NO_SOURCE);
    forall i | 0 <= i < |s|
      ensures SourceOk(s[i])
    {
      assert s[i] == NO_SOURCE;
      NoSourceOk();
    }
  }

  lemma ClearedOk(b: Book)
    requires BookOk(b)
    ensures BookOk(Cleared(b))
  {
    NoneOk();
  }

  lemma StartOk()
    ensures BookOk(Start())
  {
    NoneOk();
  }
}
