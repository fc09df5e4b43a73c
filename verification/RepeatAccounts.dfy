/**
 * What bd_repeat.cpp says of one sender, told from its reports since the last reset: as long as
 * its entry is kept, the kinds follow the forward bit, and the counters and sums are those of the reports.
 */
module RepeatAccounts {
  import opened Words
  import opened RepeatBook
  import opened RepeatLaws
  import opened RepeatRuns
  import opened RepeatTiming

  // --- the entry of a sender ---

  predicate Owns(s: Source, sender: Sender) {
    s.used && s.sender == sender
  }

  ghost predicate Known(sources: seq<Source>, sender: Sender) {
    exists i :: 0 <= i < |sources| && Owns(sources[i], sender)
  }

  /** The entry of a sender, or a fresh one. */
  ghost function Account(sources: seq<Source>, sender: Sender): Source {
    if Known(sources, sender) then
      var i :| 0 <= i < |sources| && Owns(sources[i], sender);
      sources[i]
    else NewSource(sender)
  }

  lemma AccountIs(sources: seq<Source>, i: nat, sender: Sender)
    requires OneEach(sources) && i < |sources| && Owns(sources[i], sender)
    ensures Account(sources, sender) == sources[i]
  {
    assert Known(sources, sender);
  }

  /** source_for, looking for `other`, takes the entry of this sender for it. */
  predicate GivesUp(sources: seq<Source>, other: Sender, sender: Sender)
    requires sources != []
  {
    var (j, known) := Search(sources, other, 0, 0);
    !known && Owns(sources[j], sender)
  }

  lemma LookedUp(sources: seq<Source>, other: Sender)
    requires sources != [] && SourcesOk(sources)
    ensures WithSource(sources, other)[Place(sources, other)] == Account(sources, other)
  {
    SearchKnown(sources, other, 0, 0);
    var (j, known) := Search(sources, other, 0, 0);
    if known {
      AccountIs(sources, j, other);
    } else {
      assert !Known(sources, other);
    }
  }

  /** An entry is looked up, or made, and changed: the entry of every sender not given up for it stays. */
  lemma AccountPut(sources: seq<Source>, other: Sender, sender: Sender, s: Source, sources': seq<Source>)
    requires sources != [] && SourcesOk(sources) && SourcesOk(sources') && !GivesUp(sources, other, sender)
    requires s.used && s.sender == other && sources' == WithSource(sources, other)[Place(sources, other) := s]
    ensures Account(sources', sender) == if other == sender then s else Account(sources, sender)
  {
    var j := Place(sources, other);
    WithSourceKeeps(sources, other);
    SearchKnown(sources, other, 0, 0);
    if other == sender {
      AccountIs(sources', j, sender);
    } else if Known(sources, sender) {
      var i :| 0 <= i < |sources| && Owns(sources[i], sender);
      assert i != j && sources'[i] == sources[i];
      AccountIs(sources, i, sender);
      AccountIs(sources', i, sender);
    } else {
      assert forall i :: 0 <= i < |sources| ==> !Owns(sources[i], sender);
      assert !Known(sources', sender);
    }
  }

  // --- which operations give up the entry of a sender ---

  predicate TickGivesUp(b: Book, now: nat, i: nat, sender: Sender)
    requires Sized(b) && i <= OPEN_PACKETS
    decreases OPEN_PACKETS - i, now
  {
    i < OPEN_PACKETS
    && ((Due(b.open[i], now) && GivesUp(b.sources, b.open[i].key.sender, sender))
        || TickGivesUp(if Due(b.open[i], now) then Closed(b, i) else b, now, i + 1, sender))
  }

  predicate TakeGivesUp(b: Book, key: Key, forward: bool, now: nat, sender: Sender)
    requires Sized(b)
  {
    var m := if forward then -1 else Match(b.open, key, 0, -1);
    var k := if forward then -1 else Late(b, key, now, 1);
    var i := Slot(b.open, 0, 0);
    if m >= 0 then false
    else if k >= 0 then GivesUp(b.sources, b.reported[k].key.sender, sender)
    else b.open[i].used && GivesUp(b.sources, b.open[i].key.sender, sender)
  }

  predicate NoteGivesUp(b: Book, h: Heard, sender: Sender)
    requires Sized(b)
  {
    Counts(h.frame)
    && var isName := h.frame[0] % 64 == TYPE_NAME && h.frame[0] < 128;
       var named := if isName then Named(b, SenderOf(h.frame), h.frame[4..]) else b;
    || (isName && NameOf(h.frame[4..], 0) != [] && GivesUp(b.sources, SenderOf(h.frame), sender))
    || TickGivesUp(named, h.tickMs, 0, sender)
    || TakeGivesUp(Ticked(named, h.tickMs, 0), KeyOf(h), Forward(h.frame), h.nowMs, sender)
  }

  /** Whether, since the last reset, the entry of this sender was given up for another sender. */
  predicate LostEntry(actions: seq<Action>, sender: Sender)
    decreases |actions|
  {
    if actions == [] then false
    else
      var before, b := actions[..|actions| - 1], Run(actions[..|actions| - 1]).book;
      match actions[|actions| - 1]
      case Reset => false
      case Tick(now) => LostEntry(before, sender) || TickGivesUp(b, now, 0, sender)
      case Hear(h) => LostEntry(before, sender) || NoteGivesUp(b, h, sender)
  }

  /** How many packets had been reported at the last reset. */
  function Since(actions: seq<Action>): nat
    decreases |actions|
  {
    if actions == [] then 0
    else
      var before := actions[..|actions| - 1];
      if actions[|actions| - 1].Reset? then |Run(before).book.reported| else Since(before)
  }

  // --- sums over the reports of a sender ---

  datatype Field =
    | Boths | Directs | Repeats | Plains
    | Received | Copied | Delayed
    | RssiDirect | SnrDirect | RssiCopy | SnrCopy | Delays | Further

  /** The signal of a direct reception, which for a packet never sent with the bit is the one it was heard with. */
  function DirectSignal(e: Event): Signal {
    match e.kind
    case Both => e.sigDirect
    case Direct => e.sigDirect
    case Plain => e.sigCopy
    case Repeated => NO_SIGNAL
  }

  function CopySignal(e: Event): Signal {
    if e.kind == Both || e.kind == Repeated then e.sigCopy else NO_SIGNAL
  }

  /** What a report adds to a field. */
  function Weight(f: Field, e: Event): int {
    match f
    case Boths => if e.kind == Both then 1 else 0
    case Directs => if e.kind == Direct then 1 else 0
    case Repeats => if e.kind == Repeated then 1 else 0
    case Plains => if e.kind == Plain then 1 else 0
    case Received => if e.kind != Repeated then 1 else 0
    case Copied => if e.kind == Both || e.kind == Repeated then 1 else 0
    case Delayed => if e.kind == Both then 1 else 0
    case RssiDirect => DirectSignal(e).rssi
    case SnrDirect => DirectSignal(e).snr
    case RssiCopy => CopySignal(e).rssi
    case SnrCopy => CopySignal(e).snr
    case Delays => if e.kind == Both then e.delayMs else 0
    case Further => if e.copies > 1 then e.copies - 1 else 0
  }

  function SumOf(f: Field, events: seq<Event>, sender: Sender): int
    decreases |events|
  {
    if events == [] then 0
    else
      var e := events[|events| - 1];
      SumOf(f, events[..|events| - 1], sender) + if e.key.sender == sender then Weight(f, e) else 0
  }

  function Amount(s: Source, f: Field): int {
    match f
    case Boths => s.both
    case Directs => s.direct
    case Repeats => s.repeated
    case Plains => s.plain
    case Received => s.nDirect
    case Copied => s.nCopy
    case Delayed => s.nDelay
    case RssiDirect => s.sumDirect.rssi
    case SnrDirect => s.sumDirect.snr
    case RssiCopy => s.sumCopy.rssi
    case SnrCopy => s.sumCopy.snr
    case Delays => s.sumDelay
    case Further => s.extra
  }

  /** The total of the delays is kept in 32 bits, the other fields are exact. */
  predicate Holds(s: Source, f: Field, sum: int) {
    Amount(s, f) == if f == Delays then Wrap(sum) else sum
  }

  ghost predicate AmountsTold(s: Source, events: seq<Event>, sender: Sender) {
    forall f {:trigger Amount(s, f)} :: f != Further ==> Holds(s, f, SumOf(f, events, sender))
  }

  lemma SumMore(f: Field, events: seq<Event>, sender: Sender, e: Event)
    ensures SumOf(f, events + [e], sender) == SumOf(f, events, sender) + if e.key.sender == sender then Weight(f, e) else 0
  {
    assert (events + [e])[..|events|] == events;
  }

  lemma {:induction false} SumPut(f: Field, events: seq<Event>, sender: Sender, k: nat, e: Event)
    requires k < |events| && e.key == events[k].key
    ensures SumOf(f, events[k := e], sender)
            == SumOf(f, events, sender) + if e.key.sender == sender then Weight(f, e) - Weight(f, events[k]) else 0
    decreases |events|
  {
    var n := |events| - 1;
    if k < n {
      SumPut(f, events[..n], sender, k, e);
      assert events[k := e][..n] == events[..n][k := e];
    } else {
      assert events[k := e][..n] == events[..n];
    }
  }

  lemma {:induction false} SumSome(f: Field, events: seq<Event>, sender: Sender, k: nat)
    requires k < |events| && events[k].key.sender == sender && (f == Directs || f == Delayed)
    ensures SumOf(f, events, sender) >= Weight(f, events[k])
    decreases |events|
  {
    SumNat(f, events[..|events| - 1], sender);
    if k < |events| - 1 {
      SumSome(f, events[..|events| - 1], sender, k);
    }
  }

  lemma {:induction false} SumNat(f: Field, events: seq<Event>, sender: Sender)
    requires f == Directs || f == Delayed
    ensures SumOf(f, events, sender) >= 0
    decreases |events|
  {
    if events != [] {
      SumNat(f, events[..|events| - 1], sender);
    }
  }

  // --- the kinds ---

  /** One of the first n packets was of this sender and type and had the forward bit. */
  ghost predicate BitBefore(events: seq<Event>, n: int, key: Key) {
    exists j :: 0 <= j < n && j < |events| && WithBit(events[j]) && SameSort(events[j].key, key)
  }

  predicate SameSort(a: Key, b: Key) {
    a.sender == b.sender && a.typ == b.typ
  }

  /** A packet without direct reception counts as repeated exactly if one with the bit came before it. */
  ghost predicate KindTold(events: seq<Event>, i: nat)
    requires i < |events|
  {
    WithBit(events[i]) || (if BitBefore(events, i, events[i].key) then events[i].kind == Repeated else events[i].kind == Plain)
  }

  ghost predicate KindsTold(events: seq<Event>, sender: Sender) {
    forall i {:trigger KindTold(events, i)} :: 0 <= i < |events| && events[i].key.sender == sender ==> KindTold(events, i)
  }

  ghost predicate FlagsTold(s: Source, events: seq<Event>, sender: Sender) {
    forall key: Key {:trigger BitBefore(events, |events|, key)} :: key.sender == sender ==>
      (key.typ in s.flags <==> BitBefore(events, |events|, key))
  }

  // --- delays and the last packet ---

  predicate Delay(events: seq<Event>, i: int, sender: Sender) {
    0 <= i < |events| && events[i].kind == Both && events[i].key.sender == sender
  }

  /** The extremes are those of the delays reported. */
  ghost predicate RangeTold(s: Source, events: seq<Event>, sender: Sender) {
    && (forall i :: Delay(events, i, sender) ==> s.minDelay <= events[i].delayMs <= s.maxDelay)
    && (s.nDelay > 0 ==> exists i :: Delay(events, i, sender) && events[i].delayMs == s.minDelay)
    && (s.nDelay > 0 ==> exists i :: Delay(events, i, sender) && events[i].delayMs == s.maxDelay)
  }

  /** When the last packet of the sender was opened, on both clocks. */
  function LastOf(events: seq<Event>, sender: Sender): (nat, nat)
    decreases |events|
  {
    if events == [] then (0, 0)
    else
      var e := events[|events| - 1];
      if e.key.sender == sender then (e.openedMs, e.ts) else LastOf(events[..|events| - 1], sender)
  }

  /** Copies behind the first one of a packet: those in its report, and `over` more that came late to a full one. */
  predicate FurtherTold(s: Source, events: seq<Event>, sender: Sender, over: nat) {
    s.extra == SumOf(Further, events, sender) + over
  }

  ghost predicate Told(s: Source, events: seq<Event>, sender: Sender, over: nat) {
    && FurtherTold(s, events, sender, over) && AmountsTold(s, events, sender) && KindsTold(events, sender) && FlagsTold(s, events, sender)
    && RangeTold(s, events, sender) && (s.lastMs, s.lastTs) == LastOf(events, sender)
  }

  // --- a packet is closed ---

  lemma CreditedAmount(s: Source, p: Packet, kind: Kind, no: nat, f: Field)
    requires f != Further && (p.direct <==> kind == Both || kind == Direct)
    ensures var w := Weight(f, EventOf(p, kind, no));
      && Amount(Credited(s, p, kind), f) == (if f == Delays && kind == Both then Wrap(s.sumDelay + w) else Amount(s, f) + w)
      && (f == Delays && kind != Both ==> w == 0)
  {
  }

  lemma AmountsClosed(s: Source, events: seq<Event>, sender: Sender, p: Packet, kind: Kind, no: nat)
    requires AmountsTold(s, events, sender) && p.key.sender == sender && (p.direct <==> kind == Both || kind == Direct)
    ensures AmountsTold(Credited(Flagged(s, p), p, kind), events + [EventOf(p, kind, no)], sender)
  {
    var t, e := Credited(Flagged(s, p), p, kind), EventOf(p, kind, no);
    forall f | f != Further
      ensures Holds(t, f, SumOf(f, events + [e], sender))
    {
      assert Holds(s, f, SumOf(f, events, sender));
      assert Amount(Flagged(s, p), f) == Amount(s, f);
      CreditedAmount(Flagged(s, p), p, kind, no, f);
      SumMore(f, events, sender, e);
      HoldsMore(s, t, f, SumOf(f, events, sender), Weight(f, e));
    }
  }

  lemma BitMore(events: seq<Event>, e: Event, n: nat, key: Key)
    requires n <= |events| + 1
    ensures BitBefore(events + [e], n, key)
            <==> BitBefore(events, n, key) || (n == |events| + 1 && WithBit(e) && SameSort(e.key, key))
  {
    if BitBefore(events + [e], n, key) {
      var j :| 0 <= j < n && WithBit((events + [e])[j]) && SameSort((events + [e])[j].key, key);
      assert j < |events| ==> WithBit(events[j]);
    }
    if BitBefore(events, n, key) {
      var j :| 0 <= j < n && j < |events| && WithBit(events[j]) && SameSort(events[j].key, key);
      assert WithBit((events + [e])[j]);
    }
    assert (events + [e])[|events|] == e;
  }

  lemma KindsMore(events: seq<Event>, sender: Sender, e: Event)
    requires KindsTold(events, sender)
    requires e.key.sender == sender && !WithBit(e) ==>
               e.kind == if BitBefore(events, |events|, e.key) then Repeated else Plain
    ensures KindsTold(events + [e], sender)
  {
    forall i | 0 <= i < |events + [e]| && (events + [e])[i].key.sender == sender
      ensures KindTold(events + [e], i)
    {
      BitMore(events, e, i, (events + [e])[i].key);
      if i < |events| {
        assert KindTold(events, i);
      }
    }
  }

  lemma FlagsClosed(s: Source, events: seq<Event>, sender: Sender, p: Packet, e: Event, s': Source)
    requires FlagsTold(s, events, sender) && p.key.sender == sender && e.key == p.key && (WithBit(e) <==> p.direct)
    requires s'.flags == Flagged(s, p).flags
    ensures FlagsTold(s', events + [e], sender)
  {
    forall key: Key | key.sender == sender
      ensures key.typ in s'.flags <==> BitBefore(events + [e], |events + [e]|, key)
    {
      BitMore(events, e, |events| + 1, key);
      assert BitBefore(events, |events| + 1, key) <==> BitBefore(events, |events|, key);
      assert key.typ in s.flags <==> BitBefore(events, |events|, key);
    }
  }

  lemma DelayMore(events: seq<Event>, e: Event, sender: Sender, i: int)
    ensures Delay(events + [e], i, sender)
            <==> Delay(events, i, sender) || (i == |events| && e.kind == Both && e.key.sender == sender)
    ensures Delay(events, i, sender) ==> (events + [e])[i] == events[i]
  {
  }

  /** No delay at all, as the count says. */
  lemma NoDelays(s: Source, events: seq<Event>, sender: Sender, i: int)
    requires AmountsTold(s, events, sender) && s.nDelay == 0
    ensures !Delay(events, i, sender)
  {
    assert Holds(s, Delayed, SumOf(Delayed, events, sender)) by {
      assert Amount(s, Delayed) == 0;
    }
    if Delay(events, i, sender) {
      SumSome(Delayed, events, sender, i);
    }
  }

  /** A delay that joins the reports, at place k, and the extremes. */
  lemma RangeJoined(s: Source, events: seq<Event>, sender: Sender, s': Source, events': seq<Event>, k: nat)
    requires AmountsTold(s, events, sender) && RangeTold(s, events, sender)
    requires Delay(events', k, sender) && !Delay(events, k, sender) && s'.nDelay > 0
    requires forall i :: i != k ==> (Delay(events', i, sender) <==> Delay(events, i, sender))
    requires forall i :: Delay(events, i, sender) ==> Delay(events', i, sender) && events'[i].delayMs == events[i].delayMs
    requires var d := events'[k].delayMs;
      && s'.minDelay == (if s.nDelay == 0 || d < s.minDelay then d else s.minDelay)
      && s'.maxDelay == (if s.nDelay == 0 || d > s.maxDelay then d else s.maxDelay)
    ensures RangeTold(s', events', sender)
  {
    if s.nDelay == 0 {
      forall i | i != k
        ensures !Delay(events', i, sender)
      {
        NoDelays(s, events, sender, i);
      }
    } else {
      var a :| Delay(events, a, sender) && events[a].delayMs == s.minDelay;
      var b :| Delay(events, b, sender) && events[b].delayMs == s.maxDelay;
      assert Delay(events', a, sender) && Delay(events', b, sender);
    }
  }

  lemma RangeKept(s: Source, events: seq<Event>, sender: Sender, s': Source, events': seq<Event>)
    requires RangeTold(s, events, sender)
    requires s'.minDelay == s.minDelay && s'.maxDelay == s.maxDelay && s'.nDelay == s.nDelay
    requires forall i :: Delay(events', i, sender) <==> Delay(events, i, sender)
    requires forall i :: Delay(events, i, sender) ==> i < |events'| && events'[i].delayMs == events[i].delayMs
    ensures RangeTold(s', events', sender)
  {
    if s.nDelay > 0 {
      var a :| Delay(events, a, sender) && events[a].delayMs == s.minDelay;
      var b :| Delay(events, b, sender) && events[b].delayMs == s.maxDelay;
      assert Delay(events', a, sender) && Delay(events', b, sender);
    }
  }

  lemma CreditedDelay(s: Source, p: Packet, kind: Kind, s': Source)
    requires s' == Credited(Flagged(s, p), p, kind)
    ensures s'.flags == Flagged(s, p).flags && s'.lastMs == p.openedMs && s'.lastTs == p.ts
    ensures kind != Both ==> s'.minDelay == s.minDelay && s'.maxDelay == s.maxDelay && s'.nDelay == s.nDelay
    ensures kind == Both ==>
              && s'.nDelay == s.nDelay + 1
              && s'.minDelay == (if s.nDelay == 0 || p.delayMs < s.minDelay then p.delayMs else s.minDelay)
              && s'.maxDelay == (if s.nDelay == 0 || p.delayMs > s.maxDelay then p.delayMs else s.maxDelay)
  {
  }

  lemma RangeClosed(s: Source, events: seq<Event>, sender: Sender, p: Packet, kind: Kind, e: Event, s': Source)
    requires AmountsTold(s, events, sender) && RangeTold(s, events, sender) && p.key.sender == sender
    requires s' == Credited(Flagged(s, p), p, kind) && e.kind == kind && e.key == p.key && e.delayMs == p.delayMs
    ensures RangeTold(s', events + [e], sender)
  {
    CreditedDelay(s, p, kind, s');
    forall i
      ensures Delay(events + [e], i, sender) <==> Delay(events, i, sender) || (i == |events| && kind == Both)
      ensures Delay(events, i, sender) ==> (events + [e])[i] == events[i]
    {
      DelayMore(events, e, sender, i);
    }
    if kind == Both {
      RangeJoined(s, events, sender, s', events + [e], |events|);
    } else {
      RangeKept(s, events, sender, s', events + [e]);
    }
  }

  /** The sender's own packet. */
  lemma ToldClosed(s: Source, events: seq<Event>, sender: Sender, over: nat, p: Packet, kind: Kind, no: nat, s': Source,
                   events': seq<Event>)
    requires Told(s, events, sender, over) && p.key.sender == sender
    requires kind == KindOf(p, p.key.typ in Flagged(s, p).flags)
    requires s' == Credited(Flagged(s, p), p, kind) && events' == events + [EventOf(p, kind, no)]
    ensures Told(s', events', sender, over)
  {
    var e := EventOf(p, kind, no);
    SumMore(Further, events, sender, e);
    AmountsClosed(s, events, sender, p, kind, no);
    assert p.key.typ in s.flags <==> BitBefore(events, |events|, p.key);
    KindsMore(events, sender, e);
    CreditedDelay(s, p, kind, s');
    FlagsClosed(s, events, sender, p, e, s');
    RangeClosed(s, events, sender, p, kind, e, s');
    assert events'[..|events|] == events;
  }

  /** A packet of another sender. */
  lemma ToldOther(s: Source, events: seq<Event>, sender: Sender, over: nat, e: Event, events': seq<Event>)
    requires Told(s, events, sender, over) && e.key.sender != sender && events' == events + [e]
    ensures Told(s, events', sender, over)
  {
    SumMore(Further, events, sender, e);
    forall f | f != Further
      ensures Holds(s, f, SumOf(f, events', sender))
    {
      assert Holds(s, f, SumOf(f, events, sender)) by {
        assert Amount(s, f) == Amount(s, f);
      }
      SumMore(f, events, sender, e);
    }
    KindsMore(events, sender, e);
    forall key: Key | key.sender == sender
      ensures key.typ in s.flags <==> BitBefore(events', |events'|, key)
    {
      BitMore(events, e, |events| + 1, key);
      assert BitBefore(events, |events| + 1, key) <==> BitBefore(events, |events|, key);
    }
    forall i
      ensures Delay(events', i, sender) <==> Delay(events, i, sender)
      ensures Delay(events, i, sender) ==> events'[i] == events[i]
    {
      DelayMore(events, e, sender, i);
    }
    RangeKept(s, events, sender, s, events');
    assert events'[..|events|] == events;
  }

  // --- a late copy ---

  lemma UpgradedAmount(s: Source, e: Event, sig: Signal, now: nat, f: Field)
    requires f != Further && WithBit(e) && (e.kind == Direct ==> s.direct > 0)
    ensures var w := Weight(f, UpgradedEvent(e, sig, now)) - Weight(f, e);
      && Amount(UpgradedSource(s, e, sig, now), f)
         == (if f == Delays && e.kind == Direct then Wrap(s.sumDelay + w) else Amount(s, f) + w)
      && (f == Delays && e.kind == Both ==> w == 0)
  {
  }

  /** A field that moves on by w, in 32 bits if it is the total of the delays and w is not 0. */
  lemma HoldsMore(s: Source, t: Source, f: Field, sum: int, w: int)
    requires Holds(s, f, sum)
    requires Amount(t, f) == (if f == Delays then Wrap(Amount(s, f) + w) else Amount(s, f) + w)
             || (f == Delays && w == 0 && Amount(t, f) == Amount(s, f))
    ensures Holds(t, f, sum + w)
  {
    if f == Delays {
      WrapAdd(sum, w);
    }
  }

  lemma AmountsUpgraded(s: Source, events: seq<Event>, sender: Sender, k: nat, sig: Signal, now: nat, t: Source,
                        events': seq<Event>)
    requires AmountsTold(s, events, sender) && k < |events| && events[k].key.sender == sender && WithBit(events[k])
    requires t == UpgradedSource(s, events[k], sig, now) && events' == events[k := UpgradedEvent(events[k], sig, now)]
    ensures AmountsTold(t, events', sender)
  {
    var e := events[k];
    var e' := UpgradedEvent(e, sig, now);
    assert Amount(s, Directs) == s.direct;
    if e.kind == Direct {
      SumSome(Directs, events, sender, k);
    }
    forall f | f != Further
      ensures Holds(t, f, SumOf(f, events', sender))
    {
      assert Amount(s, f) == Amount(s, f);
      UpgradedAmount(s, e, sig, now, f);
      SumPut(f, events, sender, k, e');
      HoldsMore(s, t, f, SumOf(f, events, sender), Weight(f, e') - Weight(f, e));
    }
  }

  lemma BitPut(events: seq<Event>, k: nat, e: Event, n: nat, key: Key)
    requires k < |events| && e.key == events[k].key && (WithBit(e) <==> WithBit(events[k]))
    ensures BitBefore(events[k := e], n, key) <==> BitBefore(events, n, key)
  {
    if BitBefore(events[k := e], n, key) {
      var j :| 0 <= j < n && j < |events| && WithBit(events[k := e][j]) && SameSort(events[k := e][j].key, key);
      assert WithBit(events[j]) && SameSort(events[j].key, key);
    }
    if BitBefore(events, n, key) {
      var j :| 0 <= j < n && j < |events| && WithBit(events[j]) && SameSort(events[j].key, key);
      assert WithBit(events[k := e][j]) && SameSort(events[k := e][j].key, key);
    }
  }

  lemma KindsPut(events: seq<Event>, sender: Sender, k: nat, e: Event, events': seq<Event>)
    requires KindsTold(events, sender) && k < |events| && e.key == events[k].key && WithBit(e) && WithBit(events[k])
    requires events' == events[k := e]
    ensures KindsTold(events', sender)
  {
    forall i | 0 <= i < |events'| && events'[i].key.sender == sender
      ensures KindTold(events', i)
    {
      assert KindTold(events, i);
      BitPut(events, k, e, i, events[i].key);
    }
  }

  lemma {:induction false} LastPut(events: seq<Event>, sender: Sender, k: nat, e: Event)
    requires k < |events| && e.key == events[k].key && e.openedMs == events[k].openedMs && e.ts == events[k].ts
    ensures LastOf(events[k := e], sender) == LastOf(events, sender)
    decreases |events|
  {
    var n := |events| - 1;
    if k < n {
      LastPut(events[..n], sender, k, e);
      assert events[k := e][..n] == events[..n][k := e];
    } else {
      assert events[k := e][..n] == events[..n];
    }
  }

  lemma RangeUpgraded(s: Source, events: seq<Event>, sender: Sender, k: nat, sig: Signal, now: nat)
    requires AmountsTold(s, events, sender) && RangeTold(s, events, sender)
    requires k < |events| && events[k].key.sender == sender && WithBit(events[k])
    ensures RangeTold(UpgradedSource(s, events[k], sig, now), events[k := UpgradedEvent(events[k], sig, now)], sender)
  {
    var e := events[k];
    var e', t := UpgradedEvent(e, sig, now), UpgradedSource(s, e, sig, now);
    if e.kind == Both {
      RangeKept(s, events, sender, t, events[k := e']);
    } else {
      RangeJoined(s, events, sender, t, events[k := e'], k);
    }
  }

  /** This report can count no further copy. */
  predicate FullUp(e: Event) {
    e.kind == Both && e.copies >= MAX_COPIES
  }

  /** A late copy of a packet of the sender itself. */
  lemma ToldUpgraded(s: Source, events: seq<Event>, sender: Sender, over: nat, k: nat, sig: Signal, now: nat, s': Source,
                     events': seq<Event>)
    requires Told(s, events, sender, over) && k < |events| && events[k].key.sender == sender && WithBit(events[k])
    requires EventOk(events[k])
    requires s' == UpgradedSource(s, events[k], sig, now) && events' == events[k := UpgradedEvent(events[k], sig, now)]
    ensures Told(s', events', sender, over + if FullUp(events[k]) then 1 else 0)
  {
    var e' := UpgradedEvent(events[k], sig, now);
    SumPut(Further, events, sender, k, e');
    AmountsUpgraded(s, events, sender, k, sig, now, s', events');
    KindsPut(events, sender, k, e', events');
    forall key: Key | key.sender == sender
      ensures key.typ in s'.flags <==> BitBefore(events', |events'|, key)
    {
      assert key.typ in s.flags <==> BitBefore(events, |events|, key);
      BitPut(events, k, e', |events|, key);
    }
    RangeUpgraded(s, events, sender, k, sig, now);
    LastPut(events, sender, k, e');
  }

  /** A late copy of a packet of another sender. */
  lemma ToldElsewhere(s: Source, events: seq<Event>, sender: Sender, over: nat, k: nat, e: Event, events': seq<Event>)
    requires Told(s, events, sender, over) && k < |events| && events[k].key.sender != sender && WithBit(events[k]) && WithBit(e)
    requires e.key == events[k].key && e.openedMs == events[k].openedMs && e.ts == events[k].ts && events' == events[k := e]
    ensures Told(s, events', sender, over)
  {
    SumPut(Further, events, sender, k, e);
    forall f | f != Further
      ensures Holds(s, f, SumOf(f, events', sender))
    {
      assert Amount(s, f) == Amount(s, f);
      SumPut(f, events, sender, k, e);
    }
    KindsPut(events, sender, k, e, events');
    forall key: Key | key.sender == sender
      ensures key.typ in s.flags <==> BitBefore(events', |events'|, key)
    {
      assert key.typ in s.flags <==> BitBefore(events, |events|, key);
      BitPut(events, k, e, |events|, key);
    }
    RangeKept(s, events, sender, s, events');
    LastPut(events, sender, k, e);
  }

  // --- every operation ---

  /** The entry of the sender, or a fresh one, tells of the reports from `since` on, and has this name. */
  ghost predicate SenderTold(b: Book, sender: Sender, since: nat, over: nat, name: seq<Byte>) {
    && Sized(b) && b.count + since <= |b.reported|
    && Told(Account(b.sources, sender), b.reported[since..], sender, over)
    && Account(b.sources, sender).name == name
  }

  lemma AccountUsed(sources: seq<Source>, other: Sender)
    requires sources != [] && SourcesOk(sources)
    ensures var s := Account(sources, other); s.used && s.sender == other
  {
    WithSourceOk(sources, other);
    LookedUp(sources, other);
  }

  /** The entries of all senders after a packet is closed. */
  lemma ClosedAccount(b: Book, i: nat, sender: Sender, t: Source, kind: Kind, b': Book)
    requires BookOk(b) && i < OPEN_PACKETS && b.open[i].used && b' == Closed(b, i)
    requires !GivesUp(b.sources, b.open[i].key.sender, sender) && t == Account(b.sources, b.open[i].key.sender)
    requires kind == KindOf(b.open[i], b.open[i].key.typ in Flagged(t, b.open[i]).flags)
    ensures b'.reported == b.reported + [EventOf(b.open[i], kind, |b.reported| + 1)]
    ensures Account(b'.sources, sender)
            == if b.open[i].key.sender == sender then Credited(Flagged(t, b.open[i]), b.open[i], kind)
               else Account(b.sources, sender)
  {
    var p := b.open[i];
    LookedUp(b.sources, p.key.sender);
    AccountUsed(b.sources, p.key.sender);
    ClosedOk(b, i);
    AccountPut(b.sources, p.key.sender, sender, Credited(Flagged(t, p), p, kind), b'.sources);
  }

  lemma ClosedTold(b: Book, i: nat, sender: Sender, since: nat, over: nat, name: seq<Byte>)
    requires BookOk(b) && SenderTold(b, sender, since, over, name) && i < OPEN_PACKETS && b.open[i].used
    requires !GivesUp(b.sources, b.open[i].key.sender, sender)
    ensures SenderTold(Closed(b, i), sender, since, over, name)
  {
    var p, b' := b.open[i], Closed(b, i);
    var t, no := Account(b.sources, p.key.sender), |b.reported| + 1;
    var kind := KindOf(p, p.key.typ in Flagged(t, p).flags);
    ClosedAccount(b, i, sender, t, kind, b');
    ClosedReports(b, since, over, t, sender, p, kind, no, Account(b'.sources, sender), b'.reported[since..]);
  }

  lemma ClosedReports(b: Book, since: nat, over: nat, t: Source, sender: Sender, p: Packet, kind: Kind, no: nat, s': Source,
                      events': seq<Event>)
    requires since <= |b.reported| && Told(Account(b.sources, sender), b.reported[since..], sender, over)
    requires t == Account(b.sources, p.key.sender) && kind == KindOf(p, p.key.typ in Flagged(t, p).flags)
    requires events' == (b.reported + [EventOf(p, kind, no)])[since..]
    requires s' == if p.key.sender == sender then Credited(Flagged(t, p), p, kind) else Account(b.sources, sender)
    ensures Told(s', events', sender, over)
  {
    assert events' == b.reported[since..] + [EventOf(p, kind, no)];
    if p.key.sender == sender {
      ToldClosed(t, b.reported[since..], sender, over, p, kind, no, s', events');
    } else {
      ToldOther(s', b.reported[since..], sender, over, EventOf(p, kind, no), events');
    }
  }

  lemma UpgradedTold(b: Book, k: nat, sig: Signal, now: nat, sender: Sender, since: nat, over: nat, name: seq<Byte>)
    requires BookOk(b) && SenderTold(b, sender, since, over, name) && |b.reported| - b.count <= k < |b.reported|
    requires WithBit(b.reported[k]) && Wrap(now - b.reported[k].openedMs) <= LATE_COPY
    requires !GivesUp(b.sources, b.reported[k].key.sender, sender)
    ensures SenderTold(Upgraded(b, k, sig, now), sender, since,
                       over + (if b.reported[k].key.sender == sender && FullUp(b.reported[k]) then 1 else 0), name)
  {
    var e, b' := b.reported[k], Upgraded(b, k, sig, now);
    var other := e.key.sender;
    var t := Account(b.sources, other);
    LookedUp(b.sources, other);
    AccountUsed(b.sources, other);
    UpgradedOk(b, k, sig, now);
    AccountPut(b.sources, other, sender, UpgradedSource(t, e, sig, now), b'.sources);
    var events, events' := b.reported[since..], b'.reported[since..];
    assert events' == events[k - since := UpgradedEvent(e, sig, now)] && events[k - since] == e && EventOk(e);
    if other == sender {
      ToldUpgraded(t, events, sender, over, k - since, sig, now, Account(b'.sources, sender), events');
    } else {
      ToldElsewhere(Account(b.sources, sender), events, sender, over, k - since, UpgradedEvent(e, sig, now), events');
    }
  }

  /** The name after a name packet with this text. */
  function Renamed(name: seq<Byte>, text: seq<Byte>): seq<Byte> {
    if NameOf(text, 0) == [] then name else NameOf(text, 0)
  }

  lemma ToldNamed(s: Source, events: seq<Event>, sender: Sender, over: nat, name: seq<Byte>)
    requires Told(s, events, sender, over)
    ensures Told(s.(name := name), events, sender, over)
  {
    var t := s.(name := name);
    forall f | f != Further
      ensures Holds(t, f, SumOf(f, events, sender))
    {
      assert Amount(t, f) == Amount(s, f);
    }
  }

  lemma NamedTold(b: Book, other: Sender, text: seq<Byte>, sender: Sender, since: nat, over: nat, name: seq<Byte>)
    requires BookOk(b) && SenderTold(b, sender, since, over, name)
    requires NameOf(text, 0) != [] ==> !GivesUp(b.sources, other, sender)
    ensures SenderTold(Named(b, other, text), sender, since, over, if other == sender then Renamed(name, text) else name)
  {
    if NameOf(text, 0) != [] {
      var t, b' := Account(b.sources, other), Named(b, other, text);
      LookedUp(b.sources, other);
      AccountUsed(b.sources, other);
      NamedOk(b, other, text);
      AccountPut(b.sources, other, sender, t.(name := NameOf(text, 0)), b'.sources);
      if other == sender {
        ToldNamed(t, b.reported[since..], sender, over, NameOf(text, 0));
      }
    }
  }

  lemma {:induction false} TickedTold(b: Book, now: nat, i: nat, sender: Sender, since: nat, over: nat, name: seq<Byte>)
    requires BookOk(b) && SenderTold(b, sender, since, over, name) && i <= OPEN_PACKETS && !TickGivesUp(b, now, i, sender)
    ensures SenderTold(Ticked(b, now, i), sender, since, over, name)
    decreases OPEN_PACKETS - i
  {
    if i < OPEN_PACKETS {
      var b1 := if Due(b.open[i], now) then Closed(b, i) else b;
      if Due(b.open[i], now) {
        ClosedOk(b, i);
        ClosedTold(b, i, sender, since, over, name);
      }
      TickedTold(b1, now, i + 1, sender, since, over, name);
    }
  }

  lemma OpenedTold(b: Book, p: Packet, sender: Sender, since: nat, over: nat, name: seq<Byte>)
    requires BookOk(b) && SenderTold(b, sender, since, over, name)
    requires var i := Slot(b.open, 0, 0); b.open[i].used ==> !GivesUp(b.sources, b.open[i].key.sender, sender)
    ensures SenderTold(Opened(b, p), sender, since, over, name)
  {
    var i := Slot(b.open, 0, 0);
    if b.open[i].used {
      ClosedTold(b, i, sender, since, over, name);
    }
  }

  lemma TakenTold(b: Book, key: Key, forward: bool, sig: Signal, now: nat, ts: nat, sender: Sender, since: nat,
                  over: nat, name: seq<Byte>)
    requires BookOk(b) && SenderTold(b, sender, since, over, name) && !TakeGivesUp(b, key, forward, now, sender)
    ensures var (b', o) := Taken(b, key, forward, sig, now, ts);
      SenderTold(b', sender, since, over + (if key.sender == sender && o.AsLateCopy? && FullUp(o.e) then 1 else 0), name)
  {
    var m := if forward then -1 else Match(b.open, key, 0, -1);
    var k := if forward then -1 else Late(b, key, now, 1);
    var i := Slot(b.open, 0, 0);
    if m < 0 && k >= 0 {
      LateMeaning(b, key, now, 1);
      UpgradedTold(b, k, sig, now, sender, since, over, name);
    } else if m < 0 {
      OpenedTold(b, NewPacket(key, forward, sig, now, ts), sender, since, over, name);
    }
  }

  predicate IsName(frame: seq<Byte>) {
    |frame| >= 4 && frame[0] % 64 == TYPE_NAME && frame[0] < 128
  }

  /** The name last heard from a sender since the last reset. */
  function LastName(actions: seq<Action>, sender: Sender): seq<Byte>
    decreases |actions|
  {
    if actions == [] then []
    else
      var name := LastName(actions[..|actions| - 1], sender);
      match actions[|actions| - 1]
      case Reset => []
      case Tick(_) => name
      case Hear(h) => if IsName(h.frame) && SenderOf(h.frame) == sender then Renamed(name, h.frame[4..]) else name
  }

  /** A frame of the sender comes late to a report that can count no further copy. */
  predicate LateToFull(b: Book, h: Heard, sender: Sender)
    requires Sized(b)
  {
    var o := Noted(b, h).1;
    o.AsLateCopy? && FullUp(o.e) && SenderOf(h.frame) == sender
  }

  /** How many did, since the last reset. */
  function Over(actions: seq<Action>, sender: Sender): nat
    decreases |actions|
  {
    if actions == [] then 0
    else
      var before := actions[..|actions| - 1];
      match actions[|actions| - 1]
      case Reset => 0
      case Tick(_) => Over(before, sender)
      case Hear(h) => Over(before, sender) + if LateToFull(Run(before).book, h, sender) then 1 else 0
  }

  lemma NotedTold(b: Book, h: Heard, sender: Sender, since: nat, over: nat, name: seq<Byte>)
    requires BookOk(b) && SenderTold(b, sender, since, over, name) && !NoteGivesUp(b, h, sender)
    ensures SenderTold(Noted(b, h).0, sender, since, over + (if LateToFull(b, h, sender) then 1 else 0),
                       if IsName(h.frame) && SenderOf(h.frame) == sender then Renamed(name, h.frame[4..]) else name)
  {
    if Counts(h.frame) {
      var isName := h.frame[0] % 64 == TYPE_NAME && h.frame[0] < 128;
      var named := if isName then Named(b, SenderOf(h.frame), h.frame[4..]) else b;
      var name' := if isName && SenderOf(h.frame) == sender then Renamed(name, h.frame[4..]) else name;
      if isName {
        NamedOk(b, SenderOf(h.frame), h.frame[4..]);
        NamedTold(b, SenderOf(h.frame), h.frame[4..], sender, since, over, name);
      }
      TickedOk(named, h.tickMs, 0);
      TickedTold(named, h.tickMs, 0, sender, since, over, name');
      TakenTold(Ticked(named, h.tickMs, 0), KeyOf(h), Forward(h.frame), h.sig, h.nowMs, h.ts, sender, since, over, name');
    }
  }

  lemma ClearedTold(b: Book, sender: Sender)
    requires Sized(b)
    ensures SenderTold(Cleared(b), sender, |b.reported|, 0, [])
  {
    NothingTold(b, sender, Cleared(b));
  }

  /** No entry and no report. */
  lemma NothingTold(b: Book, sender: Sender, b': Book)
    requires Sized(b) && Sized(b') && b'.count == 0 && b'.reported == b.reported
    requires forall i :: 0 <= i < SOURCES ==> !b'.sources[i].used
    ensures SenderTold(b', sender, |b.reported|, 0, [])
  {
    assert b'.reported[|b.reported|..] == [];
    var s := Account(b'.sources, sender);
    assert s == NewSource(sender);
    forall f | f != Further
      ensures Holds(s, f, SumOf(f, [], sender))
    {
      assert Amount(s, f) == 0;
      SmallRemainder(0, U32);
    }
  }

  /** As long as its entry is kept, it tells of all reports since the last reset. */
  lemma {:induction false} KeptTold(actions: seq<Action>, sender: Sender)
    requires !LostEntry(actions, sender)
    ensures SenderTold(Run(actions).book, sender, Since(actions), Over(actions, sender), LastName(actions, sender))
    decreases |actions|
  {
    if actions == [] {
      NothingTold(Start(), sender, Start());
    } else {
      var before, a := actions[..|actions| - 1], actions[|actions| - 1];
      RunBalances(before, Run(before));
      match a {
        case Reset =>
          ClearedTold(Run(before).book, sender);
        case Tick(now) =>
          KeptTold(before, sender);
          TickedTold(Run(before).book, now, 0, sender, Since(before), Over(before, sender), LastName(before, sender));
        case Hear(h) =>
          KeptTold(before, sender);
          NotedTold(Run(before).book, h, sender, Since(before), Over(before, sender), LastName(before, sender));
      }
    }
  }

  // --- what follows ---

  /** In every run: a packet of a sender whose entry was kept is reported as both or direct, or else as repeated exactly
   *  if one of this sender and type with the forward bit was reported before it since the last reset, and as plain if not. */
  lemma KindsFollowBit(actions: seq<Action>, reported: seq<Event>, since: nat, i: nat)
    requires reported == Run(actions).book.reported && since == Since(actions) && since <= i < |reported|
    requires !LostEntry(actions, reported[i].key.sender)
    ensures var earlier := exists j :: since <= j < i && WithBit(reported[j]) && SameSort(reported[j].key, reported[i].key);
      !WithBit(reported[i]) ==> reported[i].kind == if earlier then Repeated else Plain
  {
    KeptTold(actions, reported[i].key.sender);
    KindSince(reported, since, i);
  }

  lemma KindSince(reported: seq<Event>, since: nat, i: nat)
    requires since <= i < |reported| && KindsTold(reported[since..], reported[i].key.sender)
    ensures var earlier := exists j :: since <= j < i && WithBit(reported[j]) && SameSort(reported[j].key, reported[i].key);
      !WithBit(reported[i]) ==> reported[i].kind == if earlier then Repeated else Plain
  {
    assert reported[since..][i - since] == reported[i];
    assert KindTold(reported[since..], i - since);
    BitSince(reported, since, i, reported[i].key);
  }

  lemma BitSince(reported: seq<Event>, since: nat, i: nat, key: Key)
    requires since <= i <= |reported|
    ensures BitBefore(reported[since..], i - since, key)
            <==> exists j :: since <= j < i && WithBit(reported[j]) && SameSort(reported[j].key, key)
  {
    if BitBefore(reported[since..], i - since, key) {
      var j :| 0 <= j < i - since && WithBit(reported[since..][j]) && SameSort(reported[since..][j].key, key);
      assert WithBit(reported[since + j]) && SameSort(reported[since + j].key, key);
    }
    if exists j :: since <= j < i && WithBit(reported[j]) && SameSort(reported[j].key, key) {
      var j :| since <= j < i && WithBit(reported[j]) && SameSort(reported[j].key, key);
      assert WithBit(reported[since..][j - since]) && SameSort(reported[since..][j - since].key, key);
    }
  }

  /** The total of the delays is kept in 32 bits; copies late to a full report count as further ones all the same. */
  function SumTold(f: Field, events: seq<Event>, sender: Sender, over: nat): int {
    var sum := SumOf(f, events, sender);
    match f
    case Delays => Wrap(sum)
    case Further => sum + over
    case _ => sum
  }

  /** In every run an entry that was kept has every counter and sum of the reports of its sender since the last reset,
   *  the extremes of their delays, the time of the last one, and the name last heard. */
  lemma EntryTells(actions: seq<Action>, sender: Sender, b: Book, s: Source)
    requires !LostEntry(actions, sender) && b == Run(actions).book && s in b.sources && Owns(s, sender)
    ensures Since(actions) <= |b.reported| && s.name == LastName(actions, sender)
    ensures var events := b.reported[Since(actions)..];
      && (forall f :: Amount(s, f) == SumTold(f, events, sender, Over(actions, sender)))
      && RangeTold(s, events, sender) && (s.lastMs, s.lastTs) == LastOf(events, sender)
  {
    KeptTold(actions, sender);
    RunBalances(actions, Run(actions));
    EntryTold(b, sender, Since(actions), Over(actions, sender), LastName(actions, sender), s);
  }

  lemma EntryTold(b: Book, sender: Sender, since: nat, over: nat, name: seq<Byte>, s: Source)
    requires SenderTold(b, sender, since, over, name) && SourcesOk(b.sources) && s in b.sources && Owns(s, sender)
    ensures since <= |b.reported| && s.name == name
    ensures forall f :: Amount(s, f) == SumTold(f, b.reported[since..], sender, over)
    ensures RangeTold(s, b.reported[since..], sender) && (s.lastMs, s.lastTs) == LastOf(b.reported[since..], sender)
  {
    var i :| 0 <= i < |b.sources| && b.sources[i] == s;
    AccountIs(b.sources, i, sender);
    AllTold(s, b.reported[since..], sender, over);
  }

  lemma AllTold(s: Source, events: seq<Event>, sender: Sender, over: nat)
    requires Told(s, events, sender, over)
    ensures forall f :: Amount(s, f) == SumTold(f, events, sender, over)
  {
    forall f
      ensures Amount(s, f) == SumTold(f, events, sender, over)
    {
      assert Amount(s, f) == Amount(s, f);
      assert f != Further ==> Holds(s, f, SumOf(f, events, sender));
    }
  }
}
