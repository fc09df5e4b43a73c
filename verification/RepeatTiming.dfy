/** What the searches and clocks of bd_repeat.cpp come to: which entry is taken, how long nothing is due, which delays are kept. */
module RepeatTiming {
  import opened Words
  import opened RepeatBook
  import opened RepeatLaws

  // --- ages ---

  function Age(t: nat, then_: nat): nat {
    Wrap(t - then_)
  }

  /** Whether `a` is older than `b`, by their ages at any time t. */
  predicate Older(t: nat, a: nat, b: nat) {
    Age(t, a) > Age(t, b)
  }

  /** The wrapped comparison is that of the ages exactly while these are less than half the range of the clock apart. */
  lemma OlderExact(t: nat, a: nat, b: nat)
    ensures (Before(a, b) <==> Older(t, a, b)) <==> 0 - U32 / 2 < Age(t, a) - Age(t, b) <= U32 / 2
    ensures (After(a, b) <==> Older(t, b, a)) <==> 0 - U32 / 2 < Age(t, a) - Age(t, b) <= U32 / 2
  {
    var d := Age(t, b) - Age(t, a);
    ModDiff(t - b, t - a, U32);
    assert (t - b) - (t - a) == a - b;
    SmallRemainder(d, U32);
  }

  /** Ages less than half the range of the clock apart. */
  predicate Near(t: nat, a: nat, b: nat) {
    0 - U32 / 2 < Age(t, a) - Age(t, b) < U32 / 2
  }

  // --- which slot, which source, which packet ---

  /** A free slot if there is one, the first; otherwise one of the oldest packets. */
  lemma {:induction false} SlotMeaning(open: seq<Packet>, t: nat, i: nat, best: nat)
    requires i <= |open| && best < |open| && (i == 0 ==> best == 0)
    requires forall k, l :: 0 <= k < |open| && 0 <= l < |open| && open[k].used && open[l].used ==>
               Near(t, open[k].openedMs, open[l].openedMs)
    requires forall k :: 0 <= k < i ==> open[k].used
    requires i > 0 ==> best < i
    requires forall k :: 0 <= k < i ==> Age(t, open[k].openedMs) <= Age(t, open[best].openedMs)
    ensures var r := Slot(open, i, best);
      if open[r].used
      then (forall k :: 0 <= k < |open| ==> open[k].used && Age(t, open[k].openedMs) <= Age(t, open[r].openedMs))
      else (forall k :: 0 <= k < r ==> open[k].used)
    decreases |open| - i
  {
    if i < |open| && open[i].used {
      OlderExact(t, open[i].openedMs, open[best].openedMs);
      if Before(open[i].openedMs, open[best].openedMs) {
        SlotMeaning(open, t, i + 1, i);
      } else {
        SlotMeaning(open, t, i + 1, best);
      }
    }
  }

  /** With no entry for the sender and none free, the one unused for longest is given up. */
  lemma {:induction false} OldestSourceGoes(sources: seq<Source>, sender: Sender, t: nat, i: nat, best: nat)
    requires i <= |sources| && best < |sources| && (i == 0 ==> best == 0) && (i > 0 ==> best < i)
    requires forall k :: 0 <= k < |sources| ==> sources[k].used && sources[k].sender != sender
    requires forall k, l :: 0 <= k < |sources| && 0 <= l < |sources| ==> Near(t, sources[k].lastMs, sources[l].lastMs)
    requires forall k :: 0 <= k < i ==> Age(t, sources[k].lastMs) <= Age(t, sources[best].lastMs)
    ensures var (j, known) := Search(sources, sender, i, best);
      !known && forall k :: 0 <= k < |sources| ==> Age(t, sources[k].lastMs) <= Age(t, sources[j].lastMs)
    decreases |sources| - i
  {
    if i < |sources| {
      OlderExact(t, sources[i].lastMs, sources[best].lastMs);
      if Before(sources[i].lastMs, sources[best].lastMs) {
        OldestSourceGoes(sources, sender, t, i + 1, i);
      } else {
        OldestSourceGoes(sources, sender, t, i + 1, best);
      }
    }
  }

  /** No sender loses its entry while a free one is left. */
  lemma {:induction false} FreeSourceFirst(sources: seq<Source>, sender: Sender, i: nat, best: nat)
    requires i <= |sources| && best < |sources|
    requires !sources[best].used || exists k :: i <= k < |sources| && !sources[k].used
    ensures var (j, known) := Search(sources, sender, i, best); known || !sources[j].used
    decreases |sources| - i
  {
    if i < |sources| && !(sources[i].used && sources[i].sender == sender) {
      var s := sources[i];
      var best' := if !s.used || (sources[best].used && Before(s.lastMs, sources[best].lastMs)) then i else best;
      FreeSourceFirst(sources, sender, i + 1, best');
    }
  }

  predicate Fits(p: Packet, key: Key) {
    p.used && p.key == key
  }

  /** A copy joins the youngest open packet with its key, and only if there is none it joins none. */
  lemma {:induction false} MatchMeaning(open: seq<Packet>, key: Key, t: nat, i: nat, best: int)
    requires i <= |open| && -1 <= best < i as int
    requires forall k, l :: 0 <= k < |open| && 0 <= l < |open| && open[k].used && open[l].used ==>
               Near(t, open[k].openedMs, open[l].openedMs)
    requires best >= 0 ==> Fits(open[best], key)
    requires forall k :: 0 <= k < i && Fits(open[k], key) ==>
               best >= 0 && Age(t, open[best].openedMs) <= Age(t, open[k].openedMs)
    ensures var m := Match(open, key, i, best);
      && (m >= 0 ==> Fits(open[m], key))
      && (forall k :: 0 <= k < |open| && Fits(open[k], key) ==>
            m >= 0 && Age(t, open[m].openedMs) <= Age(t, open[k].openedMs))
    decreases |open| - i
  {
    if i < |open| {
      if Fits(open[i], key) && best >= 0 {
        OlderExact(t, open[i].openedMs, open[best].openedMs);
      }
      if Fits(open[i], key) && (best < 0 || After(open[i].openedMs, open[best].openedMs)) {
        MatchMeaning(open, key, t, i + 1, i);
      } else {
        MatchMeaning(open, key, t, i + 1, best);
      }
    }
  }

  predicate Recent(e: Event, now: nat) {
    Wrap(now - e.openedMs) <= LATE_COPY
  }

  /** Whether report k can still take a late copy: in the ring, a direct or repeated one, and nothing reported since is too old. */
  predicate Open(b: Book, key: Key, now: nat, k: int)
    requires Sized(b)
  {
    && |b.reported| - b.count <= k < |b.reported|
    && Upgradable(b.reported[k], key)
    && (forall j :: k <= j < |b.reported| ==> Recent(b.reported[j], now))
  }

  /** The late copy goes to the newest report that can take it. */
  lemma {:induction false} LateMeaning(b: Book, key: Key, now: nat, i: nat)
    requires Sized(b) && 1 <= i <= b.count + 1
    requires forall j :: |b.reported| - i < j < |b.reported| ==>
               Recent(b.reported[j], now) && !Upgradable(b.reported[j], key)
    ensures var r := Late(b, key, now, i);
      && (r >= 0 ==> Open(b, key, now, r))
      && (forall k :: Open(b, key, now, k) ==> r >= k)
    decreases b.count + 1 - i
  {
    if i <= b.count {
      var e := b.reported[|b.reported| - i];
      if Recent(e, now) && !Upgradable(e, key) {
        LateMeaning(b, key, now, i + 1);
      }
    }
  }

  // --- the tick and the time until it has work ---

  /** A tick closes exactly the packets that are due. */
  lemma {:induction false} TickedExact(b: Book, now: nat, i: nat)
    requires Sized(b) && i <= OPEN_PACKETS
    ensures forall k :: 0 <= k < OPEN_PACKETS ==>
              Ticked(b, now, i).open[k] == if k >= i && Due(b.open[k], now) then b.open[k].(used := false) else b.open[k]
    decreases OPEN_PACKETS - i
  {
    if i < OPEN_PACKETS {
      TickedExact(if Due(b.open[i], now) then Closed(b, i) else b, now, i + 1);
    }
  }

  lemma {:induction false} TickedIdle(b: Book, now: nat, i: nat)
    requires Sized(b) && i <= OPEN_PACKETS && forall k :: 0 <= k < OPEN_PACKETS ==> !Due(b.open[k], now)
    ensures Ticked(b, now, i) == b
    decreases OPEN_PACKETS - i
  {
    if i < OPEN_PACKETS {
      TickedIdle(b, now, i + 1);
    }
  }

  lemma {:induction false} NextDelayIsLeast(open: seq<Packet>, now: nat, i: nat, next: nat)
    requires i <= |open|
    ensures var d := NextDelay(open, now, i, next);
      && d <= next && (forall k :: i <= k < |open| && open[k].used ==> d <= Left(open[k], now))
      && (d < next ==> exists k :: i <= k < |open| && open[k].used && Left(open[k], now) == d)
    decreases |open| - i
  {
    if i < |open| {
      NextDelayIsLeast(open, now, i + 1,
                       if open[i].used && Left(open[i], now) < next then Left(open[i], now) else next);
    }
  }

  lemma AgeLater(t: nat, d: nat, then_: nat)
    requires Age(t, then_) + d < U32
    ensures Age(t + d, then_) == Age(t, then_) + d
  {
    ModShift(Age(t, then_) + d, (t - then_) / U32, U32);
    SmallRemainder(Age(t, then_) + d, U32);
  }

  /** The computed sleep is exact: 0 if a packet is due, else a tick any earlier does nothing, and one at its end
   *  closes a packet. */
  lemma SleepExact(b: Book, now: nat, d: nat)
    requires Sized(b)
    ensures var next := NextDelay(b.open, now, 0, NEVER);
      && (next == 0 <==> exists k :: 0 <= k < OPEN_PACKETS && Due(b.open[k], now))
      && (d < next && next != NEVER ==> Ticked(b, now + d, 0) == b)
      && (next != NEVER ==> exists k :: 0 <= k < OPEN_PACKETS && Due(b.open[k], now + next))
      && (next == NEVER <==> forall k :: 0 <= k < OPEN_PACKETS ==> !b.open[k].used)
  {
    var next := NextDelay(b.open, now, 0, NEVER);
    NextDelayIsLeast(b.open, now, 0, NEVER);
    if next != NEVER {
      var k :| 0 <= k < OPEN_PACKETS && b.open[k].used && Left(b.open[k], now) == next;
      AgeLater(now, next, b.open[k].openedMs);
      assert Due(b.open[k], now + next);
      if d < next {
        forall i | 0 <= i < OPEN_PACKETS
          ensures !Due(b.open[i], now + d)
        {
          if b.open[i].used {
            AgeLater(now, d, b.open[i].openedMs);
          }
        }
        TickedIdle(b, now + d, 0);
      }
    }
  }

  // --- delays ---

  /** The delay of a first copy is kept whole if the matching comes within 62 s of its tick. */
  lemma JoinDelayExact(b: Book, tickMs: nat, gap: nat, m: nat, sig: Signal, p: Packet)
    requires Sized(b) && m < OPEN_PACKETS && gap <= 0x1_0000 - COPY_WINDOW
    requires p == Ticked(b, tickMs, 0).open[m] && p.used && p.copies == 0
    ensures Joined(p, sig, tickMs + gap).delayMs == Age(tickMs + gap, p.openedMs) == Age(tickMs, p.openedMs) + gap
  {
    TickedExact(b, tickMs, 0);
    assert !Due(p, tickMs);
    AgeLater(tickMs, gap, p.openedMs);
  }

  /** The delay of a late copy is always kept whole. */
  lemma LateDelayExact(b: Book, key: Key, now: nat, sig: Signal)
    requires Sized(b) && Late(b, key, now, 1) >= 0
    ensures var e := b.reported[Late(b, key, now, 1)];
      e.kind == Direct ==> UpgradedEvent(e, sig, now).delayMs == Age(now, e.openedMs) <= LATE_COPY
  {
    LateMeaning(b, key, now, 1);
  }

  lemma MeanBetween(total: nat, n: nat, low: nat, high: nat)
    requires n > 0 && low * n <= total <= high * n
    ensures low <= total / n <= high
  {
    var q := total / n;
    assert q * n <= total < q * n + n;
    MulLess(low, q + 1, n);
    MulLess(q, high + 1, n);
  }

  /** An entry after these delays, oldest first. */
  function Delayed(s: Source, delays: seq<nat>): Source
    decreases |delays|
  {
    if delays == [] then s else AddDelay(Delayed(s, delays[..|delays| - 1]), delays[|delays| - 1])
  }

  function Sum(delays: seq<nat>): nat
    decreases |delays|
  {
    if delays == [] then 0 else Sum(delays[..|delays| - 1]) + delays[|delays| - 1]
  }

  predicate AtMost(delays: seq<nat>, most: nat) {
    forall i :: 0 <= i < |delays| ==> delays[i] <= most
  }

  lemma {:induction false} DelayedIs(sender: Sender, delays: seq<nat>, most: nat)
    requires AtMost(delays, most)
    ensures var s := Delayed(NewSource(sender), delays);
      && s.nDelay == |delays| && s.sumDelay == Wrap(Sum(delays))
      && s.minDelay * s.nDelay <= Sum(delays) <= s.maxDelay * s.nDelay && s.maxDelay <= most
    decreases |delays|
  {
    if delays != [] {
      var n := |delays| - 1;
      var s, d := Delayed(NewSource(sender), delays[..n]), delays[n];
      DelayedIs(sender, delays[..n], most);
      WrapAdd(Sum(delays[..n]), d);
      var t := AddDelay(s, d);
      if n > 0 {
        MulOrder(t.minDelay, s.minDelay, n);
        MulOrder(s.maxDelay, t.maxDelay, n);
      }
      OneMore(n, t.minDelay);
      OneMore(n, t.maxDelay);
    }
  }

  /** The mean that is reported lies between the least delay and the greatest. */
  predicate MeanInRange(s: Source) {
    s.nDelay > 0 ==> s.minDelay <= s.sumDelay / s.nDelay <= s.maxDelay
  }

  lemma {:induction false} Alike(sender: Sender, n: nat, d: nat)
    ensures var delays := seq(n, _ => d);
      Sum(delays) == n * d && AtMost(delays, d) && (n > 0 ==> Delayed(NewSource(sender), delays).minDelay == d)
    decreases n
  {
    var delays := seq(n, _ => d);
    if n > 0 {
      Alike(sender, n - 1, d);
      OneMore(n - 1, d);
      assert delays[..n - 1] == seq(n - 1, _ => d);
      DelayedIs(sender, delays[..n - 1], d);
    }
  }

  /** n delays of the same length whose total does not fit: the mean falls below them. */
  lemma WrappedMean(sender: Sender, n: nat, d: nat)
    requires n > 0 && n * d >= U32
    ensures !MeanInRange(Delayed(NewSource(sender), seq(n, _ => d)))
  {
    var delays := seq(n, _ => d);
    Alike(sender, n, d);
    DelayedIs(sender, delays, d);
    var s := Delayed(NewSource(sender), delays);
    var q := s.sumDelay / n;
    assert q * n <= s.sumDelay < n * d;
    MulLess(q, d, n);
  }

  /** The mean of any n delays of at most `most` is in range exactly if n times `most` fits in 32 bits. */
  lemma MeanExact(sender: Sender, n: nat, most: nat)
    requires n > 0
    ensures (forall delays :: |delays| == n && AtMost(delays, most) ==> MeanInRange(Delayed(NewSource(sender), delays)))
            <==> n * most < U32
  {
    if n * most < U32 {
      forall delays | |delays| == n && AtMost(delays, most)
        ensures MeanInRange(Delayed(NewSource(sender), delays))
      {
        DelayedIs(sender, delays, most);
        var s := Delayed(NewSource(sender), delays);
        MulOrder(s.maxDelay, most, n);
        SmallRemainder(Sum(delays), U32);
        MeanBetween(Sum(delays), n, s.minDelay, s.maxDelay);
      }
    } else {
      WrappedMean(sender, n, most);
      Alike(sender, n, most);
      assert |seq(n, _ => most)| == n;
    }
  }

  /** An entry that stands for delays whose total fits has its mean in range, whatever else happened to it. */
  lemma FittingMean(s: Source)
    requires SourceOk(s) && s.maxDelay * s.nDelay < U32
    ensures MeanInRange(s)
  {
    if s.nDelay > 0 {
      var total: nat :| DelayTotal(s, total);
      SmallRemainder(total, U32);
      MeanBetween(total, s.nDelay, s.minDelay, s.maxDelay);
    }
  }

  /** 71583 delays of a minute are too many. */
  lemma MinutesWrap(sender: Sender)
    ensures !MeanInRange(Delayed(NewSource(sender), seq(71583, _ => LATE_COPY)))
  {
    WrappedMean(sender, 71583, LATE_COPY);
  }
}
