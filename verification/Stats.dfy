/**
 * bd_stats.cpp: the ring of time slots in RTC memory (one template for both histories)
 * and what the counters of a reception slot mean.
 */
module Stats {
  import opened StatsWindow

  const COUNTER_MAX := 65535

  /** The ring: the newest slot is slots[headPos] and has number headSlot. */
  class SlotRing<T(0)> {
    const zero: T
    const slots: array<T>
    var headSlot: nat
    var headPos: nat
    var epochBased: bool
    var used: bool

    ghost predicate Shape() reads this {
      slots.Length > 0 && headPos < slots.Length
    }

    /** Cell of the i-th oldest slot. */
    function Cell(i: nat): nat
      requires slots.Length > 0
      reads this
    {
      (headPos + 1 + i) % slots.Length
    }

    ghost predicate Shows(w: Window<T>)
      reads this, slots
    {
      && Shape() && |w.slots| == slots.Length
      && w.used == used && w.epochBased == epochBased && (used ==> w.head == headSlot)
      && forall i :: 0 <= i < slots.Length ==> slots[Cell(i)] == w.slots[i]
    }

    constructor (n: nat, z: T)
      requires n > 0
      ensures Shows(Window(false, false, 0, Zeros(n, z))) && zero == z && slots.Length == n && fresh(slots)
    {
      zero := z;
      slots := new T[n](_ => z);
      headSlot, headPos, epochBased, used := 0, 0, false, false;
    }

    /** All slots at zero, the newest in the first cell. */
    method ClearAll()
      requires slots.Length > 0
      modifies this`headPos, slots
      ensures headPos == 0 && forall i :: 0 <= i < slots.Length ==> slots[i] == zero
    {
      var i := 0;
      while i < slots.Length
        invariant i <= slots.Length && forall j :: 0 <= j < i ==> slots[j] == zero
      {
        slots[i] := zero;
        i := i + 1;
      }
      headPos := 0;
    }

    /** One step of the clearing loop: the oldest slot becomes the newest, at zero. */
    method StepOne(ghost w: Window<T>)
      requires Shows(w)
      modifies this`headPos, slots
      ensures Shows(w.(slots := Shifted(w.slots, 1, zero)))
    {
      ghost var was := headPos;
      headPos := (headPos + 1) % slots.Length;
      slots[headPos] := zero;
      forall i | 0 <= i < slots.Length
        ensures slots[Cell(i)] == Shifted(w.slots, 1, zero)[i]
      {
        NextCell(was, i, slots.Length);
      }
    }

    method PassSome(steps: nat, ghost w: Window<T>)
      requires Shows(w) && steps < slots.Length
      modifies this`headPos, slots
      ensures Shows(w.(slots := Shifted(w.slots, steps, zero)))
    {
      var i := 0;
      assert Shifted(w.slots, 0, zero) == w.slots;
      while i < steps
        invariant i <= steps && Shows(w.(slots := Shifted(w.slots, i, zero)))
      {
        ShiftMore(w.slots, i, zero);
        StepOne(w.(slots := Shifted(w.slots, i, zero)));
        i := i + 1;
      }
    }

    /** Clears every slot passed in some steps, or all of them. */
    method Pass(steps: nat, ghost w: Window<T>)
      requires Shows(w)
      modifies this`headPos, slots
      ensures Shows(w.(slots := Shifted(w.slots, steps, zero)))
    {
      if steps >= slots.Length {
        ClearAll();
      } else {
        PassSome(steps, w);
      }
    }

    /** Moves the head to the current slot, clearing every slot it passes. */
    method Advance(now: nat, epoch: bool, ghost w: Window<T>) returns (pos: nat)
      requires Shows(w)
      modifies this, slots
      ensures Shows(Advanced(w, now, epoch, zero)) && pos == headPos
    {
      if !used || (epochBased && !epoch) {
        ClearAll();
        headSlot, epochBased, used := now, epoch, true;
      } else if !epochBased && epoch {
        headSlot, epochBased := now, true;
      } else if now >= headSlot {
        Pass(now - headSlot, w);
        headSlot := now;
      }
      pos := headPos;
    }

    /** An event of the current slot: the ring is brought up to date, then the newest slot counts it. */
    method Count<E>(now: nat, epoch: bool, e: E, add: (T, E) -> T, ghost w: Window<T>)
      requires Shows(w)
      modifies this, slots
      ensures Shows(Next(w, Event(now, epoch, e), zero, add))
    {
      var pos := Advance(now, epoch, w);
      ghost var moved := Advanced(w, now, epoch, zero);
      ghost var n := slots.Length;
      NewestCell(headPos, n);
      assert slots[Cell(n - 1)] == moved.slots[n - 1];
      slots[pos] := add(slots[pos], e);
      forall i | 0 <= i < n
        ensures slots[Cell(i)] == Counted(moved, e, add).slots[i]
      {
        CellsApart(headPos, i, n);
      }
    }

    /** The written history: brought up to date, then read oldest first. */
    method Write(now: nat, epoch: bool, ghost w: Window<T>) returns (out: seq<T>)
      requires Shows(w)
      modifies this, slots
      ensures out == Advanced(w, now, epoch, zero).slots
      ensures Shows(Advanced(w, now, epoch, zero))
    {
      var pos := Advance(now, epoch, w);
      ghost var moved := Advanced(w, now, epoch, zero);
      out := [];
      var i := 0;
      while i < slots.Length
        invariant i <= slots.Length && out == moved.slots[..i]
        invariant Shows(moved)
      {
        assert slots[Cell(i)] == moved.slots[i];
        out := out + [slots[(headPos + 1 + i) % slots.Length]];
        i := i + 1;
      }
    }
  }

  lemma ModOnce(x: nat, n: nat)
    requires 0 < n && x < 2 * n
    ensures x % n == if x < n then x else x - n
  {
  }

  lemma NextCell(headPos: nat, i: nat, n: nat)
    requires headPos < n && i < n
    ensures ((headPos + 1) % n + 1 + i) % n == (if i == n - 1 then (headPos + 1) % n else (headPos + 1 + (i + 1)) % n)
    ensures i < n - 1 ==> ((headPos + 1) % n + 1 + i) % n != (headPos + 1) % n
  {
    ModOnce(headPos + 1, n);
    ModOnce((headPos + 1) % n + 1 + i, n);
    if i < n - 1 {
      ModOnce(headPos + 2 + i, n);
    }
  }

  lemma NewestCell(headPos: nat, n: nat)
    requires headPos < n
    ensures (headPos + 1 + (n - 1)) % n == headPos
  {
    ModOnce(headPos + n, n);
  }

  lemma CellsApart(headPos: nat, i: nat, n: nat)
    requires headPos < n && i < n
    ensures (headPos + 1 + i) % n == headPos <==> i == n - 1
  {
    ModOnce(headPos + 1 + i, n);
  }

  lemma ShiftMore<T>(slots: seq<T>, i: nat, zero: T)
    requires i < |slots|
    ensures Shifted(Shifted(slots, i, zero), 1, zero) == Shifted(slots, i + 1, zero)
  {
  }
}

/** The counters of one reception slot, as bd_stats.cpp bumps them. */
module Reception {
  import opened Words
  import opened StatsWindow
  import opened Stats

  datatype Proto = Fanet | Flarm | Adsl

  datatype Signal = NoSignal | Measured(snr10: int, rssi: int)

  /** Events that pass the filters in front of the lock. */
  datatype StatEvent =
    | Rx(proto: Proto, signal: Signal)
    | CrcError
    | DecodeFail
    | FskError
    | Noise(value: int)
    | Wifi(rssi: int)

  datatype StatSlot = StatSlot(rxFanet: nat, rxFlarm: nat, rxAdsl: nat, crcErr: nat, decodeFail: nat, fskErr: nat,
                               snrN: nat, snrSum: int, rssiSum: int, noiseN: nat, noiseSum: int, noiseMin: int,
                               wifiN: nat, wifiSum: int, wifiMin: int)

  const ZERO_SLOT := StatSlot(0, 0, 0, 0, 0, 0, 0, 0, 0, 0, 0, 0, 0, 0, 0)

  predicate EventOk(e: StatEvent) {
    match e
    case Noise(v) => -160 <= v <= 0
    case Wifi(r) => -127 <= r < 0
    case _ => true
  }

  /** bump(): counts up to the largest uint16_t. */
  function Bump(n: nat): nat {
    if n < COUNTER_MAX then n + 1 else n
  }

  function AddEvent(s: StatSlot, e: StatEvent): StatSlot {
    match e
    case Rx(proto, signal) =>
      var t := match proto
        case Fanet => s.(rxFanet := Bump(s.rxFanet))
        case Flarm => s.(rxFlarm := Bump(s.rxFlarm))
        case Adsl => s.(rxAdsl := Bump(s.rxAdsl));
      if proto == Fanet && signal.Measured? && t.snrN < COUNTER_MAX
      then t.(snrN := t.snrN + 1, snrSum := t.snrSum + signal.snr10, rssiSum := t.rssiSum + signal.rssi)
      else t
    case CrcError => s.(crcErr := Bump(s.crcErr))
    case DecodeFail => s.(decodeFail := Bump(s.decodeFail))
    case FskError => s.(fskErr := Bump(s.fskErr))
    case Noise(v) =>
      var t := if s.noiseN == 0 || v < s.noiseMin then s.(noiseMin := v) else s;
      if t.noiseN < COUNTER_MAX then t.(noiseN := t.noiseN + 1, noiseSum := t.noiseSum + v) else t
    case Wifi(r) =>
      var t := if s.wifiN == 0 || r < s.wifiMin then s.(wifiMin := r) else s;
      if t.wifiN < COUNTER_MAX then t.(wifiN := t.wifiN + 1, wifiSum := t.wifiSum + r) else t
  }

  datatype Counter = RxOf(proto: Proto) | CrcErrors | DecodeFails | FskErrors | Signals | Noises | Wifis

  function Get(s: StatSlot, k: Counter): nat {
    match k
    case RxOf(Fanet) => s.rxFanet
    case RxOf(Flarm) => s.rxFlarm
    case RxOf(Adsl) => s.rxAdsl
    case CrcErrors => s.crcErr
    case DecodeFails => s.decodeFail
    case FskErrors => s.fskErr
    case Signals => s.snrN
    case Noises => s.noiseN
    case Wifis => s.wifiN
  }

  /** Which events a counter is for. */
  predicate IsFor(e: StatEvent, k: Counter) {
    match k
    case RxOf(p) => e.Rx? && e.proto == p
    case CrcErrors => e.CrcError?
    case DecodeFails => e.DecodeFail?
    case FskErrors => e.FskError?
    case Signals => e.Rx? && e.proto == Fanet && e.signal.Measured?
    case Noises => e.Noise?
    case Wifis => e.Wifi?
  }

  function HowMany(events: seq<(nat, StatEvent)>, slot: int, k: Counter): nat
    decreases |events|
  {
    if events == [] then 0
    else
      var last := events[|events| - 1];
      HowMany(events[..|events| - 1], slot, k) + if last.0 == slot && IsFor(last.1, k) then 1 else 0
  }

  function Slot(events: seq<(nat, StatEvent)>, slot: int): StatSlot {
    SumOf(events, slot, ZERO_SLOT, AddEvent)
  }

  lemma AddCounts(s: StatSlot, e: StatEvent, k: Counter)
    requires Get(s, k) <= COUNTER_MAX
    ensures Get(AddEvent(s, e), k) == if IsFor(e, k) then Bump(Get(s, k)) else Get(s, k)
  {
  }

  /** Every counter of a slot is the number of its events, up to 65535. */
  lemma {:induction false} CounterIsCount(events: seq<(nat, StatEvent)>, slot: int, k: Counter)
    ensures Get(Slot(events, slot), k)
            == if HowMany(events, slot, k) <= COUNTER_MAX then HowMany(events, slot, k) else COUNTER_MAX
    decreases |events|
  {
    if events != [] {
      var before, last := events[..|events| - 1], events[|events| - 1];
      CounterIsCount(before, slot, k);
      AddCounts(Slot(before, slot), last.1, k);
    }
  }

  // --- the measured values ---

  datatype Quantity = SnrTenths | Rssi | NoiseLevel | WifiRssi

  /** The counter of the samples of a quantity. */
  function Samples(q: Quantity): Counter {
    match q
    case NoiseLevel => Noises
    case WifiRssi => Wifis
    case _ => Signals
  }

  function Value(e: StatEvent, q: Quantity): int
    requires IsFor(e, Samples(q))
  {
    match q
    case SnrTenths => e.signal.snr10
    case Rssi => e.signal.rssi
    case NoiseLevel => e.value
    case WifiRssi => e.rssi
  }

  function Total(s: StatSlot, q: Quantity): int {
    match q
    case SnrTenths => s.snrSum
    case Rssi => s.rssiSum
    case NoiseLevel => s.noiseSum
    case WifiRssi => s.wifiSum
  }

  /** The sum of the first 65535 samples of a slot. */
  function Summed(events: seq<(nat, StatEvent)>, slot: int, q: Quantity): int
    decreases |events|
  {
    if events == [] then 0
    else
      var before, last := events[..|events| - 1], events[|events| - 1];
      Summed(before, slot, q)
      + if last.0 == slot && IsFor(last.1, Samples(q)) && HowMany(before, slot, Samples(q)) < COUNTER_MAX
        then Value(last.1, q) else 0
  }

  /** Every sum of a slot is that of its samples, as many as the counter can count. */
  lemma {:induction false} TotalIsSum(events: seq<(nat, StatEvent)>, slot: int, q: Quantity)
    ensures Total(Slot(events, slot), q) == Summed(events, slot, q)
    decreases |events|
  {
    if events != [] {
      var before, last := events[..|events| - 1], events[|events| - 1];
      TotalIsSum(before, slot, q);
      CounterIsCount(before, slot, Samples(q));
      AddTotals(Slot(before, slot), last.1, q);
    }
  }

  lemma AddTotals(s: StatSlot, e: StatEvent, q: Quantity)
    ensures Total(AddEvent(s, e), q)
            == Total(s, q) + if IsFor(e, Samples(q)) && Get(s, Samples(q)) < COUNTER_MAX then Value(e, q) else 0
  {
  }

  // --- the noise floor and the weakest WiFi signal ---

  /** The lowest value let through by the filter in front of a quantity. */
  function Floor(q: Quantity): int {
    if q == NoiseLevel then -160 else -127
  }

  function Minimum(s: StatSlot, q: Quantity): int {
    if q == NoiseLevel then s.noiseMin else s.wifiMin
  }

  predicate Level(q: Quantity) {
    q == NoiseLevel || q == WifiRssi
  }

  /** A sample of a quantity in a slot. */
  predicate IsSample(e: (nat, StatEvent), slot: int, q: Quantity) {
    e.0 == slot && IsFor(e.1, Samples(q))
  }

  ghost predicate Lowest(events: seq<(nat, StatEvent)>, slot: int, q: Quantity, low: int) {
    && (exists i :: 0 <= i < |events| && IsSample(events[i], slot, q) && Value(events[i].1, q) == low)
    && (forall i :: 0 <= i < |events| && IsSample(events[i], slot, q) ==> low <= Value(events[i].1, q))
  }

  ghost predicate AllOk(events: seq<(nat, StatEvent)>) {
    forall i :: 0 <= i < |events| ==> EventOk(events[i].1)
  }

  /** The noise floor of a slot, and likewise the signal of the WiFi: the minimum is that of all samples, the mean lies
   *  between the minimum and 0, and the 32-bit sum never overflows. */
  lemma {:induction false} LevelMeaning(events: seq<(nat, StatEvent)>, slot: int, q: Quantity)
    requires AllOk(events) && Level(q)
    ensures var s := Slot(events, slot);
      var low, n := Minimum(s, q), Get(s, Samples(q));
      && (n > 0 ==> Lowest(events, slot, q, low) && Floor(q) <= low <= 0)
      && low * n <= Total(s, q) <= 0 && Floor(q) * COUNTER_MAX <= Total(s, q)
    decreases |events|
  {
    CounterIsCount(events, slot, Samples(q));
    if events != [] {
      var before, last := events[..|events| - 1], events[|events| - 1];
      LevelMeaning(before, slot, q);
      CounterIsCount(before, slot, Samples(q));
      var s, t := Slot(before, slot), Slot(events, slot);
      if IsSample(last, slot, q) {
        assert EventOk(last.1);
        LevelStep(s, last.1, q);
        if Get(s, Samples(q)) == 0 {
          NoneCounted(before, slot, Samples(q));
        }
        LowestStep(events, slot, s, q);
      } else {
        assert Get(t, Samples(q)) == Get(s, Samples(q)) && Minimum(t, q) == Minimum(s, q) && Total(t, q) == Total(s, q);
        if Get(s, Samples(q)) > 0 {
          LowestKept(events, slot, q, Minimum(s, q));
        }
      }
    }
  }

  lemma LevelStep(s: StatSlot, e: StatEvent, q: Quantity)
    requires EventOk(e) && Level(q) && IsFor(e, Samples(q)) && Get(s, Samples(q)) <= COUNTER_MAX
    requires var low, n := Minimum(s, q), Get(s, Samples(q));
      low * n <= Total(s, q) <= 0 && (n > 0 ==> Floor(q) <= low <= 0)
    ensures var t := AddEvent(s, e);
      var low, n := Minimum(t, q), Get(t, Samples(q));
      && low * n <= Total(t, q) <= 0 && Floor(q) <= low <= 0 && Floor(q) * COUNTER_MAX <= Total(t, q)
      && low == (if Get(s, Samples(q)) == 0 || Value(e, q) < Minimum(s, q) then Value(e, q) else Minimum(s, q))
  {
    var v, n0 := Value(e, q), Get(s, Samples(q));
    var low := if n0 == 0 || v < Minimum(s, q) then v else Minimum(s, q);
    var n := if n0 < COUNTER_MAX then n0 + 1 else n0;
    if n0 > 0 {
      MulOrder(low, Minimum(s, q), n0);
    }
    OneMore(n0, low);
    MulOrder(Floor(q), low, n);
    MulDown(Floor(q), n);
  }

  lemma MulDown(floor: int, n: nat)
    requires floor <= 0 && n <= COUNTER_MAX
    ensures floor * COUNTER_MAX <= floor * n
  {
    assert floor * COUNTER_MAX == floor * n + floor * (COUNTER_MAX - n);
  }

  lemma {:induction false} NoneCounted(events: seq<(nat, StatEvent)>, slot: int, k: Counter)
    requires HowMany(events, slot, k) == 0
    ensures forall i :: 0 <= i < |events| ==> !(events[i].0 == slot && IsFor(events[i].1, k))
    decreases |events|
  {
    if events != [] {
      var before := events[..|events| - 1];
      NoneCounted(before, slot, k);
      assert forall i :: 0 <= i < |before| ==> events[i] == before[i];
    }
  }

  lemma LowestKept(events: seq<(nat, StatEvent)>, slot: int, q: Quantity, low: int)
    requires events != [] && Lowest(events[..|events| - 1], slot, q, low)
    requires !IsSample(events[|events| - 1], slot, q)
    ensures Lowest(events, slot, q, low)
  {
    var before := events[..|events| - 1];
    var i :| 0 <= i < |before| && IsSample(before[i], slot, q) && Value(before[i].1, q) == low;
    assert IsSample(events[i], slot, q) && Value(events[i].1, q) == low;
  }

  lemma LowestStep(events: seq<(nat, StatEvent)>, slot: int, s: StatSlot, q: Quantity)
    requires Level(q) && events != [] && IsSample(events[|events| - 1], slot, q)
    requires Get(s, Samples(q)) > 0 ==> Lowest(events[..|events| - 1], slot, q, Minimum(s, q))
    requires Get(s, Samples(q)) == 0 ==> forall i :: 0 <= i < |events| - 1 ==> !IsSample(events[i], slot, q)
    ensures Lowest(events, slot, q, Minimum(AddEvent(s, events[|events| - 1].1), q))
  {
    var before, n := events[..|events| - 1], |events| - 1;
    var v := Value(events[n].1, q);
    var low := Minimum(AddEvent(s, events[n].1), q);
    if Get(s, Samples(q)) > 0 && Minimum(s, q) <= v {
      var i :| 0 <= i < |before| && IsSample(before[i], slot, q) && Value(before[i].1, q) == Minimum(s, q);
      assert IsSample(events[i], slot, q) && Value(events[i].1, q) == low;
    } else {
      assert IsSample(events[n], slot, q) && Value(events[n].1, q) == low;
    }
    forall i | 0 <= i < |events| && IsSample(events[i], slot, q)
      ensures low <= Value(events[i].1, q)
    {
      if i < n {
        assert before[i] == events[i];
      }
    }
  }

  /** What bd_stats_write puts out after any run: entry i of every counter is the number of its events in the
   *  slot N-1-i slots back, up to 65535. */
  lemma {:induction false} WrittenCounters(n: nat, ticks: seq<Tick<StatEvent>>, i: nat, k: Counter)
    requires 0 < n && i < n
    ensures var w := Run(Window(false, false, 0, Zeros(n, ZERO_SLOT)), ticks, ZERO_SLOT, AddEvent);
            var t := RunTally(ticks);
            var count := HowMany(t.events, t.cur - (n - 1) + i, k);
      w.used ==> Get(w.slots[i], k) == if count <= COUNTER_MAX then count else COUNTER_MAX
  {
    HistoryIsTally(Window(false, false, 0, Zeros(n, ZERO_SLOT)), ticks, ZERO_SLOT, AddEvent);
    var t := RunTally(ticks);
    CounterIsCount(t.events, t.cur - (n - 1) + i, k);
  }

  /** And so it is with every sum. */
  lemma {:induction false} WrittenTotals(n: nat, ticks: seq<Tick<StatEvent>>, i: nat, q: Quantity)
    requires 0 < n && i < n
    ensures var w := Run(Window(false, false, 0, Zeros(n, ZERO_SLOT)), ticks, ZERO_SLOT, AddEvent);
      var t := RunTally(ticks);
      w.used ==> Total(w.slots[i], q) == Summed(t.events, t.cur - (n - 1) + i, q)
  {
    HistoryIsTally(Window(false, false, 0, Zeros(n, ZERO_SLOT)), ticks, ZERO_SLOT, AddEvent);
    var t := RunTally(ticks);
    TotalIsSum(t.events, t.cur - (n - 1) + i, q);
  }
}
