/**
 * The book bd_repeat.cpp keeps of FANET packets: which are still open, which were
 * reported and as what, and what that says about each sender. Every operation of the
 * source is a function of the book here.
 */
module RepeatBook {
  import opened Words

  const COPY_WINDOW := 3500
  const LATE_COPY := 60000
  const OPEN_PACKETS := 8
  const SOURCES := 16
  const EVENTS := 120
  const MAX_COPIES := 255
  const NAME_LEN := 20

  datatype Kind = Both | Direct | Repeated | Plain

  datatype Signal = Signal(rssi: int, snr: int)

  const NO_SIGNAL := Signal(0, 0)

  datatype Sender = Sender(vid: nat, addr: nat)

  /** What a copy has in common with its original. */
  datatype Key = Key(sender: Sender, typ: nat, crc: nat)

  datatype Packet = Packet(used: bool, direct: bool, key: Key, copies: nat, delayMs: nat,
                           sigDirect: Signal, sigCopy: Signal, openedMs: nat, ts: nat)

  datatype Event = Event(no: nat, key: Key, openedMs: nat, ts: nat, delayMs: nat,
                         sigDirect: Signal, sigCopy: Signal, kind: Kind, copies: nat)

  datatype Source = Source(used: bool, sender: Sender, flags: set<nat>, minDelay: nat, maxDelay: nat,
                           both: nat, direct: nat, repeated: nat, plain: nat, extra: nat,
                           nDirect: nat, nCopy: nat, nDelay: nat, sumDirect: Signal, sumCopy: Signal, sumDelay: nat,
                           lastMs: nat, lastTs: nat, name: seq<Byte>)

  /** `reported` holds every packet ever closed, oldest first; the event ring has the last `count` of them. */
  datatype Book = Book(open: seq<Packet>, sources: seq<Source>, reported: seq<Event>, count: nat)

  predicate Sized(b: Book) {
    |b.open| == OPEN_PACKETS && |b.sources| == SOURCES && b.count <= EVENTS && b.count <= |b.reported|
  }

  function NewSource(sender: Sender): Source {
    Source(true, sender, {}, 0, 0, 0, 0, 0, 0, 0, 0, 0, 0, NO_SIGNAL, NO_SIGNAL, 0, 0, 0, [])
  }

  // --- source_for ---

  /** The search from place i on, with the entry to give up so far: the place, and whether it is the sender's own. */
  function Search(sources: seq<Source>, sender: Sender, i: nat, best: nat): (r: (nat, bool))
    requires best < |sources| && i <= |sources|
    ensures r.0 < |sources|
    decreases |sources| - i
  {
    if i == |sources| then (best, false)
    else
      var s := sources[i];
      if s.used && s.sender == sender then (i, true)
      else if !s.used then Search(sources, sender, i + 1, i)
      else if sources[best].used && Before(s.lastMs, sources[best].lastMs) then Search(sources, sender, i + 1, i)
      else Search(sources, sender, i + 1, best)
  }

  function Place(sources: seq<Source>, sender: Sender): (j: nat)
    requires sources != []
    ensures j < |sources|
  {
    Search(sources, sender, 0, 0).0
  }

  function WithSource(sources: seq<Source>, sender: Sender): (s: seq<Source>)
    requires sources != []
    ensures |s| == |sources|
  {
    var (j, known) := Search(sources, sender, 0, 0);
    if known then sources else sources[j := NewSource(sender)]
  }

  // --- what a packet adds to its sender ---

  function Plus(a: Signal, b: Signal): Signal {
    Signal(a.rssi + b.rssi, a.snr + b.snr)
  }

  function AddCopy(s: Source, sig: Signal): Source {
    s.(sumCopy := Plus(s.sumCopy, sig), nCopy := s.nCopy + 1)
  }

  function AddDelay(s: Source, delayMs: nat): Source {
    s.(minDelay := if s.nDelay == 0 || delayMs < s.minDelay then delayMs else s.minDelay,
       maxDelay := if s.nDelay == 0 || delayMs > s.maxDelay then delayMs else s.maxDelay,
       sumDelay := Wrap(s.sumDelay + delayMs),
       nDelay := s.nDelay + 1)
  }

  function Counted(s: Source, kind: Kind): Source {
    match kind
    case Both => s.(both := s.both + 1)
    case Direct => s.(direct := s.direct + 1)
    case Repeated => s.(repeated := s.repeated + 1)
    case Plain => s.(plain := s.plain + 1)
  }

  function AddDirect(s: Source, sig: Signal): Source {
    s.(sumDirect := Plus(s.sumDirect, sig), nDirect := s.nDirect + 1)
  }

  function Flagged(s: Source, p: Packet): Source {
    if p.direct then s.(flags := s.flags + {p.key.typ}) else s
  }

  function KindOf(p: Packet, flagged: bool): Kind {
    if p.direct then (if p.copies > 0 then Both else Direct)
    else if flagged then Repeated else Plain
  }

  function Credited(s: Source, p: Packet, kind: Kind): Source {
    var s1 := Counted(s, kind).(lastMs := p.openedMs, lastTs := p.ts);
    var s2 := if p.copies > 1 then s1.(extra := s1.extra + (p.copies - 1)) else s1;
    var s3 := if p.direct then AddDirect(s2, p.sigDirect)
              else if kind == Plain then AddDirect(s2, p.sigCopy) else s2;
    var s4 := if kind == Both || kind == Repeated then AddCopy(s3, p.sigCopy) else s3;
    if kind == Both then AddDelay(s4, p.delayMs) else s4
  }

  function EventOf(p: Packet, kind: Kind, no: nat): Event {
    Event(no, p.key, p.openedMs, p.ts, p.delayMs, p.sigDirect, p.sigCopy, kind, p.copies)
  }

  // --- close_packet and bd_repeat_tick ---

  function Closed(b: Book, i: nat): (b': Book)
    requires Sized(b) && i < OPEN_PACKETS
    ensures Sized(b')
  {
    var p := b.open[i];
    var sources, j := WithSource(b.sources, p.key.sender), Place(b.sources, p.key.sender);
    var s := Flagged(sources[j], p);
    var kind := KindOf(p, p.key.typ in s.flags);
    Book(b.open[i := p.(used := false)], sources[j := Credited(s, p, kind)],
         b.reported + [EventOf(p, kind, |b.reported| + 1)], if b.count < EVENTS then b.count + 1 else b.count)
  }

  predicate Due(p: Packet, now: nat) {
    p.used && Wrap(now - p.openedMs) >= COPY_WINDOW
  }

  /** bd_repeat_tick from slot i on. */
  function Ticked(b: Book, now: nat, i: nat): (b': Book)
    requires Sized(b) && i <= OPEN_PACKETS
    ensures Sized(b')
    decreases OPEN_PACKETS - i, now
  {
    if i == OPEN_PACKETS then b
    else Ticked(if Due(b.open[i], now) then Closed(b, i) else b, now, i + 1)
  }

  // --- a further frame ---

  /** `(int32_t)(a - b) > 0` */
  predicate After(a: nat, b: nat) {
    0 < Wrap(a - b) < U32 / 2
  }

  /** The newest open packet with this key, from slot i on. */
  function Match(open: seq<Packet>, key: Key, i: nat, best: int): (r: int)
    requires i <= |open| && -1 <= best < |open|
    ensures -1 <= r < |open|
    decreases |open| - i
  {
    if i == |open| then best
    else if open[i].used && open[i].key == key && (best < 0 || After(open[i].openedMs, open[best].openedMs))
    then Match(open, key, i + 1, i)
    else Match(open, key, i + 1, best)
  }

  /** The copy of an open packet: the first one sets signal and delay. */
  function Joined(p: Packet, sig: Signal, now: nat): Packet {
    var p1 := if p.copies == 0
              then p.(sigCopy := sig, delayMs := Wrap(now - p.openedMs) % 0x1_0000)
              else p;
    if p1.copies < MAX_COPIES then p1.(copies := p1.copies + 1) else p1
  }

  predicate Upgradable(e: Event, key: Key) {
    e.key == key && (e.kind == Both || e.kind == Direct)
  }

  /** The reported packet a late copy belongs to, looking i events back and further. */
  function Late(b: Book, key: Key, now: nat, i: nat): (r: int)
    requires Sized(b) && 1 <= i
    ensures -1 <= r < |b.reported|
    ensures r >= 0 ==> Upgradable(b.reported[r], key)
    decreases b.count + 1 - i
  {
    if i > b.count then -1
    else
      var e := b.reported[|b.reported| - i];
      if Wrap(now - e.openedMs) > LATE_COPY then -1
      else if Upgradable(e, key) then |b.reported| - i
      else Late(b, key, now, i + 1)
  }

  function UpgradedEvent(e: Event, sig: Signal, now: nat): Event {
    if e.kind == Both then (if e.copies < MAX_COPIES then e.(copies := e.copies + 1) else e)
    else e.(kind := Both, copies := 1, sigCopy := sig, delayMs := Wrap(now - e.openedMs) % 0x1_0000)
  }

  function UpgradedSource(s: Source, e: Event, sig: Signal, now: nat): Source {
    if e.kind == Both then s.(extra := s.extra + 1)
    else
      var s1 := s.(direct := if s.direct > 0 then s.direct - 1 else 0, both := s.both + 1);
      AddDelay(AddCopy(s1, sig), Wrap(now - e.openedMs) % 0x1_0000)
  }

  function Upgraded(b: Book, k: nat, sig: Signal, now: nat): (b': Book)
    requires Sized(b) && k < |b.reported|
    ensures Sized(b')
  {
    var e := b.reported[k];
    var sources, j := WithSource(b.sources, e.key.sender), Place(b.sources, e.key.sender);
    b.(reported := b.reported[k := UpgradedEvent(e, sig, now)],
       sources := sources[j := UpgradedSource(sources[j], e, sig, now)])
  }

  /** The slot for a new packet: the first free one, else the oldest. */
  function Slot(open: seq<Packet>, i: nat, best: nat): (r: nat)
    requires i <= |open| && best < |open|
    ensures r < |open|
    decreases |open| - i
  {
    if i == |open| then best
    else if !open[i].used then i
    else if Before(open[i].openedMs, open[best].openedMs) then Slot(open, i + 1, i)
    else Slot(open, i + 1, best)
  }

  function NewPacket(key: Key, forward: bool, sig: Signal, now: nat, ts: nat): Packet {
    if forward then Packet(true, true, key, 0, 0, sig, NO_SIGNAL, now, ts)
    else Packet(true, false, key, 1, 0, NO_SIGNAL, sig, now, ts)
  }

  function Opened(b: Book, p: Packet): (b': Book)
    requires Sized(b)
    ensures Sized(b')
  {
    var i := Slot(b.open, 0, 0);
    var b1 := if b.open[i].used then Closed(b, i) else b;
    b1.(open := b1.open[i := p])
  }

  /** What became of a frame: it opened this packet, joined it, or came late to this report, both as they were before. */
  datatype Outcome = Ignored | AsNew(p: Packet) | AsCopy(p: Packet) | AsLateCopy(e: Event)

  function Taken(b: Book, key: Key, forward: bool, sig: Signal, now: nat, ts: nat): (r: (Book, Outcome))
    requires Sized(b)
    ensures Sized(r.0)
  {
    var m := if forward then -1 else Match(b.open, key, 0, -1);
    var k := if forward then -1 else Late(b, key, now, 1);
    if m >= 0 then (b.(open := b.open[m := Joined(b.open[m], sig, now)]), AsCopy(b.open[m]))
    else if k >= 0 then (Upgraded(b, k, sig, now), AsLateCopy(b.reported[k]))
    else
      var p := NewPacket(key, forward, sig, now, ts);
      (Opened(b, p), AsNew(p))
  }

  // --- bd_repeat_note ---

  const TYPE_NAME := 2

  predicate Tracked(typ: nat) {
    typ == 1 || typ == TYPE_NAME || typ == 4 || typ == 7 || typ == 10
  }

  /** The printable start of a name packet. */
  function NameOf(text: seq<Byte>, i: nat): seq<Byte>
    decreases |text|
  {
    if text == [] || i >= NAME_LEN || !(0x20 <= text[0] < 0x7F) then []
    else [text[0]] + NameOf(text[1..], i + 1)
  }

  function Named(b: Book, sender: Sender, text: seq<Byte>): (b': Book)
    requires Sized(b)
    ensures Sized(b')
  {
    var name := NameOf(text, 0);
    if name == [] then b
    else
      var sources, j := WithSource(b.sources, sender), Place(b.sources, sender);
      b.(sources := sources[j := sources[j].(name := name)])
  }

  /** A frame with the signal it came in with, and the clocks at the tick, at the matching, and of the day. */
  datatype Heard = Heard(frame: seq<Byte>, crc: nat, sig: Signal, tickMs: nat, nowMs: nat, ts: nat)

  predicate Counts(frame: seq<Byte>) {
    |frame| >= 4 && Tracked(frame[0] % 64)
  }

  function SenderOf(frame: seq<Byte>): Sender
    requires |frame| >= 4
  {
    Sender(frame[1], frame[2] + 256 * (frame[3] as int))
  }

  function KeyOf(h: Heard): Key
    requires |h.frame| >= 4
  {
    Key(SenderOf(h.frame), h.frame[0] % 64, h.crc)
  }

  predicate Forward(frame: seq<Byte>)
    requires |frame| >= 4
  {
    frame[0] / 64 % 2 == 1
  }

  function Noted(b: Book, h: Heard): (r: (Book, Outcome))
    requires Sized(b)
    ensures Sized(r.0)
  {
    if !Counts(h.frame) then (b, Ignored)
    else
      var named := if h.frame[0] % 64 == TYPE_NAME && h.frame[0] < 128
                   then Named(b, SenderOf(h.frame), h.frame[4..]) else b;
      Taken(Ticked(named, h.tickMs, 0), KeyOf(h), Forward(h.frame), h.sig, h.nowMs, h.ts)
  }

  // --- bd_repeat_reset and bd_repeat_next_delay_ms ---

  const NO_SOURCE := NewSource(Sender(0, 0)).(used := false)

  function Cleared(b: Book): (b': Book)
    requires Sized(b)
    ensures Sized(b')
  {
    b.(sources := seq(SOURCES, _ => NO_SOURCE), count := 0)
  }

  const NEVER := U32 - 1

  function Left(p: Packet, now: nat): nat {
    var age := Wrap(now - p.openedMs);
    if age >= COPY_WINDOW then 0 else COPY_WINDOW - age
  }

  function NextDelay(open: seq<Packet>, now: nat, i: nat, next: nat): nat
    requires i <= |open|
    decreases |open| - i
  {
    if i == |open| then next
    else NextDelay(open, now, i + 1, if open[i].used && Left(open[i], now) < next then Left(open[i], now) else next)
  }

  function Start(): (b: Book)
    ensures Sized(b)
  {
    var free := Packet(false, false, Key(Sender(0, 0), 0, 0), 0, 0, NO_SIGNAL, NO_SIGNAL, 0, 0);
    Book(seq(OPEN_PACKETS, _ => free), seq(SOURCES, _ => NO_SOURCE), [], 0)
  }
}
