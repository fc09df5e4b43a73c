/** Sending a stored image to a sensor chunk by chunk, and the statistics kept of it (ota_gs.cpp). */
module OtaTransfer {
  import opened Words

  const MAX_CHUNK := 192
  const MIN_CHUNK := 32
  const MAX_ATTEMPTS := 15
  const RETRY_ABORT := 15
  const STATE_RX := 2
  const ERR_SIZE := 0x82
  const U16: nat := 0x1_0000

  datatype Packet = Packet(no: nat, data: seq<Byte>)

  datatype Ack = Ack(status: nat, nextSeq: nat, resends: nat, proactive: nat, snr: int, rssi: int)

  /** What an attempt to send a packet gives: the radio refuses it, nothing comes back in time, or an answer, which
   *  may be anything, with the signal it came in with. */
  datatype Result = NotSent | Silent | Answered(ack: Ack, snr: int)

  datatype Attempt = Attempt(p: Packet, result: Result)

  /** What became of one chunk, with the last signal seen. */
  datatype Outcome = Accepted(retries: nat, ack: Ack, snr: int) | TooLarge(snr: int) | GivenUp(snr: int)

  const NO_SNR := -20

  predicate Acknowledges(ack: Ack, no: nat) {
    ack.status == STATE_RX && ack.nextSeq >= (no + 1) % U16
  }

  // --- the packets of an image ---

  function Least(a: nat, b: nat): nat {
    if a < b then a else b
  }

  function ChunkCount(size: nat, chunk: nat): nat
    requires chunk > 0
  {
    (size + chunk - 1) / chunk
  }

  /** Where chunk i starts, at most the end of the image. */
  function Cut(size: nat, chunk: nat, i: nat): (c: nat)
    ensures c <= size
    decreases i
  {
    if i == 0 then 0 else Least(Cut(size, chunk, i - 1) + chunk, size)
  }

  lemma {:induction false} CutIs(size: nat, chunk: nat, i: nat)
    ensures Cut(size, chunk, i) == Least(i * chunk, size)
  {
    if i > 0 {
      CutIs(size, chunk, i - 1);
      OneMore(i - 1, chunk);
    }
  }

  lemma {:induction false} CutOrder(size: nat, chunk: nat, i: nat, j: nat)
    requires i <= j
    ensures Cut(size, chunk, i) <= Cut(size, chunk, j)
    decreases j
  {
    if i < j {
      CutOrder(size, chunk, i, j - 1);
    }
  }

  /** Packet i of an image, numbered in 16 bits. */
  function PacketOf(image: seq<Byte>, chunk: nat, i: nat): Packet {
    CutOrder(|image|, chunk, i, i + 1);
    Packet(i % U16, image[Cut(|image|, chunk, i)..Cut(|image|, chunk, i + 1)])
  }

  function Packets(image: seq<Byte>, chunk: nat, start: nat, n: nat): (p: seq<Packet>)
    ensures |p| == n && forall i {:trigger p[i]} :: 0 <= i < n ==> p[i] == PacketOf(image, chunk, start + i)
  {
    seq(n, i requires 0 <= i < n => PacketOf(image, chunk, start + i))
  }

  function Joined(packets: seq<Packet>): seq<Byte>
    decreases |packets|
  {
    if packets == [] then [] else Joined(packets[..|packets| - 1]) + packets[|packets| - 1].data
  }

  lemma SlicesJoin(s: seq<Byte>, a: nat, b: nat, c: nat)
    requires a <= b <= c <= |s|
    ensures s[a..b] + s[b..c] == s[a..c]
  {
  }

  /** n packets from packet `start` on join to that stretch of the image. */
  predicate JoinToImage(image: seq<Byte>, chunk: nat, start: nat, n: nat) {
    && Cut(|image|, chunk, start) <= Cut(|image|, chunk, start + n)
    && Joined(Packets(image, chunk, start, n)) == image[Cut(|image|, chunk, start)..Cut(|image|, chunk, start + n)]
  }

  lemma OneMorePacket(image: seq<Byte>, chunk: nat, start: nat, n: nat, m: nat)
    requires JoinToImage(image, chunk, start, n) && m == n + 1
    ensures JoinToImage(image, chunk, start, m)
  {
    var p := PacketOf(image, chunk, start + n);
    CutOrder(|image|, chunk, start + n, start + m);
    PacketsMore(image, chunk, start, n);
    JoinedMore(Packets(image, chunk, start, n), p);
    SlicesJoin(image, Cut(|image|, chunk, start), Cut(|image|, chunk, start + n), Cut(|image|, chunk, start + m));
  }

  lemma {:induction false} JoinedIs(image: seq<Byte>, chunk: nat, start: nat, n: nat)
    ensures JoinToImage(image, chunk, start, n)
    decreases n
  {
    if n > 0 {
      JoinedIs(image, chunk, start, n - 1);
      OneMorePacket(image, chunk, start, n - 1, n);
    }
  }

  lemma PacketsMore(image: seq<Byte>, chunk: nat, start: nat, n: nat)
    ensures Packets(image, chunk, start, n + 1) == Packets(image, chunk, start, n) + [PacketOf(image, chunk, start + n)]
  {
  }

  lemma JoinedMore(packets: seq<Packet>, p: Packet)
    ensures Joined(packets + [p]) == Joined(packets) + p.data
  {
    assert (packets + [p])[..|packets|] == packets;
  }

  /** The number of chunks covers the image, with the last one not empty. */
  lemma CountCovers(size: nat, chunk: nat)
    requires chunk > 0
    ensures size <= ChunkCount(size, chunk) * chunk < size + chunk
  {
  }

  /** All packets of an image join to the image. */
  lemma WholeImage(image: seq<Byte>, chunk: nat)
    requires chunk > 0
    ensures Joined(Packets(image, chunk, 0, ChunkCount(|image|, chunk))) == image
  {
    JoinedIs(image, chunk, 0, ChunkCount(|image|, chunk));
    CountCovers(|image|, chunk);
    CutIs(|image|, chunk, ChunkCount(|image|, chunk));
  }

  predicate Distinct(packets: seq<Packet>) {
    forall i, j :: 0 <= i < j < |packets| ==> packets[i].no != packets[j].no
  }

  /** The 16-bit numbers tell the packets of an image apart exactly up to 65536 chunks. */
  lemma NumbersExact(image: seq<Byte>, chunk: nat)
    requires chunk > 0
    ensures Distinct(Packets(image, chunk, 0, ChunkCount(|image|, chunk))) <==> |image| <= U16 * chunk
  {
    var n := ChunkCount(|image|, chunk);
    var p := Packets(image, chunk, 0, n);
    CountCovers(|image|, chunk);
    OneMore(U16, chunk);
    if |image| <= U16 * chunk {
      MulLess(n, U16 + 1, chunk);
      forall i, j | 0 <= i < j < n
        ensures p[i].no != p[j].no
      {
        SmallRemainder(i, U16);
        SmallRemainder(j, U16);
      }
    } else {
      MulLess(U16, n, chunk);
      assert p[0].no == 0 && p[U16].no == 0;
    }
  }

  /** Such images exist: two megabytes and a byte in chunks of 32. */
  lemma NumbersRepeat(image: seq<Byte>)
    requires |image| == 0x20_0001
    ensures !Distinct(Packets(image, MIN_CHUNK, 0, ChunkCount(|image|, MIN_CHUNK)))
  {
    NumbersExact(image, MIN_CHUNK);
  }

  /** An acknowledgement says that the next packet is wanted, but behind packet 65535 it says nothing. */
  lemma AckMeaning(ack: Ack, no: nat)
    requires no < U16 && ack.status == STATE_RX
    ensures Acknowledges(ack, no) <==> ack.nextSeq > no || no == U16 - 1
  {
  }

  // --- what goes over the air ---

  /** The radio, with a log of all attempts. */
  class Channel {
    ghost var log: seq<Attempt>

    constructor ()
      ensures log == []
    {
      log := [];
    }

    /** transmitPacket and waitForAck */
    method Exchange(p: Packet) returns (r: Result)
      modifies this
      ensures log == old(log) + [Attempt(p, r)]
    {
      r := *;
      log := log + [Attempt(p, r)];
    }
  }

  predicate Accepts(a: Attempt) {
    a.result.Answered? && Acknowledges(a.result.ack, a.p.no)
  }

  predicate Rejects(a: Attempt) {
    a.result.Answered? && !Accepts(a) && a.result.ack.status == ERR_SIZE
  }

  /** An acknowledged packet: attempts before it, and what the answer said. */
  datatype Report = Report(tries: nat, ack: Ack, snr: int)

  /** What a log comes to: the packets acknowledged with a report each, and since then the attempts and the signal of
   *  the last answer. */
  datatype Account = Account(acked: seq<Packet>, reports: seq<Report>, tries: nat, snr: int)

  function Next(s: Account, a: Attempt): Account {
    if Accepts(a) then Account(s.acked + [a.p], s.reports + [Report(s.tries, a.result.ack, a.result.snr)], 0, NO_SNR)
    else s.(tries := s.tries + 1, snr := if a.result.Answered? then a.result.snr else s.snr)
  }

  function AccountOf(log: seq<Attempt>): Account
    decreases |log|
  {
    if log == [] then Account([], [], 0, NO_SNR) else Next(AccountOf(log[..|log| - 1]), log[|log| - 1])
  }

  function Acknowledged(log: seq<Attempt>): seq<Packet> {
    AccountOf(log).acked
  }

  lemma AccountMore(log: seq<Attempt>, a: Attempt, more: seq<Attempt>)
    requires more == log + [a]
    ensures AccountOf(more) == Next(AccountOf(log), a)
  {
    assert more[..|log|] == log;
  }

  /** Every attempt is for the first packet not acknowledged before it, and none is made more than fifteen times. */
  ghost predicate InOrder(log: seq<Attempt>, image: seq<Byte>, chunk: nat, start: nat) {
    forall i :: 0 <= i < |log| ==> NextAt(log, i, image, chunk, start)
  }

  predicate NextAt(log: seq<Attempt>, i: nat, image: seq<Byte>, chunk: nat, start: nat)
    requires i < |log|
  {
    IsNext(AccountOf(log[..i]), log[i].p, image, chunk, start)
  }

  predicate IsNext(s: Account, p: Packet, image: seq<Byte>, chunk: nat, start: nat) {
    s.tries < MAX_ATTEMPTS && p == PacketOf(image, chunk, start + |s.acked|)
  }

  lemma OrderMore(log: seq<Attempt>, a: Attempt, more: seq<Attempt>, image: seq<Byte>, chunk: nat, start: nat)
    requires InOrder(log, image, chunk, start) && IsNext(AccountOf(log), a.p, image, chunk, start) && more == log + [a]
    ensures InOrder(more, image, chunk, start)
  {
    forall i | 0 <= i < |more|
      ensures NextAt(more, i, image, chunk, start)
    {
      assert more[..i] == log[..i];
      assert i < |log| ==> NextAt(log, i, image, chunk, start);
    }
  }

  lemma OrderBefore(log: seq<Attempt>, image: seq<Byte>, chunk: nat, start: nat)
    requires log != [] && InOrder(log, image, chunk, start)
    ensures InOrder(log[..|log| - 1], image, chunk, start)
    ensures IsNext(AccountOf(log[..|log| - 1]), log[|log| - 1].p, image, chunk, start)
  {
    var before := log[..|log| - 1];
    forall i | 0 <= i < |before|
      ensures NextAt(before, i, image, chunk, start)
    {
      assert NextAt(log, i, image, chunk, start) && before[..i] == log[..i];
    }
    assert NextAt(log, |log| - 1, image, chunk, start);
  }

  /** So what it has acknowledged are the packets of the image from the first one on. */
  lemma {:induction false} AcknowledgedAre(log: seq<Attempt>, image: seq<Byte>, chunk: nat, start: nat)
    requires InOrder(log, image, chunk, start)
    ensures Acknowledged(log) == Packets(image, chunk, start, |Acknowledged(log)|)
    decreases |log|
  {
    if log != [] {
      OrderBefore(log, image, chunk, start);
      AcknowledgedAre(log[..|log| - 1], image, chunk, start);
      PacketsMore(image, chunk, start, |Acknowledged(log[..|log| - 1])|);
    }
  }

  // --- statistics ---

  /** Six lists, one entry per chunk. */
  datatype Lists = Lists(retries: seq<nat>, snr: seq<int>, resends: seq<nat>, deviceSnr: seq<int>, deviceRssi: seq<int>,
                         proactive: seq<nat>)

  function Added(l: Lists, r: Report): Lists {
    Lists(l.retries + [r.tries], l.snr + [r.snr], l.resends + [r.ack.resends], l.deviceSnr + [r.ack.snr],
          l.deviceRssi + [r.ack.rssi], l.proactive + [r.ack.proactive])
  }

  function AddedAll(l: Lists, reports: seq<Report>): Lists
    decreases |reports|
  {
    if reports == [] then l else Added(AddedAll(l, reports[..|reports| - 1]), reports[|reports| - 1])
  }

  /** The entry of a chunk that ended the transfer. */
  function Aborted(l: Lists, snr: int): Lists {
    Added(l, Report(RETRY_ABORT, Ack(0, 0, 0, 0, 0, 0), snr))
  }

  predicate Even(l: Lists) {
    |l.retries| == |l.snr| == |l.resends| == |l.deviceSnr| == |l.deviceRssi| == |l.proactive|
  }

  /** The lists stay as long as one another, one entry per report. */
  lemma {:induction false} AddedEven(l: Lists, reports: seq<Report>, snr: int)
    requires Even(l)
    ensures Even(AddedAll(l, reports)) && |AddedAll(l, reports).retries| == |l.retries| + |reports|
    ensures Even(Aborted(AddedAll(l, reports), snr))
    decreases |reports|
  {
    if reports != [] {
      AddedEven(l, reports[..|reports| - 1], snr);
    }
  }

  class Statistics {
    var retries: seq<nat>
    var snr: seq<int>
    var resends: seq<nat>
    var deviceSnr: seq<int>
    var deviceRssi: seq<int>
    var proactive: seq<nat>

    function All(): Lists
      reads this
    {
      Lists(retries, snr, resends, deviceSnr, deviceRssi, proactive)
    }

    /** One entry in each list. */
    method Push(tries: nat, ack: Ack, signal: int)
      modifies this
      ensures All() == Added(old(All()), Report(tries, ack, signal))
    {
      retries := retries + [tries];
      snr := snr + [signal];
      resends := resends + [ack.resends];
      deviceSnr := deviceSnr + [ack.snr];
      deviceRssi := deviceRssi + [ack.rssi];
      proactive := proactive + [ack.proactive];
    }

    method Record(o: Outcome)
      modifies this
      ensures All() == if o.Accepted? then Added(old(All()), Report(o.retries, o.ack, o.snr)) else Aborted(old(All()), o.snr)
    {
      if o.Accepted? {
        Push(o.retries, o.ack, o.snr);
      } else {
        Push(RETRY_ABORT, Ack(0, 0, 0, 0, 0, 0), o.snr);
      }
    }
  }

  // --- one chunk ---

  /** The attempts for one packet, none of which was acknowledged. */
  predicate Vain(tries: seq<Attempt>, p: Packet) {
    |tries| <= MAX_ATTEMPTS && forall i :: 0 <= i < |tries| ==> tries[i].p == p && !Accepts(tries[i])
  }

  /** How the attempts for a packet ended. */
  predicate Ended(tries: seq<Attempt>, p: Packet, o: Outcome) {
    match o
    case Accepted(n, ack, snr) =>
      && n < MAX_ATTEMPTS && |tries| == n + 1 && Vain(tries[..n], p)
      && tries[n] == Attempt(p, Answered(ack, snr)) && Accepts(tries[n])
    case TooLarge(snr) => Vain(tries, p) && tries != [] && Rejects(tries[|tries| - 1]) && snr == AccountOf(tries).snr
    case GivenUp(snr) => Vain(tries, p) && |tries| == MAX_ATTEMPTS && snr == AccountOf(tries).snr
  }

  /** One more attempt: the chunk is acknowledged or refused, or it was in vain. */
  lemma TriedOnce(tries: seq<Attempt>, p: Packet, r: Result)
    requires Vain(tries, p) && |tries| < MAX_ATTEMPTS
    ensures var a := Attempt(p, r);
      if Accepts(a) then Ended(tries + [a], p, Accepted(|tries|, r.ack, r.snr))
      else
        && Vain(tries + [a], p) && AccountOf(tries + [a]).snr == (if r.Answered? then r.snr else AccountOf(tries).snr)
        && (Rejects(a) ==> Ended(tries + [a], p, TooLarge(r.snr)))
  {
    AccountMore(tries, Attempt(p, r), tries + [Attempt(p, r)]);
    assert (tries + [Attempt(p, r)])[..|tries|] == tries;
  }

  /** One chunk: sent until it is acknowledged or refused, up to 15 times. */
  method SendChunk(ch: Channel, p: Packet) returns (o: Outcome, ghost tries: seq<Attempt>)
    modifies ch
    ensures ch.log == old(ch.log) + tries && Ended(tries, p, o)
  {
    tries := [];
    var snr := NO_SNR;
    var attempt := 0;
    while attempt < MAX_ATTEMPTS
      invariant attempt <= MAX_ATTEMPTS && |tries| == attempt && Vain(tries, p)
      invariant ch.log == old(ch.log) + tries && snr == AccountOf(tries).snr
    {
      var r := ch.Exchange(p);
      TriedOnce(tries, p, r);
      tries := tries + [Attempt(p, r)];
      if r.Answered? {
        snr := r.snr;
        if r.ack.status == STATE_RX && r.ack.nextSeq >= (p.no + 1) % U16 {
          return Accepted(attempt, r.ack, snr), tries;
        }
        if r.ack.status == ERR_SIZE {
          return TooLarge(snr), tries;
        }
      }
      attempt := attempt + 1;
    }
    o := GivenUp(snr);
  }

  // --- all chunks ---

  lemma LastOf(log: seq<Attempt>, tries: seq<Attempt>)
    requires tries != []
    ensures log + tries == (log + tries[..|tries| - 1]) + [tries[|tries| - 1]]
  {
  }

  /** Nothing tried since the last acknowledgement. */
  predicate Rested(s: Account) {
    s.tries == 0 && s.snr == NO_SNR
  }

  /** Vain attempts behind a log that ends with an acknowledgement. */
  lemma {:induction false} VainJoins(log: seq<Attempt>, tries: seq<Attempt>, p: Packet, image: seq<Byte>, chunk: nat, start: nat)
    requires InOrder(log, image, chunk, start) && Rested(AccountOf(log)) && Vain(tries, p)
    requires p == PacketOf(image, chunk, start + |Acknowledged(log)|)
    ensures InOrder(log + tries, image, chunk, start)
    ensures AccountOf(log + tries) == AccountOf(log).(tries := |tries|, snr := AccountOf(tries).snr)
    decreases |tries|
  {
    if tries == [] {
      assert log + tries == log;
    } else {
      var n := |tries| - 1;
      VainJoins(log, tries[..n], p, image, chunk, start);
      LastOf(log, tries);
      AccountMore(log + tries[..n], tries[n], log + tries);
      OrderMore(log + tries[..n], tries[n], log + tries, image, chunk, start);
    }
  }

  /** The account after one more chunk. */
  function AfterChunk(s: Account, p: Packet, o: Outcome, tries: nat): Account {
    if o.Accepted? then Account(s.acked + [p], s.reports + [Report(o.retries, o.ack, o.snr)], 0, NO_SNR)
    else s.(tries := tries, snr := o.snr)
  }

  lemma BothMore(log: seq<Attempt>, s: Account, a: Attempt, more: seq<Attempt>, image: seq<Byte>, chunk: nat, start: nat)
    requires InOrder(log, image, chunk, start) && s == AccountOf(log) && IsNext(s, a.p, image, chunk, start)
    requires more == log + [a]
    ensures InOrder(more, image, chunk, start) && AccountOf(more) == Next(s, a)
  {
    AccountMore(log, a, more);
    OrderMore(log, a, more, image, chunk, start);
  }

  lemma AcceptedJoins(log: seq<Attempt>, vain: seq<Attempt>, a: Attempt, p: Packet, image: seq<Byte>, chunk: nat, start: nat,
                      more: seq<Attempt>)
    requires InOrder(log, image, chunk, start) && Rested(AccountOf(log)) && more == (log + vain) + [a]
    requires Vain(vain, p) && |vain| < MAX_ATTEMPTS && a.p == p && Accepts(a)
    requires p == PacketOf(image, chunk, start + |Acknowledged(log)|)
    ensures InOrder(more, image, chunk, start)
    ensures var s := AccountOf(log);
      AccountOf(more) == Account(s.acked + [p], s.reports + [Report(|vain|, a.result.ack, a.result.snr)], 0, NO_SNR)
  {
    VainJoins(log, vain, p, image, chunk, start);
    BothMore(log + vain, AccountOf(log).(tries := |vain|, snr := AccountOf(vain).snr), a, more, image, chunk, start);
  }

  lemma ChunkJoins(log: seq<Attempt>, tries: seq<Attempt>, p: Packet, o: Outcome, image: seq<Byte>, chunk: nat, start: nat,
                   more: seq<Attempt>)
    requires InOrder(log, image, chunk, start) && Rested(AccountOf(log)) && Ended(tries, p, o) && more == log + tries
    requires p == PacketOf(image, chunk, start + |Acknowledged(log)|)
    ensures InOrder(more, image, chunk, start) && tries != []
    ensures AccountOf(more) == AfterChunk(AccountOf(log), p, o, |tries|)
  {
    if o.Accepted? {
      LastOf(log, tries);
      AcceptedJoins(log, tries[..o.retries], tries[o.retries], p, image, chunk, start, more);
    } else {
      VainJoins(log, tries, p, image, chunk, start);
    }
  }

  /** The lists as the log has them, with an entry for a chunk that ended the transfer. */
  predicate Kept(before: Lists, after: Lists, s: Account) {
    var l := AddedAll(before, s.reports);
    after == if s.tries > 0 then Aborted(l, s.snr) else l
  }

  /** Chunks are counted while they start inside the image, and then all are. */
  predicate Counted(size: nat, chunk: nat, start: nat, n: nat, all: bool)
    requires chunk > 0
  {
    && (n > 0 ==> start + n <= ChunkCount(size, chunk))
    && (all ==> start * chunk <= size && start + n == ChunkCount(size, chunk))
  }

  /** Between two chunks: all attempts so far led to acknowledgements, and the next chunk is the first one missing. */
  ghost predicate Between(image: seq<Byte>, chunk: nat, start: nat, log: seq<Attempt>, no: nat, sent: nat) {
    && InOrder(log, image, chunk, start) && Rested(AccountOf(log))
    && no == (start + |Acknowledged(log)|) % U16
    && Reached(|image|, chunk, start, |Acknowledged(log)|, sent)
  }

  lemma Start(image: seq<Byte>, chunk: nat, start: nat, lists: Lists)
    requires start < U16
    ensures Between(image, chunk, start, [], start, start * chunk) && Kept(lists, lists, AccountOf([]))
  {
    SmallRemainder(start, U16);
  }

  /** What the attempts for the next chunk make of the log. */
  lemma ChunkDone(image: seq<Byte>, chunk: nat, start: nat, no: nat, sent: nat, p: Packet, o: Outcome, tries: seq<Attempt>,
                  log0: seq<Attempt>, log: seq<Attempt>)
    requires chunk > 0 && sent < |image| && Between(image, chunk, start, log0, no, sent)
    requires p == Packet(no, image[sent..sent + Least(chunk, |image| - sent)]) && Ended(tries, p, o) && log == log0 + tries
    ensures InOrder(log, image, chunk, start) && Counted(|image|, chunk, start, |Acknowledged(log)|, false)
    ensures AccountOf(log) == AfterChunk(AccountOf(log0), p, o, |tries|) && tries != []
    ensures o.Accepted? ==> Between(image, chunk, start, log, (no + 1) % U16, sent + Least(chunk, |image| - sent))
  {
    NextPacket(image, chunk, start, |Acknowledged(log0)|, no, sent, p);
    ChunkJoins(log0, tries, p, o, image, chunk, start, log);
    if o.Accepted? {
      NextBetween(image, chunk, start, no, sent, p, o, log0, log);
    }
  }

  lemma NextBetween(image: seq<Byte>, chunk: nat, start: nat, no: nat, sent: nat, p: Packet, o: Outcome,
                    log0: seq<Attempt>, log: seq<Attempt>)
    requires chunk > 0 && sent < |image| && Between(image, chunk, start, log0, no, sent)
    requires InOrder(log, image, chunk, start) && o.Accepted? && AccountOf(log) == AfterChunk(AccountOf(log0), p, o, 0)
    ensures Between(image, chunk, start, log, (no + 1) % U16, sent + Least(chunk, |image| - sent))
    ensures Counted(|image|, chunk, start, |Acknowledged(log)|, false)
  {
    Advance(image, chunk, start, |Acknowledged(log0)|, |Acknowledged(log)|, no, sent);
  }

  lemma StreamEnds(image: seq<Byte>, chunk: nat, start: nat, log: seq<Attempt>, no: nat, sent: nat)
    requires chunk > 0 && Between(image, chunk, start, log, no, sent)
    ensures InOrder(log, image, chunk, start) && Counted(|image|, chunk, start, |Acknowledged(log)|, sent == |image|)
    ensures AccountOf(log).tries == 0
  {
    EndCounted(|image|, chunk, start, |Acknowledged(log)|, sent);
  }

  lemma NextReport(before: Lists, after: Lists, s: Account, p: Packet, o: Outcome, tries: nat)
    requires Kept(before, after, s) && s.tries == 0 && tries > 0
    ensures Kept(before, if o.Accepted? then Added(after, Report(o.retries, o.ack, o.snr)) else Aborted(after, o.snr),
                 AfterChunk(s, p, o, tries))
  {
    if o.Accepted? {
      assert AfterChunk(s, p, o, tries).reports[..|s.reports|] == s.reports;
    }
  }

  lemma EndCounted(size: nat, chunk: nat, start: nat, n: nat, sent: nat)
    requires chunk > 0 && Reached(size, chunk, start, n, sent)
    ensures Counted(size, chunk, start, n, sent == size)
  {
    StillCounted(size, chunk, start, n, sent);
    if sent == size {
      AllCounted(size, chunk, start, n);
    }
  }

  /** How far the transfer is after n chunks. */
  predicate Reached(size: nat, chunk: nat, start: nat, n: nat, sent: nat) {
    && (if n == 0 then sent == start * chunk else sent == Cut(size, chunk, start + n))
    && (n > 0 ==> (start + n - 1) * chunk < size)
  }

  lemma NextNumber(i: nat)
    ensures (i % U16 + 1) % U16 == (i + 1) % U16
  {
    ModShift(i % U16 + 1, i / U16, U16);
  }

  /** The packet made of the next bytes is the next packet of the image. */
  lemma NextPacket(image: seq<Byte>, chunk: nat, start: nat, n: nat, no: nat, sent: nat, p: Packet)
    requires chunk > 0 && Reached(|image|, chunk, start, n, sent) && sent < |image| && no == (start + n) % U16
    requires p == Packet(no, image[sent..sent + Least(chunk, |image| - sent)])
    ensures p == PacketOf(image, chunk, start + n) && Counted(|image|, chunk, start, n, false)
  {
    CutIs(|image|, chunk, start + n);
    StillCounted(|image|, chunk, start, n, sent);
  }

  /** How far the transfer is behind it. */
  lemma Advance(image: seq<Byte>, chunk: nat, start: nat, n: nat, m: nat, no: nat, sent: nat)
    requires chunk > 0 && Reached(|image|, chunk, start, n, sent) && sent < |image| && no == (start + n) % U16 && m == n + 1
    ensures Reached(|image|, chunk, start, m, sent + Least(chunk, |image| - sent))
    ensures (no + 1) % U16 == (start + m) % U16 && Counted(|image|, chunk, start, m, false)
  {
    CutIs(|image|, chunk, start + n);
    NextNumber(start + n);
    StillCounted(|image|, chunk, start, n + 1, sent + Least(chunk, |image| - sent));
  }

  /** Chunks that start inside the image are among those counted. */
  lemma StillCounted(size: nat, chunk: nat, start: nat, n: nat, sent: nat)
    requires chunk > 0 && Reached(size, chunk, start, n, sent)
    ensures Counted(size, chunk, start, n, false)
  {
    CountCovers(size, chunk);
    if n > 0 {
      MulLess(start + n - 1, ChunkCount(size, chunk), chunk);
    }
  }

  lemma AllCounted(size: nat, chunk: nat, start: nat, n: nat)
    requires chunk > 0 && Reached(size, chunk, start, n, size)
    ensures start + n == ChunkCount(size, chunk) && start * chunk <= size
  {
    CountCovers(size, chunk);
    CutIs(size, chunk, start + n);
    if n > 0 {
      MulOrder(start, start + n - 1, chunk);
    }
    var k := ChunkCount(size, chunk);
    StillCounted(size, chunk, start, n, size);
    OneMore(start + n, chunk);
    OneMore(k, chunk);
    MulLess(k, start + n + 1, chunk);
    if n == 0 {
      MulLess(start, k + 1, chunk);
    }
  }

  /** What a transfer from the first chunk on has acknowledged joins to the start of the image, and to all of it if
   *  every chunk was. */
  lemma JoinsToImage(log: seq<Attempt>, image: seq<Byte>, chunk: nat)
    requires chunk > 0 && InOrder(log, image, chunk, 0)
    ensures Joined(Acknowledged(log)) == image[..Cut(|image|, chunk, |Acknowledged(log)|)]
    ensures |Acknowledged(log)| == ChunkCount(|image|, chunk) ==> Joined(Acknowledged(log)) == image
  {
    AcknowledgedAre(log, image, chunk, 0);
    JoinedIs(image, chunk, 0, |Acknowledged(log)|);
    if |Acknowledged(log)| == ChunkCount(|image|, chunk) {
      WholeImage(image, chunk);
    }
  }

  // --- what the lists say ---

  /** Entry k of the six lists is about this answer, behind so many attempts in vain. */
  predicate EntryIs(l: Lists, k: nat, tries: nat, ack: Ack, snr: int)
    requires Even(l) && k < |l.retries|
  {
    && l.retries[k] == tries && l.snr[k] == snr && l.resends[k] == ack.resends && l.deviceSnr[k] == ack.snr
    && l.deviceRssi[k] == ack.rssi && l.proactive[k] == ack.proactive
  }

  lemma {:induction false} ReportsListed(before: Lists, reports: seq<Report>, k: nat)
    requires Even(before) && k < |reports|
    ensures var l := AddedAll(before, reports);
      && Even(l) && |l.retries| == |before.retries| + |reports|
      && EntryIs(l, |before.retries| + k, reports[k].tries, reports[k].ack, reports[k].snr)
    decreases |reports|
  {
    var n := |reports| - 1;
    AddedEven(before, reports[..n], 0);
    if k < n {
      ReportsListed(before, reports[..n], k);
    }
  }

  /** The attempt that was accepted gives the next report. */
  lemma {:induction false} ReportOf(log: seq<Attempt>, i: nat)
    requires i < |log| && Accepts(log[i])
    ensures var s, k := AccountOf(log), |AccountOf(log[..i]).reports|;
      k < |s.reports| && s.reports[k] == Report(AccountOf(log[..i]).tries, log[i].result.ack, log[i].result.snr)
    decreases |log|
  {
    var n := |log| - 1;
    if i < n {
      ReportOf(log[..n], i);
      assert log[..n][..i] == log[..i];
    }
  }

  /** The attempts counted are those since the last answer accepted. */
  lemma {:induction false} TriesAre(log: seq<Attempt>)
    ensures var n, t := |log|, AccountOf(log).tries;
      && t <= n && (forall i :: n - t <= i < n ==> !Accepts(log[i]))
      && (t < n ==> Accepts(log[n - t - 1]))
    decreases |log|
  {
    if log != [] {
      TriesAre(log[..|log| - 1]);
    }
  }

  /** Each answer accepted has its entry in the lists, in order; a chunk that ended the transfer has the last one. */
  lemma ListsTell(before: Lists, after: Lists, log: seq<Attempt>, i: nat)
    requires Even(before) && Kept(before, after, AccountOf(log)) && i < |log| && Accepts(log[i])
    ensures var n, s := |before.retries|, AccountOf(log);
      && Even(after) && |after.retries| == n + |s.reports| + (if s.tries > 0 then 1 else 0)
      && |AccountOf(log[..i]).reports| < |s.reports|
      && EntryIs(after, n + |AccountOf(log[..i]).reports|, AccountOf(log[..i]).tries, log[i].result.ack, log[i].result.snr)
  {
    var k := |AccountOf(log[..i]).reports|;
    ReportOf(log, i);
    ReportsListed(before, AccountOf(log).reports, k);
  }

  lemma AbortListed(before: Lists, after: Lists, s: Account)
    requires Even(before) && Kept(before, after, s) && s.tries > 0
    ensures var n := |before.retries| + |s.reports|;
      Even(after) && |after.retries| == n + 1 && EntryIs(after, n, RETRY_ABORT, Ack(0, 0, 0, 0, 0, 0), s.snr)
  {
    AddedEven(before, s.reports, 0);
  }

  // --- nibble arrays ---

  function PackNibbles(hi: nat, lo: nat): nat {
    hi % 16 * 16 + lo % 16
  }

  /** Value i of a packed array. */
  function Nibble(packed: seq<nat>, i: nat): nat
    requires i / 2 < |packed|
  {
    if i % 2 == 0 then packed[i / 2] / 16 else packed[i / 2] % 16
  }

  /** packNibbleArray: two values a byte, first one high; every value can be read back. */
  method PackNibbleArray(values: seq<nat>) returns (out: seq<nat>)
    ensures |out| == (|values| + 1) / 2 && forall k :: 0 <= k < |out| ==> out[k] < 256
    ensures forall i :: 0 <= i < |values| ==> Nibble(out, i) == values[i] % 16
    ensures |values| % 2 == 1 ==> Nibble(out, |values|) == 0
  {
    out := [];
    var i := 0;
    while i < |values|
      invariant i % 2 == 0 && |out| == i / 2 && i <= |values| + 1
      invariant forall k :: 0 <= k < |out| ==> out[k] < 256
      invariant forall j :: 0 <= j < i && j < |values| ==> Nibble(out, j) == values[j] % 16
      invariant |values| < i ==> Nibble(out, |values|) == 0
    {
      var hi := values[i];
      var lo := if i + 1 < |values| then values[i + 1] else 0;
      ghost var before := out;
      out := out + [PackNibbles(hi, lo)];
      forall j | 0 <= j < i + 2 && j < |values|
        ensures Nibble(out, j) == values[j] % 16
      {
        if j < i {
          assert out[j / 2] == before[j / 2];
        }
      }
      i := i + 2;
    }
  }
}
