/**
 * Time sharing of the one radio between FANET, FLARM and ADS-L (bd_radio.cpp), in its
 * normal mode: FANET on, clock set, no debugging. The functions say what a tick does and
 * how long the radio task may sleep; the class has the code.
 */
module Scheduler {
  import opened Words

  const LOW_BEGIN := 340
  const HIGH_BEGIN := 790
  const WINDOW_END := 1260
  const ADSL_CHANNEL := 460
  const ADSL_END := 920

  datatype Mode = Fanet | FlarmLow | FlarmHigh | AdslLow | AdslHigh

  datatype Settings = Settings(flarm: bool, adsl: bool, profile: nat)

  /** The clock of the day in seconds and milliseconds, and the 32-bit millisecond counter. */
  datatype Clock = Clock(sec: nat, ms: nat, millis: nat)

  datatype State = State(mode: Mode, anchorMs: nat, anchorSec: nat, nextCycle: nat, periodIdx: nat, nextIsAdsl: bool)

  const START := State(Fanet, 0, 0, 0, 0, false)

  function Periods(profile: nat): (p: seq<nat>)
    ensures |p| == 3
  {
    if profile == 1 then [3, 4, 5] else if profile == 2 then [1, 1, 1] else [8, 9, 10]
  }

  predicate UseAdsl(set_: Settings, s: State) {
    set_.adsl && (!set_.flarm || s.nextIsAdsl)
  }

  /** How long after its anchor a mode lasts. */
  function Limit(mode: Mode): nat {
    match mode
    case Fanet => 0
    case FlarmLow => HIGH_BEGIN
    case FlarmHigh => WINDOW_END
    case AdslLow => ADSL_CHANNEL
    case AdslHigh => ADSL_END
  }

  predicate SlotOpen(ms: nat) {
    LOW_BEGIN <= ms < HIGH_BEGIN
  }

  function Entered(s: State, set_: Settings, c: Clock): State {
    if c.sec < s.nextCycle then s
    else if UseAdsl(set_, s) then s.(mode := AdslLow, anchorMs := c.millis, anchorSec := c.sec)
    else if !SlotOpen(c.ms) then s
    else s.(mode := FlarmLow, anchorMs := Wrap(c.millis - c.ms), anchorSec := c.sec)
  }

  function Left(s: State, set_: Settings): State
    requires s.periodIdx < 3
  {
    s.(mode := Fanet, nextCycle := s.anchorSec + Periods(set_.profile)[s.periodIdx],
       periodIdx := (s.periodIdx + 1) % 3, nextIsAdsl := !s.nextIsAdsl)
  }

  /** flarm_scheduler_tick */
  function Ticked(s: State, set_: Settings, c: Clock): (s': State)
    requires s.periodIdx < 3
    ensures s'.periodIdx < 3
  {
    if !set_.flarm && !set_.adsl then s.(mode := Fanet)
    else if s.mode == Fanet then Entered(s, set_, c)
    else if Wrap(c.millis - s.anchorMs) < Limit(s.mode) then s
    else
      match s.mode
      case FlarmLow => s.(mode := FlarmHigh)
      case AdslLow => s.(mode := AdslHigh)
      case _ => Left(s, set_)
  }

  const NEVER := U32 - 1

  function Remaining(deadline: nat, now: nat): nat {
    var d := Wrap(deadline - now);
    if 0 < d < U32 / 2 then d else 1
  }

  /** flarm_scheduler_next_delay_ms */
  function NextDelay(s: State, set_: Settings, c: Clock): int {
    if !set_.flarm && !set_.adsl then NEVER
    else if s.mode != Fanet then Remaining(s.anchorMs + Limit(s.mode), c.millis)
    else if s.nextCycle > c.sec then
      var ms := (s.nextCycle - c.sec) * 1000 + LOW_BEGIN - c.ms;
      if ms < 1 then 1 else if ms > 1000 then 1000 else ms
    else if c.ms < LOW_BEGIN then LOW_BEGIN - c.ms
    else if c.ms >= HIGH_BEGIN then 1000 - c.ms + LOW_BEGIN
    else 1
  }

  class Radio {
    var mode: Mode
    var anchorMs: nat
    var anchorSec: nat
    var nextCycle: nat
    var periodIdx: nat
    var nextIsAdsl: bool

    ghost function Now(): State
      reads this
    {
      State(mode, anchorMs, anchorSec, nextCycle, periodIdx, nextIsAdsl)
    }

    constructor ()
      ensures Now() == START
    {
      mode, anchorMs, anchorSec, nextCycle, periodIdx, nextIsAdsl := Fanet, 0, 0, 0, 0, false;
    }

    method Tick(set_: Settings, c: Clock)
      requires periodIdx < 3
      modifies this
      ensures Now() == Ticked(old(Now()), set_, c)
    {
      if !set_.flarm && !set_.adsl {
        if mode != Fanet {
          mode := Fanet;
        }
        return;
      }
      var useAdsl := set_.adsl && (!set_.flarm || nextIsAdsl);
      match mode {
        case Fanet =>
          if c.sec < nextCycle {
            return;
          }
          if useAdsl {
            anchorMs, anchorSec, mode := c.millis, c.sec, AdslLow;
            return;
          }
          if c.ms < LOW_BEGIN || c.ms >= HIGH_BEGIN {
            return;
          }
          anchorMs, anchorSec, mode := Wrap(c.millis - c.ms), c.sec, FlarmLow;
        case FlarmLow =>
          if Wrap(c.millis - anchorMs) >= HIGH_BEGIN {
            mode := FlarmHigh;
          }
        case AdslLow =>
          if Wrap(c.millis - anchorMs) >= ADSL_CHANNEL {
            mode := AdslHigh;
          }
        case _ =>
          var windowEnd := if mode == AdslHigh then ADSL_END else WINDOW_END;
          if Wrap(c.millis - anchorMs) >= windowEnd {
            mode := Fanet;
            nextCycle := anchorSec + Periods(set_.profile)[periodIdx];
            periodIdx := (periodIdx + 1) % 3;
            nextIsAdsl := !nextIsAdsl;
          }
      }
    }

    method NextDelayMs(set_: Settings, c: Clock) returns (delay: int)
      ensures delay == NextDelay(Now(), set_, c)
    {
      if !set_.flarm && !set_.adsl {
        return NEVER;
      }
      match mode {
        case Fanet =>
          var secondsToGo: int := nextCycle - c.sec;
          if secondsToGo > 0 {
            var ms := secondsToGo * 1000 + LOW_BEGIN - c.ms;
            if ms < 1 {
              ms := 1;
            }
            return if ms > 1000 then 1000 else ms;
          }
          if c.ms < LOW_BEGIN {
            return LOW_BEGIN - c.ms;
          }
          if c.ms >= HIGH_BEGIN {
            return (1000 - c.ms) + LOW_BEGIN;
          }
          return 1;
        case FlarmLow => return Remaining(anchorMs + HIGH_BEGIN, c.millis);
        case AdslLow => return Remaining(anchorMs + ADSL_CHANNEL, c.millis);
        case FlarmHigh => return Remaining(anchorMs + WINDOW_END, c.millis);
        case AdslHigh => return Remaining(anchorMs + ADSL_END, c.millis);
      }
    }
  }
}

/** Timing over whole runs of the scheduler, on a steady clock. */
module SchedulerRuns {
  import opened Words
  import opened Scheduler

  /** Both clocks at t milliseconds since the epoch, on a station started at `boot`. */
  function ClockAt(boot: nat, t: nat): Clock {
    Clock(t / 1000, t % 1000, Wrap(t - boot))
  }

  /** A tick: when, and with which settings. */
  datatype Beat = Beat(t: nat, set_: Settings)

  /** One stay away from FANET: where it started and how the settings stood, once on the upper channel, since when,
   *  and once over, when it ended and which period followed. */
  datatype Visit = Visit(adsl: bool, flag: bool, on: Settings, sec: nat, anchor: nat, start: nat, upper: bool, up: nat,
                         done: bool, end: nat, profile: nat, period: nat)

  datatype Trace = Trace(s: State, visits: seq<Visit>, t: nat)

  function Anchor(s: State, t: nat): nat {
    if s.mode == FlarmLow then t - t % 1000 else t
  }

  /** Is the radio on the upper one of the two channels of a protocol? */
  predicate OnUpper(s: State) {
    s.mode == FlarmHigh || s.mode == AdslHigh
  }

  function Logged(visits: seq<Visit>, s: State, s': State, beat: Beat): seq<Visit> {
    if s.mode == Fanet && s'.mode != Fanet then
      visits + [Visit(s'.mode == AdslLow, s.nextIsAdsl, beat.set_, beat.t / 1000, Anchor(s', beat.t), beat.t,
                      false, 0, false, 0, 0, 0)]
    else if !OnUpper(s) && OnUpper(s') && visits != [] then
      var n := |visits| - 1;
      visits[n := visits[n].(upper := true, up := beat.t)]
    else if s.mode != Fanet && s'.mode == Fanet && visits != [] then
      var n := |visits| - 1;
      if !beat.set_.flarm && !beat.set_.adsl then visits[..n]
      else
        visits[n := visits[n].(done := true, end := beat.t, profile := beat.set_.profile,
                               period := Periods(beat.set_.profile)[n % 3])]
    else visits
  }

  function Step(tr: Trace, beat: Beat, boot: nat): Trace
    requires tr.s.periodIdx < 3
  {
    var s' := Ticked(tr.s, beat.set_, ClockAt(boot, beat.t));
    Trace(s', Logged(tr.visits, tr.s, s', beat), beat.t)
  }

  /** Time goes forward, and a tick that is due comes at most `late` ms late. */
  predicate Timely(tr: Trace, beat: Beat, late: nat) {
    && tr.t <= beat.t
    && (tr.s.mode != Fanet && tr.visits != [] ==>
          var due := tr.visits[|tr.visits| - 1].anchor + Limit(tr.s.mode);
          beat.t <= (if due < tr.t then tr.t else due) + late)
  }

  predicate InOrder(visits: seq<Visit>, late: nat) {
    && (forall i {:trigger VisitOk(visits[i], i, late)} :: 0 <= i < |visits| ==> VisitOk(visits[i], i, late))
    && (forall i {:trigger InTurn(visits, i)} :: 0 < i < |visits| ==> InTurn(visits, i))
  }

  predicate InTurn(visits: seq<Visit>, i: nat)
    requires 0 < i < |visits|
  {
    Follows(visits[i - 1], visits[i])
  }

  /** When the stay has to be on its lower channel, and when on its upper one, counted from its anchor. */
  function LowerUntil(v: Visit): nat {
    if v.adsl then ADSL_CHANNEL else HIGH_BEGIN
  }

  function UpperUntil(v: Visit): nat {
    if v.adsl then ADSL_END else WINDOW_END
  }

  /** Which protocol a stay serves, where it starts, that it passes through the lower and then the upper channel, and
   *  how long each of them lasts at least and at most. */
  predicate VisitOk(v: Visit, i: nat, late: nat) {
    && v.sec == v.start / 1000
    && (if v.adsl then v.anchor == v.start else v.anchor == 1000 * v.sec && SlotOpen(v.start - v.anchor))
    && (v.adsl <==> v.on.adsl && (v.on.flarm ==> v.flag))
    && (v.upper ==> v.anchor + LowerUntil(v) <= v.up <= v.anchor + LowerUntil(v) + late)
    && (v.done ==> v.upper && v.anchor + UpperUntil(v) <= v.end <= v.anchor + UpperUntil(v) + late
                   && v.period == Periods(v.profile)[i % 3])
  }

  /** The next stay starts at least a period after the last, and the turn has changed. */
  predicate Follows(v: Visit, w: Visit) {
    v.done && v.end <= w.start && v.sec + v.period <= w.sec && w.flag == !v.flag
  }

  predicate Consistent(tr: Trace, late: nat, boot: nat) {
    var n := |tr.visits|;
    && InOrder(tr.visits, late)
    && (tr.s.mode == Fanet ==> tr.s.periodIdx == n % 3)
    && (tr.s.mode == Fanet && n > 0 ==>
          var v := tr.visits[n - 1];
          v.done && v.end <= tr.t && tr.s.nextCycle == v.sec + v.period && tr.s.nextIsAdsl == !v.flag)
    && (tr.s.mode != Fanet ==>
          && n > 0 && Away(tr, tr.visits[n - 1], boot) && tr.s.periodIdx == (n - 1) % 3
          && (n > 1 ==> tr.s.nextCycle == tr.visits[n - 2].sec + tr.visits[n - 2].period))
  }

  predicate Away(tr: Trace, v: Visit, boot: nat) {
    && !v.done && v.start <= tr.t && v.upper == OnUpper(tr.s)
    && v.adsl == (tr.s.mode == AdslLow || tr.s.mode == AdslHigh)
    && tr.s.anchorMs == Wrap(v.anchor - boot) && tr.s.anchorSec == v.sec && tr.s.nextIsAdsl == v.flag
    && tr.t <= v.anchor + Limit(tr.s.mode)
  }

  const LATEST := 460

  lemma Elapsed(t: nat, anchor: nat, boot: nat, anchorMs: nat)
    requires anchor <= t < anchor + U32 && anchorMs == Wrap(anchor - boot)
    ensures Wrap(Wrap(t - boot) - anchorMs) == t - anchor
  {
    ModDiff(t - boot, anchor - boot, U32);
    assert (t - boot) - (anchor - boot) == t - anchor;
    SmallRemainder(t - anchor, U32);
  }

  // --- one tick ---

  lemma Stays(tr: Trace, beat: Beat, late: nat, boot: nat, tr': Trace)
    requires late <= LATEST && Consistent(tr, late, boot) && tr.s.periodIdx < 3 && Timely(tr, beat, late)
    requires tr' == Step(tr, beat, boot) && tr.s.mode == Fanet
    ensures Consistent(tr', late, boot)
  {
    var n := |tr.visits|;
    if tr'.s.mode == Fanet {
      assert tr'.s == tr.s;
    } else {
      var v := tr'.visits[n];
      assert tr'.visits == tr.visits + [v];
      assert beat.t == 1000 * (beat.t / 1000) + beat.t % 1000;
      assert Wrap(Wrap(beat.t - boot) - beat.t % 1000) == Wrap((beat.t - beat.t % 1000) - boot) by {
        WrapMinus(beat.t - boot, beat.t % 1000);
      }
      assert VisitOk(v, n, late) && Away(tr', v, boot);
      Extended(tr.visits, v, late, tr'.visits);
    }
  }

  lemma WrapMinus(x: int, d: nat)
    ensures Wrap(Wrap(x) - d) == Wrap(x - d)
  {
    ModShift(Wrap(x) - d, x / U32, U32);
  }

  lemma Extended(visits: seq<Visit>, v: Visit, late: nat, visits': seq<Visit>)
    requires InOrder(visits, late) && VisitOk(v, |visits|, late) && visits' == visits + [v]
    requires visits != [] ==> Follows(visits[|visits| - 1], v)
    ensures InOrder(visits', late)
  {
    forall i | 0 <= i < |visits'|
      ensures VisitOk(visits'[i], i, late) && (i > 0 ==> InTurn(visits', i))
    {
      if i < |visits| {
        assert VisitOk(visits[i], i, late);
        assert i > 0 ==> InTurn(visits, i);
      }
    }
  }

  lemma Finished(visits: seq<Visit>, v: Visit, late: nat, visits': seq<Visit>)
    requires visits != [] && InOrder(visits, late) && VisitOk(v, |visits| - 1, late)
    requires visits' == visits[|visits| - 1 := v]
    requires var was := visits[|visits| - 1]; v.sec == was.sec && v.start == was.start && v.flag == was.flag
    ensures InOrder(visits', late)
  {
    forall i | 0 <= i < |visits'|
      ensures VisitOk(visits'[i], i, late) && (i > 0 ==> InTurn(visits', i))
    {
      if i < |visits| - 1 {
        assert VisitOk(visits[i], i, late);
      }
      assert i > 0 ==> InTurn(visits, i);
    }
  }

  lemma MovesOn(tr: Trace, beat: Beat, late: nat, boot: nat, tr': Trace)
    requires late <= LATEST && Consistent(tr, late, boot) && tr.s.periodIdx < 3 && Timely(tr, beat, late)
    requires tr' == Step(tr, beat, boot) && tr.s.mode != Fanet && tr'.s.mode != Fanet
    ensures Consistent(tr', late, boot)
  {
    var n := |tr.visits| - 1;
    var v := tr.visits[n];
    assert VisitOk(v, n, late);
    Elapsed(beat.t, v.anchor, boot, tr.s.anchorMs);
    if tr'.s != tr.s {
      var w := tr'.visits[n];
      assert tr'.visits == tr.visits[n := w] && VisitOk(w, n, late);
      Finished(tr.visits, w, late, tr'.visits);
    }
    assert Away(tr', tr'.visits[n], boot);
  }

  lemma MovesHome(tr: Trace, beat: Beat, late: nat, boot: nat, tr': Trace)
    requires late <= LATEST && Consistent(tr, late, boot) && tr.s.periodIdx < 3 && Timely(tr, beat, late)
    requires tr' == Step(tr, beat, boot) && tr.s.mode != Fanet && tr'.s.mode == Fanet
    requires beat.set_.flarm || beat.set_.adsl
    ensures Consistent(tr', late, boot)
  {
    var n := |tr.visits| - 1;
    var v := tr.visits[n];
    assert VisitOk(v, n, late);
    Elapsed(beat.t, v.anchor, boot, tr.s.anchorMs);
    var w := tr'.visits[n];
    assert tr'.visits == tr.visits[n := w] && VisitOk(w, n, late);
    Finished(tr.visits, w, late, tr'.visits);
  }

  /** With neither protocol on the stay is broken off, as if it had not been. */
  lemma Parks(tr: Trace, beat: Beat, late: nat, boot: nat, tr': Trace)
    requires late <= LATEST && Consistent(tr, late, boot) && tr.s.periodIdx < 3 && Timely(tr, beat, late)
    requires tr' == Step(tr, beat, boot) && tr.s.mode != Fanet && !beat.set_.flarm && !beat.set_.adsl
    ensures Consistent(tr', late, boot) && tr'.s.mode == Fanet
  {
    var n := |tr.visits| - 1;
    assert VisitOk(tr.visits[n], n, late);
    if n > 0 {
      assert InTurn(tr.visits, n);
    }
    Shorter(tr.visits, late, tr'.visits);
  }

  lemma Shorter(visits: seq<Visit>, late: nat, visits': seq<Visit>)
    requires visits != [] && InOrder(visits, late) && visits' == visits[..|visits| - 1]
    ensures InOrder(visits', late)
  {
    forall i | 0 <= i < |visits'|
      ensures VisitOk(visits'[i], i, late) && (i > 0 ==> InTurn(visits', i))
    {
      assert VisitOk(visits[i], i, late);
      assert i > 0 ==> InTurn(visits, i);
    }
  }

  // --- runs ---

  predicate AllTimely(beats: seq<Beat>, late: nat, boot: nat)
    decreases |beats|
  {
    beats != [] ==>
      var before := beats[..|beats| - 1];
      AllTimely(before, late, boot) && Timely(Run(before, boot), beats[|beats| - 1], late)
  }

  function Run(beats: seq<Beat>, boot: nat): (tr: Trace)
    ensures tr.s.periodIdx < 3
    decreases |beats|
  {
    if beats == [] then Trace(START, [], 0)
    else Step(Run(beats[..|beats| - 1], boot), beats[|beats| - 1], boot)
  }

  /** In every run whose due ticks are at most 460 ms late, and for the stays not broken off by switching both protocols
   *  off: each serves the protocol whose turn it is, is on its
   *  lower and then on its upper channel for their times, plus at most the lateness, the next starts at least its
   *  period of seconds later, and the turn alternates. */
  lemma {:induction false} RunConsistent(beats: seq<Beat>, late: nat, boot: nat, tr: Trace)
    requires late <= LATEST && AllTimely(beats, late, boot) && tr == Run(beats, boot)
    ensures Consistent(tr, late, boot)
    decreases |beats|
  {
    if beats != [] {
      var before, beat := Run(beats[..|beats| - 1], boot), beats[|beats| - 1];
      RunConsistent(beats[..|beats| - 1], late, boot, before);
      if before.s.mode == Fanet {
        Stays(before, beat, late, boot, tr);
      } else if !beat.set_.flarm && !beat.set_.adsl {
        Parks(before, beat, late, boot, tr);
      } else if tr.s.mode == Fanet {
        MovesHome(before, beat, late, boot, tr);
      } else {
        MovesOn(before, beat, late, boot, tr);
      }
    }
  }

  function Cost(visits: seq<Visit>): nat
    requires forall i :: 0 <= i < |visits| ==> visits[i].start <= visits[i].end
  {
    if visits == [] then 0
    else Cost(visits[..|visits| - 1]) + (visits[|visits| - 1].end - visits[|visits| - 1].start)
  }

  lemma {:induction false} CostBounded(visits: seq<Visit>, late: nat)
    requires forall i :: 0 <= i < |visits| ==> visits[i].start <= visits[i].end <= visits[i].start + ADSL_END + late
    ensures Cost(visits) <= |visits| * (ADSL_END + late)
    decreases |visits|
  {
    if visits != [] {
      CostBounded(visits[..|visits| - 1], late);
      var k := |visits| - 1;
      assert (k + 1) * (ADSL_END + late) == k * (ADSL_END + late) + (ADSL_END + late);
    }
  }

  /** So any k stays in a row cost FANET at most k times 920 ms plus the lateness. */
  lemma AnyStaysCost(beats: seq<Beat>, late: nat, boot: nat, from: nat, to: nat)
    requires late <= LATEST && AllTimely(beats, late, boot)
    requires var v := Run(beats, boot).visits; from <= to <= |v| && forall i :: from <= i < to ==> v[i].done
    ensures var v := Run(beats, boot).visits[from..to];
      && (forall i :: 0 <= i < |v| ==> v[i].start <= v[i].end)
      && Cost(v) <= (to - from) * (ADSL_END + late)
  {
    var tr := Run(beats, boot);
    RunConsistent(beats, late, boot, tr);
    var v := tr.visits[from..to];
    forall i | 0 <= i < |v|
      ensures v[i].start <= v[i].end <= v[i].start + ADSL_END + late
    {
      assert VisitOk(tr.visits[from + i], from + i, late) && tr.visits[from + i].done;
    }
    CostBounded(v, late);
  }

  /** Seconds from a stay to the third one behind it: at most three times 920 ms in 27, in 12 or in 3 seconds. */
  function Turnaround(profile: nat): nat {
    if profile == 1 then 12 else if profile == 2 then 3 else 27
  }

  lemma ThreeInOrder(visits: seq<Visit>, late: nat, i: nat, profile: nat)
    requires InOrder(visits, late) && i + 3 < |visits|
    requires visits[i].profile == visits[i + 1].profile == visits[i + 2].profile == profile
    ensures visits[i].sec + Turnaround(profile) <= visits[i + 3].sec
  {
    assert VisitOk(visits[i], i, late) && VisitOk(visits[i + 1], i + 1, late) && VisitOk(visits[i + 2], i + 2, late);
    assert InTurn(visits, i + 1) && InTurn(visits, i + 2) && InTurn(visits, i + 3);
    AnyThree(profile, i);
  }

  lemma AnyThree(profile: nat, i: nat)
    ensures var p := Periods(profile); p[i % 3] + p[(i + 1) % 3] + p[(i + 2) % 3] == Turnaround(profile)
  {
  }

  /** With the profile kept, three stays are spread over that many seconds. */
  lemma ThreeStays(beats: seq<Beat>, late: nat, boot: nat, i: nat, profile: nat, v: seq<Visit>)
    requires late <= LATEST && AllTimely(beats, late, boot) && v == Run(beats, boot).visits
    requires i + 3 < |v| && v[i].profile == v[i + 1].profile == v[i + 2].profile == profile
    ensures v[i].sec + Turnaround(profile) <= v[i + 3].sec
  {
    RunConsistent(beats, late, boot, Run(beats, boot));
    ThreeInOrder(v, late, i, profile);
  }

  predicate Both(on: Settings) {
    on.flarm && on.adsl
  }

  /** With both protocols on, neighbouring stays serve different ones. */
  lemma Alternates(beats: seq<Beat>, late: nat, boot: nat, i: nat)
    requires late <= LATEST && AllTimely(beats, late, boot)
    requires var v := Run(beats, boot).visits; i + 1 < |v| && Both(v[i].on) && Both(v[i + 1].on)
    ensures var v := Run(beats, boot).visits; v[i + 1].adsl == !v[i].adsl
  {
    var tr := Run(beats, boot);
    RunConsistent(beats, late, boot, tr);
    var v, w := tr.visits[i], tr.visits[i + 1];
    assert VisitOk(v, i, late) && VisitOk(w, i + 1, late) && InTurn(tr.visits, i + 1);
  }

  // --- how long the radio task may sleep ---

  function Delay(s: State, set_: Settings, boot: nat, t: nat): int {
    NextDelay(s, set_, ClockAt(boot, t))
  }

  function At(s: State, set_: Settings, boot: nat, t: nat): (s': State)
    requires s.periodIdx < 3
  {
    Ticked(s, set_, ClockAt(boot, t))
  }

  /** The computed sleep is never 0. */
  lemma SleepsSome(s: State, set_: Settings, boot: nat, t: nat)
    ensures Delay(s, set_, boot, t) >= 1
  {
  }

  lemma RemainingIs(anchorMs: nat, anchor: nat, boot: nat, t: nat, limit: nat)
    requires anchorMs == Wrap(anchor - boot) && t - anchor < 100000 && anchor <= t && limit <= WINDOW_END
    ensures Remaining(anchorMs + limit, Wrap(t - boot)) == if t < anchor + limit then anchor + limit - t else 1
  {
    var q, r := (anchor - boot) / U32, (t - boot) / U32;
    ModShift(anchorMs + limit - Wrap(t - boot), q - r, U32);
    assert anchorMs + limit - Wrap(t - boot) + (q - r) * U32 == anchor + limit - t;
    SmallRemainder(anchor + limit - t, U32);
  }

  /** Away from FANET the sleep is exact: an earlier tick changes nothing, and one at its end or later changes the mode. */
  lemma AwaySleepExact(s: State, set_: Settings, boot: nat, t: nat, anchor: nat, d: nat)
    requires s.periodIdx < 3 && s.mode != Fanet && (set_.flarm || set_.adsl)
    requires s.anchorMs == Wrap(anchor - boot) && anchor <= t < anchor + 100000 && 0 < d < 100000
    ensures var delay := Delay(s, set_, boot, t);
      && (d < delay ==> At(s, set_, boot, t + d) == s)
      && (d >= delay ==> At(s, set_, boot, t + d).mode != s.mode)
  {
    Elapsed(t + d, anchor, boot, s.anchorMs);
    RemainingIs(s.anchorMs, anchor, boot, t, Limit(s.mode));
  }

  lemma Later(t: nat, d: nat)
    requires d <= 1000
    ensures t % 1000 + d < 1000 ==> (t + d) / 1000 == t / 1000 && (t + d) % 1000 == t % 1000 + d
    ensures 1000 <= t % 1000 + d ==> (t + d) / 1000 == t / 1000 + 1 && (t + d) % 1000 == t % 1000 + d - 1000
  {
  }

  /** The sleep is cut to a second, to look at the clock again. */
  predicate LooksAgain(s: State, t: nat) {
    t + 1000 < 1000 * s.nextCycle + LOW_BEGIN
  }

  /** On FANET with FLARM next: no tick before the end of the sleep changes anything, and one at its end opens the
   *  window, unless it only looks at the clock again, or the sleep began in the last millisecond of an open slot. */
  lemma FlarmSleepExact(s: State, set_: Settings, boot: nat, t: nat, d: nat)
    requires s.periodIdx < 3 && s.mode == Fanet && (set_.flarm || set_.adsl) && !UseAdsl(set_, s)
    requires 0 < d <= Delay(s, set_, boot, t)
    ensures var delay := Delay(s, set_, boot, t);
      && (d < delay ==> At(s, set_, boot, t + d) == s)
      && (d == delay ==>
            (At(s, set_, boot, t + d).mode == FlarmLow
             <==> !LooksAgain(s, t) && !(s.nextCycle <= t / 1000 && t % 1000 == HIGH_BEGIN - 1)))
  {
    assert t == 1000 * (t / 1000) + t % 1000;
    Later(t, d);
  }

  /** On FANET with ADS-L next: ticks start it from the cycle's second on, and the sleep ends at most 340 ms after
   *  the first tick that could, exactly unless that second has come and the slot of FLARM is over; then at most 550. */
  lemma AdslSleepExact(s: State, set_: Settings, boot: nat, t: nat, d: nat)
    requires s.periodIdx < 3 && s.mode == Fanet && UseAdsl(set_, s) && 0 < d <= Delay(s, set_, boot, t)
    ensures var delay, first := Delay(s, set_, boot, t), if 1000 * s.nextCycle < t then t else 1000 * s.nextCycle;
      && (At(s, set_, boot, t + d).mode == AdslLow <==> t + d >= first)
      && (t + d < first ==> At(s, set_, boot, t + d) == s)
      && (t + delay <= first + LOW_BEGIN <==> !(s.nextCycle <= t / 1000 && t % 1000 >= HIGH_BEGIN))
      && t + delay <= first + 550
  {
    assert t == 1000 * (t / 1000) + t % 1000;
    Later(t, d);
  }

  lemma ThreeBeats(a: Beat, b: Beat, c: Beat, boot: nat)
    ensures Run([a, b, c], boot) == Step(Step(Step(Trace(START, [], 0), a, boot), b, boot), c, boot)
  {
    assert [a][..0] == [] && [a, b][..1] == [a] && [a, b, c][..2] == [a, b];
    assert Run([a], boot) == Step(Run([], boot), a, boot);
    assert Run([a, b], boot) == Step(Run([a], boot), b, boot);
  }

  /** ADS-L on its own: a tick behind its first 460 ms moves on to the upper channel, one behind the second leaves. */
  lemma AdslTick(s: State, set_: Settings, boot: nat, t: nat, start: nat)
    requires s.periodIdx < 3 && set_.adsl && s.anchorMs == Wrap(start - boot) && boot <= start <= t < start + 100000
    ensures s.mode == AdslLow && t >= start + ADSL_CHANNEL ==> At(s, set_, boot, t) == s.(mode := AdslHigh)
    ensures s.mode == AdslHigh && t >= start + ADSL_END ==> At(s, set_, boot, t) == Left(s, set_)
  {
    Elapsed(t, start, boot, s.anchorMs);
  }

  /** Such a sleep of more than 340 ms happens: ADS-L alone, with a window every second. */
  lemma AdslOversleeps(boot: nat, second: nat, t: nat, on: Settings, tr: Trace)
    requires boot <= 1000 * second <= boot + U32 && t == 1000 * second + 900 && on == Settings(false, true, 2)
    requires tr == Run([Beat(t, on), Beat(t + 460, on), Beat(t + 920, on)], boot)
    ensures tr.s.mode == Fanet && tr.s.nextCycle == second + 1 && Delay(tr.s, on, boot, tr.t) == 520
  {
    var a, b, c := Beat(t, on), Beat(t + 460, on), Beat(t + 920, on);
    ThreeBeats(a, b, c, boot);
    assert t / 1000 == second && (t + 920) / 1000 == second + 1 && (t + 920) % 1000 == 820;
    var one := START.(mode := AdslLow, anchorMs := Wrap(t - boot), anchorSec := second);
    assert Step(Trace(START, [], 0), a, boot).s == one;
    AdslTick(one, on, boot, t + 460, t);
    AdslTick(one.(mode := AdslHigh), on, boot, t + 920, t);
  }

  /** A task that sleeps no longer than computed, give or take, ticks in time. */
  lemma SleepingIsTimely(tr: Trace, beat: Beat, set_: Settings, late: nat, slack: nat, boot: nat)
    requires late <= LATEST && slack + 1 <= late && Consistent(tr, late, boot) && (set_.flarm || set_.adsl)
    requires tr.t <= beat.t <= tr.t + Delay(tr.s, set_, boot, tr.t) + slack
    ensures Timely(tr, beat, late)
  {
    if tr.s.mode != Fanet {
      var v := tr.visits[|tr.visits| - 1];
      assert VisitOk(v, |tr.visits| - 1, late);
      RemainingIs(tr.s.anchorMs, v.anchor, boot, tr.t, Limit(tr.s.mode));
    }
  }
}
