/**
 * The time-slot histories of bd_stats.cpp as plain lists: the newest N slots, oldest
 * first. A slot here is whatever its events add up to; the theorem compares the list
 * with a tally of all events since the history began.
 */
module StatsWindow {

  /** A history: whether it was ever used, on which clock, the number of the newest slot, and the slots. */
  datatype Window<T> = Window(used: bool, epochBased: bool, head: nat, slots: seq<T>)

  function Zeros<T>(n: nat, zero: T): (z: seq<T>)
    ensures |z| == n && forall i :: 0 <= i < n ==> z[i] == zero
  {
    seq(n, _ => zero)
  }

  /** Time passes: old slots fall out, new ones start at zero. */
  function Shifted<T>(slots: seq<T>, steps: nat, zero: T): (s: seq<T>)
    ensures |s| == |slots|
  {
    if steps >= |slots| then Zeros(|slots|, zero) else slots[steps..] + Zeros(steps, zero)
  }

  /** advance() for clock slot `now`. */
  function Advanced<T>(w: Window<T>, now: nat, epochBased: bool, zero: T): (w': Window<T>)
    ensures |w'.slots| == |w.slots|
  {
    if !w.used || (w.epochBased && !epochBased) then Window(true, epochBased, now, Zeros(|w.slots|, zero))
    else if !w.epochBased && epochBased then w.(head := now, epochBased := true)
    else if now < w.head then w
    else w.(head := now, slots := Shifted(w.slots, now - w.head, zero))
  }

  /** An event counts in the newest slot. */
  function Counted<T, E>(w: Window<T>, e: E, add: (T, E) -> T): Window<T>
    requires w.slots != []
  {
    w.(slots := w.slots[|w.slots| - 1 := add(w.slots[|w.slots| - 1], e)])
  }

  /** What reaches the history: a look at the clock, with or without an event to count. */
  datatype Tick<E> = Look(now: nat, epochBased: bool) | Event(now: nat, epochBased: bool, event: E)

  function Next<T, E>(w: Window<T>, t: Tick<E>, zero: T, add: (T, E) -> T): Window<T>
    requires w.slots != []
  {
    var moved := Advanced(w, t.now, t.epochBased, zero);
    if t.Event? then Counted(moved, t.event, add) else moved
  }

  function Run<T, E>(w: Window<T>, ticks: seq<Tick<E>>, zero: T, add: (T, E) -> T): (r: Window<T>)
    requires w.slots != []
    ensures |r.slots| == |w.slots|
    decreases |ticks|
  {
    if ticks == [] then w else Next(Run(w, ticks[..|ticks| - 1], zero, add), ticks[|ticks| - 1], zero, add)
  }

  // --- the tally ---

  /** Every event since the history began, each with its slot on a line that only moves forward; `cur` is the
   *  newest slot on that line. Setting the clock renames slots (`head`) and leaves the line alone. */
  datatype Tally<E> = Tally(used: bool, epochBased: bool, head: nat, cur: nat, events: seq<(nat, E)>)

  const BLANK_SLOT: nat := 0

  function NextTally<E>(t: Tally<E>, k: Tick<E>): Tally<E> {
    var moved :=
      if !t.used || (t.epochBased && !k.epochBased) then Tally(true, k.epochBased, k.now, BLANK_SLOT, [])
      else if !t.epochBased && k.epochBased then t.(head := k.now, epochBased := true)
      else if k.now < t.head then t
      else t.(head := k.now, cur := t.cur + (k.now - t.head));
    if k.Event? then moved.(events := moved.events + [(moved.cur, k.event)]) else moved
  }

  function RunTally<E>(ticks: seq<Tick<E>>): Tally<E>
    decreases |ticks|
  {
    if ticks == [] then Tally(false, false, 0, BLANK_SLOT, [])
    else NextTally(RunTally(ticks[..|ticks| - 1]), ticks[|ticks| - 1])
  }

  /** All events of one slot, added up from zero in order. */
  function SumOf<T, E>(events: seq<(nat, E)>, slot: int, zero: T, add: (T, E) -> T): T
    decreases |events|
  {
    if events == [] then zero
    else
      var before, last := SumOf(events[..|events| - 1], slot, zero, add), events[|events| - 1];
      if last.0 == slot then add(before, last.1) else before
  }

  ghost predicate Agree<T, E>(w: Window<T>, t: Tally<E>, zero: T, add: (T, E) -> T) {
    && w.used == t.used && w.epochBased == t.epochBased
    && (w.used ==>
          && w.head == t.head
          && (forall k :: 0 <= k < |t.events| ==> t.events[k].0 <= t.cur)
          && (forall i :: 0 <= i < |w.slots| ==>
                w.slots[i] == SumOf(t.events, t.cur - (|w.slots| - 1) + i, zero, add)))
  }

  /** Slots ahead of every event sum to zero. */
  lemma {:induction false} AheadIsZero<T, E>(events: seq<(nat, E)>, slot: int, zero: T, add: (T, E) -> T)
    requires forall k :: 0 <= k < |events| ==> events[k].0 < slot
    ensures SumOf(events, slot, zero, add) == zero
    decreases |events|
  {
    if events != [] {
      AheadIsZero(events[..|events| - 1], slot, zero, add);
    }
  }

  lemma SumOfMore<T, E>(events: seq<(nat, E)>, x: (nat, E), slot: int, zero: T, add: (T, E) -> T)
    ensures SumOf(events + [x], slot, zero, add)
            == if x.0 == slot then add(SumOf(events, slot, zero, add), x.1) else SumOf(events, slot, zero, add)
  {
    assert (events + [x])[..|events|] == events;
  }

  lemma MoveAgrees<T, E>(w: Window<T>, t: Tally<E>, steps: nat, now: nat, zero: T, add: (T, E) -> T)
    requires Agree(w, t, zero, add) && w.used
    ensures Agree(w.(head := now, slots := Shifted(w.slots, steps, zero)), t.(head := now, cur := t.cur + steps), zero, add)
  {
    var n, slots := |w.slots|, Shifted(w.slots, steps, zero);
    forall i | 0 <= i < n
      ensures slots[i] == SumOf(t.events, t.cur + steps - (n - 1) + i, zero, add)
    {
      if i + steps < n {
        assert slots[i] == w.slots[i + steps];
      } else {
        AheadIsZero(t.events, t.cur + steps - (n - 1) + i, zero, add);
      }
    }
  }

  lemma CountAgrees<T, E>(w: Window<T>, t: Tally<E>, e: E, zero: T, add: (T, E) -> T)
    requires Agree(w, t, zero, add) && w.used && w.slots != []
    ensures Agree(Counted(w, e, add), t.(events := t.events + [(t.cur, e)]), zero, add)
  {
    var n, w' := |w.slots|, Counted(w, e, add);
    forall i | 0 <= i < n
      ensures w'.slots[i] == SumOf(t.events + [(t.cur, e)], t.cur - (n - 1) + i, zero, add)
    {
      SumOfMore(t.events, (t.cur, e), t.cur - (n - 1) + i, zero, add);
    }
  }

  lemma NextAgrees<T, E>(w: Window<T>, t: Tally<E>, k: Tick<E>, zero: T, add: (T, E) -> T)
    requires Agree(w, t, zero, add) && w.slots != []
    ensures Agree(Next(w, k, zero, add), NextTally(t, k), zero, add)
  {
    var moved := Advanced(w, k.now, k.epochBased, zero);
    var tallied := NextTally(t, Look(k.now, k.epochBased));
    if w.used && w.epochBased == k.epochBased && k.now >= w.head {
      MoveAgrees(w, t, k.now - w.head, k.now, zero, add);
    }
    assert Agree(moved, tallied, zero, add);
    if k.Event? {
      CountAgrees(moved, tallied, k.event, zero, add);
    }
  }

  /** For every run, entry i of the written history is what the events of slot cur - (N-1) + i add up to;
   *  skipped slots are zero, and a backward clock step loses nothing. */
  lemma {:induction false} HistoryIsTally<T, E>(w: Window<T>, ticks: seq<Tick<E>>, zero: T, add: (T, E) -> T)
    requires !w.used && !w.epochBased && w.slots != []
    ensures Agree(Run(w, ticks, zero, add), RunTally(ticks), zero, add)
    decreases |ticks|
  {
    if ticks != [] {
      HistoryIsTally(w, ticks[..|ticks| - 1], zero, add);
      NextAgrees(Run(w, ticks[..|ticks| - 1], zero, add), RunTally(ticks[..|ticks| - 1]), ticks[|ticks| - 1], zero, add);
    }
  }

  // --- which slot an event counts in ---

  function Latest<E>(ticks: seq<Tick<E>>): nat
    requires ticks != []
    decreases |ticks|
  {
    var last := ticks[|ticks| - 1].now;
    if |ticks| == 1 then last
    else
      var before := Latest(ticks[..|ticks| - 1]);
      if last < before then before else last
  }

  /** While the clock stays of one kind, the newest slot is the largest clock slot seen, and the line moves with it:
   *  an event counts in the largest slot seen so far. */
  lemma {:induction false} HeadIsLatest<E>(ticks: seq<Tick<E>>, epochBased: bool)
    requires ticks != [] && forall i :: 0 <= i < |ticks| ==> ticks[i].epochBased == epochBased
    ensures var t := RunTally(ticks);
      t.used && t.epochBased == epochBased && t.head == Latest(ticks) && t.cur == t.head - ticks[0].now
    decreases |ticks|
  {
    var before := ticks[..|ticks| - 1];
    if |ticks| > 1 {
      HeadIsLatest(before, epochBased);
      assert before[0] == ticks[0];
    } else {
      assert before == [];
    }
  }

  /** The first valid clock renames the newest slot and moves none: on the line, slots before and after the
   *  change are as far apart as the two clocks say, counted from that moment. */
  lemma {:induction false} FirstClockRenames<E>(boot: seq<Tick<E>>, valid: seq<Tick<E>>)
    requires boot != [] && forall i :: 0 <= i < |boot| ==> !boot[i].epochBased
    requires valid != [] && forall i :: 0 <= i < |valid| ==> valid[i].epochBased
    ensures var t := RunTally(boot + valid);
      t.used && t.epochBased && t.head == Latest(valid)
      && t.cur == (Latest(boot) - boot[0].now) + (t.head - valid[0].now)
    decreases |valid|
  {
    var all, earlier := boot + valid, valid[..|valid| - 1];
    assert all[..|all| - 1] == boot + earlier;
    if |valid| > 1 {
      FirstClockRenames(boot, earlier);
      assert earlier[0] == valid[0];
    } else {
      HeadIsLatest(boot, false);
      assert boot + earlier == boot;
    }
  }
}
