/**
 * The order in which the images of the flash store were last used, told from the events of
 * a run: as long as the counter has not wrapped, the stamps in NVS keep exactly that order,
 * and the image dropped first is the one whose last find or finish is the longest ago.
 */
module FwRecency {
  import opened Words
  import opened NorFlash
  import opened FwHeaders
  import opened FwCatalog
  import opened FwScan
  import opened FwCalls
  import opened FwRuns

  /** The operations of an event that were carried out. */
  ghost function Done(c: Chip, m: Store, e: Event): seq<Op> {
    var ops := CallOps(c, m, e.call);
    if e.Cut? && e.k < |ops| then ops[..e.k] else ops
  }

  /** Does the event find or store, and so use, this image? */
  ghost predicate UsesImage(c: Chip, m: Store, e: Event, s: nat) {
    && (e.Cut? ==> |CallOps(c, m, e.call)| <= e.k)
    && match e.call
       case Find(sha, size) => FindOps(c, m.st, Scan(c, m.st.mem), sha, size).1 == FoundAt(s)
       case Finish(sha, _) =>
         m.prog.Filling? && m.prog.w.sector == s && |m.prog.w.got| == m.prog.w.size && c.sha(m.prog.w.got) == sha
       case _ => false
  }

  /** Which event used the image of a sector last, by its number in the run. */
  type Diary = map<nat, nat>

  function Noted(d: Diary, ops: seq<Op>, now: nat): Diary
    decreases |ops|
  {
    if ops == [] then d
    else Noted(NotedOne(d, ops[0], now), ops[1..], now)
  }

  function NotedOne(d: Diary, op: Op, now: nat): Diary {
    match op
    case Use(s, _) => d[s := now]
    case Forget(s) => d - {s}
    case _ => d
  }

  /** The diary after a run whose first event has number `now`. */
  ghost function DiaryOf(c: Chip, m: Store, events: seq<Event>, d: Diary, now: nat): Diary
    decreases |events|
  {
    if events == [] then d
    else DiaryOf(c, After(c, m, events[0]), events[1..], Noted(d, Done(c, m, events[0]), now), now + 1)
  }

  // --- the operations of a call ---

  /** Images dropped one by one, each with its stamp, other changes of the flash, and last the stamp n for one image. */
  ghost predicate Shaped(ops: seq<Op>, n: nat, used: Found)
    decreases |ops|
  {
    if ops == [] then used.Missing?
    else
      match ops[0]
      case Count(_) => used.FoundAt? && ops == [Count(n), Use(used.sector, n)]
      case Use(_, _) => false
      case Forget(_) => false
      case Drop(s) => |ops| >= 2 && ops[1] == Forget(s) && Shaped(ops[2..], n, used)
      case _ => Shaped(ops[1..], n, used)
  }

  lemma DropShaped(s: nat, rest: seq<Op>, n: nat, used: Found)
    requires Shaped(rest, n, used)
    ensures Shaped(DropOps(s) + rest, n, used)
  {
    assert (DropOps(s) + rest)[2..] == rest;
  }

  lemma {:induction false} FindShaped(c: Chip, st: State, entries: seq<Entry>, sha: seq<Byte>, size: nat, n: nat)
    requires n == Wrap(st.counter + 1)
    ensures var (ops, f) := FindOps(c, st, entries, sha, size); Shaped(ops, n, f)
    decreases |entries|
  {
    if entries != [] {
      if !Wanted(entries[0], sha, size) {
        FindShaped(c, st, entries[1..], sha, size, n);
      } else {
        var s := entries[0].sector;
        if c.sha(ReadData(st.mem, s, size)) != sha {
          var st1 := DoAll(st, DropOps(s));
          DropNvs(st, s);
          FindShaped(c, st1, entries[1..], sha, size, n);
          var (ops, f) := FindOps(c, st1, entries[1..], sha, size);
          DropShaped(s, ops, n, f);
        }
      }
    }
  }

  lemma DropNvs(st: State, s: nat)
    ensures var st1 := DoAll(st, DropOps(s)); st1.counter == st.counter && st1.uses == st.uses - {s}
  {
    DoTwo(st, Drop(s), Forget(s));
  }

  lemma {:induction false} EraseShaped(s: nat, k: nat, n: nat)
    ensures Shaped(EraseOps(s, k), n, Missing)
    decreases k
  {
    if k > 0 {
      EraseShaped(s + 1, k - 1, n);
      assert EraseOps(s, k)[1..] == EraseOps(s + 1, k - 1);
    }
  }

  lemma {:induction false} ShapedConcat(a: seq<Op>, b: seq<Op>, n: nat)
    requires Shaped(a, n, Missing) && Shaped(b, n, Missing)
    ensures Shaped(a + b, n, Missing)
    decreases |a|
  {
    if a == [] {
      assert a + b == b;
    } else if a[0].Drop? {
      ShapedConcat(a[2..], b, n);
      assert (a + b)[2..] == a[2..] + b;
    } else {
      ShapedConcat(a[1..], b, n);
      assert (a + b)[1..] == a[1..] + b;
    }
  }

  lemma {:induction false} PlaceShaped(regions: seq<Region>, entries: seq<Entry>, uses: map<nat, nat>, need: nat, n: nat)
    ensures Shaped(MakePlace(regions, entries, uses, need).0, n, Missing)
    decreases |entries|
  {
    if !FreeRun(regions, entries, need).At? && entries != [] {
      var k := OldestOf(entries, uses, |entries|);
      var s, rest := entries[k].sector, entries[..k] + entries[k + 1..];
      PlaceShaped(regions, rest, uses - {s}, need, n);
      DropShaped(s, MakePlace(regions, rest, uses - {s}, need).0, n, Missing);
    }
  }

  /** The image a call uses when it runs to its end. */
  ghost function Uses(c: Chip, m: Store, call: Call): Found {
    match call
    case Find(sha, size) => FindOps(c, m.st, Scan(c, m.st.mem), sha, size).1
    case Finish(_, _) => if CallOps(c, m, call) != [] then FoundAt(m.prog.w.sector) else Missing
    case _ => Missing
  }

  lemma CallShaped(c: Chip, m: Store, call: Call)
    ensures Shaped(CallOps(c, m, call), Wrap(m.st.counter + 1), Uses(c, m, call))
  {
    var n := Wrap(m.st.counter + 1);
    match call {
      case Find(sha, size) => FindShaped(c, m.st, Scan(c, m.st.mem), sha, size, n);
      case Begin(size) =>
        var need := SectorsFor(size);
        var (ops, p) := MakePlace(c.regions, Scan(c, m.st.mem), m.st.uses, need);
        PlaceShaped(c.regions, Scan(c, m.st.mem), m.st.uses, need, n);
        if p.At? {
          EraseShaped(p.sector, need, n);
          ShapedConcat(ops, EraseOps(p.sector, need), n);
        }
      case Append(data) =>
        assert CallOps(c, m, call) != [] ==> CallOps(c, m, call)[1..] == [];
      case Finish(sha, name) =>
        if CallOps(c, m, call) != [] {
          assert CallOps(c, m, call)[1..] == MarkOps(m.st, m.prog.w.sector);
        }
    }
  }

  // --- what an event notes ---

  lemma NotedMark(d: Diary, s: nat, n: nat, now: nat)
    ensures Noted(d, [Count(n), Use(s, n)], now) == d[s := now]
    ensures Dropped([Count(n), Use(s, n)]) == []
  {
    assert [Count(n), Use(s, n)][1..] == [Use(s, n)] && [Use(s, n)][1..] == [];
    assert Noted(d, [Use(s, n)], now) == Noted(d[s := now], [], now);
    assert Dropped([Use(s, n)]) == [];
  }

  lemma NotedDrop(d: Diary, ops: seq<Op>, s: nat, now: nat)
    requires |ops| >= 2 && ops[0] == Drop(s) && ops[1] == Forget(s)
    ensures Noted(d, ops, now) == Noted(d - {s}, ops[2..], now)
    ensures Dropped(ops) == [s] + Dropped(ops[2..])
  {
    assert ops[1..][1..] == ops[2..] && ops[1..][0] == Forget(s);
    assert Noted(d, ops, now) == Noted(d, ops[1..], now) == Noted(d - {s}, ops[2..], now);
    assert Dropped(ops[1..]) == [] + Dropped(ops[2..]);
  }

  /** All operations: what was dropped leaves the diary, and the image used enters it. */
  lemma {:induction false} NotedWhole(d: Diary, ops: seq<Op>, n: nat, used: Found, now: nat)
    requires Shaped(ops, n, used)
    ensures var kept := d - (set s | s in Dropped(ops));
      Noted(d, ops, now) == if used.FoundAt? then kept[used.sector := now] else kept
    decreases |ops|
  {
    if ops != [] {
      if ops[0].Count? {
        NotedMark(d, used.sector, n, now);
      } else if ops[0].Drop? {
        NotedDrop(d, ops, ops[0].sector, now);
        NotedWhole(d - {ops[0].sector}, ops[2..], n, used, now);
      } else {
        NotedWhole(d, ops[1..], n, used, now);
      }
    }
  }

  /** Fewer operations: nothing enters the diary, and only what was dropped leaves it. */
  lemma {:induction false} NotedCut(d: Diary, ops: seq<Op>, n: nat, used: Found, now: nat, k: nat)
    requires Shaped(ops, n, used) && k < |ops|
    ensures var d' := Noted(d, ops[..k], now);
      && (forall s :: s in d' ==> s in d && d'[s] == d[s])
      && (forall s :: s in d && s !in d' ==> s in Dropped(ops[..k]))
    decreases |ops|
  {
    if k > 0 {
      assert ops[..k][0] == ops[0];
      if ops[0].Count? || (ops[0].Drop? && k == 1) {
        assert ops[..k][1..] == [];
      } else if ops[0].Drop? {
        assert ops[..k][2..] == ops[2..][..k - 2];
        NotedDrop(d, ops[..k], ops[0].sector, now);
        NotedCut(d - {ops[0].sector}, ops[2..], n, used, now, k - 2);
      } else {
        assert ops[..k][1..] == ops[1..][..k - 1];
        NotedCut(d, ops[1..], n, used, now, k - 1);
      }
    }
  }

  /** An image enters the diary exactly by the event that finds or stores it, and leaves it only when dropped; a call
   *  that runs to its end takes out all it drops. */
  lemma EventNotes(c: Chip, m: Store, e: Event, d: Diary, now: nat, d': Diary)
    requires StoreInv(c, m) && CallOk(c, m, e.call) && d' == Noted(d, Done(c, m, e), now)
    requires forall s :: s in d ==> d[s] < now
    ensures forall s :: s in d' && d'[s] == now <==> UsesImage(c, m, e, s)
    ensures forall s :: s in d' && d'[s] != now ==> s in d && d'[s] == d[s]
    ensures forall s :: s in d && s !in d' ==> s in Dropped(Done(c, m, e))
    ensures e.Whole? ==> forall s :: s in Dropped(Done(c, m, e)) ==> s !in d' || d'[s] == now
  {
    var ops, n := CallOps(c, m, e.call), Wrap(m.st.counter + 1);
    CallShaped(c, m, e.call);
    if e.call.Finish? && m.prog.Filling? {
      FinishSafe(c, m.st, m.cat, m.prog.w, e.call.sha, e.call.name);
    }
    if e.Cut? && e.k < |ops| {
      NotedCut(d, ops, n, Uses(c, m, e.call), now, e.k);
    } else {
      NotedWhole(d, ops, n, Uses(c, m, e.call), now);
    }
  }

  // --- the stamps ---

  /** The stamps are at most the counter, and in the order of the diary; 0 stands for an image in neither. */
  ghost predicate Agree(uses: map<nat, nat>, counter: nat, d: Diary, now: nat) {
    && (forall s :: Stamp(uses, s) <= counter)
    && (forall s :: Stamp(d, s) < now)
    && (forall s :: Stamp(uses, s) == 0 <==> Stamp(d, s) == 0)
    && (forall s, t :: Stamp(uses, s) <= Stamp(uses, t) <==> Stamp(d, s) <= Stamp(d, t))
  }

  lemma ForgetAgrees(uses: map<nat, nat>, counter: nat, d: Diary, now: nat, s: nat)
    requires Agree(uses, counter, d, now)
    ensures Agree(uses - {s}, counter, d - {s}, now)
  {
    forall t
      ensures Stamp(uses - {s}, t) == (if t == s then 0 else Stamp(uses, t))
      ensures Stamp(d - {s}, t) == (if t == s then 0 else Stamp(d, t))
    {
    }
  }

  /** Counting on and stamping keeps the order, and leaves this image newer than every other. */
  lemma MarkAgrees(uses: map<nat, nat>, counter: nat, d: Diary, now: nat, s: nat, uses': map<nat, nat>, d': Diary)
    requires Agree(uses, counter, d, now) && uses' == uses[s := counter + 1] && d' == d[s := now]
    ensures Agree(uses', counter + 1, d', now + 1)
  {
    forall t
      ensures Stamp(uses', t) == (if t == s then counter + 1 else Stamp(uses, t))
      ensures Stamp(d', t) == (if t == s then now else Stamp(d, t))
    {
    }
    assert forall t :: Stamp(uses, t) <= counter && Stamp(d, t) < now;
    assert 0 <= Stamp(d, s) < now;
    forall t, u
      ensures Stamp(uses', t) <= Stamp(uses', u) <==> Stamp(d', t) <= Stamp(d', u)
    {
      assert Stamp(uses, t) <= Stamp(uses, u) <==> Stamp(d, t) <= Stamp(d, u);
      assert Stamp(uses, t) <= counter && Stamp(uses, u) <= counter && Stamp(d, t) < now && Stamp(d, u) < now;
    }
  }

  /** Flash and NVS behind an operation that neither counts nor stamps. */
  lemma QuietAgrees(st: State, d: Diary, now: nat, op: Op, st': State, d': Diary)
    requires Agree(st.uses, st.counter, d, now) && !op.Count? && !op.Use?
    requires st' == Do(st, op) && d' == if op.Forget? then d - {op.sector} else d
    ensures Agree(st'.uses, st'.counter, d', now) && st'.counter == st.counter
  {
    if op.Forget? {
      ForgetAgrees(st.uses, st.counter, d, now, op.sector);
    }
  }

  lemma LaterAgrees(uses: map<nat, nat>, counter: nat, d: Diary, now: nat)
    requires Agree(uses, counter, d, now)
    ensures Agree(uses, counter, d, now + 1) && Agree(uses, counter + 1, d, now + 1)
  {
  }

  lemma FirstOp(st: State, d: Diary, ops: seq<Op>, now: nat, k: nat, one: State, d': Diary)
    requires 0 < k <= |ops| && one == Do(st, ops[0]) && d' == NotedOne(d, ops[0], now)
    ensures DoAll(st, ops[..k]) == DoAll(one, ops[1..][..k - 1])
    ensures Noted(d, ops[..k], now) == Noted(d', ops[1..][..k - 1], now)
  {
    assert ops[..k][0] == ops[0] && ops[..k][1..] == ops[1..][..k - 1];
  }

  /** Stamps and diary behind any number of the operations of a call. */
  lemma {:induction false} OpsAgree(st: State, d: Diary, ops: seq<Op>, used: Found, now: nat, k: nat, st': State, d': Diary)
    requires Shaped(ops, st.counter + 1, used) && Agree(st.uses, st.counter, d, now) && k <= |ops|
    requires st' == DoAll(st, ops[..k]) && d' == Noted(d, ops[..k], now)
    ensures Agree(st'.uses, st'.counter, d', now + 1) && st'.counter <= st.counter + 1
    decreases |ops|, 1
  {
    if k == 0 {
      LaterAgrees(st.uses, st.counter, d, now);
    } else if ops[0].Count? {
      MarkOpsAgree(st, d, used.sector, now, k, ops, st', d');
    } else if !ops[0].Drop? {
      FirstAgrees(st, d, ops, used, now, k, st', d');
    } else if k == 1 {
      assert ops[..1][1..] == [];
      LaterAgrees(st.uses, st.counter, d, now);
    } else {
      var one := Do(st, ops[0]);
      FirstOp(st, d, ops, now, k, one, d);
      assert one.uses == st.uses && one.counter == st.counter;
      FirstAgrees(one, d, ops[1..], used, now, k - 1, st', d');
    }
  }

  /** One operation that neither counts nor stamps, and then the others. */
  lemma {:induction false} FirstAgrees(st: State, d: Diary, ops: seq<Op>, used: Found, now: nat, k: nat, st': State, d': Diary)
    requires 0 < k <= |ops| && !ops[0].Count? && !ops[0].Use?
    requires Shaped(ops[1..], st.counter + 1, used) && Agree(st.uses, st.counter, d, now)
    requires st' == DoAll(st, ops[..k]) && d' == Noted(d, ops[..k], now)
    ensures Agree(st'.uses, st'.counter, d', now + 1) && st'.counter <= st.counter + 1
    decreases |ops|, 0
  {
    var one, d1 := Do(st, ops[0]), NotedOne(d, ops[0], now);
    QuietAgrees(st, d, now, ops[0], one, d1);
    FirstOp(st, d, ops, now, k, one, d1);
    OpsAgree(one, d1, ops[1..], used, now, k - 1, st', d');
  }

  lemma MarkOpsAgree(st: State, d: Diary, s: nat, now: nat, k: nat, ops: seq<Op>, st': State, d': Diary)
    requires Agree(st.uses, st.counter, d, now) && 1 <= k <= 2
    requires ops == [Count(st.counter + 1), Use(s, st.counter + 1)]
    requires st' == DoAll(st, ops[..k]) && d' == Noted(d, ops[..k], now)
    ensures Agree(st'.uses, st'.counter, d', now + 1) && st'.counter == st.counter + 1
  {
    var n := st.counter + 1;
    if k == 1 {
      assert ops[..k] == [Count(n)] && [Count(n)][1..] == [];
      LaterAgrees(st.uses, st.counter, d, now);
    } else {
      assert ops[..k] == ops;
      DoTwo(st, Count(n), Use(s, n));
      NotedMark(d, s, n, now);
      MarkAgrees(st.uses, st.counter, d, now, s, st.uses[s := n], d[s := now]);
    }
  }

  /** As long as the counter does not wrap, every event keeps the order. */
  lemma EventAgrees(c: Chip, m: Store, e: Event, d: Diary, now: nat, m': Store, d': Diary)
    requires Agree(m.st.uses, m.st.counter, d, now) && m.st.counter + 1 < U32
    requires m' == After(c, m, e) && d' == Noted(d, Done(c, m, e), now)
    ensures Agree(m'.st.uses, m'.st.counter, d', now + 1) && m'.st.counter <= m.st.counter + 1
  {
    var ops := CallOps(c, m, e.call);
    CallShaped(c, m, e.call);
    SmallRemainder(m.st.counter + 1, U32);
    var k := if e.Cut? && e.k < |ops| then e.k else |ops|;
    assert ops[..|ops|] == ops;
    OpsAgree(m.st, d, ops, Uses(c, m, e.call), now, k, m'.st, d');
  }

  /** In every run of calls and cuts in which the counter cannot wrap, the stamps are in the order of the events that
   *  last found or stored the images. */
  lemma {:induction false} StampsAreInOrder(c: Chip, m: Store, events: seq<Event>, d: Diary, now: nat)
    requires Agree(m.st.uses, m.st.counter, d, now) && m.st.counter + |events| < U32
    ensures var st := Run(c, m, events).st; Agree(st.uses, st.counter, DiaryOf(c, m, events, d, now), now + |events|)
    decreases |events|
  {
    if events != [] {
      var m', d' := After(c, m, events[0]), Noted(d, Done(c, m, events[0]), now);
      EventAgrees(c, m, events[0], d, now, m', d');
      StampsAreInOrder(c, m', events[1..], d', now + 1);
    }
  }

  /** A store without stamps starts with an empty diary. */
  lemma NoStamps(counter: nat)
    ensures Agree(map[], counter, map[], 1)
  {
  }

  lemma {:induction false} OpsStamp(st: State, ops: seq<Op>, n: nat, used: Found)
    requires Shaped(ops, n, used) && used.FoundAt?
    ensures var uses := DoAll(st, ops).uses;
      && Stamp(uses, used.sector) == n
      && forall t :: t != used.sector ==> Stamp(uses, t) <= Stamp(st.uses, t)
    decreases |ops|
  {
    if ops[0].Count? {
      DoTwo(st, Count(n), Use(used.sector, n));
    } else if ops[0].Drop? {
      var rest := ops[2..];
      assert ops == DropOps(ops[0].sector) + rest;
      DoConcat(st, map[], DropOps(ops[0].sector), rest);
      DropNvs(st, ops[0].sector);
      OpsStamp(DoAll(st, DropOps(ops[0].sector)), rest, n, used);
    } else {
      OpsStamp(Do(st, ops[0]), ops[1..], n, used);
    }
  }

  /** Right behind its find or finish an image has a greater stamp than every other, exactly if the counter has not
   *  wrapped just now. */
  lemma JustUsedIsNewest(c: Chip, m: Store, e: Event, s: nat)
    requires StoreInv(c, m) && CallOk(c, m, e.call) && UsesImage(c, m, e, s)
    requires m.st.counter < U32 && forall t :: Stamp(m.st.uses, t) <= m.st.counter
    ensures (forall t :: t != s ==> Stamp(After(c, m, e).st.uses, t) < Stamp(After(c, m, e).st.uses, s))
            <==> m.st.counter + 1 < U32
  {
    var ops, n := CallOps(c, m, e.call), Wrap(m.st.counter + 1);
    CallShaped(c, m, e.call);
    if e.call.Finish? {
      FinishSafe(c, m.st, m.cat, m.prog.w, e.call.sha, e.call.name);
    }
    assert Uses(c, m, e.call) == FoundAt(s) && Done(c, m, e) == ops;
    OpsStamp(m.st, ops, n, FoundAt(s));
    NewestExact(m.st.uses, After(c, m, e).st.uses, m.st.counter, n, s);
  }

  lemma NewestExact(uses: map<nat, nat>, uses': map<nat, nat>, counter: nat, n: nat, s: nat)
    requires counter < U32 && n == Wrap(counter + 1) && Stamp(uses', s) == n
    requires forall t :: Stamp(uses, t) <= counter
    requires forall t :: t != s ==> Stamp(uses', t) <= Stamp(uses, t)
    ensures (forall t :: t != s ==> Stamp(uses', t) < Stamp(uses', s)) <==> counter + 1 < U32
  {
    if counter + 1 < U32 {
      SmallRemainder(counter + 1, U32);
      forall t | t != s
        ensures Stamp(uses', t) < n
      {
        assert Stamp(uses', t) <= Stamp(uses, t) && Stamp(uses, t) <= counter;
      }
    } else {
      assert n == 0 && Stamp(uses', s + 1) >= 0;
    }
  }

  /** After every such run a begin() drops the image whose last find or finish is the longest ago, then the next, and
   *  none once there is room. */
  lemma LongestUnusedGoes(c: Chip, m: Store, events: seq<Event>, d: Diary, now: nat, size: nat, i: nat, gone: seq<nat>)
    requires ChipOk(c) && StoreInv(c, m) && EventsOk(c, m, events) && SizeOk(size)
    requires Agree(m.st.uses, m.st.counter, d, now) && m.st.counter + |events| < U32
    requires gone == Dropped(CallOps(c, Run(c, m, events), Begin(size))) && i < |gone|
    ensures MustGo(c.regions, Left(Run(c, m, events).cat, gone[..i]), DiaryOf(c, m, events, d, now), SectorsFor(size), gone[i])
  {
    var m', d' := Run(c, m, events), DiaryOf(c, m, events, d, now);
    ScanAfterAnyRun(c, m, events);
    StampsAreInOrder(c, m, events, d, now);
    BeginDropped(c, m'.st, size);
    SectorsForExact(size);
    LeastRecentlyUsedGoes(c, m'.cat, Scan(c, m'.st.mem), m'.st.uses, SectorsFor(size), i, gone);
    forall t | t in Left(m'.cat, gone[..i])
      ensures Stamp(d', gone[i]) <= Stamp(d', t)
    {
      assert Stamp(m'.st.uses, gone[i]) <= Stamp(m'.st.uses, t);
    }
  }

  lemma {:induction false} NoneErased(s: nat, n: nat)
    ensures Dropped(EraseOps(s, n)) == []
    decreases n
  {
    if n > 0 {
      NoneErased(s + 1, n - 1);
      assert EraseOps(s, n)[1..] == EraseOps(s + 1, n - 1);
    }
  }

  /** What begin() drops, it drops for its place. */
  lemma BeginDropped(c: Chip, st: State, size: nat)
    ensures Dropped(BeginOps(c, st, size).0) == Dropped(MakePlace(c.regions, Scan(c, st.mem), st.uses, SectorsFor(size)).0)
  {
    var need := SectorsFor(size);
    var (ops, p) := MakePlace(c.regions, Scan(c, st.mem), st.uses, need);
    if p.At? {
      DroppedConcat(ops, EraseOps(p.sector, need));
      NoneErased(p.sector, need);
    }
  }
}
