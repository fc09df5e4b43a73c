/**
 * The calls of the flash image store (bd_fwstore.cpp) as sequences of elementary
 * operations. Power may fail behind any of them; what the next scan() then finds is
 * proved for every prefix, and so for every run of calls and cuts.
 */
module FwCalls {
  import opened Words
  import opened NorFlash
  import opened FwHeaders
  import opened FwCatalog
  import opened FwScan

  /** One elementary change of flash or NVS. */
  datatype Op =
    | Drop(sector: nat)
    | Erase(sector: nat)
    | Program(at: nat, data: seq<Byte>)
    | Publish(sector: nat, header: seq<Byte>)
    | Count(value: nat)
    | Use(sector: nat, value: nat)
    | Forget(sector: nat)

  datatype State = State(mem: seq<Byte>, uses: map<nat, nat>, counter: nat)

  function Do(st: State, op: Op): State {
    match op
    case Drop(s) => st.(mem := Written(st.mem, s * SECTOR, ZERO_WORD))
    case Erase(s) => st.(mem := Erased(st.mem, s))
    case Program(at, data) => st.(mem := Written(st.mem, at, data))
    case Publish(s, header) => st.(mem := Written(st.mem, s * SECTOR, header))
    case Count(n) => st.(counter := n)
    case Use(s, n) => st.(uses := st.uses[s := n])
    case Forget(s) => st.(uses := st.uses - {s})
  }

  /** What an operation is meant to do to the catalogue: only dropping and publishing change it. */
  function Track(st: State, cat: Catalog, op: Op): Catalog {
    match op
    case Drop(s) => cat - {s}
    case Publish(s, header) =>
      if |header| == HEADER_BYTES && s * SECTOR + DATA_OFFSET + Decode(header).imageSize <= |st.mem|
      then
        var h := Decode(header);
        cat[s := Image(h.sha, h.name, DataAt(st.mem, s, h.imageSize))]
      else cat
    case _ => cat
  }

  function DoAll(st: State, ops: seq<Op>): State
    decreases |ops|
  {
    if ops == [] then st else DoAll(Do(st, ops[0]), ops[1..])
  }

  function TrackAll(st: State, cat: Catalog, ops: seq<Op>): Catalog
    decreases |ops|
  {
    if ops == [] then cat else TrackAll(Do(st, ops[0]), Track(st, cat, ops[0]), ops[1..])
  }

  /** The flash shows the catalogue as intended before, between and behind all these operations. */
  ghost predicate SafeTrace(c: Chip, st: State, cat: Catalog, ops: seq<Op>)
    decreases |ops|
  {
    Represents(c, st.mem, cat)
    && (ops != [] ==> SafeTrace(c, Do(st, ops[0]), Track(st, cat, ops[0]), ops[1..]))
  }

  lemma {:induction false} SafePrefix(c: Chip, st: State, cat: Catalog, ops: seq<Op>, k: nat)
    requires SafeTrace(c, st, cat, ops) && k <= |ops|
    ensures Represents(c, DoAll(st, ops[..k]).mem, TrackAll(st, cat, ops[..k]))
    decreases k
  {
    if k > 0 {
      SafePrefix(c, Do(st, ops[0]), Track(st, cat, ops[0]), ops[1..], k - 1);
      assert ops[..k][1..] == ops[1..][..k - 1];
    }
  }

  lemma DoTwo(st: State, a: Op, b: Op)
    ensures DoAll(st, [a, b]) == Do(Do(st, a), b)
  {
    assert [a, b][1..] == [b];
    assert [b][1..] == [];
    assert DoAll(Do(st, a), [b]) == DoAll(Do(Do(st, a), b), []);
  }

  lemma {:induction false} DoConcat(st: State, cat: Catalog, a: seq<Op>, b: seq<Op>)
    ensures DoAll(st, a + b) == DoAll(DoAll(st, a), b)
    ensures TrackAll(st, cat, a + b) == TrackAll(DoAll(st, a), TrackAll(st, cat, a), b)
    decreases |a|
  {
    if a == [] {
      assert a + b == b;
    } else {
      DoConcat(Do(st, a[0]), Track(st, cat, a[0]), a[1..], b);
      assert (a + b)[1..] == a[1..] + b;
    }
  }

  lemma {:induction false} SafeConcat(c: Chip, st: State, cat: Catalog, a: seq<Op>, b: seq<Op>)
    requires SafeTrace(c, st, cat, a)
    requires SafeTrace(c, DoAll(st, a), TrackAll(st, cat, a), b)
    ensures SafeTrace(c, st, cat, a + b)
    decreases |a|
  {
    if a == [] {
      assert a + b == b;
    } else {
      SafeConcat(c, Do(st, a[0]), Track(st, cat, a[0]), a[1..], b);
      assert (a + b)[1..] == a[1..] + b;
    }
  }

  /** One operation that takes a shown catalogue to a shown catalogue. */
  lemma SafeOne(c: Chip, st: State, cat: Catalog, op: Op, st': State, cat': Catalog)
    requires Represents(c, st.mem, cat) && Represents(c, st'.mem, cat')
    requires st' == Do(st, op) && cat' == Track(st, cat, op)
    ensures SafeTrace(c, st, cat, [op])
    ensures DoAll(st, [op]) == st' && TrackAll(st, cat, [op]) == cat'
  {
    assert [op][1..] == [];
    assert SafeTrace(c, st', cat', []);
  }

  lemma SafeNone(c: Chip, st: State, cat: Catalog)
    requires Represents(c, st.mem, cat)
    ensures SafeTrace(c, st, cat, [])
  {
  }

  /** Changes in NVS leave flash and catalogue alone. */
  lemma {:induction false} NvsIsSafe(c: Chip, st: State, cat: Catalog, ops: seq<Op>)
    requires Represents(c, st.mem, cat)
    requires forall i :: 0 <= i < |ops| ==> ops[i].Count? || ops[i].Use? || ops[i].Forget?
    ensures SafeTrace(c, st, cat, ops) && DoAll(st, ops).mem == st.mem && TrackAll(st, cat, ops) == cat
    decreases |ops|
  {
    if ops != [] {
      NvsIsSafe(c, Do(st, ops[0]), cat, ops[1..]);
    }
  }

  // --- bd_fwstore_begin ---

  /** drop(): the magic is cleared, then the last-use stamp forgotten. */
  function DropOps(s: nat): seq<Op> {
    [Drop(s), Forget(s)]
  }

  /** Dropping the image unused the longest until there is a free run, or nothing is left. */
  ghost function MakePlace(regions: seq<Region>, entries: seq<Entry>, uses: map<nat, nat>, need: nat): (seq<Op>, Place)
    decreases |entries|
  {
    var p := FreeRun(regions, entries, need);
    if p.At? || entries == [] then ([], p)
    else
      var k := OldestOf(entries, uses, |entries|);
      var s := entries[k].sector;
      var (ops, q) := MakePlace(regions, entries[..k] + entries[k + 1..], uses - {s}, need);
      (DropOps(s) + ops, q)
  }

  function EraseOps(s: nat, n: nat): (ops: seq<Op>)
    ensures |ops| == n
    decreases n
  {
    if n == 0 then [] else [Erase(s)] + EraseOps(s + 1, n - 1)
  }

  ghost function BeginOps(c: Chip, st: State, size: nat): (seq<Op>, Place) {
    var need := SectorsFor(size);
    var (ops, p) := MakePlace(c.regions, Scan(c, st.mem), st.uses, need);
    if p.At? then (ops + EraseOps(p.sector, need), p) else (ops, p)
  }

  lemma DropIsSafe(c: Chip, st: State, cat: Catalog, s: nat)
    requires Represents(c, st.mem, cat) && s in cat
    ensures SafeTrace(c, st, cat, DropOps(s))
    ensures var st' := DoAll(st, DropOps(s));
      && st'.uses == st.uses - {s} && st'.counter == st.counter
      && TrackAll(st, cat, DropOps(s)) == cat - {s}
      && Represents(c, st'.mem, cat - {s})
  {
    var st1 := st.(mem := Written(st.mem, s * SECTOR, ZERO_WORD));
    DropKeeps(c, st.mem, cat, s);
    SafeOne(c, st, cat, Drop(s), st1, cat - {s});
    SafeOne(c, st1, cat - {s}, Forget(s), st1.(uses := st1.uses - {s}), cat - {s});
    SafeConcat(c, st, cat, [Drop(s)], [Forget(s)]);
    DoConcat(st, cat, [Drop(s)], [Forget(s)]);
    assert [Drop(s)] + [Forget(s)] == DropOps(s);
  }

  /** What begin() makes of the store: a place in one partition that no kept image reaches into, or no image at all. */
  ghost predicate PlaceFound(c: Chip, cat: Catalog, need: nat, p: Place) {
    if p.At? then FitsIn(c.regions, p.sector, need) && Clear(cat, p.sector, p.sector + need)
    else cat == map[] && forall i :: 0 <= i < |c.regions| ==> c.regions[i].count < need
  }

  lemma {:induction false} MakePlaceSafe(c: Chip, st: State, cat: Catalog, entries: seq<Entry>, need: nat)
    requires Represents(c, st.mem, cat) && Lists(entries, cat) && need >= 1
    ensures var (ops, p) := MakePlace(c.regions, entries, st.uses, need);
      && SafeTrace(c, st, cat, ops)
      && Represents(c, DoAll(st, ops).mem, TrackAll(st, cat, ops))
      && PlaceFound(c, TrackAll(st, cat, ops), need, p)
    decreases |entries|
  {
    var p := FreeRun(c.regions, entries, need);
    if p.At? || entries == [] {
      NothingToDrop(c, st, cat, entries, need);
    } else {
      var k := OldestOf(entries, st.uses, |entries|);
      var s := entries[k].sector;
      assert EntryFor(entries[k], cat);
      DropIsSafe(c, st, cat, s);
      WithoutEntry(entries, cat, k);
      var st1, rest := DoAll(st, DropOps(s)), entries[..k] + entries[k + 1..];
      MakePlaceSafe(c, st1, cat - {s}, rest, need);
      var ops := MakePlace(c.regions, rest, st1.uses, need).0;
      SafeConcat(c, st, cat, DropOps(s), ops);
      DoConcat(st, cat, DropOps(s), ops);
    }
  }

  lemma NothingToDrop(c: Chip, st: State, cat: Catalog, entries: seq<Entry>, need: nat)
    requires Represents(c, st.mem, cat) && Lists(entries, cat) && need >= 1
    requires FreeRun(c.regions, entries, need).At? || entries == []
    ensures PlaceFound(c, cat, need, FreeRun(c.regions, entries, need))
  {
    var p := FreeRun(c.regions, entries, need);
    FreeRunMeaning(c.regions, entries, need);
    forall s | s in cat
      ensures Extent(cat[s]) >= 1
    {
      assert Stored(c, st.mem, s, cat[s]);
    }
    if p.At? {
      FreeIsClear(entries, cat, p.sector, p.sector + need);
    } else {
      NoRoomMeansTooLarge(c.regions, need);
      assert forall s: nat :: !Listed([], s);
      assert cat.Keys == {};
    }
  }

  /** Erasing the reserved sectors one by one keeps the catalogue. */
  lemma {:induction false} EraseSafe(c: Chip, st: State, cat: Catalog, s: nat, n: nat)
    requires Represents(c, st.mem, cat) && Clear(cat, s, s + n)
    ensures SafeTrace(c, st, cat, EraseOps(s, n))
    ensures TrackAll(st, cat, EraseOps(s, n)) == cat
    ensures Represents(c, DoAll(st, EraseOps(s, n)).mem, cat)
    decreases n
  {
    if n > 0 {
      EraseKeeps(c, st.mem, cat, s);
      EraseSafe(c, Do(st, Erase(s)), cat, s + 1, n - 1);
      assert EraseOps(s, n)[1..] == EraseOps(s + 1, n - 1);
    }
  }

  lemma {:induction false} EraseBlanks(st: State, s: nat, n: nat)
    requires (s + n) * SECTOR <= |st.mem|
    ensures var mem' := DoAll(st, EraseOps(s, n)).mem;
      && |mem'| == |st.mem| && BlankFrom(mem', s * SECTOR, (s + n) * SECTOR)
      && (forall i :: 0 <= i < s * SECTOR ==> mem'[i] == st.mem[i])
    decreases n
  {
    if n > 0 {
      EraseBlanks(Do(st, Erase(s)), s + 1, n - 1);
      assert EraseOps(s, n)[1..] == EraseOps(s + 1, n - 1);
    }
  }

  lemma ReservedAndBlank(c: Chip, st: State, cat: Catalog, s: nat, size: nat)
    requires ChipOk(c) && SizeOk(size) && PlaceFound(c, cat, SectorsFor(size), At(s)) && |st.mem| == c.sectors * SECTOR
    ensures Writing(c, DoAll(st, EraseOps(s, SectorsFor(size))).mem, cat, Writer(s, size, []))
  {
    RoomForImage(c, size, s);
    EraseBlanks(st, s, SectorsFor(size));
  }

  lemma RoomForImage(c: Chip, size: nat, s: nat)
    requires ChipOk(c) && SizeOk(size) && FitsIn(c.regions, s, SectorsFor(size))
    ensures var n := SectorsFor(size);
      && n >= 1 && s + n <= EndOf(c.regions, s) && s + n <= c.sectors
      && s * SECTOR + DATA_OFFSET + size <= (s + n) * SECTOR
  {
    SectorsForExact(size);
    var i :| 0 <= i < |c.regions| && c.regions[i].first <= s
             && s + SectorsFor(size) <= c.regions[i].first + c.regions[i].count;
    EndOfInside(c.regions, i, s);
  }

  /** begin(): safe at every cut; when done, the store either has a blank place for the image, clear of
   *  every image kept, or is empty with every partition too small. */
  lemma BeginSafe(c: Chip, st: State, cat: Catalog, size: nat)
    requires ChipOk(c) && Represents(c, st.mem, cat) && SizeOk(size)
    ensures var (ops, p) := BeginOps(c, st, size);
      var (st', cat') := (DoAll(st, ops), TrackAll(st, cat, ops));
      && SafeTrace(c, st, cat, ops)
      && (if p.At? then Writing(c, st'.mem, cat', Writer(p.sector, size, []))
          else cat' == map[] && forall i :: 0 <= i < |c.regions| ==> c.regions[i].count < SectorsFor(size))
  {
    var need, entries := SectorsFor(size), Scan(c, st.mem);
    SectorsForExact(size);
    ScanExact(c, st.mem, cat);
    MakePlaceSafe(c, st, cat, entries, need);
    var (ops, p) := MakePlace(c.regions, entries, st.uses, need);
    if p.At? {
      var st1, cat1 := DoAll(st, ops), TrackAll(st, cat, ops);
      ReservedAndBlank(c, st1, cat1, p.sector, size);
      EraseSafe(c, st1, cat1, p.sector, need);
      SafeConcat(c, st, cat, ops, EraseOps(p.sector, need));
      DoConcat(st, cat, ops, EraseOps(p.sector, need));
    }
  }

  /** The images dropped, in order. */
  ghost function Dropped(ops: seq<Op>): seq<nat> {
    if ops == [] then [] else (if ops[0].Drop? then [ops[0].sector] else []) + Dropped(ops[1..])
  }

  lemma {:induction false} DroppedConcat(a: seq<Op>, b: seq<Op>)
    ensures Dropped(a + b) == Dropped(a) + Dropped(b)
    decreases |a|
  {
    if a == [] {
      assert a + b == b;
    } else {
      DroppedConcat(a[1..], b);
      assert (a + b)[1..] == a[1..] + b && (a + b)[0] == a[0];
    }
  }

  ghost function Left(cat: Catalog, gone: seq<nat>): Catalog
    decreases |gone|
  {
    if gone == [] then cat else Left(cat - {gone[0]}, gone[1..])
  }

  /** Among the images left, this one was used the longest ago, and there is no room while it is there. */
  ghost predicate MustGo(regions: seq<Region>, left: Catalog, uses: map<nat, nat>, need: nat, s: nat) {
    && s in left && (forall t :: t in left ==> Stamp(uses, s) <= Stamp(uses, t))
    && forall lo: nat :: FitsIn(regions, lo, need) ==> !Clear(left, lo, lo + need)
  }

  lemma ClearIsRun(entries: seq<Entry>, cat: Catalog, lo: nat, need: nat)
    requires Lists(entries, cat) && Clear(cat, lo, lo + need)
    ensures RunAt(entries, lo, need)
  {
    forall i | 0 <= i < |entries|
      ensures entries[i].sector + entries[i].sectors <= lo || lo + need <= entries[i].sector
    {
      assert EntryFor(entries[i], cat);
    }
  }

  lemma DropOpsDrop(s: nat)
    ensures Dropped(DropOps(s)) == [s]
  {
    assert DropOps(s)[1..] == [Forget(s)] && [Forget(s)][1..] == [];
    assert Dropped([Forget(s)]) == [];
  }

  /** If anything is dropped, the entry used the longest ago goes, and then what goes without it. */
  lemma DroppedStep(regions: seq<Region>, entries: seq<Entry>, uses: map<nat, nat>, need: nat)
    returns (k: nat, s: nat, rest: seq<Entry>, more: seq<nat>)
    requires Dropped(MakePlace(regions, entries, uses, need).0) != []
    ensures FreeRun(regions, entries, need).NoRoom? && k == OldestOf(entries, uses, |entries|) && k < |entries|
    ensures s == entries[k].sector && rest == entries[..k] + entries[k + 1..]
    ensures more == Dropped(MakePlace(regions, rest, uses - {s}, need).0)
    ensures Dropped(MakePlace(regions, entries, uses, need).0) == [s] + more
  {
    k := OldestOf(entries, uses, |entries|);
    s, rest := entries[k].sector, entries[..k] + entries[k + 1..];
    var ops := MakePlace(regions, rest, uses - {s}, need).0;
    more := Dropped(ops);
    assert MakePlace(regions, entries, uses, need).0 == DropOps(s) + ops;
    DroppedConcat(DropOps(s), ops);
    DropOpsDrop(s);
  }

  /** The least recently used image goes first, and none goes once there is room. */
  lemma {:induction false} LeastRecentlyUsedGoes(c: Chip, cat: Catalog, entries: seq<Entry>, uses: map<nat, nat>, need: nat, i: nat,
                                                 gone: seq<nat>)
    requires Lists(entries, cat) && need >= 1
    requires gone == Dropped(MakePlace(c.regions, entries, uses, need).0) && i < |gone|
    ensures MustGo(c.regions, Left(cat, gone[..i]), uses, need, gone[i])
    decreases |entries|
  {
    var k, s, rest, more := DroppedStep(c.regions, entries, uses, need);
    if i == 0 {
      FirstMustGo(c, cat, entries, uses, need, k, gone);
    } else {
      WithoutEntry(entries, cat, k);
      LeastRecentlyUsedGoes(c, cat - {s}, rest, uses - {s}, need, i - 1, more);
      LaterMustGo(c, cat, uses, need, s, more, i, gone);
    }
  }

  lemma LaterMustGo(c: Chip, cat: Catalog, uses: map<nat, nat>, need: nat, s: nat, more: seq<nat>, i: nat, gone: seq<nat>)
    requires 1 <= i <= |more| && gone == [s] + more
    requires MustGo(c.regions, Left(cat - {s}, more[..i - 1]), uses - {s}, need, more[i - 1])
    ensures MustGo(c.regions, Left(cat, gone[..i]), uses, need, gone[i])
  {
    LeftStep(cat, s, more, i - 1);
    SameStamps(c.regions, Left(cat - {s}, more[..i - 1]), uses, s, need, more[i - 1]);
  }

  lemma LeftStep(cat: Catalog, s: nat, more: seq<nat>, n: nat)
    requires n <= |more|
    ensures Left(cat, ([s] + more)[..n + 1]) == Left(cat - {s}, more[..n]) && s !in Left(cat - {s}, more[..n])
  {
    assert ([s] + more)[..n + 1][1..] == more[..n];
    LeftInside(cat - {s}, more[..n]);
  }

  lemma SameStamps(regions: seq<Region>, left: Catalog, uses: map<nat, nat>, s: nat, need: nat, x: nat)
    requires MustGo(regions, left, uses - {s}, need, x) && s !in left
    ensures MustGo(regions, left, uses, need, x)
  {
    forall t | t in left
      ensures Stamp(uses, x) <= Stamp(uses, t)
    {
      assert Stamp(uses - {s}, x) <= Stamp(uses - {s}, t);
    }
  }

  lemma {:induction false} LeftInside(cat: Catalog, gone: seq<nat>)
    ensures forall t :: t in Left(cat, gone) ==> t in cat
    decreases |gone|
  {
    if gone != [] {
      LeftInside(cat - {gone[0]}, gone[1..]);
    }
  }

  lemma FirstMustGo(c: Chip, cat: Catalog, entries: seq<Entry>, uses: map<nat, nat>, need: nat, k: nat,
                    gone: seq<nat>)
    requires Lists(entries, cat) && need >= 1 && entries != [] && k == OldestOf(entries, uses, |entries|)
    requires FreeRun(c.regions, entries, need).NoRoom? && gone != [] && gone[0] == entries[k].sector
    ensures MustGo(c.regions, Left(cat, gone[..0]), uses, need, gone[0])
  {
    FreeRunMeaning(c.regions, entries, need);
    assert EntryFor(entries[k], cat);
    forall t | t in cat
      ensures Stamp(uses, entries[k].sector) <= Stamp(uses, t)
    {
      assert Listed(entries, t);
    }
    forall lo: nat | FitsIn(c.regions, lo, need)
      ensures !Clear(cat, lo, lo + need)
    {
      if Clear(cat, lo, lo + need) {
        ClearIsRun(entries, cat, lo, need);
      }
    }
  }
}
