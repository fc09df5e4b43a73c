/**
 * scan() of bd_fwstore.cpp and the choice of a place for a new image, as functions of
 * the flash contents: what scanning finds is exactly the catalogue, and a run of free
 * sectors is only given up when no store partition is long enough.
 */
module FwScan {
  import opened Words
  import opened NorFlash
  import opened FwHeaders
  import opened FwCatalog

  datatype Entry = Entry(sector: nat, sectors: nat, header: Header)
  datatype Place = NoRoom | At(sector: nat)

  // A header whose size wraps to no sectors would keep scan() from ending; `Represents` rules it out.
  function ScanFrom(c: Chip, mem: seq<Byte>, s: nat, end: nat): seq<Entry>
    decreases end - s
  {
    if s >= end then []
    else if HeaderOk(c, mem, s) then
      var h := Decode(RawHeader(mem, s));
      var n := SectorsFor(h.imageSize);
      [Entry(s, n, h)] + ScanFrom(c, mem, s + if n == 0 then 1 else n, end)
    else ScanFrom(c, mem, s + 1, end)
  }

  function ScanRegions(c: Chip, mem: seq<Byte>, i: nat): seq<Entry>
    requires i <= |c.regions|
    decreases |c.regions| - i
  {
    if i == |c.regions| then []
    else ScanFrom(c, mem, c.regions[i].first, c.regions[i].first + c.regions[i].count) + ScanRegions(c, mem, i + 1)
  }

  function Scan(c: Chip, mem: seq<Byte>): seq<Entry> {
    ScanRegions(c, mem, 0)
  }

  ghost predicate EntryFor(e: Entry, cat: Catalog) {
    && e.sector in cat && e.sectors == Extent(cat[e.sector])
    && e.header.imageSize == |cat[e.sector].data| && e.header.sha == cat[e.sector].sha
    && e.header.name == cat[e.sector].name
  }

  ghost predicate Listed(entries: seq<Entry>, s: nat) {
    exists i :: 0 <= i < |entries| && entries[i].sector == s
  }

  /** The entries name each image of the catalogue once, and nothing else. */
  ghost predicate Lists(entries: seq<Entry>, cat: Catalog) {
    && (forall i :: 0 <= i < |entries| ==> EntryFor(entries[i], cat))
    && (forall s :: s in cat ==> Listed(entries, s))
    && (forall i, j :: 0 <= i < j < |entries| ==> entries[i].sector != entries[j].sector)
  }

  lemma {:induction false} EndOfInside(regions: seq<Region>, i: nat, s: nat)
    requires i < |regions| && Inside(regions[i], s)
    requires forall j, k :: 0 <= j < k < |regions| ==>
               regions[j].first + regions[j].count <= regions[k].first
               || regions[k].first + regions[k].count <= regions[j].first
    ensures EndOf(regions, s) == regions[i].first + regions[i].count
  {
    if i > 0 {
      EndOfInside(regions[1..], i - 1, s);
    }
  }

  lemma {:induction false} InsideSome(regions: seq<Region>, s: nat)
    requires s < EndOf(regions, s)
    ensures exists i :: 0 <= i < |regions| && Inside(regions[i], s)
  {
    if !Inside(regions[0], s) {
      InsideSome(regions[1..], s);
      var i :| 0 <= i < |regions[1..]| && Inside(regions[1..][i], s);
      assert Inside(regions[i + 1], s);
    } else {
      assert Inside(regions[0], s);
    }
  }

  lemma ListedConcat(a: seq<Entry>, b: seq<Entry>, s: nat)
    ensures Listed(a + b, s) <==> Listed(a, s) || Listed(b, s)
  {
    if Listed(a, s) {
      var i :| 0 <= i < |a| && a[i].sector == s;
      assert (a + b)[i].sector == s;
    }
    if Listed(b, s) {
      var i :| 0 <= i < |b| && b[i].sector == s;
      assert (a + b)[|a| + i].sector == s;
    }
  }

  ghost predicate Ordered(entries: seq<Entry>, lo: nat, hi: nat) {
    && (forall i :: 0 <= i < |entries| ==> lo <= entries[i].sector < hi)
    && (forall i, j :: 0 <= i < j < |entries| ==> entries[i].sector < entries[j].sector)
  }

  /** In order, exactly the images that start in sectors lo to hi. */
  ghost predicate Finds(es: seq<Entry>, cat: Catalog, lo: nat, hi: nat) {
    && Ordered(es, lo, hi)
    && (forall i :: 0 <= i < |es| ==> EntryFor(es[i], cat))
    && (forall t: nat :: Listed(es, t) <==> t in cat && lo <= t < hi)
  }

  lemma FindsMore(e: Entry, rest: seq<Entry>, cat: Catalog, s: nat, hi: nat)
    requires EntryFor(e, cat) && e.sector == s && e.sectors >= 1 && s + e.sectors <= hi
    requires Finds(rest, cat, s + e.sectors, hi) && Disjoint(cat)
    ensures Finds([e] + rest, cat, s, hi)
  {
    forall t: nat
      ensures Listed([e] + rest, t) <==> t in cat && s <= t < hi
    {
      ListedConcat([e], rest, t);
      assert Listed([e], t) <==> t == s by {
        assert [e][0].sector == s;
      }
    }
  }

  lemma FindsNothing(rest: seq<Entry>, cat: Catalog, s: nat, hi: nat)
    requires Finds(rest, cat, s + 1, hi) && s !in cat
    ensures Finds(rest, cat, s, hi)
  {
  }

  lemma ScanHit(c: Chip, mem: seq<Byte>, cat: Catalog, s: nat, end: nat) returns (e: Entry)
    requires Represents(c, mem, cat) && s in cat && s < end && EndOf(c.regions, s) == end
    ensures EntryFor(e, cat) && e.sector == s && e.sectors >= 1 && s + e.sectors <= end
    ensures ScanFrom(c, mem, s, end) == [e] + ScanFrom(c, mem, s + e.sectors, end)
  {
    assert HeaderOk(c, mem, s) && Stored(c, mem, s, cat[s]);
    e := Entry(s, Extent(cat[s]), Decode(RawHeader(mem, s)));
  }

  /** Scanning on from sector s of a partition finds, in order, exactly the images that start there. */
  lemma {:induction false} ScanFromExact(c: Chip, mem: seq<Byte>, cat: Catalog, r: Region, s: nat)
    requires Represents(c, mem, cat) && r.first <= s <= r.first + r.count
    requires forall t: nat :: Inside(r, t) ==> EndOf(c.regions, t) == r.first + r.count
    ensures Finds(ScanFrom(c, mem, s, r.first + r.count), cat, s, r.first + r.count)
    decreases r.first + r.count - s
  {
    var end := r.first + r.count;
    if s < end {
      assert Inside(r, s);
      if s in cat {
        var e := ScanHit(c, mem, cat, s, end);
        ScanFromExact(c, mem, cat, r, s + e.sectors);
        FindsMore(e, ScanFrom(c, mem, s + e.sectors, end), cat, s, end);
      } else {
        assert !HeaderOk(c, mem, s);
        ScanFromExact(c, mem, cat, r, s + 1);
        FindsNothing(ScanFrom(c, mem, s + 1, end), cat, s, end);
      }
    }
  }

  ghost predicate InRegionFrom(regions: seq<Region>, i: nat, t: nat) {
    exists k :: i <= k < |regions| && Inside(regions[k], t)
  }

  /** Each once, exactly the images that start in partition i or a later one. */
  ghost predicate FindsFrom(es: seq<Entry>, cat: Catalog, regions: seq<Region>, i: nat) {
    && (forall k :: 0 <= k < |es| ==> EntryFor(es[k], cat))
    && (forall k, l :: 0 <= k < l < |es| ==> es[k].sector != es[l].sector)
    && (forall t: nat :: Listed(es, t) <==> t in cat && InRegionFrom(regions, i, t))
  }

  lemma {:induction false} ScanRegionsExact(c: Chip, mem: seq<Byte>, cat: Catalog, i: nat)
    requires ChipOk(c) && Represents(c, mem, cat) && i <= |c.regions|
    ensures FindsFrom(ScanRegions(c, mem, i), cat, c.regions, i)
    decreases |c.regions| - i
  {
    if i < |c.regions| {
      var r := c.regions[i];
      forall t: nat | Inside(r, t)
        ensures EndOf(c.regions, t) == r.first + r.count
      {
        EndOfInside(c.regions, i, t);
      }
      ScanFromExact(c, mem, cat, r, r.first);
      ScanRegionsExact(c, mem, cat, i + 1);
      JoinRegions(c, cat, i, ScanFrom(c, mem, r.first, r.first + r.count), ScanRegions(c, mem, i + 1),
                  ScanRegions(c, mem, i));
    }
  }

  lemma JoinRegions(c: Chip, cat: Catalog, i: nat, a: seq<Entry>, b: seq<Entry>, all: seq<Entry>)
    requires ChipOk(c) && i < |c.regions| && all == a + b
    requires Finds(a, cat, c.regions[i].first, c.regions[i].first + c.regions[i].count)
    requires FindsFrom(b, cat, c.regions, i + 1)
    ensures FindsFrom(all, cat, c.regions, i)
  {
    forall k, l | 0 <= k < |a| && 0 <= l < |b|
      ensures a[k].sector != b[l].sector
    {
      assert Inside(c.regions[i], a[k].sector);
      assert Listed(b, b[l].sector);
    }
    forall t: nat
      ensures Listed(a + b, t) <==> t in cat && InRegionFrom(c.regions, i, t)
    {
      ListedConcat(a, b, t);
      assert InRegionFrom(c.regions, i, t) <==> Inside(c.regions[i], t) || InRegionFrom(c.regions, i + 1, t);
    }
  }

  /** scan() returns exactly the images of the catalogue. */
  lemma ScanExact(c: Chip, mem: seq<Byte>, cat: Catalog)
    requires ChipOk(c) && Represents(c, mem, cat)
    ensures Lists(Scan(c, mem), cat)
  {
    ScanRegionsExact(c, mem, cat, 0);
    forall s | s in cat
      ensures Listed(Scan(c, mem), s)
    {
      assert HeaderOk(c, mem, s);
      InsideSome(c.regions, s);
      assert InRegionFrom(c.regions, 0, s);
    }
  }

  // --- a place for a new image ---

  ghost predicate UsedBy(entries: seq<Entry>, s: nat) {
    exists i :: 0 <= i < |entries| && entries[i].sector <= s < entries[i].sector + entries[i].sectors
  }

  ghost predicate FreeFrom(entries: seq<Entry>, lo: nat, hi: nat) {
    forall t :: lo <= t < hi ==> !UsedBy(entries, t)
  }

  /** A run of `need` free sectors starts at s. */
  ghost predicate RunAt(entries: seq<Entry>, s: nat, need: nat) {
    FreeFrom(entries, s, s + need)
  }

  /** The first run of `need` free sectors from s on. */
  ghost function FirstRun(entries: seq<Entry>, s: nat, end: nat, need: nat): (p: Place)
    ensures p.At? ==> s <= p.sector && p.sector + need <= end && RunAt(entries, p.sector, need)
    ensures forall t :: s <= t <= end - need && (p.NoRoom? || t < p.sector) ==> !RunAt(entries, t, need)
    decreases end - s
  {
    if s + need > end then NoRoom
    else if RunAt(entries, s, need) then At(s)
    else FirstRun(entries, s + 1, end, need)
  }

  /** What the run counter of find_free_run finds when no sectors are needed: the sector behind the first used one. */
  ghost function ZeroRun(entries: seq<Entry>, s: nat, end: nat): Place
    decreases end - s
  {
    if s >= end then NoRoom else if UsedBy(entries, s) then At(s + 1) else ZeroRun(entries, s + 1, end)
  }

  ghost function RunIn(entries: seq<Entry>, r: Region, need: nat): Place {
    if need == 0 then ZeroRun(entries, r.first, r.first + r.count)
    else FirstRun(entries, r.first, r.first + r.count, need)
  }

  ghost function FreeRun(regions: seq<Region>, entries: seq<Entry>, need: nat): Place {
    if regions == [] then NoRoom
    else
      var p := RunIn(entries, regions[0], need);
      if p.At? then p else FreeRun(regions[1..], entries, need)
  }

  /** Sectors s to s + need lie in one partition. */
  ghost predicate FitsIn(regions: seq<Region>, s: nat, need: nat) {
    exists i :: 0 <= i < |regions| && regions[i].first <= s && s + need <= regions[i].first + regions[i].count
  }

  lemma FitsSplit(regions: seq<Region>, s: nat, need: nat)
    requires regions != []
    ensures FitsIn(regions, s, need) <==>
              (regions[0].first <= s && s + need <= regions[0].first + regions[0].count) || FitsIn(regions[1..], s, need)
  {
    if FitsIn(regions[1..], s, need) {
      var i :| 0 <= i < |regions[1..]| && regions[1..][i].first <= s
               && s + need <= regions[1..][i].first + regions[1..][i].count;
      assert regions[i + 1].first <= s;
    }
    if FitsIn(regions, s, need) {
      var i :| 0 <= i < |regions| && regions[i].first <= s && s + need <= regions[i].first + regions[i].count;
      if i > 0 {
        assert regions[1..][i - 1].first <= s;
      }
    }
  }

  /** A place found lies in one partition and is free; none is found only if no partition has a run that long. */
  lemma {:induction false} FreeRunMeaning(regions: seq<Region>, entries: seq<Entry>, need: nat)
    requires need >= 1
    ensures var p := FreeRun(regions, entries, need);
      && (p.At? ==> RunAt(entries, p.sector, need) && FitsIn(regions, p.sector, need))
      && (p.NoRoom? ==> forall s: nat :: FitsIn(regions, s, need) ==> !RunAt(entries, s, need))
  {
    if regions != [] {
      FreeRunMeaning(regions[1..], entries, need);
      var p := FreeRun(regions, entries, need);
      if p.At? {
        FitsSplit(regions, p.sector, need);
      }
      forall s: nat | p.NoRoom? && FitsIn(regions, s, need)
        ensures !RunAt(entries, s, need)
      {
        FitsSplit(regions, s, need);
      }
    }
  }

  lemma {:induction false} ZeroRunIs(entries: seq<Entry>, s: nat, end: nat)
    ensures var p := ZeroRun(entries, s, end);
      && (p.At? ==> s < p.sector <= end && UsedBy(entries, p.sector - 1) && FreeFrom(entries, s, p.sector - 1))
      && (p.NoRoom? ==> FreeFrom(entries, s, end))
    decreases end - s
  {
    if s < end && !UsedBy(entries, s) {
      ZeroRunIs(entries, s + 1, end);
    }
  }

  /** When the size has wrapped and no sector is asked for, the place found is the one behind the first used sector of a
   *  partition, and none is found exactly if all are free. */
  lemma {:induction false} NothingNeeded(regions: seq<Region>, entries: seq<Entry>)
    ensures var p := FreeRun(regions, entries, 0);
      && (p.At? ==> exists r :: r in regions && r.first < p.sector <= r.first + r.count && UsedBy(entries, p.sector - 1)
                                && FreeFrom(entries, r.first, p.sector - 1))
      && (p.NoRoom? ==> forall r :: r in regions ==> FreeFrom(entries, r.first, r.first + r.count))
  {
    if regions != [] {
      var r := regions[0];
      ZeroRunIs(entries, r.first, r.first + r.count);
      NothingNeeded(regions[1..], entries);
      assert forall q :: q in regions ==> q == r || q in regions[1..];
      if RunIn(entries, r, 0).At? {
        assert r in regions;
      }
    }
  }

  /** With nothing stored, there is no room only for an image larger than every partition. */
  lemma NoRoomMeansTooLarge(regions: seq<Region>, need: nat)
    requires need >= 1 && FreeRun(regions, [], need).NoRoom?
    ensures forall i :: 0 <= i < |regions| ==> regions[i].count < need
  {
    FreeRunMeaning(regions, [], need);
    forall i | 0 <= i < |regions|
      ensures regions[i].count < need
    {
      if need <= regions[i].count {
        assert FitsIn(regions, regions[i].first, need);
        assert RunAt([], regions[i].first, need);
      }
    }
  }

  /** Sectors that no listed entry uses are clear of every image. */
  lemma FreeIsClear(entries: seq<Entry>, cat: Catalog, lo: nat, hi: nat)
    requires Lists(entries, cat) && lo < hi && FreeFrom(entries, lo, hi)
    requires forall s :: s in cat ==> Extent(cat[s]) >= 1
    ensures Clear(cat, lo, hi)
  {
    forall t | t in cat
      ensures t + Extent(cat[t]) <= lo || hi <= t
    {
      assert Listed(entries, t);
      var i :| 0 <= i < |entries| && entries[i].sector == t;
      assert EntryFor(entries[i], cat);
      assert UsedBy(entries, t);
      assert t <= lo < t + Extent(cat[t]) ==> UsedBy(entries, lo);
    }
  }

  // --- which image goes first ---

  function Stamp(uses: map<nat, nat>, s: nat): nat {
    if s in uses then uses[s] else 0
  }

  /** The first entry with the smallest last-use stamp among the first n. */
  function OldestOf(entries: seq<Entry>, uses: map<nat, nat>, n: nat): (k: nat)
    requires 1 <= n <= |entries|
    ensures k < n
    ensures forall j :: 0 <= j < n ==> Stamp(uses, entries[k].sector) <= Stamp(uses, entries[j].sector)
    ensures forall j :: 0 <= j < k ==> Stamp(uses, entries[k].sector) < Stamp(uses, entries[j].sector)
  {
    if n == 1 then 0
    else
      var k := OldestOf(entries, uses, n - 1);
      if Stamp(uses, entries[n - 1].sector) < Stamp(uses, entries[k].sector) then n - 1 else k
  }

  /** Forgetting one entry lists the catalogue without that image. */
  lemma WithoutEntry(entries: seq<Entry>, cat: Catalog, k: nat)
    requires Lists(entries, cat) && k < |entries|
    ensures Lists(entries[..k] + entries[k + 1..], cat - {entries[k].sector})
  {
    var es, s := entries[..k] + entries[k + 1..], entries[k].sector;
    var cat' := cat - {s};
    assert forall i :: 0 <= i < |es| ==> es[i] == entries[if i < k then i else i + 1];
    forall i | 0 <= i < |es|
      ensures EntryFor(es[i], cat')
    {
      assert EntryFor(entries[if i < k then i else i + 1], cat);
    }
    forall t | t in cat'
      ensures Listed(es, t)
    {
      assert Listed(entries, t);
      var i :| 0 <= i < |entries| && entries[i].sector == t;
      assert es[if i < k then i else i - 1].sector == t;
    }
  }
}
