/**
 * bd_fwstore.cpp on a real flash array and NVS. The drivers log every write and erase;
 * each call is proved to perform exactly the operations of its trace in FwCalls and
 * FwRuns, in that order.
 */
module FwStore {
  import opened Words
  import opened NorFlash
  import opened FwHeaders
  import opened FwCatalog
  import opened FwScan
  import opened FwCalls
  import opened FwRuns

  /** BdFwWriter: sector and size of the image, bytes written, still good. */
  class FlashWriter {
    var sector: nat
    var size: nat
    var written: nat
    var ok: bool

    constructor ()
      ensures !ok && written == 0
    {
      sector, size, written, ok := 0, 0, 0, false;
    }
  }

  /** Entries lie whole in their own partition and keep out of the others. */
  ghost predicate EntriesFit(c: Chip, entries: seq<Entry>) {
    forall i, j :: 0 <= i < |entries| && 0 <= j < |c.regions| ==> EntryFits(c.regions[j], entries[i])
  }

  predicate EntryFits(r: Region, e: Entry) {
    if Inside(r, e.sector) then e.sector + e.sectors <= r.first + r.count
    else e.sector + e.sectors <= r.first || r.first + r.count <= e.sector
  }

  lemma ScannedFit(c: Chip, mem: seq<Byte>, cat: Catalog, entries: seq<Entry>)
    requires ChipOk(c) && Represents(c, mem, cat) && Pending(entries, cat)
    ensures EntriesFit(c, entries)
  {
    forall i, j | 0 <= i < |entries| && 0 <= j < |c.regions|
      ensures EntryFits(c.regions[j], entries[i])
    {
      var e, r := entries[i], c.regions[j];
      assert EntryFor(e, cat) && Stored(c, mem, e.sector, cat[e.sector]);
      WholeInPartition(c, e, j);
    }
  }

  lemma WholeInPartition(c: Chip, e: Entry, j: nat)
    requires ChipOk(c) && e.sectors >= 1 && e.sector + e.sectors <= EndOf(c.regions, e.sector) && j < |c.regions|
    ensures EntryFits(c.regions[j], e)
  {
    InsideSome(c.regions, e.sector);
    var k :| 0 <= k < |c.regions| && Inside(c.regions[k], e.sector);
    EndOfInside(c.regions, k, e.sector);
  }

  /** The write of these bytes at this place. */
  predicate IsWrite(op: Op, at: nat, data: seq<Byte>) {
    match op
    case Drop(s) => at == s * SECTOR && data == ZERO_WORD
    case Program(a, d) => at == a && data == d
    case Publish(s, h) => at == s * SECTOR && data == h
    case _ => false
  }

  class FlashStore {
    const c: Chip
    const flash: array<Byte>
    var uses: map<nat, nat>
    var counter: nat
    /** What the drivers below did so far. */
    ghost var trace: seq<Op>

    ghost predicate Shows(st: State)
      reads this, flash
    {
      flash[..] == st.mem && uses == st.uses && counter == st.counter
    }

    constructor (chip: Chip, mem: array<Byte>, stamps: map<nat, nat>, count: nat)
      ensures c == chip && flash == mem && Shows(State(mem[..], stamps, count))
    {
      c, flash, uses, counter := chip, mem, stamps, count;
      trace := [];
    }

    // --- flash driver and NVS ---

    /** esp_partition_write on NOR flash: only clears bits. */
    method Write(at: nat, data: seq<Byte>, ghost op: Op)
      requires at + |data| <= flash.Length && IsWrite(op, at, data)
      modifies flash, this`trace
      ensures flash[..] == Written(old(flash[..]), at, data) && trace == old(trace) + [op]
    {
      trace := trace + [op];
      ghost var before := flash[..];
      var i := 0;
      while i < |data|
        invariant i <= |data| && trace == old(trace) + [op]
        invariant forall j :: 0 <= j < flash.Length ==>
                    flash[j] == if at <= j < at + i then And(before[j], data[j - at]) else before[j]
      {
        flash[at + i] := And(flash[at + i], data[i]);
        i := i + 1;
      }
    }

    method EraseSector(s: nat)
      requires (s + 1) * SECTOR <= flash.Length
      modifies flash, this`trace
      ensures flash[..] == Erased(old(flash[..]), s) && trace == old(trace) + [Erase(s)]
    {
      trace := trace + [Erase(s)];
      ghost var before := flash[..];
      var i := 0;
      while i < SECTOR
        invariant i <= SECTOR && trace == old(trace) + [Erase(s)]
        invariant forall j :: 0 <= j < flash.Length ==>
                    flash[j] == if s * SECTOR <= j < s * SECTOR + i then BLANK else before[j]
      {
        flash[s * SECTOR + i] := BLANK;
        i := i + 1;
      }
    }

    method SetCounter(n: nat)
      modifies this`counter, this`trace
      ensures counter == n && trace == old(trace) + [Count(n)]
    {
      trace := trace + [Count(n)];
      counter := n;
    }

    method SetUse(s: nat, n: nat)
      modifies this`uses, this`trace
      ensures uses == old(uses)[s := n] && trace == old(trace) + [Use(s, n)]
    {
      trace := trace + [Use(s, n)];
      uses := uses[s := n];
    }

    method ForgetUse(s: nat)
      modifies this`uses, this`trace
      ensures uses == old(uses) - {s} && trace == old(trace) + [Forget(s)]
    {
      trace := trace + [Forget(s)];
      uses := uses - {s};
    }

    // --- scanning ---

    method ScanAll(ghost cat: Catalog) returns (out: seq<Entry>)
      requires ChipOk(c) && Represents(c, flash[..], cat)
      ensures out == Scan(c, flash[..])
    {
      out := [];
      var i := 0;
      while i < |c.regions|
        invariant i <= |c.regions|
        invariant out + ScanRegions(c, flash[..], i) == Scan(c, flash[..])
      {
        var found := ScanPartition(i, cat);
        assert out + (found + ScanRegions(c, flash[..], i + 1)) == (out + found) + ScanRegions(c, flash[..], i + 1);
        out := out + found;
        i := i + 1;
      }
      assert out + [] == out;
    }

    /** A header found is that of an image, which takes at least its own sector. */
    lemma HeaderMoves(mem: seq<Byte>, cat: Catalog, s: nat)
      requires Represents(c, mem, cat) && HeaderOk(c, mem, s)
      ensures SectorsFor(Decode(RawHeader(mem, s)).imageSize) >= 1
    {
      assert s in cat;
      assert Stored(c, mem, s, cat[s]);
    }

    /** The test of scan() at one sector, and the entry if an image starts there. */
    method EntryHere(sector: nat, ghost cat: Catalog) returns (found: bool, e: Entry)
      requires Represents(c, flash[..], cat)
      ensures found <==> HeaderOk(c, flash[..], sector)
      ensures found ==> e.sectors >= 1
                        && e == Entry(sector, SectorsFor(Decode(RawHeader(flash[..], sector)).imageSize),
                                      Decode(RawHeader(flash[..], sector)))
    {
      found := HeaderOk(c, flash[..], sector);
      e := *;
      if found {
        HeaderMoves(flash[..], cat, sector);
        var h := Decode(RawHeader(flash[..], sector));
        e := Entry(sector, SectorsFor(h.imageSize), h);
      }
    }

    method ScanPartition(i: nat, ghost cat: Catalog) returns (out: seq<Entry>)
      requires ChipOk(c) && Represents(c, flash[..], cat) && i < |c.regions|
      ensures out == ScanFrom(c, flash[..], c.regions[i].first, c.regions[i].first + c.regions[i].count)
    {
      var sector, end := c.regions[i].first, c.regions[i].first + c.regions[i].count;
      ghost var mem := flash[..];
      ghost var all := ScanFrom(c, mem, sector, end);
      out := [];
      while sector < end
        invariant Scanned(mem, out, sector, end, all)
        decreases end - sector
      {
        var found, e := EntryHere(sector, cat);
        if found {
          ScanStep(mem, sector, end, e, out, out + [e], all);
          out := out + [e];
          sector := sector + e.sectors;
        } else {
          ScanSkip(mem, sector, end, out, all);
          sector := sector + 1;
        }
      }
      assert out + [] == out;
    }

    /** The entries found and those still ahead make up the whole scan. */
    ghost predicate Scanned(mem: seq<Byte>, out: seq<Entry>, s: nat, end: nat, all: seq<Entry>) {
      out + ScanFrom(c, mem, s, end) == all
    }

    lemma ScanSkip(mem: seq<Byte>, s: nat, end: nat, out: seq<Entry>, all: seq<Entry>)
      requires s < end && !HeaderOk(c, mem, s) && Scanned(mem, out, s, end, all)
      ensures Scanned(mem, out, s + 1, end, all)
    {
    }

    /** The scan takes the entry found and goes on behind its image. */
    lemma ScanStep(mem: seq<Byte>, s: nat, end: nat, e: Entry, out: seq<Entry>, out': seq<Entry>, all: seq<Entry>)
      requires out' == out + [e] && s < end && HeaderOk(c, mem, s) && e.sectors >= 1 && Scanned(mem, out, s, end, all)
      requires e == Entry(s, SectorsFor(Decode(RawHeader(mem, s)).imageSize), Decode(RawHeader(mem, s)))
      ensures Scanned(mem, out', s + e.sectors, end, all)
    {
      assert ScanFrom(c, mem, s, end) == [e] + ScanFrom(c, mem, s + e.sectors, end);
      assert out + ([e] + ScanFrom(c, mem, s + e.sectors, end)) == (out + [e]) + ScanFrom(c, mem, s + e.sectors, end);
    }

    // --- a free run ---

    /** The sectors of one partition that entries use, as find_free_run marks them. */
    method MarkUsed(r: Region, taken: seq<Entry>) returns (marks: seq<bool>)
      requires forall i :: 0 <= i < |taken| ==> EntryFits(r, taken[i])
      ensures |marks| == r.count
      ensures forall k :: 0 <= k < r.count ==> (marks[k] <==> UsedBy(taken, r.first + k))
    {
      var used := new bool[r.count](_ => false);
      var n := 0;
      while n < |taken|
        invariant n <= |taken|
        invariant forall k :: 0 <= k < r.count ==> (used[k] <==> UsedBy(taken[..n], r.first + k))
      {
        var e := taken[n];
        ghost var before := used[..];
        if Inside(r, e.sector) {
          forall k | e.sector - r.first <= k < e.sector - r.first + e.sectors {
            used[k] := true;
          }
        }
        forall k | 0 <= k < r.count
          ensures used[k] <==> UsedBy(taken[..n + 1], r.first + k)
        {
          UsedByOneMore(taken, n, r.first + k);
          assert before[k] <==> UsedBy(taken[..n], r.first + k);
        }
        n := n + 1;
      }
      assert taken[..n] == taken;
      marks := used[..];
    }

    lemma UsedByOneMore(taken: seq<Entry>, n: nat, s: nat)
      requires n < |taken|
      ensures UsedBy(taken[..n + 1], s) <==> UsedBy(taken[..n], s) || taken[n].sector <= s < taken[n].sector + taken[n].sectors
    {
      if UsedBy(taken[..n + 1], s) {
        var i :| 0 <= i < n + 1 && taken[..n + 1][i].sector <= s < taken[..n + 1][i].sector + taken[..n + 1][i].sectors;
        assert i < n ==> taken[..n][i] == taken[i];
      }
      if UsedBy(taken[..n], s) {
        var i :| 0 <= i < n && taken[..n][i].sector <= s < taken[..n][i].sector + taken[..n][i].sectors;
        assert taken[..n + 1][i] == taken[i];
      }
      if taken[n].sector <= s < taken[n].sector + taken[n].sectors {
        assert taken[..n + 1][n] == taken[n];
      }
    }

    /** The run counter of find_free_run over one partition. */
    method RunInPartition(r: Region, taken: seq<Entry>, need: nat) returns (p: Place)
      requires forall i :: 0 <= i < |taken| ==> EntryFits(r, taken[i])
      ensures p == RunIn(taken, r, need)
    {
      var used := MarkUsed(r, taken);
      var run, i := 0, 0;
      while i < r.count
        invariant i <= r.count && run <= i && (need > 0 ==> run < need)
        invariant RunEndsAt(taken, r.first, i, run)
        invariant need > 0 ==> forall t :: r.first <= t <= r.first + i - need ==> !RunAt(taken, t, need)
        invariant need == 0 ==> run == i && ZeroRun(taken, r.first + i, r.first + r.count) == RunIn(taken, r, 0)
      {
        assert used[i] <==> UsedBy(taken, r.first + i);
        NextRun(taken, r.first, i, run);
        run := if used[i] then 0 else run + 1;
        if run == need {
          FirstRunFound(taken, r, need, i + 1 - need);
          return At(r.first + i + 1 - need);
        }
        if need > 0 && i + 1 >= need {
          NoRunEndsHere(taken, r.first, i + 1, run, need);
        }
        i := i + 1;
      }
      p := NoRoom;
    }

    /** The longest run of free sectors that ends before sector i of a partition has this length. */
    ghost predicate RunEndsAt(taken: seq<Entry>, first: nat, i: nat, run: nat) {
      run <= i && FreeFrom(taken, first + i - run, first + i) && (run < i ==> UsedBy(taken, first + i - run - 1))
    }

    lemma NextRun(taken: seq<Entry>, first: nat, i: nat, run: nat)
      requires RunEndsAt(taken, first, i, run)
      ensures RunEndsAt(taken, first, i + 1, if UsedBy(taken, first + i) then 0 else run + 1)
    {
    }

    /** A run shorter than needed: the used sector before it is in the way. */
    lemma NoRunEndsHere(taken: seq<Entry>, first: nat, i: nat, run: nat, need: nat)
      requires RunEndsAt(taken, first, i, run) && run < need <= i
      ensures !RunAt(taken, first + i - need, need)
    {
      assert UsedBy(taken, first + i - run - 1);
    }

    lemma FirstRunFound(taken: seq<Entry>, r: Region, need: nat, k: nat)
      requires k + need <= r.count
      requires need > 0 ==> RunAt(taken, r.first + k, need)
                            && forall t :: r.first <= t < r.first + k ==> !RunAt(taken, t, need)
      requires need == 0 ==> k > 0 && UsedBy(taken, r.first + k - 1)
                             && ZeroRun(taken, r.first + k - 1, r.first + r.count) == RunIn(taken, r, 0)
      ensures RunIn(taken, r, need) == At(r.first + k)
    {
      if need > 0 {
        var p := FirstRun(taken, r.first, r.first + r.count, need);
        assert RunAt(taken, r.first + k, need);
      }
    }

    method FindFreeRun(taken: seq<Entry>, need: nat) returns (p: Place)
      requires EntriesFit(c, taken)
      ensures p == FreeRun(c.regions, taken, need)
    {
      var i := 0;
      while i < |c.regions|
        invariant i <= |c.regions|
        invariant FreeRun(c.regions[i..], taken, need) == FreeRun(c.regions, taken, need)
      {
        p := RunInPartition(c.regions[i], taken, need);
        if p.At? {
          return;
        }
        i := i + 1;
      }
      p := NoRoom;
    }

    method OldestEntry(entries: seq<Entry>) returns (oldest: nat)
      requires entries != []
      ensures oldest == OldestOf(entries, uses, |entries|)
    {
      oldest := 0;
      var i := 1;
      while i < |entries|
        invariant 1 <= i <= |entries| && oldest == OldestOf(entries, uses, i)
      {
        if Stamp(uses, entries[i].sector) < Stamp(uses, entries[oldest].sector) {
          oldest := i;
        }
        i := i + 1;
      }
    }

    // --- bd_fwstore_begin ---

    method DropEntry(s: nat, ghost st: State)
      requires Shows(st) && (s + 1) * SECTOR <= flash.Length
      modifies this`uses, this`trace, flash
      ensures Shows(DoAll(st, DropOps(s))) && trace == old(trace) + DropOps(s)
    {
      Write(s * SECTOR, ZERO_WORD, Drop(s));
      ForgetUse(s);
      DoTwo(st, Drop(s), Forget(s));
    }

    /** The loop of begin: drops images until there is a place, or none is left. */
    method ClearPlace(need: nat, ghost st: State, ghost cat: Catalog) returns (p: Place)
      requires ChipOk(c) && Shows(st) && Represents(c, st.mem, cat)
      modifies this`uses, this`trace, flash
      ensures var (ops, q) := MakePlace(c.regions, Scan(c, st.mem), st.uses, need);
        p == q && Shows(DoAll(st, ops)) && trace == old(trace) + ops
    {
      ghost var st1, cat1, done := st, cat, [];
      ghost var total := MakePlace(c.regions, Scan(c, st.mem), st.uses, need);
      ScanExact(c, st.mem, cat);
      var entries := ScanAll(cat);
      ScannedFit(c, st.mem, cat, entries);
      p := FindFreeRun(entries, need);
      while p.NoRoom? && entries != []
        invariant Shows(st1) && Represents(c, st1.mem, cat1) && Lists(entries, cat1)
        invariant p == FreeRun(c.regions, entries, need)
        invariant st1 == DoAll(st, done) && trace == old(trace) + done
        invariant var (ops, q) := MakePlace(c.regions, entries, st1.uses, need); done + ops == total.0 && q == total.1
        decreases |entries|
      {
        var oldest := OldestEntry(entries);
        ghost var rest, s := entries[..oldest] + entries[oldest + 1..], entries[oldest].sector;
        Associate(old(trace), done, DropOps(s));
        DropOldest(entries, oldest, need, st1, cat1);
        DoConcat(st, cat, done, DropOps(s));
        Associate(done, DropOps(s), MakePlace(c.regions, rest, DoAll(st1, DropOps(s)).uses, need).0);
        st1, cat1, done := DoAll(st1, DropOps(s)), cat1 - {s}, done + DropOps(s);
        entries := entries[..oldest] + entries[oldest + 1..];
        ScannedFit(c, st1.mem, cat1, entries);
        p := FindFreeRun(entries, need);
      }
      assert done + [] == done;
    }

    lemma Associate(a: seq<Op>, b: seq<Op>, d: seq<Op>)
      ensures (a + b) + d == a + (b + d)
    {
    }

    /** One round of the loop: the entry used the longest ago goes, on flash and from the list. */
    method DropOldest(entries: seq<Entry>, oldest: nat, ghost need: nat, ghost st: State, ghost cat: Catalog)
      requires Shows(st) && Represents(c, st.mem, cat) && Lists(entries, cat) && entries != []
      requires oldest == OldestOf(entries, st.uses, |entries|) && FreeRun(c.regions, entries, need).NoRoom?
      modifies this`uses, this`trace, flash
      ensures trace == old(trace) + DropOps(entries[oldest].sector)
      ensures var (s, rest) := (entries[oldest].sector, entries[..oldest] + entries[oldest + 1..]);
        var st' := DoAll(st, DropOps(s));
        && Shows(st') && Represents(c, st'.mem, cat - {s}) && Lists(rest, cat - {s})
        && MakePlace(c.regions, entries, st.uses, need).0 == DropOps(s) + MakePlace(c.regions, rest, st'.uses, need).0
        && MakePlace(c.regions, entries, st.uses, need).1 == MakePlace(c.regions, rest, st'.uses, need).1
    {
      var s := entries[oldest].sector;
      assert EntryFor(entries[oldest], cat);
      assert Stored(c, st.mem, s, cat[s]);
      DropIsSafe(c, st, cat, s);
      WithoutEntry(entries, cat, oldest);
      DropEntry(s, st);
    }

    method EraseRun(s: nat, n: nat, ghost st: State)
      requires Shows(st) && (n > 0 ==> (s + n) * SECTOR <= flash.Length)
      modifies flash, this`trace
      ensures Shows(DoAll(st, EraseOps(s, n))) && trace == old(trace) + EraseOps(s, n)
    {
      ghost var st1 := st;
      var k := 0;
      while k < n
        invariant k <= n && Shows(st1)
        invariant DoAll(st1, EraseOps(s + k, n - k)) == DoAll(st, EraseOps(s, n))
        invariant trace + EraseOps(s + k, n - k) == old(trace) + EraseOps(s, n)
      {
        assert EraseOps(s + k, n - k)[1..] == EraseOps(s + k + 1, n - k - 1);
        Associate(trace, [Erase(s + k)], EraseOps(s + k + 1, n - k - 1));
        EraseSector(s + k);
        st1 := Do(st1, Erase(s + k));
        k := k + 1;
      }
    }

    /** bd_fwstore_begin, for every size, wrapping ones included. */
    method Begin(size: nat, w: FlashWriter, ghost st: State, ghost cat: Catalog) returns (ok: bool)
      requires ChipOk(c) && Shows(st) && Represents(c, st.mem, cat)
      modifies this`uses, this`trace, flash, w
      ensures var (ops, p) := BeginOps(c, st, size);
        && Shows(DoAll(st, ops)) && trace == old(trace) + ops && ok == p.At? && w.ok == ok
        && (ok ==> w.sector == p.sector && w.size == size && w.written == 0)
    {
      w.ok, w.written := false, 0;
      var need := SectorsFor(size);
      var p := ClearPlace(need, st, cat);
      ghost var ops := MakePlace(c.regions, Scan(c, st.mem), st.uses, need).0;
      if p.NoRoom? {
        return false;
      }
      PlaceOnChip(st, cat, need);
      Associate(old(trace), ops, EraseOps(p.sector, need));
      EraseRun(p.sector, need, DoAll(st, ops));
      DoConcat(st, cat, ops, EraseOps(p.sector, need));
      w.sector, w.size, w.ok := p.sector, size, true;
      ok := true;
    }

    lemma PlaceOnChip(st: State, cat: Catalog, need: nat)
      requires ChipOk(c) && Represents(c, st.mem, cat)
      requires MakePlace(c.regions, Scan(c, st.mem), st.uses, need).1.At?
      ensures need > 0 ==> MakePlace(c.regions, Scan(c, st.mem), st.uses, need).1.sector + need <= c.sectors
    {
      if need > 0 {
        ScanExact(c, st.mem, cat);
        MakePlaceSafe(c, st, cat, Scan(c, st.mem), need);
      }
    }

    // --- bd_fwstore_write, bd_fwstore_finish ---

    ghost predicate Holds(w: FlashWriter, wr: Writer)
      reads w
    {
      w.sector == wr.sector && w.size == wr.size && w.written == |wr.got|
    }

    /** The driver refuses to write past the partition; a refused write ends the image. */
    method WriteData(w: FlashWriter, data: seq<Byte>, ghost st: State, ghost wr: Writer) returns (ok: bool)
      requires ChipOk(c) && Shows(st) && flash.Length == c.sectors * SECTOR && Holds(w, wr)
      modifies flash, this`trace, w`written, w`ok
      ensures trace == old(trace) + if ok then [Program(DataStart(wr) + |wr.got|, data)] else []
      ensures ok == (old(w.ok) && WriteFits(c, wr, data)) && w.ok == ok
      ensures if ok then Shows(Do(st, Program(DataStart(wr) + |wr.got|, data))) && Holds(w, wr.(got := wr.got + data))
              else Shows(st) && Holds(w, wr)
    {
      EndInChip(c.regions, w.sector, c.sectors);
      if !w.ok || Wrap(w.written + |data|) > w.size {
        w.ok := false;
        return false;
      }
      var at := w.sector * SECTOR + DATA_OFFSET + w.written;
      if at + |data| > EndOf(c.regions, w.sector) * SECTOR {
        w.ok := false;
        return false;
      }
      Write(at, data, Program(at, data));
      w.written := w.written + |data|;
      ok := true;
    }

    method MarkUse(s: nat, ghost st: State)
      requires Shows(st)
      modifies this`uses, this`counter, this`trace
      ensures Shows(DoAll(st, MarkOps(st, s))) && trace == old(trace) + MarkOps(st, s)
    {
      SetCounter(Wrap(counter + 1));
      SetUse(s, counter);
      DoTwo(st, Count(counter), Use(s, counter));
    }

    /** Header write and read-back. */
    method WriteHeader(s: nat, h: Header, ghost st: State) returns (same: bool)
      requires Shows(st) && HeaderFits(h) && (s + 1) * SECTOR <= flash.Length
      requires BlankFrom(st.mem, s * SECTOR, s * SECTOR + HEADER_BYTES)
      modifies flash, this`trace
      ensures same && Shows(Do(st, Publish(s, Encode(h)))) && trace == old(trace) + [Publish(s, Encode(h))]
    {
      DecodeEncode(h);
      WriteOnBlank(st.mem, s * SECTOR, Encode(h));
      Write(s * SECTOR, Encode(h), Publish(s, Encode(h)));
      same := RawHeader(flash[..], s) == Encode(h);
    }

    /** Header and stamp of a complete image. */
    method Announce(s: nat, h: Header, ghost st: State) returns (same: bool)
      requires Shows(st) && HeaderFits(h) && (s + 1) * SECTOR <= flash.Length
      requires BlankFrom(st.mem, s * SECTOR, s * SECTOR + HEADER_BYTES)
      modifies this`uses, this`counter, this`trace, flash
      ensures same && Shows(DoAll(st, [Publish(s, Encode(h))] + MarkOps(st, s)))
      ensures trace == old(trace) + ([Publish(s, Encode(h))] + MarkOps(st, s))
    {
      ghost var p := Publish(s, Encode(h));
      PublishThenMark(st, p, s);
      Associate(trace, [p], MarkOps(Do(st, p), s));
      same := WriteHeader(s, h, st);
      if same {
        MarkUse(s, Do(st, p));
      }
    }

    lemma PublishThenMark(st: State, p: Op, s: nat)
      requires p.Publish?
      ensures DoAll(st, [p] + MarkOps(st, s)) == DoAll(Do(st, p), MarkOps(Do(st, p), s))
      ensures MarkOps(Do(st, p), s) == MarkOps(st, s)
    {
      assert ([p] + MarkOps(st, s))[1..] == MarkOps(st, s);
    }

    /** bd_fwstore_finish: the header goes last, and only for data with the right digest. */
    method Finish(w: FlashWriter, sha: seq<Byte>, name: seq<Byte>, ghost st: State, ghost cat: Catalog, ghost wr: Writer)
      returns (ok: bool)
      requires Shows(st) && Represents(c, st.mem, cat) && Writing(c, st.mem, cat, wr) && Holds(w, wr)
      requires |sha| == SHA_BYTES
      modifies this`uses, this`counter, this`trace, flash
      ensures ok <==> w.ok && FinishOps(c, st, wr, sha, name) != []
      ensures trace == old(trace) + if ok then FinishOps(c, st, wr, sha, name) else []
      ensures Shows(if ok then DoAll(st, FinishOps(c, st, wr, sha, name)) else st)
    {
      if !w.ok || w.written != w.size || c.sha(ReadData(flash[..], w.sector, w.size)) != sha {
        return false;
      }
      SectorsForExact(w.size);
      ok := Announce(w.sector, NewHeader(c, w.size, sha, name), st);
    }

    // --- bd_fwstore_find, bd_fwstore_read ---

    method FindImage(sha: seq<Byte>, size: nat, ghost st: State, ghost cat: Catalog) returns (f: Found)
      requires ChipOk(c) && Shows(st) && Represents(c, st.mem, cat)
      modifies this`uses, this`counter, this`trace, flash
      ensures var (ops, g) := FindOps(c, st, Scan(c, st.mem), sha, size);
        f == g && Shows(DoAll(st, ops)) && trace == old(trace) + ops
    {
      ghost var st1, cat1, done := st, cat, [];
      ghost var total := FindOps(c, st, Scan(c, st.mem), sha, size);
      ScanExact(c, st.mem, cat);
      var entries := ScanAll(cat);
      while entries != []
        invariant Shows(st1) && Represents(c, st1.mem, cat1) && Pending(entries, cat1) && st1 == DoAll(st, done)
        invariant trace == old(trace) + done
        invariant var (ops, g) := FindOps(c, st1, entries, sha, size); done + ops == total.0 && g == total.1
        decreases |entries|
      {
        var e := entries[0];
        PendingRest(c, st1.mem, entries, cat1);
        if Wanted(e, sha, size) {
          if c.sha(ReadData(flash[..], e.sector, size)) == sha {
            Associate(old(trace), done, MarkOps(st1, e.sector));
            MarkUse(e.sector, st1);
            DoConcat(st, cat, done, MarkOps(st1, e.sector));
            return FoundAt(e.sector);
          }
          Associate(old(trace), done, DropOps(e.sector));
          st1, cat1, done := DropBroken(e, st1, cat1, entries, done, st, cat, sha, size);
        }
        entries := entries[1..];
      }
      assert done + [] == done;
      f := Missing;
    }

    method DropBroken(e: Entry, ghost st1: State, ghost cat1: Catalog, ghost entries: seq<Entry>, ghost done: seq<Op>,
                      ghost st: State, ghost cat: Catalog, ghost sha: seq<Byte>, ghost size: nat)
      returns (ghost st2: State, ghost cat2: Catalog, ghost done2: seq<Op>)
      requires Shows(st1) && Represents(c, st1.mem, cat1) && Pending(entries, cat1) && st1 == DoAll(st, done)
      requires entries != [] && e == entries[0] && Wanted(e, sha, size) && c.sha(ReadData(st1.mem, e.sector, size)) != sha
      modifies this`uses, this`trace, flash
      ensures done2 == done + DropOps(e.sector) && trace == old(trace) + DropOps(e.sector)
      ensures Shows(st2) && Represents(c, st2.mem, cat2) && cat2 == cat1 - {e.sector} && st2 == DoAll(st, done2)
      ensures done2 + FindOps(c, st2, entries[1..], sha, size).0 == done + FindOps(c, st1, entries, sha, size).0
      ensures FindOps(c, st2, entries[1..], sha, size).1 == FindOps(c, st1, entries, sha, size).1
    {
      assert EntryFor(e, cat1);
      assert Stored(c, st1.mem, e.sector, cat1[e.sector]);
      DropIsSafe(c, st1, cat1, e.sector);
      DropEntry(e.sector, st1);
      DoConcat(st, cat, done, DropOps(e.sector));
      st2, cat2, done2 := DoAll(st1, DropOps(e.sector)), cat1 - {e.sector}, done + DropOps(e.sector);
      assert done2 + FindOps(c, st2, entries[1..], sha, size).0
          == done + (DropOps(e.sector) + FindOps(c, st2, entries[1..], sha, size).0);
    }

    /** bd_fwstore_read: a part of a stored image. The driver refuses to read past the partition, which is what stops
     *  a part that ends within the image only in 32 bits. */
    method Read(s: nat, size: nat, offset: nat, len: nat, ghost cat: Catalog) returns (ok: bool, data: seq<Byte>)
      requires ChipOk(c) && Represents(c, flash[..], cat) && s in cat && |cat[s].data| == size
      requires offset < U32 && len < U32
      ensures ok <==> offset + len <= size
      ensures ok ==> data == cat[s].data[offset..offset + len]
    {
      assert Stored(c, flash[..], s, cat[s]);
      var at := s * SECTOR + DATA_OFFSET + offset;
      EndInChip(c.regions, s, c.sectors);
      if offset + len < U32 {
        SmallRemainder(offset + len, U32);
      }
      ok, data := Wrap(offset + len) <= size && at + len <= EndOf(c.regions, s) * SECTOR, [];
      if ok {
        data := flash[at..at + len];
        DataPart(flash[..], s, cat[s].data, offset, len);
      }
    }

    lemma DataPart(mem: seq<Byte>, s: nat, data: seq<Byte>, offset: nat, len: nat)
      requires s * SECTOR + DATA_OFFSET + |data| <= |mem| && DataAt(mem, s, |data|) == data && offset + len <= |data|
      ensures var at := s * SECTOR + DATA_OFFSET + offset; mem[at..at + len] == data[offset..offset + len]
    {
      SliceOfSlice(mem, s * SECTOR + DATA_OFFSET, s * SECTOR + DATA_OFFSET + |data|, offset, offset + len);
    }
  }
}
