/**
 * Whole runs of the flash image store: any sequence of find, begin, write and finish,
 * each possibly cut by a power loss behind any elementary operation.
 */
module FwRuns {
  import opened Words
  import opened NorFlash
  import opened FwHeaders
  import opened FwCatalog
  import opened FwScan
  import opened FwCalls

  /** A writer lives in RAM between begin() and finish(). */
  datatype Progress = Idle | Filling(w: Writer)

  datatype Store = Store(st: State, cat: Catalog, prog: Progress)

  datatype Found = Missing | FoundAt(sector: nat)

  ghost predicate StoreInv(c: Chip, m: Store) {
    Represents(c, m.st.mem, m.cat) && (m.prog.Filling? ==> Writing(c, m.st.mem, m.cat, m.prog.w))
  }

  /** Reading image data; a read past the end of the chip fails. */
  function ReadData(mem: seq<Byte>, s: nat, size: nat): seq<Byte> {
    if s * SECTOR + DATA_OFFSET + size <= |mem| then DataAt(mem, s, size) else []
  }

  /** mark_used(). */
  function MarkOps(st: State, s: nat): seq<Op> {
    [Count(Wrap(st.counter + 1)), Use(s, Wrap(st.counter + 1))]
  }

  // --- bd_fwstore_find ---

  predicate Wanted(e: Entry, sha: seq<Byte>, size: nat) {
    e.header.imageSize == size && e.header.sha == sha
  }

  /** The first wanted image whose data has the digest; wanted ones that no longer match it are dropped on the way. */
  function FindOps(c: Chip, st: State, entries: seq<Entry>, sha: seq<Byte>, size: nat): (seq<Op>, Found)
    decreases |entries|
  {
    if entries == [] then ([], Missing)
    else if !Wanted(entries[0], sha, size) then FindOps(c, st, entries[1..], sha, size)
    else
      var s := entries[0].sector;
      if c.sha(ReadData(st.mem, s, size)) != sha then
        var (ops, f) := FindOps(c, DoAll(st, DropOps(s)), entries[1..], sha, size);
        (DropOps(s) + ops, f)
      else (MarkOps(st, s), FoundAt(s))
  }

  /** Entries of a scan still to be looked at. */
  ghost predicate Pending(entries: seq<Entry>, cat: Catalog) {
    && (forall i :: 0 <= i < |entries| ==> EntryFor(entries[i], cat))
    && (forall i, j :: 0 <= i < j < |entries| ==> entries[i].sector != entries[j].sector)
  }

  /** Only wanted images that fail their digest are gone. */
  ghost predicate OnlyBroken(c: Chip, cat: Catalog, cat': Catalog, sha: seq<Byte>, size: nat) {
    && (forall s :: s in cat' ==> s in cat && cat'[s] == cat[s])
    && (forall s :: s in cat && s !in cat' ==>
          cat[s].sha == sha && |cat[s].data| == size && c.sha(cat[s].data) != sha)
  }

  ghost predicate FoundRight(c: Chip, entries: seq<Entry>, cat: Catalog, f: Found, sha: seq<Byte>, size: nat) {
    match f
    case FoundAt(s) => s in cat && |cat[s].data| == size && c.sha(cat[s].data) == sha
    case Missing => forall i :: 0 <= i < |entries| && entries[i].sector in cat ==> !Wanted(entries[i], sha, size)
  }

  lemma MarkIsSafe(c: Chip, st: State, cat: Catalog, s: nat)
    requires Represents(c, st.mem, cat)
    ensures SafeTrace(c, st, cat, MarkOps(st, s))
    ensures DoAll(st, MarkOps(st, s)).mem == st.mem && TrackAll(st, cat, MarkOps(st, s)) == cat
  {
    NvsIsSafe(c, st, cat, MarkOps(st, s));
  }

  lemma PendingRest(c: Chip, mem: seq<Byte>, entries: seq<Entry>, cat: Catalog)
    requires Pending(entries, cat) && entries != []
    ensures Pending(entries[1..], cat) && Pending(entries[1..], cat - {entries[0].sector})
  {
    forall i | 0 <= i < |entries| - 1
      ensures EntryFor(entries[1..][i], cat - {entries[0].sector})
    {
      assert EntryFor(entries[i + 1], cat);
    }
  }

  lemma DigestRead(c: Chip, mem: seq<Byte>, cat: Catalog, e: Entry, size: nat)
    requires Represents(c, mem, cat) && EntryFor(e, cat) && e.header.imageSize == size
    ensures ReadData(mem, e.sector, size) == cat[e.sector].data
  {
    assert Stored(c, mem, e.sector, cat[e.sector]);
  }

  lemma {:induction false} FindSafe(c: Chip, st: State, cat: Catalog, entries: seq<Entry>, sha: seq<Byte>, size: nat)
    requires Represents(c, st.mem, cat) && Pending(entries, cat)
    ensures var (ops, f) := FindOps(c, st, entries, sha, size);
      var cat' := TrackAll(st, cat, ops);
      && SafeTrace(c, st, cat, ops) && Represents(c, DoAll(st, ops).mem, cat')
      && OnlyBroken(c, cat, cat', sha, size) && FoundRight(c, entries, cat', f, sha, size)
    decreases |entries|
  {
    if entries != [] {
      var e := entries[0];
      PendingRest(c, st.mem, entries, cat);
      if !Wanted(e, sha, size) {
        FindSafe(c, st, cat, entries[1..], sha, size);
        FoundFurther(c, entries, TrackAll(st, cat, FindOps(c, st, entries, sha, size).0),
                     FindOps(c, st, entries, sha, size).1, sha, size);
      } else {
        assert EntryFor(e, cat);
        DigestRead(c, st.mem, cat, e, size);
        if c.sha(cat[e.sector].data) == sha {
          MarkIsSafe(c, st, cat, e.sector);
        } else {
          FindDrops(c, st, cat, entries, sha, size);
        }
      }
    }
  }

  lemma FoundFurther(c: Chip, entries: seq<Entry>, cat: Catalog, f: Found, sha: seq<Byte>, size: nat)
    requires entries != [] && FoundRight(c, entries[1..], cat, f, sha, size)
    requires entries[0].sector in cat ==> !Wanted(entries[0], sha, size)
    ensures FoundRight(c, entries, cat, f, sha, size)
  {
    if f.Missing? {
      forall i | 0 <= i < |entries| && entries[i].sector in cat
        ensures !Wanted(entries[i], sha, size)
      {
        if i > 0 {
          assert entries[1..][i - 1] == entries[i];
        }
      }
    }
  }

  lemma {:induction false} FindDrops(c: Chip, st: State, cat: Catalog, entries: seq<Entry>, sha: seq<Byte>, size: nat)
    requires Represents(c, st.mem, cat) && Pending(entries, cat) && entries != [] && Wanted(entries[0], sha, size)
    requires entries[0].sector in cat && c.sha(cat[entries[0].sector].data) != sha
    requires c.sha(ReadData(st.mem, entries[0].sector, size)) != sha
    ensures var (ops, f) := FindOps(c, st, entries, sha, size);
      var cat' := TrackAll(st, cat, ops);
      && SafeTrace(c, st, cat, ops) && Represents(c, DoAll(st, ops).mem, cat')
      && OnlyBroken(c, cat, cat', sha, size) && FoundRight(c, entries, cat', f, sha, size)
    decreases |entries|, 0
  {
    var s := entries[0].sector;
    assert EntryFor(entries[0], cat);
    DropIsSafe(c, st, cat, s);
    PendingRest(c, st.mem, entries, cat);
    var st1, cat1 := DoAll(st, DropOps(s)), cat - {s};
    FindSafe(c, st1, cat1, entries[1..], sha, size);
    var (ops, f) := FindOps(c, st1, entries[1..], sha, size);
    SafeConcat(c, st, cat, DropOps(s), ops);
    DoConcat(st, cat, DropOps(s), ops);
    FoundFurther(c, entries, TrackAll(st1, cat1, ops), f, sha, size);
  }

  /** find() on the whole store: what it returns has the digest asked for, what it drops does not. */
  lemma FindExact(c: Chip, st: State, cat: Catalog, sha: seq<Byte>, size: nat)
    requires ChipOk(c) && Represents(c, st.mem, cat)
    ensures var (ops, f) := FindOps(c, st, Scan(c, st.mem), sha, size);
      var cat' := TrackAll(st, cat, ops);
      && SafeTrace(c, st, cat, ops) && Represents(c, DoAll(st, ops).mem, cat')
      && OnlyBroken(c, cat, cat', sha, size)
      && (if f.FoundAt? then f.sector in cat' && |cat'[f.sector].data| == size && c.sha(cat'[f.sector].data) == sha
          else forall s :: s in cat' ==> !(cat'[s].sha == sha && |cat'[s].data| == size))
  {
    var entries := Scan(c, st.mem);
    ScanExact(c, st.mem, cat);
    FindSafe(c, st, cat, entries, sha, size);
    var (ops, f) := FindOps(c, st, entries, sha, size);
    var cat' := TrackAll(st, cat, ops);
    if f.Missing? {
      forall s | s in cat'
        ensures !(cat'[s].sha == sha && |cat'[s].data| == size)
      {
        assert Listed(entries, s);
        var i :| 0 <= i < |entries| && entries[i].sector == s;
        assert EntryFor(entries[i], cat);
      }
    }
  }

  // --- bd_fwstore_write and bd_fwstore_finish ---

  /** The two bounds of write(): the image size, in 32-bit arithmetic, and the partition. */
  predicate WriteFits(c: Chip, w: Writer, data: seq<Byte>) {
    && Wrap(|w.got| + |data|) <= w.size
    && DataStart(w) + |w.got| + |data| <= EndOf(c.regions, w.sector) * SECTOR
  }

  /** Together they bound the image exactly. */
  lemma WriteFitsExact(c: Chip, mem: seq<Byte>, cat: Catalog, w: Writer, data: seq<Byte>)
    requires ChipOk(c) && |mem| == c.sectors * SECTOR && Writing(c, mem, cat, w)
    ensures WriteFits(c, w, data) <==> |w.got| + |data| <= w.size
  {
    EndInChip(c.regions, w.sector, c.sectors);
    if |w.got| + |data| < U32 {
      SmallRemainder(|w.got| + |data|, U32);
    }
  }

  function FinishOps(c: Chip, st: State, w: Writer, sha: seq<Byte>, name: seq<Byte>): seq<Op> {
    if |w.got| != w.size || c.sha(ReadData(st.mem, w.sector, w.size)) != sha then []
    else [Publish(w.sector, Encode(NewHeader(c, w.size, sha, name)))] + MarkOps(st, w.sector)
  }

  /** finish(): nothing happens unless all data is there with the right digest; else the image becomes
   *  findable with exactly the bytes that were appended. */
  lemma FinishSafe(c: Chip, st: State, cat: Catalog, w: Writer, sha: seq<Byte>, name: seq<Byte>)
    requires Represents(c, st.mem, cat) && Writing(c, st.mem, cat, w) && |sha| == SHA_BYTES
    ensures var ops := FinishOps(c, st, w, sha, name);
      && SafeTrace(c, st, cat, ops)
      && (ops == [] <==> !(|w.got| == w.size && c.sha(w.got) == sha))
      && TrackAll(st, cat, ops) == (if ops == [] then cat else cat[w.sector := Image(sha, NameField(name), w.got)])
      && Represents(c, DoAll(st, ops).mem, TrackAll(st, cat, ops))
  {
    if FinishOps(c, st, w, sha, name) != [] {
      var p := Publish(w.sector, Encode(NewHeader(c, w.size, sha, name)));
      var st1, cat1 := Do(st, p), cat[w.sector := Image(sha, NameField(name), w.got)];
      PublishIsSafe(c, st, cat, w, sha, name);
      ThenMarked(c, st, cat, p, st1, cat1, w.sector);
      assert FinishOps(c, st, w, sha, name) == [p] + MarkOps(st1, w.sector);
    }
  }

  /** A safe operation and the stamp behind it. */
  lemma ThenMarked(c: Chip, st: State, cat: Catalog, p: Op, st1: State, cat1: Catalog, s: nat)
    requires SafeTrace(c, st, cat, [p]) && DoAll(st, [p]) == st1 && TrackAll(st, cat, [p]) == cat1
    requires Represents(c, st1.mem, cat1)
    ensures var ops := [p] + MarkOps(st1, s);
      SafeTrace(c, st, cat, ops) && TrackAll(st, cat, ops) == cat1 && Represents(c, DoAll(st, ops).mem, cat1)
  {
    MarkIsSafe(c, st1, cat1, s);
    SafeConcat(c, st, cat, [p], MarkOps(st1, s));
    DoConcat(st, cat, [p], MarkOps(st1, s));
  }

  lemma PublishIsSafe(c: Chip, st: State, cat: Catalog, w: Writer, sha: seq<Byte>, name: seq<Byte>)
    requires Represents(c, st.mem, cat) && Writing(c, st.mem, cat, w) && |sha| == SHA_BYTES && |w.got| == w.size
    ensures var p := Publish(w.sector, Encode(NewHeader(c, w.size, sha, name)));
      var cat1 := cat[w.sector := Image(sha, NameField(name), w.got)];
      && SafeTrace(c, st, cat, [p])
      && DoAll(st, [p]) == Do(st, p) && TrackAll(st, cat, [p]) == cat1
      && Represents(c, Do(st, p).mem, cat1)
  {
    var h := NewHeader(c, w.size, sha, name);
    var st1 := st.(mem := Written(st.mem, w.sector * SECTOR, Encode(h)));
    PublishKeeps(c, st.mem, cat, w, sha, name);
    DecodeEncode(h);
    SafeOne(c, st, cat, Publish(w.sector, Encode(h)), st1, cat[w.sector := Image(sha, NameField(name), w.got)]);
  }

  // --- runs ---

  datatype Call =
    | Find(sha: seq<Byte>, size: nat)
    | Begin(size: nat)
    | Append(data: seq<Byte>)
    | Finish(sha: seq<Byte>, name: seq<Byte>)

  /** A call runs to its end, or power fails behind its first k operations. */
  datatype Event = Whole(call: Call) | Cut(call: Call, k: nat)

  /** Sizes that do not wrap, digests of 32 bytes, and data no later sector of which reads as a header. */
  ghost predicate CallOk(c: Chip, m: Store, call: Call) {
    match call
    case Find(_, _) => true
    case Begin(size) => SizeOk(size)
    case Append(data) => m.prog.Filling? ==> Quiet(c, m.prog.w.got + data)
    case Finish(sha, _) => |sha| == SHA_BYTES
  }

  ghost function CallOps(c: Chip, m: Store, call: Call): seq<Op> {
    match call
    case Find(sha, size) => FindOps(c, m.st, Scan(c, m.st.mem), sha, size).0
    case Begin(size) => BeginOps(c, m.st, size).0
    case Append(data) =>
      if m.prog.Filling? && WriteFits(c, m.prog.w, data)
      then [Program(DataStart(m.prog.w) + |m.prog.w.got|, data)] else []
    case Finish(sha, name) => if m.prog.Filling? then FinishOps(c, m.st, m.prog.w, sha, name) else []
  }

  ghost function NextProgress(c: Chip, m: Store, call: Call): Progress {
    match call
    case Find(_, _) => m.prog
    case Begin(size) =>
      var p := BeginOps(c, m.st, size).1;
      if p.At? then Filling(Writer(p.sector, size, [])) else Idle
    case Append(data) =>
      if m.prog.Filling? && WriteFits(c, m.prog.w, data) then Filling(m.prog.w.(got := m.prog.w.got + data)) else Idle
    case Finish(sha, name) => if CallOps(c, m, Finish(sha, name)) == [] then m.prog else Idle
  }

  ghost function After(c: Chip, m: Store, e: Event): Store {
    var ops := CallOps(c, m, e.call);
    match e
    case Whole(call) => Store(DoAll(m.st, ops), TrackAll(m.st, m.cat, ops), NextProgress(c, m, call))
    case Cut(_, k) =>
      var done := if k < |ops| then ops[..k] else ops;
      Store(DoAll(m.st, done), TrackAll(m.st, m.cat, done), Idle)
  }

  ghost predicate EventsOk(c: Chip, m: Store, events: seq<Event>)
    decreases |events|
  {
    events == [] || (CallOk(c, m, events[0].call) && EventsOk(c, After(c, m, events[0]), events[1..]))
  }

  ghost function Run(c: Chip, m: Store, events: seq<Event>): Store
    decreases |events|
  {
    if events == [] then m else Run(c, After(c, m, events[0]), events[1..])
  }

  lemma {:induction false} FindApart(c: Chip, st: State, cat: Catalog, w: Writer, entries: seq<Entry>, sha: seq<Byte>,
                                     size: nat)
    requires Represents(c, st.mem, cat) && Pending(entries, cat) && Writing(c, st.mem, cat, w)
    ensures var ops := FindOps(c, st, entries, sha, size).0;
      Writing(c, DoAll(st, ops).mem, TrackAll(st, cat, ops), w)
    decreases |entries|
  {
    if entries != [] {
      var e := entries[0];
      PendingRest(c, st.mem, entries, cat);
      if !Wanted(e, sha, size) {
        FindApart(c, st, cat, w, entries[1..], sha, size);
      } else if c.sha(ReadData(st.mem, e.sector, size)) == sha {
        MarkIsSafe(c, st, cat, e.sector);
      } else {
        assert EntryFor(e, cat);
        DropIsSafe(c, st, cat, e.sector);
        DropApart(c, st.mem, cat, w, e.sector);
        DropMem(st, e.sector);
        var st1 := DoAll(st, DropOps(e.sector));
        FindApart(c, st1, cat - {e.sector}, w, entries[1..], sha, size);
        DoConcat(st, cat, DropOps(e.sector), FindOps(c, st1, entries[1..], sha, size).0);
      }
    }
  }

  lemma DropMem(st: State, s: nat)
    ensures DoAll(st, DropOps(s)).mem == Written(st.mem, s * SECTOR, ZERO_WORD)
  {
    DoConcat(st, map[], [Drop(s)], [Forget(s)]);
    assert [Drop(s)] + [Forget(s)] == DropOps(s);
    assert [Drop(s)][1..] == [] && [Forget(s)][1..] == [];
  }

  /** Dropping an image does not touch one being written. */
  lemma DropApart(c: Chip, mem: seq<Byte>, cat: Catalog, w: Writer, s: nat)
    requires Represents(c, mem, cat) && Writing(c, mem, cat, w) && s in cat
    ensures Writing(c, Written(mem, s * SECTOR, ZERO_WORD), cat - {s}, w)
  {
    var mem' := Written(mem, s * SECTOR, ZERO_WORD);
    assert Stored(c, mem, s, cat[s]);
    SliceKept(mem, mem', DataStart(w), DataStart(w) + |w.got|, s * SECTOR, s * SECTOR + 4);
  }

  /** write(): the data joins what the writer holds if it fits, else the writer is given up. */
  lemma AppendSafe(c: Chip, m: Store, data: seq<Byte>)
    requires ChipOk(c) && StoreInv(c, m) && CallOk(c, m, Append(data))
    ensures StoreInv(c, After(c, m, Whole(Append(data))))
    ensures SafeTrace(c, m.st, m.cat, CallOps(c, m, Append(data)))
  {
    if m.prog.Filling? && WriteFits(c, m.prog.w, data) {
      var w := m.prog.w;
      var st' := m.st.(mem := Written(m.st.mem, DataStart(w) + |w.got|, data));
      WriteFitsExact(c, m.st.mem, m.cat, w, data);
      WritingGrows(c, m.st.mem, m.cat, w, data, st'.mem);
      ProgramKeeps(c, m.st.mem, m.cat, w, data, st'.mem);
      SafeOne(c, m.st, m.cat, Program(DataStart(w) + |w.got|, data), st', m.cat);
      assert CallOps(c, m, Append(data)) == [Program(DataStart(w) + |w.got|, data)];
      assert After(c, m, Whole(Append(data))) == Store(st', m.cat, Filling(w.(got := w.got + data)));
    } else {
      SafeNone(c, m.st, m.cat);
      assert CallOps(c, m, Append(data)) == [];
    }
  }

  lemma FindKeeps(c: Chip, m: Store, sha: seq<Byte>, size: nat)
    requires ChipOk(c) && StoreInv(c, m)
    ensures StoreInv(c, After(c, m, Whole(Find(sha, size))))
    ensures SafeTrace(c, m.st, m.cat, CallOps(c, m, Find(sha, size)))
  {
    FindExact(c, m.st, m.cat, sha, size);
    if m.prog.Filling? {
      ScanExact(c, m.st.mem, m.cat);
      FindApart(c, m.st, m.cat, m.prog.w, Scan(c, m.st.mem), sha, size);
    }
  }

  /** Every call, whole or cut anywhere, leaves flash and catalogue in step. */
  lemma EventKeepsInv(c: Chip, m: Store, e: Event)
    requires ChipOk(c) && StoreInv(c, m) && CallOk(c, m, e.call)
    ensures StoreInv(c, After(c, m, e))
  {
    var ops := CallOps(c, m, e.call);
    match e.call {
      case Find(sha, size) => FindKeeps(c, m, sha, size);
      case Begin(size) => BeginSafe(c, m.st, m.cat, size);
      case Append(data) =>
        AppendSafe(c, m, data);
      case Finish(sha, name) =>
        if m.prog.Filling? {
          FinishSafe(c, m.st, m.cat, m.prog.w, sha, name);
        }
    }
    assert SafeTrace(c, m.st, m.cat, ops);
    SafePrefix(c, m.st, m.cat, ops, |ops|);
    assert ops[..|ops|] == ops;
    if e.Cut? && e.k < |ops| {
      SafePrefix(c, m.st, m.cat, ops, e.k);
    }
  }

  /** For every run of calls and power cuts the next scan() finds exactly the images published and not
   *  dropped, each with its bytes, and never an unfinished one. */
  lemma {:induction false} ScanAfterAnyRun(c: Chip, m: Store, events: seq<Event>)
    requires ChipOk(c) && StoreInv(c, m) && EventsOk(c, m, events)
    ensures var m' := Run(c, m, events);
      && StoreInv(c, m') && Lists(Scan(c, m'.st.mem), m'.cat)
      && (forall s :: s in m'.cat ==> ReadData(m'.st.mem, s, |m'.cat[s].data|) == m'.cat[s].data)
      && Disjoint(m'.cat)
    decreases |events|
  {
    if events == [] {
      ScanExact(c, m.st.mem, m.cat);
      forall s | s in m.cat
        ensures ReadData(m.st.mem, s, |m.cat[s].data|) == m.cat[s].data
      {
        assert Stored(c, m.st.mem, s, m.cat[s]);
      }
    } else {
      EventKeepsInv(c, m, events[0]);
      ScanAfterAnyRun(c, After(c, m, events[0]), events[1..]);
    }
  }

  function Concat(chunks: seq<seq<Byte>>): seq<Byte> {
    if chunks == [] then [] else chunks[0] + Concat(chunks[1..])
  }

  function Appends(chunks: seq<seq<Byte>>): (events: seq<Event>)
    ensures |events| == |chunks|
  {
    if chunks == [] then [] else [Whole(Append(chunks[0]))] + Appends(chunks[1..])
  }

  /** Data appended in any chunking is the data the writer holds, as long as it fits. */
  lemma {:induction false} AppendAll(c: Chip, m: Store, chunks: seq<seq<Byte>>)
    requires ChipOk(c) && StoreInv(c, m) && m.prog.Filling? && EventsOk(c, m, Appends(chunks))
    requires |m.prog.w.got| + |Concat(chunks)| <= m.prog.w.size
    ensures var m' := Run(c, m, Appends(chunks));
      && StoreInv(c, m') && m'.cat == m.cat
      && m'.prog == Filling(m.prog.w.(got := m.prog.w.got + Concat(chunks)))
    decreases |chunks|
  {
    if chunks == [] {
      assert m.prog.w.got + [] == m.prog.w.got;
    } else {
      var e, rest := Whole(Append(chunks[0])), Appends(chunks[1..]);
      var m1 := After(c, m, e);
      assert Appends(chunks)[0] == e && Appends(chunks)[1..] == rest;
      EventKeepsInv(c, m, e);
      AppendOne(c, m, chunks[0]);
      AppendAll(c, m1, chunks[1..]);
      Assoc(m.prog.w.got, chunks[0], Concat(chunks[1..]));
    }
  }

  lemma Assoc(a: seq<Byte>, b: seq<Byte>, d: seq<Byte>)
    ensures (a + b) + d == a + (b + d)
  {
  }

  lemma AppendOne(c: Chip, m: Store, data: seq<Byte>)
    requires ChipOk(c) && StoreInv(c, m) && m.prog.Filling? && |m.prog.w.got| + |data| <= m.prog.w.size
    ensures var m' := After(c, m, Whole(Append(data)));
      m'.prog == Filling(m.prog.w.(got := m.prog.w.got + data)) && m'.cat == m.cat
  {
    WriteFitsExact(c, m.st.mem, m.cat, m.prog.w, data);
    var op := Program(DataStart(m.prog.w) + |m.prog.w.got|, data);
    assert [op][1..] == [];
    assert CallOps(c, m, Append(data)) == [op];
    assert TrackAll(m.st, m.cat, [op]) == TrackAll(Do(m.st, op), m.cat, []);
  }

  /** Begin, append in any chunks, finish: the store then holds the image, byte for byte, whatever else it kept. */
  lemma StoredInAnyChunks(c: Chip, m: Store, chunks: seq<seq<Byte>>, sha: seq<Byte>, name: seq<Byte>)
    requires ChipOk(c) && StoreInv(c, m) && m.prog.Filling? && m.prog.w.got == []
    requires EventsOk(c, m, Appends(chunks)) && |Concat(chunks)| == m.prog.w.size
    requires |sha| == SHA_BYTES && c.sha(Concat(chunks)) == sha
    ensures var filled := Run(c, m, Appends(chunks));
      var m' := After(c, filled, Whole(Finish(sha, name)));
      && StoreInv(c, m')
      && m'.cat == m.cat[m.prog.w.sector := Image(sha, NameField(name), Concat(chunks))]
      && ReadData(m'.st.mem, m.prog.w.sector, m.prog.w.size) == Concat(chunks)
  {
    AppendAll(c, m, chunks);
    var filled := Run(c, m, Appends(chunks));
    var w := m.prog.w.(got := Concat(chunks));
    assert [] + Concat(chunks) == Concat(chunks);
    FinishSafe(c, filled.st, filled.cat, w, sha, name);
    EventKeepsInv(c, filled, Whole(Finish(sha, name)));
    var m' := After(c, filled, Whole(Finish(sha, name)));
    assert Stored(c, m'.st.mem, w.sector, m'.cat[w.sector]);
  }
}
