/**
 * Power cuts during the move: until the partition table is replaced the station always
 * boots the whole image, and however often it is cut it ends where it would have ended
 * without a cut.
 */
module MigrateRuns {
  import opened Words
  import opened NorFlash
  import opened MigrateFlash
  import opened MigrateBoot
  import opened Migrate

  lemma PartOfSum(mem: seq<Byte>, a: seq<Op>, b: seq<Op>, k: nat)
    requires k <= |a| + |b|
    ensures DoAll(mem, (a + b)[..k]) == if k <= |a| then DoAll(mem, a[..k]) else DoAll(DoAll(mem, a), b[..k - |a|])
  {
    if k <= |a| {
      assert (a + b)[..k] == a[..k];
    } else {
      assert (a + b)[..k] == a + b[..k - |a|];
      DoConcat(mem, a, b[..k - |a|]);
    }
  }

  /** The places a move works with: image, copy and otadata, which keep clear of one another. */
  predicate Apart(mem: seq<Byte>, base: nat, to: nat, ota: nat, n: nat) {
    && (base + n <= to || to + n <= base)
    && ota + 2 <= base && ota + 2 <= to
    && (base + n) * SECTOR <= |mem| && (to + n) * SECTOR <= |mem|
  }

  /** Operations within the target sectors leave image and otadata. */
  lemma ZoneCut(rom: Rom, mem: seq<Byte>, part: seq<Op>, base: nat, to: nat, ota: nat, n: nat, mem': seq<Byte>)
    requires Apart(mem, base, to, ota, n) && AllIn(part, to, to + n) && mem' == DoAll(mem, part)
    ensures SameAt(mem, mem', base * SECTOR, (base + n) * SECTOR)
    ensures EntryAt(rom, mem', ota) == EntryAt(rom, mem, ota) && EntryAt(rom, mem', ota + 1) == EntryAt(rom, mem, ota + 1)
  {
    OutsideKept(mem, part, to, to + n, base * SECTOR, (base + n) * SECTOR);
    EntryUntouched(rom, mem, part, to, to + n, ota, mem');
    EntryUntouched(rom, mem, part, to, to + n, ota + 1, mem');
  }

  lemma PartCut(rom: Rom, mem: seq<Byte>, ops: seq<Op>, base: nat, to: nat, ota: nat, n: nat, k: nat, mem': seq<Byte>)
    requires Apart(mem, base, to, ota, n) && AllIn(ops, to, to + n) && k <= |ops| && mem' == DoAll(mem, ops[..k])
    ensures SameAt(mem, mem', base * SECTOR, (base + n) * SECTOR)
    ensures EntryAt(rom, mem', ota) == EntryAt(rom, mem, ota) && EntryAt(rom, mem', ota + 1) == EntryAt(rom, mem, ota + 1)
  {
    AllInPart(ops, k, to, to + n);
    ZoneCut(rom, mem, ops[..k], base, to, ota, n, mem');
  }

  lemma EntryUntouched(rom: Rom, mem: seq<Byte>, part: seq<Op>, lo: nat, hi: nat, s: nat, mem': seq<Byte>)
    requires AllIn(part, lo, hi) && mem' == DoAll(mem, part) && s < lo && (s + 1) * SECTOR <= |mem|
    ensures EntryAt(rom, mem', s) == EntryAt(rom, mem, s)
  {
    OutsideKept(mem, part, lo, hi, s * SECTOR, (s + 1) * SECTOR);
    EntryKept(rom, mem, mem', s);
  }

  lemma TwoOps(mem: seq<Byte>, a: Op, b: Op)
    ensures DoAll(mem, [a, b]) == Do(Do(mem, a), b)
  {
    assert [a, b] == [a] + [b];
    DoOne(mem, a);
    DoOne(Do(mem, a), b);
    DoConcat(mem, [a], [b]);
  }

  lemma FirstOp(mem: seq<Byte>, a: Op, b: Op)
    ensures DoAll(mem, [a, b][..1]) == Do(mem, a)
  {
    assert [a, b][..1] == [a];
    DoOne(mem, a);
  }

  /** A cut while the copy is made. */
  lemma CopyCut(rom: Rom, mem: seq<Byte>, img: seq<Byte>, base: nat, to: nat, ota: nat, k: nat, mem': seq<Byte>)
    requires Apart(mem, base, to, ota, SectorsOf(|img|)) && k <= |CopyOps(img, to)|
    requires mem' == DoAll(mem, CopyOps(img, to)[..k])
    ensures SameAt(mem, mem', base * SECTOR, (base + SectorsOf(|img|)) * SECTOR)
    ensures EntryAt(rom, mem', ota) == EntryAt(rom, mem, ota) && EntryAt(rom, mem', ota + 1) == EntryAt(rom, mem, ota + 1)
  {
    CopyRenews(img, to);
    PartCut(rom, mem, CopyOps(img, to), base, to, ota, SectorsOf(|img|), k, mem');
  }

  /** The image and its copy stay where they are, and otadata reads e0 and e1. */
  ghost predicate Standing(rom: Rom, mem: seq<Byte>, img: seq<Byte>, base: nat, to: nat, ota: nat,
                           e0: Entry, e1: Entry, mem': seq<Byte>) {
    && Apart(mem, base, to, ota, SectorsOf(|img|))
    && SameAt(mem, mem', base * SECTOR, (base + SectorsOf(|img|)) * SECTOR)
    && to * SECTOR + |img| <= |mem'| && mem'[to * SECTOR..to * SECTOR + |img|] == img
    && EntryAt(rom, mem', ota) == e0 && EntryAt(rom, mem', ota + 1) == e1
  }

  lemma CopyDone(rom: Rom, mem: seq<Byte>, img: seq<Byte>, base: nat, to: nat, ota: nat, mem': seq<Byte>)
    requires Apart(mem, base, to, ota, SectorsOf(|img|)) && mem' == DoAll(mem, CopyOps(img, to))
    ensures Standing(rom, mem, img, base, to, ota, EntryAt(rom, mem, ota), EntryAt(rom, mem, ota + 1), mem')
  {
    var ops := CopyOps(img, to);
    assert ops[..|ops|] == ops;
    CopyCut(rom, mem, img, base, to, ota, |ops|, mem');
    CopyStores(mem, img, to);
  }

  lemma SelectErases(rom: Rom, mem: seq<Byte>, img: seq<Byte>, base: nat, to: nat, ota: nat, e0: Entry, e1: Entry,
                     e: nat, mid: seq<Byte>)
    requires Sound(rom) && Standing(rom, mem, img, base, to, ota, e0, e1, mid) && e < 2 && (to + SectorsOf(|img|)) * SECTOR <= |mem|
    ensures Standing(rom, mem, img, base, to, ota, if e == 0 then NoEntry else e0, if e == 1 then NoEntry else e1,
                     Erased(mid, ota + e))
  {
    var s, mem1 := ota + e, Erased(mid, ota + e);
    SliceKept(mid, mem1, base * SECTOR, (base + SectorsOf(|img|)) * SECTOR, s * SECTOR, (s + 1) * SECTOR);
    SliceKept(mid, mem1, to * SECTOR, to * SECTOR + |img|, s * SECTOR, (s + 1) * SECTOR);
    EntryErased(rom, mid, s, mem1);
    OtherEntry(rom, mid, mem1, s, ota + 1 - e);
  }

  lemma SelectWrites(rom: Rom, mem: seq<Byte>, img: seq<Byte>, base: nat, to: nat, ota: nat, e0: Entry, e1: Entry,
                     e: nat, no: nat, mid: seq<Byte>)
    requires Sound(rom) && Standing(rom, mem, img, base, to, ota, e0, e1, mid) && e < 2 && (to + SectorsOf(|img|)) * SECTOR <= |mem|
    requires BlankFrom(mid, (ota + e) * SECTOR, (ota + e) * SECTOR + ENTRY) && no < NO_SEQ
    ensures Standing(rom, mem, img, base, to, ota, if e == 0 then Numbered(no) else e0, if e == 1 then Numbered(no) else e1,
                     Written(mid, (ota + e) * SECTOR, EntryBytes(rom, no, IMG_NEW)))
  {
    var s, b := ota + e, EntryBytes(rom, no, IMG_NEW);
    var mem2 := Written(mid, s * SECTOR, b);
    SliceKept(mid, mem2, base * SECTOR, (base + SectorsOf(|img|)) * SECTOR, s * SECTOR, (s + 1) * SECTOR);
    SliceKept(mid, mem2, to * SECTOR, to * SECTOR + |img|, s * SECTOR, (s + 1) * SECTOR);
    EntryWritten(rom, mid, s, b, mem2);
    EntryReads(rom, no, IMG_NEW);
    OtherEntry(rom, mid, mem2, s, ota + 1 - e);
  }

  /** Behind the last operation but one, which erased the entry to be written. */
  lemma SelectCut(rom: Rom, mem: seq<Byte>, img: seq<Byte>, base: nat, to: nat, ota: nat, e0: Entry, e1: Entry, e: nat,
                  mem': seq<Byte>)
    requires Sound(rom) && Apart(mem, base, to, ota, SectorsOf(|img|)) && e < 2
    requires e0 == EntryAt(rom, mem, ota) && e1 == EntryAt(rom, mem, ota + 1)
    requires mem' == Erased(DoAll(mem, CopyOps(img, to)), ota + e)
    ensures Standing(rom, mem, img, base, to, ota, if e == 0 then NoEntry else e0, if e == 1 then NoEntry else e1, mem')
  {
    var mid := DoAll(mem, CopyOps(img, to));
    CopyDone(rom, mem, img, base, to, ota, mid);
    SelectErases(rom, mem, img, base, to, ota, e0, e1, e, mid);
  }

  /** A move cut before its last operation: the image stays, and otadata names the old slot and the same next entry. */
  lemma MoveCut(rom: Rom, mem: seq<Byte>, img: seq<Byte>, base: nat, to: nat, ota: nat, slot: nat, k: nat,
                e0: Entry, e1: Entry, mem': seq<Byte>)
    requires Sound(rom) && Apart(mem, base, to, ota, SectorsOf(|img|)) && k < |CopyOps(img, to)| + 2
    requires e0 == EntryAt(rom, mem, ota) && e1 == EntryAt(rom, mem, ota + 1)
    requires mem' == DoAll(mem, (CopyOps(img, to) + SelectOps(rom, e0, e1, ota, slot))[..k])
    ensures SameAt(mem, mem', base * SECTOR, (base + SectorsOf(|img|)) * SECTOR)
    ensures BootSlot(rom, mem', ota) == SlotOf(e0, e1)
    ensures Choice(EntryAt(rom, mem', ota), EntryAt(rom, mem', ota + 1), slot) == Choice(e0, e1, slot)
  {
    PartOfSum(mem, CopyOps(img, to), SelectOps(rom, e0, e1, ota, slot), k);
    if k <= |CopyOps(img, to)| {
      CopyCut(rom, mem, img, base, to, ota, k, mem');
    } else {
      var (e, no) := Choice(e0, e1, slot);
      FirstOp(DoAll(mem, CopyOps(img, to)), Erase(ota + e), Program((ota + e) * SECTOR, EntryBytes(rom, no, IMG_NEW)));
      SelectCut(rom, mem, img, base, to, ota, e0, e1, e, mem');
      ErasedChoice(e0, e1, slot);
    }
  }

  /** The entry erased and written, behind the copy. */
  lemma SelectDone(rom: Rom, mem: seq<Byte>, img: seq<Byte>, base: nat, to: nat, ota: nat, e0: Entry, e1: Entry,
                   e: nat, no: nat, mid: seq<Byte>, mem': seq<Byte>)
    requires Sound(rom) && Standing(rom, mem, img, base, to, ota, e0, e1, mid) && e < 2 && no < NO_SEQ
    requires mem' == Written(Erased(mid, ota + e), (ota + e) * SECTOR, EntryBytes(rom, no, IMG_NEW))
    ensures Standing(rom, mem, img, base, to, ota, if e == 0 then Numbered(no) else e0, if e == 1 then Numbered(no) else e1, mem')
  {
    SelectErases(rom, mem, img, base, to, ota, e0, e1, e, mid);
    SelectWrites(rom, mem, img, base, to, ota, if e == 0 then NoEntry else e0, if e == 1 then NoEntry else e1,
                 e, no, Erased(mid, ota + e));
  }

  /** A completed move: the copy is there, and otadata names its slot. */
  lemma MoveDone(rom: Rom, mem: seq<Byte>, img: seq<Byte>, base: nat, to: nat, ota: nat, slot: nat,
                 e0: Entry, e1: Entry, mem': seq<Byte>)
    requires Sound(rom) && Apart(mem, base, to, ota, SectorsOf(|img|)) && slot < 2
    requires e0 == EntryAt(rom, mem, ota) && e1 == EntryAt(rom, mem, ota + 1)
    requires slot != SlotOf(e0, e1) && Choice(e0, e1, slot).1 < NO_SEQ
    requires mem' == DoAll(mem, CopyOps(img, to) + SelectOps(rom, e0, e1, ota, slot))
    ensures mem'[to * SECTOR..to * SECTOR + |img|] == img && BootSlot(rom, mem', ota) == slot
  {
    var (e, no) := Choice(e0, e1, slot);
    var mid := DoAll(mem, CopyOps(img, to));
    DoConcat(mem, CopyOps(img, to), SelectOps(rom, e0, e1, ota, slot));
    TwoOps(mid, Erase(ota + e), Program((ota + e) * SECTOR, EntryBytes(rom, no, IMG_NEW)));
    CopyDone(rom, mem, img, base, to, ota, mid);
    SelectDone(rom, mem, img, base, to, ota, e0, e1, e, no, mid, mem');
    WrittenChoice(e0, e1, slot);
  }

  // --- one call ---

  /** Where a move copies to. */
  function Target(t: Table): nat {
    if t == Arduino then OLD_APP1 else APP0
  }

  lemma MovePlan(rom: Rom, d: Device, img: seq<Byte>, slot: nat)
    requires Ready(rom, d, img) && PlanOf(rom, d).Move? && slot == 1 - Running(rom, d)
    ensures PlanOf(rom, d) == Move(MoveOps(rom, d, img, Target(d.table), slot))
    ensures Base(d.table, slot) == Target(d.table)
    ensures Apart(d.mem, Base(d.table, 1 - slot), Target(d.table), OtaSector(d.table), SectorsOf(|img|))
  {
    RunningIs(rom, d, img);
    SectorsFew(img);
  }

  /** The image in the running slot is still there, so it still boots. */
  lemma StillBoots(rom: Rom, d: Device, img: seq<Byte>, d': Device)
    requires Boots(rom, d, img) && |d'.mem| == |d.mem| && d'.table == d.table && Running(rom, d') == Running(rom, d)
    requires var base := Base(d.table, Running(rom, d));
             SameAt(d.mem, d'.mem, base * SECTOR, (base + SectorsOf(|img|)) * SECTOR)
    ensures Boots(rom, d', img)
  {
    var base := Base(d.table, Running(rom, d));
    SectorsFew(img);
    SliceOfSlice(d.mem, base * SECTOR, (base + SectorsOf(|img|)) * SECTOR, 0, |img|);
    SliceOfSlice(d'.mem, base * SECTOR, (base + SectorsOf(|img|)) * SECTOR, 0, |img|);
    HoldsAgain(rom, d.mem, base, Size(d.table), img, d'.mem, base, Size(d.table));
  }

  lemma SamePlan(rom: Rom, d: Device, img: seq<Byte>, d': Device)
    requires Ready(rom, d, img) && Boots(rom, d', img) && d'.table == d.table && Running(rom, d') == Running(rom, d)
    requires var ota, slot := OtaSector(d.table), 1 - Running(rom, d);
             Choice(EntryAt(rom, d'.mem, ota), EntryAt(rom, d'.mem, ota + 1), slot)
             == Choice(EntryAt(rom, d.mem, ota), EntryAt(rom, d.mem, ota + 1), slot)
    ensures PlanOf(rom, d') == PlanOf(rom, d) && Ready(rom, d', img)
  {
    RunningIs(rom, d, img);
    RunningIs(rom, d', img);
  }

  /** What a cut move leaves as it was. */
  predicate AsBefore(rom: Rom, d: Device, img: seq<Byte>, d': Device)
    requires Roomy(d)
  {
    var run, ota := Running(rom, d), OtaSector(d.table);
    var base := Base(d.table, run);
    && d'.table == d.table && d'.noted == d.noted && |d'.mem| == |d.mem|
    && Running(rom, d') == run
    && SameAt(d.mem, d'.mem, base * SECTOR, (base + SectorsOf(|img|)) * SECTOR)
    && Choice(EntryAt(rom, d'.mem, ota), EntryAt(rom, d'.mem, ota + 1), 1 - run)
       == Choice(EntryAt(rom, d.mem, ota), EntryAt(rom, d.mem, ota + 1), 1 - run)
  }

  lemma InterruptedMemory(rom: Rom, d: Device, img: seq<Byte>, slot: nat, to: nat, k: nat, d': Device)
    requires Sound(rom) && Roomy(d) && slot == 1 - Running(rom, d)
    requires Apart(d.mem, Base(d.table, 1 - slot), to, OtaSector(d.table), SectorsOf(|img|))
    requires k < |MoveOps(rom, d, img, to, slot)|
    requires d' == d.(mem := DoAll(d.mem, MoveOps(rom, d, img, to, slot)[..k]))
    ensures AsBefore(rom, d, img, d')
  {
    var ota := OtaSector(d.table);
    MoveCut(rom, d.mem, img, Base(d.table, 1 - slot), to, ota, slot, k,
            EntryAt(rom, d.mem, ota), EntryAt(rom, d.mem, ota + 1), d'.mem);
  }

  /** A move that is cut leaves the station ready to start it over. */
  lemma MoveInterrupted(rom: Rom, d: Device, img: seq<Byte>, k: nat, d': Device)
    requires Ready(rom, d, img) && PlanOf(rom, d).Move? && k < Length(PlanOf(rom, d)) && d' == After(rom, d, k)
    ensures Ready(rom, d', img) && d'.noted == d.noted && d'.table == d.table
    ensures Running(rom, d') == Running(rom, d) && PlanOf(rom, d') == PlanOf(rom, d)
  {
    var slot := 1 - Running(rom, d);
    MovePlan(rom, d, img, slot);
    InterruptedMemory(rom, d, img, slot, Target(d.table), k, d');
    StillBoots(rom, d, img, d');
    SamePlan(rom, d, img, d');
  }

  lemma CompletedMemory(rom: Rom, d: Device, img: seq<Byte>, slot: nat, to: nat, d': Device)
    requires Sound(rom) && Roomy(d) && slot == 1 - Running(rom, d) && NumbersLeft(rom, d)
    requires Apart(d.mem, Base(d.table, 1 - slot), to, OtaSector(d.table), SectorsOf(|img|))
    requires d' == d.(mem := DoAll(d.mem, MoveOps(rom, d, img, to, slot)))
    ensures Running(rom, d') == slot && d'.mem[to * SECTOR..to * SECTOR + |img|] == img
  {
    var ota := OtaSector(d.table);
    MoveDone(rom, d.mem, img, Base(d.table, 1 - slot), to, ota, slot,
             EntryAt(rom, d.mem, ota), EntryAt(rom, d.mem, ota + 1), d'.mem);
  }

  /** A completed move boots the copy. */
  lemma MoveCompleted(rom: Rom, d: Device, img: seq<Byte>, d': Device)
    requires Ready(rom, d, img) && PlanOf(rom, d).Move? && d' == Completed(rom, d)
    ensures Ready(rom, d', img) && d'.noted == d.noted && d'.table == d.table
    ensures Running(rom, d') == 1 - Running(rom, d) && PlanOf(rom, d').Finish?
  {
    var slot, to := 1 - Running(rom, d), Target(d.table);
    MovePlan(rom, d, img, slot);
    var ops := MoveOps(rom, d, img, to, slot);
    assert ops[..|ops|] == ops;
    CompletedMemory(rom, d, img, slot, to, d');
    HoldsAgain(rom, d.mem, Base(d.table, 1 - slot), Size(d.table), img, d'.mem, to, Size(d.table));
    FinishNext(rom, d, img, d');
  }

  lemma FinishNext(rom: Rom, d: Device, img: seq<Byte>, d': Device)
    requires Ready(rom, d, img) && PlanOf(rom, d).Move? && Boots(rom, d', img)
    requires d'.table == d.table && Running(rom, d') == 1 - Running(rom, d)
    ensures PlanOf(rom, d').Finish?
  {
    RunningIs(rom, d, img);
    RunningIs(rom, d', img);
  }
}
