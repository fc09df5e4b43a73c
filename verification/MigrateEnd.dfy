/** The last stage of the move, and the whole of it under any number of power cuts. */
module MigrateEnd {
  import opened Words
  import opened NorFlash
  import opened MigrateFlash
  import opened FwHeaders
  import opened MigrateBoot
  import opened Migrate
  import opened MigrateRuns

  /** From the old app0 to the end of the new one. */
  const PREPARED := 0x1B0

  lemma FinishPlan(rom: Rom, d: Device, img: seq<Byte>)
    requires Ready(rom, d, img) && PlanOf(rom, d).Finish?
    ensures PlanOf(rom, d).ops == if d.table == Arduino then PrepareOps(rom, img) else []
    ensures Running(rom, d) == if d.table == Arduino then 1 else 0
    ensures Renews(PlanOf(rom, d).ops) && AllIn(PlanOf(rom, d).ops, OLD_APP0, OLD_APP0 + PREPARED)
  {
    RunningIs(rom, d, img);
    PrepareShape(rom, img);
    assert forall a: nat :: ErasedFirst([], a);
  }

  /** Operations in a zone leave the image behind it and the otadata in front of it. */
  lemma ImageKept(rom: Rom, mem: seq<Byte>, ops: seq<Op>, base: nat, to: nat, ota: nat, n: nat, m: nat, k: nat, mem': seq<Byte>)
    requires Apart(mem, base, to, ota, n) && m <= n
    requires AllIn(ops, to, to + n) && k <= |ops| && mem' == DoAll(mem, ops[..k])
    ensures SameAt(mem, mem', base * SECTOR, (base + m) * SECTOR)
    ensures BootSlot(rom, mem', ota) == BootSlot(rom, mem, ota)
  {
    PartCut(rom, mem, ops, base, to, ota, n, k, mem');
    WiderKept(mem, mem', base, n, m);
  }

  lemma ArduinoMemory(rom: Rom, d: Device, img: seq<Byte>, ops: seq<Op>, k: nat, d': Device)
    requires Roomy(d) && d.table == Arduino && Running(rom, d) == 1 && |img| <= APP0_SIZE * SECTOR
    requires AllIn(ops, OLD_APP0, OLD_APP0 + PREPARED) && k <= |ops|
    requires d'.table == d.table && d'.mem == DoAll(d.mem, ops[..k])
    ensures Running(rom, d') == 1 && SameAt(d.mem, d'.mem, OLD_APP1 * SECTOR, (OLD_APP1 + SectorsOf(|img|)) * SECTOR)
  {
    SectorsFew(img);
    ImageKept(rom, d.mem, ops, OLD_APP1, OLD_APP0, OLD_OTA, PREPARED, SectorsOf(|img|), k, d'.mem);
  }

  lemma FinishMemory(rom: Rom, d: Device, img: seq<Byte>, k: nat, d': Device)
    requires Ready(rom, d, img) && PlanOf(rom, d).Finish? && k < Length(PlanOf(rom, d)) && d' == After(rom, d, k)
    ensures |d'.mem| == |d.mem| && d'.table == d.table && Running(rom, d') == Running(rom, d)
    ensures var base := Base(d.table, Running(rom, d));
            SameAt(d.mem, d'.mem, base * SECTOR, (base + SectorsOf(|img|)) * SECTOR)
  {
    var ops := PlanOf(rom, d).ops;
    FinishPlan(rom, d, img);
    if d.table == Arduino {
      ArduinoMemory(rom, d, img, ops, Least(k, |ops|), d');
    } else {
      SectorsFew(img);
      assert ops[..Least(k, |ops|)] == [];
    }
  }

  /** A cut anywhere before the table write leaves the station ready to start the stage over. */
  lemma FinishInterrupted(rom: Rom, d: Device, img: seq<Byte>, k: nat, d': Device)
    requires Ready(rom, d, img) && PlanOf(rom, d).Finish? && k < Length(PlanOf(rom, d)) && d' == After(rom, d, k)
    ensures Ready(rom, d', img) && d'.table == d.table && PlanOf(rom, d') == PlanOf(rom, d)
  {
    FinishMemory(rom, d, img, k, d');
    StillBoots(rom, d, img, d');
    SameFinish(rom, d, img, d');
  }

  lemma SameFinish(rom: Rom, d: Device, img: seq<Byte>, d': Device)
    requires Ready(rom, d, img) && PlanOf(rom, d).Finish? && Boots(rom, d', img)
    requires d'.table == d.table && Running(rom, d') == Running(rom, d)
    ensures PlanOf(rom, d') == PlanOf(rom, d)
  {
    RunningIs(rom, d, img);
    RunningIs(rom, d', img);
  }

  lemma WiderKept(mem: seq<Byte>, mem': seq<Byte>, base: nat, n: nat, m: nat)
    requires SameAt(mem, mem', base * SECTOR, (base + n) * SECTOR) && m <= n
    ensures SameAt(mem, mem', base * SECTOR, (base + m) * SECTOR)
  {
    SliceOfSlice(mem, base * SECTOR, (base + n) * SECTOR, 0, m * SECTOR);
    SliceOfSlice(mem', base * SECTOR, (base + n) * SECTOR, 0, m * SECTOR);
  }

  // --- what the preparation leaves ---

  /** The image at its new place, otadata for it, and blank room for NVS and phy_init. */
  /** The state in the otadata entry of sector s, the four bytes before its checksum, is that of a confirmed image. */
  ghost predicate Confirmed(mem: seq<Byte>, s: nat) {
    s * SECTOR + CRC_OFFSET <= |mem| && mem[s * SECTOR + CRC_OFFSET - 4..s * SECTOR + CRC_OFFSET] == [2, 0, 0, 0]
  }

  ghost predicate Prepared(rom: Rom, img: seq<Byte>, mem: seq<Byte>) {
    && (APP0 + APP0_SIZE) * SECTOR <= |mem| && |img| <= APP0_SIZE * SECTOR
    && mem[APP0 * SECTOR..APP0 * SECTOR + |img|] == img
    && EntryAt(rom, mem, OTA) == Numbered(1) && EntryAt(rom, mem, OTA + 1) == NoEntry && Confirmed(mem, OTA)
    && BlankFrom(mem, OLD_APP0 * SECTOR, OTA * SECTOR)
    && BlankFrom(mem, PHY * SECTOR, (PHY + 1) * SECTOR)
  }

  lemma StateBytes(rom: Rom, no: nat, b: seq<Byte>)
    requires b == EntryBytes(rom, no, IMG_VALID)
    ensures b[CRC_OFFSET - 4..CRC_OFFSET] == Le32(IMG_VALID) == [2, 0, 0, 0]
  {
  }

  lemma StateWritten(mem: seq<Byte>, s: nat, b: seq<Byte>, mem': seq<Byte>)
    requires (s + 1) * SECTOR <= |mem| && |b| == ENTRY && BlankFrom(mem, s * SECTOR, s * SECTOR + ENTRY)
    requires mem' == Written(mem, s * SECTOR, b) && b[CRC_OFFSET - 4..CRC_OFFSET] == [2, 0, 0, 0]
    ensures Confirmed(mem', s)
  {
    WriteOnBlank(mem, s * SECTOR, b);
    SliceOfSlice(mem', s * SECTOR, s * SECTOR + ENTRY, CRC_OFFSET - 4, CRC_OFFSET);
  }

  lemma StateKept(mem: seq<Byte>, ops: seq<Op>, lo: nat, hi: nat, mem': seq<Byte>)
    requires AllIn(ops, lo, hi) && (hi <= OTA || OTA < lo) && mem' == DoAll(mem, ops) && Confirmed(mem, OTA)
    ensures Confirmed(mem', OTA)
  {
    OutsideKept(mem, ops, lo, hi, OTA * SECTOR + CRC_OFFSET - 4, OTA * SECTOR + CRC_OFFSET);
  }

  lemma NewOtaEffect(rom: Rom, mem: seq<Byte>, mem': seq<Byte>)
    requires Sound(rom) && (OTA + 2) * SECTOR <= |mem| && mem' == DoAll(mem, NewOtaOps(rom))
    ensures EntryAt(rom, mem', OTA) == Numbered(1) && EntryAt(rom, mem', OTA + 1) == NoEntry
    ensures Confirmed(mem', OTA)
  {
    var m1 := Erased(mem, OTA);
    var m2 := Erased(m1, OTA + 1);
    var write := Program(OTA * SECTOR, EntryBytes(rom, 1, IMG_VALID));
    assert EraseOps(OTA, 2) == [Erase(OTA), Erase(OTA + 1)];
    TwoOps(mem, Erase(OTA), Erase(OTA + 1));
    DoConcat(mem, EraseOps(OTA, 2), [write]);
    DoOne(m2, write);
    EntryErased(rom, m1, OTA + 1, m2);
    EntryWritten(rom, m2, OTA, EntryBytes(rom, 1, IMG_VALID), mem');
    StateBytes(rom, 1, EntryBytes(rom, 1, IMG_VALID));
    StateWritten(m2, OTA, EntryBytes(rom, 1, IMG_VALID), mem');
    EntryReads(rom, 1, IMG_VALID);
    OtherEntry(rom, m2, mem', OTA, OTA + 1);
  }

  lemma PrepareDone(rom: Rom, mem: seq<Byte>, img: seq<Byte>, mem': seq<Byte>)
    requires Sound(rom) && (APP0 + APP0_SIZE) * SECTOR <= |mem| && |img| <= APP0_SIZE * SECTOR
    requires mem' == DoAll(mem, PrepareOps(rom, img))
    ensures Prepared(rom, img, mem')
  {
    var a, b, c, e := CopyOps(img, APP0), NewOtaOps(rom), EraseOps(PHY, 1), EraseOps(OLD_APP0, OTA - OLD_APP0);
    var m1 := DoAll(mem, a);
    var m2 := DoAll(m1, b);
    var m3 := DoAll(m2, c);
    DoConcat(mem, a, b);
    DoConcat(mem, a + b, c);
    DoConcat(mem, a + b + c, e);
    SectorsFew(img);
    CopyStores(mem, img, APP0);
    NewOtaEffect(rom, m1, m2);
    EraseBlanks(m2, PHY, 1);
    EraseBlanks(m3, OLD_APP0, OTA - OLD_APP0);
    RestKept(rom, img, m1, m2, m3, mem');
    ErasesShape(PHY, 1);
    ErasesShape(OLD_APP0, OTA - OLD_APP0);
    StateKept(m2, c, PHY, PHY + 1, m3);
    StateKept(m3, e, OLD_APP0, OTA, mem');
  }

  /** What each later operation leaves of the earlier ones. */
  lemma RestKept(rom: Rom, img: seq<Byte>, m1: seq<Byte>, m2: seq<Byte>, m3: seq<Byte>, m4: seq<Byte>)
    requires (APP0 + APP0_SIZE) * SECTOR <= |m1| && |img| <= APP0_SIZE * SECTOR
    requires m2 == DoAll(m1, NewOtaOps(rom)) && m3 == DoAll(m2, EraseOps(PHY, 1))
    requires m4 == DoAll(m3, EraseOps(OLD_APP0, OTA - OLD_APP0))
    requires m1[APP0 * SECTOR..APP0 * SECTOR + |img|] == img && BlankFrom(m3, PHY * SECTOR, (PHY + 1) * SECTOR)
    ensures m4[APP0 * SECTOR..APP0 * SECTOR + |img|] == img
    ensures EntryAt(rom, m4, OTA) == EntryAt(rom, m2, OTA) && EntryAt(rom, m4, OTA + 1) == EntryAt(rom, m2, OTA + 1)
    ensures BlankFrom(m4, PHY * SECTOR, (PHY + 1) * SECTOR)
  {
    NewOtaShape(rom);
    ErasesShape(PHY, 1);
    ErasesShape(OLD_APP0, OTA - OLD_APP0);
    OutsideKept(m1, NewOtaOps(rom), OTA, OTA + 2, APP0 * SECTOR, APP0 * SECTOR + |img|);
    EntriesKept(rom, img, m2, EraseOps(PHY, 1), PHY, PHY + 1, m3);
    EntriesKept(rom, img, m3, EraseOps(OLD_APP0, OTA - OLD_APP0), OLD_APP0, OTA, m4);
    OutsideKept(m3, EraseOps(OLD_APP0, OTA - OLD_APP0), OLD_APP0, OTA, PHY * SECTOR, (PHY + 1) * SECTOR);
    BlankKept(m3, m4, PHY * SECTOR, (PHY + 1) * SECTOR);
  }

  lemma BlankKept(mem: seq<Byte>, mem': seq<Byte>, from: nat, to: nat)
    requires SameAt(mem, mem', from, to) && BlankFrom(mem, from, to)
    ensures BlankFrom(mem', from, to)
  {
    forall i | from <= i < to
      ensures mem'[i] == BLANK
    {
      assert mem'[from..to][i - from] == mem[from..to][i - from];
    }
  }

  lemma EntriesKept(rom: Rom, img: seq<Byte>, mem: seq<Byte>, ops: seq<Op>, lo: nat, hi: nat, mem': seq<Byte>)
    requires (APP0 + APP0_SIZE) * SECTOR <= |mem| && |img| <= APP0_SIZE * SECTOR
    requires AllIn(ops, lo, hi) && mem' == DoAll(mem, ops) && (hi <= OTA || OTA + 2 <= lo) && hi <= APP0
    ensures SameAt(mem, mem', APP0 * SECTOR, APP0 * SECTOR + |img|)
    ensures EntryAt(rom, mem', OTA) == EntryAt(rom, mem, OTA) && EntryAt(rom, mem', OTA + 1) == EntryAt(rom, mem, OTA + 1)
  {
    OutsideKept(mem, ops, lo, hi, APP0 * SECTOR, APP0 * SECTOR + |img|);
    OutsideKept(mem, ops, lo, hi, OTA * SECTOR, (OTA + 1) * SECTOR);
    OutsideKept(mem, ops, lo, hi, (OTA + 1) * SECTOR, (OTA + 2) * SECTOR);
    EntryKept(rom, mem, mem', OTA);
    EntryKept(rom, mem, mem', OTA + 1);
  }

  lemma PreparedBoots(rom: Rom, d: Device, img: seq<Byte>, d': Device)
    requires Boots(rom, d, img) && Roomy(d') && d'.table == Current && Prepared(rom, img, d'.mem)
    ensures Boots(rom, d', img) && Running(rom, d') == 0
  {
    HoldsAgain(rom, d.mem, Base(d.table, Running(rom, d)), Size(d.table), img, d'.mem, APP0, APP0_SIZE);
  }

  lemma RelabelledBoots(rom: Rom, d: Device, img: seq<Byte>, d': Device)
    requires Boots(rom, d, img) && d.table == FirstIdf && Running(rom, d) == 0
    requires d'.table == Current && d'.mem == d.mem
    ensures Boots(rom, d', img) && Running(rom, d') == 0
  {
    HoldsAgain(rom, d.mem, APP0, IDF1_APP_SIZE, img, d'.mem, APP0, APP0_SIZE);
  }

  /** The completed stage: the new table is in force, and through it the station boots the image from the first slot. */
  lemma FinishCompleted(rom: Rom, d: Device, img: seq<Byte>, d': Device)
    requires Ready(rom, d, img) && PlanOf(rom, d).Finish? && d' == Completed(rom, d)
    ensures d'.table == Current && d'.noted && Boots(rom, d', img) && Running(rom, d') == 0
    ensures d.table == Arduino ==> Prepared(rom, img, d'.mem)
    ensures d.table == FirstIdf ==> d'.mem == d.mem
  {
    var ops := PlanOf(rom, d).ops;
    FinishPlan(rom, d, img);
    assert ops[..|ops|] == ops;
    if d.table == Arduino {
      PrepareDone(rom, d.mem, img, d'.mem);
      PreparedBoots(rom, d, img, d');
    } else {
      RelabelledBoots(rom, d, img, d');
    }
  }

  // --- cuts anywhere ---

  /** Both stages, uncut. */
  function End(rom: Rom, d: Device): (d': Device)
    requires Roomy(d)
    ensures Roomy(d')
  {
    Completed(rom, Completed(rom, d))
  }

  /** How many stages are left. */
  function Rank(rom: Rom, d: Device): nat
    requires Roomy(d)
  {
    match PlanOf(rom, d)
    case Stay => 0
    case Move(_) => 2
    case Finish(_) => 1
  }

  lemma HasPlan(rom: Rom, d: Device, img: seq<Byte>)
    requires Ready(rom, d, img)
    ensures !PlanOf(rom, d).Stay?
  {
    RunningIs(rom, d, img);
  }

  /** Every completed stage leaves one fewer. */
  lemma StageLowersRank(rom: Rom, d: Device, img: seq<Byte>)
    requires Ready(rom, d, img)
    ensures Rank(rom, Completed(rom, d)) == Rank(rom, d) - 1
    ensures Rank(rom, d) == 2 ==> Ready(rom, Completed(rom, d), img)
  {
    HasPlan(rom, d, img);
    if PlanOf(rom, d).Move? {
      MoveCompleted(rom, d, img, Completed(rom, d));
    } else {
      FinishCompleted(rom, d, img, Completed(rom, d));
    }
  }

  lemma RerunsAlike(rom: Rom, d: Device, k: nat, ops: seq<Op>, d': Device)
    requires Roomy(d) && Roomy(d') && Renews(ops) && d' == After(rom, d, k) && PlanOf(rom, d') == PlanOf(rom, d)
    requires PlanOf(rom, d) == Move(ops) || PlanOf(rom, d) == Finish(ops)
    ensures Completed(rom, d') == Completed(rom, d)
  {
    RerunSame(d.mem, ops, Least(k, |ops|));
    assert ops[..|ops|] == ops;
  }

  /** Whatever the cut, the station is then either ready to go on or through, and its end is the same. */
  lemma CutSame(rom: Rom, d: Device, img: seq<Byte>, k: nat, d': Device)
    requires Ready(rom, d, img) && d' == After(rom, d, k)
    ensures Boots(rom, d', img) && (d'.table != Current ==> Ready(rom, d', img)) && End(rom, d') == End(rom, d)
  {
    HasPlan(rom, d, img);
    if k >= Length(PlanOf(rom, d)) {
      CompleteSame(rom, d, img, d');
    } else if PlanOf(rom, d).Move? {
      MoveInterrupted(rom, d, img, k, d');
      MoveRerun(rom, d, img, k, d');
    } else {
      FinishInterrupted(rom, d, img, k, d');
      FinishPlan(rom, d, img);
      RerunsAlike(rom, d, k, PlanOf(rom, d).ops, d');
    }
  }

  lemma MoveRerun(rom: Rom, d: Device, img: seq<Byte>, k: nat, d': Device)
    requires Ready(rom, d, img) && PlanOf(rom, d).Move? && d' == After(rom, d, k) && PlanOf(rom, d') == PlanOf(rom, d)
    ensures Completed(rom, d') == Completed(rom, d)
  {
    var slot := 1 - Running(rom, d);
    MovePlan(rom, d, img, slot);
    MoveRenews(rom, d, img, Target(d.table), slot);
    RerunsAlike(rom, d, k, PlanOf(rom, d).ops, d');
  }

  lemma CompleteSame(rom: Rom, d: Device, img: seq<Byte>, d': Device)
    requires Ready(rom, d, img) && d' == Completed(rom, d)
    ensures Boots(rom, d', img) && (d'.table != Current ==> Ready(rom, d', img)) && End(rom, d') == End(rom, d)
  {
    HasPlan(rom, d, img);
    if PlanOf(rom, d).Move? {
      MoveCompleted(rom, d, img, d');
      FinishCompleted(rom, d', img, Completed(rom, d'));
    } else {
      FinishCompleted(rom, d, img, d');
    }
  }

  /** The station after a run of boots, each cut short behind some operation or not at all. */
  function Run(rom: Rom, d: Device, cuts: seq<nat>): (r: Device)
    requires Roomy(d)
    ensures Roomy(r)
    decreases |cuts|
  {
    if cuts == [] then d else After(rom, Run(rom, d, cuts[..|cuts| - 1]), cuts[|cuts| - 1])
  }

  lemma NvsKeptOn(t: Table, a: seq<Byte>, b: seq<Byte>, c: seq<Byte>)
    requires NvsKept(t, a, b) && NvsKept(t, b, c)
    ensures NvsKept(t, a, c)
  {
  }

  /** A station in the new layout stays as it is; one in an older layout keeps its table until the last write. */
  lemma TableAfter(rom: Rom, d: Device, k: nat)
    requires Roomy(d)
    ensures d.table == Current ==> After(rom, d, k) == d
    ensures After(rom, d, k).table == Current || After(rom, d, k).table == d.table
  {
  }

  /** Under any cuts the station boots the whole image, the old NVS is untouched, and what it comes to in the new
   *  layout is what it would have come to without a cut. */
  lemma {:induction false} MigrationSafe(rom: Rom, d: Device, img: seq<Byte>, cuts: seq<nat>, r: Device)
    requires Ready(rom, d, img) && r == Run(rom, d, cuts)
    ensures Boots(rom, r, img) && NvsKept(d.table, d.mem, r.mem) && End(rom, r) == End(rom, d)
    ensures r.table != Current ==> r.table == d.table && Ready(rom, r, img)
    ensures r.table == Current ==> r == End(rom, d)
    decreases |cuts|
  {
    if cuts != [] {
      var before, k := Run(rom, d, cuts[..|cuts| - 1]), cuts[|cuts| - 1];
      MigrationSafe(rom, d, img, cuts[..|cuts| - 1], before);
      TableAfter(rom, before, k);
      if before.table != Current {
        CutSame(rom, before, img, k, r);
        PlanSparesNvs(rom, before, k);
        NvsKeptOn(d.table, d.mem, before.mem, r.mem);
        EndedCurrent(rom, d, r);
      }
    } else {
      assert NvsKept(d.table, d.mem, d.mem);
    }
  }

  /** In the new layout a station is at its end. */
  lemma EndedCurrent(rom: Rom, d: Device, r: Device)
    requires Roomy(d) && Roomy(r) && End(rom, r) == End(rom, d)
    ensures r.table == Current ==> r == End(rom, d)
  {
    TableAfter(rom, r, Length(PlanOf(rom, r)));
    TableAfter(rom, Completed(rom, r), Length(PlanOf(rom, Completed(rom, r))));
  }

  /** That end is the new layout, with the image in the first slot. */
  lemma EndsInNewLayout(rom: Rom, d: Device, img: seq<Byte>)
    requires Ready(rom, d, img)
    ensures var e := End(rom, d);
      e.table == Current && e.noted && Boots(rom, e, img) && Running(rom, e) == 0 && NvsKept(d.table, d.mem, e.mem)
  {
    var d1 := Completed(rom, d);
    HasPlan(rom, d, img);
    PlanSparesNvs(rom, d, Length(PlanOf(rom, d)));
    if PlanOf(rom, d).Move? {
      MoveCompleted(rom, d, img, d1);
      FinishCompleted(rom, d1, img, Completed(rom, d1));
      PlanSparesNvs(rom, d1, Length(PlanOf(rom, d1)));
    } else {
      FinishCompleted(rom, d, img, d1);
    }
  }
}
