/**
 * The move of a station from an older flash layout to the current one (bd_migrate.cpp),
 * as elementary operations with a power cut possible behind each, up to the one write
 * that replaces the partition table.
 */
module Migrate {
  import opened Words
  import opened NorFlash
  import opened MigrateFlash
  import opened MigrateBoot

  datatype Table = Arduino | FirstIdf | Current

  /** Places in sectors. */
  const APP0 := 0x20
  const APP0_SIZE := 0x1A0
  const OTA := 0x16
  const PHY := 0x18
  const NVS := 0x9
  const OLD_OTA := 0xE
  const OLD_APP0 := 0x10
  const OLD_APP1 := 0x340
  const OLD_APP_SIZE := 0x330
  const IDF1_APP1 := 0x1E0
  const IDF1_APP_SIZE := 0x1C0

  function OtaSector(t: Table): nat {
    if t == Arduino then OLD_OTA else OTA
  }

  function Base(t: Table, slot: nat): nat {
    match t
    case Arduino => if slot == 0 then OLD_APP0 else OLD_APP1
    case FirstIdf => if slot == 0 then APP0 else IDF1_APP1
    case Current => if slot == 0 then APP0 else APP0 + APP0_SIZE
  }

  function Size(t: Table): nat {
    match t
    case Arduino => OLD_APP_SIZE
    case FirstIdf => IDF1_APP_SIZE
    case Current => APP0_SIZE
  }

  /** How much flash a table needs. */
  function Extent(t: Table): nat {
    Base(t, 1) + Size(t)
  }

  /** In every table otadata lies before the slots, and these behind one another without a gap. */
  lemma SlotsAdjacent(t: Table)
    ensures Base(t, 0) + Size(t) == Base(t, 1) && NVS < OtaSector(t) && OtaSector(t) + 2 <= Base(t, 0)
  {
  }

  /** The flash, the table in force, and the note for the first boot behind the move. */
  datatype Device = Device(mem: seq<Byte>, table: Table, noted: bool)

  predicate Roomy(d: Device) {
    |d.mem| >= Extent(d.table) * SECTOR && |d.mem| >= Extent(Current) * SECTOR
  }

  function Running(rom: Rom, d: Device): (slot: nat)
    requires Roomy(d)
    ensures slot < 2
  {
    BootSlot(rom, d.mem, OtaSector(d.table))
  }

  /** The image that runs, empty if it does not verify. */
  function RunningImage(rom: Rom, d: Device): (img: seq<Byte>)
    requires Roomy(d)
    ensures |img| <= Size(d.table) * SECTOR
  {
    var base := Base(d.table, Running(rom, d));
    var len := rom.verify(d.mem[base * SECTOR..(base + Size(d.table)) * SECTOR]);
    if len <= Size(d.table) * SECTOR then d.mem[base * SECTOR..base * SECTOR + len] else []
  }

  /** What one call of bd_migrate_layout_if_needed does: nothing, move to the other slot, or finish with the table. */
  datatype Plan = Stay | Move(ops: seq<Op>) | Finish(ops: seq<Op>)

  /** prepare_new_layout: image, otadata, phy_init and the room NVS grows into. */
  function PrepareOps(rom: Rom, img: seq<Byte>): seq<Op> {
    CopyOps(img, APP0) + NewOtaOps(rom) + EraseOps(PHY, 1) + EraseOps(OLD_APP0, OTA - OLD_APP0)
  }

  /** otadata that selects the first slot. */
  function NewOtaOps(rom: Rom): seq<Op> {
    EraseOps(OTA, 2) + [Program(OTA * SECTOR, EntryBytes(rom, 1, IMG_VALID))]
  }

  function MoveOps(rom: Rom, d: Device, img: seq<Byte>, to: nat, slot: nat): seq<Op>
    requires Roomy(d)
  {
    var ota := OtaSector(d.table);
    CopyOps(img, to) + SelectOps(rom, EntryAt(rom, d.mem, ota), EntryAt(rom, d.mem, ota + 1), ota, slot)
  }

  function PlanOf(rom: Rom, d: Device): Plan
    requires Roomy(d)
  {
    var img, slot := RunningImage(rom, d), Running(rom, d);
    if d.table == Current || img == [] || |img| > APP0_SIZE * SECTOR then Stay
    else if d.table == Arduino then
      if slot == 0 then Move(MoveOps(rom, d, img, OLD_APP1, 1)) else Finish(PrepareOps(rom, img))
    else if slot == 1 then Move(MoveOps(rom, d, img, APP0, 0))
    else Finish([])
  }

  /** Elementary operations of a plan; a finish ends with the note and the table write. */
  function Length(p: Plan): nat {
    match p
    case Stay => 0
    case Move(ops) => |ops|
    case Finish(ops) => |ops| + 2
  }

  function Least(a: nat, b: nat): nat {
    if a < b then a else b
  }

  /** The device after the first k operations. */
  function After(rom: Rom, d: Device, k: nat): (d': Device)
    requires Roomy(d)
    ensures Roomy(d')
  {
    match PlanOf(rom, d)
    case Stay => d
    case Move(ops) => d.(mem := DoAll(d.mem, ops[..Least(k, |ops|)]))
    case Finish(ops) =>
      Device(DoAll(d.mem, ops[..Least(k, |ops|)]), if k > |ops| + 1 then Current else d.table, d.noted || k > |ops|)
  }

  function Completed(rom: Rom, d: Device): (d': Device)
    requires Roomy(d)
    ensures Roomy(d')
  {
    After(rom, d, Length(PlanOf(rom, d)))
  }

  // --- the state between boots ---

  /** Numbers left for one more entry of otadata. */
  predicate NumbersLeft(rom: Rom, d: Device)
    requires Roomy(d)
  {
    var ota := OtaSector(d.table);
    Choice(EntryAt(rom, d.mem, ota), EntryAt(rom, d.mem, ota + 1), 1 - Running(rom, d)).1 < NO_SEQ
  }

  /** The station boots the image and would run it. */
  ghost predicate Boots(rom: Rom, d: Device, img: seq<Byte>) {
    && Sound(rom) && Roomy(d) && 0 < |img| <= APP0_SIZE * SECTOR
    && Holds(rom, d.mem, Base(d.table, Running(rom, d)), Size(d.table), img)
  }

  /** Everything a move needs: the image boots, and there is a number for the other slot's entry. */
  ghost predicate Ready(rom: Rom, d: Device, img: seq<Byte>) {
    && Boots(rom, d, img) && d.table != Current
    && (PlanOf(rom, d).Move? ==> NumbersLeft(rom, d))
  }

  lemma SectorsFew(img: seq<Byte>)
    requires |img| <= APP0_SIZE * SECTOR
    ensures SectorsOf(|img|) <= APP0_SIZE && |img| <= SectorsOf(|img|) * SECTOR
  {
  }

  lemma RunningIs(rom: Rom, d: Device, img: seq<Byte>)
    requires Boots(rom, d, img)
    ensures RunningImage(rom, d) == img
  {
  }

  // --- the old NVS ---

  /** NVS of a layout: from 0x9 to otadata, five sectors of the Arduino one and thirteen of the later ones. */
  predicate NvsKept(t: Table, mem: seq<Byte>, mem': seq<Byte>) {
    |mem| >= OtaSector(t) * SECTOR && SameAt(mem, mem', NVS * SECTOR, OtaSector(t) * SECTOR)
  }

  /** No operation of any plan comes near the old NVS. */
  lemma PlanSparesNvs(rom: Rom, d: Device, k: nat)
    requires Roomy(d)
    ensures NvsKept(d.table, d.mem, After(rom, d, k).mem)
  {
    var img := RunningImage(rom, d);
    match PlanOf(rom, d)
    case Stay =>
    case Move(ops) =>
      SectorsFew(img);
      MoveInZone(rom, d, img, if d.table == Arduino then OLD_APP1 else APP0, if d.table == Arduino then 1 else 0);
      SpareNvs(d.table, d.mem, ops, Least(k, |ops|), OtaSector(d.table), |d.mem|);
    case Finish(ops) =>
      SectorsFew(img);
      PrepareShape(rom, img);
      if d.table == Arduino {
        SpareNvs(d.table, d.mem, ops, Least(k, |ops|), OLD_APP0, APP0 + APP0_SIZE);
      }
  }

  lemma SpareNvs(t: Table, mem: seq<Byte>, ops: seq<Op>, k: nat, lo: nat, hi: nat)
    requires AllIn(ops, lo, hi) && OtaSector(t) <= lo && k <= |ops| && OtaSector(t) * SECTOR <= |mem|
    ensures NvsKept(t, mem, DoAll(mem, ops[..k]))
  {
    AllInPart(ops, k, lo, hi);
    OutsideKept(mem, ops[..k], lo, hi, NVS * SECTOR, OtaSector(t) * SECTOR);
  }

  lemma MoveInZone(rom: Rom, d: Device, img: seq<Byte>, to: nat, slot: nat)
    requires Roomy(d) && OtaSector(d.table) <= to && to + SectorsOf(|img|) <= |d.mem|
    ensures AllIn(MoveOps(rom, d, img, to, slot), OtaSector(d.table), |d.mem|)
  {
    var ota := OtaSector(d.table);
    var e0, e1 := EntryAt(rom, d.mem, ota), EntryAt(rom, d.mem, ota + 1);
    var (e, no) := Choice(e0, e1, slot);
    var a, b := CopyOps(img, to), SelectOps(rom, e0, e1, ota, slot);
    CopyRenews(img, to);
    EntryOpsIn(rom, ota + e, no, IMG_NEW);
    AllInWider(a, to, to + SectorsOf(|img|), OtaSector(d.table), |d.mem|);
    AllInWider(b, ota + e, ota + e + 1, OtaSector(d.table), |d.mem|);
    AllInConcat(a, b, OtaSector(d.table), |d.mem|);
  }

  lemma MoveRenews(rom: Rom, d: Device, img: seq<Byte>, to: nat, slot: nat)
    requires Roomy(d)
    ensures Renews(MoveOps(rom, d, img, to, slot))
  {
    var ota := OtaSector(d.table);
    var e0, e1 := EntryAt(rom, d.mem, ota), EntryAt(rom, d.mem, ota + 1);
    var (e, no) := Choice(e0, e1, slot);
    CopyRenews(img, to);
    EntryOpsIn(rom, ota + e, no, IMG_NEW);
    RenewsConcat(CopyOps(img, to), SelectOps(rom, e0, e1, ota, slot));
  }

  lemma NewOtaShape(rom: Rom)
    ensures AllIn(NewOtaOps(rom), OTA, OTA + 2) && Renews(NewOtaOps(rom))
  {
    var write := [Program(OTA * SECTOR, EntryBytes(rom, 1, IMG_VALID))];
    assert InZone(write[0], OTA, OTA + 2);
    EraseThenWrite(OTA, 2, write);
  }

  lemma ErasesShape(s: nat, n: nat)
    ensures AllIn(EraseOps(s, n), s, s + n) && Renews(EraseOps(s, n))
  {
    EraseThenWrite(s, n, []);
    assert EraseOps(s, n) + [] == EraseOps(s, n);
  }

  /** The preparation stays in the old app0, below the end of the new one, and renews all it touches. */
  lemma PrepareShape(rom: Rom, img: seq<Byte>)
    requires |img| <= APP0_SIZE * SECTOR
    ensures AllIn(PrepareOps(rom, img), OLD_APP0, APP0 + APP0_SIZE) && Renews(PrepareOps(rom, img))
  {
    SectorsFew(img);
    var lo, hi := OLD_APP0, APP0 + APP0_SIZE;
    var a, b, c, e := CopyOps(img, APP0), NewOtaOps(rom), EraseOps(PHY, 1), EraseOps(OLD_APP0, OTA - OLD_APP0);
    CopyRenews(img, APP0);
    NewOtaShape(rom);
    ErasesShape(PHY, 1);
    ErasesShape(OLD_APP0, OTA - OLD_APP0);
    AllInWider(a, APP0, APP0 + SectorsOf(|img|), lo, hi);
    AllInWider(b, OTA, OTA + 2, lo, hi);
    AllInWider(c, PHY, PHY + 1, lo, hi);
    AllInWider(e, OLD_APP0, OTA, lo, hi);
    AllInConcat(a, b, lo, hi);
    AllInConcat(a + b, c, lo, hi);
    AllInConcat(a + b + c, e, lo, hi);
    RenewsConcat(a, b);
    RenewsConcat(a + b, c);
    RenewsConcat(a + b + c, e);
  }
}
