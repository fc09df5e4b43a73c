/** What the bootloader makes of the flash: which slot it boots, and whether an image in a slot is whole. */
module MigrateBoot {
  import opened Words
  import opened NorFlash
  import opened FwHeaders
  import opened MigrateFlash

  /** What the boot ROM and loader compute: the checksum of a sequence number, how an entry of otadata reads, and the
   *  length of the verified image at the start of some bytes, 0 if there is none. */
  datatype Rom = Rom(crc: seq<Byte> -> nat, entry: seq<Byte> -> Entry, verify: seq<Byte> -> nat)

  ghost predicate Sound(rom: Rom) {
    && (forall b {:trigger ReadEntry(rom.crc, b)} :: |b| == ENTRY ==> rom.entry(b) == ReadEntry(rom.crc, b))
    && OwnBytesDecide(rom.verify)
  }

  /** An image carries its own length and digest. */
  ghost predicate OwnBytesDecide(verify: seq<Byte> -> nat) {
    forall a, b {:trigger verify(a), verify(b)} ::
      verify(a) > 0 ==>
        && verify(a) <= |a|
        && (verify(a) <= |b| && b[..verify(a)] == a[..verify(a)] ==> verify(b) == verify(a))
  }

  /** There are such loaders: here an image is as long as its first byte says. */
  lemma SomeRomIsSound(crc: seq<Byte> -> nat)
    ensures Sound(Rom(crc, b => if |b| == ENTRY then ReadEntry(crc, b) else NoEntry,
                      b => if |b| > 0 && b[0] <= |b| then b[0] else 0))
  {
  }

  // --- otadata: one entry at the start of each of two sectors ---

  const NO_SEQ: nat := 0xFFFF_FFFF
  const CRC_OFFSET := 28
  const ENTRY := 32

  datatype Entry = NoEntry | Numbered(no: nat)

  function ReadEntry(crc: seq<Byte> -> nat, b: seq<Byte>): Entry
    requires |b| == ENTRY
  {
    var no := Un32(b[..4]);
    if no != NO_SEQ && Un32(b[CRC_OFFSET..]) == Wrap(crc(b[..4])) then Numbered(no) else NoEntry
  }

  function EntryAt(rom: Rom, mem: seq<Byte>, s: nat): Entry
    requires (s + 1) * SECTOR <= |mem|
  {
    rom.entry(mem[s * SECTOR..s * SECTOR + ENTRY])
  }

  /** The entry in force: the one with the higher number. */
  function Active(e0: Entry, e1: Entry): (a: int)
    ensures -1 <= a <= 1
  {
    if e0.Numbered? && e1.Numbered? then (if e1.no > e0.no then 1 else 0)
    else if e0.Numbered? then 0 else if e1.Numbered? then 1 else -1
  }

  function SlotOf(e0: Entry, e1: Entry): (slot: nat)
    ensures slot < 2
  {
    if e0.NoEntry? && e1.NoEntry? then 0
    else Wrap((if Active(e0, e1) == 0 then e0.no else e1.no) - 1) % 2
  }

  function BootSlot(rom: Rom, mem: seq<Byte>, ota: nat): (slot: nat)
    requires (ota + 2) * SECTOR <= |mem|
    ensures slot < 2
  {
    SlotOf(EntryAt(rom, mem, ota), EntryAt(rom, mem, ota + 1))
  }

  function EntryBytes(rom: Rom, no: nat, state: nat): (b: seq<Byte>)
    ensures |b| == ENTRY
  {
    Le32(no) + seq(20, _ => BLANK) + Le32(state) + Le32(Wrap(rom.crc(Le32(no))))
  }

  const IMG_NEW := 0
  const IMG_VALID := 2

  /** esp_ota_set_boot_partition: the entry not in force is erased and takes the next number. */
  function Choice(e0: Entry, e1: Entry, slot: nat): (r: (nat, nat))
    ensures r.0 < 2
  {
    var a := Active(e0, e1);
    if a < 0 then (0, slot + 1) else if a == 0 then (1, e0.no + 1) else (0, e1.no + 1)
  }

  function WriteEntry(rom: Rom, s: nat, no: nat, state: nat): (ops: seq<Op>)
    ensures |ops| == 2
  {
    [Erase(s), Program(s * SECTOR, EntryBytes(rom, no, state))]
  }

  function SelectOps(rom: Rom, e0: Entry, e1: Entry, ota: nat, slot: nat): (ops: seq<Op>)
    ensures |ops| == 2
  {
    var (e, no) := Choice(e0, e1, slot);
    WriteEntry(rom, ota + e, no, IMG_NEW)
  }

  lemma EntryKept(rom: Rom, mem: seq<Byte>, mem': seq<Byte>, s: nat)
    requires (s + 1) * SECTOR <= |mem| && SameAt(mem, mem', s * SECTOR, (s + 1) * SECTOR)
    ensures EntryAt(rom, mem', s) == EntryAt(rom, mem, s)
  {
    var lo := s * SECTOR;
    SliceOfSlice(mem, lo, lo + SECTOR, 0, ENTRY);
    SliceOfSlice(mem', lo, lo + SECTOR, 0, ENTRY);
  }

  /** Changes inside one sector leave the entry of another. */
  lemma OtherEntry(rom: Rom, mem: seq<Byte>, mem': seq<Byte>, s: nat, other: nat)
    requires (other + 1) * SECTOR <= |mem| && other != s && |mem'| == |mem|
    requires forall i {:trigger mem'[i]} :: 0 <= i < |mem| && !(s * SECTOR <= i < (s + 1) * SECTOR) ==> mem'[i] == mem[i]
    ensures EntryAt(rom, mem', other) == EntryAt(rom, mem, other)
  {
    SliceKept(mem, mem', other * SECTOR, other * SECTOR + ENTRY, s * SECTOR, (s + 1) * SECTOR);
  }

  lemma EntryErased(rom: Rom, mem: seq<Byte>, s: nat, mem': seq<Byte>)
    requires Sound(rom) && (s + 1) * SECTOR <= |mem| && mem' == Erased(mem, s)
    ensures EntryAt(rom, mem', s) == NoEntry
  {
    var b := mem'[s * SECTOR..s * SECTOR + ENTRY];
    assert b[..4] == [BLANK, BLANK, BLANK, BLANK];
    assert ReadEntry(rom.crc, b) == NoEntry;
  }

  lemma EntryReads(rom: Rom, no: nat, state: nat)
    requires Sound(rom) && no < NO_SEQ && state < U32
    ensures rom.entry(EntryBytes(rom, no, state)) == Numbered(no)
  {
    var b, crc := EntryBytes(rom, no, state), Wrap(rom.crc(Le32(no)));
    assert b[..4] == Le32(no) && b[CRC_OFFSET..] == Le32(crc);
    Un32Le(no);
    Un32Le(crc);
    assert ReadEntry(rom.crc, b) == Numbered(no);
  }

  lemma EntryWritten(rom: Rom, mem: seq<Byte>, s: nat, b: seq<Byte>, mem': seq<Byte>)
    requires (s + 1) * SECTOR <= |mem| && |b| == ENTRY
    requires BlankFrom(mem, s * SECTOR, s * SECTOR + ENTRY) && mem' == Written(mem, s * SECTOR, b)
    ensures EntryAt(rom, mem', s) == rom.entry(b)
  {
    WriteOnBlank(mem, s * SECTOR, b);
  }

  lemma EntryOpsIn(rom: Rom, s: nat, no: nat, state: nat)
    ensures AllIn(WriteEntry(rom, s, no, state), s, s + 1) && Renews(WriteEntry(rom, s, no, state))
  {
    var write := [Program(s * SECTOR, EntryBytes(rom, no, state))];
    assert InZone(write[0], s, s + 1);
    EraseThenWrite(s, 1, write);
    assert EraseOps(s, 1) == [Erase(s)];
    assert EraseOps(s, 1) + write == WriteEntry(rom, s, no, state);
  }

  /** The bootloader goes on as before while the entry not in force is erased. */
  lemma ErasedChoice(e0: Entry, e1: Entry, slot: nat)
    ensures var e := Choice(e0, e1, slot).0;
      var f0, f1 := if e == 0 then NoEntry else e0, if e == 1 then NoEntry else e1;
      SlotOf(f0, f1) == SlotOf(e0, e1) && Choice(f0, f1, slot) == Choice(e0, e1, slot)
  {
  }

  /** Once the entry is written, the other slot is booted. */
  lemma WrittenChoice(e0: Entry, e1: Entry, slot: nat)
    requires slot < 2 && slot != SlotOf(e0, e1)
    ensures var (e, no) := Choice(e0, e1, slot);
      SlotOf(if e == 0 then Numbered(no) else e0, if e == 1 then Numbered(no) else e1) == slot
      || no >= NO_SEQ
  {
    var no := Choice(e0, e1, slot).1;
    if 0 < no < NO_SEQ {
      OneOn(no - 1);
    }
  }

  lemma OneOn(q: nat)
    requires q < NO_SEQ
    ensures Wrap(q) % 2 == 1 - Wrap(q - 1) % 2
  {
    if q == 0 {
      SmallRemainder(-1, U32);
    } else {
      SmallRemainder(q - 1, U32);
    }
    SmallRemainder(q, U32);
  }

  // --- images ---

  /** A verified image with these bytes lies at sector `base`, in a slot of `size` sectors. */
  ghost predicate Holds(rom: Rom, mem: seq<Byte>, base: nat, size: nat, img: seq<Byte>) {
    && (base + size) * SECTOR <= |mem| && 0 < |img| <= size * SECTOR
    && rom.verify(mem[base * SECTOR..(base + size) * SECTOR]) == |img|
    && mem[base * SECTOR..base * SECTOR + |img|] == img
  }

  /** The same bytes in any slot with room verify again. */
  lemma HoldsAgain(rom: Rom, mem: seq<Byte>, base: nat, size: nat, img: seq<Byte>,
                   mem': seq<Byte>, base': nat, size': nat)
    requires Sound(rom) && Holds(rom, mem, base, size, img)
    requires (base' + size') * SECTOR <= |mem'| && |img| <= size' * SECTOR
    requires mem'[base' * SECTOR..base' * SECTOR + |img|] == img
    ensures Holds(rom, mem', base', size', img)
  {
    var a, b := mem[base * SECTOR..(base + size) * SECTOR], mem'[base' * SECTOR..(base' + size') * SECTOR];
    assert a[..|img|] == mem[base * SECTOR..base * SECTOR + |img|];
    assert b[..|img|] == mem'[base' * SECTOR..base' * SECTOR + |img|];
    assert rom.verify(a) == |img|;
    assert rom.verify(b) == rom.verify(a);
  }
}
