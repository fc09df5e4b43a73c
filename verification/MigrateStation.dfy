/**
 * The code of bd_migrate.cpp on a flash it changes step by step, and the limit on attempts.
 * Every change is logged, and each method is proved to make those of its plan in that order.
 */
module MigrateStation {
  import opened Words
  import opened NorFlash
  import opened MigrateFlash
  import opened MigrateBoot
  import opened Migrate
  import opened MigrateRuns
  import opened MigrateEnd

  /** The check in front of prepare_new_layout: everything new lies in the old app0, clear of the running image. */
  predicate Fits(running: nat, len: nat) {
    && APP0 >= OLD_APP0 && APP0 + APP0_SIZE <= OLD_APP0 + OLD_APP_SIZE
    && OTA >= OLD_APP0 && OTA + 2 <= OLD_APP0 + OLD_APP_SIZE
    && len <= APP0_SIZE * SECTOR
    && !(APP0 * SECTOR < (running + OLD_APP_SIZE) * SECTOR && running * SECTOR < APP0 * SECTOR + len)
  }

  /** One change: a flash operation, the note for the first boot behind the move, the write of the partition table. */
  datatype Act = Flash(op: Op) | Note | Replace

  function Flashes(ops: seq<Op>): (acts: seq<Act>)
    ensures |acts| == |ops| && forall i {:trigger acts[i]} :: 0 <= i < |ops| ==> acts[i] == Flash(ops[i])
  {
    seq(|ops|, i requires 0 <= i < |ops| => Flash(ops[i]))
  }

  /** Flashes of more operations behind a log. */
  lemma LogFlashes(log: seq<Act>, a: seq<Op>, b: seq<Op>)
    ensures (log + Flashes(a)) + Flashes(b) == log + Flashes(a + b)
  {
  }

  lemma LogFinish(log: seq<Act>, ops: seq<Op>)
    ensures ((log + Flashes(ops)) + [Note]) + [Replace] == log + (Flashes(ops) + [Note, Replace])
    ensures ops == [] ==> log + Flashes(ops) == log
  {
  }

  /** The changes of a plan, in order. */
  function ActsOf(p: Plan): (acts: seq<Act>)
    ensures |acts| == Length(p)
  {
    match p
    case Stay => []
    case Move(ops) => Flashes(ops)
    case Finish(ops) => Flashes(ops) + [Note, Replace]
  }

  function Perform(d: Device, a: Act): Device {
    match a
    case Flash(op) => d.(mem := Do(d.mem, op))
    case Note => d.(noted := true)
    case Replace => d.(table := Current)
  }

  function PerformAll(d: Device, acts: seq<Act>): Device
    decreases |acts|
  {
    if acts == [] then d else PerformAll(Perform(d, acts[0]), acts[1..])
  }

  lemma {:induction false} FlashesPerformed(d: Device, ops: seq<Op>, rest: seq<Act>)
    ensures PerformAll(d, Flashes(ops) + rest) == PerformAll(d.(mem := DoAll(d.mem, ops)), rest)
    decreases |ops|
  {
    if ops == [] {
      assert Flashes(ops) + rest == rest;
    } else {
      assert (Flashes(ops) + rest)[1..] == Flashes(ops[1..]) + rest;
      FlashesPerformed(Perform(d, Flash(ops[0])), ops[1..], rest);
    }
  }

  /** A cut of the plan, as the proofs about whole runs take it, is a cut of this order of changes. */
  lemma CutOfActs(rom: Rom, d: Device, k: nat)
    requires Roomy(d) && k <= Length(PlanOf(rom, d))
    ensures PerformAll(d, ActsOf(PlanOf(rom, d))[..k]) == After(rom, d, k)
  {
    match PlanOf(rom, d)
    case Stay =>
    case Move(ops) =>
      assert Flashes(ops)[..k] == Flashes(ops[..k]) + [];
      FlashesPerformed(d, ops[..k], []);
    case Finish(ops) => CutOfFinish(d, ops, k);
  }

  lemma CutOfFinish(d: Device, ops: seq<Op>, k: nat)
    requires k <= |ops| + 2
    ensures PerformAll(d, (Flashes(ops) + [Note, Replace])[..k])
         == Device(DoAll(d.mem, ops[..Least(k, |ops|)]), if k > |ops| + 1 then Current else d.table, d.noted || k > |ops|)
  {
    var j := Least(k, |ops|);
    var rest := [Note, Replace][..k - j];
    assert (Flashes(ops) + [Note, Replace])[..k] == Flashes(ops[..j]) + rest;
    FlashesPerformed(d, ops[..j], rest);
    var d1 := d.(mem := DoAll(d.mem, ops[..j]));
    if k == |ops| + 1 {
      assert rest == [Note] && rest[1..] == [];
    } else if k == |ops| + 2 {
      assert rest == [Note, Replace] && rest[1..] == [Replace] && [Replace][1..] == [];
    }
  }

  class Station {
    var mem: seq<Byte>
    var table: Table
    var noted: bool
    /** What the primitives below did so far. */
    ghost var trace: seq<Act>

    ghost function Now(): Device
      reads this
    {
      Device(mem, table, noted)
    }

    method EraseSector(s: nat)
      modifies this`mem, this`trace
      ensures mem == Erased(old(mem), s) && trace == old(trace) + Flashes([Erase(s)])
    {
      mem := Erased(mem, s);
      trace := trace + Flashes([Erase(s)]);
    }

    method WriteAt(at: nat, data: seq<Byte>)
      modifies this`mem, this`trace
      ensures mem == Written(old(mem), at, data) && trace == old(trace) + Flashes([Program(at, data)])
    {
      mem := Written(mem, at, data);
      trace := trace + Flashes([Program(at, data)]);
    }

    method EraseRange(s: nat, n: nat)
      modifies this`mem, this`trace
      ensures mem == DoAll(old(mem), EraseOps(s, n)) && trace == old(trace) + Flashes(EraseOps(s, n))
    {
      assert EraseOps(s, 0) == [];
      for i := 0 to n
        invariant mem == DoAll(old(mem), EraseOps(s, i)) && trace == old(trace) + Flashes(EraseOps(s, i))
      {
        assert EraseOps(s, i + 1) == EraseOps(s, i) + [Erase(s + i)];
        DoConcat(old(mem), EraseOps(s, i), [Erase(s + i)]);
        LogFlashes(old(trace), EraseOps(s, i), [Erase(s + i)]);
        DoOne(mem, Erase(s + i));
        EraseSector(s + i);
      }
    }

    /** One chunk read from the image where it lies, and written. */
    method CopyChunk(src: nat, at: nat, off: nat, n: nat, ghost img: seq<Byte>)
      requires src + |img| <= |mem| && img == mem[src..src + |img|]
      requires off < |img| && n == (if |img| - off < CHUNK then |img| - off else CHUNK)
      requires src + |img| <= at + off || at + off + n <= src
      modifies this`mem, this`trace
      ensures mem == Written(old(mem), at + off, img[off..off + n]) && mem[src..src + |img|] == img
      ensures trace == old(trace) + Flashes([Program(at + off, img[off..off + n])])
    {
      var buf := mem[src + off..src + off + n];
      SliceOfSlice(mem, src, src + |img|, off, off + n);
      SliceKept(mem, Written(mem, at + off, buf), src, src + |img|, at + off, at + off + n);
      WriteAt(at + off, buf);
    }

    method CopyChunks(src: nat, at: nat, len: nat, ghost img: seq<Byte>)
      requires src + len <= |mem| && img == mem[src..src + len] && |img| == len
      requires src + len <= at || at + len <= src
      modifies this`mem, this`trace
      ensures mem == DoAll(old(mem), WriteOps(img, at, 0)) && trace == old(trace) + Flashes(WriteOps(img, at, 0))
    {
      ghost var start := mem;
      var off := 0;
      while off < len
        invariant 0 <= off && |mem| == |start| && mem[src..src + len] == img
        invariant DoAll(mem, WriteOps(img, at, off)) == DoAll(start, WriteOps(img, at, 0))
        invariant trace + Flashes(WriteOps(img, at, off)) == old(trace) + Flashes(WriteOps(img, at, 0))
      {
        var n := if len - off < CHUNK then len - off else CHUNK;
        FirstWrite(mem, img, at, off, n);
        LogFlashes(trace, [Program(at + off, img[off..off + n])], WriteOps(img, at, off + CHUNK));
        CopyChunk(src, at, off, n, img);
        off := off + CHUNK;
      }
    }

    /** Copies an image to sectors it does not reach into. */
    method CopyImage(from: nat, len: nat, to: nat)
      requires from * SECTOR + len <= |mem|
      requires from + SectorsOf(len) <= to || to + SectorsOf(len) <= from
      modifies this`mem, this`trace
      ensures var ops := CopyOps(old(mem[from * SECTOR..from * SECTOR + len]), to);
        mem == DoAll(old(mem), ops) && trace == old(trace) + Flashes(ops)
    {
      var src, at := from * SECTOR, to * SECTOR;
      ghost var img, start := mem[src..src + len], mem;
      EraseRange(to, SectorsOf(len));
      ErasesShape(to, SectorsOf(len));
      OutsideKept(start, EraseOps(to, SectorsOf(len)), to, to + SectorsOf(len), src, src + len);
      CopyChunks(src, at, len, img);
      DoConcat(start, EraseOps(to, SectorsOf(len)), WriteOps(img, at, 0));
      LogFlashes(old(trace), EraseOps(to, SectorsOf(len)), WriteOps(img, at, 0));
    }

    /** esp_ota_set_boot_partition */
    method Select(rom: Rom, ota: nat, slot: nat)
      requires (ota + 2) * SECTOR <= |mem|
      modifies this`mem, this`trace
      ensures var ops := SelectOps(rom, EntryAt(rom, old(mem), ota), EntryAt(rom, old(mem), ota + 1), ota, slot);
        mem == DoAll(old(mem), ops) && trace == old(trace) + Flashes(ops)
    {
      var (e, no) := Choice(EntryAt(rom, mem, ota), EntryAt(rom, mem, ota + 1), slot);
      TwoOps(mem, Erase(ota + e), Program((ota + e) * SECTOR, EntryBytes(rom, no, IMG_NEW)));
      LogFlashes(trace, [Erase(ota + e)], [Program((ota + e) * SECTOR, EntryBytes(rom, no, IMG_NEW))]);
      EraseSector(ota + e);
      WriteAt((ota + e) * SECTOR, EntryBytes(rom, no, IMG_NEW));
    }

    /** copy_self_to_other_slot */
    method CopySelf(rom: Rom, from: nat, len: nat, to: nat, slot: nat, ghost img: seq<Byte>)
      requires Roomy(Now()) && from * SECTOR + len <= |mem| && img == mem[from * SECTOR..from * SECTOR + len]
      requires Apart(mem, from, to, OtaSector(table), SectorsOf(len))
      modifies this`mem, this`trace
      ensures var ops := MoveOps(rom, old(Now()), img, to, slot);
        mem == DoAll(old(mem), ops) && trace == old(trace) + Flashes(ops)
    {
      ghost var start, ota := mem, OtaSector(table);
      CopyImage(from, len, to);
      CopyDone(rom, start, img, from, to, ota, mem);
      ghost var select := SelectOps(rom, EntryAt(rom, start, ota), EntryAt(rom, start, ota + 1), ota, slot);
      DoConcat(start, CopyOps(img, to), select);
      LogFlashes(old(trace), CopyOps(img, to), select);
      Select(rom, OtaSector(table), slot);
    }

    /** otadata for the first slot. */
    method WriteNewOta(rom: Rom)
      modifies this`mem, this`trace
      ensures mem == DoAll(old(mem), NewOtaOps(rom)) && trace == old(trace) + Flashes(NewOtaOps(rom))
    {
      ghost var write := Program(OTA * SECTOR, EntryBytes(rom, 1, IMG_VALID));
      DoConcat(mem, EraseOps(OTA, 2), [write]);
      LogFlashes(trace, EraseOps(OTA, 2), [write]);
      EraseRange(OTA, 2);
      DoOne(mem, write);
      WriteAt(OTA * SECTOR, EntryBytes(rom, 1, IMG_VALID));
    }

    /** prepare_new_layout */
    method Prepare(rom: Rom, from: nat, len: nat, ghost img: seq<Byte>) returns (ok: bool)
      requires Sound(rom) && from == OLD_APP1 && (OLD_APP1 + OLD_APP_SIZE) * SECTOR <= |mem|
      requires len == |img| && Holds(rom, mem, OLD_APP1, OLD_APP_SIZE, img) && len <= APP0_SIZE * SECTOR
      modifies this`mem, this`trace
      ensures ok && mem == DoAll(old(mem), PrepareOps(rom, img)) && trace == old(trace) + Flashes(PrepareOps(rom, img))
    {
      if !Fits(from, len) {
        return false;
      }
      ghost var start := mem;
      SectorsFew(img);
      CopyImage(from, len, APP0);
      CopyStores(start, img, APP0);
      HoldsAgain(rom, start, OLD_APP1, OLD_APP_SIZE, img, mem, APP0, APP0_SIZE);
      if rom.verify(mem[APP0 * SECTOR..(APP0 + APP0_SIZE) * SECTOR]) != len {
        return false;
      }
      WriteNewOta(rom);
      EraseRange(PHY, 1);
      EraseRange(OLD_APP0, OTA - OLD_APP0);
      PreparedLog(rom, old(trace), img);
      PreparedBy(rom, start, img);
      ok := true;
    }

    method NoteDone()
      modifies this`noted, this`trace
      ensures noted && trace == old(trace) + [Note]
    {
      noted := true;
      trace := trace + [Note];
    }

    method ReplaceTable()
      modifies this`table, this`trace
      ensures table == Current && trace == old(trace) + [Replace]
    {
      table := Current;
      trace := trace + [Replace];
    }

    method MoveStage(rom: Rom, from: nat, len: nat, slot: nat, ghost img: seq<Byte>)
      requires Roomy(Now()) && Ready(rom, Now(), img) && PlanOf(rom, Now()).Move? && slot == Running(rom, Now())
      requires from == Base(table, slot) && len == |img|
      modifies this`mem, this`trace
      ensures Now() == Completed(rom, old(Now())) && trace == old(trace) + ActsOf(old(PlanOf(rom, Now())))
    {
      ghost var start := Now();
      var to := Target(table);
      MovePlan(rom, start, img, 1 - slot);
      WholeMove(rom, start, MoveOps(rom, start, img, to, 1 - slot));
      CopySelf(rom, from, len, to, 1 - slot, img);
    }

    method FinishStage(rom: Rom, from: nat, len: nat, ghost img: seq<Byte>) returns (ok: bool)
      requires Roomy(Now()) && Ready(rom, Now(), img) && PlanOf(rom, Now()).Finish?
      requires from == Base(table, Running(rom, Now())) && len == |img|
      modifies this
      ensures ok && Now() == Completed(rom, old(Now())) && trace == old(trace) + ActsOf(old(PlanOf(rom, Now())))
    {
      ghost var start := Now();
      FinishPlan(rom, start, img);
      WholeFinish(rom, start, PlanOf(rom, start).ops);
      if table == Arduino {
        ok := Prepare(rom, from, len, img);
        if !ok {
          return;
        }
      }
      LogFinish(old(trace), PlanOf(rom, start).ops);
      NoteDone();
      ReplaceTable();
      ok := true;
    }

    /** bd_migrate_layout_if_needed, once attempts are left: one stage, after which the station restarts. */
    method Migrate(rom: Rom, ghost img: seq<Byte>) returns (restart: bool)
      requires Roomy(Now()) && (table == Current || Ready(rom, Now(), img))
      modifies this
      ensures Now() == Completed(rom, old(Now())) && (restart <==> old(table) != Current)
      ensures trace == old(trace) + ActsOf(old(PlanOf(rom, Now())))
    {
      if table == Current {
        return false;
      }
      RunningIs(rom, Now(), img);
      HasPlan(rom, Now(), img);
      var slot := BootSlot(rom, mem, OtaSector(table));
      var from := Base(table, slot);
      var len := rom.verify(mem[from * SECTOR..(from + Size(table)) * SECTOR]);
      if len == 0 || len > APP0_SIZE * SECTOR {
        return false;
      }
      restart := true;
      if (table == Arduino && slot == 0) || (table == FirstIdf && slot == 1) {
        MoveStage(rom, from, len, slot, img);
      } else {
        restart := FinishStage(rom, from, len, img);
      }
    }
  }

  lemma WholeMove(rom: Rom, d: Device, ops: seq<Op>)
    requires Roomy(d) && PlanOf(rom, d) == Move(ops)
    ensures Completed(rom, d) == d.(mem := DoAll(d.mem, ops))
  {
    assert ops[..|ops|] == ops;
  }

  lemma WholeFinish(rom: Rom, d: Device, ops: seq<Op>)
    requires Roomy(d) && PlanOf(rom, d) == Finish(ops)
    ensures Completed(rom, d) == Device(DoAll(d.mem, ops), Current, true)
  {
    assert ops[..|ops|] == ops;
  }

  lemma PreparedBy(rom: Rom, mem: seq<Byte>, img: seq<Byte>)
    ensures var a, b, c, e := CopyOps(img, APP0), NewOtaOps(rom), EraseOps(PHY, 1), EraseOps(OLD_APP0, OTA - OLD_APP0);
      DoAll(mem, PrepareOps(rom, img)) == DoAll(DoAll(DoAll(DoAll(mem, a), b), c), e)
  {
    var a, b, c, e := CopyOps(img, APP0), NewOtaOps(rom), EraseOps(PHY, 1), EraseOps(OLD_APP0, OTA - OLD_APP0);
    DoConcat(mem, a, b);
    DoConcat(mem, a + b, c);
    DoConcat(mem, a + b + c, e);
  }

  lemma PreparedLog(rom: Rom, log: seq<Act>, img: seq<Byte>)
    ensures var a, b, c, e := CopyOps(img, APP0), NewOtaOps(rom), EraseOps(PHY, 1), EraseOps(OLD_APP0, OTA - OLD_APP0);
      log + Flashes(PrepareOps(rom, img)) == (((log + Flashes(a)) + Flashes(b)) + Flashes(c)) + Flashes(e)
  {
    var a, b, c, e := CopyOps(img, APP0), NewOtaOps(rom), EraseOps(PHY, 1), EraseOps(OLD_APP0, OTA - OLD_APP0);
    LogFlashes(log, a, b);
    LogFlashes(log, a + b, c);
    LogFlashes(log, a + b + c, e);
  }

  // --- attempts ---

  const ATTEMPT_MAGIC: nat := 0xB0EEB0EE
  const MAX_ATTEMPTS := 3

  /** Memory that outlives restarts but not power. */
  class RtcMemory {
    var magic: nat
    var attempts: nat

    /** Whether this boot may try a stage. */
    method Permit(oldLayout: bool) returns (go: bool)
      modifies this
      ensures (magic, attempts, go) == Permitted(old(magic), old(attempts), oldLayout)
    {
      if !oldLayout {
        magic := 0;
        return false;
      }
      if magic != ATTEMPT_MAGIC {
        magic := ATTEMPT_MAGIC;
        attempts := 0;
      }
      attempts := Wrap(attempts + 1);
      return attempts <= MAX_ATTEMPTS;
    }
  }

  function Permitted(magic: nat, attempts: nat, oldLayout: bool): (nat, nat, bool) {
    if !oldLayout then (0, attempts, false)
    else
      var n := Wrap((if magic == ATTEMPT_MAGIC then attempts else 0) + 1);
      (ATTEMPT_MAGIC, n, n <= MAX_ATTEMPTS)
  }

  /** How many boots of a power cycle try a stage, and so at most how often the migration restarts the station. */
  function Tries(magic: nat, attempts: nat, boots: seq<bool>): nat
    decreases |boots|
  {
    if boots == [] then 0
    else
      var (m, a, go) := Permitted(magic, attempts, boots[0]);
      Tries(m, a, boots[1..]) + if go then 1 else 0
  }

  /** The station never goes back to an old layout. */
  predicate Forward(boots: seq<bool>) {
    forall i, j :: 0 <= i < j < |boots| && boots[j] ==> boots[i]
  }

  lemma {:induction false} NoneLater(magic: nat, attempts: nat, boots: seq<bool>)
    requires forall i :: 0 <= i < |boots| ==> !boots[i]
    ensures Tries(magic, attempts, boots) == 0 && OldBoots(boots) == 0
    decreases |boots|
  {
    if boots != [] {
      NoneLater(0, attempts, boots[1..]);
    }
  }

  /** The boots before the new layout. */
  function OldBoots(boots: seq<bool>): nat
    decreases |boots|
  {
    if boots == [] || !boots[0] then 0 else 1 + OldBoots(boots[1..])
  }

  /** How many of the values 1 to n of the counter permit a stage; in 32 bits it passes through 0 to 3 again and again. */
  function Permits(n: nat): nat {
    if n == 0 then 0 else Permits(n - 1) + if Wrap(n) <= MAX_ATTEMPTS then 1 else 0
  }

  lemma {:induction false} PermitsOrder(a: nat, b: nat)
    requires a <= b
    ensures Permits(a) <= Permits(b)
    decreases b
  {
    if a < b {
      PermitsOrder(a, b - 1);
    }
  }

  lemma {:induction false} FirstPermits(n: nat)
    requires n < U32
    ensures Permits(n) == if n < MAX_ATTEMPTS then n else MAX_ATTEMPTS
  {
    SmallRemainder(n, U32);
    if n > 0 {
      FirstPermits(n - 1);
    }
  }

  lemma {:induction false} NextPermits(k: nat)
    requires k < U32
    ensures Permits(U32 + k) == MAX_ATTEMPTS + if k < MAX_ATTEMPTS then k + 1 else MAX_ATTEMPTS + 1
  {
    ModShift(k, 1, U32);
    SmallRemainder(k, U32);
    if k > 0 {
      NextPermits(k - 1);
    } else {
      FirstPermits(U32 - 1);
    }
  }

  lemma {:induction false} TriesAre(attempts: nat, count: nat, boots: seq<bool>)
    requires Forward(boots) && Wrap(count) == attempts
    ensures Tries(ATTEMPT_MAGIC, attempts, boots) == Permits(count + OldBoots(boots)) - Permits(count)
    decreases |boots|
  {
    if boots != [] {
      if boots[0] {
        WrapAdd(count, 1);
        TriesAre(Wrap(attempts + 1), count + 1, boots[1..]);
      } else {
        NoneLater(ATTEMPT_MAGIC, attempts, boots);
      }
    }
  }

  /** More than three permits between these counts, exactly when a whole round of the counter or 0 to 3 is among them. */
  lemma PermitsBetween(a: nat, n: nat)
    requires a < U32
    ensures Permits(a + n) - Permits(a) <= MAX_ATTEMPTS <==> n < U32 && a + n < U32 + MAX_ATTEMPTS
  {
    FirstPermits(a);
    if a + n < U32 {
      FirstPermits(a + n);
    } else if a + n < 2 * U32 {
      NextPermits(a + n - U32);
    } else {
      NextPermits(U32 - 1);
      PermitsOrder(2 * U32 - 1, a + n);
    }
  }

  /** However its stages fail, a station tries at most three in a power cycle: exactly for those cycles in which the
   *  counter, from what the memory held at first, does not come round to three. */
  lemma AtMostThree(magic: nat, attempts: nat, boots: seq<bool>)
    requires attempts < U32 && Forward(boots)
    ensures Tries(magic, attempts, boots) <= MAX_ATTEMPTS <==>
            OldBoots(boots) < U32 && (if magic == ATTEMPT_MAGIC then attempts else 0) + OldBoots(boots) < U32 + MAX_ATTEMPTS
  {
    var first := if magic == ATTEMPT_MAGIC then attempts else 0;
    if boots != [] && boots[0] {
      assert Tries(magic, attempts, boots) == Tries(ATTEMPT_MAGIC, first, boots);
    } else {
      NoneLater(magic, attempts, boots);
      NoneLater(ATTEMPT_MAGIC, first, boots);
    }
    SmallRemainder(first, U32);
    TriesAre(first, first, boots);
    PermitsBetween(first, OldBoots(boots));
  }

  /** Such a start: the magic word and a full counter by chance, and four boots in the old layout try four stages. */
  lemma FourTries()
    ensures Tries(ATTEMPT_MAGIC, U32 - 1, [true, true, true, true]) == 4
  {
    var boots := [true, true, true, true];
    assert boots[1..] == [true, true, true] && [true, true, true][1..] == [true, true];
    assert [true, true][1..] == [true] && [true][1..] == [];
  }
}
