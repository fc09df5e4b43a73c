/** Sending an image from the flash store: streamFirmware of ota_gs.cpp. */
module OtaStream {
  import opened Words
  import opened NorFlash
  import opened FwHeaders
  import opened FwCatalog
  import opened FwStore
  import opened OtaTransfer

  lemma ImageSmall(c: Chip, mem: seq<Byte>, cat: Catalog, s: nat)
    requires Represents(c, mem, cat) && s in cat
    ensures |cat[s].data| < U32
  {
    assert Stored(c, mem, s, cat[s]);
  }

  /** A chunk as it lies in the store; the read may also fail in the driver. */
  method ReadChunk(store: FlashStore, s: nat, size: nat, sent: nat, want: nat, ghost cat: Catalog)
    returns (ok: bool, data: seq<Byte>)
    requires ChipOk(store.c) && Represents(store.c, store.flash[..], cat) && s in cat && |cat[s].data| == size
    requires sent + want <= size < U32
    ensures ok ==> data == cat[s].data[sent..sent + want]
  {
    ok, data := store.Read(s, size, sent, want, cat);
    var fault: bool := *;
    ok := ok && !fault;
  }

  /** The body of the loop: one chunk read, sent and recorded. */
  method StreamChunk(store: FlashStore, s: nat, size: nat, chunk: nat, start: nat, no: nat, sent: nat, ch: Channel,
                     stats: Statistics, ghost cat: Catalog, ghost base: seq<Attempt>, ghost log0: seq<Attempt>, ghost before: Lists)
    returns (ok: bool, ghost log: seq<Attempt>)
    requires ChipOk(store.c) && Represents(store.c, store.flash[..], cat) && s in cat && |cat[s].data| == size
    requires MIN_CHUNK <= chunk <= MAX_CHUNK && sent < size
    requires ch.log == base + log0 && Between(cat[s].data, chunk, start, log0, no, sent) && Kept(before, stats.All(), AccountOf(log0))
    modifies ch, stats
    ensures ch.log == base + log && Kept(before, stats.All(), AccountOf(log))
    ensures InOrder(log, cat[s].data, chunk, start) && Counted(size, chunk, start, |Acknowledged(log)|, false)
    ensures ok ==> Between(cat[s].data, chunk, start, log, (no + 1) % U16, sent + Least(chunk, size - sent))
  {
    ghost var image := cat[s].data;
    log := log0;
    StillCounted(size, chunk, start, |Acknowledged(log0)|, sent);
    ImageSmall(store.c, store.flash[..], cat, s);
    var want := Least(chunk, size - sent);
    var data;
    ok, data := ReadChunk(store, s, size, sent, want, cat);
    if !ok {
      return;
    }
    var p := Packet(no, data);
    var o, tries := SendChunk(ch, p);
    log := log0 + tries;
    ChunkDone(image, chunk, start, no, sent, p, o, tries, log0, log);
    NextReport(before, stats.All(), AccountOf(log0), p, o, |tries|);
    stats.Record(o);
    ok := o.Accepted?;
  }

  /** streamFirmware: `log` are the attempts made for the image that lies at sector s of the store, from chunk `start` on. */
  method Stream(store: FlashStore, s: nat, size: nat, chunk: nat, start: nat, ch: Channel, stats: Statistics,
                ghost cat: Catalog) returns (ok: bool, ghost log: seq<Attempt>)
    requires ChipOk(store.c) && Represents(store.c, store.flash[..], cat) && s in cat && |cat[s].data| == size
    requires MIN_CHUNK <= chunk <= MAX_CHUNK && start < U16
    modifies ch, stats
    ensures ch.log == old(ch.log) + log && InOrder(log, cat[s].data, chunk, start)
    ensures Counted(size, chunk, start, |Acknowledged(log)|, ok) && (ok ==> AccountOf(log).tries == 0)
    ensures Kept(old(stats.All()), stats.All(), AccountOf(log))
  {
    ghost var image := cat[s].data;
    log := [];
    var seq_: nat, sent: nat := start, start * chunk;
    Start(image, chunk, start, stats.All());
    while sent < size
      invariant ch.log == old(ch.log) + log && Between(image, chunk, start, log, seq_, sent)
      invariant Kept(old(stats.All()), stats.All(), AccountOf(log))
      decreases size - sent
    {
      ok, log := StreamChunk(store, s, size, chunk, start, seq_, sent, ch, stats, cat, old(ch.log), log,
                             old(stats.All()));
      if !ok {
        return;
      }
      sent := sent + Least(chunk, size - sent);
      seq_ := (seq_ + 1) % U16;
    }
    ok := sent == size;
    StreamEnds(image, chunk, start, log, seq_, sent);
  }
}
