/** An update from end to end (ota_gs.cpp): the image from the flash store or the download, then over the air. */
module OtaSession {
  import opened Words
  import opened NorFlash
  import opened FwHeaders
  import opened FwCatalog
  import opened FwScan
  import opened FwCalls
  import opened FwRuns
  import opened FwStore
  import OtaPreload
  import OtaTransfer
  import OtaStream

  /** The check against the 16-bit capacity the sensor announces keeps sizes far from those whose sectors wrap. */
  lemma AdmittedSizeOk(size: nat, capacityKb: nat)
    requires capacityKb < 0x1_0000 && size <= capacityKb * 1024
    ensures SizeOk(size) && SectorsFor(size) * SECTOR >= DATA_OFFSET + size
  {
    SectorsForExact(size);
  }

  /** The image asked for lies at this place: of the right size and digest, stored before or else downloaded now. */
  ghost predicate Obtained(c: Chip, cat: Catalog, cat': Catalog, s: nat, size: nat, sha: seq<Byte>, body: seq<Byte>) {
    && s in cat' && |cat'[s].data| == size && c.sha(cat'[s].data) == sha
    && ((s in cat && cat'[s] == cat[s]) || (size <= |body| && cat'[s].data == body[..size]))
  }

  /** obtainFirmwareImage: find, else begin, download and finish. `body` is what the server sends. */
  method Obtain(store: FlashStore, w: FlashWriter, size: nat, sha: seq<Byte>, name: seq<Byte>, body: seq<Byte>, patience: nat,
                ghost st: State, ghost cat: Catalog)
    returns (f: Found, ghost st': State, ghost cat': Catalog)
    requires ChipOk(store.c) && store.Shows(st) && Represents(store.c, st.mem, cat)
    requires SizeOk(size) && |sha| == SHA_BYTES && OtaPreload.QuietAlong(store.c, body)
    modifies store`uses, store`counter, store`trace, store.flash, w
    ensures store.Shows(st') && Represents(store.c, st'.mem, cat')
    ensures f.FoundAt? ==> Obtained(store.c, cat, cat', f.sector, size, sha, body)
  {
    FindExact(store.c, st, cat, sha, size);
    f := store.FindImage(sha, size, st, cat);
    ghost var ops := FindOps(store.c, st, Scan(store.c, st.mem), sha, size).0;
    st', cat' := DoAll(st, ops), TrackAll(st, cat, ops);
    if f.FoundAt? {
      return;
    }
    f, st', cat' := Fetch(store, w, size, sha, name, body, patience, st', cat');
  }

  /** The image is not there: a place for it, the download, and the header. */
  method Fetch(store: FlashStore, w: FlashWriter, size: nat, sha: seq<Byte>, name: seq<Byte>, body: seq<Byte>, patience: nat,
               ghost st: State, ghost cat: Catalog)
    returns (f: Found, ghost st': State, ghost cat': Catalog)
    requires ChipOk(store.c) && store.Shows(st) && Represents(store.c, st.mem, cat)
    requires SizeOk(size) && |sha| == SHA_BYTES && OtaPreload.QuietAlong(store.c, body)
    modifies store`uses, store`counter, store`trace, store.flash, w
    ensures store.Shows(st') && Represents(store.c, st'.mem, cat')
    ensures f.FoundAt? ==> f.sector in cat' && size <= |body| && cat'[f.sector].data == body[..size]
                           && store.c.sha(body[..size]) == sha
  {
    BeginSafe(store.c, st, cat, size);
    ghost var (ops, p) := BeginOps(store.c, st, size);
    f, st', cat' := Missing, DoAll(st, ops), TrackAll(st, cat, ops);
    SafePrefix(store.c, st, cat, ops, |ops|);
    assert ops[..|ops|] == ops;
    var ok := store.Begin(size, w, st, cat);
    var online: bool := *;
    if !ok || !online {
      return;
    }
    ghost var wr := Writer(p.sector, size, []);
    assert body[..0] == [];
    var received;
    ok, received, st' := OtaPreload.Download(store, w, size, sha, name, body, patience, st', cat', wr);
    if ok {
      cat' := cat'[wr.sector := Image(sha, NameField(name), body[..size])];
      f := FoundAt(w.sector);
    }
  }

  /** What a successful update has sent: an image of the size and digest announced, in as many chunks as it has. */
  ghost predicate Delivered(c: Chip, cat: Catalog, log: seq<OtaTransfer.Attempt>, size: nat, chunk: nat, sha: seq<Byte>,
                            body: seq<Byte>)
    requires chunk > 0
  {
    var sent := OtaTransfer.Joined(OtaTransfer.Acknowledged(log));
    && |sent| == size && c.sha(sent) == sha
    && |OtaTransfer.Acknowledged(log)| == OtaTransfer.ChunkCount(size, chunk)
    && ((exists s :: s in cat && cat[s].data == sent) || (size <= |body| && sent == body[..size]))
  }

  /** The update: if it succeeds, the chunks the sensor acknowledged join to the image asked for. */
  method Update(store: FlashStore, w: FlashWriter, ch: OtaTransfer.Channel, stats: OtaTransfer.Statistics,
                size: nat, capacityKb: nat, chunk: nat, sha: seq<Byte>, name: seq<Byte>, body: seq<Byte>, patience: nat,
                ghost st: State, ghost cat: Catalog)
    returns (ok: bool, ghost log: seq<OtaTransfer.Attempt>)
    requires ChipOk(store.c) && store.Shows(st) && Represents(store.c, st.mem, cat)
    requires capacityKb < 0x1_0000 && OtaTransfer.MIN_CHUNK <= chunk <= OtaTransfer.MAX_CHUNK
    requires |sha| == SHA_BYTES && OtaPreload.QuietAlong(store.c, body)
    modifies store`uses, store`counter, store`trace, store.flash, w, ch, stats
    ensures ch.log == old(ch.log) + log
    ensures ok ==> Delivered(store.c, cat, log, size, chunk, sha, body)
    ensures size > capacityKb * 1024 ==> !ok && log == [] && store.trace == old(store.trace)
  {
    ok, log := false, [];
    if size > capacityKb * 1024 {
      return;
    }
    AdmittedSizeOk(size, capacityKb);
    var f;
    ghost var st', cat';
    f, st', cat' := Obtain(store, w, size, sha, name, body, patience, st, cat);
    var agreed: bool := *;
    if f.Missing? || !agreed {
      return;
    }
    ok, log := OtaStream.Stream(store, f.sector, size, chunk, 0, ch, stats, cat');
    if ok {
      OtaTransfer.JoinsToImage(log, cat'[f.sector].data, chunk);
    }
  }
}
