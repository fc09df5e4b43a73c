/** The firmware download of ota_gs.cpp into the flash store. */
module OtaPreload {
  import opened Words
  import opened NorFlash
  import opened FwHeaders
  import opened FwCatalog
  import opened FwCalls
  import opened FwRuns
  import opened FwStore

  const BUFFER := 2048

  /** However much of the body is there, no later sector of it reads as a header. */
  ghost predicate QuietAlong(c: Chip, body: seq<Byte>) {
    forall n :: 0 <= n <= |body| ==> Quiet(c, body[..n])
  }

  /** Flash and writer after the first n bytes of the response. */
  ghost predicate Loaded(store: FlashStore, w: FlashWriter, st: State, cat: Catalog, wr: Writer, body: seq<Byte>, n: nat)
    reads store, store.flash, w
  {
    && n <= |body| && wr.got == body[..n]
    && store.Shows(st) && store.Holds(w, wr) && w.ok
    && Represents(store.c, st.mem, cat) && Writing(store.c, st.mem, cat, wr)
  }

  /** A piece of the response as it comes from the socket is written behind the earlier ones. */
  method StorePiece(store: FlashStore, w: FlashWriter, body: seq<Byte>, received: nat, k: nat,
                    ghost st: State, ghost cat: Catalog, ghost wr: Writer)
    returns (ok: bool, ghost st1: State)
    requires ChipOk(store.c) && QuietAlong(store.c, body) && Loaded(store, w, st, cat, wr, body, received)
    requires received + k <= |body| && received + k <= wr.size && store.flash.Length == store.c.sectors * SECTOR
    modifies store.flash, store`trace, w`written, w`ok
    ensures ok && Loaded(store, w, st1, cat, wr.(got := body[..received + k]), body, received + k)
  {
    var data := body[received..received + k];
    assert body[..received] + data == body[..received + k];
    assert Quiet(store.c, body[..received + k]);
    WriteFitsExact(store.c, st.mem, cat, wr, data);
    ok := store.WriteData(w, data, st, wr);
    st1 := Do(st, Program(DataStart(wr) + |wr.got|, data));
    ProgramKeeps(store.c, st.mem, cat, wr, data, st1.mem);
    WritingGrows(store.c, st.mem, cat, wr, data, st1.mem);
  }

  /** The download loop of obtainFirmwareImage: pieces of any length, until all is there or nothing comes for too long. */
  method Preload(store: FlashStore, w: FlashWriter, size: nat, body: seq<Byte>, patience: nat,
                 ghost st: State, ghost cat: Catalog, ghost wr: Writer)
    returns (received: nat, ghost st1: State, ghost wr1: Writer)
    requires ChipOk(store.c) && QuietAlong(store.c, body) && Loaded(store, w, st, cat, wr, body, 0) && wr.size == size
    requires store.flash.Length == store.c.sectors * SECTOR
    modifies store.flash, store`trace, w`written, w`ok
    ensures received <= size && wr1 == wr.(got := wr1.got) && Loaded(store, w, st1, cat, wr1, body, received)
  {
    received, st1, wr1 := 0, st, wr;
    var idle := patience;
    while received < size
      invariant received <= size && wr1 == wr.(got := wr1.got) && Loaded(store, w, st1, cat, wr1, body, received)
      decreases size - received, idle
    {
      var want := if size - received < BUFFER then size - received else BUFFER;
      var got: nat := *;
      if 0 < got <= want && received + got <= |body| {
        var ok;
        ok, st1 := StorePiece(store, w, body, received, got, st1, cat, wr1);
        if !ok {
          break;
        }
        wr1 := wr1.(got := body[..received + got]);
        received := received + got;
        idle := patience;
      } else if idle == 0 {
        break;
      } else {
        idle := idle - 1;
      }
    }
  }

  /** The download as a whole: it succeeds exactly if all bytes came and their digest is right, and then the store
   *  holds the downloaded bytes as an image. */
  method Download(store: FlashStore, w: FlashWriter, size: nat, sha: seq<Byte>, name: seq<Byte>, body: seq<Byte>, patience: nat,
                  ghost st: State, ghost cat: Catalog, ghost wr: Writer)
    returns (ok: bool, received: nat, ghost st2: State)
    requires ChipOk(store.c) && QuietAlong(store.c, body) && Loaded(store, w, st, cat, wr, body, 0) && wr.size == size
    requires store.flash.Length == store.c.sectors * SECTOR && |sha| == SHA_BYTES
    modifies store`uses, store`counter, store`trace, store.flash, w`written, w`ok
    ensures received <= size && received <= |body|
    ensures ok <==> received == size && store.c.sha(body[..received]) == sha
    ensures store.Shows(st2)
    ensures Represents(store.c, st2.mem, if ok then cat[wr.sector := Image(sha, NameField(name), body[..size])] else cat)
  {
    ghost var st1, wr1;
    received, st1, wr1 := Preload(store, w, size, body, patience, st, cat, wr);
    if received != size {
      return false, received, st1;
    }
    FinishSafe(store.c, st1, cat, wr1, sha, name);
    ok := store.Finish(w, sha, name, st1, cat, wr1);
    st2 := DoAll(st1, FinishOps(store.c, st1, wr1, sha, name));
  }
}
