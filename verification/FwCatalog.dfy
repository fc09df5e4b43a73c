/**
 * What the flash of the image store means: a catalogue of images by first sector.
 * Each elementary flash operation of bd_fwstore.cpp is shown to change the catalogue
 * in the one intended way, so a power cut between any two of them loses nothing else.
 */
module FwCatalog {
  import opened Words
  import opened NorFlash
  import opened FwHeaders

  /** A store partition, in sectors of the chip. */
  datatype Region = Region(first: nat, count: nat)

  /** The chip, with the two digests left open. */
  datatype Chip = Chip(regions: seq<Region>, sectors: nat, crc: seq<Byte> -> nat, sha: seq<Byte> -> seq<Byte>)

  datatype Image = Image(sha: seq<Byte>, name: seq<Byte>, data: seq<Byte>)

  type Catalog = map<nat, Image>

  ghost predicate ChipOk(c: Chip) {
    && (forall i :: 0 <= i < |c.regions| ==> c.regions[i].first + c.regions[i].count <= c.sectors)
    && (forall i, j :: 0 <= i < j < |c.regions| ==>
          c.regions[i].first + c.regions[i].count <= c.regions[j].first
          || c.regions[j].first + c.regions[j].count <= c.regions[i].first)
    && c.sectors * SECTOR < U32
  }

  predicate Inside(r: Region, s: nat) {
    r.first <= s < r.first + r.count
  }

  /** The end of the partition that sector s lies in, 0 outside the store. */
  function EndOf(regions: seq<Region>, s: nat): nat
  {
    if regions == [] then 0
    else if Inside(regions[0], s) then regions[0].first + regions[0].count
    else EndOf(regions[1..], s)
  }

  lemma {:induction false} EndInChip(regions: seq<Region>, s: nat, sectors: nat)
    requires forall i :: 0 <= i < |regions| ==> regions[i].first + regions[i].count <= sectors
    ensures EndOf(regions, s) <= sectors
    ensures EndOf(regions, s) == 0 || s < EndOf(regions, s)
  {
    if regions != [] && !Inside(regions[0], s) {
      EndInChip(regions[1..], s, sectors);
    }
  }

  function Extent(img: Image): nat {
    SectorsFor(|img.data|)
  }

  function RawHeader(mem: seq<Byte>, s: nat): (b: seq<Byte>)
    requires (s + 1) * SECTOR <= |mem|
    ensures |b| == HEADER_BYTES
  {
    mem[s * SECTOR..s * SECTOR + HEADER_BYTES]
  }

  /** The test of scan() at one sector. */
  predicate HeaderOk(c: Chip, mem: seq<Byte>, s: nat) {
    && s < EndOf(c.regions, s) && (s + 1) * SECTOR <= |mem|
    && var b := RawHeader(mem, s);
    && ReadsAsHeader(c, b)
    && s + SectorsFor(Decode(b).imageSize) <= EndOf(c.regions, s)
  }

  /** These bytes are a whole valid header. */
  predicate ReadsAsHeader(c: Chip, b: seq<Byte>)
    requires |b| == HEADER_BYTES
  {
    var h := Decode(b);
    && h.magic == MAGIC && h.version == VERSION && h.dataOffset == DATA_OFFSET
    && h.crc == Wrap(c.crc(b[..CRC_AT]))
  }

  function DataAt(mem: seq<Byte>, s: nat, size: nat): (d: seq<Byte>)
    requires s * SECTOR + DATA_OFFSET + size <= |mem|
    ensures |d| == size
  {
    mem[s * SECTOR + DATA_OFFSET..s * SECTOR + DATA_OFFSET + size]
  }

  /** Header and data of an image lie at sector s. */
  ghost predicate Stored(c: Chip, mem: seq<Byte>, s: nat, img: Image) {
    && SizeOk(|img.data|) && s + Extent(img) <= EndOf(c.regions, s)
    && (s + Extent(img)) * SECTOR <= |mem| && Extent(img) >= 1
    && s * SECTOR + DATA_OFFSET + |img.data| <= (s + Extent(img)) * SECTOR
    && var h := Decode(RawHeader(mem, s));
    && h.imageSize == |img.data| && h.sha == img.sha && h.name == img.name
    && DataAt(mem, s, |img.data|) == img.data
  }

  ghost predicate Disjoint(cat: Catalog) {
    forall s, t :: s in cat && t in cat && s < t ==> s + Extent(cat[s]) <= t
  }

  /** The flash holds exactly the images of the catalogue: no other sector of the store looks like a header. */
  ghost predicate Represents(c: Chip, mem: seq<Byte>, cat: Catalog) {
    && |mem| == c.sectors * SECTOR
    && (forall s: nat {:trigger HeaderOk(c, mem, s)} :: HeaderOk(c, mem, s) <==> s in cat)
    && (forall s {:trigger Stored(c, mem, s, cat[s])} :: s in cat ==> Stored(c, mem, s, cat[s]))
    && Disjoint(cat)
  }

  /** No image of the catalogue reaches into sectors lo to hi. */
  ghost predicate Clear(cat: Catalog, lo: nat, hi: nat) {
    forall t :: t in cat ==> t + Extent(cat[t]) <= lo || hi <= t
  }

  ghost predicate SameOutside(mem: seq<Byte>, mem': seq<Byte>, lo: nat, hi: nat) {
    |mem'| == |mem| && forall i {:trigger mem'[i]} :: 0 <= i < |mem| && !(lo <= i < hi) ==> mem'[i] == mem[i]
  }

  lemma HeaderKept(c: Chip, mem: seq<Byte>, mem': seq<Byte>, lo: nat, hi: nat, s: nat)
    requires SameOutside(mem, mem', lo, hi) && (s * SECTOR + HEADER_BYTES <= lo || hi <= s * SECTOR)
    ensures HeaderOk(c, mem', s) <==> HeaderOk(c, mem, s)
    ensures (s + 1) * SECTOR <= |mem| ==> RawHeader(mem', s) == RawHeader(mem, s)
  {
    if (s + 1) * SECTOR <= |mem| {
      SliceKept(mem, mem', s * SECTOR, s * SECTOR + HEADER_BYTES, lo, hi);
    }
  }

  lemma StoredKept(c: Chip, mem: seq<Byte>, mem': seq<Byte>, lo: nat, hi: nat, s: nat, img: Image)
    requires SameOutside(mem, mem', lo, hi) && Stored(c, mem, s, img)
    requires (s + Extent(img)) * SECTOR <= lo || hi <= s * SECTOR
    ensures Stored(c, mem', s, img)
  {
    HeaderKept(c, mem, mem', lo, hi, s);
    SliceKept(mem, mem', s * SECTOR + DATA_OFFSET, s * SECTOR + DATA_OFFSET + |img.data|, lo, hi);
  }

  /** Changing only sectors lo to hi, none of which reads as a header afterwards, keeps every image
   *  outside them and forgets those that started inside. */
  lemma ChangeInside(c: Chip, mem: seq<Byte>, mem': seq<Byte>, cat: Catalog, cat': Catalog, lo: nat, hi: nat)
    requires Represents(c, mem, cat) && SameOutside(mem, mem', lo * SECTOR, hi * SECTOR)
    requires forall t :: t in cat' <==> t in cat && !(lo <= t < hi)
    requires forall t :: t in cat' ==> cat'[t] == cat[t]
    requires Clear(cat', lo, hi)
    requires forall x :: lo <= x < hi ==> !HeaderOk(c, mem', x)
    ensures Represents(c, mem', cat')
  {
    forall s: nat
      ensures HeaderOk(c, mem', s) <==> s in cat'
    {
      if !(lo <= s < hi) {
        HeaderKept(c, mem, mem', lo * SECTOR, hi * SECTOR, s);
      }
    }
    forall s | s in cat'
      ensures Stored(c, mem', s, cat'[s])
    {
      StoredKept(c, mem, mem', lo * SECTOR, hi * SECTOR, s, cat[s]);
    }
  }

  const ZERO_WORD: seq<Byte> := [0, 0, 0, 0]

  lemma FirstWord(mem: seq<Byte>, s: nat)
    requires (s + 1) * SECTOR <= |mem|
    ensures RawHeader(mem, s)[..4] == mem[s * SECTOR..s * SECTOR + 4]
  {
  }

  lemma DroppedHeader(c: Chip, mem: seq<Byte>, s: nat)
    ensures !HeaderOk(c, Written(mem, s * SECTOR, ZERO_WORD), s)
  {
    var mem' := Written(mem, s * SECTOR, ZERO_WORD);
    if (s + 1) * SECTOR <= |mem| {
      FirstWord(mem', s);
      assert mem'[s * SECTOR..s * SECTOR + 4] == ZERO_WORD;
    }
  }

  /** Clearing the magic drops exactly that image. */
  lemma DropKeeps(c: Chip, mem: seq<Byte>, cat: Catalog, s: nat)
    requires Represents(c, mem, cat) && s in cat
    ensures Represents(c, Written(mem, s * SECTOR, ZERO_WORD), cat - {s})
  {
    var mem', cat' := Written(mem, s * SECTOR, ZERO_WORD), cat - {s};
    OthersClear(c, mem, cat, s);
    DroppedHeader(c, mem, s);
    assert SameOutside(mem, mem', s * SECTOR, (s + 1) * SECTOR);
    ChangeInside(c, mem, mem', cat, cat', s, s + 1);
  }

  lemma OthersClear(c: Chip, mem: seq<Byte>, cat: Catalog, s: nat)
    requires Represents(c, mem, cat) && s in cat
    ensures Clear(cat - {s}, s, s + 1) && (s + 1) * SECTOR <= |mem|
  {
    assert Stored(c, mem, s, cat[s]);
    forall t | t in cat - {s}
      ensures t + Extent((cat - {s})[t]) <= s || s + 1 <= t
    {
      assert Stored(c, mem, t, cat[t]);
    }
  }

  lemma BlankHeader(c: Chip, mem: seq<Byte>, s: nat)
    requires (s + 1) * SECTOR <= |mem| ==> mem[s * SECTOR + 3] == BLANK
    ensures !HeaderOk(c, mem, s)
  {
    if (s + 1) * SECTOR <= |mem| {
      FirstWord(mem, s);
    }
  }

  /** No image starts where none reaches into. */
  lemma ClearIsFree(c: Chip, mem: seq<Byte>, cat: Catalog, lo: nat, hi: nat)
    requires Represents(c, mem, cat) && Clear(cat, lo, hi)
    ensures forall t :: t in cat ==> !(lo <= t < hi)
  {
    forall t | t in cat
      ensures !(lo <= t < hi)
    {
      assert Stored(c, mem, t, cat[t]);
    }
  }

  /** Erasing a sector no image reaches into changes nothing in the catalogue. */
  lemma EraseKeeps(c: Chip, mem: seq<Byte>, cat: Catalog, s: nat)
    requires Represents(c, mem, cat) && Clear(cat, s, s + 1)
    ensures Represents(c, Erased(mem, s), cat)
  {
    BlankHeader(c, Erased(mem, s), s);
    ClearIsFree(c, mem, cat, s, s + 1);
    ChangeInside(c, mem, Erased(mem, s), cat, cat, s, s + 1);
  }

  // --- an image being written ---

  /** `got` is all data appended so far. */
  datatype Writer = Writer(sector: nat, size: nat, got: seq<Byte>)

  /** The first bytes of a sector that data reaches up to, blank where the data ends. */
  function HeadIn(data: seq<Byte>, at: nat): (b: seq<Byte>)
    requires at <= |data|
    ensures |b| == HEADER_BYTES
    ensures forall i {:trigger b[i]} :: 0 <= i < HEADER_BYTES ==> b[i] == if at + i < |data| then data[at + i] else BLANK
  {
    seq(HEADER_BYTES, i requires 0 <= i < HEADER_BYTES => if at + i < |data| then data[at + i] else BLANK)
  }

  predicate SectorQuiet(c: Chip, data: seq<Byte>, j: nat) {
    1 <= j && j * SECTOR - DATA_OFFSET < |data| ==> !ReadsAsHeader(c, HeadIn(data, j * SECTOR - DATA_OFFSET))
  }

  /** No sector of the image but its first reads as a header: what the format takes for granted. */
  ghost predicate Quiet(c: Chip, data: seq<Byte>) {
    forall j: nat :: SectorQuiet(c, data, j)
  }

  ghost predicate Room(c: Chip, mem: seq<Byte>, s: nat, size: nat) {
    && SizeOk(size) && s + SectorsFor(size) <= EndOf(c.regions, s) && (s + SectorsFor(size)) * SECTOR <= |mem|
    && s * SECTOR + DATA_OFFSET + size <= (s + SectorsFor(size)) * SECTOR
  }

  /** The reserved sectors: blank header, the data so far, blank to the end, and apart from every image. */
  ghost predicate Writing(c: Chip, mem: seq<Byte>, cat: Catalog, w: Writer) {
    && |w.got| <= w.size && Room(c, mem, w.sector, w.size)
    && Clear(cat, w.sector, w.sector + SectorsFor(w.size))
    && BlankFrom(mem, w.sector * SECTOR, w.sector * SECTOR + DATA_OFFSET)
    && DataAt(mem, w.sector, |w.got|) == w.got
    && BlankFrom(mem, w.sector * SECTOR + DATA_OFFSET + |w.got|, (w.sector + SectorsFor(w.size)) * SECTOR)
    && Quiet(c, w.got)
  }

  function DataStart(w: Writer): nat {
    w.sector * SECTOR + DATA_OFFSET
  }

  lemma NoHeaderInside(c: Chip, mem: seq<Byte>, cat: Catalog, w: Writer, x: nat)
    requires Writing(c, mem, cat, w) && w.sector <= x < w.sector + SectorsFor(w.size)
    ensures !HeaderOk(c, mem, x)
  {
    if w.sector < x && x * SECTOR - DataStart(w) < |w.got| {
      LaterSectorQuiet(c, mem, cat, w, x);
    } else {
      BlankHeader(c, mem, x);
    }
  }

  lemma LaterSectorQuiet(c: Chip, mem: seq<Byte>, cat: Catalog, w: Writer, x: nat)
    requires Writing(c, mem, cat, w) && w.sector < x < w.sector + SectorsFor(w.size)
    requires x * SECTOR - DataStart(w) < |w.got|
    ensures !HeaderOk(c, mem, x)
  {
    var o := x * SECTOR - DataStart(w);
    HeadIs(c, mem, cat, w, x, o);
    NoHeader(c, mem, x, w.got, x - w.sector, o);
  }

  lemma NoHeader(c: Chip, mem: seq<Byte>, s: nat, data: seq<Byte>, j: nat, at: nat)
    requires Quiet(c, data) && 1 <= j && at == j * SECTOR - DATA_OFFSET && at < |data|
    requires (s + 1) * SECTOR <= |mem| && RawHeader(mem, s) == HeadIn(data, at)
    ensures !HeaderOk(c, mem, s)
  {
    assert SectorQuiet(c, data, j);
  }

  lemma HeadIs(c: Chip, mem: seq<Byte>, cat: Catalog, w: Writer, x: nat, o: nat)
    requires Writing(c, mem, cat, w) && w.sector < x < w.sector + SectorsFor(w.size)
    requires o == x * SECTOR - DataStart(w) && o < |w.got|
    ensures (x + 1) * SECTOR <= |mem| && RawHeader(mem, x) == HeadIn(w.got, o)
  {
    forall i | 0 <= i < HEADER_BYTES
      ensures RawHeader(mem, x)[i] == HeadIn(w.got, o)[i]
    {
      if o + i < |w.got| {
        assert DataAt(mem, w.sector, |w.got|)[o + i] == mem[DataStart(w) + (o + i)];
      }
    }
  }

  /** Appending data to the image being written. */
  lemma ProgramKeeps(c: Chip, mem: seq<Byte>, cat: Catalog, w: Writer, data: seq<Byte>, mem': seq<Byte>)
    requires Represents(c, mem, cat) && Writing(c, mem, cat, w)
    requires |w.got| + |data| <= w.size && Quiet(c, w.got + data)
    requires mem' == Written(mem, DataStart(w) + |w.got|, data)
    ensures Represents(c, mem', cat)
  {
    var hi, w' := w.sector + SectorsFor(w.size), w.(got := w.got + data);
    WritingGrows(c, mem, cat, w, data, mem');
    forall x | w.sector <= x < hi
      ensures !HeaderOk(c, mem', x)
    {
      NoHeaderInside(c, mem', cat, w', x);
    }
    ClearIsFree(c, mem, cat, w.sector, hi);
    ChangeInside(c, mem, mem', cat, cat, w.sector, hi);
  }

  lemma WritingGrows(c: Chip, mem: seq<Byte>, cat: Catalog, w: Writer, data: seq<Byte>, mem': seq<Byte>)
    requires Writing(c, mem, cat, w) && |w.got| + |data| <= w.size && Quiet(c, w.got + data)
    requires mem' == Written(mem, DataStart(w) + |w.got|, data)
    ensures Writing(c, mem', cat, w.(got := w.got + data))
  {
    AppendedData(mem, w, data, (w.sector + SectorsFor(w.size)) * SECTOR);
  }

  lemma AppendedData(mem: seq<Byte>, w: Writer, data: seq<Byte>, end: nat)
    requires DataStart(w) + |w.got| + |data| <= end <= |mem|
    requires DataAt(mem, w.sector, |w.got|) == w.got && BlankFrom(mem, DataStart(w) + |w.got|, end)
    ensures var mem' := Written(mem, DataStart(w) + |w.got|, data);
      && DataAt(mem', w.sector, |w.got| + |data|) == w.got + data
      && BlankFrom(mem', DataStart(w) + |w.got| + |data|, end)
  {
    var at := DataStart(w) + |w.got|;
    var mem' := Written(mem, at, data);
    WriteOnBlank(mem, at, data);
    SliceKept(mem, mem', DataStart(w), at, at, at + |data|);
    assert mem'[DataStart(w)..at + |data|] == mem'[DataStart(w)..at] + mem'[at..at + |data|];
  }

  /** The header finish() writes for an image. */
  function NewHeader(c: Chip, size: nat, sha: seq<Byte>, name: seq<Byte>): Header {
    var h := Header(MAGIC, VERSION, DATA_OFFSET, size, sha, NameField(name), 0);
    h.(crc := Wrap(c.crc(Covered(h))))
  }

  /** Writing the header makes exactly this image findable, with all the data that was appended. */
  lemma PublishKeeps(c: Chip, mem: seq<Byte>, cat: Catalog, w: Writer, sha: seq<Byte>, name: seq<Byte>)
    requires Represents(c, mem, cat) && Writing(c, mem, cat, w) && |w.got| == w.size && |sha| == SHA_BYTES
    ensures var mem' := Written(mem, w.sector * SECTOR, Encode(NewHeader(c, w.size, sha, name)));
      && (w.sector + 1) * SECTOR <= |mem|
      && RawHeader(mem', w.sector) == Encode(NewHeader(c, w.size, sha, name))
      && Represents(c, mem', cat[w.sector := Image(sha, NameField(name), w.got)])
  {
    var h, s := NewHeader(c, w.size, sha, name), w.sector;
    var img, mem' := Image(sha, NameField(name), w.got), Written(mem, s * SECTOR, Encode(h));
    NewHeaderReads(c, mem, w, sha, name);
    ClearIsFree(c, mem, cat, s, s + SectorsFor(w.size));
    AddStored(c, mem, mem', cat, s, img);
  }

  lemma NewHeaderReads(c: Chip, mem: seq<Byte>, w: Writer, sha: seq<Byte>, name: seq<Byte>)
    requires Room(c, mem, w.sector, w.size) && |w.got| == w.size && |sha| == SHA_BYTES
    requires BlankFrom(mem, w.sector * SECTOR, w.sector * SECTOR + DATA_OFFSET)
    requires DataAt(mem, w.sector, |w.got|) == w.got
    ensures var h := NewHeader(c, w.size, sha, name);
      var mem' := Written(mem, w.sector * SECTOR, Encode(h));
      && |Encode(h)| == HEADER_BYTES && (w.sector + 1) * SECTOR <= |mem|
      && RawHeader(mem', w.sector) == Encode(h)
      && HeaderOk(c, mem', w.sector)
      && Stored(c, mem', w.sector, Image(sha, NameField(name), w.got))
  {
    var h, s := NewHeader(c, w.size, sha, name), w.sector;
    var at, mem' := s * SECTOR, Written(mem, s * SECTOR, Encode(h));
    SectorsForExact(w.size);
    DecodeEncode(h);
    WriteOnBlank(mem, at, Encode(h));
    assert Encode(h)[..CRC_AT] == Covered(h);
    SliceKept(mem, mem', at + DATA_OFFSET, at + DATA_OFFSET + w.size, at, at + HEADER_BYTES);
  }

  lemma AddStored(c: Chip, mem: seq<Byte>, mem': seq<Byte>, cat: Catalog, s: nat, img: Image)
    requires Represents(c, mem, cat) && SameOutside(mem, mem', s * SECTOR, s * SECTOR + HEADER_BYTES)
    requires HeaderOk(c, mem', s) && Stored(c, mem', s, img) && Clear(cat, s, s + Extent(img)) && s !in cat
    ensures Represents(c, mem', cat[s := img])
  {
    var at, cat' := s * SECTOR, cat[s := img];
    forall t: nat
      ensures HeaderOk(c, mem', t) <==> t in cat'
    {
      if t != s {
        HeaderKept(c, mem, mem', at, at + HEADER_BYTES, t);
      }
    }
    forall t | t in cat'
      ensures Stored(c, mem', t, cat'[t])
    {
      if t != s {
        StoredKept(c, mem, mem', at, at + HEADER_BYTES, t, cat[t]);
      }
    }
  }

  // --- the two partition tables ---

  /** The store partitions in sectors: `fwstore` on every board, `fwstore_ext` on boards with 8 MB. */
  const STORE := Region(0x3A0, 0x50)
  const STORE_EXT := Region(0x400, 0x400)

  lemma TablesOk(crc: seq<Byte> -> nat, sha: seq<Byte> -> seq<Byte>)
    ensures ChipOk(Chip([STORE], 0x400, crc, sha))
    ensures ChipOk(Chip([STORE, STORE_EXT], 0x800, crc, sha))
  {
  }

  /** A chip erased from end to end is an empty store. */
  lemma BlankIsEmpty(c: Chip, mem: seq<Byte>)
    requires |mem| == c.sectors * SECTOR && BlankFrom(mem, 0, |mem|)
    ensures Represents(c, mem, map[])
  {
    forall s: nat
      ensures !HeaderOk(c, mem, s)
    {
      if (s + 1) * SECTOR <= |mem| {
        var b := RawHeader(mem, s);
        assert b[..4][3] == BLANK;
        assert Decode(b).magic >= 16777216 * 255;
      }
    }
  }
}
