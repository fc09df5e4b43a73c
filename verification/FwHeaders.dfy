/** The header of an image in the flash store (bd_fwstore.cpp) and the sectors an image takes. */
module FwHeaders {
  import opened Words
  import opened NorFlash

  const DATA_OFFSET := 256
  const MAGIC: nat := 0x57464442
  const VERSION := 1
  const HEADER_BYTES := 96
  const CRC_AT := 92
  const NAME_BYTES := 48
  const SHA_BYTES := 32

  datatype Header = Header(magic: nat, version: nat, dataOffset: nat, imageSize: nat, sha: seq<Byte>,
                           name: seq<Byte>, crc: nat)

  ghost predicate HeaderFits(h: Header) {
    h.magic < U32 && h.version < 0x10000 && h.dataOffset < 0x10000 && h.imageSize < U32 && h.crc < U32
    && |h.sha| == SHA_BYTES && |h.name| == NAME_BYTES
  }

  function Le16(n: nat): (b: seq<Byte>)
    ensures |b| == 2
  {
    [n % 256, n / 256 % 256]
  }

  function Le32(n: nat): (b: seq<Byte>)
    ensures |b| == 4
  {
    [n % 256, n / 256 % 256, n / 65536 % 256, n / 16777216 % 256]
  }

  function Un16(b: seq<Byte>): nat
    requires |b| == 2
  {
    b[0] + 256 * (b[1] as int)
  }

  function Un32(b: seq<Byte>): (n: nat)
    requires |b| == 4
    ensures n < U32
  {
    b[0] + 256 * (b[1] as int) + 65536 * (b[2] as int) + 16777216 * (b[3] as int)
  }

  lemma Un16Le(n: nat)
    requires n < 0x10000
    ensures Un16(Le16(n)) == n
  {
  }

  lemma Un32Le(n: nat)
    requires n < U32
    ensures Un32(Le32(n)) == n
  {
    assert n / 256 == n / 65536 * 256 + n / 256 % 256;
    assert n / 65536 == n / 16777216 * 256 + n / 65536 % 256;
  }

  /** Everything the checksum covers, as it lies in memory. */
  function Covered(h: Header): seq<Byte> {
    Le32(h.magic) + Le16(h.version) + Le16(h.dataOffset) + Le32(h.imageSize) + h.sha + h.name
  }

  function Encode(h: Header): seq<Byte> {
    Covered(h) + Le32(h.crc)
  }

  function Decode(b: seq<Byte>): (h: Header)
    requires |b| == HEADER_BYTES
  {
    Header(Un32(b[..4]), Un16(b[4..6]), Un16(b[6..8]), Un32(b[8..12]), b[12..44], b[44..92], Un32(b[92..96]))
  }

  lemma DecodeEncode(h: Header)
    requires HeaderFits(h)
    ensures |Encode(h)| == HEADER_BYTES && Decode(Encode(h)) == h
  {
    var b := Encode(h);
    assert b[..4] == Le32(h.magic) && b[4..6] == Le16(h.version) && b[6..8] == Le16(h.dataOffset);
    assert b[8..12] == Le32(h.imageSize) && b[12..44] == h.sha && b[44..92] == h.name && b[92..96] == Le32(h.crc);
    Un32Le(h.magic);
    Un32Le(h.imageSize);
    Un32Le(h.crc);
    Un16Le(h.version);
    Un16Le(h.dataOffset);
  }

  /** sectors_for, in 32-bit arithmetic. */
  function SectorsFor(size: nat): nat {
    Wrap(DATA_OFFSET + size + SECTOR - 1) / SECTOR
  }

  /** Sizes for which the 32-bit sum does not wrap. */
  predicate SizeOk(size: nat) {
    size + DATA_OFFSET + SECTOR - 1 < U32
  }

  /** The sectors hold header and image, with less than a sector to spare, exactly for the sizes that do not wrap. */
  lemma SectorsForExact(size: nat)
    requires size < U32
    ensures SectorsFor(size) * SECTOR >= DATA_OFFSET + size <==> SizeOk(size)
    ensures SizeOk(size) ==> SectorsFor(size) >= 1 && (SectorsFor(size) - 1) * SECTOR < DATA_OFFSET + size
  {
    if SizeOk(size) {
      SmallRemainder(DATA_OFFSET + size + SECTOR - 1, U32);
    } else {
      SmallRemainder(DATA_OFFSET + size + SECTOR - 1 - U32, U32);
      ModShift(DATA_OFFSET + size + SECTOR - 1 - U32, 1, U32);
    }
  }

  /** The name field: a C string cut to fit, zero filled. */
  function NameField(name: seq<Byte>): (f: seq<Byte>)
    ensures |f| == NAME_BYTES
  {
    var n := CLength(name);
    var k := if n < NAME_BYTES - 1 then n else NAME_BYTES - 1;
    name[..k] + seq(NAME_BYTES - k, _ => 0)
  }

  function CLength(name: seq<Byte>): (n: nat)
    ensures n <= |name|
  {
    if name == [] || name[0] == 0 then 0 else 1 + CLength(name[1..])
  }

  lemma {:induction false} CLengthIs(name: seq<Byte>)
    ensures var n := CLength(name); (forall i :: 0 <= i < n ==> name[i] != 0) && (n < |name| ==> name[n] == 0)
  {
    if name != [] && name[0] != 0 {
      CLengthIs(name[1..]);
      assert forall i :: 1 <= i < CLength(name) ==> name[i] == name[1..][i - 1];
    }
  }

  /** It holds every character before the first zero of the name, as many as leave room for one, and zeros behind them. */
  lemma NameFieldMeaning(name: seq<Byte>, k: nat)
    requires k < NAME_BYTES
    ensures NameField(name)[k]
            == if k < NAME_BYTES - 1 && k < |name| && (forall i :: 0 <= i <= k ==> name[i] != 0) then name[k] else 0
  {
    CLengthIs(name);
  }
}
