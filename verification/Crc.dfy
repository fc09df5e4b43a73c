/** The CRC-24 of ADS-L frames (protocols/adsl.cpp). */
module AdslCrc {
  import opened Words
  import opened ShiftRegister
  import opened WordBits

  const POLY: nat := 0xFFFA0480
  const TOP_BIT: nat := 0x8000_0000
  const GENERATOR: nat := 0xFFF409
  const FRAME_LEN := 24
  const CRC_LEN := 3

  ghost function Generator(): (p: BitSeq)
    ensures |p| == 24 && Val(p) == GENERATOR && p[23]
  {
    Powers();
    Bits(GENERATOR, 24)
  }

  /** The constant of the code is the generator with its leading 1, above seven zeros. */
  lemma PolyBits() returns (b: BitSeq)
    ensures b == [true] + Generator() + Zeros(7) && |b| == 32 && Val(b) == POLY
  {
    var p := Generator();
    b := [true] + p + Zeros(7);
    assert Val([true]) == 1 by {
      assert Val([]) == 0;
    }
    Powers();
    ValJoin([true], p);
    ValJoin([true] + p, Zeros(7));
    ZeroVal(7);
  }

  /** crc24_polypass keeps its register in the upper 24 bits and the lower 8 clear. */
  ghost predicate Holds(crc: nat, r: BitSeq) {
    |r| == 24 && crc == 256 * Val(r)
  }

  /** One turn of the loop: the register takes the next bit of the byte. */
  lemma PassTurn(crc: nat, r: BitSeq, rest: BitSeq, k: nat) returns (crc': nat)
    requires |r| == 24 && |rest| > 0 && |rest| + k == 8 && crc == Val(r + rest + Zeros(k))
    ensures crc' == Doubled(if Has(crc, TOP_BIT) then XorWord(crc, POLY) else crc, TOP_BIT)
    ensures crc' == Val(Step(Generator(), r, rest[0]) + rest[1..] + Zeros(k + 1))
  {
    var b := r + rest + Zeros(k);
    var p := PolyBits();
    Powers();
    DoubledVal(b, TOP_BIT);
    XorVal(b, p);
    var x := if r[0] then Xor(b, p) else b;
    DoubledVal(x, TOP_BIT);
    crc' := Val(x[1..] + [false]);
    TurnBits(Generator(), r, rest, k);
  }

  lemma TurnBits(g: BitSeq, r: BitSeq, rest: BitSeq, k: nat)
    requires |g| == |r| == 24 && |rest| > 0 && |rest| + k == 8
    ensures var b := r + rest + Zeros(k);
      var x := if r[0] then Xor(b, [true] + g + Zeros(7)) else b;
      x[1..] + [false] == Step(g, r, rest[0]) + rest[1..] + Zeros(k + 1)
  {
  }

  method PolyPass(crc: nat, input: Byte, ghost r: BitSeq) returns (crc': nat)
    requires Holds(crc, r)
    ensures Holds(crc', Shift(Generator(), r, ByteBits(input)))
  {
    ghost var p, bits := Generator(), ByteBits(input);
    crc' := OrWord(crc, input);
    Joined(crc, input, r);
    assert r + bits[0..] + Zeros(0) == r + bits;
    for bit := 0 to 8
      invariant crc' == Val(Shift(p, r, bits[..bit]) + bits[bit..] + Zeros(bit))
    {
      ghost var _ := PassTurn(crc', Shift(p, r, bits[..bit]), bits[bit..], bit);
      ShiftMore(p, r, bits[..bit], bits[bit]);
      assert bits[..bit + 1] == bits[..bit] + [bits[bit]];
      if Has(crc', TOP_BIT) {
        crc' := XorWord(crc', POLY);
      }
      crc' := Doubled(crc', TOP_BIT);
    }
    assert bits[..8] == bits && bits[8..] == [];
    Cleared(Shift(p, r, bits));
  }

  lemma Joined(crc: nat, input: Byte, r: BitSeq)
    requires Holds(crc, r)
    ensures OrWord(crc, input) == Val(r + ByteBits(input))
  {
    var a, b := r + Zeros(8), Zeros(24) + ByteBits(input);
    assert Pow2(8) == 256;
    ValJoin(r, Zeros(8));
    ZeroVal(8);
    ValJoin(Zeros(24), ByteBits(input));
    ZeroVal(24);
    OrVal(a, b);
    assert OrBits(a, b) == r + ByteBits(input);
  }

  lemma Cleared(r: BitSeq)
    ensures Val(r + [] + Zeros(8)) == 256 * Val(r)
  {
    assert r + [] == r;
    ValJoin(r, Zeros(8));
    ZeroVal(8);
    assert Pow2(8) == 256;
  }

  /** adsl_crc: the remainder of all bits of the frame. */
  method Crc(frame: seq<Byte>) returns (crc: nat)
    ensures crc == Val(Rem(Generator(), BytesBits(frame)))
  {
    crc := Pass(frame);
    crc := crc / 256;
  }

  method Pass(bytes: seq<Byte>) returns (crc: nat)
    ensures Holds(crc, Rem(Generator(), BytesBits(bytes)))
  {
    ghost var p := Generator();
    crc := 0;
    ZeroVal(24);
    for i := 0 to |bytes|
      invariant Holds(crc, Rem(p, BytesBits(bytes[..i])))
    {
      crc := PolyPass(crc, bytes[i], Rem(p, BytesBits(bytes[..i])));
      assert bytes[..i + 1] == bytes[..i] + [bytes[i]];
      BytesBitsMore(bytes[..i], bytes[i]);
      ShiftConcat(p, Zeros(24), BytesBits(bytes[..i]), ByteBits(bytes[i]));
    }
    assert bytes[..|bytes|] == bytes;
  }

  /** What the three check bytes of a frame have to be: the remainder of its data with zeros in their place. */
  ghost function Expected(frame: seq<Byte>): nat
    requires |frame| >= CRC_LEN
  {
    Val(Rem(Generator(), BytesBits(frame[..|frame| - CRC_LEN]) + Zeros(24)))
  }

  function Trailer(frame: seq<Byte>): nat
    requires |frame| >= CRC_LEN
  {
    var t := frame[|frame| - CRC_LEN..];
    65536 * (t[0] as int) + 256 * (t[1] as int) + t[2]
  }

  lemma TrailerBits(frame: seq<Byte>) returns (t: BitSeq)
    requires |frame| >= CRC_LEN
    ensures |t| == 24 && Val(t) == Trailer(frame)
    ensures BytesBits(frame) == BytesBits(frame[..|frame| - CRC_LEN]) + t
  {
    var n := |frame| - CRC_LEN;
    var d := frame[..n];
    var x, y, z := ByteBits(frame[n]), ByteBits(frame[n + 1]), ByteBits(frame[n + 2]);
    t := x + y + z;
    assert frame == d + [frame[n]] + [frame[n + 1]] + [frame[n + 2]];
    BytesBitsMore(d, frame[n]);
    BytesBitsMore(d + [frame[n]], frame[n + 1]);
    BytesBitsMore(d + [frame[n]] + [frame[n + 1]], frame[n + 2]);
    assert Pow2(8) == 256;
    ValJoin(x, y);
    ValJoin(x + y, z);
    assert BytesBits(d) + x + y + z == BytesBits(d) + t;
  }

  /** adsl_crc_expected, which never looks at the check bytes. */
  method CrcExpected(frame: seq<Byte>) returns (crc: nat)
    requires |frame| == FRAME_LEN
    ensures crc == Expected(frame)
  {
    var data := frame[..FRAME_LEN - CRC_LEN];
    ghost var p := Generator();
    ghost var q := Rem(p, BytesBits(data));
    crc := Pass(data);
    crc := PolyPass(crc, 0, q);
    crc := PolyPass(crc, 0, Shift(p, q, ByteBits(0)));
    crc := PolyPass(crc, 0, Shift(p, Shift(p, q, ByteBits(0)), ByteBits(0)));
    crc := crc / 256;
    ZeroByte();
    ShiftConcat(p, q, Zeros(8), Zeros(8));
    ShiftConcat(p, q, Zeros(8) + Zeros(8), Zeros(8));
    assert Zeros(8) + Zeros(8) + Zeros(8) == Zeros(24);
    ShiftConcat(p, Zeros(24), BytesBits(data), Zeros(24));
  }

  lemma ZeroByte()
    ensures ByteBits(0) == Zeros(8)
  {
    ZeroVal(8);
    ValUnique(ByteBits(0), Zeros(8));
  }

  /** adsl_check_crc accepts exactly the frames whose check bytes are the expected ones. */
  method CheckCrc(frame: seq<Byte>) returns (ok: bool)
    requires |frame| == FRAME_LEN
    ensures ok <==> Trailer(frame) == Expected(frame)
  {
    var crc := Crc(frame);
    ok := crc == 0;
    FitsExact(frame);
  }

  ghost predicate Clear(frame: seq<Byte>) {
    Rem(Generator(), BytesBits(frame)) == Zeros(24)
  }

  lemma FitsExact(frame: seq<Byte>)
    requires |frame| >= CRC_LEN
    ensures Clear(frame) <==> Trailer(frame) == Expected(frame)
    ensures Clear(frame) <==> Val(Rem(Generator(), BytesBits(frame))) == 0
  {
    var p := Generator();
    var t := TrailerBits(frame);
    var d := BytesBits(frame[..|frame| - CRC_LEN]);
    TrailerExact(p, d, t);
    var x := Rem(p, d + Zeros(24));
    if Val(t) == Val(x) {
      ValUnique(t, x);
    }
    ZeroVal(24);
    var r := Rem(p, BytesBits(frame));
    if Val(r) == 0 {
      ValUnique(r, Zeros(24));
    }
  }

  /** Any change within 24 neighbouring bits of a good frame is noticed. */
  lemma BurstCaught(frame: seq<Byte>, got: seq<Byte>)
    requires |frame| >= CRC_LEN && |got| == |frame|
    requires Trailer(frame) == Expected(frame) && Burst(BytesBits(frame), BytesBits(got), 24)
    ensures Trailer(got) != Expected(got)
  {
    FitsExact(frame);
    FitsExact(got);
    BurstShows(Generator(), BytesBits(frame), BytesBits(got));
  }
}

/** The CRC-16 of FLARM frames (protocols/flarm.cpp). */
module FlarmCrc {
  import opened Words
  import opened ShiftRegister
  import opened WordBits

  const POLY: nat := 0x1021
  const TOP_BIT: nat := 0x8000
  const START: nat := 0xFFFF
  const PREFIX: seq<Byte> := [0x31, 0xFA, 0xB6]
  const DATA_LEN := 24
  const FRAME_LEN := 26

  ghost function Generator(): (p: BitSeq)
    ensures |p| == 16 && Val(p) == POLY && p[15]
  {
    Powers();
    Bits(POLY, 16)
  }

  ghost function Start(): (r: BitSeq)
    ensures |r| == 16 && Val(r) == START
  {
    Powers();
    Bits(START, 16)
  }

  lemma FeedTurn(crc: nat, q: BitSeq, rest: BitSeq, k: nat)
    requires |q| == 16 && |rest| > 0 && |rest| + k == 16 && crc == Val(Xor(q, rest + Zeros(k)))
    ensures var d := Doubled(crc, TOP_BIT);
      (if Has(crc, TOP_BIT) then XorWord(d, POLY) else d)
      == Val(Xor(Feed(Generator(), q, rest[0]), rest[1..] + Zeros(k + 1)))
  {
    var b, p := Xor(q, rest + Zeros(k)), Generator();
    Powers();
    DoubledVal(b, TOP_BIT);
    var d := b[1..] + [false];
    XorVal(d, p);
    assert (if b[0] then Xor(d, p) else d) == Xor(Feed(p, q, rest[0]), rest[1..] + Zeros(k + 1));
  }

  /** crc_ccitt_update feeds the bits of one byte. */
  method CcittUpdate(crc: nat, c: Byte, ghost r: BitSeq) returns (crc': nat)
    requires |r| == 16 && crc == Val(r)
    ensures crc' == Val(FeedAll(Generator(), r, ByteBits(c)))
  {
    ghost var p, bits := Generator(), ByteBits(c);
    crc' := XorWord(crc, c * 256);
    InHighByte(c);
    XorVal(r, bits + Zeros(8));
    for i := 0 to 8
      invariant crc' == Val(Xor(FeedAll(p, r, bits[..i]), bits[i..] + Zeros(8 + i)))
    {
      FeedTurn(crc', FeedAll(p, r, bits[..i]), bits[i..], 8 + i);
      assert bits[..i + 1][..i] == bits[..i] && bits[i..][1..] == bits[i + 1..];
      var d := Doubled(crc', TOP_BIT);
      crc' := if Has(crc', TOP_BIT) then XorWord(d, POLY) else d;
    }
    assert bits[..8] == bits && bits[8..] + Zeros(16) == Zeros(16);
    XorZero(FeedAll(p, r, bits));
  }

  lemma InHighByte(c: Byte)
    ensures Val(ByteBits(c) + Zeros(8)) == c * 256
  {
    Powers();
    ValJoin(ByteBits(c), Zeros(8));
    ZeroVal(8);
  }

  ghost function Feeding(bytes: seq<Byte>): (r: BitSeq)
    ensures |r| == 16
  {
    FeedAll(Generator(), Start(), BytesBits(bytes))
  }

  lemma FeedMore(bytes: seq<Byte>, b: Byte)
    ensures Feeding(bytes + [b]) == FeedAll(Generator(), Feeding(bytes), ByteBits(b))
  {
    BytesBitsMore(bytes, b);
    FeedConcat(Generator(), Start(), BytesBits(bytes), ByteBits(b));
  }

  lemma FeedPrefix()
    ensures Feeding([]) == Start()
    ensures Feeding([0x31]) == FeedAll(Generator(), Start(), ByteBits(0x31))
    ensures Feeding([0x31, 0xFA]) == FeedAll(Generator(), Feeding([0x31]), ByteBits(0xFA))
    ensures Feeding(PREFIX) == FeedAll(Generator(), Feeding([0x31, 0xFA]), ByteBits(0xB6))
  {
    var one: seq<Byte> := [0x31];
    FeedMore([], 0x31);
    assert [] + one == one;
    FeedMore(one, 0xFA);
    assert one + [0xFA] == [0x31, 0xFA];
    FeedMore([0x31, 0xFA], 0xB6);
    assert [0x31, 0xFA] + [0xB6] == PREFIX;
  }

  method PrefixCrc() returns (crc: nat)
    ensures crc == Val(Feeding(PREFIX))
  {
    FeedPrefix();
    crc := CcittUpdate(START, 0x31, Start());
    crc := CcittUpdate(crc, 0xFA, Feeding([0x31]));
    crc := CcittUpdate(crc, 0xB6, Feeding([0x31, 0xFA]));
  }

  /** flarm_crc: a fixed prefix, then the data bytes. */
  method Crc(payload: seq<Byte>) returns (crc: nat)
    requires |payload| == FRAME_LEN
    ensures crc == Val(Feeding(PREFIX + payload[..DATA_LEN]))
  {
    crc := PrefixCrc();
    assert PREFIX + payload[..0] == PREFIX;
    for i := 0 to DATA_LEN
      invariant crc == Val(Feeding(PREFIX + payload[..i]))
    {
      crc := CcittUpdate(crc, payload[i], Feeding(PREFIX + payload[..i]));
      FeedMore(PREFIX + payload[..i], payload[i]);
      assert PREFIX + payload[..i] + [payload[i]] == PREFIX + payload[..i + 1];
    }
  }

  ghost predicate Fits(payload: seq<Byte>)
    requires |payload| == FRAME_LEN
  {
    256 * (payload[24] as int) + payload[25] == Val(Feeding(PREFIX + payload[..DATA_LEN]))
  }

  method CheckCrc(payload: seq<Byte>) returns (ok: bool)
    requires |payload| == FRAME_LEN
    ensures ok <==> Fits(payload)
  {
    var received := 256 * (payload[24] as int) + payload[25];
    var crc := Crc(payload);
    ok := crc == received;
  }

  /** A fitting frame, as one bit sequence with its check bits. */
  lemma FittingBits(payload: seq<Byte>)
    requires |payload| == FRAME_LEN && Fits(payload)
    ensures var d := BytesBits(PREFIX + payload[..DATA_LEN]);
      BytesBits(PREFIX) + BytesBits(payload) == d + FeedAll(Generator(), Start(), d)
  {
    var d, x, y := payload[..DATA_LEN], ByteBits(payload[24]), ByteBits(payload[25]);
    assert payload == d + [payload[24]] + [payload[25]];
    BytesBitsMore(d, payload[24]);
    BytesBitsMore(d + [payload[24]], payload[25]);
    FlatConcat(b => ByteBits(b), PREFIX, d);
    Powers();
    ValJoin(x, y);
    ValUnique(x + y, Feeding(PREFIX + d));
    assert BytesBits(PREFIX) + (BytesBits(d) + x + y) == BytesBits(PREFIX) + BytesBits(d) + (x + y);
  }

  /** Any change within 16 neighbouring bits of a good frame is noticed, the check bits included. */
  lemma BurstCaught(payload: seq<Byte>, got: seq<Byte>)
    requires |payload| == |got| == FRAME_LEN
    requires Fits(payload) && Burst(BytesBits(payload), BytesBits(got), 16)
    ensures !Fits(got)
  {
    if Fits(got) {
      FittingBits(payload);
      FittingBits(got);
      BytesBitsLength(PREFIX + payload[..DATA_LEN]);
      BytesBitsLength(PREFIX + got[..DATA_LEN]);
      FeedDifference(Generator(), Start(), BytesBits(PREFIX + payload[..DATA_LEN]), BytesBits(PREFIX + got[..DATA_LEN]));
      BurstBehind(BytesBits(PREFIX), BytesBits(payload), BytesBits(got), 16);
      BurstShows(Generator(), BytesBits(PREFIX) + BytesBits(payload), BytesBits(PREFIX) + BytesBits(got));
    }
  }

  lemma BurstBehind(head: BitSeq, a: BitSeq, b: BitSeq, w: nat)
    requires Burst(a, b, w)
    ensures Burst(head + a, head + b, w)
  {
    var lo: nat :| SameAround(a, b, lo, w);
    assert SameAround(head + a, head + b, |head| + lo, w);
    var i :| 0 <= i < |a| && a[i] != b[i];
    assert (head + a)[|head| + i] != (head + b)[|head| + i];
  }
}
