/** Machine words as bit sequences, highest bit first, and the operators of C on them. */
module WordBits {
  import opened Words
  import opened ShiftRegister

  function Pow2(n: nat): (p: nat)
    ensures p >= 1
  {
    if n == 0 then 1 else 2 * Pow2(n - 1)
  }

  lemma Powers()
    ensures Pow2(7) == 0x80 && Pow2(8) == 0x100 && Pow2(15) == 0x8000 && Pow2(16) == 0x1_0000
    ensures Pow2(24) == 0x100_0000 && Pow2(31) == 0x8000_0000
  {
    assert Pow2(4) == 16;
    assert Pow2(7) == 128;
    assert Pow2(8) == 256;
    assert Pow2(12) == 0x1000;
    assert Pow2(15) == 0x8000;
    assert Pow2(16) == 0x1_0000;
    assert Pow2(20) == 0x10_0000;
    assert Pow2(24) == 0x100_0000;
    assert Pow2(28) == 0x1000_0000;
    assert Pow2(31) == 0x8000_0000;
  }

  ghost function Val(b: BitSeq): nat
    decreases |b|
  {
    if b == [] then 0 else 2 * Val(b[..|b| - 1]) + if b[|b| - 1] then 1 else 0
  }

  lemma {:induction false} ValBelow(b: BitSeq)
    ensures Val(b) < Pow2(|b|)
    decreases |b|
  {
    if b != [] {
      ValBelow(b[..|b| - 1]);
    }
  }

  lemma {:induction false} ValUnique(a: BitSeq, b: BitSeq)
    requires |a| == |b| && Val(a) == Val(b)
    ensures a == b
    decreases |a|
  {
    if a != [] {
      var n := |a| - 1;
      ValUnique(a[..n], b[..n]);
      assert a == a[..n] + [a[n]] && b == b[..n] + [b[n]];
    }
  }

  lemma {:induction false} ValOnto(c: nat, n: nat)
    requires c < Pow2(n)
    ensures exists b: BitSeq :: |b| == n && Val(b) == c
    decreases n
  {
    if n == 0 {
      assert Val([]) == c;
    } else {
      ValOnto(c / 2, n - 1);
      var b: BitSeq :| |b| == n - 1 && Val(b) == c / 2;
      assert (b + [c % 2 == 1])[..n - 1] == b;
      assert Val(b + [c % 2 == 1]) == c;
    }
  }

  /** The lowest n bits of a number. */
  ghost function Bits(c: nat, n: nat): (b: BitSeq)
    requires c < Pow2(n)
    ensures |b| == n && Val(b) == c
  {
    ValOnto(c, n);
    var b: BitSeq :| |b| == n && Val(b) == c;
    b
  }

  lemma {:induction false} ZeroVal(n: nat)
    ensures Val(Zeros(n)) == 0
  {
    if n > 0 {
      ZeroVal(n - 1);
      assert Zeros(n)[..n - 1] == Zeros(n - 1);
    }
  }

  lemma TimesDouble(x: nat, y: nat)
    ensures x * (2 * y) == 2 * (x * y)
  {
  }

  lemma {:induction false} ValJoin(a: BitSeq, b: BitSeq)
    ensures Val(a + b) == Val(a) * Pow2(|b|) + Val(b)
    decreases |b|
  {
    if b == [] {
      assert a + b == a;
    } else {
      var n := |b| - 1;
      ValJoin(a, b[..n]);
      assert (a + b)[..|a| + n] == a + b[..n];
      TimesDouble(Val(a), Pow2(n));
    }
  }

  function XorWord(a: nat, b: nat): nat
    decreases a + b
  {
    if a == 0 && b == 0 then 0
    else 2 * XorWord(a / 2, b / 2) + if a % 2 != b % 2 then 1 else 0
  }

  /** Bit i of a number, 0 being the lowest. */
  predicate Bit(x: nat, i: nat)
    decreases i
  {
    if i == 0 then x % 2 == 1 else Bit(x / 2, i - 1)
  }

  lemma {:induction false} XorBit(a: nat, b: nat, i: nat)
    ensures Bit(XorWord(a, b), i) <==> Bit(a, i) != Bit(b, i)
    decreases i
  {
    if i > 0 {
      XorBit(a / 2, b / 2, i - 1);
      assert XorWord(a, b) / 2 == XorWord(a / 2, b / 2);
    }
  }

  lemma {:induction false} ZeroBit(i: nat)
    ensures !Bit(0, i)
    decreases i
  {
    if i > 0 {
      ZeroBit(i - 1);
    }
  }

  /** `u >> m` */
  function High(u: nat, m: nat): nat
    decreases m, u
  {
    if m == 0 then u else High(u / 2, m - 1)
  }

  /** `u & ((1 << m) - 1)` */
  function Low(u: nat, m: nat): nat
    decreases m, u
  {
    if m == 0 then 0 else 2 * Low(u / 2, m - 1) + u % 2
  }

  /** `a << e` without a limit on the width. */
  function Left(a: nat, e: nat): nat
    decreases e, a
  {
    if e == 0 then a else 2 * Left(a, e - 1)
  }

  lemma {:induction false} HighBit(x: nat, n: nat, i: nat)
    ensures Bit(High(x, n), i) <==> Bit(x, i + n)
    decreases n
  {
    if n > 0 {
      HighBit(x / 2, n - 1, i);
    }
  }

  lemma {:induction false} LowBit(x: nat, m: nat, i: nat)
    ensures Bit(Low(x, m), i) <==> i < m && Bit(x, i)
    decreases m
  {
    if m == 0 {
      ZeroBit(i);
    } else {
      assert Low(x, m) / 2 == Low(x / 2, m - 1);
      if i > 0 {
        LowBit(x / 2, m - 1, i - 1);
      }
    }
  }

  lemma {:induction false} LeftBit(x: nat, n: nat, i: nat)
    ensures Bit(Left(x, n), i) <==> i >= n && Bit(x, i - n)
    decreases n
  {
    if n > 0 {
      assert Left(x, n) / 2 == Left(x, n - 1);
      if i > 0 {
        LeftBit(x, n - 1, i - 1);
      }
    }
  }

  /** What a word of m bits keeps of a number. */
  lemma {:induction false} LowIs(x: nat, m: nat, q: nat)
    requires q == High(x, m)
    ensures x == q * Pow2(m) + Low(x, m) && Low(x, m) < Pow2(m)
    decreases m
  {
    if m > 0 {
      LowIs(x / 2, m - 1, q);
      TimesDouble(q, Pow2(m - 1));
    }
  }

  function OrWord(a: nat, b: nat): nat
    decreases a + b
  {
    if a == 0 && b == 0 then 0
    else 2 * OrWord(a / 2, b / 2) + if a % 2 == 1 || b % 2 == 1 then 1 else 0
  }

  lemma {:induction false} XorVal(a: BitSeq, b: BitSeq)
    requires |a| == |b|
    ensures Val(Xor(a, b)) == XorWord(Val(a), Val(b))
    decreases |a|
  {
    if a != [] {
      var n := |a| - 1;
      XorVal(a[..n], b[..n]);
      assert Xor(a, b)[..n] == Xor(a[..n], b[..n]);
      XorStep(Val(a[..n]), a[n], Val(b[..n]), b[n]);
    }
  }

  lemma XorStep(x: nat, a: bool, y: nat, b: bool)
    ensures XorWord(2 * x + if a then 1 else 0, 2 * y + if b then 1 else 0)
            == 2 * XorWord(x, y) + if a != b then 1 else 0
  {
    var u, v := 2 * x + if a then 1 else 0, 2 * y + if b then 1 else 0;
    assert u / 2 == x && v / 2 == y;
  }

  function OrBits(a: BitSeq, b: BitSeq): (x: BitSeq)
    requires |a| == |b|
    ensures |x| == |a| && forall i {:trigger x[i]} :: 0 <= i < |a| ==> x[i] == (a[i] || b[i])
  {
    seq(|a|, i requires 0 <= i < |a| => a[i] || b[i])
  }

  lemma {:induction false} OrVal(a: BitSeq, b: BitSeq)
    requires |a| == |b|
    ensures Val(OrBits(a, b)) == OrWord(Val(a), Val(b))
    decreases |a|
  {
    if a != [] {
      var n := |a| - 1;
      OrVal(a[..n], b[..n]);
      assert OrBits(a, b)[..n] == OrBits(a[..n], b[..n]);
      OrStep(Val(a[..n]), a[n], Val(b[..n]), b[n]);
    }
  }

  lemma OrStep(x: nat, a: bool, y: nat, b: bool)
    ensures OrWord(2 * x + if a then 1 else 0, 2 * y + if b then 1 else 0)
            == 2 * OrWord(x, y) + if a || b then 1 else 0
  {
    var u, v := 2 * x + if a then 1 else 0, 2 * y + if b then 1 else 0;
    assert u / 2 == x && v / 2 == y;
  }

  /** `c << 1` in a word whose highest bit is worth `top`. */
  function Doubled(c: nat, top: nat): nat
    requires top > 0
  {
    2 * c % (2 * top)
  }

  /** `c & top`, for a power of two. */
  predicate Has(c: nat, top: nat)
    requires top > 0
  {
    c / top % 2 == 1
  }

  lemma DoubledVal(b: BitSeq, top: nat)
    requires b != [] && top == Pow2(|b| - 1)
    ensures Has(Val(b), top) == b[0]
    ensures Doubled(Val(b), top) == Val(b[1..] + [false])
  {
    var t, rest := if b[0] then 1 else 0, b[1..];
    assert b == [b[0]] + rest;
    ValJoin([b[0]], rest);
    assert Val([b[0]]) == t by {
      assert Val([]) == 0;
    }
    ValBelow(rest);
    RemainderUnique(Val(b), t, Val(rest), top);
    assert (rest + [false])[..|rest|] == rest;
    assert 2 * (t * top) == t * (2 * top);
    RemainderUnique(2 * Val(b), t, 2 * Val(rest), 2 * top);
  }

  // --- bytes ---

  ghost function Flat<T>(f: T -> BitSeq, items: seq<T>): BitSeq
    decreases |items|
  {
    if items == [] then [] else Flat(f, items[..|items| - 1]) + f(items[|items| - 1])
  }

  lemma {:induction false} FlatConcat<T>(f: T -> BitSeq, a: seq<T>, b: seq<T>)
    ensures Flat(f, a + b) == Flat(f, a) + Flat(f, b)
    decreases |b|
  {
    if b == [] {
      assert a + b == a;
    } else {
      var n := |b| - 1;
      FlatConcat(f, a, b[..n]);
      assert (a + b)[..|a| + n] == a + b[..n];
      assert Flat(f, a) + (Flat(f, b[..n]) + f(b[n])) == Flat(f, a) + Flat(f, b[..n]) + f(b[n]);
    }
  }

  ghost function ByteBits(b: Byte): (s: BitSeq)
    ensures |s| == 8 && Val(s) == b
  {
    assert Pow2(8) == 256;
    Bits(b, 8)
  }

  /** The bits of a frame in the order they are sent. */
  ghost function BytesBits(bytes: seq<Byte>): BitSeq {
    Flat(b => ByteBits(b), bytes)
  }

  lemma BytesBitsMore(bytes: seq<Byte>, b: Byte)
    ensures BytesBits(bytes + [b]) == BytesBits(bytes) + ByteBits(b)
  {
    assert (bytes + [b])[..|bytes|] == bytes;
  }

  lemma {:induction false} BytesBitsLength(bytes: seq<Byte>)
    ensures |BytesBits(bytes)| == 8 * |bytes|
    decreases |bytes|
  {
    if bytes != [] {
      BytesBitsLength(bytes[..|bytes| - 1]);
      BytesBitsMore(bytes[..|bytes| - 1], bytes[|bytes| - 1]);
      assert bytes == bytes[..|bytes| - 1] + [bytes[|bytes| - 1]];
    }
  }
}
