/**
 * The number formats of FLARM and ADS-L packets: values whose step doubles from range to
 * range (descale in flarm.cpp, uns_vr_decode in adsl.cpp), and positions of which only the
 * low bits are sent (decode_v7 in flarm.cpp).
 */
module Codes {
  import opened Words
  import opened WordBits

  // --- shifts ---

  lemma {:induction false} LowBound(u: nat, m: nat)
    ensures Low(u, m) < Pow2(m)
    decreases m
  {
    if m > 0 {
      LowBound(u / 2, m - 1);
    }
  }

  lemma {:induction false} HighBound(u: nat, m: nat, k: nat)
    requires u < Pow2(m + k)
    ensures High(u, m) < Pow2(k)
    decreases m
  {
    if m > 0 {
      HighBound(u / 2, m - 1, k);
    }
  }

  /** Counting up carries from the low part into the high part. */
  lemma {:induction false} Successor(u: nat, m: nat)
    ensures if Low(u, m) + 1 == Pow2(m) then High(u + 1, m) == High(u, m) + 1 && Low(u + 1, m) == 0
            else High(u + 1, m) == High(u, m) && Low(u + 1, m) == Low(u, m) + 1
    decreases m
  {
    if m > 0 {
      Successor(u / 2, m - 1);
      if u % 2 == 0 {
        assert (u + 1) / 2 == u / 2;
      } else {
        assert (u + 1) / 2 == u / 2 + 1;
      }
    }
  }

  lemma {:induction false} Below(u: nat, m: nat)
    requires u < Pow2(m)
    ensures High(u, m) == 0 && Low(u, m) == u
    decreases m
  {
    if m > 0 {
      Below(u / 2, m - 1);
    }
  }

  lemma {:induction false} LeftMore(a: nat, e: nat)
    ensures Left(a + 1, e) == Left(a, e) + Pow2(e)
    ensures Left(2 * a, e) == Left(a, e + 1)
    decreases e
  {
    if e > 0 {
      LeftMore(a, e - 1);
    }
  }

  lemma {:induction false} LeftBound(a: nat, m: nat, e: nat)
    requires a < Pow2(m)
    ensures a <= Left(a, e) < Pow2(m + e)
    decreases e
  {
    if e > 0 {
      LeftBound(a, m, e - 1);
    }
  }

  lemma {:induction false} PowersGrow(a: nat, b: nat)
    requires a <= b
    ensures Pow2(a) <= Pow2(b)
    decreases b
  {
    if a < b {
      PowersGrow(a, b - 1);
    }
  }

  // --- descale and uns_vr_decode ---

  /** The value of mantissa v in range e, for mantissas of m bits, without sign and word width. */
  function At(e: nat, v: nat, m: nat): int {
    Left(v + Pow2(m), e) - Pow2(m)
  }

  function Scaled(u: nat, m: nat): int {
    At(High(u, m), Low(u, m), m)
  }

  /** How far the code lies below the next. */
  function Step(u: nat, m: nat): nat {
    Pow2(High(u, m))
  }

  /** descale in 32-bit arithmetic, on the code without its sign bit. */
  function DescaleUnsigned(u: nat, mbits: nat): nat {
    var offset := Pow2(mbits);
    if u >= offset then Wrap(Wrap(Left(Low(u, mbits) + offset, High(u, mbits))) - offset) else u
  }

  function Descale(value: nat, mbits: nat, ebits: nat): int {
    var magnitude: int := DescaleUnsigned(Low(value, mbits + ebits), mbits);
    if High(value, mbits + ebits) % 2 == 1 then -magnitude else magnitude
  }

  /** The four ranges of uns_vr_decode. */
  function VrAt(range: nat, v: nat, thres: nat): nat {
    if range == 0 then v
    else if range == 1 then thres + 1 + 2 * v
    else if range == 2 then 3 * thres + 2 + 4 * v
    else 7 * thres + 4 + 8 * v
  }

  function VrDecode(value: nat, bits: nat): nat {
    VrAt(High(value, bits), Low(value, bits), Pow2(bits))
  }

  /** sign_vr_decode */
  function SignVrDecode(value: nat, bits: nat): int {
    var v: int := VrDecode(Low(value, bits + 2), bits);
    if High(value, bits + 2) % 2 == 1 then -v else v
  }

  /** Each code is exactly one step of its range below the next, also across ranges. */
  lemma StepIs(u: nat, m: nat)
    ensures Scaled(u + 1, m) == Scaled(u, m) + Step(u, m)
  {
    Successor(u, m);
    LowBound(u, m);
    LeftMore(Low(u, m) + Pow2(m), High(u, m));
    LeftMore(Pow2(m), High(u, m));
  }

  lemma {:induction false} Increasing(a: nat, b: nat, m: nat)
    requires a < b
    ensures Scaled(a, m) + Step(a, m) <= Scaled(b, m)
    decreases b
  {
    StepIs(b - 1, m);
    if a < b - 1 {
      Increasing(a, b - 1, m);
    }
  }

  /** In words of 32 bits nothing is lost as long as mantissa, leading bit and largest shift fit. */
  lemma DescaleExact(u: nat, mbits: nat, ebits: nat)
    requires u < Pow2(mbits + ebits) && mbits + Pow2(ebits) <= 32
    ensures DescaleUnsigned(u, mbits) == Scaled(u, mbits)
  {
    HighBound(u, mbits, ebits);
    LowBound(u, mbits);
    var a, e := Low(u, mbits) + Pow2(mbits), High(u, mbits);
    LeftBound(a, mbits + 1, e);
    PowersGrow(mbits + 1 + e, 32);
    assert Pow2(32) == U32 by {
      Powers();
    }
    SmallRemainder(Left(a, e), U32);
    SmallRemainder(Left(a, e) - Pow2(mbits), U32);
    if u < Pow2(mbits) {
      Below(u, mbits);
    }
  }

  /** descale is strictly increasing in the code without its sign. */
  lemma DescaleIncreasing(a: nat, b: nat, mbits: nat, ebits: nat)
    requires a < b < Pow2(mbits + ebits) && mbits + Pow2(ebits) <= 32
    ensures DescaleUnsigned(a, mbits) < DescaleUnsigned(b, mbits)
  {
    DescaleExact(a, mbits, ebits);
    DescaleExact(b, mbits, ebits);
    Increasing(a, b, mbits);
  }

  lemma HalfAt(e: nat, v: nat, m: nat)
    requires e < 4
    ensures VrAt(e, v, Pow2(m)) == At(e, v, m) + Pow2(e) / 2
  {
    var a := v + Pow2(m);
    assert Left(a, 0) == a && Left(a, 1) == 2 * a && Left(a, 2) == 4 * a && Left(a, 3) == 8 * a;
    assert Pow2(0) == 1 && Pow2(1) == 2 && Pow2(2) == 4 && Pow2(3) == 8;
  }

  /** The two formats differ by exactly half a step of the range in use. */
  lemma HalfAStepApart(u: nat, bits: nat)
    requires u < Pow2(bits + 2)
    ensures VrDecode(u, bits) == Scaled(u, bits) + Step(u, bits) / 2
  {
    HighBound(u, bits, 2);
    assert Pow2(2) == 4;
    HalfAt(High(u, bits), Low(u, bits), bits);
  }

  lemma VrIncreasing(a: nat, b: nat, bits: nat)
    requires a < b < Pow2(bits + 2)
    ensures VrDecode(a, bits) < VrDecode(b, bits)
  {
    HalfAStepApart(a, bits);
    HalfAStepApart(b, bits);
    Increasing(a, b, bits);
  }

  /** Values from one code up to the next. */
  predicate InCell(n: int, u: nat, m: nat) {
    Scaled(u, m) <= n < Scaled(u, m) + Step(u, m)
  }

  /** The codes leave no value out and count none twice. */
  lemma {:induction false} CellExists(n: nat, top: nat, m: nat)
    requires n < Scaled(top, m)
    ensures exists u: nat :: u < top && InCell(n, u, m)
    decreases top
  {
    if top == 0 {
      Below(0, m);
    } else {
      StepIs(top - 1, m);
      if n >= Scaled(top - 1, m) {
        assert InCell(n, top - 1, m);
      } else {
        CellExists(n, top - 1, m);
      }
    }
  }

  lemma CellUnique(n: nat, a: nat, b: nat, m: nat)
    requires InCell(n, a, m) && InCell(n, b, m)
    ensures a == b
  {
    if a < b {
      Increasing(a, b, m);
    } else if b < a {
      Increasing(b, a, m);
    }
  }

  /** A value rounded down to its code is read at most half a step off by uns_vr_decode. */
  lemma ErrorBound(n: nat, u: nat, bits: nat)
    requires u < Pow2(bits + 2) && InCell(n, u, bits)
    ensures 2 * VrDecode(u, bits) - 2 * n <= Step(u, bits)
    ensures 2 * n - 2 * VrDecode(u, bits) <= Step(u, bits)
  {
    HalfAStepApart(u, bits);
    HighBound(u, bits, 2);
    assert Pow2(0) == 1 && Pow2(1) == 2 && Pow2(2) == 4 && Pow2(3) == 8;
  }

  /** A code from its parts: the n low bits of u, the sign bit, and what lies above it. */
  function Code(u: nat, negative: bool, above: nat, n: nat): nat
    decreases n
  {
    if n == 0 then 2 * above + (if negative then 1 else 0) else 2 * Code(u / 2, negative, above, n - 1) + u % 2
  }

  lemma {:induction false} CodeIs(u: nat, negative: bool, above: nat, n: nat)
    requires u < Pow2(n)
    ensures Code(u, negative, above, n) == u + (2 * above + if negative then 1 else 0) * Pow2(n)
    decreases n
  {
    if n > 0 {
      CodeIs(u / 2, negative, above, n - 1);
      TimesDouble(2 * above + if negative then 1 else 0, Pow2(n - 1));
    }
  }

  lemma {:induction false} CodeParts(u: nat, negative: bool, above: nat, n: nat)
    requires u < Pow2(n)
    ensures Low(Code(u, negative, above, n), n) == u
    ensures High(Code(u, negative, above, n), n) == 2 * above + if negative then 1 else 0
    decreases n
  {
    if n > 0 {
      CodeParts(u / 2, negative, above, n - 1);
      assert Code(u, negative, above, n) / 2 == Code(u / 2, negative, above, n - 1);
    }
  }

  /** The value of a code is that of its low bits, negated if the bit above them is set, whatever lies above that. */
  lemma DescaleIs(u: nat, negative: bool, above: nat, mbits: nat, ebits: nat, code: nat)
    requires u < Pow2(mbits + ebits) && mbits + Pow2(ebits) <= 32 && code == Code(u, negative, above, mbits + ebits)
    ensures Descale(code, mbits, ebits) == if negative then -Scaled(u, mbits) else Scaled(u, mbits)
  {
    CodeParts(u, negative, above, mbits + ebits);
    DescaleExact(u, mbits, ebits);
    var v := DescaleUnsigned(u, mbits);
    PartsValue(u, negative, mbits, mbits + ebits, ebits, code, v, above);
  }

  lemma PartsValue(u: nat, negative: bool, mbits: nat, n: nat, ebits: nat, code: nat, v: int, above: nat)
    requires n == mbits + ebits && Low(code, n) == u && High(code, n) == 2 * above + (if negative then 1 else 0)
    requires DescaleUnsigned(u, mbits) == v
    ensures Descale(code, mbits, ebits) == if negative then -v else v
  {
  }

  /** So it is in the variable-resolution format, half a step further from 0. */
  lemma SignVrIs(u: nat, negative: bool, above: nat, bits: nat, code: nat)
    requires u < Pow2(bits + 2) && code == Code(u, negative, above, bits + 2)
    ensures SignVrDecode(code, bits)
            == if negative then -(Scaled(u, bits) + Step(u, bits) / 2) else Scaled(u, bits) + Step(u, bits) / 2
  {
    CodeParts(u, negative, above, bits + 2);
    HalfAStepApart(u, bits);
  }

  /** In the first range a code is its own value; with `StepIs` that fixes every other. */
  lemma FirstValues(u: nat, m: nat)
    requires u < Pow2(m)
    ensures Scaled(u, m) == u
  {
    Below(u, m);
  }

  // --- positions ---

  const LOW_BITS: nat := 0x10_0000

  /** A coordinate from its low 20 bits and a reference, in the arithmetic of decode_v7. */
  function Near(low: nat, ref: int): int {
    var d := Wrap(low - ref) % LOW_BITS;
    (if d >= LOW_BITS / 2 then d - LOW_BITS else d) + ref
  }

  /** It is the coordinate sent exactly if that lies within half the range of the reference. */
  lemma NearExact(x: int, ref: int)
    ensures Near(x % LOW_BITS, ref) == x <==> -(LOW_BITS / 2) <= x - ref < LOW_BITS / 2
  {
    var low := x % LOW_BITS;
    WrapMod(low - ref, LOW_BITS);
    ModShift(x - ref, -(x / LOW_BITS), LOW_BITS);
    assert (x - ref) + -(x / LOW_BITS) * LOW_BITS == low - ref;
    SmallRemainder(x - ref, LOW_BITS);
  }
}
