/**
 * Remainders in a shift register, as bit sequences. Nothing here depends on a width or
 * a polynomial, so the CRC-24 of ADS-L and the CRC-16 of FLARM share every theorem.
 */
module ShiftRegister {

  type BitSeq = seq<bool>

  function Zeros(n: nat): (z: BitSeq)
    ensures |z| == n && forall i {:trigger z[i]} :: 0 <= i < n ==> !z[i]
  {
    seq(n, _ => false)
  }

  function Xor(a: BitSeq, b: BitSeq): (x: BitSeq)
    requires |a| == |b|
    ensures |x| == |a| && forall i {:trigger x[i]} :: 0 <= i < |a| ==> x[i] == (a[i] != b[i])
  {
    seq(|a|, i requires 0 <= i < |a| => a[i] != b[i])
  }

  /** One bit enters on the right; the polynomial (without its leading 1) is taken away when a 1 leaves on the left. */
  function Step(p: BitSeq, r: BitSeq, b: bool): (r': BitSeq)
    requires |r| == |p| > 0
    ensures |r'| == |p|
  {
    Xor(r[1..] + [b], if r[0] then p else Zeros(|p|))
  }

  function Shift(p: BitSeq, r: BitSeq, bits: BitSeq): (r': BitSeq)
    requires |r| == |p| > 0
    ensures |r'| == |p|
    decreases |bits|
  {
    if bits == [] then r else Step(p, Shift(p, r, bits[..|bits| - 1]), bits[|bits| - 1])
  }

  /** The remainder of the bits, read as a polynomial. */
  function Rem(p: BitSeq, bits: BitSeq): (r: BitSeq)
    requires |p| > 0
    ensures |r| == |p|
  {
    Shift(p, Zeros(|p|), bits)
  }

  lemma ShiftMore(p: BitSeq, r: BitSeq, bits: BitSeq, b: bool)
    requires |r| == |p| > 0
    ensures Shift(p, r, bits + [b]) == Step(p, Shift(p, r, bits), b)
  {
    assert (bits + [b])[..|bits|] == bits;
  }

  lemma {:induction false} ShiftConcat(p: BitSeq, r: BitSeq, a: BitSeq, b: BitSeq)
    requires |r| == |p| > 0
    ensures Shift(p, r, a + b) == Shift(p, Shift(p, r, a), b)
    decreases |b|
  {
    if b == [] {
      assert a + b == a;
    } else {
      var n := |b| - 1;
      ShiftConcat(p, r, a, b[..n]);
      assert (a + b)[..|a| + n] == a + b[..n];
    }
  }

  lemma StepXor(p: BitSeq, r: BitSeq, s: BitSeq, a: bool, b: bool)
    requires |r| == |s| == |p| > 0
    ensures Step(p, Xor(r, s), a != b) == Xor(Step(p, r, a), Step(p, s, b))
  {
  }

  /** Shifting is linear: differences travel on their own. */
  lemma {:induction false} ShiftXor(p: BitSeq, r: BitSeq, s: BitSeq, a: BitSeq, b: BitSeq)
    requires |r| == |s| == |p| > 0 && |a| == |b|
    ensures Shift(p, Xor(r, s), Xor(a, b)) == Xor(Shift(p, r, a), Shift(p, s, b))
    decreases |a|
  {
    if a != [] {
      var n := |a| - 1;
      ShiftXor(p, r, s, a[..n], b[..n]);
      assert Xor(a, b)[..n] == Xor(a[..n], b[..n]);
      StepXor(p, Shift(p, r, a[..n]), Shift(p, s, b[..n]), a[n], b[n]);
    }
  }

  lemma {:induction false} ZerosStay(p: BitSeq, n: nat)
    requires |p| > 0
    ensures Rem(p, Zeros(n)) == Zeros(|p|)
  {
    if n > 0 {
      ZerosStay(p, n - 1);
      assert Zeros(n)[..n - 1] == Zeros(n - 1);
    }
  }

  /** Bits that have not reached the left end are still there. */
  lemma {:induction false} ShortRun(p: BitSeq, bits: BitSeq)
    requires |p| > 0 && |bits| <= |p|
    ensures Rem(p, bits) == Zeros(|p| - |bits|) + bits
    decreases |bits|
  {
    if bits != [] {
      ShortRun(p, bits[..|bits| - 1]);
    }
  }

  /** With a polynomial that ends in 1, shifting in zeros never clears a register that is not clear. */
  lemma {:induction false} NonzeroStays(p: BitSeq, r: BitSeq, n: nat)
    requires |r| == |p| > 0 && p[|p| - 1] && r != Zeros(|p|)
    ensures Shift(p, r, Zeros(n)) != Zeros(|p|)
  {
    if n > 0 {
      NonzeroStays(p, r, n - 1);
      assert Zeros(n)[..n - 1] == Zeros(n - 1);
      var q := Shift(p, r, Zeros(n - 1));
      var i :| 0 <= i < |q| && q[i];
      assert if q[0] then Step(p, q, false)[|p| - 1] else Step(p, q, false)[i - 1];
    }
  }

  lemma XorSelf(a: BitSeq)
    ensures Xor(a, a) == Zeros(|a|)
  {
  }

  lemma XorZero(a: BitSeq)
    ensures Xor(Zeros(|a|), a) == a && Xor(a, Zeros(|a|)) == a
  {
  }

  lemma XorConcat(a: BitSeq, b: BitSeq, c: BitSeq, d: BitSeq)
    requires |a| == |c| && |b| == |d|
    ensures Xor(a + b, c + d) == Xor(a, c) + Xor(b, d)
  {
  }

  lemma XorClear(a: BitSeq, b: BitSeq)
    requires |a| == |b|
    ensures Xor(a, b) == Zeros(|a|) <==> a == b
  {
    if Xor(a, b) == Zeros(|a|) {
      forall i | 0 <= i < |a|
        ensures a[i] == b[i]
      {
        assert !Xor(a, b)[i];
      }
      assert a == b;
    } else if a == b {
      XorSelf(a);
    }
  }

  lemma RemXor(p: BitSeq, a: BitSeq, b: BitSeq)
    requires |p| > 0 && |a| == |b|
    ensures Rem(p, Xor(a, b)) == Xor(Rem(p, a), Rem(p, b))
  {
    XorSelf(Zeros(|p|));
    ShiftXor(p, Zeros(|p|), Zeros(|p|), a, b);
  }

  /** Leading zeros change nothing. */
  lemma RemSkip(p: BitSeq, n: nat, bits: BitSeq)
    requires |p| > 0
    ensures Rem(p, Zeros(n) + bits) == Rem(p, bits)
  {
    ShiftConcat(p, Zeros(|p|), Zeros(n), bits);
    ZerosStay(p, n);
  }

  /** The two differ, and only within w neighbouring bits. */
  ghost predicate Burst(a: BitSeq, b: BitSeq, w: nat) {
    |a| == |b| && a != b && exists lo: nat :: SameAround(a, b, lo, w)
  }

  ghost predicate SameAround(a: BitSeq, b: BitSeq, lo: nat, w: nat) {
    |a| == |b| && forall i :: 0 <= i < |a| && !(lo <= i < lo + w) ==> a[i] == b[i]
  }

  lemma BurstShape(a: BitSeq, b: BitSeq, lo: nat, w: nat) returns (n: nat, mid: BitSeq, m: nat)
    requires SameAround(a, b, lo, w) && a != b
    ensures |mid| <= w && mid != Zeros(|mid|) && Xor(a, b) == Zeros(n) + mid + Zeros(m)
  {
    var e := Xor(a, b);
    var i :| 0 <= i < |a| && a[i] != b[i];
    var to := if lo + w <= |a| then lo + w else |a|;
    n, mid, m := lo, e[lo..to], |a| - to;
    assert mid[i - lo];
  }

  /** A burst no longer than the register always changes the remainder. */
  lemma BurstShows(p: BitSeq, a: BitSeq, b: BitSeq)
    requires |p| > 0 && p[|p| - 1] && Burst(a, b, |p|)
    ensures Rem(p, a) != Rem(p, b)
  {
    var lo: nat :| SameAround(a, b, lo, |p|);
    var n, mid, m := BurstShape(a, b, lo, |p|);
    assert Zeros(n) + mid + Zeros(m) == Zeros(n) + (mid + Zeros(m));
    RemSkip(p, n, mid + Zeros(m));
    ShiftConcat(p, Zeros(|p|), mid, Zeros(m));
    ShortRunNonzero(p, mid);
    NonzeroStays(p, Rem(p, mid), m);
    RemXor(p, a, b);
    XorClear(Rem(p, a), Rem(p, b));
  }

  lemma ShortRunNonzero(p: BitSeq, bits: BitSeq)
    requires |p| > 0 && |bits| <= |p| && bits != Zeros(|bits|)
    ensures Rem(p, bits) != Zeros(|p|)
  {
    ShortRun(p, bits);
    var i :| 0 <= i < |bits| && bits[i];
    assert Rem(p, bits)[|p| - |bits| + i];
  }

  /** The remainder with the check bits in place is clear exactly if they equal the remainder with zeros in their place. */
  lemma TrailerExact(p: BitSeq, data: BitSeq, t: BitSeq)
    requires |t| == |p| > 0
    ensures Rem(p, data + t) == Xor(Rem(p, data + Zeros(|p|)), t)
    ensures Rem(p, data + t) == Zeros(|p|) <==> t == Rem(p, data + Zeros(|p|))
  {
    var w := |p|;
    XorConcat(data, Zeros(w), Zeros(|data|), t);
    XorZero(data);
    XorZero(t);
    RemXor(p, data + Zeros(w), Zeros(|data|) + t);
    RemSkip(p, |data|, t);
    ShortRun(p, t);
    assert Zeros(0) + t == t;
    XorClear(Rem(p, data + Zeros(w)), t);
  }

  // --- the other form, where bits enter on the left ---

  function Feed(p: BitSeq, r: BitSeq, b: bool): (r': BitSeq)
    requires |r| == |p| > 0
    ensures |r'| == |p|
  {
    Xor(r[1..] + [false], if r[0] != b then p else Zeros(|p|))
  }

  function FeedAll(p: BitSeq, r: BitSeq, bits: BitSeq): (r': BitSeq)
    requires |r| == |p| > 0
    ensures |r'| == |p|
    decreases |bits|
  {
    if bits == [] then r else Feed(p, FeedAll(p, r, bits[..|bits| - 1]), bits[|bits| - 1])
  }

  lemma {:induction false} FeedConcat(p: BitSeq, r: BitSeq, a: BitSeq, b: BitSeq)
    requires |r| == |p| > 0
    ensures FeedAll(p, r, a + b) == FeedAll(p, FeedAll(p, r, a), b)
    decreases |b|
  {
    if b == [] {
      assert a + b == a;
    } else {
      var n := |b| - 1;
      FeedConcat(p, r, a, b[..n]);
      assert (a + b)[..|a| + n] == a + b[..n];
    }
  }

  lemma {:induction false} FeedXor(p: BitSeq, r: BitSeq, s: BitSeq, a: BitSeq, b: BitSeq)
    requires |r| == |s| == |p| > 0 && |a| == |b|
    ensures FeedAll(p, Xor(r, s), Xor(a, b)) == Xor(FeedAll(p, r, a), FeedAll(p, s, b))
    decreases |a|
  {
    if a != [] {
      var n := |a| - 1;
      FeedXor(p, r, s, a[..n], b[..n]);
      assert Xor(a, b)[..n] == Xor(a[..n], b[..n]);
    }
  }

  /** A 1 followed by as many zeros as the register is wide leaves the polynomial. */
  lemma OneAndZeros(p: BitSeq)
    requires |p| > 0
    ensures Rem(p, [true] + Zeros(|p|)) == p
  {
    var w := |p|;
    var head := [true] + Zeros(w - 1);
    assert [true] + Zeros(w) == head + [false];
    ShiftMore(p, Zeros(w), head, false);
    ShortRun(p, head);
    assert Zeros(0) + head == head;
    assert Step(p, head, false) == Xor(Zeros(w), p) by {
      assert head[1..] + [false] == Zeros(w);
    }
    XorZero(p);
  }

  /** Feeding bits on the left of a clear register is the remainder with zeros appended. */
  lemma {:induction false} FeedIsRem(p: BitSeq, bits: BitSeq)
    requires |p| > 0
    ensures FeedAll(p, Zeros(|p|), bits) == Rem(p, bits + Zeros(|p|))
    decreases |bits|
  {
    var w := |p|;
    if bits == [] {
      assert bits + Zeros(w) == Zeros(w);
      ZerosStay(p, w);
    } else {
      var n := |bits| - 1;
      var before, b := bits[..n], bits[n];
      FeedIsRem(p, before);
      var q := Rem(p, before + Zeros(w));
      LastBit(p, before, b);
      assert bits == before + [b];
      assert Feed(p, q, b) == Xor(Step(p, q, false), if b then p else Zeros(w));
    }
  }

  lemma LastBit(p: BitSeq, before: BitSeq, b: bool)
    requires |p| > 0
    ensures Rem(p, before + [b] + Zeros(|p|))
            == Xor(Step(p, Rem(p, before + Zeros(|p|)), false), if b then p else Zeros(|p|))
  {
    var w := |p|;
    var tail := [b] + Zeros(w);
    assert before + [b] + Zeros(w) == before + tail;
    assert before + Zeros(w) + [false] == before + Zeros(w + 1);
    XorConcat(before, Zeros(w + 1), Zeros(|before|), tail);
    XorZero(before);
    XorZero(tail);
    RemXor(p, before + Zeros(w + 1), Zeros(|before|) + tail);
    RemSkip(p, |before|, tail);
    ShiftMore(p, Zeros(w), before + Zeros(w), false);
    if b {
      OneAndZeros(p);
    } else {
      assert tail == Zeros(w + 1);
      ZerosStay(p, w + 1);
    }
  }

  lemma FeedGap(p: BitSeq, r: BitSeq, a: BitSeq, b: BitSeq)
    requires |r| == |p| > 0 && |a| == |b|
    ensures Xor(FeedAll(p, r, a), FeedAll(p, r, b)) == Rem(p, Xor(a, b) + Zeros(|p|))
  {
    XorSelf(r);
    FeedXor(p, r, r, a, b);
    FeedIsRem(p, Xor(a, b));
  }

  /** The two forms agree on differences: if check bits fit on both, both have the same remainder. */
  lemma FeedDifference(p: BitSeq, r: BitSeq, a: BitSeq, b: BitSeq)
    requires |r| == |p| > 0 && |a| == |b|
    ensures Rem(p, a + FeedAll(p, r, a)) == Rem(p, b + FeedAll(p, r, b))
  {
    var ta, tb := FeedAll(p, r, a), FeedAll(p, r, b);
    FeedGap(p, r, a, b);
    SameRemainder(p, a, b, ta, tb);
  }

  lemma SameRemainder(p: BitSeq, a: BitSeq, b: BitSeq, ta: BitSeq, tb: BitSeq)
    requires |ta| == |tb| == |p| > 0 && |a| == |b|
    requires Xor(ta, tb) == Rem(p, Xor(a, b) + Zeros(|p|))
    ensures Rem(p, a + ta) == Rem(p, b + tb)
  {
    TrailerExact(p, Xor(a, b), Xor(ta, tb));
    XorConcat(a, ta, b, tb);
    RemXor(p, a + ta, b + tb);
    XorClear(Rem(p, a + ta), Rem(p, b + tb));
  }

  /** The width is the limit: the polynomial itself, one bit longer than the register, is a change that does not show. */
  lemma LongerBurstHides(p: BitSeq, n: nat, m: nat)
    requires |p| > 0
    ensures Rem(p, Zeros(n) + ([true] + p + Zeros(m))) == Zeros(|p|)
  {
    var w := |p|;
    RemSkip(p, n, [true] + p + Zeros(m));
    ShiftConcat(p, Zeros(w), [true] + p, Zeros(m));
    OneAndZeros(p);
    TrailerExact(p, [true], p);
    ZerosStay(p, m);
  }
}
