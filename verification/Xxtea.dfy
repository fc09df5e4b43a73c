/** The block cipher of FLARM and ADS-L frames (btea in flarm.cpp, xxtea_decrypt_key0 in adsl.cpp). */
module Xxtea {
  import opened Words
  import opened WordBits

  type Word = x: int | 0 <= x < U32

  const DELTA: Word := 0x9e3779b9
  const ROUNDS := 6

  type Key = k: seq<Word> | |k| == 4 witness [0, 0, 0, 0]

  const ZERO_KEY: Key := [0, 0, 0, 0]

  /** `(z >> 5 ^ y << 2) + (y >> 3 ^ z << 4)` */
  function Stir(y: Word, z: Word): Word {
    Wrap(XorWord(z / 32, Wrap(4 * y)) + XorWord(y / 8, Wrap(16 * z)))
  }

  /** The mixing function of btea, for one word of the key. */
  function Mx(y: Word, z: Word, sum: Word, k: Word): nat {
    XorWord(Stir(y, z), Wrap(XorWord(sum, y) + XorWord(k, z)))
  }

  /** xxtea_mx_key0. */
  function Mx0(y: Word, z: Word, sum: Word): nat {
    XorWord(Stir(y, z), Wrap(XorWord(sum, y) + z))
  }

  lemma {:induction false} XorZeroWord(z: nat)
    ensures XorWord(0, z) == z
  {
    if z > 0 {
      XorZeroWord(z / 2);
    }
  }

  lemma ZeroKeyMixes(y: Word, z: Word, sum: Word)
    ensures Mx(y, z, sum, 0) == Mx0(y, z, sum)
  {
    XorZeroWord(z);
  }

  /** `(p & 3) ^ e` with `e = (sum >> 2) & 3`. */
  function KeyIndex(p: nat, sum: Word): (i: nat)
    ensures i < 4
  {
    var a, e := p % 4, sum / 4 % 4;
    assert XorWord(0, 0) == 0 && XorWord(a / 2, e / 2) < 2;
    XorWord(a, e)
  }

  // --- the mixing function, bit by bit ---

  /** `c == from >> right ^ other << left` in words of 32 bits. */
  ghost predicate Crossed(c: nat, from: nat, right: nat, other: nat, left: nat) {
    forall i: nat {:trigger Bit(c, i)} :: Bit(c, i) <==> Bit(from, i + right) != (left <= i < 32 && Bit(other, i - left))
  }

  lemma CrossedBits(from: nat, right: nat, other: nat, left: nat, c: nat)
    requires c == XorWord(High(from, right), Low(Left(other, left), 32))
    ensures Crossed(c, from, right, other, left)
  {
    forall i: nat {:trigger Bit(c, i)}
      ensures Bit(c, i) <==> Bit(from, i + right) != (left <= i < 32 && Bit(other, i - left))
    {
      XorBit(High(from, right), Low(Left(other, left), 32), i);
      HighBit(from, right, i);
      LowBit(Left(other, left), 32, i);
      LeftBit(other, left, i);
    }
  }

  ghost predicate Differs(c: nat, a: nat, b: nat) {
    forall i: nat {:trigger Bit(c, i)} :: Bit(c, i) <==> Bit(a, i) != Bit(b, i)
  }

  lemma XorBits(a: nat, b: nat)
    ensures Differs(XorWord(a, b), a, b)
  {
    forall i: nat
      ensures Bit(XorWord(a, b), i) <==> Bit(a, i) != Bit(b, i)
    {
      XorBit(a, b, i);
    }
  }

  lemma WrapIsLow(x: nat)
    ensures Wrap(x) == Low(x, 32)
  {
    assert Pow2(32) == U32 by {
      Powers();
    }
    LowIs(x, 32, High(x, 32));
    RemainderUnique(x, High(x, 32), Low(x, 32), U32);
  }

  lemma RightThree(x: nat)
    ensures High(x, 3) == x / 8
  {
    assert High(x / 2 / 2, 1) == x / 2 / 2 / 2;
    assert High(x / 2, 2) == High(x / 2 / 2, 1);
  }

  lemma RightFive(x: nat)
    ensures High(x, 5) == x / 32
  {
    RightThree(x / 2 / 2);
    assert High(x / 2, 4) == High(x / 2 / 2, 3);
  }

  lemma LeftFour(x: nat)
    ensures Left(x, 2) == 4 * x && Left(x, 4) == 16 * x
  {
    assert Left(x, 1) == 2 * x;
    assert Left(x, 3) == 2 * Left(x, 2);
  }

  lemma StirBits(y: nat, z: nat, a: nat, b: nat)
    requires a == XorWord(z / 32, Wrap(4 * y)) && b == XorWord(y / 8, Wrap(16 * z))
    ensures Crossed(a, z, 5, y, 2) && Crossed(b, y, 3, z, 4)
  {
    RightFive(z);
    RightThree(y);
    LeftFour(y);
    LeftFour(z);
    WrapIsLow(4 * y);
    WrapIsLow(16 * z);
    CrossedBits(z, 5, y, 2, a);
    CrossedBits(y, 3, z, 4, b);
  }

  /** MX: two shifted pairs and two plain ones, each pair differing bit by bit, are added in twos, and the sums differ
   *  bit by bit. */
  lemma MxBits(y: Word, z: Word, sum: Word, k: Word) returns (a: nat, b: nat, c: nat, d: nat)
    ensures Crossed(a, z, 5, y, 2) && Crossed(b, y, 3, z, 4)
    ensures Differs(c, sum, y) && Differs(d, k, z)
    ensures Differs(Mx(y, z, sum, k), Wrap(a + b), Wrap(c + d))
  {
    a, b := XorWord(z / 32, Wrap(4 * y)), XorWord(y / 8, Wrap(16 * z));
    c, d := XorWord(sum, y), XorWord(k, z);
    StirBits(y, z, a, b);
    XorBits(sum, y);
    XorBits(k, z);
    MxSum(y, z, sum, k, a, b, c, d);
  }

  lemma MxSum(y: Word, z: Word, sum: Word, k: Word, a: nat, b: nat, c: nat, d: nat)
    requires a == XorWord(z / 32, Wrap(4 * y)) && b == XorWord(y / 8, Wrap(16 * z))
    requires c == XorWord(sum, y) && d == XorWord(k, z)
    ensures Differs(Mx(y, z, sum, k), Wrap(a + b), Wrap(c + d))
  {
    XorBits(Wrap(a + b), Wrap(c + d));
  }

  /** The word of the key: the low bits of the place, each turned over by a bit of the sum. */
  lemma KeyIndexBits(p: nat, sum: Word)
    ensures var i := KeyIndex(p, sum);
      i < 4 && (Bit(i, 0) <==> Bit(p, 0) != Bit(sum, 2)) && (Bit(i, 1) <==> Bit(p, 1) != Bit(sum, 3))
  {
    XorBit(p % 4, sum / 4 % 4, 0);
    XorBit(p % 4, sum / 4 % 4, 1);
    LowBits(p);
    LowBits(sum / 4);
    assert Bit(sum, 2) == Bit(sum / 2 / 2, 0) && Bit(sum, 3) == Bit(sum / 2 / 2, 1);
  }

  lemma LowBits(x: nat)
    ensures Bit(x % 4, 0) == Bit(x, 0) && Bit(x % 4, 1) == Bit(x, 1)
  {
    assert x % 4 / 2 % 2 == x / 2 % 2;
    assert Bit(x, 1) == Bit(x / 2, 0) && Bit(x % 4, 1) == Bit(x % 4 / 2, 0);
  }

  /** A mixing function, given the words on both sides, the sum of the round and the place. */
  type Mixer = (Word, Word, Word, nat) -> nat

  /** MX in btea. */
  function Keyed(key: Key): Mixer {
    (y, z, sum, p) => Mx(y, z, sum, key[KeyIndex(p, sum)])
  }

  function Keyless(): Mixer {
    (y, z, sum, p) => Mx0(y, z, sum)
  }

  // --- rounds, for any mixing function ---

  function Next(n: nat, p: nat): nat {
    if p + 1 < n then p + 1 else 0
  }

  function Prev(n: nat, p: nat): nat
    requires n > 0
  {
    if p == 0 then n - 1 else p - 1
  }

  /** What word p is changed by: its two neighbours, round the corner at the ends. */
  function Mix(v: seq<Word>, mx: Mixer, sum: Word, p: nat): nat
    requires p < |v|
  {
    mx(v[Next(|v|, p)], v[Prev(|v|, p)], sum, p)
  }

  function StepUp(v: seq<Word>, mx: Mixer, sum: Word, p: nat): (w: seq<Word>)
    requires p < |v|
    ensures |w| == |v|
  {
    v[p := Wrap(v[p] + Mix(v, mx, sum, p))]
  }

  function StepDown(v: seq<Word>, mx: Mixer, sum: Word, p: nat): (w: seq<Word>)
    requires p < |v|
    ensures |w| == |v|
  {
    v[p := Wrap(v[p] - Mix(v, mx, sum, p))]
  }

  /** Words 0 to k-1, upwards. */
  function Up(v: seq<Word>, mx: Mixer, sum: Word, k: nat): (w: seq<Word>)
    requires k <= |v|
    ensures |w| == |v|
  {
    if k == 0 then v else StepUp(Up(v, mx, sum, k - 1), mx, sum, k - 1)
  }

  /** Words k-1 to 0, downwards. */
  function Down(v: seq<Word>, mx: Mixer, sum: Word, k: nat): (w: seq<Word>)
    requires k <= |v|
    ensures |w| == |v|
    decreases k
  {
    if k == 0 then v else Down(StepDown(v, mx, sum, k - 1), mx, sum, k - 1)
  }

  /** The two neighbours word p is mixed with in a round from v to w: the one behind it is still old, except behind the
   *  last word, and the one before it is new, except before the first. */
  function Behind(v: seq<Word>, w: seq<Word>, p: nat): Word
    requires p < |v| == |w|
  {
    if p + 1 < |v| then v[p + 1] else w[0]
  }

  function InFront(v: seq<Word>, w: seq<Word>, p: nat): Word
    requires p < |v| == |w|
  {
    if p > 0 then w[p - 1] else v[|v| - 1]
  }

  /** A round adds to every word the mixture of its neighbours. */
  lemma {:induction false} UpWords(v: seq<Word>, mx: Mixer, sum: Word, k: nat, p: nat)
    requires 2 <= |v| && k <= |v| && p < |v|
    ensures var w := Up(v, mx, sum, k);
      w[p] == if p < k then Wrap(v[p] + mx(Behind(v, w, p), InFront(v, w, p), sum, p)) else v[p]
    decreases k
  {
    if k > 0 {
      UpWords(v, mx, sum, k - 1, p);
      var u, w := Up(v, mx, sum, k - 1), Up(v, mx, sum, k);
      assert w == u[k - 1 := Wrap(u[k - 1] + Mix(u, mx, sum, k - 1))];
      if p == k - 1 {
        UpWords(v, mx, sum, k - 1, Next(|v|, p));
        UpWords(v, mx, sum, k - 1, Prev(|v|, p));
      }
    }
  }

  lemma RoundWords(v: seq<Word>, key: Key, sum: Word, w: seq<Word>)
    requires 2 <= |v| && w == Up(v, Keyed(key), sum, |v|)
    ensures forall p :: 0 <= p < |v| ==>
              w[p] == Wrap(v[p] + Mx(Behind(v, w, p), InFront(v, w, p), sum, key[KeyIndex(p, sum)]))
  {
    forall p | 0 <= p < |v|
      ensures w[p] == Wrap(v[p] + Mx(Behind(v, w, p), InFront(v, w, p), sum, key[KeyIndex(p, sum)]))
    {
      UpWords(v, Keyed(key), sum, |v|, p);
    }
  }

  function Sum(rounds: nat): Word {
    if rounds == 0 then 0 else Wrap(Sum(rounds - 1) + DELTA)
  }

  function Encrypted(v: seq<Word>, mx: Mixer, rounds: nat): (w: seq<Word>)
    ensures |w| == |v|
    decreases rounds
  {
    if rounds == 0 then v else Up(Encrypted(v, mx, rounds - 1), mx, Sum(rounds), |v|)
  }

  function Decrypted(v: seq<Word>, mx: Mixer, rounds: nat): (w: seq<Word>)
    ensures |w| == |v|
    decreases rounds
  {
    if rounds == 0 then v else Decrypted(Down(v, mx, Sum(rounds), |v|), mx, rounds - 1)
  }

  lemma StepsCancel(v: seq<Word>, mx: Mixer, sum: Word, p: nat)
    requires p < |v| && |v| >= 2
    ensures StepDown(StepUp(v, mx, sum, p), mx, sum, p) == v
    ensures StepUp(StepDown(v, mx, sum, p), mx, sum, p) == v
  {
    AddSub(v[p], Mix(v, mx, sum, p));
    SameMix(v, v[p := Wrap(v[p] + Mix(v, mx, sum, p))], mx, sum, p);
    SameMix(v, v[p := Wrap(v[p] - Mix(v, mx, sum, p))], mx, sum, p);
  }

  /** The change of a word does not depend on the word itself. */
  lemma SameMix(v: seq<Word>, w: seq<Word>, mx: Mixer, sum: Word, p: nat)
    requires p < |v| == |w| && |v| >= 2 && w == v[p := w[p]]
    ensures Mix(w, mx, sum, p) == Mix(v, mx, sum, p)
  {
  }

  lemma AddSub(a: Word, m: nat)
    ensures Wrap(Wrap(a + m) - m) == a && Wrap(Wrap(a - m) + m) == a
  {
    SmallRemainder(a, U32);
    ModShift(Wrap(a + m) - m, (a + m) / U32, U32);
    ModShift(Wrap(a - m) + m, (a - m) / U32, U32);
  }

  lemma {:induction false} DownAfterUp(v: seq<Word>, mx: Mixer, sum: Word, k: nat)
    requires k <= |v| && |v| >= 2
    ensures Down(Up(v, mx, sum, k), mx, sum, k) == v
    decreases k
  {
    if k > 0 {
      StepsCancel(Up(v, mx, sum, k - 1), mx, sum, k - 1);
      DownAfterUp(v, mx, sum, k - 1);
    }
  }

  lemma {:induction false} UpAfterDown(v: seq<Word>, mx: Mixer, sum: Word, k: nat)
    requires k <= |v| && |v| >= 2
    ensures Up(Down(v, mx, sum, k), mx, sum, k) == v
    decreases k
  {
    if k > 0 {
      var w := StepDown(v, mx, sum, k - 1);
      UpAfterDown(w, mx, sum, k - 1);
      StepsCancel(v, mx, sum, k - 1);
    }
  }

  /** Decryption undoes encryption, for any block of two words or more, any mixing function and any number of rounds. */
  lemma {:induction false} DecryptEncrypt(v: seq<Word>, mx: Mixer, rounds: nat)
    requires |v| >= 2
    ensures Decrypted(Encrypted(v, mx, rounds), mx, rounds) == v
    decreases rounds
  {
    if rounds != 0 {
      DownAfterUp(Encrypted(v, mx, rounds - 1), mx, Sum(rounds), |v|);
      DecryptEncrypt(v, mx, rounds - 1);
    }
  }

  lemma {:induction false} EncryptDecrypt(v: seq<Word>, mx: Mixer, rounds: nat)
    requires |v| >= 2
    ensures Encrypted(Decrypted(v, mx, rounds), mx, rounds) == v
    decreases rounds
  {
    if rounds != 0 {
      var w := Down(v, mx, Sum(rounds), |v|);
      EncryptDecrypt(w, mx, rounds - 1);
      UpAfterDown(v, mx, Sum(rounds), |v|);
    }
  }

  /** So no two blocks encrypt, or decrypt, to the same one. */
  lemma Injective(v: seq<Word>, w: seq<Word>, mx: Mixer, rounds: nat)
    requires |v| == |w| >= 2
    ensures Encrypted(v, mx, rounds) == Encrypted(w, mx, rounds) <==> v == w
    ensures Decrypted(v, mx, rounds) == Decrypted(w, mx, rounds) <==> v == w
  {
    DecryptEncrypt(v, mx, rounds);
    DecryptEncrypt(w, mx, rounds);
    EncryptDecrypt(v, mx, rounds);
    EncryptDecrypt(w, mx, rounds);
  }

  /** The product that decryption starts from. */
  lemma {:induction false} SumIs(rounds: nat)
    ensures Sum(rounds) == Wrap(rounds * DELTA)
  {
    if rounds > 0 {
      SumIs(rounds - 1);
      WrapAdd((rounds - 1) * DELTA, DELTA);
    }
  }

  lemma SumBack(rounds: nat)
    requires rounds > 0
    ensures Sum(rounds - 1) == Wrap(Sum(rounds) - DELTA)
  {
    AddSub(Sum(rounds - 1), DELTA);
  }

  /** Mixing functions that agree everywhere decrypt alike. */
  lemma {:induction false} SameDown(v: seq<Word>, mx: Mixer, mx': Mixer, sum: Word, k: nat)
    requires k <= |v| && forall y, z, s, p :: mx(y, z, s, p) == mx'(y, z, s, p)
    ensures Down(v, mx, sum, k) == Down(v, mx', sum, k)
    decreases k
  {
    if k > 0 {
      SameDown(StepDown(v, mx, sum, k - 1), mx, mx', sum, k - 1);
    }
  }

  lemma {:induction false} SameDecrypted(v: seq<Word>, mx: Mixer, mx': Mixer, rounds: nat)
    requires forall y, z, s, p :: mx(y, z, s, p) == mx'(y, z, s, p)
    ensures Decrypted(v, mx, rounds) == Decrypted(v, mx', rounds)
    decreases rounds
  {
    if rounds > 0 {
      SameDown(v, mx, mx', Sum(rounds), |v|);
      SameDecrypted(Down(v, mx, Sum(rounds), |v|), mx, mx', rounds - 1);
    }
  }

  lemma MixersAgree(y: Word, z: Word, sum: Word, p: nat)
    ensures Keyless()(y, z, sum, p) == Keyed(ZERO_KEY)(y, z, sum, p)
  {
    var k := KeyIndex(p, sum);
    assert ZERO_KEY[k] == 0;
    ZeroKeyMixes(y, z, sum);
  }

  /** The zero key, where the key words drop out. */
  lemma KeylessIsZeroKey(v: seq<Word>, rounds: nat)
    ensures Decrypted(v, Keyless(), rounds) == Decrypted(v, Keyed(ZERO_KEY), rounds)
  {
    forall y, z, sum, p
      ensures Keyless()(y, z, sum, p) == Keyed(ZERO_KEY)(y, z, sum, p)
    {
      MixersAgree(y, z, sum, p);
    }
    SameDecrypted(v, Keyless(), Keyed(ZERO_KEY), rounds);
  }

  function Size(n: int): nat {
    if n < 0 then -n else n
  }

  /** What btea makes of a block: encrypted for n > 1, decrypted for n < -1. */
  function Ciphered(v: seq<Word>, n: int, mx: Mixer): seq<Word> {
    if n > 1 then Encrypted(v, mx, ROUNDS) else if n < -1 then Decrypted(v, mx, ROUNDS) else v
  }

  /** Either direction undoes the other. */
  lemma BackAgain(v: seq<Word>, n: int, mx: Mixer)
    requires |v| == Size(n)
    ensures Ciphered(Ciphered(v, n, mx), -n, mx) == v
  {
    if n > 1 {
      DecryptEncrypt(v, mx, ROUNDS);
    } else if n < -1 {
      EncryptDecrypt(v, mx, ROUNDS);
    }
  }

  // --- in place ---

  /** The upward half of btea. Each word mixes with the next one and with the one just changed. */
  method Forwards(v: array<Word>, n: nat, mx: Mixer, rounds: nat)
    requires 2 <= n <= v.Length
    modifies v
    ensures v[..n] == Encrypted(old(v[..n]), mx, rounds) && v[n..] == old(v[n..])
  {
    ghost var was, rest := v[..n], v[n..];
    var left, sum, z := rounds, 0, v[n - 1];
    while left > 0
      invariant 0 <= left <= rounds && sum == Sum(rounds - left) && z == v[n - 1]
      invariant v[..n] == Encrypted(was, mx, rounds - left)
      invariant v[n..] == rest
    {
      sum := Wrap(sum + DELTA);
      z := RoundUp(v, n, mx, sum, z);
      left := left - 1;
    }
  }

  method RoundUp(v: array<Word>, n: nat, mx: Mixer, sum: Word, z0: Word) returns (z: Word)
    requires 2 <= n <= v.Length && z0 == v[n - 1]
    modifies v
    ensures v[..n] == Up(old(v[..n]), mx, sum, n) && v[n..] == old(v[n..]) && z == v[n - 1]
  {
    ghost var was, rest := v[..n], v[n..];
    z := z0;
    for p := 0 to n - 1
      invariant v[..n] == Up(was, mx, sum, p) && z == v[Prev(n, p)]
      invariant v[n..] == rest
    {
      var y := v[p + 1];
      ghost var w := v[..n];
      z := Wrap(v[p] + mx(y, z, sum, p));
      v[p] := z;
      assert v[..n] == StepUp(w, mx, sum, p);
    }
    var y := v[0];
    ghost var w := v[..n];
    z := Wrap(v[n - 1] + mx(y, z, sum, n - 1));
    v[n - 1] := z;
    assert v[..n] == StepUp(w, mx, sum, n - 1);
  }

  /** The downward half of btea, which is also xxtea_decrypt_key0. */
  method Backwards(v: array<Word>, n: nat, mx: Mixer, rounds: nat)
    requires 1 <= n <= v.Length
    modifies v
    ensures v[..n] == Decrypted(old(v[..n]), mx, rounds) && v[n..] == old(v[n..])
  {
    ghost var was, rest := v[..n], v[n..];
    SumIs(rounds);
    var left, sum, y := rounds, Wrap(rounds * DELTA), v[0];
    while left > 0
      invariant 0 <= left <= rounds && sum == Sum(left) && y == v[0]
      invariant Decrypted(v[..n], mx, left) == Decrypted(was, mx, rounds)
      invariant v[n..] == rest
    {
      SumBack(left);
      y := RoundDown(v, n, mx, sum, y);
      sum := Wrap(sum - DELTA);
      left := left - 1;
    }
  }

  method RoundDown(v: array<Word>, n: nat, mx: Mixer, sum: Word, y0: Word) returns (y: Word)
    requires 1 <= n <= v.Length && y0 == v[0]
    modifies v
    ensures v[..n] == Down(old(v[..n]), mx, sum, n) && v[n..] == old(v[n..]) && y == v[0]
  {
    ghost var was, rest := v[..n], v[n..];
    y := y0;
    var p := n - 1;
    while p > 0
      invariant 0 <= p < n && y == v[Next(n, p)]
      invariant Down(v[..n], mx, sum, p + 1) == Down(was, mx, sum, n)
      invariant v[n..] == rest
    {
      var z := v[p - 1];
      ghost var w := v[..n];
      y := Wrap(v[p] - mx(y, z, sum, p));
      v[p] := y;
      assert v[..n] == StepDown(w, mx, sum, p);
      p := p - 1;
    }
    var z := v[n - 1];
    ghost var w := v[..n];
    y := Wrap(v[0] - mx(y, z, sum, 0));
    v[0] := y;
    assert v[..n] == StepDown(w, mx, sum, 0);
  }

  method Cipher(v: array<Word>, n: int, mx: Mixer)
    requires Size(n) <= v.Length
    modifies v
    ensures v[..Size(n)] == Ciphered(old(v[..Size(n)]), n, mx)
    ensures v[Size(n)..] == old(v[Size(n)..])
  {
    if n > 1 {
      Forwards(v, Size(n), mx, ROUNDS);
    } else if n < -1 {
      Backwards(v, Size(n), mx, ROUNDS);
    }
  }

  /** btea: n words forwards, or -n words backwards; nothing for fewer than two. */
  method Btea(v: array<Word>, n: int, key: Key)
    requires -128 < n < 128 && Size(n) <= v.Length
    modifies v
    ensures v[..Size(n)] == Ciphered(old(v[..Size(n)]), n, Keyed(key))
    ensures v[Size(n)..] == old(v[Size(n)..])
  {
    Cipher(v, n, Keyed(key));
  }

  /** xxtea_decrypt_key0 is the general decryption with the zero key. */
  method DecryptKey0(data: array<Word>, words: nat, loops: nat)
    requires 1 <= words < 256 && words <= data.Length && loops < 256
    modifies data
    ensures data[..words] == Decrypted(old(data[..words]), Keyed(ZERO_KEY), loops)
    ensures data[words..] == old(data[words..])
  {
    KeylessIsZeroKey(data[..words], loops);
    Backwards(data, words, Keyless(), loops);
  }
}
