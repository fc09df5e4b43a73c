/**
 * Sequences of flash operations, and two things that hold of them in general: what lies
 * outside the sectors they name stays, and running them again from any cut ends alike if
 * every byte they touch is erased before it is written.
 */
module MigrateFlash {
  import opened Words
  import opened NorFlash

  datatype Op = Erase(sector: nat) | Program(at: nat, data: seq<Byte>)

  function Do(mem: seq<Byte>, op: Op): (m: seq<Byte>)
    ensures |m| == |mem|
  {
    match op
    case Erase(s) => Erased(mem, s)
    case Program(at, data) => Written(mem, at, data)
  }

  function DoAll(mem: seq<Byte>, ops: seq<Op>): (m: seq<Byte>)
    ensures |m| == |mem|
    decreases |ops|
  {
    if ops == [] then mem else DoAll(Do(mem, ops[0]), ops[1..])
  }

  lemma {:induction false} DoConcat(mem: seq<Byte>, a: seq<Op>, b: seq<Op>)
    ensures DoAll(mem, a + b) == DoAll(DoAll(mem, a), b)
    decreases |a|
  {
    if a == [] {
      assert a + b == b;
    } else {
      assert (a + b)[1..] == a[1..] + b;
      DoConcat(Do(mem, a[0]), a[1..], b);
    }
  }

  lemma DoOne(mem: seq<Byte>, op: Op)
    ensures DoAll(mem, [op]) == Do(mem, op)
  {
    assert [op][1..] == [];
  }

  // --- zones ---

  /** The operation stays within sectors lo to hi. */
  predicate InZone(op: Op, lo: nat, hi: nat) {
    match op
    case Erase(s) => lo <= s < hi
    case Program(at, data) => lo * SECTOR <= at && at + |data| <= hi * SECTOR
  }

  predicate AllIn(ops: seq<Op>, lo: nat, hi: nat) {
    forall i {:trigger InZone(ops[i], lo, hi)} :: 0 <= i < |ops| ==> InZone(ops[i], lo, hi)
  }

  predicate SameAt(mem: seq<Byte>, mem': seq<Byte>, from: nat, to: nat) {
    |mem'| == |mem| && from <= to <= |mem| && mem'[from..to] == mem[from..to]
  }

  lemma AllInConcat(a: seq<Op>, b: seq<Op>, lo: nat, hi: nat)
    requires AllIn(a, lo, hi) && AllIn(b, lo, hi)
    ensures AllIn(a + b, lo, hi)
  {
    forall i | 0 <= i < |a + b|
      ensures InZone((a + b)[i], lo, hi)
    {
      if i < |a| {
        assert InZone(a[i], lo, hi);
      } else {
        assert InZone(b[i - |a|], lo, hi);
      }
    }
  }

  lemma AllInPart(ops: seq<Op>, k: nat, lo: nat, hi: nat)
    requires AllIn(ops, lo, hi) && k <= |ops|
    ensures AllIn(ops[..k], lo, hi) && AllIn(ops[k..], lo, hi)
  {
    forall i | 0 <= i < k
      ensures InZone(ops[..k][i], lo, hi)
    {
      assert InZone(ops[i], lo, hi);
    }
    forall i | 0 <= i < |ops| - k
      ensures InZone(ops[k..][i], lo, hi)
    {
      assert InZone(ops[k + i], lo, hi);
    }
  }

  lemma AllInWider(ops: seq<Op>, lo: nat, hi: nat, lo': nat, hi': nat)
    requires AllIn(ops, lo, hi) && lo' <= lo && hi <= hi'
    ensures AllIn(ops, lo', hi')
  {
    forall i | 0 <= i < |ops|
      ensures InZone(ops[i], lo', hi')
    {
      assert InZone(ops[i], lo, hi);
    }
  }

  /** What lies outside the zone stays. */
  lemma {:induction false} OutsideKept(mem: seq<Byte>, ops: seq<Op>, lo: nat, hi: nat, from: nat, to: nat)
    requires AllIn(ops, lo, hi) && from <= to <= |mem|
    requires to <= lo * SECTOR || hi * SECTOR <= from
    ensures SameAt(mem, DoAll(mem, ops), from, to)
    decreases |ops|
  {
    if ops != [] {
      var mem1 := Do(mem, ops[0]);
      assert InZone(ops[0], lo, hi);
      AllInPart(ops, 1, lo, hi);
      assert mem1[from..to] == mem[from..to];
      OutsideKept(mem1, ops[1..], lo, hi, from, to);
    }
  }

  // --- cuts ---

  predicate Touches(op: Op, a: nat) {
    match op
    case Erase(s) => s * SECTOR <= a < (s + 1) * SECTOR
    case Program(at, data) => at <= a < at + |data|
  }

  /** The first operation on this byte, if any, is an erase. */
  predicate ErasedFirst(ops: seq<Op>, a: nat)
    decreases |ops|
  {
    ops == [] || (if Touches(ops[0], a) then ops[0].Erase? else ErasedFirst(ops[1..], a))
  }

  predicate Untouched(ops: seq<Op>, a: nat) {
    forall i {:trigger Touches(ops[i], a)} :: 0 <= i < |ops| ==> !Touches(ops[i], a)
  }

  ghost predicate Renews(ops: seq<Op>) {
    forall a: nat {:trigger ErasedFirst(ops, a)} :: ErasedFirst(ops, a)
  }

  lemma {:induction false} SameFromNowOn(m1: seq<Byte>, m2: seq<Byte>, ops: seq<Op>, a: nat)
    requires |m1| == |m2| && a < |m1| && m1[a] == m2[a]
    ensures DoAll(m1, ops)[a] == DoAll(m2, ops)[a]
    decreases |ops|
  {
    if ops != [] {
      SameFromNowOn(Do(m1, ops[0]), Do(m2, ops[0]), ops[1..], a);
    }
  }

  /** A byte erased first ends the same whatever it was before. */
  lemma {:induction false} RenewedByte(m1: seq<Byte>, m2: seq<Byte>, ops: seq<Op>, a: nat)
    requires |m1| == |m2| && a < |m1| && ErasedFirst(ops, a) && !Untouched(ops, a)
    ensures DoAll(m1, ops)[a] == DoAll(m2, ops)[a]
    decreases |ops|
  {
    var d1, d2 := Do(m1, ops[0]), Do(m2, ops[0]);
    if Touches(ops[0], a) {
      SameFromNowOn(d1, d2, ops[1..], a);
    } else {
      var i :| 0 <= i < |ops| && Touches(ops[i], a);
      assert ops[1..][i - 1] == ops[i];
      RenewedByte(d1, d2, ops[1..], a);
    }
  }

  lemma {:induction false} UntouchedByte(mem: seq<Byte>, ops: seq<Op>, a: nat)
    requires a < |mem| && Untouched(ops, a)
    ensures DoAll(mem, ops)[a] == mem[a]
    decreases |ops|
  {
    if ops != [] {
      assert !Touches(ops[0], a);
      forall i | 0 <= i < |ops| - 1
        ensures !Touches(ops[1..][i], a)
      {
        assert !Touches(ops[i + 1], a);
      }
      UntouchedByte(Do(mem, ops[0]), ops[1..], a);
    }
  }

  /** Started over from a cut anywhere, the operations end as if there had been none. */
  lemma RerunSame(mem: seq<Byte>, ops: seq<Op>, k: nat)
    requires Renews(ops) && k <= |ops|
    ensures DoAll(DoAll(mem, ops[..k]), ops) == DoAll(mem, ops)
  {
    var cut := DoAll(mem, ops[..k]);
    forall a | 0 <= a < |mem|
      ensures DoAll(cut, ops)[a] == DoAll(mem, ops)[a]
    {
      if Untouched(ops, a) {
        forall i | 0 <= i < k
          ensures !Touches(ops[..k][i], a)
        {
          assert !Touches(ops[i], a);
        }
        UntouchedByte(mem, ops[..k], a);
        SameFromNowOn(cut, mem, ops, a);
      } else {
        assert ErasedFirst(ops, a);
        RenewedByte(cut, mem, ops, a);
      }
    }
  }

  lemma {:induction false} ErasedFirstConcat(a: seq<Op>, b: seq<Op>, x: nat)
    requires ErasedFirst(a, x) && (Untouched(a, x) ==> ErasedFirst(b, x))
    ensures ErasedFirst(a + b, x)
    decreases |a|
  {
    if a == [] {
      assert a + b == b;
    } else {
      assert (a + b)[0] == a[0] && (a + b)[1..] == a[1..] + b;
      if !Touches(a[0], x) {
        if Untouched(a[1..], x) {
          forall i | 0 <= i < |a|
            ensures !Touches(a[i], x)
          {
            if i > 0 {
              assert a[i] == a[1..][i - 1];
            }
          }
        }
        ErasedFirstConcat(a[1..], b, x);
      }
    }
  }

  lemma RenewsConcat(a: seq<Op>, b: seq<Op>)
    requires Renews(a) && Renews(b)
    ensures Renews(a + b)
  {
    forall x: nat
      ensures ErasedFirst(a + b, x)
    {
      assert ErasedFirst(a, x) && ErasedFirst(b, x);
      ErasedFirstConcat(a, b, x);
    }
  }

  // --- erasing a stretch, and writing into it ---

  function EraseOps(s: nat, n: nat): (ops: seq<Op>)
    ensures |ops| == n && forall i {:trigger ops[i]} :: 0 <= i < n ==> ops[i] == Erase(s + i)
  {
    seq(n, i requires 0 <= i < n => Erase(s + i))
  }

  lemma {:induction false} AllErases(ops: seq<Op>, x: nat)
    requires forall i :: 0 <= i < |ops| ==> ops[i].Erase?
    ensures ErasedFirst(ops, x)
    decreases |ops|
  {
    if ops != [] {
      AllErases(ops[1..], x);
    }
  }

  lemma {:induction false} EraseBlanks(mem: seq<Byte>, s: nat, n: nat)
    requires (s + n) * SECTOR <= |mem|
    ensures BlankFrom(DoAll(mem, EraseOps(s, n)), s * SECTOR, (s + n) * SECTOR)
    decreases n
  {
    if n > 0 {
      var m := n - 1;
      EraseBlanks(mem, s, m);
      assert EraseOps(s, n) == EraseOps(s, m) + [Erase(s + m)];
      DoConcat(mem, EraseOps(s, m), [Erase(s + m)]);
      DoOne(DoAll(mem, EraseOps(s, m)), Erase(s + m));
    }
  }

  /** Writes confined to a stretch erased before renew it. */
  lemma EraseThenWrite(s: nat, n: nat, writes: seq<Op>)
    requires AllIn(writes, s, s + n)
    ensures Renews(EraseOps(s, n) + writes) && AllIn(EraseOps(s, n) + writes, s, s + n)
  {
    var erases := EraseOps(s, n);
    forall x: nat
      ensures ErasedFirst(erases + writes, x)
    {
      AllErases(erases, x);
      if Untouched(erases, x) {
        forall i | 0 <= i < |writes|
          ensures !Touches(writes[i], x)
        {
          assert InZone(writes[i], s, s + n);
          var k := x / SECTOR - s;
          if Touches(writes[i], x) {
            assert Touches(erases[k], x);
          }
        }
        NeverTouched(writes, x);
      }
      ErasedFirstConcat(erases, writes, x);
    }
    AllInConcat(erases, writes, s, s + n);
  }

  lemma {:induction false} NeverTouched(ops: seq<Op>, x: nat)
    requires Untouched(ops, x)
    ensures ErasedFirst(ops, x)
    decreases |ops|
  {
    if ops != [] {
      assert !Touches(ops[0], x);
      forall i | 0 <= i < |ops| - 1
        ensures !Touches(ops[1..][i], x)
      {
        assert !Touches(ops[i + 1], x);
      }
      NeverTouched(ops[1..], x);
    }
  }

  const CHUNK := 4096

  /** The copy loop from byte `off` on. */
  function WriteOps(data: seq<Byte>, at: nat, off: nat): (ops: seq<Op>)
    decreases |data| - off
  {
    if off >= |data| then []
    else
      var n := if |data| - off < CHUNK then |data| - off else CHUNK;
      [Program(at + off, data[off..off + n])] + WriteOps(data, at, off + CHUNK)
  }

  function SectorsOf(len: nat): nat {
    (len + SECTOR - 1) / SECTOR
  }

  function CopyOps(data: seq<Byte>, to: nat): seq<Op> {
    EraseOps(to, SectorsOf(|data|)) + WriteOps(data, to * SECTOR, 0)
  }

  lemma {:induction false} WritesIn(data: seq<Byte>, s: nat, off: nat)
    ensures AllIn(WriteOps(data, s * SECTOR, off), s, s + SectorsOf(|data|))
    decreases |data| - off
  {
    if off < |data| {
      WritesIn(data, s, off + CHUNK);
      var n := if |data| - off < CHUNK then |data| - off else CHUNK;
      var op := Program(s * SECTOR + off, data[off..off + n]);
      assert InZone(op, s, s + SectorsOf(|data|));
      assert [op][0] == op;
      AllInConcat([op], WriteOps(data, s * SECTOR, off + CHUNK), s, s + SectorsOf(|data|));
    }
  }

  /** The first `done` bytes of the data lie at `at`, and there is blank room for the rest. */
  predicate Begun(mem: seq<Byte>, data: seq<Byte>, at: nat, done: nat) {
    && done <= |data| && at + |data| <= |mem|
    && (forall i {:trigger data[i]} :: 0 <= i < done ==> mem[at + i] == data[i])
    && BlankFrom(mem, at + done, at + |data|)
  }

  lemma OneWrite(mem: seq<Byte>, data: seq<Byte>, at: nat, off: nat, n: nat)
    requires Begun(mem, data, at, off) && off + n <= |data|
    ensures Begun(Written(mem, at + off, data[off..off + n]), data, at, off + n)
  {
    var mem' := Written(mem, at + off, data[off..off + n]);
    forall i | 0 <= i < off + n
      ensures mem'[at + i] == data[i]
    {
      if i >= off {
        BlankTakes(data[i]);
        assert data[off..off + n][i - off] == data[i];
      }
    }
  }

  lemma FirstWrite(mem: seq<Byte>, data: seq<Byte>, at: nat, off: nat, n: nat)
    requires off < |data| && n == (if |data| - off < CHUNK then |data| - off else CHUNK)
    ensures DoAll(mem, WriteOps(data, at, off)) == DoAll(Written(mem, at + off, data[off..off + n]), WriteOps(data, at, off + CHUNK))
  {
    var rest := WriteOps(data, at, off + CHUNK);
    assert ([Program(at + off, data[off..off + n])] + rest)[1..] == rest;
  }

  lemma {:induction false} WritesStore(mem: seq<Byte>, data: seq<Byte>, at: nat, off: nat, mem': seq<Byte>)
    requires Begun(mem, data, at, if off < |data| then off else |data|) && mem' == DoAll(mem, WriteOps(data, at, off))
    ensures at + |data| <= |mem'| && mem'[at..at + |data|] == data
    decreases |data| - off
  {
    if off < |data| {
      var n := if |data| - off < CHUNK then |data| - off else CHUNK;
      OneWrite(mem, data, at, off, n);
      FirstWrite(mem, data, at, off, n);
      WritesStore(Written(mem, at + off, data[off..off + n]), data, at, off + CHUNK, mem');
    } else {
      assert mem' == mem;
    }
  }

  /** The copy ends with the data in place. */
  lemma CopyStores(mem: seq<Byte>, data: seq<Byte>, to: nat)
    requires (to + SectorsOf(|data|)) * SECTOR <= |mem|
    ensures DoAll(mem, CopyOps(data, to))[to * SECTOR..to * SECTOR + |data|] == data
  {
    var n, at := SectorsOf(|data|), to * SECTOR;
    var erased := DoAll(mem, EraseOps(to, n));
    EraseBlanks(mem, to, n);
    BlankBegins(erased, data, at, (to + n) * SECTOR);
    WritesStore(erased, data, at, 0, DoAll(erased, WriteOps(data, at, 0)));
    DoConcat(mem, EraseOps(to, n), WriteOps(data, at, 0));
  }

  lemma BlankBegins(mem: seq<Byte>, data: seq<Byte>, at: nat, end: nat)
    requires at + |data| <= end <= |mem| && BlankFrom(mem, at, end)
    ensures Begun(mem, data, at, 0)
  {
  }

  /** It touches only the sectors it needs, each first to erase it. */
  lemma CopyRenews(data: seq<Byte>, to: nat)
    ensures AllIn(CopyOps(data, to), to, to + SectorsOf(|data|)) && Renews(CopyOps(data, to))
  {
    var writes := WriteOps(data, to * SECTOR, 0);
    WritesIn(data, to, 0);
    EraseThenWrite(to, SectorsOf(|data|), writes);
  }
}
