/** NOR flash: erasing a sector sets every bit, writing can only clear bits. */
module NorFlash {
  import opened Words

  const SECTOR := 4096
  const BLANK: Byte := 255

  /** Bitwise and. */
  function And(a: nat, b: nat): (r: nat)
    ensures r <= a
  {
    if a == 0 || b == 0 then 0
    else 2 * And(a / 2, b / 2) + if a % 2 == 1 && b % 2 == 1 then 1 else 0
  }

  function Ones(k: nat): nat {
    if k == 0 then 0 else 2 * Ones(k - 1) + 1
  }

  lemma {:induction false} AndOnes(k: nat, b: nat)
    requires b <= Ones(k)
    ensures And(Ones(k), b) == b
  {
    if k > 0 {
      AndOnes(k - 1, b / 2);
    }
  }

  /** A blank byte takes any value. */
  lemma BlankTakes(b: Byte)
    ensures And(BLANK, b) == b
  {
    assert Ones(8) == 255 by {
      assert Ones(4) == 15;
    }
    AndOnes(8, b);
  }

  function Erased(mem: seq<Byte>, s: nat): (m: seq<Byte>)
    ensures |m| == |mem|
    ensures forall i {:trigger m[i]} :: 0 <= i < |mem| ==> m[i] == if s * SECTOR <= i < (s + 1) * SECTOR then BLANK else mem[i]
  {
    seq(|mem|, i requires 0 <= i < |mem| => if s * SECTOR <= i < (s + 1) * SECTOR then BLANK else mem[i])
  }

  function Written(mem: seq<Byte>, at: nat, data: seq<Byte>): (m: seq<Byte>)
    ensures |m| == |mem|
    ensures forall i {:trigger m[i]} :: 0 <= i < |mem| ==>
              m[i] == if at <= i < at + |data| then And(mem[i], data[i - at]) else mem[i]
  {
    seq(|mem|, i requires 0 <= i < |mem| => if at <= i < at + |data| then And(mem[i], data[i - at]) else mem[i])
  }

  predicate BlankFrom(mem: seq<Byte>, lo: nat, hi: nat)
    requires hi <= |mem|
  {
    forall i :: lo <= i < hi ==> mem[i] == BLANK
  }

  lemma WriteOnBlank(mem: seq<Byte>, at: nat, data: seq<Byte>)
    requires at + |data| <= |mem| && BlankFrom(mem, at, at + |data|)
    ensures Written(mem, at, data)[at..at + |data|] == data
  {
    forall i | 0 <= i < |data|
      ensures Written(mem, at, data)[at + i] == data[i]
    {
      BlankTakes(data[i]);
    }
  }

  lemma SliceOfSlice(mem: seq<Byte>, lo: nat, hi: nat, from: nat, to: nat)
    requires lo <= hi <= |mem| && from <= to <= hi - lo
    ensures mem[lo..hi][from..to] == mem[lo + from..lo + to]
  {
    forall i | 0 <= i < to - from
      ensures mem[lo..hi][from..to][i] == mem[lo + from..lo + to][i]
    {
      assert mem[lo..hi][from + i] == mem[lo + (from + i)];
    }
  }

  /** A stretch that does not meet the changed one reads as before. */
  lemma SliceKept(mem: seq<Byte>, mem': seq<Byte>, lo: nat, hi: nat, from: nat, to: nat)
    requires |mem'| == |mem| && lo <= hi <= |mem|
    requires forall i {:trigger mem'[i]} :: 0 <= i < |mem| && !(from <= i < to) ==> mem'[i] == mem[i]
    requires hi <= from || to <= lo
    ensures mem'[lo..hi] == mem[lo..hi]
  {
  }
}
