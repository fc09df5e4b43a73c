/**
 * One byte ring of bd_ws_out.cpp: a buffer read and written through free-running
 * 32-bit positions. `Shows` says which queue of frames it stands for: it ties every
 * byte between the read and the write position to the stream of those frames.
 */
module WsRing {
  import opened Words
  import opened WsFrames
  import opened WsHub

  /** Where byte i of the buffer lies behind position pos, going round. */
  lemma BehindPosition(i: nat, pos: nat, size: nat)
    requires i < size
    ensures var off := pos % size; (i - pos) % size == if i >= off then i - off else i - off + size
  {
    var off := pos % size;
    var d := if i >= off then i - off else i - off + size;
    var q := if i >= off then -(pos / size) else -(pos / size) - 1;
    assert i - pos == q * size + d;
    RemainderUnique(i - pos, q, d, size);
  }

  lemma AheadOfPosition(pos: nat, j: nat, size: nat)
    requires j < size
    ensures var off := pos % size; (pos + j) % size == if off + j < size then off + j else off + j - size
  {
    var off := pos % size;
    RemainderUnique(pos + j, if off + j < size then pos / size else pos / size + 1,
                    if off + j < size then off + j else off + j - size, size);
  }

  /** Two stream positions less than a buffer apart use different cells. */
  lemma CellBehind(k: nat, at: nat, size: nat)
    requires size > 0 && U32 % size == 0
    ensures (k % size - Wrap(at)) % size == (k - at) % size
  {
    WrapMod(at, size);
    RemainderOfRemainder(k, size);
    CongruentDiff(k % size, Wrap(at), k, at, size);
  }

  /** The position behind a frame with this head. */
  function Behind(pos: nat, head: Head): nat {
    Wrap(pos + HEAD_BYTES + head.len)
  }

  lemma BehindFrame(f: Frame, at: nat)
    ensures Behind(Wrap(at), Head(|f.text|, f.fd)) == Wrap(at + Size(f))
  {
    WrapAdd(at, Size(f));
    assert Wrap(at) + HEAD_BYTES + |f.text| == Wrap(at) + Size(f);
  }

  class ByteRing {
    const buf: array<Byte>
    const size: nat
    var rd: nat
    var wr: nat

    ghost predicate Shape() {
      buf.Length == size && 0 < size < U32 && U32 % size == 0
    }

    /** The ring stands for the queue q: the frames of q.log from q.base on. */
    ghost predicate Shows(q: HubRing)
      reads this, buf
    {
      && Shape() && RingInv(q, size)
      && rd == Wrap(Off(q.log, q.base)) && wr == Wrap(Off(q.log, |q.log|))
      && Holds(Stream(q.log, |q.log|), Off(q.log, q.base))
    }

    /** The buffer holds the stream from position lo on, each byte in the cell its position masks to. */
    ghost predicate Holds(stream: seq<Byte>, lo: nat)
      requires Shape()
      reads buf
    {
      forall k :: lo <= k < |stream| ==> buf[k % size] == stream[k]
    }

    constructor (n: nat)
      requires 0 < n < U32 && U32 % n == 0
      ensures Shows(HubRing([], 0)) && size == n && fresh(buf)
    {
      buf := new Byte[n];
      size := n;
      rd, wr := 0, 0;
    }

    // The mask `pos & (size - 1)` is the remainder, sizes being powers of two.
    method Put(pos: nat, data: seq<Byte>)
      requires Shape() && |data| <= size
      modifies buf
      ensures forall i :: 0 <= i < size ==>
                buf[i] == if (i - pos) % size < |data| then data[(i - pos) % size] else old(buf[i])
    {
      var off := pos % size;
      var first := if |data| < size - off then |data| else size - off;
      forall j | 0 <= j < first {
        buf[off + j] := data[j];
      }
      forall j | 0 <= j < |data| - first {
        buf[j] := data[first + j];
      }
      forall i | 0 <= i < size
        ensures buf[i] == if (i - pos) % size < |data| then data[(i - pos) % size] else old(buf[i])
      {
        BehindPosition(i, pos, size);
      }
    }

    function Get(pos: nat, len: nat): (data: seq<Byte>)
      requires Shape() && len <= size
      reads buf
      ensures |data| == len
    {
      var off := pos % size;
      var first := if len < size - off then len else size - off;
      buf[off..off + first] + buf[..len - first]
    }

    lemma GetAt(pos: nat, len: nat, j: nat)
      requires Shape() && j < len <= size
      ensures Get(pos, len)[j] == buf[(pos + j) % size]
    {
      AheadOfPosition(pos, j, size);
    }

    lemma SameCell(pos: nat, at: nat, j: nat)
      requires Shape() && pos == Wrap(at)
      ensures (pos + j) % size == (at + j) % size
    {
      WrapAdd(at, j);
      WrapMod(pos + j, size);
      WrapMod(at + j, size);
    }

    /** Reading at a wrapped position inside the window gives that part of the stream. */
    lemma GetStream(pos: nat, len: nat, at: nat, stream: seq<Byte>, lo: nat)
      requires Shape() && Holds(stream, lo) && len <= size && pos == Wrap(at)
      requires lo <= at && at + len <= |stream|
      ensures Get(pos, len) == stream[at..at + len]
    {
      forall j | 0 <= j < len
        ensures Get(pos, len)[j] == stream[at + j]
      {
        GetAt(pos, len, j);
        SameCell(pos, at, j);
      }
    }

    function HeadAt(pos: nat): Head
      requires Shape() && HEAD_BYTES <= size
      reads buf
    {
      DecodeHead(Get(pos, HEAD_BYTES))
    }

    /** Reading a frame at its position gives back its head and its text. */
    lemma FrameAt(q: HubRing, i: nat)
      requires Shows(q) && q.base <= i < |q.log|
      ensures var f, pos := q.log[i], Wrap(Off(q.log, i));
        && Size(f) <= size
        && HeadAt(pos) == Head(|f.text|, f.fd)
        && Get(Wrap(pos + HEAD_BYTES), |f.text|) == f.text
        && Behind(pos, Head(|f.text|, f.fd)) == Wrap(Off(q.log, i + 1))
    {
      StreamPrefix(q.log, q.base, i);
      StreamAt(q.log, i, |q.log|);
      FrameRead(q.log[i], Stream(q.log, |q.log|), Off(q.log, i), Off(q.log, q.base));
      BehindFrame(q.log[i], Off(q.log, i));
    }

    lemma FrameRead(f: Frame, stream: seq<Byte>, at: nat, lo: nat)
      requires Shape() && Holds(stream, lo) && lo <= at && |stream| - lo <= size && FrameOk(f)
      requires at + Size(f) <= |stream| && stream[at..at + Size(f)] == Encode(f)
      ensures HeadAt(Wrap(at)) == Head(|f.text|, f.fd)
      ensures Get(Wrap(Wrap(at) + HEAD_BYTES), |f.text|) == f.text
    {
      FrameParts(f, stream, at);
      HeadRoundTrip(f);
      GetStream(Wrap(at), HEAD_BYTES, at, stream, lo);
      WrapAdd(at, HEAD_BYTES);
      GetStream(Wrap(Wrap(at) + HEAD_BYTES), |f.text|, at + HEAD_BYTES, stream, lo);
    }

    lemma FrameParts(f: Frame, stream: seq<Byte>, at: nat)
      requires at + Size(f) <= |stream| && stream[at..at + Size(f)] == Encode(f)
      ensures stream[at..at + HEAD_BYTES] == HeadBytes(|f.text|, f.fd)
      ensures stream[at + HEAD_BYTES..at + HEAD_BYTES + |f.text|] == f.text
    {
      var whole := stream[at..at + Size(f)];
      assert stream[at..at + HEAD_BYTES] == whole[..HEAD_BYTES];
      assert stream[at + HEAD_BYTES..at + Size(f)] == whole[HEAD_BYTES..];
    }

    /** The frame at one position of the scan in take_frame, its text only if it is for this socket. */
    method ReadFrame(pos: nat, fd: int, ghost q: HubRing, ghost at: nat) returns (mine: bool, f: Frame, next: nat)
      requires Shows(q) && q.base <= at < |q.log| && pos == Wrap(Off(q.log, at))
      ensures mine <==> Addressed(q.log[at], fd)
      ensures mine ==> f == q.log[at]
      ensures next == Wrap(Off(q.log, at + 1))
      ensures next == wr <==> at + 1 == |q.log|
    {
      FrameAt(q, at);
      PositionIsFrame(q, at + 1);
      var head := HeadAt(pos);
      mine := head.fd == BROADCAST || head.fd == fd;
      f := Frame(head.fd, []);
      if mine {
        f := Frame(head.fd, Get(Wrap(pos + HEAD_BYTES), head.len));
      }
      next := Behind(pos, head);
    }

    /** The scan of one ring in take_frame: skips what is for others, takes the first frame for this socket. */
    method Scan(start: nat, fd: int, ghost q: HubRing, ghost from: nat) returns (got: bool, f: Frame, pos: nat)
      requires Shows(q) && q.base <= from <= |q.log| && start == Wrap(Off(q.log, from))
      ensures var k := NextFor(q.log, from, fd);
        && (got <==> k < |q.log|)
        && (got ==> f == q.log[k] && pos == Wrap(Off(q.log, k + 1)))
        && (!got ==> pos == Wrap(Off(q.log, k)))
    {
      got, f, pos := false, Frame(fd, []), start;
      ghost var at := from;
      PositionIsFrame(q, at);
      while pos != wr && !got
        invariant from <= at <= |q.log| && pos == Wrap(Off(q.log, at)) && (pos == wr <==> at == |q.log|)
        invariant !got ==> NextFor(q.log, from, fd) == NextFor(q.log, at, fd)
        invariant got ==> at > from && NextFor(q.log, from, fd) == at - 1 && f == q.log[at - 1]
        decreases |q.log| - at
      {
        got, f, pos := ReadFrame(pos, fd, q, at);
        at := at + 1;
      }
    }

    /** Head of the oldest frame and the position behind it. */
    method Oldest(ghost q: HubRing) returns (head: Head, next: nat)
      requires Shows(q) && q.base < |q.log|
      ensures head == Head(|q.log[q.base].text|, q.log[q.base].fd)
      ensures next == Wrap(Off(q.log, q.base + 1))
    {
      FrameAt(q, q.base);
      head := HeadAt(rd);
      next := Behind(rd, head);
    }

    /** Bytes that can be added now. */
    function Free(): int
      reads this
    {
      size - Wrap(wr - rd)
    }

    lemma FreeIsCapacityLeft(q: HubRing)
      requires Shows(q)
      ensures Free() == size - WsHub.Used(q)
    {
      StreamPrefix(q.log, q.base, |q.log|);
      WrapDiff(Off(q.log, |q.log|), Off(q.log, q.base));
      SmallRemainder(Off(q.log, |q.log|) - Off(q.log, q.base), U32);
    }

    /** Writing behind the window leaves the window alone. */
    lemma PutOutsideWindow(k: nat, at: nat, lo: nat, len: nat)
      requires Shape() && lo <= k < at && at + len - lo <= size
      ensures (k % size - Wrap(at)) % size >= len
    {
      CellBehind(k, at, size);
      SmallRemainder(k - at, size);
    }

    lemma PutInside(at: nat, j: nat)
      requires Shape() && j < size
      ensures ((at + j) % size - Wrap(at)) % size == j
    {
      CellBehind(at + j, at, size);
      SmallRemainder(j, size);
    }

    /** One ring_put at the end of the stream. */
    method PutNext(pos: nat, data: seq<Byte>, ghost stream: seq<Byte>, ghost lo: nat)
      requires Shape() && pos == Wrap(|stream|) && lo <= |stream| && |stream| + |data| - lo <= size
      requires Holds(stream, lo)
      modifies buf
      ensures Holds(stream + data, lo)
    {
      Put(pos, data);
      forall k | lo <= k < |stream| + |data|
        ensures buf[k % size] == (stream + data)[k]
      {
        if k < |stream| {
          PutOutsideWindow(k, |stream|, lo, |data|);
        } else {
          PutInside(|stream|, k - |stream|);
        }
      }
    }

    /** Head and text of a frame go behind the write position, each with its own ring_put. */
    method PutFrame(fd: int, text: seq<Byte>, ghost stream: seq<Byte>, ghost lo: nat)
      requires Shape() && FrameOk(Frame(fd, text)) && wr == Wrap(|stream|)
      requires lo <= |stream| && |stream| + Size(Frame(fd, text)) - lo <= size
      requires Holds(stream, lo)
      modifies this`wr, buf
      ensures Holds(stream + Encode(Frame(fd, text)), lo)
      ensures wr == Wrap(|stream| + Size(Frame(fd, text)))
    {
      PutNext(wr, HeadBytes(|text|, fd), stream, lo);
      WrapAdd(|stream|, HEAD_BYTES);
      PutNext(Wrap(wr + HEAD_BYTES), text, stream + HeadBytes(|text|, fd), lo);
      WrapAdd(|stream|, HEAD_BYTES + |text|);
      wr := Wrap(wr + HEAD_BYTES + |text|);
      assert stream + HeadBytes(|text|, fd) + text == stream + Encode(Frame(fd, text));
    }

    /** The end of ring_add: the frame joins the queue. */
    method Push(fd: int, text: seq<Byte>, ghost q: HubRing)
      requires Shows(q) && FrameOk(Frame(fd, text)) && Free() >= Size(Frame(fd, text))
      modifies this`wr, buf
      ensures Shows(q.(log := q.log + [Frame(fd, text)])) && rd == old(rd)
    {
      ghost var f := Frame(fd, text);
      FreeIsCapacityLeft(q);
      StreamPrefix(q.log, q.base, |q.log|);
      PushedStream(q, f);
      PutFrame(fd, text, Stream(q.log, |q.log|), Off(q.log, q.base));
    }

    lemma PushedStream(q: HubRing, f: Frame)
      requires RingInv(q, size) && FrameOk(f) && WsHub.Used(q) + Size(f) <= size
      ensures var log' := q.log + [f];
        && RingInv(q.(log := log'), size)
        && Stream(log', |log'|) == Stream(q.log, |q.log|) + Encode(f)
        && Off(log', |log'|) == Off(q.log, |q.log|) + Size(f)
        && Off(log', q.base) == Off(q.log, q.base)
    {
      OffExtend(q.log, f, |q.log|);
      OffExtend(q.log, f, q.base);
      AppendRing(q, f, size);
    }

    /** The read position goes behind the oldest frame. */
    method DropOldest(next: nat, ghost q: HubRing)
      requires Shows(q) && q.base < |q.log| && next == Wrap(Off(q.log, q.base + 1))
      modifies this`rd
      ensures Shows(q.(base := q.base + 1))
    {
      OffStrict(q.log, q.base, q.base + 1);
      rd := next;
    }

    /** The bytes between the two positions, read through the mask. */
    function Bytes(): seq<Byte>
      requires Shape()
      reads this, buf
    {
      if Wrap(wr - rd) <= size then Get(rd, Wrap(wr - rd)) else []
    }

    lemma BytesAreWindow(q: HubRing)
      requires Shows(q)
      ensures Off(q.log, q.base) <= Off(q.log, |q.log|)
      ensures Bytes() == Stream(q.log, |q.log|)[Off(q.log, q.base)..]
    {
      FreeIsCapacityLeft(q);
      StreamPrefix(q.log, q.base, |q.log|);
      var n := Wrap(wr - rd);
      assert n == Off(q.log, |q.log|) - Off(q.log, q.base) <= size;
      GetStream(rd, n, Off(q.log, q.base), Stream(q.log, |q.log|), Off(q.log, q.base));
    }

    /** The byte ring is a queue of frames: its bytes parse into exactly the frames not evicted. */
    lemma BytesParse(q: HubRing)
      requires Shows(q)
      ensures Parse(Bytes()) == Frames(q.log[q.base..])
    {
      BytesAreWindow(q);
      ParseWindow(q.log, q.base);
    }

    /** Byte positions tell frames apart, also across the wrap of the counters. */
    lemma PositionIsFrame(q: HubRing, i: nat)
      requires Shows(q) && q.base <= i <= |q.log|
      ensures Wrap(Off(q.log, i)) == wr <==> i == |q.log|
      ensures Wrap(Off(q.log, i)) == rd <==> i == q.base
    {
      Distinct(q, i, |q.log|);
      Distinct(q, q.base, i);
    }

    lemma Distinct(q: HubRing, i: nat, j: nat)
      requires Shape() && RingInv(q, size) && q.base <= i <= j <= |q.log|
      ensures i < j ==> Wrap(Off(q.log, i)) != Wrap(Off(q.log, j))
    {
      if i < j {
        OffStrict(q.log, i, j);
        StreamPrefix(q.log, q.base, i);
        StreamPrefix(q.log, j, |q.log|);
        DistinctPositions(Off(q.log, i), Off(q.log, j));
      }
    }
  }

  lemma DistinctPositions(a: nat, b: nat)
    requires 0 < b - a < U32
    ensures Wrap(a) != Wrap(b)
  {
    WrapDiff(b, a);
    SmallRemainder(b - a, U32);
  }
}
