/**
 * Websocket frames and their byte form in the rings of bd_ws_out.cpp: a four-byte
 * head (uint16_t length, int16_t socket, little endian) followed by the text.
 */
module WsFrames {
  import opened Words

  const HEAD_BYTES := 4
  const MAX_FRAME := 3072
  const BROADCAST := -1

  datatype Frame = Frame(fd: int, text: seq<Byte>)
  datatype Head = Head(len: nat, fd: int)
  datatype Parsed = Broken | Frames(frames: seq<Frame>)

  /** What ring_add is ever given: a checked length, a socket number or the broadcast mark. */
  predicate FrameOk(f: Frame) {
    1 <= |f.text| <= MAX_FRAME && BROADCAST <= f.fd < 0x8000
  }

  ghost predicate AllOk(frames: seq<Frame>) {
    forall i :: 0 <= i < |frames| ==> FrameOk(frames[i])
  }

  predicate Addressed(f: Frame, fd: int) {
    f.fd == BROADCAST || f.fd == fd
  }

  function Size(f: Frame): nat {
    HEAD_BYTES + |f.text|
  }

  /** The struct FrameHead as it lies in memory, with its narrowing casts. */
  function HeadBytes(len: nat, fd: int): (b: seq<Byte>)
    ensures |b| == HEAD_BYTES
  {
    var l := len % 0x10000;
    var u := fd % 0x10000;
    [l % 256, l / 256, u % 256, u / 256]
  }

  function DecodeHead(b: seq<Byte>): Head
    requires |b| == HEAD_BYTES
  {
    var u := b[2] + 256 * (b[3] as int);
    Head(b[0] + 256 * (b[1] as int), if u >= 0x8000 then u - 0x10000 else u)
  }

  lemma HeadRoundTrip(f: Frame)
    requires FrameOk(f)
    ensures DecodeHead(HeadBytes(|f.text|, f.fd)) == Head(|f.text|, f.fd)
  {
  }

  function Encode(f: Frame): (b: seq<Byte>)
    ensures |b| == Size(f)
  {
    HeadBytes(|f.text|, f.fd) + f.text
  }

  /** Number of bytes taken by the first n frames. */
  function Off(frames: seq<Frame>, n: nat): nat
    requires n <= |frames|
  {
    if n == 0 then 0 else Off(frames, n - 1) + Size(frames[n - 1])
  }

  /** The bytes of the first n frames. */
  function Stream(frames: seq<Frame>, n: nat): (b: seq<Byte>)
    requires n <= |frames|
    ensures |b| == Off(frames, n)
  {
    if n == 0 then [] else Stream(frames, n - 1) + Encode(frames[n - 1])
  }

  lemma {:induction false} OffStrict(frames: seq<Frame>, i: nat, j: nat)
    requires i < j <= |frames|
    ensures Off(frames, i) + HEAD_BYTES <= Off(frames, i) + Size(frames[i]) <= Off(frames, j)
    decreases j
  {
    if i < j - 1 {
      OffStrict(frames, i, j - 1);
    }
  }

  lemma {:induction false} OffExtend(frames: seq<Frame>, f: Frame, n: nat)
    requires n <= |frames|
    ensures Off(frames + [f], n) == Off(frames, n)
    ensures Stream(frames + [f], n) == Stream(frames, n)
  {
    if n > 0 {
      OffExtend(frames, f, n - 1);
    }
  }

  lemma {:induction false} StreamPrefix(frames: seq<Frame>, i: nat, n: nat)
    requires i <= n <= |frames|
    ensures Off(frames, i) <= Off(frames, n)
    ensures Stream(frames, n)[..Off(frames, i)] == Stream(frames, i)
    decreases n
  {
    if i < n {
      StreamPrefix(frames, i, n - 1);
      assert Stream(frames, n)[..Off(frames, i)] == Stream(frames, n - 1)[..Off(frames, i)];
    }
  }

  /** Frame i sits whole at its offset, whatever was added after it. */
  lemma StreamAt(frames: seq<Frame>, i: nat, n: nat)
    requires i < n <= |frames|
    ensures Off(frames, i) + Size(frames[i]) <= Off(frames, n)
    ensures Stream(frames, n)[Off(frames, i)..Off(frames, i) + Size(frames[i])] == Encode(frames[i])
  {
    StreamPrefix(frames, i + 1, n);
    assert Stream(frames, i + 1) == Stream(frames, i) + Encode(frames[i]);
    PartOfPrefix(Stream(frames, n), Stream(frames, i), Encode(frames[i]), Off(frames, i + 1));
  }

  lemma PartOfPrefix(s: seq<Byte>, a: seq<Byte>, b: seq<Byte>, hi: nat)
    requires hi == |a| + |b| <= |s| && s[..hi] == a + b
    ensures s[|a|..hi] == b
  {
    assert s[|a|..hi] == (a + b)[|a|..];
  }

  /** Reads a byte string as frames: whole ones of 1 to MAX_FRAME bytes, or Broken. */
  function Parse(b: seq<Byte>): Parsed
    decreases |b|
  {
    if b == [] then Frames([])
    else if |b| < HEAD_BYTES then Broken
    else
      var h := DecodeHead(b[..HEAD_BYTES]);
      if h.len == 0 || h.len > MAX_FRAME || HEAD_BYTES + h.len > |b| then Broken
      else
        match Parse(b[HEAD_BYTES + h.len..])
        case Broken => Broken
        case Frames(rest) => Frames([Frame(h.fd, b[HEAD_BYTES..HEAD_BYTES + h.len])] + rest)
  }

  lemma ParseStep(f: Frame, rest: seq<Byte>, b: seq<Byte>)
    requires FrameOk(f) && b == Encode(f) + rest && Parse(rest).Frames?
    ensures Parse(b) == Frames([f] + Parse(rest).frames)
  {
    HeadRoundTrip(f);
    assert b[..HEAD_BYTES] == HeadBytes(|f.text|, f.fd);
    assert b[HEAD_BYTES..Size(f)] == f.text;
    assert b[Size(f)..] == rest;
  }

  /** The bytes of the frames from i on. */
  function Tail(frames: seq<Frame>, i: nat): seq<Byte>
    requires i <= |frames|
    decreases |frames| - i
  {
    if i == |frames| then [] else Encode(frames[i]) + Tail(frames, i + 1)
  }

  lemma {:induction false} ParseTail(frames: seq<Frame>, i: nat)
    requires AllOk(frames) && i <= |frames|
    ensures Parse(Tail(frames, i)) == Frames(frames[i..])
    decreases |frames| - i
  {
    if i < |frames| {
      ParseTail(frames, i + 1);
      assert frames[i..] == [frames[i]] + frames[i + 1..];
      ParseStep(frames[i], Tail(frames, i + 1), Tail(frames, i));
    }
  }

  lemma {:induction false} WindowIsTail(frames: seq<Frame>, i: nat)
    requires i <= |frames|
    ensures Off(frames, i) <= Off(frames, |frames|)
    ensures Stream(frames, |frames|)[Off(frames, i)..] == Tail(frames, i)
    decreases |frames| - i
  {
    if i < |frames| {
      WindowIsTail(frames, i + 1);
      WindowStep(frames, i);
    }
  }

  /** The window of the stream from frame i on parses back into exactly those frames. */
  lemma ParseWindow(frames: seq<Frame>, i: nat)
    requires AllOk(frames) && i <= |frames|
    ensures Off(frames, i) <= Off(frames, |frames|)
    ensures Parse(Stream(frames, |frames|)[Off(frames, i)..]) == Frames(frames[i..])
  {
    WindowIsTail(frames, i);
    ParseTail(frames, i);
  }

  lemma WindowStep(frames: seq<Frame>, i: nat)
    requires i < |frames|
    ensures Off(frames, i) <= Off(frames, i + 1) <= Off(frames, |frames|)
    ensures var s := Stream(frames, |frames|);
      s[Off(frames, i)..] == Encode(frames[i]) + s[Off(frames, i + 1)..]
  {
    var s := Stream(frames, |frames|);
    StreamAt(frames, i, |frames|);
    SplitTail(s, Off(frames, i), Off(frames, i + 1));
  }

  lemma SplitTail(s: seq<Byte>, lo: nat, hi: nat)
    requires lo <= hi <= |s|
    ensures s[lo..] == s[lo..hi] + s[hi..]
  {
  }
}
