/** What one pass of bd_ws_out.cpp does with the sockets, as a log of calls and answers. */
module WsSockets {
  import opened Words
  import opened WsHub

  const FRAMES_PER_PASS := 8

  /** A call to the outside, with its answer. */
  datatype Act =
    | Asked(fd: int, writable: bool)
    | Sent(fd: int, m: Message, ok: bool)
    | Closed(fd: int)
    | Clock(fd: int, ms: nat)

  class Sockets {
    /** What the pass did so far. */
    ghost var log: seq<Act>

    constructor ()
      ensures log == []
    {
      log := [];
    }

    /** socket_writable */
    method Writable(fd: int) returns (w: bool)
      modifies this
      ensures log == old(log) + [Asked(fd, w)]
    {
      w := *;
      log := log + [Asked(fd, w)];
    }

    /** httpd_ws_send_frame_async */
    method Send(fd: int, m: Message) returns (ok: bool)
      modifies this
      ensures log == old(log) + [Sent(fd, m, ok)]
    {
      ok := *;
      log := log + [Sent(fd, m, ok)];
    }

    /** httpd_sess_trigger_close */
    method Close(fd: int)
      modifies this
      ensures log == old(log) + [Closed(fd)]
    {
      log := log + [Closed(fd)];
    }

    /** millis, read for a client */
    method Millis(fd: int) returns (ms: nat)
      modifies this
      ensures log == old(log) + [Clock(fd, ms)]
    {
      ms := *;
      log := log + [Clock(fd, ms)];
    }
  }

  /** The messages given to sockets, in order. */
  function Handed(log: seq<Act>): seq<(int, Message)>
    decreases |log|
  {
    if log == [] then []
    else
      var a := log[|log| - 1];
      Handed(log[..|log| - 1]) + if a.Sent? then [(a.fd, a.m)] else []
  }

  lemma HandedMore(log: seq<Act>, a: Act)
    ensures Handed(log + [a]) == Handed(log) + if a.Sent? then [(a.fd, a.m)] else []
  {
    assert (log + [a])[..|log|] == log;
  }

  /** What concerns one socket. */
  function About(log: seq<Act>, fd: int): seq<Act>
    decreases |log|
  {
    if log == [] then []
    else
      var a := log[|log| - 1];
      About(log[..|log| - 1], fd) + if a.fd == fd then [a] else []
  }

  predicate AllAbout(log: seq<Act>, fd: int) {
    forall i :: 0 <= i < |log| ==> log[i].fd == fd
  }

  lemma AboutOne(log: seq<Act>, a: Act, more: seq<Act>, fd: int)
    requires more == log + [a]
    ensures About(more, fd) == About(log, fd) + if a.fd == fd then [a] else []
  {
    assert more[..|log|] == log;
  }

  lemma Regroup(a: seq<Act>, b: seq<Act>, c: Act)
    ensures (a + b) + [c] == a + (b + [c])
  {
  }

  lemma {:induction false} AboutMore(log: seq<Act>, seg: seq<Act>, fd: int, other: int)
    requires AllAbout(seg, fd)
    ensures About(log + seg, other) == About(log, other) + if other == fd then seg else []
    decreases |seg|
  {
    if seg == [] {
      assert log + seg == log;
    } else {
      var n := |seg| - 1;
      assert seg == seg[..n] + [seg[n]];
      AboutMore(log, seg[..n], fd, other);
      Regroup(log, seg[..n], seg[n]);
      AboutOne(log + seg[..n], seg[n], log + seg, other);
      Regroup(About(log, other), seg[..n], seg[n]);
    }
  }

  // --- one socket ---

  /** What may come behind what, for one socket: it is only written to when found writable, a send that worked is
   *  followed by the question whether it still is, and one that failed by the close. */
  predicate Follows(a: Act, b: Act) {
    match a
    case Asked(_, writable) => writable && b.Sent?
    case Sent(_, _, ok) => if ok then b.Asked? else b.Closed?
    case _ => false
  }

  predicate FollowsAt(seg: seq<Act>, i: nat)
    requires i + 1 < |seg|
  {
    Follows(seg[i], seg[i + 1])
  }

  predicate Chain(seg: seq<Act>) {
    forall i :: 0 <= i < |seg| - 1 ==> FollowsAt(seg, i)
  }

  function Sends(seg: seq<Act>): nat
    decreases |seg|
  {
    if seg == [] then 0 else Sends(seg[..|seg| - 1]) + if seg[|seg| - 1].Sent? then 1 else 0
  }

  lemma SendsMore(seg: seq<Act>, a: Act)
    ensures Sends(seg + [a]) == Sends(seg) + if a.Sent? then 1 else 0
  {
    assert (seg + [a])[..|seg|] == seg;
  }

  lemma Longer(seg: seq<Act>, a: Act)
    requires Chain(seg) && (seg != [] ==> Follows(seg[|seg| - 1], a))
    ensures Chain(seg + [a]) && Sends(seg + [a]) == Sends(seg) + if a.Sent? then 1 else 0
  {
    SendsMore(seg, a);
    forall i | 0 <= i < |seg + [a]| - 1
      ensures FollowsAt(seg + [a], i)
    {
      assert i < |seg| - 1 ==> FollowsAt(seg, i);
    }
  }

  /** Fed so far, with n messages; the last answer was whether the socket can take more. */
  ghost predicate Feeding(seg: seq<Act>, fd: int, n: nat, writable: bool) {
    && seg != [] && seg[0] == Asked(fd, true) && Chain(seg) && Sends(seg) == n && AllAbout(seg, fd)
    && seg[|seg| - 1] == Asked(fd, writable)
  }

  /** The same when the last send failed. */
  ghost predicate SendFailed(seg: seq<Act>, fd: int) {
    && seg != [] && seg[0] == Asked(fd, true) && Chain(seg) && Sends(seg) <= FRAMES_PER_PASS && AllAbout(seg, fd)
    && seg[|seg| - 1].Sent? && !seg[|seg| - 1].ok
  }

  lemma FeedNone(fd: int)
    ensures Feeding([Asked(fd, true)], fd, 0, true)
  {
    assert [Asked(fd, true)][..0] == [];
  }

  lemma FeedOne(seg: seq<Act>, fd: int, n: nat, m: Message, w: bool)
    requires Feeding(seg, fd, n, true)
    ensures Feeding(seg + [Sent(fd, m, true)] + [Asked(fd, w)], fd, n + 1, w)
  {
    Longer(seg, Sent(fd, m, true));
    Longer(seg + [Sent(fd, m, true)], Asked(fd, w));
  }

  lemma FeedLast(seg: seq<Act>, fd: int, n: nat, m: Message)
    requires Feeding(seg, fd, n, true) && n < FRAMES_PER_PASS
    ensures SendFailed(seg + [Sent(fd, m, false)], fd)
  {
    Longer(seg, Sent(fd, m, false));
  }

  /** Asked, the clock read twice, and perhaps the close. */
  predicate Waited(seg: seq<Act>, fd: int) {
    && 3 <= |seg| <= 4 && seg[0] == Asked(fd, false)
    && seg[1].Clock? && seg[2].Clock? && seg[1].fd == fd && seg[2].fd == fd
    && (|seg| == 4 ==> seg[3] == Closed(fd))
  }

  lemma WaitedIs(fd: int, first: nat, now: nat, close: bool, seg: seq<Act>)
    requires seg == [Asked(fd, false), Clock(fd, first), Clock(fd, now)] + if close then [Closed(fd)] else []
    ensures Waited(seg, fd) && AllAbout(seg, fd) && seg[1].ms == first && seg[2].ms == now && (|seg| == 4 <==> close)
  {
  }

  lemma WaitedQuiet(seg: seq<Act>, fd: int)
    requires Waited(seg, fd)
    ensures AllAbout(seg, fd) && forall i :: 0 <= i < |seg| ==> !seg[i].Sent?
  {
  }

  lemma {:induction false} NoSends(seg: seq<Act>)
    requires forall i :: 0 <= i < |seg| ==> !seg[i].Sent?
    ensures Sends(seg) == 0
    decreases |seg|
  {
    if seg != [] {
      NoSends(seg[..|seg| - 1]);
    }
  }

  lemma {:induction false} AboutHas(log: seq<Act>, a: Act)
    requires a in log
    ensures a in About(log, a.fd)
    decreases |log|
  {
    var n := |log| - 1;
    if a != log[n] {
      AboutHas(log[..n], a);
    }
  }

  lemma {:induction false} AboutOnly(log: seq<Act>, fd: int, a: Act)
    requires a in About(log, fd)
    ensures a in log && a.fd == fd
    decreases |log|
  {
    var n := |log| - 1;
    if a in About(log[..n], fd) {
      AboutOnly(log[..n], fd, a);
    }
  }
}
