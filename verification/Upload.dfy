/**
 * The streaming multipart reader of bd_http.cpp (update_handler): whatever way TCP cuts
 * the body into receives, the bytes written are those between the first blank line and
 * the first delimiter behind it (section 5.1.1 of RFC 2046).
 */
module Upload {
  import opened Words

  const BLANK_LINE: seq<Byte> := [13, 10, 13, 10]
  const HEADER_LIMIT := 2048
  const RECEIVE_MAX := 1024

  datatype Pos = Nowhere | At(i: nat)

  predicate OccursAt(s: seq<Byte>, pat: seq<Byte>, i: nat) {
    i + |pat| <= |s| && s[i..i + |pat|] == pat
  }

  /** indexOf: the first occurrence from `from` on. */
  function Find(s: seq<Byte>, pat: seq<Byte>, from: nat): (p: Pos)
    ensures p.At? ==> from <= p.i && OccursAt(s, pat, p.i)
    ensures forall j :: from <= j && (p.Nowhere? || j < p.i) ==> !OccursAt(s, pat, j)
    decreases |s| - from
  {
    if from + |pat| > |s| then Nowhere
    else if OccursAt(s, pat, from) then At(from)
    else Find(s, pat, from + 1)
  }

  /** The payload of a part: up to the delimiter, or all of it. */
  function Part(p: seq<Byte>, delim: seq<Byte>): seq<Byte> {
    match Find(p, delim, 0)
    case At(i) => p[..i]
    case Nowhere => p
  }

  /** What an upload is meant to write. */
  function Payload(body: seq<Byte>, delim: seq<Byte>): seq<Byte> {
    match Find(body, BLANK_LINE, 0)
    case At(b) => Part(body[b + 4..], delim)
    case Nowhere => []
  }

  function Concat(chunks: seq<seq<Byte>>): seq<Byte>
    decreases |chunks|
  {
    if chunks == [] then [] else Concat(chunks[..|chunks| - 1]) + chunks[|chunks| - 1]
  }

  /** After some receive more than HEADER_LIMIT bytes are there and no blank line yet. */
  predicate HeaderTooLong(chunks: seq<seq<Byte>>) {
    exists k :: 0 <= k <= |chunks| && TooLongAt(chunks, k)
  }

  predicate TooLongAt(chunks: seq<seq<Byte>>, k: nat)
    requires k <= |chunks|
  {
    |Concat(chunks[..k])| > HEADER_LIMIT && Find(Concat(chunks[..k]), BLANK_LINE, 0).Nowhere?
  }

  // --- searching in pieces ---

  lemma FindIs(s: seq<Byte>, pat: seq<Byte>, i: nat)
    requires OccursAt(s, pat, i) && forall j :: 0 <= j < i ==> !OccursAt(s, pat, j)
    ensures Find(s, pat, 0) == At(i)
  {
  }

  lemma OccursInLonger(s: seq<Byte>, more: seq<Byte>, pat: seq<Byte>, i: nat)
    requires i + |pat| <= |s|
    ensures OccursAt(s + more, pat, i) <==> OccursAt(s, pat, i)
  {
    assert (s + more)[i..i + |pat|] == s[i..i + |pat|];
  }

  /** An occurrence found stays the first one when more arrives. */
  lemma FindInLonger(s: seq<Byte>, more: seq<Byte>, pat: seq<Byte>)
    requires Find(s, pat, 0).At?
    ensures Find(s + more, pat, 0) == Find(s, pat, 0)
  {
    var i := Find(s, pat, 0).i;
    OccursInLonger(s, more, pat, i);
    forall j | 0 <= j < i
      ensures !OccursAt(s + more, pat, j)
    {
      OccursInLonger(s, more, pat, j);
    }
    FindIs(s + more, pat, i);
  }

  lemma OccursInTail(out: seq<Byte>, tail: seq<Byte>, pat: seq<Byte>, i: nat)
    ensures OccursAt(out + tail, pat, |out| + i) <==> OccursAt(tail, pat, i)
  {
    if i + |pat| <= |tail| {
      assert (out + tail)[|out| + i..|out| + i + |pat|] == tail[i..i + |pat|];
    }
  }

  /** The bytes written so far, when enough is held back, cannot be part of a delimiter yet to be seen. */
  ghost predicate HeldBack(out: seq<Byte>, tail: seq<Byte>, delim: seq<Byte>) {
    Find(out + tail, delim, 0).Nowhere? && (out != [] ==> |tail| + 1 >= |delim|)
  }

  /** So searching only what is held back and the new bytes finds the first delimiter of everything. */
  lemma SearchTail(out: seq<Byte>, tail: seq<Byte>, more: seq<Byte>, delim: seq<Byte>)
    requires HeldBack(out, tail, delim)
    ensures match Find(tail + more, delim, 0)
            case At(t) => Find(out + (tail + more), delim, 0) == At(|out| + t)
            case Nowhere => Find(out + (tail + more), delim, 0) == Nowhere
  {
    var all := out + (tail + more);
    assert all == (out + tail) + more;
    forall j | 0 <= j < |out|
      ensures !OccursAt(all, delim, j)
    {
      OccursInLonger(out + tail, more, delim, j);
    }
    match Find(tail + more, delim, 0)
    case At(t) =>
      OccursInTail(out, tail + more, delim, t);
      forall j | 0 <= j < |out| + t
        ensures !OccursAt(all, delim, j)
      {
        if j >= |out| {
          OccursInTail(out, tail + more, delim, j - |out|);
        }
      }
      FindIs(all, delim, |out| + t);
    case Nowhere =>
      if Find(all, delim, 0).At? {
        var i := Find(all, delim, 0).i;
        OccursInTail(out, tail + more, delim, i - |out|);
      }
  }

  // --- the target of an upload ---

  /** The partition or OTA slot an upload goes to, written from its start. */
  class Sink {
    const area: array<Byte>
    var written: nat

    ghost predicate Shows(out: seq<Byte>)
      reads this, area
    {
      written <= area.Length && area[..written] == out
    }

    constructor (a: array<Byte>)
      ensures area == a && Shows([])
    {
      area, written := a, 0;
    }

    /** upload_write: appends at the write position; the driver refuses to go past the end. */
    method Write(data: seq<Byte>, ghost out: seq<Byte>) returns (ok: bool)
      requires Shows(out)
      modifies this, area
      ensures ok <==> |out| + |data| <= area.Length
      ensures Shows(if ok then out + data else out)
    {
      ok := written + |data| <= area.Length;
      if ok {
        forall i | 0 <= i < |data| {
          area[written + i] := data[i];
        }
        written := written + |data|;
      }
    }
  }

  // --- the body loop ---

  /** Where the loop stands once it is in the data: nothing lost, nothing written that should not be. */
  ghost predicate InData(body: seq<Byte>, out: seq<Byte>, tail: seq<Byte>, delim: seq<Byte>) {
    var b := Find(body, BLANK_LINE, 0);
    b.At? && body[b.i + 4..] == out + tail && HeldBack(out, tail, delim) && JustHeld(out, tail, delim)
  }

  /** How much is held back: as much as a delimiter and two bytes, once anything was written. */
  predicate JustHeld(out: seq<Byte>, tail: seq<Byte>, delim: seq<Byte>) {
    |tail| <= |delim| + 2 && (out != [] ==> |tail| == |delim| + 2)
  }

  /** One pass over new data: writes up to the delimiter if it is there, else all but what may start one. */
  method PassOn(tail: seq<Byte>, delim: seq<Byte>, sink: Sink, ghost out: seq<Byte>)
    returns (found: bool, failed: bool, tail': seq<Byte>, ghost out': seq<Byte>)
    requires sink.Shows(out) && |delim| >= 2 && (out != [] ==> |tail| >= |delim| + 2)
    modifies sink, sink.area
    ensures sink.Shows(out')
    ensures found <==> Find(tail, delim, 0).At?
    ensures found && !failed ==> out' == out + Part(tail, delim) && tail' == []
    ensures !found && !failed ==>
              out' + tail' == out + tail && out <= out' && JustHeld(out', tail', delim)
    ensures failed ==> out' == out
    ensures failed && found ==> |out| + |Part(tail, delim)| > sink.area.Length
    ensures failed && !found ==> |out| + |tail| - (|delim| + 2) > sink.area.Length && |tail| > |delim| + 2
  {
    failed, out', tail' := false, out, tail;
    var p := Find(tail, delim, 0);
    found := p.At?;
    if found {
      if p.i > 0 {
        var ok := sink.Write(tail[..p.i], out);
        failed := !ok;
      }
      out' := if failed then out else out + tail[..p.i];
      tail' := [];
    } else {
      var keep := |delim| + 2;
      if |tail| > keep {
        var ok := sink.Write(tail[..|tail| - keep], out);
        failed := !ok;
        if ok {
          out' := out + tail[..|tail| - keep];
          tail' := tail[|tail| - keep..];
        }
      }
    }
  }

  lemma {:induction false} ConcatSplit(chunks: seq<seq<Byte>>, i: nat, k: nat)
    requires i <= k <= |chunks|
    ensures Concat(chunks[..k]) == Concat(chunks[..i]) + Concat(chunks[i..k])
    decreases k
  {
    if i < k {
      ConcatSplit(chunks, i, k - 1);
      assert chunks[..k][..k - 1] == chunks[..k - 1];
      assert chunks[i..k][..k - 1 - i] == chunks[i..k - 1];
      Assoc(Concat(chunks[..i]), Concat(chunks[i..k - 1]), chunks[k - 1]);
    } else {
      assert chunks[i..k] == [];
    }
  }

  lemma Assoc(a: seq<Byte>, b: seq<Byte>, c: seq<Byte>)
    ensures (a + b) + c == a + (b + c)
  {
  }

  lemma ConcatNext(chunks: seq<seq<Byte>>, i: nat)
    requires i < |chunks|
    ensures Concat(chunks[..i + 1]) == Concat(chunks[..i]) + chunks[i]
  {
    assert chunks[..i + 1][..i] == chunks[..i];
  }

  /** Once the blank line was there in time, the header cannot become too long. */
  lemma BlankInTime(chunks: seq<seq<Byte>>, i: nat)
    requires i <= |chunks| && Find(Concat(chunks[..i]), BLANK_LINE, 0).At?
    requires forall k :: 0 <= k < i ==> !TooLongAt(chunks, k)
    ensures !HeaderTooLong(chunks)
  {
    forall k | i <= k <= |chunks|
      ensures !TooLongAt(chunks, k)
    {
      ConcatSplit(chunks, i, k);
      FindInLonger(Concat(chunks[..i]), Concat(chunks[i..k]), BLANK_LINE);
    }
  }

  /** In the data, more of the body is more of the tail. */
  lemma MoreData(body: seq<Byte>, more: seq<Byte>, out: seq<Byte>, tail: seq<Byte>, delim: seq<Byte>)
    requires InData(body, out, tail, delim)
    ensures var b := Find(body + more, BLANK_LINE, 0);
      b == Find(body, BLANK_LINE, 0) && (body + more)[b.i + 4..] == out + (tail + more)
  {
    FindInLonger(body, more, BLANK_LINE);
    var b := Find(body, BLANK_LINE, 0).i;
    assert (body + more)[b + 4..] == body[b + 4..] + more;
    Assoc(out, tail, more);
  }

  /** The part does not change when more arrives behind its delimiter, and only grows without one. */
  lemma PartOfLonger(body: seq<Byte>, more: seq<Byte>, delim: seq<Byte>)
    requires Find(body, BLANK_LINE, 0).At?
    ensures var p := body[Find(body, BLANK_LINE, 0).i + 4..];
      Find(p, delim, 0).At? ==> Payload(body + more, delim) == Payload(body, delim) == Part(p, delim)
    ensures Find(body + more, BLANK_LINE, 0) == Find(body, BLANK_LINE, 0)
  {
    FindInLonger(body, more, BLANK_LINE);
    var b := Find(body, BLANK_LINE, 0).i;
    var p := body[b + 4..];
    assert (body + more)[b + 4..] == p + more;
    if Find(p, delim, 0).At? {
      FindInLonger(p, more, delim);
      assert (p + more)[..Find(p, delim, 0).i] == p[..Find(p, delim, 0).i];
    }
  }

  /** Still in the part header after i receives. */
  ghost predicate Reading(chunks: seq<seq<Byte>>, i: nat, acc: seq<Byte>)
    requires i <= |chunks|
  {
    acc == Concat(chunks[..i]) && Find(acc, BLANK_LINE, 0).Nowhere? && forall k :: 0 <= k <= i ==> !TooLongAt(chunks, k)
  }

  /** In the data after i receives. */
  ghost predicate Passing(chunks: seq<seq<Byte>>, i: nat, out: seq<Byte>, tail: seq<Byte>, delim: seq<Byte>)
    requires i <= |chunks|
  {
    InData(Concat(chunks[..i]), out, tail, delim) && !HeaderTooLong(chunks)
  }

  /** The delimiter was found in the first i receives and all before it is written. */
  ghost predicate Finished(chunks: seq<seq<Byte>>, i: nat, out: seq<Byte>, delim: seq<Byte>)
    requires i <= |chunks|
  {
    && Complete(Concat(chunks[..i]), delim) && !HeaderTooLong(chunks)
    && out == Payload(Concat(chunks[..i]), delim)
  }

  /** Blank line and delimiter are both there. */
  predicate Complete(body: seq<Byte>, delim: seq<Byte>) {
    var b := Find(body, BLANK_LINE, 0);
    b.At? && Find(body[b.i + 4..], delim, 0).At?
  }

  /** The part is already known to exceed the space, and what was written is its beginning. */
  ghost predicate Overflown(body: seq<Byte>, delim: seq<Byte>, space: nat, out: seq<Byte>) {
    var b := Find(body, BLANK_LINE, 0);
    b.At?
    && var p := body[b.i + 4..];
    if Complete(body, delim) then out <= Part(p, delim) && |Part(p, delim)| > space
    else out <= p && |p| - (|delim| + 2) > space && |out| <= |p| - (|delim| + 2)
  }

  /** Without a delimiter so far, all but the last bytes received belong to the part for good. */
  lemma PartGrows(body: seq<Byte>, more: seq<Byte>, delim: seq<Byte>)
    requires Find(body, BLANK_LINE, 0).At? && !Complete(body, delim)
    ensures var p := body[Find(body, BLANK_LINE, 0).i + 4..];
      var part := Payload(body + more, delim);
      forall n :: 0 <= n <= |p| - |delim| ==> n <= |part| && part[..n] == p[..n]
  {
    PartOfLonger(body, more, delim);
    var b := Find(body, BLANK_LINE, 0).i;
    var p := body[b + 4..];
    assert (body + more)[b + 4..] == p + more;
    if Find(p + more, delim, 0).At? {
      var i := Find(p + more, delim, 0).i;
      if i + |delim| <= |p| {
        OccursInLonger(p, more, delim, i);
      }
    }
  }

  lemma OverflowStays(body: seq<Byte>, more: seq<Byte>, delim: seq<Byte>, space: nat, out: seq<Byte>)
    requires Overflown(body, delim, space, out)
    ensures out <= Payload(body + more, delim) && |Payload(body + more, delim)| > space
    ensures Find(body + more, BLANK_LINE, 0).At?
    ensures !Complete(body + more, delim) ==> |Payload(body + more, delim)| > space + |delim| + 2
  {
    PartOfLonger(body, more, delim);
    if Complete(body, delim) {
      CompleteStays(body, more, delim);
    }
    if !Complete(body, delim) {
      PartGrows(body, more, delim);
      var p := body[Find(body, BLANK_LINE, 0).i + 4..];
      var n := |p| - (|delim| + 2);
      assert p[..n][..|out|] == out;
    }
  }

  /** The data so far is what was written and what is held back with the new bytes, and searching the latter is enough. */
  ghost predicate Searchable(all: seq<Byte>, delim: seq<Byte>, out: seq<Byte>, tail: seq<Byte>) {
    var b := Find(all, BLANK_LINE, 0);
    && b.At? && all[b.i + 4..] == out + tail && (out != [] ==> |tail| >= |delim| + 2)
    && (if Complete(all, delim) then Find(out + tail, delim, 0).i >= |out|
          && Find(tail, delim, 0) == At(Find(out + tail, delim, 0).i - |out|)
        else Find(tail, delim, 0).Nowhere?)
  }

  /** One receive while in the data: `all` is the body so far with the new bytes. */
  method DataStep(ghost all: seq<Byte>, delim: seq<Byte>, sink: Sink, tail: seq<Byte>, ghost out: seq<Byte>)
    returns (found: bool, failed: bool, tail': seq<Byte>, ghost out': seq<Byte>)
    requires sink.Shows(out) && |delim| >= 2 && Searchable(all, delim, out, tail)
    modifies sink, sink.area
    ensures sink.Shows(out')
    ensures found <==> Complete(all, delim)
    ensures found && !failed ==> out' == Payload(all, delim) && tail' == []
    ensures !found && !failed ==> InData(all, out', tail', delim)
    ensures failed ==> Overflown(all, delim, sink.area.Length, out')
  {
    found, failed, tail', out' := PassOn(tail, delim, sink, out);
    if found {
      var i := Find(tail, delim, 0).i;
      assert (out + tail)[..|out| + i] == out + tail[..i];
    }
  }

  lemma StepFits(body: seq<Byte>, chunk: seq<Byte>, out: seq<Byte>, tail: seq<Byte>, delim: seq<Byte>)
    requires InData(body, out, tail, delim)
    ensures Searchable(body + chunk, delim, out, tail + chunk)
  {
    MoreData(body, chunk, out, tail, delim);
    SearchTail(out, tail, chunk, delim);
  }

  /** The first data, behind the blank line. */
  lemma FirstFits(all: seq<Byte>, delim: seq<Byte>)
    requires Find(all, BLANK_LINE, 0).At?
    ensures Searchable(all, delim, [], all[Find(all, BLANK_LINE, 0).i + 4..])
  {
    var tail := all[Find(all, BLANK_LINE, 0).i + 4..];
    assert [] + tail == tail;
  }

  /** All of a part without a delimiter if there is room, else what is written before the last bytes are. */
  function Kept(part: seq<Byte>, delim: seq<Byte>, space: nat): seq<Byte> {
    if |part| <= space then part
    else if |part| <= |delim| + 2 then []
    else part[..|part| - (|delim| + 2)]
  }

  /** What the loop has done when it ends, whatever the cuts. */
  ghost predicate Received(chunks: seq<seq<Byte>>, aborted: bool, delim: seq<Byte>, space: nat, failed: bool,
                           out: seq<Byte>)
  {
    var body := Concat(chunks);
    var part := Payload(body, delim);
    if HeaderTooLong(chunks) then failed && out == []
    else if Find(body, BLANK_LINE, 0).Nowhere? then out == [] && failed == aborted
    else if Complete(body, delim) then out <= part && (failed <==> |part| > space) && (!failed ==> out == part)
    else
      && out <= part && (failed <==> aborted || |part| > space + |delim| + 2)
      && (!failed ==> out == Kept(part, delim, space))
  }

  /** The blank line comes in time, and there is room for the payload. */
  ghost predicate Fits(chunks: seq<seq<Byte>>, delim: seq<Byte>, space: nat) {
    && !HeaderTooLong(chunks) && Find(Concat(chunks), BLANK_LINE, 0).At?
    && |Payload(Concat(chunks), delim)| <= space
  }

  /** The loop of update_handler over the receives; `aborted`: the one after them fails.
   *  The last write, of what is left without a delimiter, is not checked by the source. */
  method Receive(chunks: seq<seq<Byte>>, aborted: bool, delim: seq<Byte>, sink: Sink) returns (failed: bool, ghost out: seq<Byte>)
    requires |delim| >= 2 && sink.Shows([])
    modifies sink, sink.area
    ensures sink.Shows(out) && Received(chunks, aborted, delim, sink.area.Length, failed, out)
    ensures !aborted && Fits(chunks, delim, sink.area.Length) ==> !failed && out == Payload(Concat(chunks), delim)
  {
    var inData, done, acc, tail, i := false, false, [], [], 0;
    failed, out := false, [];
    ghost var space := sink.area.Length;
    while i < |chunks| && !done && !failed
      invariant i <= |chunks| && sink.Shows(out)
      invariant !failed && !inData ==> !done && out == [] && tail == [] && Reading(chunks, i, acc)
      invariant !failed && inData && !done ==> Passing(chunks, i, out, tail, delim)
      invariant !failed && done ==> inData && tail == [] && Finished(chunks, i, out, delim)
      invariant failed ==> FailedAt(chunks, i, delim, space, out)
    {
      var chunk := chunks[i];
      ghost var body := Concat(chunks[..i]);
      ConcatNext(chunks, i);
      i := i + 1;
      if !inData {
        acc := acc + chunk;
        var blank := Find(acc, BLANK_LINE, 0);
        if blank.Nowhere? {
          failed := |acc| > HEADER_LIMIT;
          assert failed ==> TooLongAt(chunks, i);
          continue;
        }
        BlankInTime(chunks, i);
        FirstFits(acc, delim);
        inData, tail := true, acc[blank.i + 4..];
      } else {
        StepFits(body, chunk, out, tail, delim);
        tail := tail + chunk;
      }
      done, failed, tail, out := DataStep(Concat(chunks[..i]), delim, sink, tail, out);
    }
    if failed {
      FailedEnd(chunks, i, aborted, out, delim, space);
    } else if done {
      FinishedEnd(chunks, i, aborted, out, delim, space);
    } else {
      OpenEnd(chunks, inData, acc, out, tail, delim, space);
      failed := aborted;
    }
    if !failed && tail != [] {
      var ok := sink.Write(tail, out);
      out := if ok then out + tail else out;
    }
  }

  /** The loop stopped on a failure. */
  ghost predicate FailedAt(chunks: seq<seq<Byte>>, i: nat, delim: seq<Byte>, space: nat, out: seq<Byte>)
    requires i <= |chunks|
  {
    (HeaderTooLong(chunks) && out == [])
    || (!HeaderTooLong(chunks) && Overflown(Concat(chunks[..i]), delim, space, out))
  }

  lemma FinishedEnd(chunks: seq<seq<Byte>>, i: nat, aborted: bool, out: seq<Byte>, delim: seq<Byte>, space: nat)
    requires i <= |chunks| && Finished(chunks, i, out, delim) && |out| <= space
    ensures Received(chunks, aborted, delim, space, false, out)
  {
    WholeFrom(chunks, i);
    PartOfLonger(Concat(chunks[..i]), Concat(chunks[i..]), delim);
    CompleteStays(Concat(chunks[..i]), Concat(chunks[i..]), delim);
  }

  lemma CompleteStays(body: seq<Byte>, more: seq<Byte>, delim: seq<Byte>)
    requires Complete(body, delim)
    ensures Complete(body + more, delim)
  {
    FindInLonger(body, more, BLANK_LINE);
    var b := Find(body, BLANK_LINE, 0).i;
    assert (body + more)[b + 4..] == body[b + 4..] + more;
    FindInLonger(body[b + 4..], more, delim);
  }

  lemma WholeFrom(chunks: seq<seq<Byte>>, i: nat)
    requires i <= |chunks|
    ensures Concat(chunks) == Concat(chunks[..i]) + Concat(chunks[i..])
  {
    ConcatSplit(chunks, i, |chunks|);
    assert chunks[..|chunks|] == chunks && chunks[i..|chunks|] == chunks[i..];
  }

  /** A failed loop: too long a header, or no space. */
  lemma FailedEnd(chunks: seq<seq<Byte>>, i: nat, aborted: bool, out: seq<Byte>, delim: seq<Byte>, space: nat)
    requires i <= |chunks| && FailedAt(chunks, i, delim, space, out) && |out| <= space
    ensures Received(chunks, aborted, delim, space, true, out)
  {
    if !HeaderTooLong(chunks) {
      WholeFrom(chunks, i);
      OverflowStays(Concat(chunks[..i]), Concat(chunks[i..]), delim, space, out);
    }
  }

  /** All receives are through and the delimiter was not among them; what is held back is still to be written. */
  lemma OpenEnd(chunks: seq<seq<Byte>>, inData: bool, acc: seq<Byte>, out: seq<Byte>, tail: seq<Byte>,
                delim: seq<Byte>, space: nat)
    requires if inData then Passing(chunks, |chunks|, out, tail, delim)
             else Reading(chunks, |chunks|, acc) && out == [] && tail == []
    requires |out| <= space
    ensures Received(chunks, true, delim, space, true, out)
    ensures Received(chunks, false, delim, space, false, if |out| + |tail| <= space then out + tail else out)
  {
    assert chunks[..|chunks|] == chunks;
    assert out + [] == out;
  }

  // --- cuts do not matter ---

  predicate SplitOk(chunks: seq<seq<Byte>>, body: seq<Byte>) {
    Concat(chunks) == body && forall i :: 0 <= i < |chunks| ==> 1 <= |chunks[i]| <= RECEIVE_MAX
  }

  /** The blank line ends within the first 2049 bytes, or the body is no longer than the limit. */
  predicate HeaderInTime(body: seq<Byte>) {
    var b := Find(body, BLANK_LINE, 0);
    |body| <= HEADER_LIMIT || (b.At? && b.i + 4 <= HEADER_LIMIT + 1)
  }

  function Singles(body: seq<Byte>): (chunks: seq<seq<Byte>>)
    ensures |chunks| == |body| && forall i :: 0 <= i < |chunks| ==> chunks[i] == [body[i]]
  {
    seq(|body|, i requires 0 <= i < |body| => [body[i]])
  }

  lemma {:induction false} SinglesConcat(body: seq<Byte>, k: nat)
    requires k <= |body|
    ensures Concat(Singles(body)[..k]) == body[..k]
  {
    if k > 0 {
      SinglesConcat(body, k - 1);
      ConcatNext(Singles(body), k - 1);
    }
  }

  /** The exact condition under which no way of cutting the body makes its header too long. */
  lemma HeaderInTimeExact(body: seq<Byte>)
    ensures HeaderInTime(body) <==> forall chunks :: SplitOk(chunks, body) ==> !HeaderTooLong(chunks)
  {
    if HeaderInTime(body) {
      forall chunks | SplitOk(chunks, body)
        ensures !HeaderTooLong(chunks)
      {
        InTimeForAll(chunks, body);
      }
    } else {
      var n, chunks := HEADER_LIMIT + 1, Singles(body);
      SinglesConcat(body, n);
      SinglesConcat(body, |body|);
      assert chunks[..|body|] == chunks && body[..|body|] == body;
      assert body[..n] + body[n..] == body;
      if Find(body[..n], BLANK_LINE, 0).At? {
        FindInLonger(body[..n], body[n..], BLANK_LINE);
      }
      assert TooLongAt(chunks, n);
      assert SplitOk(chunks, body);
    }
  }

  lemma InTimeForAll(chunks: seq<seq<Byte>>, body: seq<Byte>)
    requires SplitOk(chunks, body) && HeaderInTime(body)
    ensures !HeaderTooLong(chunks)
  {
    forall k | 0 <= k <= |chunks|
      ensures !TooLongAt(chunks, k)
    {
      WholeFrom(chunks, k);
      var head := Concat(chunks[..k]);
      if |head| > HEADER_LIMIT {
        var b := Find(body, BLANK_LINE, 0).i;
        OccursInLonger(head, Concat(chunks[k..]), BLANK_LINE, b);
      }
    }
  }

  /** Two ways of cutting one body with its blank line in time fail alike, and write the same if they do not fail. */
  lemma CutsDoNotMatter(body: seq<Byte>, chunks: seq<seq<Byte>>, others: seq<seq<Byte>>, delim: seq<Byte>, space: nat,
                        failed: bool, out: seq<Byte>, failed': bool, out': seq<Byte>)
    requires SplitOk(chunks, body) && SplitOk(others, body) && HeaderInTime(body)
    requires Received(chunks, false, delim, space, failed, out) && Received(others, false, delim, space, failed', out')
    ensures failed == failed' && (!failed ==> out == out')
  {
    InTimeForAll(chunks, body);
    InTimeForAll(others, body);
  }

  /** A part without a delimiter is cut short unnoticed exactly if it exceeds the space, but by no more than what is
   *  held back; then as much as is held back is missing, or all of a part shorter than that. */
  lemma CutShortExact(body: seq<Byte>, chunks: seq<seq<Byte>>, delim: seq<Byte>, space: nat, failed: bool, out: seq<Byte>)
    requires SplitOk(chunks, body) && HeaderInTime(body) && Find(body, BLANK_LINE, 0).At? && !Complete(body, delim)
    requires Received(chunks, false, delim, space, failed, out)
    ensures !failed && out != Payload(body, delim) <==>
            space < |Payload(body, delim)| <= space + |delim| + 2
    ensures !failed && out != Payload(body, delim) ==> out == Kept(Payload(body, delim), delim, space)
  {
    InTimeForAll(chunks, body);
  }

  /** A blank line, then a few zero bytes and no delimiter, and space for one byte: only that is written, and nothing fails. */
  lemma CutShort(chunks: seq<seq<Byte>>, part: seq<Byte>, delim: seq<Byte>, failed: bool, out: seq<Byte>)
    requires |delim| >= 2 && delim[0] == 13 && part == seq(|delim| + 3, _ => 0)
    requires SplitOk(chunks, BLANK_LINE + part) && Received(chunks, false, delim, 1, failed, out)
    ensures !failed && out == [0] && Payload(BLANK_LINE + part, delim) == part
  {
    var body := BLANK_LINE + part;
    assert OccursAt(body, BLANK_LINE, 0) by {
      assert body[..4] == BLANK_LINE;
    }
    FindIs(body, BLANK_LINE, 0);
    assert body[4..] == part;
    forall j: nat
      ensures !OccursAt(part, delim, j)
    {
      assert j + |delim| <= |part| ==> part[j..j + |delim|][0] == 0;
    }
    CutShortExact(body, chunks, delim, 1, failed, out);
    assert part[..|part| - (|delim| + 2)] == [0];
  }
}
