/** The push decoder of scripts/bench_blobs_modes.py. */
module BenchBlobsModes {
  import opened Text
  import opened Chunked

  /** Why the decoding loop left off: it wants more bytes, met the zero chunk, or `int` raised. */
  datatype Stop = Hungry | Terminator | BadSize

  datatype Run = Run(out: string, buf: string, left: nat, stop: Stop)

  function Prepend(head: string, r: Run): Run {
    r.(out := head + r.out)
  }

  lemma PrependTwice(a: string, b: string, r: Run)
    ensures Prepend(a, Prepend(b, r)) == Prepend(a + b, r)
    ensures Prepend("", r) == r
  {
    assert a + (b + r.out) == (a + b) + r.out;
  }

  /** What the loop finds at the head of the buffer when no chunk is open. */
  datatype Head = Partial | Blank(rest: string) | Unreadable(rest: string) | Sized(size: nat, rest: string)

  function ReadHead(buf: string): (h: Head)
    ensures !h.Partial? ==> |h.rest| < |buf|
  {
    match Find(buf, CRLF, 0)
    case None => Partial
    case Some(end) =>
      if end == 0 then Blank(buf[2..])
      else match SizeOf(buf[..end])
        case None => Unreadable(buf[end + 2..])
        case Some(n) => Sized(n, buf[end + 2..])
  }

  /** What the loop makes of a buffer when `left` bytes of the current chunk are still owed. */
  function Decode(buf: string, left: nat): (r: Run)
    decreases |buf|
  {
    if buf == "" then Run("", "", left, Hungry)
    else if left > 0 then
      var n := if left <= |buf| then left else |buf|;
      Prepend(buf[..n], Decode(buf[n..], left - n))
    else
      match ReadHead(buf)
      case Partial => Run("", buf, 0, Hungry)
      case Blank(rest) => Decode(rest, 0)
      case Unreadable(rest) => Run("", rest, 0, BadSize)
      case Sized(size, rest) => if size == 0 then Run("", rest, 0, Terminator) else Decode(rest, size)
  }

  class Dechunk {
    var buf: string
    var left: nat

    constructor ()
      ensures buf == "" && left == 0
    {
      buf, left := "", 0;
    }

    /** One call: the payload the new bytes complete, or None where `int` raises (what the call had
        collected is then lost, and the bad line has left the buffer). */
    method Feed(data: string) returns (out: Option<string>)
      modifies this
      ensures var r := Decode(old(buf) + data, old(left));
              && buf == r.buf
              && left == r.left
              && out == if r.stop.BadSize? then None else Some(r.out)
    {
      buf := buf + data;
      ghost var whole := Decode(buf, left);
      var pieces := "";
      while buf != ""
        invariant whole == Prepend(pieces, Decode(buf, left))
        decreases |buf|
      {
        if left == 0 {
          var end := Find(buf, CRLF, 0);
          if end.None? {
            break;
          }
          var line := buf[..end.value];
          buf := buf[end.value + 2..];
          if line == "" {
            continue;  // the CRLF after a chunk's data
          }
          var size := SizeOf(line);
          if size.None? {
            return None;
          }
          left := size.value;
          if left == 0 {
            break;
          }
        }
        var take := if left <= |buf| then buf[..left] else buf;
        TakeAll(buf, left);
        PrependTwice(pieces, take, Decode(buf[|take|..], left - |take|));
        pieces := pieces + take;
        left := left - |take|;
        buf := buf[|take|..];
      }
      assert pieces + "" == pieces;
      return Some(pieces);
    }
  }

  /** An open chunk takes what there is of it. */
  lemma TakeAll(buf: string, left: nat)
    requires left > 0
    ensures left <= |buf| ==> Decode(buf, left) == Prepend(buf[..left], Decode(buf[left..], 0))
    ensures left > |buf| ==> Decode(buf, left) == Run(buf, "", left - |buf|, Hungry)
    ensures left > |buf| ==> Decode(buf, left) == Prepend(buf, Decode(buf[|buf|..], left - |buf|))
  {
    assert buf[..|buf|] == buf && buf[|buf|..] == "";
  }

  // ----- one call or several ---------------------------------------------------

  lemma HeadExtend(buf: string, more: string)
    requires !ReadHead(buf).Partial?
    ensures !ReadHead(buf + more).Partial?
    ensures ReadHead(buf + more) == ReadHead(buf).(rest := ReadHead(buf).rest + more)
  {
    FindExtend(buf, more, CRLF, 0);
    var end := Find(buf, CRLF, 0).value;
    AppendSlices(buf, more, end, end + 2);
    AppendSlices(buf, more, 2, 2);
    hide SizeOf, Find;
  }

  lemma TakeSplit(buf: string, left: nat, more: string)
    requires buf != "" && |buf| < left
    ensures Decode(buf + more, left) == Prepend(buf, Decode(more, left - |buf|))
  {
    TakeAll(buf + more, left);
    TakeAll(more, left - |buf|);
    if left <= |buf| + |more| {
      AcrossSlices(buf, more, left);
      PrependTwice(buf, more[..left - |buf|], Decode(more[left - |buf|..], 0));
    }
  }

  lemma AcrossSlices(a: string, b: string, i: nat)
    requires |a| <= i <= |a| + |b|
    ensures (a + b)[..i] == a + b[..i - |a|] && (a + b)[i..] == b[i - |a|..]
  {
  }

  lemma WithinSlices(a: string, b: string, i: nat)
    requires i <= |a|
    ensures (a + b)[..i] == a[..i] && (a + b)[i..] == a[i..] + b
  {
  }

  /** What decoding `buf` and `more` must come to, by what decoding `buf` alone comes to. */
  function Continue(r: Run, more: string): Run {
    if r.stop.Hungry? then Prepend(r.out, Decode(r.buf + more, r.left)) else r.(buf := r.buf + more)
  }

  lemma ContinuePrepended(head: string, r: Run, more: string)
    ensures Continue(Prepend(head, r), more) == Prepend(head, Continue(r, more))
  {
    if r.stop.Hungry? {
      PrependTwice(head, r.out, Decode(r.buf + more, r.left));
    }
  }

  lemma DecodeSplitTake(buf: string, left: nat, more: string)
    requires 0 < left <= |buf|
    requires Decode(buf[left..] + more, 0) == Continue(Decode(buf[left..], 0), more)
    ensures Decode(buf + more, left) == Continue(Decode(buf, left), more)
  {
    TakeAll(buf, left);
    TakeAll(buf + more, left);
    WithinSlices(buf, more, left);
    ContinuePrepended(buf[..left], Decode(buf[left..], 0), more);
  }

  lemma DecodeSplitShort(buf: string, left: nat, more: string)
    requires buf == "" || |buf| < left
    ensures Decode(buf + more, left) == Continue(Decode(buf, left), more)
  {
    assert "" + more == more;
    if buf == "" {
      PrependTwice("", "", Decode(more, left));
    } else {
      TakeSplit(buf, left, more);
      TakeAll(buf, left);
    }
  }

  /** Decoding a buffer and more bytes is decoding the buffer, then what it left with the bytes:
      for any bytes at all, until the zero chunk or an unreadable size ends the call. */
  lemma {:induction false} DecodeSplit(buf: string, left: nat, more: string)
    ensures Decode(buf + more, left) == Continue(Decode(buf, left), more)
    decreases |buf|
  {
    if buf == "" || |buf| < left {
      DecodeSplitShort(buf, left, more);
    } else if left > 0 {
      DecodeSplit(buf[left..], 0, more);
      DecodeSplitTake(buf, left, more);
    } else if ReadHead(buf).Partial? {
      PrependTwice("", "", Decode(buf + more, 0));
    } else {
      HeadExtend(buf, more);
      var h := ReadHead(buf);
      if h.Blank? {
        DecodeSplit(h.rest, 0, more);
      } else if h.Sized? && h.size > 0 {
        DecodeSplit(h.rest, h.size, more);
      }
    }
  }

  // ----- a whole message, cut anywhere -----------------------------------------

  /** A line and what follows, cut at `k`: read exactly when its CRLF has arrived. */
  lemma HeadCut(line: string, n: nat, more: string, k: nat)
    requires IsSizeLine(line, n)
    requires k <= |line| + 2 + |more|
    ensures ReadHead((line + CRLF + more)[..k]) ==
              if k < |line| + 2 then Partial else Sized(n, more[..k - |line| - 2])
  {
    var s := (line + CRLF + more)[..k];
    SizeLineNotEmpty(line, n);
    if k < |line| + 2 {
      FindCutLine(line, more, k);
    } else {
      var m := more[..k - |line| - 2];
      assert s == line + CRLF + m;
      FindLineEnd(line, m);
      assert s[..|line|] == line && s[|line| + 2..] == m;
    }
  }

  /** The bytes of a chunk's closing CRLF that have arrived, then what follows it. */
  lemma AfterData(u: string, tail: string)
    requires u <= CRLF + tail
    ensures |u| < 2 ==> Decode(u, 0) == Run("", u, 0, Hungry)
    ensures |u| >= 2 ==> Decode(u, 0) == Decode(u[2..], 0)
  {
    if |u| == 1 {
      assert !OccursAt(u, CRLF, 0) && !OccursAt(u, CRLF, 1);
      assert Find(u, CRLF, 0) == Find(u, CRLF, 1) == None;
    } else if |u| >= 2 {
      assert u[0..2] == CRLF;
      assert OccursAt(u, CRLF, 0);
    }
  }

  /** Behind a size line: the data as far as it has arrived, then the CRLF, then the next chunk. */
  lemma AfterSize(data: string, tail: string, t: string)
    requires data != "" && t <= data + CRLF + tail
    ensures var r := Decode(t, |data|);
            if |t| <= |data| then r == Run(data[..|t|], "", |data| - |t|, Hungry)
            else if |t| == |data| + 1 then r == Run(data, "\r", 0, Hungry)
            else r == Prepend(data, Decode(t[|data| + 2..], 0))
  {
    var n := |data|;
    TakeAll(t, n);
    DataFront(data, tail, t);
    hide Decode;
    if |t| >= n {
      AfterData(t[n..], tail);
      NothingBehind(data);
    }
  }

  lemma NothingBehind(data: string)
    ensures data + "" == data && Prepend(data, Run("", "", 0, Hungry)) == Run(data, "", 0, Hungry)
    ensures Prepend(data, Run("", "\r", 0, Hungry)) == Run(data, "\r", 0, Hungry)
  {
  }

  /** A stretch of data, its CRLF and more, cut anywhere. */
  lemma DataFront(data: string, tail: string, t: string)
    requires t <= data + CRLF + tail
    ensures |t| < |data| ==> t == data[..|t|]
    ensures |t| >= |data| ==> t[..|data|] == data && t[|data|..] <= CRLF + tail
    ensures |t| >= |data| + 2 ==> t[|data|..][2..] == t[|data| + 2..]
  {
    Assoc(data, CRLF, tail);
    if |t| >= |data| {
      CutTail(data, CRLF + tail, t);
    } else {
      assert t == (data + (CRLF + tail))[..|t|];
    }
  }

  lemma CutTail(a: string, b: string, t: string)
    requires |a| <= |t| && t <= a + b
    ensures t[..|a|] == a && t[|a|..] <= b
  {
    assert t == (a + b)[..|t|];
    assert t[|a|..] == b[..|t| - |a|];
  }

  /** One chunk and what follows it, cut inside the chunk. */
  lemma CutInsideChunk(c: Chunk, tail: string, k: nat)
    requires WellFormed(c)
    requires k < |EncodeChunk(c)|
    ensures var r := Decode((EncodeChunk(c) + tail)[..k], 0);
            r.stop.Hungry? && r.out == DataArrived(c, k)
  {
    var s, more := (EncodeChunk(c) + tail)[..k], c.data + CRLF + tail;
    ChunkIs(c, tail);
    HeadCut(c.line, |c.data|, more, k);
    hide EncodeChunk;
    if k < |c.line| + 2 {
      NoHead(s);
    } else {
      var t := more[..k - |c.line| - 2];
      SizedHead(s, |c.data|, t);
      AfterSize(c.data, tail, t);
      hide *;
      ArrivedOf(c, k, t, tail);
    }
  }

  lemma ChunkIs(c: Chunk, tail: string)
    ensures EncodeChunk(c) + tail == c.line + CRLF + (c.data + CRLF + tail)
    ensures |EncodeChunk(c)| == |c.line| + 2 + |c.data| + 2
  {
  }

  lemma NoHead(s: string)
    requires ReadHead(s).Partial?
    ensures Decode(s, 0) == Run("", s, 0, Hungry)
  {
  }

  lemma ArrivedOf(c: Chunk, k: nat, t: string, tail: string)
    requires |c.line| + 2 <= k < |c.line| + 2 + |c.data| + 2 && t == (c.data + CRLF + tail)[..k - |c.line| - 2]
    ensures DataArrived(c, k) == if |t| <= |c.data| then c.data[..|t|] else c.data
  {
  }

  lemma ChunkText(c: Chunk, tail: string, k: nat)
    requires |EncodeChunk(c)| <= k <= |EncodeChunk(c)| + |tail|
    ensures EncodeChunk(c) + tail == c.line + CRLF + (c.data + CRLF + tail)
    ensures (c.data + CRLF + tail)[..k - |c.line| - 2][|c.data| + 2..] == tail[..k - |EncodeChunk(c)|]
  {
    assert EncodeChunk(c) + tail == c.line + CRLF + (c.data + CRLF + tail);
    var t, m := (c.data + CRLF + tail)[..k - |c.line| - 2], |c.data| + 2;
    assert t == (c.data + CRLF) + tail[..k - |EncodeChunk(c)|];
    assert t[m..] == tail[..k - |EncodeChunk(c)|];
  }

  /** One chunk and what follows it, cut behind the chunk. */
  lemma CutBehindChunk(c: Chunk, tail: string, k: nat)
    requires WellFormed(c)
    requires |EncodeChunk(c)| <= k <= |EncodeChunk(c)| + |tail|
    ensures Decode((EncodeChunk(c) + tail)[..k], 0) == Prepend(c.data, Decode(tail[..k - |EncodeChunk(c)|], 0))
  {
    var s, t := (EncodeChunk(c) + tail)[..k], (c.data + CRLF + tail)[..k - |c.line| - 2];
    ChunkText(c, tail, k);
    ChunkIs(c, tail);
    HeadCut(c.line, |c.data|, c.data + CRLF + tail, k);
    hide EncodeChunk, ReadHead, Decode;
    SizedHead(s, |c.data|, t);
    AfterSize(c.data, tail, t);
  }

  lemma SizedHead(s: string, n: nat, rest: string)
    requires ReadHead(s) == Sized(n, rest) && n > 0
    ensures Decode(s, 0) == Decode(rest, n)
  {
  }

  /** Cut before the zero chunk's line is whole: hungry, with exactly the payload bytes that have
      arrived. */
  lemma {:induction false} DecodeHungry(cs: seq<Chunk>, zero: string, k: nat)
    requires AllWellFormed(cs) && IsSizeLine(zero, 0)
    requires k < ZeroEnd(cs, zero) && k <= |Message(cs, zero)|
    ensures var r := Decode(Message(cs, zero)[..k], 0);
            r.out == Delivered(cs, k) && r.stop.Hungry?
    decreases |cs|
  {
    if cs == [] {
      HeadCut(zero, 0, CRLF, k);
    } else {
      var c, tail := cs[0], Message(cs[1..], zero);
      assert WellFormed(c);
      if k < |EncodeChunk(c)| {
        CutInsideChunk(c, tail, k);
      } else {
        CutBehindChunk(c, tail, k);
        DecodeHungry(cs[1..], zero, k - |EncodeChunk(c)|);
      }
    }
  }

  /** Cut where the zero chunk's line ends: the whole payload, and the call is over. */
  lemma {:induction false} DecodeToZero(cs: seq<Chunk>, zero: string)
    requires AllWellFormed(cs) && IsSizeLine(zero, 0)
    requires ZeroEnd(cs, zero) <= |Message(cs, zero)|
    ensures Decode(Message(cs, zero)[..ZeroEnd(cs, zero)], 0) == Run(Payload(cs), "", 0, Terminator)
    decreases |cs|
  {
    if cs == [] {
      HeadCut(zero, 0, CRLF, |zero| + 2);
    } else {
      assert WellFormed(cs[0]);
      assert ZeroEnd(cs[1..], zero) <= |Message(cs[1..], zero)|;
      DecodeToZero(cs[1..], zero);
      ZeroBehindChunk(cs, zero);
    }
  }

  lemma ZeroBehindChunk(cs: seq<Chunk>, zero: string)
    requires cs != [] && WellFormed(cs[0]) && ZeroEnd(cs, zero) <= |Message(cs, zero)|
    requires Decode(Message(cs[1..], zero)[..ZeroEnd(cs[1..], zero)], 0) == Run(Payload(cs[1..]), "", 0, Terminator)
    ensures Decode(Message(cs, zero)[..ZeroEnd(cs, zero)], 0) == Run(Payload(cs), "", 0, Terminator)
  {
    CutBehindChunk(cs[0], Message(cs[1..], zero), ZeroEnd(cs, zero));
  }

  /** The decoder at any cut of a message that ends with a zero chunk: hungry with exactly the
      payload bytes that have arrived, and ended exactly when the zero chunk's line is whole. */
  lemma DecodeCut(cs: seq<Chunk>, zero: string, k: nat)
    requires AllWellFormed(cs) && IsSizeLine(zero, 0)
    requires k <= |Message(cs, zero)|
    ensures CutAt(cs, Message(cs, zero), ZeroEnd(cs, zero), k)
  {
    var s, z := Message(cs, zero), ZeroEnd(cs, zero);
    if k < z {
      DecodeHungry(cs, zero, k);
    } else {
      DecodeToZero(cs, zero);
      DeliveredAll(cs, zero, k);
      DecodeSplit(s[..z], 0, s[z..k]);
      CutInTwo(s, z, k);
    }
  }

  lemma CutInTwo(s: string, i: nat, j: nat)
    requires i <= j <= |s|
    ensures s[..i] + s[i..j] == s[..j] && "" + s[i..j] == s[i..j]
    ensures s[i..j] + s[j..] == s[i..]
  {
  }

  /** What decoding a message `s` cut at `k` comes to, when its zero chunk's line ends at `z`. */
  ghost predicate CutAt(cs: seq<Chunk>, s: string, z: nat, k: nat)
    requires k <= |s|
  {
    var r := Decode(s[..k], 0);
    && r.out == Delivered(cs, k)
    && (k < z ==> r.stop.Hungry?)
    && (k >= z ==> r == Run(Payload(cs), s[z..k], 0, Terminator))
  }

  // ----- any slicing -----------------------------------------------------------

  /** What each call returns when slices are fed one after another, up to one that raises. */
  function FeedAll(buf: string, left: nat, slices: seq<string>): seq<Option<string>>
    decreases |slices|
  {
    if slices == [] then []
    else
      var r := Decode(buf + slices[0], left);
      if r.stop.BadSize? then [None] else [Some(r.out)] + FeedAll(r.buf, r.left, slices[1..])
  }

  /** A decoder fed slice after slice gives those answers. */
  method FeedSlices(d: Dechunk, slices: seq<string>) returns (outs: seq<Option<string>>)
    modifies d
    ensures outs == FeedAll(old(d.buf), old(d.left), slices)
  {
    outs := [];
    ghost var all := FeedAll(d.buf, d.left, slices);
    for i := 0 to |slices|
      invariant all == outs + FeedAll(d.buf, d.left, slices[i..])
    {
      assert slices[i..][0] == slices[i] && slices[i..][1..] == slices[i + 1..];
      var out := d.Feed(slices[i]);
      outs := outs + [out];
      if out.None? {
        return;
      }
    }
  }

  /** The decoder's state after `k` bytes of `s`, a message whose zero chunk's line ends at `z`,
      however they came. Past `z` only the closing CRLF, or what has come of it, can be buffered. */
  ghost predicate At(s: string, z: nat, k: nat, buf: string, left: nat) {
    && k <= |s|
    && if k < z then buf == Decode(s[..k], 0).buf && left == Decode(s[..k], 0).left
       else left == 0 && (buf + s[k..] == CRLF || (buf == "" && s[k..] == ""))
  }

  /** A call before the zero chunk. */
  lemma FeedBeforeZero(cs: seq<Chunk>, s: string, z: nat, k: nat, d: string)
    requires z <= |s| && s[z..] == CRLF
    requires k < z && k + |d| <= |s| && d == s[k..k + |d|]
    requires CutAt(cs, s, z, k) && CutAt(cs, s, z, k + |d|)
    ensures var r0 := Decode(s[..k], 0);
            var r := Decode(r0.buf + d, r0.left);
            && !r.stop.BadSize?
            && At(s, z, k + |d|, r.buf, r.left)
            && Delivered(cs, k) + r.out == Delivered(cs, k + |d|)
  {
    hide Decode, Delivered, Payload;
    var r0, k' := Decode(s[..k], 0), k + |d|;
    DecodeOn(s, k, k');
    AtBehind(s, z, k', Decode(r0.buf + d, r0.left).buf, Decode(r0.buf + d, r0.left).left);
  }

  lemma DecodeOn(s: string, k: nat, k': nat)
    requires k <= k' <= |s|
    ensures Decode(s[..k'], 0) == Continue(Decode(s[..k], 0), s[k..k'])
  {
    DecodeSplit(s[..k], 0, s[k..k']);
    CutInTwo(s, k, k');
  }

  lemma AtBehind(s: string, z: nat, k: nat, buf: string, left: nat)
    requires z <= |s| && s[z..] == CRLF && k <= |s|
    requires k < z ==> buf == Decode(s[..k], 0).buf && left == Decode(s[..k], 0).left
    requires k >= z ==> buf == s[z..k] && left == 0
    ensures At(s, z, k, buf, left)
  {
    if k >= z {
      CutInTwo(s, z, k);
    }
  }

  /** What is left of the closing CRLF is read as an empty line. */
  lemma CloseCRLF(b: string, later: string)
    requires b + later == CRLF
    ensures Decode(b, 0) == if b == CRLF then Run("", "", 0, Hungry) else Run("", b, 0, Hungry)
  {
    assert b == CRLF[..|b|];
    AfterData(b, "");
  }

  lemma FeedPastZero(s: string, z: nat, k: nat, d: string, buf: string)
    requires z <= k && k + |d| <= |s| && d == s[k..k + |d|]
    requires At(s, z, k, buf, 0)
    ensures var r := Decode(buf + d, 0);
            r.out == "" && !r.stop.BadSize? && At(s, z, k + |d|, r.buf, r.left)
  {
    var b, later := buf + d, s[k + |d|..];
    TailSplit(s, k, d, buf);
    hide Decode;
    if buf + s[k..] == CRLF {
      CloseCRLF(b, later);
      NothingBefore(later);
    } else {
      NothingToDecode(b, later);
    }
  }

  lemma TailSplit(s: string, k: nat, d: string, buf: string)
    requires k + |d| <= |s| && d == s[k..k + |d|]
    ensures (buf + d) + s[k + |d|..] == buf + s[k..]
  {
    CutInTwo(s, k, k + |d|);
    Assoc(buf, d, s[k + |d|..]);
  }

  lemma NothingBefore(later: string)
    ensures "" + later == later
  {
  }

  lemma NothingToDecode(b: string, later: string)
    requires b + later == ""
    ensures b == "" && later == "" && Decode(b, 0) == Run("", "", 0, Hungry)
  {
    assert |b + later| == |b| + |later|;
  }

  ghost predicate CutLaw(cs: seq<Chunk>, s: string, z: nat) {
    && z <= |s| && s[z..] == CRLF
    && forall k: nat | k <= |s| :: CutAt(cs, s, z, k)
  }

  lemma MessageCutLaw(cs: seq<Chunk>, zero: string)
    requires AllWellFormed(cs) && IsSizeLine(zero, 0)
    ensures CutLaw(cs, Message(cs, zero), ZeroEnd(cs, zero))
  {
    MessageEnd(cs, zero);
    forall k: nat | k <= |Message(cs, zero)|
      ensures CutAt(cs, Message(cs, zero), ZeroEnd(cs, zero), k)
    {
      DecodeCut(cs, zero, k);
    }
  }

  /** One call: the state moves on, and what comes out is the payload among the new bytes. */
  lemma FeedStep(cs: seq<Chunk>, s: string, z: nat, k: nat, d: string, buf: string, left: nat)
    requires CutLaw(cs, s, z)
    requires k + |d| <= |s| && d == s[k..k + |d|]
    requires At(s, z, k, buf, left)
    ensures var r := Decode(buf + d, left);
            && !r.stop.BadSize?
            && At(s, z, k + |d|, r.buf, r.left)
            && Delivered(cs, k) + r.out == Delivered(cs, k + |d|)
  {
    assert CutAt(cs, s, z, k) && CutAt(cs, s, z, k + |d|);
    if k < z {
      FeedBeforeZero(cs, s, z, k, d);
    } else {
      FeedPastZero(s, z, k, d, buf);
      assert Payload(cs) + "" == Payload(cs);
    }
  }

  /** After each call, what has come out is exactly the payload that has arrived. */
  ghost predicate KeepsUp(cs: seq<Chunk>, k: nat, slices: seq<string>, outs: seq<string>) {
    && |outs| == |slices|
    && forall i: nat | i <= |slices| :: CaughtUp(cs, k, slices[..i], outs[..i])
  }

  ghost predicate CaughtUp(cs: seq<Chunk>, k: nat, slices: seq<string>, outs: seq<string>) {
    Delivered(cs, k) + Concat(outs) == Delivered(cs, k + |Concat(slices)|)
  }

  lemma KeepsUpStep(cs: seq<Chunk>, k: nat, slices: seq<string>, outs: seq<string>)
    requires slices != [] && |outs| == |slices|
    requires Delivered(cs, k) + outs[0] == Delivered(cs, k + |slices[0]|)
    requires KeepsUp(cs, k + |slices[0]|, slices[1..], outs[1..])
    ensures KeepsUp(cs, k, slices, outs)
  {
    hide CaughtUp, Delivered;
    forall i: nat | i <= |slices|
      ensures CaughtUp(cs, k, slices[..i], outs[..i])
    {
      if i == 0 {
        CaughtUpNone(cs, k);
      } else {
        assert CaughtUp(cs, k + |slices[0]|, slices[1..][..i - 1], outs[1..][..i - 1]);
        FrontsStep(slices, i);
        FrontsStep(outs, i);
        CaughtUpStep(cs, k, slices[..i], outs[..i]);
      }
    }
  }

  lemma CaughtUpNone(cs: seq<Chunk>, k: nat)
    ensures CaughtUp(cs, k, [], [])
  {
  }

  lemma FrontsStep(s: seq<string>, i: nat)
    requires 0 < i <= |s|
    ensures s[..i][1..] == s[1..][..i - 1] && s[..i] != [] && s[..i][0] == s[0]
  {
  }

  lemma CaughtUpStep(cs: seq<Chunk>, k: nat, slices: seq<string>, outs: seq<string>)
    requires slices != [] && outs != []
    requires Delivered(cs, k) + outs[0] == Delivered(cs, k + |slices[0]|)
    requires CaughtUp(cs, k + |slices[0]|, slices[1..], outs[1..])
    ensures CaughtUp(cs, k, slices, outs)
  {
    hide Delivered;
    Assoc(Delivered(cs, k), outs[0], Concat(outs[1..]));
  }

  /** However a message is sliced, no call raises, and the calls so far have always returned exactly
      the payload bytes that have arrived: each byte leaves in the call that brought it. */
  lemma {:induction false} AnySlicingFrom(cs: seq<Chunk>, s: string, z: nat, k: nat, slices: seq<string>,
      buf: string, left: nat)
    returns (outs: seq<string>)
    requires CutLaw(cs, s, z)
    requires At(s, z, k, buf, left) && Concat(slices) == s[k..]
    ensures FeedAll(buf, left, slices) == Answers(outs)
    ensures KeepsUp(cs, k, slices, outs)
    decreases |slices|
  {
    hide *;
    if slices == [] {
      outs := [];
      NoSlices(cs, k, buf, left);
    } else {
      var d := slices[0];
      AtWithin(s, z, k, buf, left);
      HeadOfConcat(slices, s, k);
      var r := Decode(buf + d, left);
      FeedStep(cs, s, z, k, d, buf, left);
      var rest := AnySlicingFrom(cs, s, z, k + |d|, slices[1..], r.buf, r.left);
      outs := [r.out] + rest;
      FeedMore(buf, left, slices, rest);
      KeepsUpLonger(cs, k + |d|, slices[1..], rest);
      KeepsUpStep(cs, k, slices, outs);
    }
  }

  lemma NoSlices(cs: seq<Chunk>, k: nat, buf: string, left: nat)
    ensures FeedAll(buf, left, []) == Answers([]) && KeepsUp(cs, k, [], [])
  {
    assert CaughtUp(cs, k, [], []);
  }

  lemma AtWithin(s: string, z: nat, k: nat, buf: string, left: nat)
    requires At(s, z, k, buf, left)
    ensures k <= |s|
  {
  }

  lemma FeedMore(buf: string, left: nat, slices: seq<string>, rest: seq<string>)
    requires slices != []
    requires var r := Decode(buf + slices[0], left);
             !r.stop.BadSize? && FeedAll(r.buf, r.left, slices[1..]) == Answers(rest)
    ensures var outs := [Decode(buf + slices[0], left).out] + rest;
            outs[0] == Decode(buf + slices[0], left).out && outs[1..] == rest &&
                FeedAll(buf, left, slices) == Answers(outs)
  {
    hide Decode;
  }

  lemma KeepsUpLonger(cs: seq<Chunk>, k: nat, slices: seq<string>, outs: seq<string>)
    requires KeepsUp(cs, k, slices, outs)
    ensures |outs| == |slices|
  {
  }

  function Answers(outs: seq<string>): seq<Option<string>> {
    if outs == [] then [] else [Some(outs[0])] + Answers(outs[1..])
  }

  lemma HeadOfConcat(slices: seq<string>, s: string, k: nat)
    requires k <= |s| && slices != [] && Concat(slices) == s[k..]
    ensures var d := slices[0];
            k + |d| <= |s| && d == s[k..k + |d|] && Concat(slices[1..]) == s[k + |d|..]
  {
    var d := slices[0];
    assert s[k..][..|d|] == s[k..k + |d|] && s[k..][|d|..] == s[k + |d|..];
  }

  /** The law the decoder is for: any list of chunks, whatever their data and however their size
      lines are spelt, and any slicing of the message, byte by byte or all at once. */
  lemma AnySlicing(cs: seq<Chunk>, zero: string, slices: seq<string>) returns (outs: seq<string>)
    requires AllWellFormed(cs) && IsSizeLine(zero, 0)
    requires Concat(slices) == Message(cs, zero)
    ensures FeedAll("", 0, slices) == Answers(outs)
    ensures |outs| == |slices|
    ensures Concat(outs) == Payload(cs)
    ensures forall i: nat :: i <= |slices| ==> Concat(outs[..i]) == Delivered(cs, |Concat(slices[..i])|)
  {
    var s := Message(cs, zero);
    MessageCutLaw(cs, zero);
    assert s[0..] == s && s[..0] == "";
    outs := AnySlicingFrom(cs, s, ZeroEnd(cs, zero), 0, slices, "", 0);
    forall i: nat | i <= |slices|
      ensures Concat(outs[..i]) == Delivered(cs, |Concat(slices[..i])|)
    {
      assert CaughtUp(cs, 0, slices[..i], outs[..i]);
      assert Delivered(cs, 0) + Concat(outs[..i]) == Concat(outs[..i]);
    }
    assert outs[..|outs|] == outs && slices[..|slices|] == slices;
    DeliveredAll(cs, zero, |s|);
  }
}
