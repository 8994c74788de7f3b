/** The held stream of scripts/demo_probe.py, which decodes whole chunks only. */
module DemoProbe {
  import opened Text
  import opened Chunked
  import Push = BenchBlobsModes

  /** Why decoding left off: for want of bytes, at the server's terminating chunk (a failure), or
      where `int` raised. */
  datatype Stop = Hungry | Ended | BadSize

  /** `fed` is every body handed to the event parser, `raw` what stays in the wire buffer. */
  datatype Run = Run(fed: seq<string>, raw: string, stop: Stop)

  function Prepend(body: string, r: Run): Run {
    r.(fed := [body] + r.fed)
  }

  /** What stands at the head of the wire buffer. The two bytes behind a chunk's data are skipped
      unread. */
  datatype Head = Partial | Unreadable | Final | Whole(body: string, rest: string)

  function ReadHead(raw: string): (h: Head)
    ensures h.Whole? ==> |h.rest| < |raw|
  {
    match Find(raw, CRLF, 0)
    case None => Partial
    case Some(end) =>
      match SizeOf(raw[..end])
      case None => Unreadable
      case Some(size) =>
        var rest := raw[end + 2..];
        if size == 0 then Final
        else if |rest| < size + 2 then Partial
        else Whole(rest[..size], rest[size + 2..])
  }

  /** The whole chunks at the head of the wire buffer, and why decoding left off behind them. */
  function WholeChunks(raw: string): Run
    decreases |raw|
  {
    match ReadHead(raw)
    case Partial => Run([], raw, Hungry)
    case Unreadable => Run([], raw, BadSize)
    case Final => Run([], raw, Ended)
    case Whole(body, rest) => Prepend(body, WholeChunks(rest))
  }

  class Stream {
    const chunked: bool
    var raw: string
    /** The bodies the event parser has been given, in order. */
    var fed: seq<string>

    constructor (chunked: bool, raw: string)
      ensures this.chunked == chunked && this.raw == raw && fed == []
    {
      this.chunked, this.raw, fed := chunked, raw, [];
    }

    method Decode() returns (stop: Stop)
      modifies this
      ensures chunked ==>
        var r := WholeChunks(old(raw));
        fed == old(fed) + r.fed && raw == r.raw && stop == r.stop
      ensures !chunked ==> fed == old(fed) + [old(raw)] && raw == "" && stop == Hungry
    {
      if !chunked {
        Feed(raw);
        raw := "";
        return Hungry;
      }
      stop := DecodeChunked();
    }

    method DecodeChunked() returns (stop: Stop)
      modifies this
      ensures Run(fed, raw, stop) == PrependAll(old(fed), WholeChunks(old(raw)))
    {
      ghost var whole := PrependAll(fed, WholeChunks(raw));
      var head := ReadHead(raw);
      while head.Whole?
        invariant whole == PrependAll(fed, WholeChunks(raw)) && head == ReadHead(raw)
        decreases |raw|
      {
        PrependAllStep(fed, head.body, WholeChunks(head.rest));
        Feed(head.body);
        raw := head.rest;
        head := ReadHead(raw);
      }
      AppendNone(fed);
      stop := if head.Partial? then Hungry else if head.Unreadable? then BadSize else Ended;
    }

    method Feed(body: string)
      modifies this`fed
      ensures fed == old(fed) + [body]
    {
      fed := fed + [body];
    }

    /** Bytes arrive and what they complete is decoded. */
    method Receive(piece: string) returns (stop: Stop)
      modifies this
      ensures chunked ==>
        var r := WholeChunks(old(raw) + piece);
        fed == old(fed) + r.fed && raw == r.raw && stop == r.stop
      ensures !chunked ==> fed == old(fed) + [old(raw) + piece] && raw == "" && stop == Hungry
    {
      raw := raw + piece;
      stop := Decode();
    }
  }

  lemma AppendNone<T>(a: seq<T>)
    ensures a + [] == a
  {
  }

  function PrependAll(done: seq<string>, r: Run): Run {
    r.(fed := done + r.fed)
  }

  lemma PrependAllStep(done: seq<string>, body: string, r: Run)
    ensures PrependAll(done, Prepend(body, r)) == PrependAll(done + [body], r)
  {
    assert done + ([body] + r.fed) == (done + [body]) + r.fed;
  }

  // ----- one arrival or several --------------------------------------------------

  /** For any bytes at all: what a buffer and later bytes decode to is what the buffer does, then
      what it leaves with the later bytes does; a failure stays the same failure. */
  lemma {:induction false} WholeChunksSplit(raw: string, more: string)
    ensures var r := WholeChunks(raw);
            WholeChunks(raw + more) ==
              if r.stop.Hungry? then PrependAll(r.fed, WholeChunks(r.raw + more))
              else r.(raw := r.raw + more)
    decreases |raw|
  {
    var r, h := WholeChunks(raw), ReadHead(raw);
    if h.Partial? {
      PrependNone(WholeChunks(raw + more));
    } else {
      HeadExtend(raw, more);
      if h.Whole? {
        WholeChunksSplit(h.rest, more);
        var r' := WholeChunks(h.rest);
        PrependAllPrepend(h.body, r'.fed, WholeChunks(r'.raw + more));
      }
    }
  }

  lemma HeadExtend(raw: string, more: string)
    requires !ReadHead(raw).Partial?
    ensures var h := ReadHead(raw);
            ReadHead(raw + more) == if h.Whole? then Whole(h.body, h.rest + more) else h
  {
    FindExtend(raw, more, CRLF, 0);
    var end := Find(raw, CRLF, 0).value;
    AppendSlices(raw, more, end, end + 2);
    var size, rest := SizeOf(raw[..end]), raw[end + 2..];
    if size.Some? && size.value > 0 {
      AppendSlices(rest, more, size.value, size.value + 2);
    }
  }

  lemma PrependNone(r: Run)
    ensures PrependAll([], r) == r
  {
    assert [] + r.fed == r.fed;
  }

  lemma PrependAllPrepend(body: string, done: seq<string>, r: Run)
    ensures Prepend(body, PrependAll(done, r)) == PrependAll([body] + done, r)
  {
    assert [body] + (done + r.fed) == ([body] + done) + r.fed;
  }

  // ----- a message cut anywhere ----------------------------------------------------

  /** Until a chunk is whole, its closing CRLF included, it is withheld. */
  lemma WithheldUntilWhole(c: Chunk, tail: string, k: nat)
    requires WellFormed(c) && k < |EncodeChunk(c)|
    ensures WholeChunks((EncodeChunk(c) + tail)[..k]) == Run([], (EncodeChunk(c) + tail)[..k], Hungry)
  {
    var s, more := (EncodeChunk(c) + tail)[..k], c.data + CRLF + tail;
    assert EncodeChunk(c) + tail == c.line + CRLF + more;
    SizeLineCut(c.line, more, k);
  }

  lemma SizeLineCut(line: string, more: string, k: nat)
    requires Find(line, CRLF, 0).None? && k <= |line| + 2 + |more|
    ensures var s := (line + CRLF + more)[..k];
            if k < |line| + 2 then Find(s, CRLF, 0).None?
            else Find(s, CRLF, 0) == Some(|line|) && s[..|line|] == line && s[|line| + 2..] == more[..k - |line| - 2]
  {
    var s := (line + CRLF + more)[..k];
    if k < |line| + 2 {
      FindCutLine(line, more, k);
    } else {
      var m := more[..k - |line| - 2];
      assert s == line + CRLF + m;
      FindLineEnd(line, m);
    }
  }

  lemma WholeChunkRead(c: Chunk, tail: string)
    requires WellFormed(c)
    ensures WholeChunks(EncodeChunk(c) + tail) == Prepend(c.data, WholeChunks(tail))
  {
    var more := c.data + CRLF + tail;
    Push.ChunkIs(c, tail);
    FindLineEnd(c.line, more);
    SplitLine(c.line, more);
    SplitLine(c.data, tail);
    hide EncodeChunk, Find, SizeOf;
  }

  lemma SplitLine(a: string, b: string)
    ensures (a + CRLF + b)[..|a|] == a && (a + CRLF + b)[|a| + 2..] == b
  {
  }

  /** The held stream at any cut of a message: it has fed exactly the chunks that are whole, in order,
      and fails exactly when the terminating chunk's line has arrived. */
  lemma {:induction false} WholeChunksCut(cs: seq<Chunk>, zero: string, k: nat)
    requires AllWellFormed(cs) && IsSizeLine(zero, 0)
    requires k <= |Message(cs, zero)|
    ensures var r := WholeChunks(Message(cs, zero)[..k]);
            && r.fed == Completed(cs, k)
            && r.stop == if k < ZeroEnd(cs, zero) then Hungry else Ended
    decreases |cs|
  {
    hide WholeChunks, IsSizeLine;
    if cs == [] {
      ZeroHeld(zero, k);
    } else {
      hide EncodeChunk;
      var c, tail := cs[0], Message(cs[1..], zero);
      assert WellFormed(c);
      if k < |EncodeChunk(c)| {
        WithheldUntilWhole(c, tail, k);
      } else {
        WholeChunksCut(cs[1..], zero, k - |EncodeChunk(c)|);
        HeldStep(cs, zero, k);
      }
    }
  }

  lemma HeldStep(cs: seq<Chunk>, zero: string, k: nat)
    requires cs != [] && WellFormed(cs[0]) && |EncodeChunk(cs[0])| <= k <= |Message(cs, zero)|
    requires WholeChunks(Message(cs[1..], zero)[..k - |EncodeChunk(cs[0])|]).fed ==
              Completed(cs[1..], k - |EncodeChunk(cs[0])|)
    ensures WholeChunks(Message(cs, zero)[..k]).fed == Completed(cs, k)
    ensures WholeChunks(Message(cs, zero)[..k]).stop ==
              WholeChunks(Message(cs[1..], zero)[..k - |EncodeChunk(cs[0])|]).stop
  {
    WholeChunkThenCut(cs[0], Message(cs[1..], zero), k);
  }

  lemma ZeroHeld(zero: string, k: nat)
    requires IsSizeLine(zero, 0)
    requires k <= |zero| + 4
    ensures var r := WholeChunks((zero + CRLF + CRLF)[..k]);
            r.fed == [] && r.stop == if k < |zero| + 2 then Hungry else Ended
  {
    SizeLineCut(zero, CRLF, k);
  }

  lemma WholeChunkThenCut(c: Chunk, tail: string, k: nat)
    requires WellFormed(c)
    requires |EncodeChunk(c)| <= k <= |EncodeChunk(c)| + |tail|
    ensures WholeChunks((EncodeChunk(c) + tail)[..k]) == Prepend(c.data, WholeChunks(tail[..k - |EncodeChunk(c)|]))
  {
    WholeChunkRead(c, tail[..k - |EncodeChunk(c)|]);
    CutBehind(EncodeChunk(c), tail, k);
  }

  lemma CutBehind(a: string, b: string, k: nat)
    requires |a| <= k <= |a| + |b|
    ensures (a + b)[..k] == a + b[..k - |a|]
  {
  }

  // ----- any slicing -----------------------------------------------------------------

  /** Pieces received one after another, until one of them ends in a failure. */
  function ReceiveAll(raw: string, pieces: seq<string>): Run
    decreases |pieces|
  {
    if pieces == [] then Run([], raw, Hungry)
    else
      var r := WholeChunks(raw + pieces[0]);
      if r.stop.Hungry? then PrependAll(r.fed, ReceiveAll(r.raw, pieces[1..])) else r
  }

  /** The stream object, handed those pieces. */
  method ReceivePieces(st: Stream, pieces: seq<string>) returns (stop: Stop)
    requires st.chunked
    modifies st
    ensures Run(st.fed, st.raw, stop) == PrependAll(old(st.fed), ReceiveAll(old(st.raw), pieces))
  {
    stop := Hungry;
    ghost var whole := PrependAll(st.fed, ReceiveAll(st.raw, pieces));
    for i := 0 to |pieces|
      invariant stop == Hungry && whole == PrependAll(st.fed, ReceiveAll(st.raw, pieces[i..]))
    {
      assert pieces[i..][0] == pieces[i] && pieces[i..][1..] == pieces[i + 1..];
      ghost var r := WholeChunks(st.raw + pieces[i]);
      PrependAllTwice(st.fed, r.fed, ReceiveAll(r.raw, pieces[i + 1..]));
      stop := st.Receive(pieces[i]);
      if stop != Hungry {
        return;
      }
    }
    AppendNone(st.fed);
  }

  lemma PrependAllTwice(a: seq<string>, b: seq<string>, r: Run)
    ensures PrependAll(a, PrependAll(b, r)) == PrependAll(a + b, r)
  {
    assert a + (b + r.fed) == (a + b) + r.fed;
  }

  /** Nothing more can be decoded from what decoding leaves. */
  lemma {:induction false} LeftoverIsPartial(raw: string)
    requires WholeChunks(raw).stop.Hungry?
    ensures ReadHead(WholeChunks(raw).raw).Partial?
    decreases |raw|
  {
    if ReadHead(raw).Whole? {
      LeftoverIsPartial(ReadHead(raw).rest);
    }
  }

  /** For any byte stream, well formed or not, what has been fed and why the stream stopped do not
      depend on how the bytes were sliced. */
  lemma {:induction false} AnySlicing(raw: string, pieces: seq<string>)
    requires ReadHead(raw).Partial?
    ensures ReceiveAll(raw, pieces).fed == WholeChunks(raw + Concat(pieces)).fed
    ensures ReceiveAll(raw, pieces).stop == WholeChunks(raw + Concat(pieces)).stop
    decreases |pieces|
  {
    if pieces == [] {
      AppendNone(raw);
      assert Concat(pieces) == "";
    } else {
      var now, later := raw + pieces[0], Concat(pieces[1..]);
      var r := WholeChunks(now);
      Assoc(raw, pieces[0], later);
      WholeChunksSplit(now, later);
      if r.stop.Hungry? {
        LeftoverIsPartial(now);
        AnySlicing(r.raw, pieces[1..]);
      }
    }
  }

  /** The held stream refines `Dechunk`: at every cut of a message its output is a prefix of the push
      decoder's, and the two are equal whenever the bytes so far end on a chunk boundary. */
  lemma RefinesDechunk(cs: seq<Chunk>, zero: string, k: nat)
    requires AllWellFormed(cs) && IsSizeLine(zero, 0)
    requires k <= |Message(cs, zero)|
    ensures var s := Message(cs, zero)[..k];
            && Concat(WholeChunks(s).fed) <= Push.Decode(s, 0).out
            && (OnBoundary(cs, k) ==> Concat(WholeChunks(s).fed) == Push.Decode(s, 0).out)
            && (WholeChunks(s).stop.Ended? <==> Push.Decode(s, 0).stop.Terminator?)
            && !WholeChunks(s).stop.BadSize? && !Push.Decode(s, 0).stop.BadSize?
  {
    WholeChunksCut(cs, zero, k);
    Push.DecodeCut(cs, zero, k);
    ReadingsOrdered(cs, k);
    if OnBoundary(cs, k) {
      ReadingsAgreeOnBoundary(cs, k);
    }
  }
}
