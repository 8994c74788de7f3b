/** The strict reader of scripts/drain_stream_probe.py, which tells a truncated stream from a broken
    one. A reset connection reads as its end; the deadline is not part of the model. */
module DrainStreamProbe {
  import opened Text
  import opened Chunked
  import opened Network
  import Push = BenchBlobsModes
  import Held = DemoProbe

  datatype Problem =
    | UnreadableSize      // "a chunk size the client cannot parse"
    | UnreadableTail      // "a chunk size the client cannot parse, then EOF"
    | TerminatorFollowed  // "the terminator is followed by ..."
    | NotFollowedByCRLF   // "a chunk of ... is followed by ..., not CRLF"

  datatype Next =
    | Data(data: string)
    | Terminator
    | Eof
    | Failed(problem: Problem)

  class Reader {
    const sock: Socket
    var buf: string
    var eof: bool

    constructor (sock: Socket)
      requires sock.Valid()
      ensures this.sock == sock && Valid() && buf == "" && !eof
    {
      this.sock, buf, eof := sock, "", false;
    }

    predicate Valid()
      reads this, sock
    {
      sock.Valid() && (eof ==> sock.incoming == [])
    }

    function Remaining(): string
      reads this, sock
    {
      buf + sock.Unread()
    }

    method Fill() returns (ok: bool)
      requires Valid()
      modifies this, sock
      ensures Valid() && Remaining() == old(Remaining())
      ensures ok ==> |sock.incoming| < |old(sock.incoming)|
      ensures !ok ==> eof && buf == Remaining() == old(buf)
    {
      if eof {
        assert buf + "" == buf;
        return false;
      }
      var piece := sock.Recv();
      if piece == "" {
        eof := true;
        assert buf + "" == buf;
        return false;
      }
      Assoc(buf, piece, sock.Unread());
      buf := buf + piece;
      return true;
    }

    /** One line, or None at the end of the stream, where everything left is in the buffer. */
    method Line() returns (line: Option<string>)
      requires Valid()
      modifies this, sock
      ensures Valid()
      ensures line == LineOf(old(Remaining())).0 && Remaining() == LineOf(old(Remaining())).1
      ensures line.None? ==> buf == Remaining()
    {
      ghost var s := Remaining();
      var end := Find(buf, CRLF, 0);
      while end.None?
        invariant Valid() && Remaining() == s && end == Find(buf, CRLF, 0)
        decreases |sock.incoming|
      {
        var ok := Fill();
        if !ok {
          return None;
        }
        end := Find(buf, CRLF, 0);
      }
      FindExtend(buf, sock.Unread(), CRLF, 0);
      line := Some(buf[..end.value]);
      AppendSlices(buf, sock.Unread(), end.value, end.value + 2);
      buf := buf[end.value + 2..];
    }

    /** `n` bytes, or None at the end of the stream. */
    method Take(n: nat) returns (data: Option<string>)
      requires Valid()
      modifies this, sock
      ensures Valid()
      ensures data == TakeOf(old(Remaining()), n).0 && Remaining() == TakeOf(old(Remaining()), n).1
    {
      ghost var s := Remaining();
      while |buf| < n
        invariant Valid() && Remaining() == s
        decreases |sock.incoming|
      {
        var ok := Fill();
        if !ok {
          return None;
        }
      }
      data := Some(buf[..n]);
      AppendSlices(buf, sock.Unread(), n, n);
      buf := buf[n..];
    }
  }

  function LineOf(s: string): (Option<string>, string) {
    match Find(s, CRLF, 0)
    case None => (None, s)
    case Some(end) => (Some(s[..end]), s[end + 2..])
  }

  function TakeOf(s: string, n: nat): (Option<string>, string) {
    if |s| < n then (None, s) else (Some(s[..n]), s[n..])
  }

  /** The next chunk at the head of the bytes that will ever arrive, and what follows it. */
  function ChunkOf(s: string): (Next, string) {
    match LineOf(s)
    case (None, rest) => (if AllHex(rest) then Eof else Failed(UnreadableTail), rest)
    case (Some(line), rest) =>
      match SizeOf(line)
      case None => (Failed(UnreadableSize), rest)
      case Some(size) => if size == 0 then EndOf(rest) else DataOf(rest, size)
  }

  /** Behind the zero chunk's line: an empty line, or the end of the stream. */
  function EndOf(s: string): (Next, string) {
    var (trailer, rest) := LineOf(s);
    (if trailer == None || trailer == Some("") then Terminator else Failed(TerminatorFollowed), rest)
  }

  /** Behind a size line: the data, and a CRLF unless the stream ends there. */
  function DataOf(s: string, size: nat): (Next, string) {
    match TakeOf(s, size)
    case (None, rest) => (Eof, rest)
    case (Some(data), rest) =>
      var (end, rest') := TakeOf(rest, 2);
      (if end.Some? && end.value != CRLF then Failed(NotFollowedByCRLF) else Data(data), rest')
  }

  method NextChunk(r: Reader) returns (next: Next)
    requires r.Valid()
    modifies r, r.sock
    ensures r.Valid()
    ensures next == ChunkOf(old(r.Remaining())).0 && r.Remaining() == ChunkOf(old(r.Remaining())).1
  {
    var sizeLine := r.Line();
    if sizeLine.None? {
      if r.buf != "" && !AllHex(r.buf) {
        return Failed(UnreadableTail);
      }
      return Eof;
    }
    var size := SizeOf(sizeLine.value);
    if size.None? {
      return Failed(UnreadableSize);
    }
    if size.value == 0 {
      var trailer := r.Line();
      if trailer != None && trailer != Some("") {
        return Failed(TerminatorFollowed);
      }
      return Terminator;
    }
    var data := r.Take(size.value);
    if data.None? {
      return Eof;
    }
    var end := r.Take(2);
    if end.Some? && end.value != CRLF {
      return Failed(NotFollowedByCRLF);
    }
    return Data(data.value);
  }

  /** How a stream read chunk by chunk to its end turned out. */
  datatype Ending = Ending(chunks: seq<string>, last: Next)

  /** `last` is the first answer that is no data. */
  function ChunksOf(s: string): Ending
    decreases |s|
  {
    var (next, rest) := ChunkOf(s);
    if next.Data? && |rest| < |s| then
      var e := ChunksOf(rest);
      e.(chunks := [next.data] + e.chunks)
    else Ending([], next)
  }

  lemma DataShrinks(s: string)
    requires ChunkOf(s).0.Data?
    ensures |ChunkOf(s).1| < |s|
  {
  }

  /** The probe's loop: chunks until the terminator, the end of the stream or a failure. */
  method ReadToEnd(r: Reader) returns (chunks: seq<string>, last: Next)
    requires r.Valid()
    modifies r, r.sock
    ensures r.Valid()
    ensures Ending(chunks, last) == ChunksOf(old(r.Remaining())) && !last.Data?
  {
    chunks := [];
    ghost var whole := ChunksOf(r.Remaining());
    while true
      invariant r.Valid()
      invariant whole == ChunksOf(r.Remaining()).(chunks := chunks + ChunksOf(r.Remaining()).chunks)
      decreases |r.Remaining()|
    {
      ghost var s := r.Remaining();
      last := NextChunk(r);
      if !last.Data? {
        Held.AppendNone(chunks);
        return;
      }
      DataShrinks(s);
      ListAssoc(chunks, [last.data], ChunksOf(r.Remaining()).chunks);
      chunks := chunks + [last.data];
    }
  }

  lemma ListAssoc<T>(a: seq<T>, b: seq<T>, c: seq<T>)
    ensures (a + b) + c == a + (b + c)
  {
  }

  // ----- truncation ------------------------------------------------------------------

  /** What a cut leaves of a size line, its CR counted, could not begin a size. */
  predicate TailUnreadable(line: string, k: nat)
    requires k < |line| + 2
  {
    !AllHex((line + "\r")[..k])
  }

  /** The cuts the probe takes for a broken stream: those that leave a tail that could not begin a
      size. Behind a chunk's data that is the cut between the CR and the LF. */
  predicate BrokenCut(cs: seq<Chunk>, zero: string, k: nat) {
    if cs == [] then k < |zero| + 2 && TailUnreadable(zero, k)
    else if k < |cs[0].line| + 2 then TailUnreadable(cs[0].line, k)
    else if k < |EncodeChunk(cs[0])| then k == |EncodeChunk(cs[0])| - 1
    else BrokenCut(cs[1..], zero, k - |EncodeChunk(cs[0])|)
  }

  lemma LineCut(line: string, more: string, k: nat)
    requires Find(line, CRLF, 0).None? && k <= |line| + 2 + |more|
    ensures var s := (line + CRLF + more)[..k];
            && (k < |line| + 2 ==> LineOf(s) == (None, (line + "\r")[..k]))
            && (k >= |line| + 2 ==> LineOf(s) == (Some(line), more[..k - |line| - 2]))
  {
    hide LineOf, Find;
    if k < |line| + 2 {
      LineCutShort(line, more, k);
    } else {
      LineCutLong(line, more, k);
    }
  }

  lemma LineCutShort(line: string, more: string, k: nat)
    requires Find(line, CRLF, 0).None? && k < |line| + 2
    ensures LineOf((line + CRLF + more)[..k]) == (None, (line + "\r")[..k])
  {
    hide LineOf, Find;
    FindCutLine(line, more, k);
    CutBeforeLF(line, more, k);
    LineFound((line + CRLF + more)[..k]);
  }

  lemma LineCutLong(line: string, more: string, k: nat)
    requires Find(line, CRLF, 0).None? && |line| + 2 <= k <= |line| + 2 + |more|
    ensures LineOf((line + CRLF + more)[..k]) == (Some(line), more[..k - |line| - 2])
  {
    hide LineOf, Find;
    Held.SizeLineCut(line, more, k);
    LineFound((line + CRLF + more)[..k]);
  }

  lemma LineFound(s: string)
    ensures LineOf(s) == match Find(s, CRLF, 0) case None => (None, s) case Some(end) => (Some(s[..end]), s[end + 2..])
  {
    hide Find;
  }

  lemma CutBeforeLF(line: string, more: string, k: nat)
    requires k < |line| + 2
    ensures (line + CRLF + more)[..k] == (line + "\r")[..k]
  {
    assert line + CRLF + more == (line + "\r") + ("\n" + more);
  }

  lemma CutInSizeLine(line: string, more: string, k: nat)
    requires Find(line, CRLF, 0).None? && k < |line| + 2
    ensures ChunksOf((line + CRLF + more)[..k]) ==
              Ending([], if TailUnreadable(line, k) then Failed(UnreadableTail) else Eof)
  {
    LineCut(line, more, k);
  }

  /** Behind a size line, the data and its CRLF as far as the cut leaves them. */
  lemma DataCut(data: string, tail: string, t: string)
    requires data != "" && t <= data + CRLF + tail
    ensures |t| < |data| ==> DataOf(t, |data|).0 == Eof
    ensures |t| == |data| ==> DataOf(t, |data|) == (Data(data), "")
    ensures |t| == |data| + 1 ==> DataOf(t, |data|) == (Data(data), "\r")
    ensures |t| >= |data| + 2 ==> DataOf(t, |data|) == (Data(data), t[|data| + 2..])
  {
    var n := |data|;
    if |t| >= n {
      assert t[..n] == data;
      assert t[n..] == (CRLF + tail)[..|t| - n];
      if |t| == n + 1 {
        assert t[n..] == "\r";
      } else if |t| >= n + 2 {
        assert t[n..][..2] == CRLF && t[n..][2..] == t[n + 2..];
      }
    }
  }

  lemma BareTails()
    ensures ChunksOf("") == Ending([], Eof)
    ensures ChunksOf("\r") == Ending([], Failed(UnreadableTail))
  {
    assert Find("", CRLF, 0).None?;
    assert Find("\r", CRLF, 1).None?;
    assert Find("\r", CRLF, 0).None?;
    assert !IsHex("\r"[0]);
  }

  function Behind(data: string, e: Ending): Ending {
    e.(chunks := [data] + e.chunks)
  }

  lemma OneChunk(s: string, data: string, rest: string)
    requires ChunkOf(s) == (Data(data), rest)
    ensures ChunksOf(s) == Behind(data, ChunksOf(rest))
  {
    DataShrinks(s);
  }

  /** A cut inside a chunk. */
  lemma CutInsideChunk(c: Chunk, tail: string, k: nat)
    requires WellFormed(c) && |c.line| + 2 <= k < |EncodeChunk(c)|
    ensures ChunksOf((EncodeChunk(c) + tail)[..k]) ==
              if k < |EncodeChunk(c)| - 2 then Ending([], Eof)
              else Ending([c.data], if k == |EncodeChunk(c)| - 1 then Failed(UnreadableTail) else Eof)
  {
    var s, t := (EncodeChunk(c) + tail)[..k], (c.data + CRLF + tail)[..k - |c.line| - 2];
    assert LineOf(s) == (Some(c.line), t) by {
      assert EncodeChunk(c) + tail == c.line + CRLF + (c.data + CRLF + tail);
      LineCut(c.line, c.data + CRLF + tail, k);
    }
    assert ChunkOf(s) == DataOf(t, |c.data|);
    DataCut(c.data, tail, t);
    BareTails();
    if k == |EncodeChunk(c)| - 2 {
      OneChunk(s, c.data, "");
    } else if k == |EncodeChunk(c)| - 1 {
      OneChunk(s, c.data, "\r");
    }
  }

  /** A cut behind a whole chunk. */
  lemma CutBehindChunk(c: Chunk, tail: string, k: nat)
    requires WellFormed(c) && |EncodeChunk(c)| <= k <= |EncodeChunk(c)| + |tail|
    ensures ChunksOf((EncodeChunk(c) + tail)[..k]) == Behind(c.data, ChunksOf(tail[..k - |EncodeChunk(c)|]))
  {
    var s, t := (EncodeChunk(c) + tail)[..k], (c.data + CRLF + tail)[..k - |c.line| - 2];
    Push.ChunkIs(c, tail);
    Push.ChunkText(c, tail, k);
    LineCut(c.line, c.data + CRLF + tail, k);
    hide LineOf, EncodeChunk, ChunksOf;
    SizedChunk(s, c.line, t, |c.data|);
    DataCut(c.data, tail, t);
    hide *;
    OneChunk(s, c.data, tail[..k - |EncodeChunk(c)|]);
  }

  lemma SizedChunk(s: string, line: string, rest: string, size: nat)
    requires LineOf(s) == (Some(line), rest) && SizeOf(line) == Some(size) && size > 0
    ensures ChunkOf(s) == DataOf(rest, size)
  {
    hide LineOf, DataOf, SizeOf;
  }

  lemma ZeroCut(zero: string, k: nat)
    requires IsSizeLine(zero, 0) && k <= |zero| + 4
    ensures ChunksOf((zero + CRLF + CRLF)[..k]) ==
              Ending([], if k >= |zero| + 2 then Terminator
                         else if TailUnreadable(zero, k) then Failed(UnreadableTail)
                         else Eof)
  {
    if k < |zero| + 2 {
      CutInSizeLine(zero, CRLF, k);
    } else {
      LineCut(zero, CRLF, k);
      var rest := CRLF[..k - |zero| - 2];
      assert "" + CRLF + "" == CRLF;
      LineCut("", "", |rest|);
    }
  }

  function LastAnswer(cs: seq<Chunk>, zero: string, k: nat): Next {
    if k >= ZeroEnd(cs, zero) then Terminator
    else if BrokenCut(cs, zero, k) then Failed(UnreadableTail)
    else Eof
  }

  lemma LastAnswerStep(cs: seq<Chunk>, zero: string, k: nat)
    requires cs != [] && k >= |EncodeChunk(cs[0])|
    ensures LastAnswer(cs, zero, k) == LastAnswer(cs[1..], zero, k - |EncodeChunk(cs[0])|)
  {
  }

  /** Every cut of every message, chunk extensions or not: the chunks read are exactly those all of
      whose data arrived, in order; the terminator is seen exactly when its line is whole; and the
      stream is called broken exactly at the cuts that leave a tail which could not begin a size. */
  lemma {:induction false} TruncationRead(cs: seq<Chunk>, zero: string, k: nat)
    requires AllWellFormed(cs) && IsSizeLine(zero, 0)
    requires k <= |Message(cs, zero)|
    ensures ChunksOf(Message(cs, zero)[..k]) == Ending(Arrived(cs, k), LastAnswer(cs, zero, k))
    decreases |cs|
  {
    hide *;
    if cs == [] {
      TruncationZero(zero, k);
    } else if k < |EncodeChunk(cs[0])| {
      TruncationFirst(cs, zero, k);
    } else {
      FirstWellFormed(cs, zero);
      TruncationRead(cs[1..], zero, k - |EncodeChunk(cs[0])|);
      TruncationStep(cs, zero, k);
    }
  }

  lemma TruncationZero(zero: string, k: nat)
    requires IsSizeLine(zero, 0) && k <= |Message([], zero)|
    ensures ChunksOf(Message([], zero)[..k]) == Ending(Arrived([], k), LastAnswer([], zero, k))
  {
    ZeroCut(zero, k);
    hide ChunksOf;
  }

  lemma FirstWellFormed(cs: seq<Chunk>, zero: string)
    requires AllWellFormed(cs) && cs != []
    ensures WellFormed(cs[0]) && AllWellFormed(cs[1..])
    ensures |Message(cs, zero)| == |EncodeChunk(cs[0])| + |Message(cs[1..], zero)|
  {
    hide EncodeChunk, WellFormed;
  }

  lemma TruncationFirst(cs: seq<Chunk>, zero: string, k: nat)
    requires AllWellFormed(cs) && cs != [] && k < |EncodeChunk(cs[0])|
    requires k <= |Message(cs, zero)|
    ensures ChunksOf(Message(cs, zero)[..k]) == Ending(Arrived(cs, k), LastAnswer(cs, zero, k))
  {
    var c, tail := cs[0], Message(cs[1..], zero);
    FirstWellFormed(cs, zero);
    hide WellFormed, AllWellFormed, ChunksOf;
    if k < |c.line| + 2 {
      FirstLineCut(c, tail, k);
    } else {
      CutInsideChunk(c, tail, k);
    }
  }

  lemma TruncationStep(cs: seq<Chunk>, zero: string, k: nat)
    requires cs != [] && WellFormed(cs[0]) && |EncodeChunk(cs[0])| <= k <= |Message(cs, zero)|
    requires var k' := k - |EncodeChunk(cs[0])|;
             ChunksOf(Message(cs[1..], zero)[..k']) == Ending(Arrived(cs[1..], k'), LastAnswer(cs[1..], zero, k'))
    ensures ChunksOf(Message(cs, zero)[..k]) == Ending(Arrived(cs, k), LastAnswer(cs, zero, k))
  {
    CutBehindChunk(cs[0], Message(cs[1..], zero), k);
    LastAnswerStep(cs, zero, k);
  }

  lemma FirstLineCut(c: Chunk, tail: string, k: nat)
    requires WellFormed(c) && k < |c.line| + 2
    ensures ChunksOf((EncodeChunk(c) + tail)[..k]) ==
              Ending([], if TailUnreadable(c.line, k) then Failed(UnreadableTail) else Eof)
  {
    assert EncodeChunk(c) + tail == c.line + CRLF + (c.data + CRLF + tail);
    CutInSizeLine(c.line, c.data + CRLF + tail, k);
  }

  /** Without chunk extensions, the broken cuts are the cuts between a framing CR and its LF. */
  predicate SplitsCRLF(cs: seq<Chunk>, zero: string, k: nat) {
    if cs == [] then k == |zero| + 1
    else if k < |EncodeChunk(cs[0])| then k == |cs[0].line| + 1 || k == |EncodeChunk(cs[0])| - 1
    else SplitsCRLF(cs[1..], zero, k - |EncodeChunk(cs[0])|)
  }

  lemma TailUnreadableIff(line: string, k: nat)
    requires AllHex(line) && k < |line| + 2
    ensures TailUnreadable(line, k) <==> k == |line| + 1
  {
    if k == |line| + 1 {
      assert !IsHex((line + "\r")[..k][|line|]);
    } else {
      assert (line + "\r")[..k] == line[..k];
    }
  }

  lemma {:induction false} BrokenCutIff(cs: seq<Chunk>, zero: string, k: nat)
    requires AllHex(zero) && forall i :: 0 <= i < |cs| ==> AllHex(cs[i].line)
    ensures BrokenCut(cs, zero, k) <==> SplitsCRLF(cs, zero, k)
    decreases |cs|
  {
    if cs == [] {
      if k < |zero| + 2 {
        TailUnreadableIff(zero, k);
      }
    } else if k < |cs[0].line| + 2 {
      TailUnreadableIff(cs[0].line, k);
    } else if k >= |EncodeChunk(cs[0])| {
      BrokenCutIff(cs[1..], zero, k - |EncodeChunk(cs[0])|);
    }
  }

  /** A farewell comment where a chunk size belongs is refused, with a CRLF behind it or without,
      whatever follows. */
  lemma ColonRefused(s: string)
    requires s != "" && s[0] == ':'
    ensures ChunkOf(s).0.Failed?
  {
    match Find(s, CRLF, 0)
    case None =>
      assert !IsHex(s[0]);
    case Some(end) =>
      if end == 0 {
        OccursStart(s, CRLF, 0);
      } else {
        var line := s[..end];
        var t := Before(line, ';');
        assert t != "" && t[0] == ':';
        ColonNotHex(t);
      }
  }

  lemma {:induction false} ColonNotHex(t: string)
    requires t != "" && t[0] == ':'
    ensures ParseHex(t).None?
    decreases |t|
  {
    if White(t[|t| - 1]) {
      assert |t| > 1;
      ColonNotHex(t[..|t| - 1]);
      assert Strip(t) == Strip(t[..|t| - 1]);
    } else {
      assert !IsHex(Strip(t)[0]);
    }
  }

  lemma {:induction false} ColonBehindChunks(cs: seq<Chunk>, s: string)
    requires AllWellFormed(cs) && s != "" && s[0] == ':'
    ensures ChunksOf(Encode(cs) + s).last.Failed?
    ensures ChunksOf(Encode(cs) + s).chunks == Arrived(cs, |Encode(cs)|)
    decreases |cs|
  {
    if cs == [] {
      assert Encode(cs) + s == s;
      ColonRefused(s);
    } else {
      assert WellFormed(cs[0]);
      ColonBehindChunks(cs[1..], s);
      ChunkBefore(cs, s);
    }
  }

  lemma ChunkBefore(cs: seq<Chunk>, s: string)
    requires cs != [] && WellFormed(cs[0])
    ensures ChunksOf(Encode(cs) + s) == Behind(cs[0].data, ChunksOf(Encode(cs[1..]) + s))
  {
    Assoc(EncodeChunk(cs[0]), Encode(cs[1..]), s);
    WholeChunkRead(cs[0], Encode(cs[1..]) + s);
  }

  lemma WholeChunkRead(c: Chunk, tail: string)
    requires WellFormed(c)
    ensures ChunksOf(EncodeChunk(c) + tail) == Behind(c.data, ChunksOf(tail))
  {
    var s, t := EncodeChunk(c) + tail, c.data + CRLF + tail;
    assert LineOf(s) == (Some(c.line), t) by {
      hide EncodeChunk, ChunksOf;
      ChunkParts(c, tail);
      FindLineEnd(c.line, t);
      assert (c.line + CRLF + t)[..|c.line|] == c.line && (c.line + CRLF + t)[|c.line| + 2..] == t;
    }
    assert DataOf(t, |c.data|) == (Data(c.data), tail) by {
      hide ChunksOf;
      DataCut(c.data, tail, t);
      assert t[|c.data| + 2..] == tail;
    }
    OneChunk(s, c.data, tail);
  }

  lemma ChunkParts(c: Chunk, tail: string)
    ensures EncodeChunk(c) + tail == c.line + CRLF + (c.data + CRLF + tail)
  {
  }

  /** At every cut the strict reader's output lies between the held stream's and `Dechunk`'s, and on a
      chunk boundary the three are one. */
  lemma BetweenHeldAndPush(cs: seq<Chunk>, zero: string, k: nat)
    requires AllWellFormed(cs) && IsSizeLine(zero, 0)
    requires k <= |Message(cs, zero)|
    ensures var s := Message(cs, zero)[..k];
            var held, strict := Concat(Held.WholeChunks(s).fed), Concat(ChunksOf(s).chunks);
            var pushed := Push.Decode(s, 0).out;
            && held <= strict <= pushed
            && (OnBoundary(cs, k) ==> held == strict == pushed)
  {
    TruncationRead(cs, zero, k);
    Held.WholeChunksCut(cs, zero, k);
    Push.DecodeCut(cs, zero, k);
    ReadingsOrdered(cs, k);
    if OnBoundary(cs, k) {
      ReadingsAgreeOnBoundary(cs, k);
    }
  }

  // ----- any bytes at all ------------------------------------------------------------

  /** On any bytes, well formed or not, `Dechunk` given them in one call puts out all the strict reader's
      chunks and perhaps more; the same and no more where the reader sees the terminator, at which `Dechunk`
      then stops too; and it is left hungry where the reader sees a clean end. */
  lemma {:induction false} StrictRefinesDechunk(s: string)
    ensures var e, d := ChunksOf(s), Push.Decode(s, 0);
            && Concat(e.chunks) <= d.out
            && (e.last.Terminator? ==> Concat(e.chunks) == d.out && d.stop.Terminator?)
            && (e.last.Eof? ==> d.stop.Hungry?)
    decreases |s|
  {
    hide *;
    var (next, rest) := ChunkOf(s);
    ChunksFirst(s);
    if next.Data? {
      DataShrinks(s);
      DataAgrees(s);
      StrictRefinesDechunk(rest);
      PrependConcat(next.data, ChunksOf(rest).chunks, Push.Decode(rest, 0));
    } else {
      LastAgrees(s);
      ConcatNone(Push.Decode(s, 0).out);
    }
  }

  lemma ChunksFirst(s: string)
    ensures var (next, rest) := ChunkOf(s);
            ChunksOf(s) == if next.Data? then Behind(next.data, ChunksOf(rest)) else Ending([], next)
  {
    var (next, rest) := ChunkOf(s);
    if next.Data? {
      OneChunk(s, next.data, rest);
    }
    hide ChunkOf;
  }

  lemma PrependConcat(data: string, chunks: seq<string>, d: Push.Run)
    requires Concat(chunks) <= d.out
    ensures var e, p := Behind(data, Ending(chunks, Eof)), Push.Prepend(data, d);
            && Concat(e.chunks) <= p.out && (Concat(chunks) == d.out ==> Concat(e.chunks) == p.out)
            && p.stop == d.stop
    ensures forall last :: Behind(data, Ending(chunks, last)) == Ending([data] + chunks, last)
  {
    assert ([data] + chunks)[1..] == chunks;
  }

  lemma ConcatNone(out: string)
    ensures Concat([]) == "" && "" <= out
  {
  }

  lemma SizedFirst(s: string, line: string, rest: string, size: nat)
    requires LineOf(s) == (Some(line), rest) && SizeOf(line) == Some(size)
    ensures Push.Decode(s, 0) ==
              if size == 0 then Push.Run("", rest, 0, Push.Terminator) else Push.Decode(rest, size)
  {
    assert SizeOf("").None?;
    assert Push.ReadHead(s) == Push.Sized(size, rest);
    hide SizeOf, Find;
  }

  /** A chunk both readers read. */
  lemma DataAgrees(s: string)
    requires ChunkOf(s).0.Data?
    ensures Push.Decode(s, 0) == Push.Prepend(ChunkOf(s).0.data, Push.Decode(ChunkOf(s).1, 0))
  {
    var (line, rest) := LineOf(s);
    var size := SizeOf(line.value).value;
    SizedFirst(s, line.value, rest, size);
    Push.TakeAll(rest, size);
    var behind := rest[size..];
    if |behind| >= 2 {
      assert behind == CRLF + behind[2..];
      Push.AfterData(behind, behind[2..]);
    }
    hide Push.Decode, LineOf, SizeOf;
  }

  /** An answer that is no data. */
  lemma LastAgrees(s: string)
    requires !ChunkOf(s).0.Data?
    ensures ChunkOf(s).0.Terminator? ==> Push.Decode(s, 0).out == "" && Push.Decode(s, 0).stop.Terminator?
    ensures ChunkOf(s).0.Eof? ==> Push.Decode(s, 0).stop.Hungry?
  {
    var (line, rest) := LineOf(s);
    if line.Some? && SizeOf(line.value).Some? {
      var size := SizeOf(line.value).value;
      SizedFirst(s, line.value, rest, size);
      if size > 0 {
        Push.TakeAll(rest, size);
      }
      hide Push.Decode, LineOf, SizeOf;
    }
  }
}
