/** How the strict reader of scripts/drain_stream_probe.py ends, in terms of the bytes behind the last whole chunk. */
module DrainEndings {
  import opened Text
  import opened TextMeans
  import opened Chunked
  import opened ChunkLines
  import opened DrainStreamProbe

  /** What stands where the next chunk would begin. */
  datatype Tail =
    | Nothing(tail: string)                                                  // no line at all
    | BadSize(line: string, more: string)                                    // a line that names no size
    | Zero(line: string, tail: string)                                       // the zero chunk, and no line behind it
    | ZeroThen(line: string, next: string, more: string)                     // the zero chunk, and a line
    | Short(line: string, size: nat, data: string)                           // fewer bytes than the size says
    | Unclosed(line: string, data: string, end: string, more: string)        // two bytes behind it, and no CRLF

  function Bytes(t: Tail): string {
    match t
    case Nothing(tail) => tail
    case BadSize(line, more) => line + (CRLF + more)
    case Zero(line, tail) => line + (CRLF + tail)
    case ZeroThen(line, next, more) => line + (CRLF + (next + (CRLF + more)))
    case Short(line, _, data) => line + (CRLF + data)
    case Unclosed(line, data, end, more) => line + (CRLF + (data + (end + more)))
  }

  /** A line or a rest in which no line ends. */
  predicate NoEnd(s: string) {
    Find(s, CRLF, 0).None?
  }

  ghost predicate GoodTail(t: Tail) {
    match t
    case Nothing(tail) => NoEnd(tail)
    case BadSize(line, _) => NoEnd(line) && forall n :: !NamesSize(line, n)
    case Zero(line, tail) => NoEnd(line) && NamesSize(line, 0) && NoEnd(tail)
    case ZeroThen(line, next, _) => NoEnd(line) && NamesSize(line, 0) && NoEnd(next)
    case Short(line, size, data) => NoEnd(line) && NamesSize(line, size) && |data| < size
    case Unclosed(line, data, end, _) =>
      NoEnd(line) && NamesSize(line, |data|) && data != "" && |end| == 2 && end != "\r\n"
  }

  /** A clean end or a broken stream: only a tail that could begin a size, a short chunk, and the zero chunk with an
      empty line or no line behind it are no failure. */
  function EndFor(t: Tail): Next {
    match t
    case Nothing(tail) => if AllHex(tail) then Eof else Failed(UnreadableTail)
    case BadSize(_, _) => Failed(UnreadableSize)
    case Zero(_, _) => Terminator
    case ZeroThen(_, next, _) => if next == "" then Terminator else Failed(TerminatorFollowed)
    case Short(_, _, _) => Eof
    case Unclosed(_, _, _, _) => Failed(NotFollowedByCRLF)
  }

  lemma LineRead(line: string, more: string)
    requires NoEnd(line)
    ensures LineOf(line + (CRLF + more)) == (Some(line), more)
  {
    FindLineEnd(line, more);
    Assoc(line, CRLF, more);
    assert (line + CRLF + more)[..|line|] == line && (line + CRLF + more)[|line| + 2..] == more;
  }

  lemma SizeRead(line: string, n: nat)
    requires NamesSize(line, n)
    ensures SizeOf(line) == Some(n)
  {
    SizeLineExactly(line, n);
  }

  lemma NoSize(line: string)
    requires forall n :: !NamesSize(line, n)
    ensures SizeOf(line) == None
  {
    if SizeOf(line).Some? {
      SizeLineExactly(line, SizeOf(line).value);
    }
  }

  lemma DataThen(data: string, end: string, more: string)
    requires |end| == 2
    ensures var t := data + (end + more);
            TakeOf(t, |data|) == (Some(data), end + more) && TakeOf(end + more, 2) == (Some(end), more)
  {
    var t, u := data + (end + more), end + more;
    assert t[..|data|] == data && t[|data|..] == u;
    assert u[..2] == end && u[2..] == more;
  }

  lemma TailRead(t: Tail)
    requires GoodTail(t)
    ensures ChunkOf(Bytes(t)).0 == EndFor(t)
  {
    hide SizeOf, NamesSize, AllHex, LineOf, TakeOf;
    match t
    case Nothing(tail) =>
      NoLine(tail);
    case BadSize(line, more) =>
      LineRead(line, more);
      NoSize(line);
    case Zero(line, tail) =>
      LineRead(line, tail);
      SizeRead(line, 0);
      NoLine(tail);
    case ZeroThen(line, next, more) =>
      LineRead(line, next + (CRLF + more));
      SizeRead(line, 0);
      LineRead(next, more);
    case Short(line, size, data) =>
      LineRead(line, data);
      SizeRead(line, size);
      TooShort(data, size);
    case Unclosed(line, data, end, more) =>
      LineRead(line, data + (end + more));
      SizeRead(line, |data|);
      DataThen(data, end, more);
  }

  lemma NoLine(tail: string)
    requires NoEnd(tail)
    ensures LineOf(tail) == (None, tail)
  {
  }

  lemma TooShort(data: string, size: nat)
    requires |data| < size
    ensures TakeOf(data, size) == (None, data)
  {
  }

  function Datas(cs: seq<Chunk>): (datas: seq<string>)
    ensures |datas| == |cs| && forall i :: 0 <= i < |cs| ==> datas[i] == cs[i].data
  {
    seq(|cs|, i requires 0 <= i < |cs| => cs[i].data)
  }

  /** Behind any number of whole chunks, all of which are returned, the stream ends as its tail says. */
  lemma {:induction false} StreamEnds(cs: seq<Chunk>, t: Tail)
    requires AllWellFormed(cs) && GoodTail(t)
    ensures ChunksOf(Encode(cs) + Bytes(t)) == Ending(Datas(cs), EndFor(t))
    decreases |cs|
  {
    hide GoodTail, Bytes, EndFor, WellFormed, ChunksOf;
    if cs == [] {
      NothingBefore(t);
      assert Datas(cs) == [];
    } else {
      assert WellFormed(cs[0]);
      ChunkBefore(cs, Bytes(t));
      StreamEnds(cs[1..], t);
      assert Datas(cs) == [cs[0].data] + Datas(cs[1..]);
    }
  }

  lemma NothingBefore(t: Tail)
    requires GoodTail(t)
    ensures ChunksOf(Encode([]) + Bytes(t)) == Ending([], EndFor(t))
  {
    hide GoodTail, Bytes, EndFor, ChunkOf;
    TailRead(t);
    EndsNoData(t);
    assert Encode([]) + Bytes(t) == Bytes(t);
  }

  lemma EndsNoData(t: Tail)
    ensures !EndFor(t).Data?
  {
  }
}
