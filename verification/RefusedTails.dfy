/** Where the pull reader of scripts/chunked_keepalive.py and the held stream of scripts/demo_probe.py leave off behind
    whole chunks: the tails the strict reader tells apart, as these two take them. */
module RefusedTails {
  import opened Text
  import opened TextMeans
  import opened Chunked
  import opened ChunkLines
  import opened DrainEndings
  import Pull = ChunkedKeepalive
  import Held = DemoProbe

  // ----- the pull reader -----------------------------------------------------------------------------

  /** The error the body ends in; None where trailers follow the zero chunk. */
  function PullError(t: Tail): Option<Pull.Error> {
    match t
    case Nothing(_) => Some(Pull.Closed)
    case BadSize(_, _) => Some(Pull.UnreadableSize)
    case Zero(_, _) => Some(Pull.Closed)
    case ZeroThen(_, _, _) => None
    case Short(_, _, _) => Some(Pull.Closed)
    case Unclosed(_, _, _, _) => Some(Pull.NotFollowedByCRLF)
  }

  lemma PullLine(line: string, more: string)
    requires NoEnd(line)
    ensures Pull.LineOf(line + (CRLF + more)) == (Pull.Ok(line), more)
  {
    Assoc(line, CRLF, more);
    Pull.LineOfLine(line, more);
  }

  lemma PullData(data: string, end: string, more: string)
    requires |end| == 2 && end != CRLF
    ensures Pull.DataOf(data + (end + more), |data|).0 == Pull.Err(Pull.NotFollowedByCRLF)
  {
    var t, u := data + (end + more), end + more;
    assert t[..|data|] == data && t[|data|..] == u && u[..2] == end;
  }

  lemma PullTail(t: Tail, body: string)
    requires GoodTail(t) && PullError(t).Some?
    ensures Pull.BodyOf(Bytes(t), body).0 == Pull.Err(PullError(t).value)
  {
    hide SizeOf, NamesSize, Pull.LineOf, Pull.DataOf;
    match t
    case Nothing(tail) =>
      PullNoLine(tail);
    case BadSize(line, more) =>
      PullLine(line, more);
      NoSize(line);
    case Zero(line, tail) =>
      PullLine(line, tail);
      SizeRead(line, 0);
      PullNoLine(tail);
    case Short(line, size, data) =>
      PullLine(line, data);
      SizeRead(line, size);
      PullShort(data, size);
    case Unclosed(line, data, end, more) =>
      PullLine(line, data + (end + more));
      SizeRead(line, |data|);
      PullData(data, end, more);
  }

  lemma PullNoLine(tail: string)
    requires NoEnd(tail)
    ensures Pull.LineOf(tail) == (Pull.Err(Pull.Closed), tail)
  {
  }

  lemma PullShort(data: string, size: nat)
    requires |data| < size
    ensures Pull.DataOf(data, size).0 == Pull.Err(Pull.Closed)
  {
  }

  /** Behind any number of whole chunks, the pull reader ends in the error its tail asks for. */
  lemma {:induction false} PullEnds(cs: seq<Chunk>, t: Tail, body: string)
    requires AllWellFormed(cs) && GoodTail(t) && PullError(t).Some?
    ensures Pull.BodyOf(Encode(cs) + Bytes(t), body).0 == Pull.Err(PullError(t).value)
    decreases |cs|
  {
    hide GoodTail, Bytes, PullError, WellFormed, Pull.BodyOf;
    if cs == [] {
      PullTail(t, body);
      assert Encode(cs) + Bytes(t) == Bytes(t);
    } else {
      assert WellFormed(cs[0]);
      Assoc(EncodeChunk(cs[0]), Encode(cs[1..]), Bytes(t));
      Pull.ChunkRead(cs[0], Encode(cs[1..]) + Bytes(t), body);
      PullEnds(cs[1..], t, body + cs[0].data);
    }
  }

  // ----- the held stream -----------------------------------------------------------------------------

  /** Why the stream leaves off; None where the two bytes behind the data are skipped unread. */
  function HeldStop(t: Tail): Option<Held.Stop> {
    match t
    case Nothing(_) => Some(Held.Hungry)
    case BadSize(_, _) => Some(Held.BadSize)
    case Zero(_, _) => Some(Held.Ended)
    case ZeroThen(_, _, _) => Some(Held.Ended)
    case Short(_, _, _) => Some(Held.Hungry)
    case Unclosed(_, _, _, _) => None
  }

  lemma HeldLine(line: string, more: string)
    requires NoEnd(line)
    ensures var s := line + (CRLF + more);
            Find(s, CRLF, 0) == Some(|line|) && s[..|line|] == line && s[|line| + 2..] == more
  {
    FindLineEnd(line, more);
    Assoc(line, CRLF, more);
  }

  lemma HeldTail(t: Tail)
    requires GoodTail(t) && HeldStop(t).Some?
    ensures Held.WholeChunks(Bytes(t)) == Held.Run([], Bytes(t), HeldStop(t).value)
  {
    hide SizeOf, NamesSize;
    match t
    case Nothing(tail) =>
    case BadSize(line, more) =>
      HeldLine(line, more);
      NoSize(line);
    case Zero(line, tail) =>
      HeldLine(line, tail);
      SizeRead(line, 0);
    case ZeroThen(line, next, more) =>
      HeldLine(line, next + (CRLF + more));
      SizeRead(line, 0);
    case Short(line, size, data) =>
      HeldLine(line, data);
      SizeRead(line, size);
  }

  /** Behind any number of whole chunks, all of which are fed, the tail stays in the buffer. */
  lemma {:induction false} HeldEnds(cs: seq<Chunk>, t: Tail)
    requires AllWellFormed(cs) && GoodTail(t) && HeldStop(t).Some?
    ensures Held.WholeChunks(Encode(cs) + Bytes(t)) == Held.Run(Datas(cs), Bytes(t), HeldStop(t).value)
    decreases |cs|
  {
    hide GoodTail, Bytes, HeldStop, WellFormed, Held.WholeChunks;
    if cs == [] {
      HeldTail(t);
      assert Encode(cs) + Bytes(t) == Bytes(t) && Datas(cs) == [];
    } else {
      assert WellFormed(cs[0]);
      Assoc(EncodeChunk(cs[0]), Encode(cs[1..]), Bytes(t));
      Held.WholeChunkRead(cs[0], Encode(cs[1..]) + Bytes(t));
      HeldEnds(cs[1..], t);
      assert Datas(cs) == [cs[0].data] + Datas(cs[1..]);
    }
  }
}
